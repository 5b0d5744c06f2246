/** The dual-heap statistics collector: a max-heap "lower half" and a
    min-heap "upper half", rebalanced after every push so that their roots
    are the middle order statistics of everything pushed. */
module HeapCollector {
  import opened Options
  import opened SortedStats
  import opened BinaryHeap

  /** `responses` is every value pushed, in order (kept for the average). */
  datatype Collector = Collector(responses: seq<real>, lower: Heap, upper: Heap)

  /** A new collector: nothing pushed, both halves empty, and so no median
      and no average yet. */
  function NewCollector(): (c: Collector)
    ensures Consistent(c)
    ensures |c.responses| == 0 && |c.lower.arr| == 0 && |c.upper.arr| == 0
    ensures GetMedian(c) == None && GetAverage(c) == None
  {
    Collector([], Heap(MaxFirst, []), Heap(MinFirst, []))
  }

  /** Size of the lower half minus size of the upper half. */
  function Imbalance(c: Collector): int {
    |c.lower.arr| - |c.upper.arr|
  }

  /** Every value kept in the lower half is at most every value kept in the
      upper half. */
  predicate Partitioned(c: Collector) {
    forall x, y :: x in c.lower.arr && y in c.upper.arr ==> x <= y
  }

  /** The two halves hold exactly the values pushed so far. */
  predicate Conserved(c: Collector) {
    multiset(c.lower.arr) + multiset(c.upper.arr) == multiset(c.responses)
  }

  predicate HalvesValid(c: Collector) {
    && c.lower.order == MaxFirst && c.upper.order == MinFirst
    && Valid(c.lower) && Valid(c.upper)
  }

  /** The invariant every push maintains. */
  predicate Consistent(c: Collector) {
    && HalvesValid(c)
    && -1 <= Imbalance(c) <= 1
    && Partitioned(c)
    && Conserved(c)
    && (|c.responses| > 0 ==> |c.lower.arr| > 0)
  }

  /** The routing step of pushValue: into the lower half when it is empty or
      the value is strictly below its root, otherwise into the upper half. */
  function Route(c: Collector, v: real): (r: Collector)
    ensures r.responses == c.responses
    ensures multiset(r.lower.arr) + multiset(r.upper.arr)
         == multiset(c.lower.arr) + multiset(c.upper.arr) + multiset{v}
    ensures Imbalance(r) == Imbalance(c) + 1 || Imbalance(r) == Imbalance(c) - 1
    ensures |c.lower.arr| == 0 ==> |r.lower.arr| > 0
    ensures |r.lower.arr| >= |c.lower.arr|
    ensures HalvesValid(c) ==> HalvesValid(r)
    ensures HalvesValid(c) && Partitioned(c) && (|c.lower.arr| == 0 ==> |c.upper.arr| == 0)
        ==> Partitioned(r)
    ensures (|c.lower.arr| == 0 || v < c.lower.arr[0]) ==>
      r.upper == c.upper && r.lower.order == c.lower.order
      && multiset(r.lower.arr) == multiset(c.lower.arr) + multiset{v}
    ensures !(|c.lower.arr| == 0 || v < c.lower.arr[0]) ==>
      r.lower == c.lower && r.upper.order == c.upper.order
      && multiset(r.upper.arr) == multiset(c.upper.arr) + multiset{v}
  {
    if |c.lower.arr| == 0 || v < c.lower.arr[0] then
      var r := c.(lower := AddToHeap(c.lower, v));
      RoutePartition(c, v, r);
      r
    else
      var r := c.(upper := AddToHeap(c.upper, v));
      RoutePartition(c, v, r);
      r
  }

  lemma RoutePartition(c: Collector, v: real, r: Collector)
    requires r == c.(lower := AddToHeap(c.lower, v)) || r == c.(upper := AddToHeap(c.upper, v))
    requires |c.lower.arr| == 0 || v < c.lower.arr[0] ==> r == c.(lower := AddToHeap(c.lower, v))
    requires !(|c.lower.arr| == 0 || v < c.lower.arr[0]) ==> r == c.(upper := AddToHeap(c.upper, v))
    ensures HalvesValid(c) && Partitioned(c) && (|c.lower.arr| == 0 ==> |c.upper.arr| == 0)
        ==> Partitioned(r)
  {
    if HalvesValid(c) && Partitioned(c) && (|c.lower.arr| == 0 ==> |c.upper.arr| == 0) {
      RootIsExtreme(MaxFirst, c.lower.arr);
      forall x, y | x in r.lower.arr && y in r.upper.arr
        ensures x <= y
      {
        assert x in multiset(r.lower.arr) && y in multiset(r.upper.arr);
        if |c.lower.arr| == 0 || v < c.lower.arr[0] {
          if x == v {
            assert y in c.upper.arr;
            assert c.lower.arr[0] in c.lower.arr;
          } else {
            assert x in c.lower.arr;
          }
        } else {
          if y == v {
            assert x in c.lower.arr;
          } else {
            assert y in c.upper.arr;
          }
        }
      }
    }
  }

  /** The transfer step of balanceTwoHeaps when the lower half is bigger:
      its root (the maximum) moves to the upper half, then the last item of
      the lower half is sifted up once more. */
  function ShiftFromLower(c: Collector): (r: Collector)
    requires |c.lower.arr| > 0
    ensures r.responses == c.responses
    ensures r.lower.order == c.lower.order && r.upper.order == c.upper.order
    ensures |r.lower.arr| == |c.lower.arr| - 1 && |r.upper.arr| == |c.upper.arr| + 1
    ensures multiset(r.lower.arr) + multiset(r.upper.arr)
         == multiset(c.lower.arr) + multiset(c.upper.arr)
    ensures HalvesValid(c) ==> HalvesValid(r)
    ensures HalvesValid(c) && Partitioned(c) ==> Partitioned(r)
  {
    var ex := ExtractRoot(c.lower);
    var r := c.(lower := MoveItemUp(ex.1), upper := AddToHeap(c.upper, ex.0.value));
    TransferDownContents(c, r);
    TransferDownPartition(c, r);
    r
  }

  /** The transfer step of balanceTwoHeaps when the upper half is bigger:
      its root (the minimum) moves to the lower half, then the last item of
      the upper half is sifted up once more. */
  function ShiftFromUpper(c: Collector): (r: Collector)
    requires |c.upper.arr| > 0
    ensures r.responses == c.responses
    ensures r.lower.order == c.lower.order && r.upper.order == c.upper.order
    ensures |r.lower.arr| == |c.lower.arr| + 1 && |r.upper.arr| == |c.upper.arr| - 1
    ensures multiset(r.lower.arr) + multiset(r.upper.arr)
         == multiset(c.lower.arr) + multiset(c.upper.arr)
    ensures HalvesValid(c) ==> HalvesValid(r)
    ensures HalvesValid(c) && Partitioned(c) ==> Partitioned(r)
  {
    var ex := ExtractRoot(c.upper);
    var r := c.(upper := MoveItemUp(ex.1), lower := AddToHeap(c.lower, ex.0.value));
    TransferUpContents(c, r);
    TransferUpPartition(c, r);
    r
  }

  /** balanceTwoHeaps: when the sizes differ by more than one, moves the root
      of the bigger half into the smaller half. One transfer repairs any
      difference of two, which is the most a single push can cause. */
  function Balance(c: Collector): (r: Collector)
    ensures r.responses == c.responses
    ensures r.lower.order == c.lower.order && r.upper.order == c.upper.order
    ensures multiset(r.lower.arr) + multiset(r.upper.arr)
         == multiset(c.lower.arr) + multiset(c.upper.arr)
    ensures -2 <= Imbalance(c) <= 2 ==> -1 <= Imbalance(r) <= 1
    ensures |c.lower.arr| > 0 ==> |r.lower.arr| > 0
    ensures HalvesValid(c) ==> HalvesValid(r)
    ensures HalvesValid(c) && Partitioned(c) ==> Partitioned(r)
    ensures -1 <= Imbalance(c) <= 1 ==> r == c
  {
    var nl, nu := |c.lower.arr|, |c.upper.arr|;
    if nl == nu || nl - nu == 1 || nu - nl == 1 then c
    else if nl > nu then ShiftFromLower(c)
    else ShiftFromUpper(c)
  }

  /** Moving the maximum of the lower half up keeps the partition. */
  lemma TransferDownPartition(c: Collector, r: Collector)
    requires |c.lower.arr| > 0
    requires r == c.(lower := MoveItemUp(ExtractRoot(c.lower).1),
                     upper := AddToHeap(c.upper, ExtractRoot(c.lower).0.value))
    ensures HalvesValid(c) && Partitioned(c) ==> Partitioned(r)
  {
    if HalvesValid(c) && Partitioned(c) {
      var m := c.lower.arr[0];
      assert m in c.lower.arr;
      forall x, y | x in r.lower.arr && y in r.upper.arr
        ensures x <= y
      {
        assert x in multiset(r.lower.arr) && y in multiset(r.upper.arr);
        assert x in multiset(c.lower.arr);
        assert x in c.lower.arr;
        assert x <= m;
        if y != m {
          assert y in multiset(c.upper.arr);
          assert y in c.upper.arr;
        }
      }
    }
  }

  /** Taking one copy of `m` from one bag and adding it to another keeps
      their union. */
  lemma MovedOne(a: multiset<real>, b: multiset<real>, a2: multiset<real>, b2: multiset<real>, m: real)
    requires m in a && a2 == a - multiset{m} && b2 == b + multiset{m}
    ensures a2 + b2 == a + b
  {
    assert a2 + multiset{m} == a;
  }

  /** Moving the maximum of the lower half up keeps the union of the
      halves. */
  lemma TransferDownContents(c: Collector, r: Collector)
    requires |c.lower.arr| > 0
    requires r == c.(lower := MoveItemUp(ExtractRoot(c.lower).1),
                     upper := AddToHeap(c.upper, ExtractRoot(c.lower).0.value))
    ensures multiset(r.lower.arr) + multiset(r.upper.arr)
         == multiset(c.lower.arr) + multiset(c.upper.arr)
  {
    var m := c.lower.arr[0];
    assert m in multiset(c.lower.arr);
    MovedOne(multiset(c.lower.arr), multiset(c.upper.arr), multiset(r.lower.arr), multiset(r.upper.arr), m);
  }

  /** Moving the minimum of the upper half down keeps the union of the
      halves. */
  lemma TransferUpContents(c: Collector, r: Collector)
    requires |c.upper.arr| > 0
    requires r == c.(upper := MoveItemUp(ExtractRoot(c.upper).1),
                     lower := AddToHeap(c.lower, ExtractRoot(c.upper).0.value))
    ensures multiset(r.lower.arr) + multiset(r.upper.arr)
         == multiset(c.lower.arr) + multiset(c.upper.arr)
  {
    var m := c.upper.arr[0];
    assert m in multiset(c.upper.arr);
    MovedOne(multiset(c.upper.arr), multiset(c.lower.arr), multiset(r.upper.arr), multiset(r.lower.arr), m);
  }

  /** Moving the minimum of the upper half down keeps the partition. */
  lemma TransferUpPartition(c: Collector, r: Collector)
    requires |c.upper.arr| > 0
    requires r == c.(upper := MoveItemUp(ExtractRoot(c.upper).1),
                     lower := AddToHeap(c.lower, ExtractRoot(c.upper).0.value))
    ensures HalvesValid(c) && Partitioned(c) ==> Partitioned(r)
  {
    if HalvesValid(c) && Partitioned(c) {
      var m := c.upper.arr[0];
      assert m in c.upper.arr;
      forall x, y | x in r.lower.arr && y in r.upper.arr
        ensures x <= y
      {
        assert x in multiset(r.lower.arr) && y in multiset(r.upper.arr);
        assert y in multiset(c.upper.arr);
        assert y in c.upper.arr;
        assert m <= y;
        if x != m {
          assert x in multiset(c.lower.arr);
          assert x in c.lower.arr;
        }
      }
    }
  }

  /** pushValue: records the value, routes it, then rebalances. */
  function PushValue(c: Collector, v: real): (r: Collector)
    ensures r.responses == c.responses + [v]
    ensures Consistent(c) ==> Consistent(r)
  {
    Balance(Route(c, v).(responses := c.responses + [v]))
  }

  /** Pushes the values in order. */
  function PushAll(c: Collector, vs: seq<real>): (r: Collector)
    ensures r.responses == c.responses + vs
    ensures Consistent(c) ==> Consistent(r)
  {
    if |vs| == 0 then c
    else
      assert c.responses + vs == c.responses + vs[..|vs| - 1] + [vs[|vs| - 1]];
      PushValue(PushAll(c, vs[..|vs| - 1]), vs[|vs| - 1])
  }

  /** getMedian: the mean of the two roots when the halves have equal size,
      otherwise the root of the bigger half. With both halves empty the
      source computes NaN, modelled as `None`. */
  function GetMedian(c: Collector): (r: Option<real>)
    ensures r.None? <==> |c.lower.arr| == 0 && |c.upper.arr| == 0
  {
    if Size(c.lower) == Size(c.upper) then
      match (Root(c.lower), Root(c.upper))
      case (Some(a), Some(b)) => Some((a + b) / 2.0)
      case _ => None
    else if Size(c.lower) > Size(c.upper) then Root(c.lower)
    else Root(c.upper)
  }

  /** getAverage: the sum over the count of every pushed value; NaN (`None`)
      when nothing was pushed. */
  function GetAverage(c: Collector): (r: Option<real>)
    ensures r.None? <==> |c.responses| == 0
    ensures r.Some? ==> r.value * (|c.responses| as real) == Total(c.responses)
  {
    if |c.responses| == 0 then None else Some(Mean(c.responses))
  }

  /** The last element of a sorted arrangement of a max-heap is its root. */
  lemma SortedMaxHeap(a: seq<real>, t: seq<real>)
    requires IsHeap(MaxFirst, a) && |a| > 0
    requires Sorted(t) && multiset(t) == multiset(a)
    ensures |t| == |a| && t[|t| - 1] == a[0]
  {
    assert |t| == |multiset(t)| == |multiset(a)| == |a|;
    RootIsExtreme(MaxFirst, a);
    var x := t[|a| - 1];
    assert x in multiset(a);
    assert x in a;
    assert a[0] in multiset(t);
    var k :| 0 <= k < |t| && t[k] == a[0];
    assert t[k] <= x;
  }

  /** The first element of a sorted arrangement of a min-heap is its root. */
  lemma SortedMinHeap(a: seq<real>, t: seq<real>)
    requires IsHeap(MinFirst, a) && |a| > 0
    requires Sorted(t) && multiset(t) == multiset(a)
    ensures |t| == |a| && t[0] == a[0]
  {
    assert |t| == |multiset(t)| == |multiset(a)| == |a|;
    RootIsExtreme(MinFirst, a);
    var x := t[0];
    assert x in multiset(a);
    assert x in a;
    assert a[0] in multiset(t);
    var k :| 0 <= k < |t| && t[k] == a[0];
    assert x <= t[k];
  }

  /** Sorted arrangements of two partitioned halves concatenate to a sorted
      arrangement of the whole. */
  lemma HalvesSort(lo: seq<real>, hi: seq<real>, sl: seq<real>, su: seq<real>)
    requires forall x, y :: x in lo && y in hi ==> x <= y
    requires Sorted(sl) && multiset(sl) == multiset(lo)
    requires Sorted(su) && multiset(su) == multiset(hi)
    ensures Sorted(sl + su)
  {
    forall i, j | 0 <= i < |sl| && 0 <= j < |su|
      ensures sl[i] <= su[j]
    {
      var x, y := sl[i], su[j];
      assert x in multiset(sl) && y in multiset(su);
      assert x in lo && y in hi;
    }
    ConcatSorted(sl, su);
  }

  /** With balanced, partitioned halves, the middle of the sorted whole is
      read off the two roots. */
  lemma MiddleOfHalves(lo: seq<real>, hi: seq<real>, sl: seq<real>, su: seq<real>)
    requires IsHeap(MaxFirst, lo) && IsHeap(MinFirst, hi)
    requires -1 <= |lo| - |hi| <= 1 && |lo| > 0
    requires Sorted(sl) && multiset(sl) == multiset(lo)
    requires Sorted(su) && multiset(su) == multiset(hi)
    ensures |sl + su| > 0
    ensures Middle(sl + su)
         == if |lo| == |hi| then (lo[0] + hi[0]) / 2.0
            else if |lo| > |hi| then lo[0] else hi[0]
  {
    var t := sl + su;
    SortedMaxHeap(lo, sl);
    if |hi| > 0 {
      SortedMinHeap(hi, su);
    } else {
      assert |su| == |multiset(su)| == 0;
    }
    if |lo| == |hi| {
      assert t[|t| / 2 - 1] == sl[|lo| - 1] && t[|t| / 2] == su[0];
    } else if |lo| > |hi| {
      assert t[|t| / 2] == sl[|lo| - 1];
    } else {
      assert t[|t| / 2] == su[0];
    }
  }

  /** Balanced, partitioned heap halves that together hold the sample `s`
      have the textbook median of `s` at their roots. */
  lemma RootsAreMiddle(lo: seq<real>, hi: seq<real>, s: seq<real>)
    requires IsHeap(MaxFirst, lo) && IsHeap(MinFirst, hi)
    requires forall x, y :: x in lo && y in hi ==> x <= y
    requires -1 <= |lo| - |hi| <= 1 && |lo| > 0
    requires multiset(lo) + multiset(hi) == multiset(s)
    ensures |s| > 0
    ensures SortedMedian(s)
         == if |lo| == |hi| then (lo[0] + hi[0]) / 2.0
            else if |lo| > |hi| then lo[0] else hi[0]
  {
    var sl := SortedArrangement(lo);
    var su := SortedArrangement(hi);
    var t := sl + su;
    HalvesSort(lo, hi, sl, su);
    MiddleOfHalves(lo, hi, sl, su);
    assert multiset(t) == multiset(s);
    assert |t| == |multiset(t)| == |multiset(s)| == |s|;
    assert SortedMedian(s) == Middle(t);
  }

  /** For a consistent, non-empty collector getMedian is the textbook median
      of everything pushed. */
  lemma MedianIsSortedMedian(c: Collector)
    requires Consistent(c) && |c.responses| > 0
    ensures GetMedian(c) == Some(SortedMedian(c.responses))
  {
    var lo, hi := c.lower.arr, c.upper.arr;
    RootsAreMiddle(lo, hi, c.responses);
    if |lo| == |hi| {
      assert Root(c.lower) == Some(lo[0]) && Root(c.upper) == Some(hi[0]);
    }
  }

  /** Pushing any non-empty sequence of values into a new collector yields
      the textbook median and the mean of those values. */
  lemma CollectedStatistics(vs: seq<real>)
    requires |vs| > 0
    ensures GetMedian(PushAll(NewCollector(), vs)) == Some(SortedMedian(vs))
    ensures GetAverage(PushAll(NewCollector(), vs)) == Some(Mean(vs))
  {
    var c := PushAll(NewCollector(), vs);
    assert c.responses == vs;
    MedianIsSortedMedian(c);
  }

  /** The order in which values are pushed does not change the median or the
      average. */
  lemma OrderIndependence(vs: seq<real>, ws: seq<real>)
    requires multiset(vs) == multiset(ws)
    ensures GetMedian(PushAll(NewCollector(), vs)) == GetMedian(PushAll(NewCollector(), ws))
    ensures GetAverage(PushAll(NewCollector(), vs)) == GetAverage(PushAll(NewCollector(), ws))
  {
    assert |vs| == |multiset(vs)| == |multiset(ws)| == |ws|;
    if |vs| > 0 {
      CollectedStatistics(vs);
      CollectedStatistics(ws);
      SortedMedianPermutation(vs, ws);
      TotalPermutation(vs, ws);
    } else {
      assert PushAll(NewCollector(), vs) == NewCollector();
      assert PushAll(NewCollector(), ws) == NewCollector();
    }
  }

  /** A collector fed `n` copies of `v` reports `v` as both median and
      average. */
  lemma AllEqual(v: real, n: nat)
    requires n > 0
    ensures GetMedian(PushAll(NewCollector(), seq(n, _ => v))) == Some(v)
    ensures GetAverage(PushAll(NewCollector(), seq(n, _ => v))) == Some(v)
  {
    var vs := seq(n, _ => v);
    CollectedStatistics(vs);
    ConstantMedian(vs, v);
    MeanBounds(vs, v, v);
  }
}
