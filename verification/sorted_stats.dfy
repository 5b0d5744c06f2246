/** Order statistics over exact real samples: the textbook median that both
    estimators are measured against, rank counting, and the arithmetic mean. */
module SortedStats {

  /** Every earlier element is at most every later one. */
  predicate Sorted(s: seq<real>) {
    forall i, j :: 0 <= i < j < |s| ==> s[i] <= s[j]
  }

  /** Inserts `x` before the first element it does not exceed. */
  function Insert(t: seq<real>, x: real): (r: seq<real>)
    ensures |r| == |t| + 1
    ensures multiset(r) == multiset(t) + multiset{x}
    ensures r[0] == x || (|t| > 0 && r[0] == t[0])
  {
    if |t| == 0 then [x]
    else if x <= t[0] then [x] + t
    else
      assert t == [t[0]] + t[1..];
      [t[0]] + Insert(t[1..], x)
  }

  lemma {:induction false} InsertSorted(t: seq<real>, x: real)
    requires Sorted(t)
    ensures Sorted(Insert(t, x))
    decreases |t|
  {
    if |t| > 0 && !(x <= t[0]) {
      var rest := Insert(t[1..], x);
      InsertSorted(t[1..], x);
      assert Insert(t, x) == [t[0]] + rest;
      assert t[0] <= rest[0];
      ConsSorted(t[0], rest);
    }
  }

  lemma ConsSorted(h: real, s: seq<real>)
    requires Sorted(s)
    requires |s| > 0 ==> h <= s[0]
    ensures Sorted([h] + s)
  {
  }

  /** Insertion sort: the reference ordering of a sample. */
  function Sort(s: seq<real>): (r: seq<real>)
    ensures |r| == |s|
    ensures multiset(r) == multiset(s)
    ensures Sorted(r)
  {
    if |s| == 0 then []
    else
      assert s == s[..|s| - 1] + [s[|s| - 1]];
      InsertSorted(Sort(s[..|s| - 1]), s[|s| - 1]);
      Insert(Sort(s[..|s| - 1]), s[|s| - 1])
  }

  /** A multiset has exactly one sorted arrangement. */
  lemma {:induction false} SortedUnique(a: seq<real>, b: seq<real>)
    requires Sorted(a) && Sorted(b)
    requires multiset(a) == multiset(b)
    ensures a == b
    decreases |a|
  {
    assert |a| == |multiset(a)| == |multiset(b)| == |b|;
    if |a| > 0 {
      assert a[0] in multiset(b);
      assert b[0] in multiset(a);
      assert a[0] == b[0];
      assert a == [a[0]] + a[1..];
      assert b == [b[0]] + b[1..];
      assert multiset(a[1..]) == multiset(a) - multiset{a[0]};
      assert multiset(b[1..]) == multiset(b) - multiset{b[0]};
      SortedUnique(a[1..], b[1..]);
    }
  }

  /** The middle element of an odd-length sorted sequence, or the mean of the
      two middle elements of an even-length one. */
  function Middle(t: seq<real>): real
    requires |t| > 0
  {
    if |t| % 2 == 1 then t[|t| / 2] else (t[|t| / 2 - 1] + t[|t| / 2]) / 2.0
  }

  /** The textbook median: sort, then take the middle (or the mean of the two
      middles). It does not depend on how the sample is ordered. */
  function SortedMedian(s: seq<real>): (m: real)
    requires |s| > 0
    ensures forall t {:trigger Middle(t)} :: Sorted(t) && multiset(t) == multiset(s) && |t| == |s| ==> m == Middle(t)
  {
    SortIsCanonical(s);
    Middle(Sort(s))
  }

  lemma MedianOfOne(x: real)
    ensures SortedMedian([x]) == x
  {
    assert Sorted([x]);
  }

  lemma MedianOfTwo(a: real, b: real)
    requires a <= b
    ensures SortedMedian([a, b]) == (a + b) / 2.0
  {
    assert Sorted([a, b]);
  }

  /** A sample of equal values has that value as its median. */
  lemma ConstantMedian(vs: seq<real>, v: real)
    requires |vs| > 0
    requires forall i :: 0 <= i < |vs| ==> vs[i] == v
    ensures SortedMedian(vs) == v
  {
    assert Sorted(vs);
    assert SortedMedian(vs) == Middle(vs);
  }

  /** Every sample has a sorted arrangement. */
  lemma SortedArrangement(s: seq<real>) returns (t: seq<real>)
    ensures Sorted(t) && multiset(t) == multiset(s) && |t| == |s|
  {
    t := Sort(s);
  }

  lemma SortIsCanonical(s: seq<real>)
    ensures forall t :: Sorted(t) && multiset(t) == multiset(s) ==> t == Sort(s)
  {
    forall t | Sorted(t) && multiset(t) == multiset(s)
      ensures t == Sort(s)
    {
      SortedUnique(t, Sort(s));
    }
  }

  /** Samples that are permutations of each other have the same median. */
  lemma SortedMedianPermutation(s: seq<real>, u: seq<real>)
    requires |s| > 0
    requires multiset(s) == multiset(u)
    ensures |u| > 0 && SortedMedian(s) == SortedMedian(u)
  {
    assert |u| == |multiset(u)| == |multiset(s)| == |s|;
    var t := Sort(u);
    assert SortedMedian(s) == Middle(t);
  }

  /** Number of elements of `s` that are at most `y`. */
  function CountLe(s: seq<real>, y: real): (n: nat)
    ensures n <= |s|
  {
    if |s| == 0 then 0 else (if s[0] <= y then 1 else 0) + CountLe(s[1..], y)
  }

  lemma {:induction false} CountLeAppend(a: seq<real>, b: seq<real>, y: real)
    ensures CountLe(a + b, y) == CountLe(a, y) + CountLe(b, y)
    decreases |a|
  {
    if |a| == 0 {
      assert a + b == b;
    } else {
      assert (a + b)[1..] == a[1..] + b;
      CountLeAppend(a[1..], b, y);
    }
  }

  lemma {:induction false} CountLeInsert(t: seq<real>, x: real, y: real)
    ensures CountLe(Insert(t, x), y) == CountLe(t, y) + (if x <= y then 1 else 0)
    decreases |t|
  {
    if |t| > 0 && !(x <= t[0]) {
      assert Insert(t, x)[1..] == Insert(t[1..], x);
      CountLeInsert(t[1..], x, y);
    }
  }

  lemma CountLeSnoc(c: seq<real>, x: real, y: real)
    ensures CountLe(c + [x], y) == CountLe(c, y) + (if x <= y then 1 else 0)
  {
    CountLeAppend(c, [x], y);
    assert [x][1..] == [];
  }

  /** Sorting does not change how many elements lie at or below a threshold. */
  lemma {:induction false} CountLeSort(s: seq<real>, y: real)
    ensures CountLe(Sort(s), y) == CountLe(s, y)
    decreases |s|
  {
    if |s| > 0 {
      var init, last := s[..|s| - 1], s[|s| - 1];
      assert Sort(s) == Insert(Sort(init), last);
      CountLeSort(init, y);
      CountLeInsert(Sort(init), last, y);
      assert s == init + [last];
      CountLeSnoc(init, last, y);
    }
  }

  /** Two sorted sequences, every element of the first at most every element
      of the second, concatenate to a sorted sequence. */
  lemma ConcatSorted(a: seq<real>, b: seq<real>)
    requires Sorted(a) && Sorted(b)
    requires forall i, j :: 0 <= i < |a| && 0 <= j < |b| ==> a[i] <= b[j]
    ensures Sorted(a + b)
  {
  }

  /** In a sorted sequence the elements at or below `y` form a prefix whose
      length is their count. */
  lemma {:induction false} SortedPrefix(t: seq<real>, y: real)
    requires Sorted(t)
    ensures forall j :: 0 <= j < |t| ==> (t[j] <= y <==> j < CountLe(t, y))
    decreases |t|
  {
    if |t| > 0 {
      SortedPrefix(t[1..], y);
      if !(t[0] <= y) {
        if |t| > 1 {
          assert !(t[1..][0] <= y);
        }
      }
      forall j | 0 <= j < |t|
        ensures t[j] <= y <==> j < CountLe(t, y)
      {
        if j > 0 {
          assert t[j] == t[1..][j - 1];
        }
      }
    }
  }

  /** The element of rank `k` (1-based) of a sorted sequence lies above every
      threshold that fewer than `k` elements reach and at or below every
      threshold that at least `k` elements reach. */
  lemma RankBounds(t: seq<real>, k: int, z: real, y: real)
    requires Sorted(t)
    requires 1 <= k <= |t|
    requires CountLe(t, z) < k <= CountLe(t, y)
    ensures z < t[k - 1] <= y
  {
    SortedPrefix(t, y);
    SortedPrefix(t, z);
  }

  /** Sum of the sample, accumulated left to right. */
  function Total(s: seq<real>): real {
    if |s| == 0 then 0.0 else Total(s[..|s| - 1]) + s[|s| - 1]
  }

  lemma {:induction false} TotalAppend(a: seq<real>, b: seq<real>)
    ensures Total(a + b) == Total(a) + Total(b)
    decreases |b|
  {
    if |b| == 0 {
      assert a + b == a;
    } else {
      assert (a + b)[..|a + b| - 1] == a + b[..|b| - 1];
      TotalAppend(a, b[..|b| - 1]);
    }
  }

  lemma {:induction false} TotalInsert(t: seq<real>, x: real)
    ensures Total(Insert(t, x)) == Total(t) + x
    decreases |t|
  {
    if |t| == 0 {
    } else if x <= t[0] {
      TotalAppend([x], t);
    } else {
      TotalInsert(t[1..], x);
      TotalAppend([t[0]], Insert(t[1..], x));
      assert t == [t[0]] + t[1..];
      TotalAppend([t[0]], t[1..]);
    }
  }

  lemma {:induction false} TotalSort(s: seq<real>)
    ensures Total(Sort(s)) == Total(s)
    decreases |s|
  {
    if |s| > 0 {
      TotalSort(s[..|s| - 1]);
      TotalInsert(Sort(s[..|s| - 1]), s[|s| - 1]);
    }
  }

  /** The sum of a sample does not depend on the order of its elements. */
  lemma TotalPermutation(s: seq<real>, u: seq<real>)
    requires multiset(s) == multiset(u)
    ensures Total(s) == Total(u)
  {
    SortedUnique(Sort(s), Sort(u));
    TotalSort(s);
    TotalSort(u);
  }

  /** Arithmetic mean. */
  function Mean(s: seq<real>): real
    requires |s| > 0
  {
    Total(s) / (|s| as real)
  }

  lemma {:induction false} TotalBounds(s: seq<real>, lo: real, hi: real)
    requires forall i :: 0 <= i < |s| ==> lo <= s[i] <= hi
    ensures (|s| as real) * lo <= Total(s) <= (|s| as real) * hi
    decreases |s|
  {
    if |s| > 0 {
      var m := (|s| - 1) as real;
      TotalBounds(s[..|s| - 1], lo, hi);
      assert (|s| as real) * lo == m * lo + lo;
      assert (|s| as real) * hi == m * hi + hi;
    }
  }

  /** The mean lies between any lower and upper bound of the sample; in
      particular a sample of equal values has that value as its mean. */
  lemma MeanBounds(s: seq<real>, lo: real, hi: real)
    requires |s| > 0
    requires forall i :: 0 <= i < |s| ==> lo <= s[i] <= hi
    ensures lo <= Mean(s) <= hi
  {
    TotalBounds(s, lo, hi);
    var n := |s| as real;
    assert Mean(s) * n == Total(s);
  }

  /** Integer samples as exact reals. */
  function AsReals(s: seq<int>): (r: seq<real>)
    ensures |r| == |s|
    ensures forall i :: 0 <= i < |s| ==> r[i] == s[i] as real
  {
    if |s| == 0 then [] else AsReals(s[..|s| - 1]) + [s[|s| - 1] as real]
  }
}
