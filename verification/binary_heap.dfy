/** An array-backed implicit binary heap with an explicit ordering policy:
    `MinFirst` is the min-heap (the "upper half" of the median estimator),
    `MaxFirst` the max-heap (the "lower half"). Both sift loops stop only on a
    STRICT comparison, so equal values keep being swapped. */
module BinaryHeap {
  import opened Options
  import opened HeapIndex

  datatype Order = MinFirst | MaxFirst

  /** Maps a value so that the value that belongs at the root has the least
      key: a max-heap is a min-heap on negated values. */
  function Key(o: Order, x: real): real {
    match o
    case MinFirst => x
    case MaxFirst => -x
  }

  /** `x` may sit above `y`: the heap order (`<=` for min, `>=` for max). */
  predicate Above(o: Order, x: real, y: real) {
    Key(o, x) <= Key(o, y)
  }

  /** The strict test on which the sift loops stop: `<` for the min-heap,
      `>` for the max-heap. */
  predicate Precedes(o: Order, x: real, y: real) {
    Key(o, x) < Key(o, y)
  }

  /** Every node is in heap order with its parent. */
  predicate IsHeap(o: Order, a: seq<real>) {
    forall j {:trigger Parent(j)} :: 0 < j < |a| ==> Above(o, a[Parent(j)], a[j])
  }

  /** Heap order everywhere except possibly between `i` and its parent, and
      the parent of `i` may sit above the children of `i`: the state sift-up
      works on. */
  predicate HeapExceptUp(o: Order, a: seq<real>, i: int) {
    && (forall j {:trigger Parent(j)} :: 0 < j < |a| && j != i ==> Above(o, a[Parent(j)], a[j]))
    && (0 < i < |a| ==> forall j :: 0 < j < |a| && Parent(j) == i ==> Above(o, a[Parent(i)], a[j]))
  }

  /** Heap order everywhere except possibly between `i` and its children, and
      the parent of `i` may sit above the children of `i`: the state
      sift-down works on. */
  predicate HeapExceptDown(o: Order, a: seq<real>, i: int) {
    && (forall j {:trigger Parent(j)} :: 0 < j < |a| && Parent(j) != i ==> Above(o, a[Parent(j)], a[j]))
    && (0 < i < |a| ==> forall j :: 0 < j < |a| && Parent(j) == i ==> Above(o, a[Parent(i)], a[j]))
  }

  /** Exchanges two slots. */
  function Swap(a: seq<real>, i: int, j: int): (r: seq<real>)
    requires 0 <= i < |a| && 0 <= j < |a|
    ensures |r| == |a|
    ensures r[i] == a[j] && r[j] == a[i]
    ensures forall k :: 0 <= k < |a| && k != i && k != j ==> r[k] == a[k]
  {
    a[i := a[j]][j := a[i]]
  }

  /** A swap leaves the contents, as a multiset, unchanged. */
  lemma SwapPermutes(a: seq<real>, i: int, j: int)
    requires 0 <= i < |a| && 0 <= j < |a|
    ensures multiset(Swap(a, i, j)) == multiset(a)
  {
  }

  /** Moves the item at `i` toward the root while its parent does not
      strictly precede it. The index strictly decreases, so it terminates. */
  function SiftUp(o: Order, a: seq<real>, i: int): (r: seq<real>)
    requires 0 <= i < |a|
    ensures |r| == |a|
    ensures multiset(r) == multiset(a)
    decreases i
  {
    if !HasParent(i) then a
    else
      var p := Parent(i);
      if Precedes(o, a[p], a[i]) then a
      else
        SwapPermutes(a, i, p);
        SiftUp(o, Swap(a, i, p), p)
  }

  /** Moves the item at `i` toward the leaves, swapping with the child that
      comes first (the right one only if it strictly precedes the left),
      until it strictly precedes that child or has no left child. Every step
      stays in bounds and the index strictly increases. */
  function SiftDown(o: Order, a: seq<real>, i: int): (r: seq<real>)
    requires 0 <= i
    ensures |r| == |a|
    ensures multiset(r) == multiset(a)
    decreases |a| - i
  {
    if !HasLeftChild(|a|, i) then a
    else
      var c :=
        if HasRightChild(|a|, i) && Precedes(o, a[RightChild(i)], a[LeftChild(i)])
        then RightChild(i) else LeftChild(i);
      if Precedes(o, a[i], a[c]) then a
      else
        SwapPermutes(a, i, c);
        SiftDown(o, Swap(a, i, c), c)
  }

  lemma AboveTrans(o: Order, x: real, y: real, z: real)
    requires Above(o, x, y) && Above(o, y, z)
    ensures Above(o, x, z)
  {
  }

  /** One sift-up step turns "broken at `i`" into "broken at the parent". */
  lemma SiftUpStep(o: Order, a: seq<real>, i: int)
    requires 0 < i < |a|
    requires HeapExceptUp(o, a, i)
    requires !Precedes(o, a[Parent(i)], a[i])
    ensures HeapExceptUp(o, Swap(a, i, Parent(i)), Parent(i))
  {
    var p := Parent(i);
    var b := Swap(a, i, p);
    forall j | 0 < j < |b| && j != p
      ensures Above(o, b[Parent(j)], b[j])
    {
      if j == i {
      } else if Parent(j) == i {
      } else if Parent(j) == p {
        AboveTrans(o, a[i], a[p], a[j]);
      } else {
      }
    }
    if 0 < p {
      forall j | 0 < j < |b| && Parent(j) == p
        ensures Above(o, b[Parent(p)], b[j])
      {
        assert Parent(p) < p;
        if j != i {
          AboveTrans(o, a[Parent(p)], a[p], a[j]);
        }
      }
    }
  }

  /** Sift-up repairs a heap that is broken only at `i`. */
  lemma {:induction false} SiftUpRestoresHeap(o: Order, a: seq<real>, i: int)
    requires 0 <= i < |a|
    requires HeapExceptUp(o, a, i)
    ensures IsHeap(o, SiftUp(o, a, i))
    decreases i
  {
    if HasParent(i) {
      var p := Parent(i);
      if !Precedes(o, a[p], a[i]) {
        SiftUpStep(o, a, i);
        SiftUpRestoresHeap(o, Swap(a, i, p), p);
      }
    }
  }

  /** On a heap, sift-up can only swap equal values, so it changes nothing. */
  lemma {:induction false} SiftUpOnHeap(o: Order, a: seq<real>, i: int)
    requires 0 <= i < |a|
    requires IsHeap(o, a)
    ensures SiftUp(o, a, i) == a
    decreases i
  {
    if HasParent(i) {
      var p := Parent(i);
      if !Precedes(o, a[p], a[i]) {
        assert a[p] == a[i];
        assert Swap(a, i, p) == a;
        SiftUpOnHeap(o, a, p);
      }
    }
  }

  /** One sift-down step turns "broken below `i`" into "broken below the
      chosen child". */
  lemma SiftDownStep(o: Order, a: seq<real>, i: int, c: int)
    requires 0 <= i && HasLeftChild(|a|, i)
    requires HeapExceptDown(o, a, i)
    requires c == LeftChild(i) || c == RightChild(i)
    requires c < |a|
    requires forall s :: 0 < s < |a| && Parent(s) == i ==> Above(o, a[c], a[s])
    requires !Precedes(o, a[i], a[c])
    ensures HeapExceptDown(o, Swap(a, i, c), c)
  {
    var b := Swap(a, i, c);
    assert Parent(c) == i;
    forall j | 0 < j < |b| && Parent(j) != c
      ensures Above(o, b[Parent(j)], b[j])
    {
      if j == c {
      } else if Parent(j) == i {
      } else if j == i {
      } else {
      }
    }
    forall j | 0 < j < |b| && Parent(j) == c
      ensures Above(o, b[Parent(c)], b[j])
    {
    }
  }

  /** Sift-down repairs a heap that is broken only below `i`. */
  lemma {:induction false} SiftDownRestoresHeap(o: Order, a: seq<real>, i: int)
    requires 0 <= i
    requires HeapExceptDown(o, a, i)
    ensures IsHeap(o, SiftDown(o, a, i))
    decreases |a| - i
  {
    if !HasLeftChild(|a|, i) {
      forall j | 0 < j < |a|
        ensures Above(o, a[Parent(j)], a[j])
      {
        assert Parent(j) != i;
      }
    } else {
      var l, r := LeftChild(i), RightChild(i);
      var c := if HasRightChild(|a|, i) && Precedes(o, a[r], a[l]) then r else l;
      forall s | 0 < s < |a| && Parent(s) == i
        ensures Above(o, a[c], a[s])
      {
        assert s == l || s == r;
      }
      if Precedes(o, a[i], a[c]) {
        forall j | 0 < j < |a|
          ensures Above(o, a[Parent(j)], a[j])
        {
          if Parent(j) == i {
            AboveTrans(o, a[i], a[c], a[j]);
          }
        }
      } else {
        SiftDownStep(o, a, i, c);
        SiftDownRestoresHeap(o, Swap(a, i, c), c);
      }
    }
  }

  lemma SiftDownFacts(o: Order, a: seq<real>)
    ensures HeapExceptDown(o, a, 0) ==> IsHeap(o, SiftDown(o, a, 0))
  {
    if HeapExceptDown(o, a, 0) {
      SiftDownRestoresHeap(o, a, 0);
    }
  }

  /** The root of a heap sits above every node. */
  lemma {:induction false} RootAbove(o: Order, a: seq<real>, j: int)
    requires IsHeap(o, a)
    requires 0 <= j < |a|
    ensures Above(o, a[0], a[j])
    decreases j
  {
    if j > 0 {
      RootAbove(o, a, Parent(j));
      AboveTrans(o, a[0], a[Parent(j)], a[j]);
    }
  }

  lemma RootIsExtreme(o: Order, a: seq<real>)
    ensures IsHeap(o, a) && |a| > 0 ==> forall y :: y in a ==> Above(o, a[0], y)
  {
    if IsHeap(o, a) && |a| > 0 {
      forall y | y in a
        ensures Above(o, a[0], y)
      {
        var j :| 0 <= j < |a| && a[j] == y;
        RootAbove(o, a, j);
      }
    }
  }

  /** The facts `MoveItemUp` relies on, stated for any array. */
  lemma SiftUpFacts(o: Order, a: seq<real>)
    requires |a| > 0
    ensures HeapExceptUp(o, a, |a| - 1) ==> IsHeap(o, SiftUp(o, a, |a| - 1))
    ensures IsHeap(o, a) ==> SiftUp(o, a, |a| - 1) == a
  {
    if HeapExceptUp(o, a, |a| - 1) {
      SiftUpRestoresHeap(o, a, |a| - 1);
    }
    if IsHeap(o, a) {
      SiftUpOnHeap(o, a, |a| - 1);
    }
  }

  /** Moving the last item into the root slot and dropping the last slot
      removes one copy of the root and breaks heap order only below the
      root. */
  lemma LastToRoot(o: Order, a: seq<real>)
    requires |a| > 0
    ensures multiset(a[0 := a[|a| - 1]][..|a| - 1]) == multiset(a) - multiset{a[0]}
    ensures IsHeap(o, a) ==> HeapExceptDown(o, a[0 := a[|a| - 1]][..|a| - 1], 0)
  {
    LastToRootRemovesRoot(a);
    if IsHeap(o, a) {
      LastToRootKeepsOrder(o, a);
    }
  }

  lemma LastToRootRemovesRoot(a: seq<real>)
    requires |a| > 0
    ensures multiset(a[0 := a[|a| - 1]][..|a| - 1]) == multiset(a) - multiset{a[0]}
  {
    var n := |a|;
    if n > 1 {
      var mid, last := a[1..n - 1], a[n - 1];
      assert a == [a[0]] + mid + [last];
      assert multiset(a) == multiset{a[0]} + multiset(mid) + multiset{last};
      assert a[0 := last][..n - 1] == [last] + mid;
      assert multiset(a[0 := last][..n - 1]) == multiset{last} + multiset(mid);
    }
  }

  lemma LastToRootKeepsOrder(o: Order, a: seq<real>)
    requires |a| > 0 && IsHeap(o, a)
    ensures HeapExceptDown(o, a[0 := a[|a| - 1]][..|a| - 1], 0)
  {
    var moved := a[0 := a[|a| - 1]][..|a| - 1];
    forall j | 0 < j < |moved| && Parent(j) != 0
      ensures Above(o, moved[Parent(j)], moved[j])
    {
      assert Parent(j) > 0;
    }
  }

  /** A heap: its ordering policy and the backing array. */
  datatype Heap = Heap(order: Order, arr: seq<real>)

  predicate Valid(h: Heap) {
    IsHeap(h.order, h.arr)
  }

  function Size(h: Heap): nat {
    |h.arr|
  }

  /** The root, or `None` where the array read yields `undefined`. */
  function Root(h: Heap): (r: Option<real>)
    ensures r.None? <==> Size(h) == 0
    ensures r.Some? ==> r.value in h.arr
    ensures Valid(h) && r.Some? ==> forall y :: y in h.arr ==> Above(h.order, r.value, y)
  {
    RootIsExtreme(h.order, h.arr);
    if |h.arr| == 0 then None else Some(h.arr[0])
  }

  /** moveItemUpTheHeap: sifts the LAST item up. On a valid heap it is the
      identity, which is why the extra call after a rebalancing transfer is
      harmless. */
  function MoveItemUp(h: Heap): (r: Heap)
    ensures r.order == h.order && |r.arr| == |h.arr|
    ensures multiset(r.arr) == multiset(h.arr)
    ensures |h.arr| > 0 && HeapExceptUp(h.order, h.arr, |h.arr| - 1) ==> Valid(r)
    ensures Valid(h) ==> r == h
  {
    if |h.arr| == 0 then h
    else
      SiftUpFacts(h.order, h.arr);
      h.(arr := SiftUp(h.order, h.arr, |h.arr| - 1))
  }

  /** moveItemDownTheHeap: sifts the ROOT item down. */
  function MoveItemDown(h: Heap): (r: Heap)
    ensures r.order == h.order && |r.arr| == |h.arr|
    ensures multiset(r.arr) == multiset(h.arr)
    ensures HeapExceptDown(h.order, h.arr, 0) ==> Valid(r)
  {
    SiftDownFacts(h.order, h.arr);
    h.(arr := SiftDown(h.order, h.arr, 0))
  }

  /** addToHeap: appends the item and sifts it up. */
  function AddToHeap(h: Heap, x: real): (r: Heap)
    ensures r.order == h.order
    ensures |r.arr| == |h.arr| + 1
    ensures multiset(r.arr) == multiset(h.arr) + multiset{x}
    ensures Valid(h) ==> Valid(r)
  {
    var a := h.arr + [x];
    assert Valid(h) ==> HeapExceptUp(h.order, a, |a| - 1);
    MoveItemUp(h.(arr := a))
  }

  /** extractRoot: returns the root, moves the last item into the root slot,
      drops the last slot and sifts down. On an empty heap it yields
      `undefined` and leaves the heap empty. */
  function ExtractRoot(h: Heap): (r: (Option<real>, Heap))
    ensures r.1.order == h.order
    ensures |h.arr| == 0 ==> r.0 == None && r.1 == h
    ensures |h.arr| > 0 ==> r.0 == Some(h.arr[0]) && |r.1.arr| == |h.arr| - 1
    ensures |h.arr| > 0 ==> multiset(r.1.arr) == multiset(h.arr) - multiset{h.arr[0]}
    ensures Valid(h) ==> Valid(r.1)
    ensures Valid(h) && |h.arr| > 0 ==> forall y :: y in h.arr ==> Above(h.order, h.arr[0], y)
  {
    if |h.arr| == 0 then (None, h)
    else
      var a := h.arr;
      LastToRoot(h.order, a);
      RootIsExtreme(h.order, a);
      (Some(a[0]), MoveItemDown(h.(arr := a[0 := a[|a| - 1]][..|a| - 1])))
  }
}
