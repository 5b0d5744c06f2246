/** The unit-test arrays of the two heaps, each the instance of a trace
    lemma that says, for any array whose entries compare the same way, which
    slots the sift moves; and two small illustrative runs of the dual-heap
    collector (its own tests draw 101-value datasets, which are covered by
    the all-inputs theorem rather than by instances). */
module HeapExamples {
  import opened Options
  import opened SortedStats
  import opened HeapIndex
  import opened BinaryHeap
  import opened HeapCollector

  /** One sift-up step: the item at `i` does not strictly follow its parent,
      so the two are exchanged and the sift continues from the parent. */
  lemma UpStep(o: Order, a: seq<real>, i: int)
    requires 0 < i < |a| && !Precedes(o, a[Parent(i)], a[i])
    ensures SiftUp(o, a, i) == SiftUp(o, a[i := a[Parent(i)]][Parent(i) := a[i]], Parent(i))
  {
  }

  /** One sift-down step into child `c`, the child that comes first. */
  lemma DownStep(o: Order, a: seq<real>, i: int, c: int)
    requires 0 <= i && HasLeftChild(|a|, i)
    requires c == if HasRightChild(|a|, i) && Precedes(o, a[RightChild(i)], a[LeftChild(i)])
                  then RightChild(i) else LeftChild(i)
    requires !Precedes(o, a[i], a[c])
    ensures SiftDown(o, a, i) == SiftDown(o, a[i := a[c]][c := a[i]], c)
  {
  }

  /** In a heap of six or seven slots, a last item that strictly precedes
      neither its parent (slot 2) nor the root climbs to the root. */
  lemma LastClimbsToRoot(o: Order, a: seq<real>, c: seq<real>)
    requires |a| == 6 || |a| == 7
    requires !Precedes(o, a[2], a[|a| - 1]) && !Precedes(o, a[0], a[|a| - 1])
    requires c == a[|a| - 1 := a[2]][2 := a[0]][0 := a[|a| - 1]]
    ensures MoveItemUp(Heap(o, a)).arr == c
  {
    var n := |a| - 1;
    assert Parent(n) == 2 && Parent(2) == 0;
    var b := a[n := a[2]][2 := a[n]];
    UpStep(o, a, n);
    UpStep(o, b, 2);
    assert b[2 := b[0]][0 := b[2]] == c;
  }

  /** addToHeap appends the item and lets it climb: here all the way. */
  lemma AddClimbsToRoot(o: Order, a: seq<real>, x: real, c: seq<real>)
    requires |a| == 5 || |a| == 6
    requires !Precedes(o, a[2], x) && !Precedes(o, a[0], x)
    requires c == a[2 := a[0]][0 := x] + [a[2]]
    ensures AddToHeap(Heap(o, a), x).arr == c
  {
    var b := a + [x];
    assert b[|b| - 1 := b[2]][2 := b[0]][0 := b[|b| - 1]] == c;
    LastClimbsToRoot(o, b, c);
  }

  /** In a heap of six slots, a root that the right child strictly precedes
      sinks to slot 2 and then to slot 5. */
  lemma RootSinksRightThenLeft(o: Order, a: seq<real>, c: seq<real>)
    requires |a| == 6
    requires Precedes(o, a[2], a[1]) && !Precedes(o, a[0], a[2]) && !Precedes(o, a[0], a[5])
    requires c == a[0 := a[2]][2 := a[5]][5 := a[0]]
    ensures MoveItemDown(Heap(o, a)).arr == c
  {
    assert HasRightChild(6, 0) && LeftChild(0) == 1 && RightChild(0) == 2;
    assert HasLeftChild(6, 2) && !HasRightChild(6, 2) && LeftChild(2) == 5;
    assert !HasLeftChild(6, 5);
    var b := a[0 := a[2]][2 := a[0]];
    DownStep(o, a, 0, 2);
    DownStep(o, b, 2, 5);
    assert b[2 := b[5]][5 := b[2]] == c;
  }

  /** In a heap of six slots, a root that the left child beats, whose left
      child its own right sibling does not beat, sinks to slot 1 then 3. */
  lemma RootSinksLeftTwice(o: Order, a: seq<real>, c: seq<real>)
    requires |a| == 6
    requires !Precedes(o, a[2], a[1]) && !Precedes(o, a[0], a[1])
    requires !Precedes(o, a[4], a[3]) && !Precedes(o, a[0], a[3])
    requires c == a[0 := a[1]][1 := a[3]][3 := a[0]]
    ensures MoveItemDown(Heap(o, a)).arr == c
  {
    assert HasRightChild(6, 0) && LeftChild(0) == 1 && RightChild(0) == 2;
    assert HasRightChild(6, 1) && LeftChild(1) == 3 && RightChild(1) == 4;
    assert !HasLeftChild(6, 3);
    var b := a[0 := a[1]][1 := a[0]];
    DownStep(o, a, 0, 1);
    DownStep(o, b, 1, 3);
    assert b[1 := b[3]][3 := b[1]] == c;
  }

  /** extractRoot of seven slots whose last item then sinks right, left. */
  lemma ExtractSinksRightThenLeft(o: Order, a: seq<real>, c: seq<real>)
    requires |a| == 7
    requires Precedes(o, a[2], a[1]) && !Precedes(o, a[6], a[2]) && !Precedes(o, a[6], a[5])
    requires c == [a[2], a[1], a[5], a[3], a[4], a[6]]
    ensures ExtractRoot(Heap(o, a)) == (Some(a[0]), Heap(o, c))
  {
    var b := [a[6], a[1], a[2], a[3], a[4], a[5]];
    LastMovedToRoot(o, a, b);
    RightThenLeftSlots(b);
    RootSinksRightThenLeft(o, b, c);
  }

  /** The slots after the root's item has gone 0 -> 2 -> 5. */
  lemma RightThenLeftSlots(b: seq<real>)
    requires |b| == 6
    ensures b[0 := b[2]][2 := b[5]][5 := b[0]] == [b[2], b[1], b[5], b[3], b[4], b[0]]
  {
  }

  /** extractRoot of seven slots sinks the last item from the root of the
      six slots that remain. */
  lemma LastMovedToRoot(o: Order, a: seq<real>, b: seq<real>)
    requires |a| == 7 && b == [a[6], a[1], a[2], a[3], a[4], a[5]]
    ensures ExtractRoot(Heap(o, a)) == (Some(a[0]), MoveItemDown(Heap(o, b)))
  {
    assert a[0 := a[6]][..6] == b;
  }

  /** extractRoot of seven slots whose last item stays at the root. */
  lemma ExtractStays(o: Order, a: seq<real>, c: seq<real>)
    requires |a| == 7
    requires Precedes(o, a[6], a[1]) && Precedes(o, a[6], a[2])
    requires c == [a[6], a[1], a[2], a[3], a[4], a[5]]
    ensures ExtractRoot(Heap(o, a)) == (Some(a[0]), Heap(o, c))
  {
    RootStays(o, c);
    LastMovedToRoot(o, a, c);
  }

  /** A root of six slots that strictly precedes both children stays. */
  lemma RootStays(o: Order, b: seq<real>)
    requires |b| == 6 && Precedes(o, b[0], b[1]) && Precedes(o, b[0], b[2])
    ensures MoveItemDown(Heap(o, b)) == Heap(o, b)
  {
    assert HasRightChild(6, 0) && LeftChild(0) == 1 && RightChild(0) == 2;
    assert SiftDown(o, b, 0) == b;
  }

  lemma MinMoveUpExample(a: seq<real>, c: seq<real>)
    requires a == [2.0, 3.0, 4.0, 5.0, 6.0, 7.0, 1.0]
    requires c == [1.0, 3.0, 2.0, 5.0, 6.0, 7.0, 4.0]
    ensures MoveItemUp(Heap(MinFirst, a)).arr == c
  {
    LastClimbsToRoot(MinFirst, a, c);
  }

  lemma MinMoveDownExample(a: seq<real>, c: seq<real>)
    requires a == [7.0, 6.0, 5.0, 4.0, 3.0, 2.0]
    requires c == [5.0, 6.0, 2.0, 4.0, 3.0, 7.0]
    ensures MoveItemDown(Heap(MinFirst, a)).arr == c
  {
    RootSinksRightThenLeft(MinFirst, a, c);
  }

  lemma MinAddExample(a: seq<real>, c: seq<real>)
    requires a == [2.0, 3.0, 4.0, 5.0, 6.0, 7.0]
    requires c == [1.0, 3.0, 2.0, 5.0, 6.0, 7.0, 4.0]
    ensures AddToHeap(Heap(MinFirst, a), 1.0).arr == c
  {
    AddClimbsToRoot(MinFirst, a, 1.0, c);
  }

  lemma MinExtractExample(a: seq<real>, c: seq<real>)
    requires a == [8.0, 6.0, 5.0, 4.0, 3.0, 2.0, 7.0]
    requires c == [5.0, 6.0, 2.0, 4.0, 3.0, 7.0]
    ensures ExtractRoot(Heap(MinFirst, a)) == (Some(8.0), Heap(MinFirst, c))
  {
    ExtractSinksRightThenLeft(MinFirst, a, c);
  }

  lemma MaxMoveUpExample(a: seq<real>, c: seq<real>)
    requires a == [2.0, 3.0, 4.0, 5.0, 6.0, 7.0]
    requires c == [7.0, 3.0, 2.0, 5.0, 6.0, 4.0]
    ensures MoveItemUp(Heap(MaxFirst, a)).arr == c
  {
    LastClimbsToRoot(MaxFirst, a, c);
  }

  lemma MaxMoveDownExample(a: seq<real>, c: seq<real>)
    requires a == [1.0, 6.0, 5.0, 4.0, 3.0, 2.0]
    requires c == [6.0, 4.0, 5.0, 1.0, 3.0, 2.0]
    ensures MoveItemDown(Heap(MaxFirst, a)).arr == c
  {
    RootSinksLeftTwice(MaxFirst, a, c);
  }

  lemma MaxAddExample(a: seq<real>, c: seq<real>)
    requires a == [2.0, 3.0, 4.0, 5.0, 6.0, 7.0]
    requires c == [8.0, 3.0, 2.0, 5.0, 6.0, 7.0, 4.0]
    ensures AddToHeap(Heap(MaxFirst, a), 8.0).arr == c
  {
    AddClimbsToRoot(MaxFirst, a, 8.0, c);
  }

  lemma MaxExtractExample(a: seq<real>, c: seq<real>)
    requires a == [8.0, 6.0, 5.0, 4.0, 3.0, 2.0, 7.0]
    requires c == [7.0, 6.0, 5.0, 4.0, 3.0, 2.0]
    ensures ExtractRoot(Heap(MaxFirst, a)) == (Some(8.0), Heap(MaxFirst, c))
  {
    ExtractStays(MaxFirst, a, c);
  }

  lemma TotalOfFive(s: seq<real>)
    requires |s| == 5
    ensures Total(s) == s[0] + s[1] + s[2] + s[3] + s[4]
  {
    var s4, s3, s2, s1 := s[..4], s[..3], s[..2], s[..1];
    assert s4[..3] == s3 && s3[..2] == s2 && s2[..1] == s1 && s1[..0] == [];
    assert Total(s1) == s[0];
    assert Total(s2) == s[0] + s[1];
    assert Total(s3) == s[0] + s[1] + s[2];
    assert Total(s4) == s[0] + s[1] + s[2] + s[3];
  }

  lemma TotalOfSix(s: seq<real>)
    requires |s| == 6
    ensures Total(s) == s[0] + s[1] + s[2] + s[3] + s[4] + s[5]
  {
    assert s[..5][..4] == s[..4];
    TotalOfFive(s[..5]);
  }

  /** Six ascending samples: the median is the mean of the third and
      fourth. */
  lemma AscendingSix(vs: seq<real>)
    requires |vs| == 6
    requires vs[0] <= vs[1] <= vs[2] <= vs[3] <= vs[4] <= vs[5]
    ensures SortedMedian(vs) == (vs[2] + vs[3]) / 2.0
    ensures Mean(vs) == (vs[0] + vs[1] + vs[2] + vs[3] + vs[4] + vs[5]) / 6.0
  {
    assert Sorted(vs);
    assert SortedMedian(vs) == Middle(vs);
    TotalOfSix(vs);
  }

  /** Five samples, the first above four equal ones: the median is the
      repeated value. */
  lemma LargeThenRepeated(vs: seq<real>)
    requires |vs| == 5
    requires vs[1] == vs[2] == vs[3] == vs[4] <= vs[0]
    ensures SortedMedian(vs) == vs[1]
    ensures Mean(vs) == (vs[0] + vs[1] + vs[2] + vs[3] + vs[4]) / 5.0
  {
    var t := vs[1..] + [vs[0]];
    assert Sorted(t);
    assert vs == [vs[0]] + vs[1..];
    assert multiset(t) == multiset(vs);
    assert SortedMedian(vs) == Middle(t);
    TotalOfFive(vs);
  }

  /** A collector fed a sample reports the sample's median and mean. */
  lemma Scenario(vs: seq<real>, median: real, mean: real)
    requires |vs| > 0 && SortedMedian(vs) == median && Mean(vs) == mean
    ensures GetMedian(PushAll(NewCollector(), vs)) == Some(median)
    ensures GetAverage(PushAll(NewCollector(), vs)) == Some(mean)
  {
    CollectedStatistics(vs);
  }

  /** An illustrative run: pushing 1..6 gives median 3.5 and average 3.5. */
  lemma AscendingScenario(vs: seq<real>)
    requires vs == [1.0, 2.0, 3.0, 4.0, 5.0, 6.0]
    ensures GetMedian(PushAll(NewCollector(), vs)) == Some(3.5)
    ensures GetAverage(PushAll(NewCollector(), vs)) == Some(3.5)
  {
    AscendingSix(vs);
    Scenario(vs, 3.5, 3.5);
  }

  /** An illustrative run with repeats: pushing 5, 3, 3, 3, 3 gives median 3
      and average 3.4. */
  lemma RepeatedScenario(vs: seq<real>)
    requires vs == [5.0, 3.0, 3.0, 3.0, 3.0]
    ensures GetMedian(PushAll(NewCollector(), vs)) == Some(3.0)
    ensures GetAverage(PushAll(NewCollector(), vs)) == Some(3.4)
  {
    LargeThenRepeated(vs);
    Scenario(vs, 3.0, 3.4);
  }
}
