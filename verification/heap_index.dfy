/** Index arithmetic of an implicit binary tree stored in a sequence: the
    part shared by the min-ordered and max-ordered heaps. */
module HeapIndex {

  function LeftChild(i: int): (c: int)
    ensures Parent(c) == i
  {
    2 * i + 1
  }

  function RightChild(i: int): (c: int)
    ensures Parent(c) == i
    ensures c == LeftChild(i) + 1
  {
    2 * i + 2
  }

  /** The floor of (c - 1) / 2. For a positive divisor Dafny's division
      rounds toward negative infinity, which is what `Math.floor` does. */
  function Parent(c: int): (p: int)
    ensures 2 * p + 1 <= c <= 2 * p + 2
  {
    (c - 1) / 2
  }

  /** A parent index is computed for every index; it names a node only when
      it is not negative. */
  function HasParent(c: int): (b: bool)
    ensures b <==> c >= 1
  {
    Parent(c) >= 0
  }

  /** A tree stored in `size` slots has a left child of `i` when that slot is
      filled (reading past the end yields `undefined`): exactly the nodes of
      the first half of the array have one. */
  function HasLeftChild(size: int, i: int): (b: bool)
    ensures b ==> 0 <= i < size
    ensures b <==> 0 <= i < size / 2
  {
    0 <= LeftChild(i) < size
  }

  /** Every node but possibly the last internal one has a right child too:
      of the `size / 2` nodes with a left child, the first `(size - 1) / 2`
      also have a right one. */
  function HasRightChild(size: int, i: int): (b: bool)
    ensures b && 0 <= i ==> HasLeftChild(size, i)
    ensures 0 <= i ==> (b <==> i < (size - 1) / 2)
  {
    0 <= RightChild(i) < size
  }

  /** Every node but the root has a parent strictly before it, and it is one
      of that parent's two children. */
  lemma ParentOfChild(i: int, c: int)
    ensures Parent(LeftChild(i)) == i && Parent(RightChild(i)) == i
    ensures HasParent(c) ==> 0 <= Parent(c) < c
    ensures HasParent(c) ==> c == LeftChild(Parent(c)) || c == RightChild(Parent(c))
  {
  }

  /** The index cases asserted for the array [1, 2, 3, 4, 5, 6]. */
  lemma IndexExamples()
    ensures !HasLeftChild(6, 5) && HasLeftChild(6, 1)
    ensures !HasRightChild(6, 5) && HasRightChild(6, 1)
    ensures !HasParent(0) && HasParent(1) && HasParent(5)
    ensures LeftChild(0) == 1 && LeftChild(1) == 3 && LeftChild(2) == 5
    ensures RightChild(0) == 2 && RightChild(1) == 4 && RightChild(2) == 6
    ensures Parent(1) == 0 && Parent(2) == 0 && Parent(3) == 1
  {
  }
}
