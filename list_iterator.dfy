/** `nctl::ListIterator<T, IsConst>` (include/nctl/ListIterator.h): a cursor
    holding one node pointer; null is the end position. The `IsConst`
    template parameter is the `isConst` field. */
module ListIterators {
  import opened ListNodes
  import opened IteratorTags

  class ListIterator<T> {
    var node: ListNode?<T>
    const isConst: bool

    /** `explicit ListIterator(ListNode<T> *node)`. */
    constructor (node: ListNode?<T>, isConst: bool)
      ensures this.node == node && this.isConst == isConst
    {
      this.node := node;
      this.isConst := isConst;
    }

    /** `ListIterator(const ListIterator<T, false> &it)`: the copy of a mutable
        iterator, and the only conversion between the two variants
        (mutable to constant, never back). */
    constructor FromMutable(it: ListIterator<T>, isConst: bool)
      requires !it.isConst
      ensures node == it.node && this.isConst == isConst
    {
      node := it.node;
      this.isConst := isConst;
    }

    /** `operator*`: the element of the current node; the end position cannot be dereferenced. */
    function Deref(): (r: T)
      reads this
      requires node != null
      ensures r == node.data
    {
      node.data
    }

    /** Prefix `++`: moves to the next node; at the end it stays at the end. */
    method PreIncrement() returns (self: ListIterator<T>)
      modifies this
      ensures self == this && node == old(NextOf(node))
    {
      if node != null {
        node := node.next;
      }
      self := this;
    }

    /** Postfix `++`: returns an unmodified copy and advances the receiver once. */
    method PostIncrement() returns (copy: ListIterator<T>)
      modifies this
      ensures fresh(copy) && copy.node == old(node) && copy.isConst == isConst
      ensures node == old(NextOf(node))
    {
      copy := new ListIterator(node, isConst);
      if node != null {
        node := node.next;
      }
    }

    /** Prefix `--`: moves to the previous node; at the end it stays at the end. */
    method PreDecrement() returns (self: ListIterator<T>)
      modifies this
      ensures self == this && node == old(PreviousOf(node))
    {
      if node != null {
        node := node.previous;
      }
      self := this;
    }

    /** Postfix `--`: returns an unmodified copy and steps the receiver back once. */
    method PostDecrement() returns (copy: ListIterator<T>)
      modifies this
      ensures fresh(copy) && copy.node == old(node) && copy.isConst == isConst
      ensures node == old(PreviousOf(node))
    {
      copy := new ListIterator(node, isConst);
      if node != null {
        node := node.previous;
      }
    }

    /** `operator==`: the same node, both being end included. */
    function Equals(other: ListIterator<T>): (r: bool)
      reads this, other
      ensures r <==> node == other.node
    {
      node == other.node
    }

    /** `operator!=`. */
    function NotEquals(other: ListIterator<T>): (r: bool)
      reads this, other
      ensures r <==> !Equals(other)
    {
      node != other.node
    }
  }

  /** `IteratorTraits<ListIterator<T, IsConst>>::IteratorCategory()`, for both variants. */
  function Category(isConst: bool): (c: IteratorCategory)
    ensures DerivesFrom(c, BidirectionalIteratorTag) && DerivesFrom(BidirectionalIteratorTag, c)
  {
    BidirectionalIteratorTag
  }

  /** On a linked chain, `++` moves position `k` to `NextIndex(|ns|, k)` and `--`
      moves it to `PreviousIndex(|ns|, k)`: decrementing the end never reaches the
      tail, and decrementing the head gives the end. */
  lemma StepsOnChain<T>(ns: seq<ListNode<T>>, k: nat)
    requires Linked(ns) && k <= |ns|
    ensures NextOf(At(ns, k)) == At(ns, NextIndex(|ns|, k))
    ensures PreviousOf(At(ns, k)) == At(ns, PreviousIndex(|ns|, k))
    ensures PreviousOf(At(ns, |ns|)) == null
    ensures ns != [] ==> PreviousOf(At(ns, 0)) == null && PreviousOf(At(ns, |ns|)) != ns[|ns| - 1]
  {
    NextOfAt(ns, k);
    PreviousOfAt(ns, k);
  }
}
