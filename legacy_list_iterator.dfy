/** `ncine::ListIterator<T, IsConst>` (include/ListIterator.h): the older copy
    of the list iterator. It steps like the `nctl` one; its dereference has no
    debug assertion, so dereferencing the end is undefined here as well. Its
    node type is modelled by the same `ListNode` class. */
module NcineListIterators {
  import opened ListNodes
  import opened IteratorTags

  class NcineListIterator<T> {
    var node: ListNode?<T>
    const isConst: bool

    /** `explicit ListIterator(ListNode<T> *node)`. */
    constructor (node: ListNode?<T>, isConst: bool)
      ensures this.node == node && this.isConst == isConst
    {
      this.node := node;
      this.isConst := isConst;
    }

    /** `ListIterator(const ListIterator<T, false>& it)`: mutable to constant only. */
    constructor FromMutable(it: NcineListIterator<T>, isConst: bool)
      requires !it.isConst
      ensures node == it.node && this.isConst == isConst
    {
      node := it.node;
      this.isConst := isConst;
    }

    /** `operator*`: reads the node without checking it (null is undefined behaviour). */
    function Deref(): (r: T)
      reads this
      requires node != null
      ensures r == node.data
    {
      node.data
    }

    /** Prefix `++`: steps only from a real node. */
    method PreIncrement() returns (self: NcineListIterator<T>)
      modifies this
      ensures self == this && node == old(NextOf(node))
    {
      if node != null {
        node := node.next;
      }
      self := this;
    }

    /** Postfix `++`: returns the pre-step iterator. */
    method PostIncrement() returns (copy: NcineListIterator<T>)
      modifies this
      ensures fresh(copy) && copy.node == old(node) && copy.isConst == isConst
      ensures node == old(NextOf(node))
    {
      copy := new NcineListIterator(node, isConst);
      if node != null {
        node := node.next;
      }
    }

    /** Prefix `--`: steps back only from a real node. */
    method PreDecrement() returns (self: NcineListIterator<T>)
      modifies this
      ensures self == this && node == old(PreviousOf(node))
    {
      if node != null {
        node := node.previous;
      }
      self := this;
    }

    /** Postfix `--`: returns the pre-step iterator. */
    method PostDecrement() returns (copy: NcineListIterator<T>)
      modifies this
      ensures fresh(copy) && copy.node == old(node) && copy.isConst == isConst
      ensures node == old(PreviousOf(node))
    {
      copy := new NcineListIterator(node, isConst);
      if node != null {
        node := node.previous;
      }
    }

    /** Member `operator==`: node identity. */
    function Equals(other: NcineListIterator<T>): (r: bool)
      reads this, other
      ensures r <==> node == other.node
    {
      node == other.node
    }

    /** Member `operator!=`. */
    function NotEquals(other: NcineListIterator<T>): (r: bool)
      reads this, other
      ensures r <==> !Equals(other)
    {
      node != other.node
    }
  }

  /** Both trait specialisations report the bidirectional tag. */
  function NcineCategory(isConst: bool): (c: IteratorCategory)
    ensures DerivesFrom(c, BidirectionalIteratorTag) && DerivesFrom(BidirectionalIteratorTag, c)
  {
    BidirectionalIteratorTag
  }
}
