/** The generic iterator operations of include/nctl/iterator.h: `advance`
    for each category tag, `next`, `prev` and `distance`, applied to list
    iterators over a linked chain of nodes (a ghost parameter: C++ does not
    name the list an iterator walks). Random-access iterators are modelled
    by their offset into the underlying storage. */
module IteratorAlgorithms {
  import opened Ints
  import opened ListNodes
  import opened IteratorTags
  import opened ListIterators

  /** Reference semantics: the position reached from `k` by `n` single
      steps, `++` for positive `n` and `--` for negative `n`. */
  function StepIndex(len: nat, k: nat, n: int): (r: nat)
    requires k <= len
    ensures r <= len
    decreases if n < 0 then -n else n
  {
    if n == 0 then k
    else if n > 0 then StepIndex(len, NextIndex(len, k), n - 1)
    else StepIndex(len, PreviousIndex(len, k), n + 1)
  }

  /** Where a bidirectional `advance(it, n)` ends: forward it stops at the
      end; backward it falls off the head onto the end, and the end never
      moves back. */
  function BidirectionalAdvanceIndex(len: nat, k: nat, n: int): nat
    requires k <= len
  {
    if n >= 0 then (if k + n < len then k + n else len)
    else if k < len && -n <= k then k + n
    else len
  }

  /** Where a forward `advance(it, n)` ends: a non-positive `n` does nothing. */
  function ForwardAdvanceIndex(len: nat, k: nat, n: int): nat
    requires k <= len
  {
    if n > 0 then (if k + n < len then k + n else len) else k
  }

  /** The closed form of bidirectional advance is `n` single steps. */
  lemma {:induction false} BidirectionalAdvanceIsSteps(len: nat, k: nat, n: int)
    requires k <= len
    ensures BidirectionalAdvanceIndex(len, k, n) == StepIndex(len, k, n)
    decreases if n < 0 then -n else n
  {
    if n > 0 {
      BidirectionalAdvanceIsSteps(len, NextIndex(len, k), n - 1);
    } else if n < 0 {
      BidirectionalAdvanceIsSteps(len, PreviousIndex(len, k), n + 1);
    }
  }

  /** Forward advance is `n` increments for positive `n` and no move otherwise. */
  lemma {:induction false} ForwardAdvanceIsSteps(len: nat, k: nat, n: int)
    requires k <= len
    ensures ForwardAdvanceIndex(len, k, n) == if n > 0 then StepIndex(len, k, n) else k
    decreases if n < 0 then -n else n
  {
    if n > 0 {
      BidirectionalAdvanceIsSteps(len, k, n);
    }
  }

  /** `advance(it, n, BidirectionalIteratorTag)`. */
  method AdvanceBidirectional<T>(it: ListIterator<T>, n: i32, ghost chain: seq<ListNode<T>>)
    requires Linked(chain) && (it.node == null || it.node in chain)
    modifies it
    ensures it.node == At(chain, BidirectionalAdvanceIndex(|chain|, old(IndexOf(chain, it.node)), n as int))
  {
    ghost var k := IndexOf(chain, it.node);
    ghost var c: nat := k;
    var count := n as int;
    if count < 0 {
      while count != 0
        invariant count <= 0 && c <= |chain| && it.node == At(chain, c)
        invariant StepIndex(|chain|, c, count) == StepIndex(|chain|, k, n as int)
        decreases -count
      {
        count := count + 1;
        PreviousOfAt(chain, c);
        var _ := it.PreDecrement();
        c := PreviousIndex(|chain|, c);
      }
    } else {
      while count != 0
        invariant count >= 0 && c <= |chain| && it.node == At(chain, c)
        invariant StepIndex(|chain|, c, count) == StepIndex(|chain|, k, n as int)
        decreases count
      {
        count := count - 1;
        NextOfAt(chain, c);
        var _ := it.PreIncrement();
        c := NextIndex(|chain|, c);
      }
    }
    BidirectionalAdvanceIsSteps(|chain|, k, n as int);
  }

  /** `advance(it, n, ForwardIteratorTag)`: only positive counts move. */
  method AdvanceForward<T>(it: ListIterator<T>, n: i32, ghost chain: seq<ListNode<T>>)
    requires Linked(chain) && (it.node == null || it.node in chain)
    modifies it
    ensures it.node == At(chain, ForwardAdvanceIndex(|chain|, old(IndexOf(chain, it.node)), n as int))
  {
    ghost var k := IndexOf(chain, it.node);
    ghost var c: nat := k;
    var count := n as int;
    if count > 0 {
      while count != 0
        invariant count >= 0 && c <= |chain| && it.node == At(chain, c)
        invariant StepIndex(|chain|, c, count) == StepIndex(|chain|, k, n as int)
        decreases count
      {
        count := count - 1;
        NextOfAt(chain, c);
        var _ := it.PreIncrement();
        c := NextIndex(|chain|, c);
      }
    }
    ForwardAdvanceIsSteps(|chain|, k, n as int);
  }

  /** `advance(it, n)`: a list iterator's tag selects the bidirectional overload. */
  method Advance<T>(it: ListIterator<T>, n: i32, ghost chain: seq<ListNode<T>>)
    requires Linked(chain) && (it.node == null || it.node in chain)
    modifies it
    ensures it.node == At(chain, BidirectionalAdvanceIndex(|chain|, old(IndexOf(chain, it.node)), n as int))
  {
    AdvanceDispatch(Category(it.isConst));
    AdvanceBidirectional(it, n, chain);
  }

  /** `next(it, n)`: a copy advanced by `n`, converted from `unsigned int` to `int`. */
  method Next<T>(it: ListIterator<T>, n: u32, ghost chain: seq<ListNode<T>>) returns (r: ListIterator<T>)
    requires Linked(chain) && (it.node == null || it.node in chain)
    ensures fresh(r) && r.isConst == it.isConst
    ensures r.node == At(chain, BidirectionalAdvanceIndex(|chain|, IndexOf(chain, it.node), UnsignedToSigned(n) as int))
  {
    r := new ListIterator(it.node, it.isConst);
    Advance(r, UnsignedToSigned(n), chain);
  }

  /** `next(it)`: a copy advanced once. */
  method NextOne<T>(it: ListIterator<T>, ghost chain: seq<ListNode<T>>) returns (r: ListIterator<T>)
    requires Linked(chain) && (it.node == null || it.node in chain)
    ensures fresh(r) && r.isConst == it.isConst
    ensures r.node == NextOf(it.node)
  {
    r := new ListIterator(it.node, it.isConst);
    Advance(r, 1, chain);
    NextOfAt(chain, IndexOf(chain, it.node));
  }

  /** `prev(it, n)`: a copy advanced by `-n`, where `-n` is the unsigned negation converted to `int`. */
  method Prev<T>(it: ListIterator<T>, n: u32, ghost chain: seq<ListNode<T>>) returns (r: ListIterator<T>)
    requires Linked(chain) && (it.node == null || it.node in chain)
    ensures fresh(r) && r.isConst == it.isConst
    ensures r.node == At(chain, BidirectionalAdvanceIndex(|chain|, IndexOf(chain, it.node), UnsignedToSigned(NegateUnsigned(n)) as int))
  {
    r := new ListIterator(it.node, it.isConst);
    Advance(r, UnsignedToSigned(NegateUnsigned(n)), chain);
  }

  /** `prev(it)`: a copy stepped back once; `prev(end())` is still the end. */
  method PrevOne<T>(it: ListIterator<T>, ghost chain: seq<ListNode<T>>) returns (r: ListIterator<T>)
    requires Linked(chain) && (it.node == null || it.node in chain)
    ensures fresh(r) && r.isConst == it.isConst
    ensures r.node == PreviousOf(it.node)
    ensures it.node == null ==> r.node == null
  {
    r := new ListIterator(it.node, it.isConst);
    Advance(r, -1, chain);
    PreviousOfAt(chain, IndexOf(chain, it.node));
  }

  /** `distance(first, last)`: a list iterator's tag selects the forward
      overload, which counts increments until `first == last`; `last` must
      be reachable, and the count must fit an `int`. */
  method Distance<T>(first: ListIterator<T>, last: ListIterator<T>, ghost chain: seq<ListNode<T>>) returns (counter: i32)
    requires Linked(chain) && |chain| < 0x8000_0000
    requires first.node == null || first.node in chain
    requires last.node == null || last.node in chain
    requires IndexOf(chain, first.node) <= IndexOf(chain, last.node)
    ensures counter as int == IndexOf(chain, last.node) - IndexOf(chain, first.node)
  {
    DistanceDispatch(Category(first.isConst));
    var f := new ListIterator(first.node, first.isConst);
    counter := 0;
    ghost var k := IndexOf(chain, first.node);
    ghost var target := IndexOf(chain, last.node);
    ghost var c: nat := k;
    while f.NotEquals(last)
      invariant k <= c <= target && f.node == At(chain, c)
      invariant counter as int == c - k
      decreases target - c
    {
      NextOfAt(chain, c);
      var _ := f.PreIncrement();
      counter := counter + 1;
      c := c + 1;
    }
    AtInjective(chain, c, target);
  }

  /** Counting with `distance` and moving with `advance` are inverse: advancing
      `first` by `distance(first, last)` lands on `last`, and the distance from
      the head to the end is the length of the chain. */
  lemma AdvanceByDistance(len: nat, i: nat, j: nat)
    requires i <= j <= len
    ensures ForwardAdvanceIndex(len, i, j - i) == j
    ensures BidirectionalAdvanceIndex(len, i, j - i) == j
    ensures BidirectionalAdvanceIndex(len, j, i - j) == (if j < len || i == j then i else len)
  {
  }

  /** The end position absorbs every advance: `prev(end(), n)` and `next(end(), n)` are the end. */
  lemma EndAbsorbs(len: nat, n: int)
    ensures BidirectionalAdvanceIndex(len, len, n) == len && ForwardAdvanceIndex(len, len, n) == len
  {
  }

  /** `prev(it, n)` steps back exactly `n` times for `n <= 2^31`; a larger
      `n` turns, through the conversion to `int`, into a forward move. */
  lemma PrevCount(len: nat, k: nat, n: u32)
    requires k <= len
    ensures n <= 0x8000_0000 ==>
      BidirectionalAdvanceIndex(len, k, UnsignedToSigned(NegateUnsigned(n)) as int) == StepIndex(len, k, -(n as int))
    ensures n > 0x8000_0000 ==>
      BidirectionalAdvanceIndex(len, k, UnsignedToSigned(NegateUnsigned(n)) as int) == StepIndex(len, k, U32_MODULUS - n as int)
  {
    NegatedAsSigned(n);
    BidirectionalAdvanceIsSteps(len, k, UnsignedToSigned(NegateUnsigned(n)) as int);
  }

  /** `advance(it, n, RandomAccessIteratorTag)`: `it += n` on an offset. */
  function AdvanceRandomAccess(offset: int, n: i32): int
  {
    offset + n as int
  }

  /** `distance(first, last, RandomAccessIteratorTag)`: `last - first`. */
  function DistanceRandomAccess(first: int, last: int): int
  {
    last - first
  }

  /** Jumping by `n` and measuring the jump are inverse: the distance of an
      advance by `n` is `n`, and advancing by a distance that fits in an `int`
      reaches `last`. */
  lemma RandomAccessRoundTrip(first: int, last: int, n: i32)
    ensures DistanceRandomAccess(first, AdvanceRandomAccess(first, n)) == n as int
    ensures -0x8000_0000 <= last - first < 0x8000_0000 ==>
      AdvanceRandomAccess(first, (last - first) as i32) == last
  {
  }

  /** A list iterator, constant or not, never reaches the random-access
      overloads: `advance` runs the bidirectional loops and `distance` the
      forward count. */
  lemma ListIteratorDispatch(isConst: bool)
    ensures SelectOverload(Category(isConst), AdvanceOverloads) == BidirectionalIteratorTag
    ensures SelectOverload(Category(isConst), DistanceOverloads) == ForwardIteratorTag
  {
    AdvanceDispatch(Category(isConst));
    DistanceDispatch(Category(isConst));
  }
}
