/** The iterator category tags of include/nctl/iterator.h and the
    selection of an overload by tag, as C++ overload resolution performs it:
    the most derived tag struct that the iterator's tag converts to. */
module IteratorTags {

  /** `ForwardIteratorTag`, `BidirectionalIteratorTag : ForwardIteratorTag`,
      `RandomAccessIteratorTag : BidirectionalIteratorTag`. */
  datatype IteratorCategory = ForwardIteratorTag | BidirectionalIteratorTag | RandomAccessIteratorTag

  /** Depth of a tag in the inheritance chain. */
  function Rank(c: IteratorCategory): nat
  {
    match c
    case ForwardIteratorTag => 0
    case BidirectionalIteratorTag => 1
    case RandomAccessIteratorTag => 2
  }

  /** The direct base struct of a derived tag. */
  function Base(c: IteratorCategory): (b: IteratorCategory)
    requires c != ForwardIteratorTag
    ensures Rank(b) + 1 == Rank(c)
  {
    if c == RandomAccessIteratorTag then BidirectionalIteratorTag else ForwardIteratorTag
  }

  /** `c` converts to `b` (the tag struct `c` is `b` or derives from it). */
  predicate DerivesFrom(c: IteratorCategory, b: IteratorCategory)
  {
    Rank(b) <= Rank(c)
  }

  /** The overloads of `advance`: one per tag. */
  const AdvanceOverloads: set<IteratorCategory> := {RandomAccessIteratorTag, BidirectionalIteratorTag, ForwardIteratorTag}

  /** The overloads of `distance`: random access and forward only. */
  const DistanceOverloads: set<IteratorCategory> := {RandomAccessIteratorTag, ForwardIteratorTag}

  /** The overload chosen for a call with tag `c` among the `available` ones:
      the most derived base of `c` that has an overload. */
  function SelectOverload(c: IteratorCategory, available: set<IteratorCategory>): (r: IteratorCategory)
    requires exists b :: b in available && DerivesFrom(c, b)
    ensures r in available && DerivesFrom(c, r)
    ensures forall b :: b in available && DerivesFrom(c, b) ==> DerivesFrom(r, b)
    decreases Rank(c)
  {
    if c in available then c
    else
      assert c != ForwardIteratorTag;
      SelectOverload(Base(c), available)
  }

  /** Every tag has its own `advance` overload. */
  lemma AdvanceDispatch(c: IteratorCategory)
    ensures ForwardIteratorTag in AdvanceOverloads && DerivesFrom(c, ForwardIteratorTag)
    ensures SelectOverload(c, AdvanceOverloads) == c
  {
  }

  /** A bidirectional iterator measures its distance with the forward overload, by counting increments. */
  lemma DistanceDispatch(c: IteratorCategory)
    ensures ForwardIteratorTag in DistanceOverloads && DerivesFrom(c, ForwardIteratorTag)
    ensures SelectOverload(c, DistanceOverloads) == (if c == RandomAccessIteratorTag then RandomAccessIteratorTag else ForwardIteratorTag)
  {
    assert ForwardIteratorTag in DistanceOverloads && DerivesFrom(c, ForwardIteratorTag);
    if c == BidirectionalIteratorTag {
      assert Base(c) == ForwardIteratorTag;
    }
  }
}
