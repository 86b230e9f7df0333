/** `ListNode` (include/nctl/List.h): one element and two non-owning links.
    A chain of nodes is described by a ghost sequence; a position in a chain
    of length `n` is an index in `0..n`, where `n` stands for the end
    sentinel (the null pointer). */
module ListNodes {

  class ListNode<T> {
    /** The payload. It is never rewritten by the modelled operations. */
    const data: T
    var previous: ListNode?<T>
    var next: ListNode?<T>

    constructor (data: T, previous: ListNode?<T>, next: ListNode?<T>)
      ensures this.data == data && this.previous == previous && this.next == next
    {
      this.data := data;
      this.previous := previous;
      this.next := next;
    }
  }

  /** The node at position `k`, or null for the end position. */
  function At<T>(ns: seq<ListNode<T>>, k: nat): ListNode?<T>
  {
    if k < |ns| then ns[k] else null
  }

  /** No node of `a` is a node of `b` (stated one node at a time, so that
      `DisjointAt` hands out the instance a proof needs). */
  ghost predicate Disjoint<T>(a: seq<ListNode<T>>, b: seq<ListNode<T>>)
    decreases |a|
  {
    a == [] || (a[0] !in b && Disjoint(a[1..], b))
  }

  lemma {:induction false} DisjointAt<T>(a: seq<ListNode<T>>, b: seq<ListNode<T>>, i: nat)
    requires Disjoint(a, b) && i < |a|
    ensures a[i] !in b
    decreases i
  {
    if i > 0 {
      DisjointAt(a[1..], b, i - 1);
    }
  }

  /** `Disjoint` seen from the other side. */
  lemma {:induction false} DisjointOther<T>(a: seq<ListNode<T>>, b: seq<ListNode<T>>, j: nat)
    requires Disjoint(a, b) && j < |b|
    ensures b[j] !in a
    decreases |a|
  {
    if a != [] {
      assert a[0] != b[j] by {
        assert b[j] in b;
      }
      DisjointOther(a[1..], b, j);
      assert a == [a[0]] + a[1..];
    }
  }

  /** The chain `ns` is doubly linked: each `next` points to the following
      node and each `previous` to the preceding one, and the two ends point
      to null. */
  ghost predicate Linked<T>(ns: seq<ListNode<T>>)
    reads ns
  {
    (forall i {:trigger ns[i].previous} :: 0 < i < |ns| ==> ns[i].previous == ns[i - 1]) &&
    (forall i {:trigger ns[i].next} :: 0 <= i < |ns| - 1 ==> ns[i].next == ns[i + 1]) &&
    (ns != [] ==> ns[0].previous == null && ns[|ns| - 1].next == null)
  }

  /** A node cannot sit at two positions of a linked chain: the `next` walks
      from both would stay in step and reach the null at the tail together. */
  lemma {:induction false} LinkedInjective<T>(ns: seq<ListNode<T>>, a: nat, b: nat)
    requires Linked(ns) && a < |ns| && b < |ns| && ns[a] == ns[b]
    ensures a == b
    decreases |ns| - a
  {
    if a < |ns| - 1 && b < |ns| - 1 {
      assert ns[a].next == ns[a + 1] && ns[b].next == ns[b + 1];
      LinkedInjective(ns, a + 1, b + 1);
    }
  }

  /** Every node of a linked chain appears once. */
  lemma LinkedDistinct<T>(ns: seq<ListNode<T>>)
    requires Linked(ns)
    ensures forall a, b :: 0 <= a < |ns| && 0 <= b < |ns| && ns[a] == ns[b] ==> a == b
  {
    forall a, b | 0 <= a < |ns| && 0 <= b < |ns| && ns[a] == ns[b]
      ensures a == b
    {
      LinkedInjective(ns, a, b);
    }
  }

  /** The node at position `k` of a linked chain is at no other position. */
  lemma LinkedExcept<T>(ns: seq<ListNode<T>>, k: nat)
    requires Linked(ns) && k < |ns|
    ensures forall i :: 0 <= i < |ns| && ns[i] == ns[k] ==> i == k
  {
    forall i | 0 <= i < |ns| && ns[i] == ns[k]
      ensures i == k
    {
      LinkedInjective(ns, i, k);
    }
  }

  /** The elements held by a chain, in order. */
  function Values<T>(ns: seq<ListNode<T>>): (r: seq<T>)
    ensures |r| == |ns|
  {
    seq(|ns|, q requires 0 <= q < |ns| => ns[q].data)
  }

  /** A test on elements, lifted to the nodes that hold them. */
  function OnData<T>(pred: T -> bool): ListNode<T> -> bool
  {
    (n: ListNode<T>) => pred(n.data)
  }

  /** The position of `n` in `ns` (the end position for null). */
  function IndexOf<T>(ns: seq<ListNode<T>>, n: ListNode?<T>): (k: nat)
    requires n == null || n in ns
    ensures k <= |ns| && At(ns, k) == n
    ensures n != null ==> k < |ns|
  {
    if n == null then |ns|
    else if ns[0] == n then 0
    else 1 + IndexOf(ns[1..], n)
  }

  /** The successor of a position's node: the step taken by `++` on an iterator. */
  function NextOf<T>(n: ListNode?<T>): ListNode?<T>
    reads n
  {
    if n == null then null else n.next
  }

  /** The predecessor of a position's node: the step taken by `--` on an iterator. */
  function PreviousOf<T>(n: ListNode?<T>): ListNode?<T>
    reads n
  {
    if n == null then null else n.previous
  }

  /** `++` on position `k` of a chain of length `len`: one step forward, the end stays the end. */
  function NextIndex(len: nat, k: nat): nat
  {
    if k < len then k + 1 else len
  }

  /** `--` on position `k`: one step back; the head steps to the end, and the end stays the end. */
  function PreviousIndex(len: nat, k: nat): nat
  {
    if 0 < k < len then k - 1 else len
  }

  /** Positions are unique in a linked chain. */
  lemma AtInjective<T>(ns: seq<ListNode<T>>, i: nat, j: nat)
    requires Linked(ns) && i <= |ns| && j <= |ns| && At(ns, i) == At(ns, j)
    ensures i == j
  {
    if i < |ns| && j < |ns| {
      LinkedInjective(ns, i, j);
    }
  }

  /** No node before position `j` of a linked chain is the node at `j`. */
  lemma AtDistinctBefore<T>(ns: seq<ListNode<T>>, j: nat)
    requires Linked(ns) && j <= |ns|
    ensures forall q :: 0 <= q < j ==> ns[q] != At(ns, j)
  {
    forall q | 0 <= q < j
      ensures ns[q] != At(ns, j)
    {
      if ns[q] == At(ns, j) {
        AtInjective(ns, q, j);
      }
    }
  }

  /** In a linked chain, following `next` from position `k` reaches position `NextIndex(|ns|, k)`. */
  lemma NextOfAt<T>(ns: seq<ListNode<T>>, k: nat)
    requires Linked(ns) && k <= |ns|
    ensures NextOf(At(ns, k)) == At(ns, NextIndex(|ns|, k))
  {
  }

  /** In a linked chain, following `previous` from position `k` reaches position `PreviousIndex(|ns|, k)`:
      the head's predecessor is the end sentinel, and so is the end's. */
  lemma PreviousOfAt<T>(ns: seq<ListNode<T>>, k: nat)
    requires Linked(ns) && k <= |ns|
    ensures PreviousOf(At(ns, k)) == At(ns, PreviousIndex(|ns|, k))
  {
  }

  /** The position of a node of a linked chain is the only position holding it. */
  lemma IndexOfAt<T>(ns: seq<ListNode<T>>, k: nat)
    requires Linked(ns) && k <= |ns|
    ensures IndexOf(ns, At(ns, k)) == k
  {
    AtInjective(ns, IndexOf(ns, At(ns, k)), k);
  }

  /** The element at position `k` is the data of the node there. */
  lemma ValuesAt<T>(ns: seq<ListNode<T>>, k: nat)
    requires k < |ns|
    ensures Values(ns)[k] == ns[k].data
  {
  }

  lemma ValuesConcat<T>(a: seq<ListNode<T>>, b: seq<ListNode<T>>)
    ensures Values(a + b) == Values(a) + Values(b)
  {
  }

  lemma ValuesSplit<T>(ns: seq<ListNode<T>>, k: nat)
    requires k <= |ns|
    ensures Values(ns) == Values(ns[..k]) + Values(ns[k..])
    ensures Values(ns[..k]) == Values(ns)[..k] && Values(ns[k..]) == Values(ns)[k..]
  {
    assert ns == ns[..k] + ns[k..];
    ValuesConcat(ns[..k], ns[k..]);
  }

  /** The elements after a node is inserted at position `p`. */
  lemma ValuesInsert<T>(ns: seq<ListNode<T>>, p: nat, n: ListNode<T>)
    requires p <= |ns|
    ensures Values(ns[..p] + [n] + ns[p..]) == Values(ns)[..p] + [n.data] + Values(ns)[p..]
  {
    ValuesConcat(ns[..p] + [n], ns[p..]);
    ValuesConcat(ns[..p], [n]);
    assert Values([n]) == [n.data] by {
      assert [n][..0] == [];
    }
    ValuesSplit(ns, p);
  }

  /** Cutting the nodes at positions `i..j` out of a chain cuts their elements. */
  lemma ValuesCut<T>(ns: seq<ListNode<T>>, i: nat, j: nat)
    requires i <= j <= |ns|
    ensures Values(ns[..i] + ns[j..]) == Values(ns)[..i] + Values(ns)[j..]
  {
    ValuesConcat(ns[..i], ns[j..]);
  }

  /** `a` is the chain `b` with `w` nodes put in at position `p`: the nodes
      before and after the opening are those of `b`, in the same order. */
  ghost predicate OpenedAt<T>(a: seq<ListNode<T>>, b: seq<ListNode<T>>, p: nat, w: nat)
  {
    p <= |b| && |a| == |b| + w && a[..p] == b[..p] && a[p + w..] == b[p..]
  }

  /** The chain `b` with the run `added` put in at position `p` is `b`
      opened at `p`. */
  lemma OpenedAtOf<T>(b: seq<ListNode<T>>, p: nat, added: seq<ListNode<T>>)
    requires p <= |b|
    ensures OpenedAt(b[..p] + added + b[p..], b, p, |added|)
    ensures forall q :: p <= q < p + |added| ==> (b[..p] + added + b[p..])[q] in added
  {
    var a := b[..p] + added + b[p..];
    assert a[..p] == b[..p];
    assert a[p + |added|..] == b[p..];
  }

  /** A node put in right after the run `added` extends the run. */
  lemma PutAfterRun<T>(b: seq<ListNode<T>>, p: nat, added: seq<ListNode<T>>, n: ListNode<T>)
    requires p <= |b|
    ensures var a, k := b[..p] + added + b[p..], p + |added|;
      a[..k] + [n] + a[k..] == b[..p] + (added + [n]) + b[p..]
  {
    var a, k := b[..p] + added + b[p..], p + |added|;
    assert a[..k] == b[..p] + added;
    assert a[k..] == b[p..];
  }

  /** Splicing a chain in at position `k` splices its elements in. */
  lemma ValuesSplice<T>(ns: seq<ListNode<T>>, k: nat, b: seq<ListNode<T>>)
    requires k <= |ns|
    ensures Values(ns[..k] + b + ns[k..]) == Values(ns)[..k] + Values(b) + Values(ns)[k..]
  {
    ValuesConcat(ns[..k] + b, ns[k..]);
    ValuesConcat(ns[..k], b);
    ValuesSplit(ns, k);
  }

  /** Appending a node appends its element. */
  lemma ValuesAppend<T>(ns: seq<ListNode<T>>, n: ListNode<T>)
    ensures Values(ns + [n]) == Values(ns) + [n.data]
  {
    assert (ns + [n])[..|ns|] == ns;
  }

  lemma ValuesSnoc<T>(ns: seq<ListNode<T>>, i: nat, m: nat)
    requires i <= m < |ns|
    ensures Values(ns[i..m + 1]) == Values(ns[i..m]) + [ns[m].data]
  {
    assert ns[i..m + 1][..m - i] == ns[i..m];
  }
  /** The links a new node `n` takes at position `p` of `ns`, and those of its
      two neighbours, make the spliced chain linked again when every other
      link of `ns` is as before. */
  lemma LinkedInsert<T>(ns: seq<ListNode<T>>, p: nat, n: ListNode<T>)
    requires p <= |ns|
    requires forall i {:trigger ns[i].previous} :: 0 < i < |ns| && i != p ==> ns[i].previous == ns[i - 1]
    requires forall i {:trigger ns[i].next} :: 0 <= i < |ns| - 1 && i + 1 != p ==> ns[i].next == ns[i + 1]
    requires n.previous == (if p == 0 then null else ns[p - 1]) && n.next == At(ns, p)
    requires p > 0 ==> ns[p - 1].next == n
    requires p < |ns| ==> ns[p].previous == n
    requires p > 0 ==> ns[0].previous == null
    requires p < |ns| ==> ns[|ns| - 1].next == null
    ensures Linked(ns[..p] + [n] + ns[p..])
    ensures (ns[..p] + [n] + ns[p..])[0] == if p == 0 then n else ns[0]
    ensures (ns[..p] + [n] + ns[p..])[|ns|] == if p == |ns| then n else ns[|ns| - 1]
  {
    var r := ns[..p] + [n] + ns[p..];
    assert forall i :: 0 <= i < |r| ==> r[i] == if i < p then ns[i] else if i == p then n else ns[i - 1];
  }

  /** Unlinking the nodes at positions `i..j`, the node before them and the
      one after them pointing at each other and every link outside the range
      as before, leaves the rest linked. */
  lemma LinkedCut<T>(ns: seq<ListNode<T>>, i: nat, j: nat)
    requires i <= j <= |ns|
    requires forall t {:trigger ns[t].previous} :: 0 < t < |ns| && (t < i || j < t) ==> ns[t].previous == ns[t - 1]
    requires forall t {:trigger ns[t].next} :: 0 <= t < |ns| - 1 && (t + 1 < i || j <= t) ==> ns[t].next == ns[t + 1]
    requires i > 0 ==> ns[i - 1].next == At(ns, j)
    requires j < |ns| ==> ns[j].previous == (if i == 0 then null else ns[i - 1])
    requires i > 0 ==> ns[0].previous == null
    requires j < |ns| ==> ns[|ns| - 1].next == null
    ensures Linked(ns[..i] + ns[j..])
  {
    var r := ns[..i] + ns[j..];
    forall t | 0 < t < |r|
      ensures r[t].previous == r[t - 1]
    {
      if t < i {
        assert r[t] == ns[t] && r[t - 1] == ns[t - 1];
      } else if t == i {
        assert r[t] == ns[j] && r[t - 1] == ns[i - 1];
      } else {
        assert r[t] == ns[t + (j - i)] && r[t - 1] == ns[t + (j - i) - 1];
      }
    }
    forall t | 0 <= t < |r| - 1
      ensures r[t].next == r[t + 1]
    {
      if t + 1 < i {
        assert r[t] == ns[t] && r[t + 1] == ns[t + 1];
      } else if t + 1 == i {
        assert r[t] == ns[i - 1] && r[t + 1] == ns[j];
      } else {
        assert r[t] == ns[t + (j - i)] && r[t + 1] == ns[t + 1 + (j - i)];
      }
    }
    if r != [] {
      assert r[0] == (if i > 0 then ns[0] else ns[j]);
      assert r[|r| - 1] == (if j < |ns| then ns[|ns| - 1] else ns[i - 1]);
    }
  }

  /** Linking the chain `b` in at position `k` of `ns`: with the ends of `b`
      joined to the nodes around position `k` and every other link of `ns`
      and of `b` as before, the spliced chain is linked. */
  lemma LinkedSplice<T>(ns: seq<ListNode<T>>, k: nat, b: seq<ListNode<T>>)
    requires k <= |ns| && b != []
    requires forall t {:trigger ns[t].previous} :: 0 < t < |ns| && t != k ==> ns[t].previous == ns[t - 1]
    requires forall t {:trigger ns[t].next} :: 0 <= t < |ns| - 1 && t + 1 != k ==> ns[t].next == ns[t + 1]
    requires forall t {:trigger b[t].previous} :: 0 < t < |b| ==> b[t].previous == b[t - 1]
    requires forall t {:trigger b[t].next} :: 0 <= t < |b| - 1 ==> b[t].next == b[t + 1]
    requires b[0].previous == (if k == 0 then null else ns[k - 1]) && b[|b| - 1].next == At(ns, k)
    requires k > 0 ==> ns[k - 1].next == b[0]
    requires k < |ns| ==> ns[k].previous == b[|b| - 1]
    requires k > 0 ==> ns[0].previous == null
    requires k < |ns| ==> ns[|ns| - 1].next == null
    ensures Linked(ns[..k] + b + ns[k..])
  {
    var r := ns[..k] + b + ns[k..];
    var e := k + |b|;
    forall t | 0 <= t < |r|
      ensures r[t] == if t < k then ns[t] else if t < e then b[t - k] else ns[t - |b|]
    {
    }
    forall t | 0 < t < |r|
      ensures r[t].previous == r[t - 1]
    {
      if k < t < e {
        assert b[t - k].previous == b[t - k - 1];
      } else if e < t {
        assert ns[t - |b|].previous == ns[t - |b| - 1];
      }
    }
    forall t | 0 <= t < |r| - 1
      ensures r[t].next == r[t + 1]
    {
      if k <= t < e - 1 {
        assert b[t - k].next == b[t - k + 1];
      } else if e <= t {
        assert ns[t - |b|].next == ns[t - |b| + 1];
      }
    }
  }

  /** The links inside a chain, without its two ends: what a block cut out
      of a linked chain still has. */
  ghost predicate Chained<T>(b: seq<ListNode<T>>)
    reads b
  {
    (forall t {:trigger b[t].previous} :: 0 < t < |b| ==> b[t].previous == b[t - 1]) &&
    (forall t {:trigger b[t].next} :: 0 <= t < |b| - 1 ==> b[t].next == b[t + 1])
  }

  /** The relinking the three splices share: the block `b`, a chain of
      nodes outside `ns`, goes in right before `node`, the node at position
      `k` of `ns`. Returns the node that preceded `node`; when there is none,
      the caller makes the block's first node the head. */
  method LinkBefore<T>(node: ListNode<T>, first: ListNode<T>, last: ListNode<T>,
                       ghost ns: seq<ListNode<T>>, ghost k: nat, ghost b: seq<ListNode<T>>)
    returns (prevNode: ListNode?<T>)
    requires Linked(ns) && k < |ns| && node == ns[k]
    requires b != [] && first == b[0] && last == b[|b| - 1] && Chained(b) && Disjoint(b, ns)
    requires forall t :: 0 < t < |b| ==> b[t] != first
    requires forall t :: 0 <= t < |b| - 1 ==> b[t] != last
    modifies node, first, last, if k == 0 then null else ns[k - 1]
    ensures prevNode == if k == 0 then null else ns[k - 1]
    ensures Linked(ns[..k] + b + ns[k..])
  {
    prevNode := node.previous;
    LinkedExcept(ns, k);
    if k > 0 {
      LinkedExcept(ns, k - 1);
      DisjointOther(b, ns, k - 1);
    }
    DisjointOther(b, ns, k);
    assert first !in ns && last !in ns by {
      DisjointAt(b, ns, 0);
      DisjointAt(b, ns, |b| - 1);
    }
    node.previous := last;
    last.next := node;
    first.previous := prevNode;
    if prevNode != null {
      prevNode.next := first;
    }
    LinkedSplice(ns, k, b);
  }

  /** `Disjoint` as a statement about every position of `a`. */
  lemma DisjointNone<T>(a: seq<ListNode<T>>, b: seq<ListNode<T>>)
    requires Disjoint(a, b)
    ensures forall q :: 0 <= q < |a| ==> a[q] !in b
  {
    forall q | 0 <= q < |a|
      ensures a[q] !in b
    {
      DisjointAt(a, b, q);
    }
  }

  /** Cutting positions `i..j` out of the chain `ns`: the node before the
      range and the node after it are pointed at each other (a missing one is
      the owning list's head or tail, which the caller sets). */
  method Unlink<T>(before: ListNode?<T>, after: ListNode?<T>, ghost ns: seq<ListNode<T>>, ghost i: nat, ghost j: nat)
    requires Linked(ns) && i < j <= |ns|
    requires before == (if i == 0 then null else ns[i - 1]) && after == At(ns, j)
    modifies before, after
    ensures Linked(ns[..i] + ns[j..])
  {
    if i > 0 {
      LinkedExcept(ns, i - 1);
    }
    if j < |ns| {
      LinkedExcept(ns, j);
    }
    if before != null {
      before.next := after;
    }
    if after != null {
      after.previous := before;
    }
    LinkedCut(ns, i, j);
  }

  /** Every stretch `i..j` of a linked chain is chained. */
  lemma ChainedSlice<T>(ns: seq<ListNode<T>>, i: nat, j: nat)
    requires Linked(ns) && i <= j <= |ns|
    ensures Chained(ns[i..j])
  {
    var b := ns[i..j];
    forall t | 0 < t < |b|
      ensures b[t].previous == b[t - 1]
    {
      assert b[t] == ns[i + t] && b[t - 1] == ns[i + t - 1];
    }
    forall t | 0 <= t < |b| - 1
      ensures b[t].next == b[t + 1]
    {
      assert b[t] == ns[i + t] && b[t + 1] == ns[i + t + 1];
    }
  }

  /** A stretch `b == bs[i..j]` of a chain disjoint from `ns`, and the rest
      `r` of it, are disjoint from `ns` too. */
  lemma RangeDisjoint<T>(bs: seq<ListNode<T>>, ns: seq<ListNode<T>>, b: seq<ListNode<T>>, r: seq<ListNode<T>>, i: nat, j: nat)
    requires Disjoint(bs, ns) && i <= j <= |bs| && b == bs[i..j] && r == bs[..i] + bs[j..]
    ensures Disjoint(b, ns)
    ensures forall q :: 0 <= q < |r| ==> r[q] !in ns
  {
    DisjointNone(bs, ns);
    forall q | 0 <= q < |b|
      ensures b[q] !in ns
    {
      assert b[q] == bs[i + q];
    }
    DisjointFrom(b, ns);
    forall q | 0 <= q < |r|
      ensures r[q] !in ns
    {
      assert r[q] == if q < i then bs[q] else bs[q + (j - i)];
    }
  }

  /** In a linked chain the two ends of a stretch `b == bs[i..j]` appear
      nowhere else: not inside `b`, not in the rest `r` of the chain. */
  lemma RangeEnds<T>(bs: seq<ListNode<T>>, b: seq<ListNode<T>>, r: seq<ListNode<T>>, i: nat, j: nat)
    requires Linked(bs) && i < j <= |bs| && b == bs[i..j] && r == bs[..i] + bs[j..]
    ensures forall q :: 0 <= q < |r| ==> r[q] != b[0] && r[q] != b[|b| - 1]
    ensures forall t :: 0 < t < |b| ==> b[t] != b[0]
    ensures forall t :: 0 <= t < |b| - 1 ==> b[t] != b[|b| - 1]
  {
    LinkedExcept(bs, i);
    LinkedExcept(bs, j - 1);
    forall q | 0 <= q < |r|
      ensures r[q] != b[0] && r[q] != b[|b| - 1]
    {
      assert r[q] == if q < i then bs[q] else bs[q + (j - i)];
    }
    forall t | 0 <= t < |b|
      ensures b[t] == bs[i + t]
    {
    }
  }

  /** `Disjoint` from its statement about every position. */
  lemma {:induction false} DisjointFrom<T>(a: seq<ListNode<T>>, b: seq<ListNode<T>>)
    requires forall q :: 0 <= q < |a| ==> a[q] !in b
    ensures Disjoint(a, b)
    decreases |a|
  {
    if a != [] {
      assert a[0] !in b;
      forall q | 0 <= q < |a| - 1
        ensures a[1..][q] !in b
      {
        assert a[1..][q] == a[q + 1];
      }
      DisjointFrom(a[1..], b);
    }
  }
}

