/** Sequence-level meaning of the list operations whose loops search or
    filter: `remove` and `removeIf`. */
module ListSpec {

  /** The sequence without its first occurrence of `v` (unchanged when `v` is absent). */
  function RemoveFirst<T(==)>(s: seq<T>, v: T): seq<T>
  {
    if s == [] then []
    else if s[0] == v then s[1..]
    else [s[0]] + RemoveFirst(s[1..], v)
  }

  /** When the first occurrence of `v` is at `m`, removing it cuts position `m`. */
  lemma {:induction false} RemoveFirstAt<T>(s: seq<T>, v: T, m: nat)
    requires m < |s| && s[m] == v
    requires forall q :: 0 <= q < m ==> s[q] != v
    ensures RemoveFirst(s, v) == s[..m] + s[m + 1..]
  {
    if m > 0 {
      RemoveFirstAt(s[1..], v, m - 1);
      assert s[..m] == [s[0]] + s[1..][..m - 1];
    }
  }

  /** Without an occurrence of `v` nothing is removed. */
  lemma {:induction false} RemoveFirstAbsent<T>(s: seq<T>, v: T)
    requires forall q :: 0 <= q < |s| ==> s[q] != v
    ensures RemoveFirst(s, v) == s
  {
    if s != [] {
      RemoveFirstAbsent(s[1..], v);
    }
  }

  /** `RemoveFirst` takes out one copy of `v` when there is one, and nothing else. */
  lemma {:induction false} RemoveFirstMultiset<T>(s: seq<T>, v: T)
    ensures multiset(RemoveFirst(s, v)) == multiset(s) - multiset{v}
  {
    if s != [] {
      RemoveFirstMultiset(s[1..], v);
      assert s == [s[0]] + s[1..];
      assert multiset(s) == multiset{s[0]} + multiset(s[1..]);
      if s[0] != v {
        var r := RemoveFirst(s[1..], v);
        assert multiset([s[0]] + r) == multiset{s[0]} + multiset(r);
      }
    }
  }

  /** One element shorter exactly when `v` occurs. */
  lemma {:induction false} RemoveFirstLength<T>(s: seq<T>, v: T)
    ensures |RemoveFirst(s, v)| == if v in s then |s| - 1 else |s|
  {
    if s != [] {
      RemoveFirstLength(s[1..], v);
      assert v in s <==> s[0] == v || v in s[1..];
    }
  }

  /** The elements `removeIf(pred)` keeps: those `pred` rejects, in order. */
  function Keep<T>(s: seq<T>, pred: T -> bool): seq<T>
  {
    if s == [] then []
    else (if pred(s[0]) then [] else [s[0]]) + Keep(s[1..], pred)
  }

  /** `Keep` works piecewise over a concatenation. */
  lemma {:induction false} KeepConcat<T>(a: seq<T>, b: seq<T>, pred: T -> bool)
    ensures Keep(a + b, pred) == Keep(a, pred) + Keep(b, pred)
  {
    if a != [] {
      assert (a + b)[1..] == a[1..] + b;
      KeepConcat(a[1..], b, pred);
    } else {
      assert a + b == b;
    }
  }

  /** `Keep` decides one element at a time, from the front: the step the loop takes. */
  lemma KeepSnoc<T>(s: seq<T>, x: T, pred: T -> bool)
    ensures Keep(s + [x], pred) == Keep(s, pred) + (if pred(x) then [] else [x])
  {
    KeepConcat(s, [x], pred);
    assert [x][1..] == [];
  }

  /** One step of `removeIf`: when the first `m` elements of `c` have been
      decided, leaving `cur` with its unvisited part starting at `d`, the
      element at `d` is `c[m]`, and erasing it (when `pred` accepts it) or
      stepping over it (when it does not) decides `m + 1` elements. */
  lemma KeepStep<T>(c: seq<T>, m: nat, d: nat, cur: seq<T>, pred: T -> bool)
    requires m < |c| && d == |Keep(c[..m], pred)| && cur == Keep(c[..m], pred) + c[m..]
    ensures d < |cur| && cur[d] == c[m]
    ensures pred(c[m]) ==> cur[..d] + cur[d + 1..] == Keep(c[..m + 1], pred) + c[m + 1..] &&
                           d == |Keep(c[..m + 1], pred)|
    ensures !pred(c[m]) ==> cur == Keep(c[..m + 1], pred) + c[m + 1..] &&
                            d + 1 == |Keep(c[..m + 1], pred)|
  {
    assert c[..m + 1] == c[..m] + [c[m]];
    KeepSnoc(c[..m], c[m], pred);
    var k := Keep(c[..m], pred);
    assert cur[..d] == k && cur[d + 1..] == c[m + 1..];
  }

  /** Every element `Keep` returns comes from the input and is rejected by `pred`. */
  lemma {:induction false} KeepMembers<T>(s: seq<T>, pred: T -> bool)
    ensures forall x :: x in Keep(s, pred) ==> x in s && !pred(x)
  {
    if s != [] {
      KeepMembers(s[1..], pred);
    }
  }

  /** `Keep` keeps each element `pred` rejects as often as it occurs, drops
      every element `pred` accepts, and so never lengthens the sequence. */
  lemma {:induction false} KeepCounts<T>(s: seq<T>, pred: T -> bool)
    ensures forall x :: multiset(Keep(s, pred))[x] == if pred(x) then 0 else multiset(s)[x]
    ensures |Keep(s, pred)| <= |s|
  {
    if s != [] {
      KeepCounts(s[1..], pred);
      assert s == [s[0]] + s[1..];
      assert multiset(s) == multiset{s[0]} + multiset(s[1..]);
    }
  }

  /** A sequence none of whose elements satisfies `pred` is kept whole. */
  lemma {:induction false} KeepNoneMatching<T>(s: seq<T>, pred: T -> bool)
    requires forall q :: 0 <= q < |s| ==> !pred(s[q])
    ensures Keep(s, pred) == s
  {
    if s != [] {
      assert forall q :: 0 <= q < |s[1..]| ==> s[1..][q] == s[q + 1];
      KeepNoneMatching(s[1..], pred);
    }
  }

  /** `removeIf` removes nothing exactly when no element satisfies `pred`. */
  lemma KeepUnchanged<T>(s: seq<T>, pred: T -> bool)
    ensures Keep(s, pred) == s <==> forall q :: 0 <= q < |s| ==> !pred(s[q])
  {
    if forall q :: 0 <= q < |s| ==> !pred(s[q]) {
      KeepNoneMatching(s, pred);
    }
    KeepMembers(s, pred);
  }

  /** Removing the matching elements a second time removes nothing. */
  lemma KeepIdempotent<T>(s: seq<T>, pred: T -> bool)
    ensures Keep(Keep(s, pred), pred) == Keep(s, pred)
  {
    KeepMembers(s, pred);
    var k := Keep(s, pred);
    assert forall q :: 0 <= q < |k| ==> k[q] in k;
    KeepNoneMatching(k, pred);
  }

  /** The two lists after a range splice: the destination's elements and
      `size_`, and the source's elements and `size_`. */
  datatype SpliceOutcome<T> = SpliceOutcome(dest: seq<T>, destSize: nat, source: seq<T>, sourceSize: nat)

  /** `splice(position, source, first, last)` as written, on the elements:
      the range `i..j` of `s` moves to position `k` of `d`. The end position
      of a non-empty `d` and an end `first` change nothing. When `first`
      equals `last` (a non-empty source position) the counting loop runs
      zero times, yet the node at `first` is still relinked: it moves, and
      neither `size_` counts it. */
  function SpliceRangeAsWritten<T>(d: seq<T>, k: nat, s: seq<T>, i: nat, j: nat): (r: SpliceOutcome<T>)
    requires k <= |d| && i <= j <= |s|
    ensures |r.dest| + |r.source| == |d| + |s|
    ensures r.destSize + r.sourceSize == |d| + |s|
    ensures r.destSize == |r.dest| <==> !(i == j < |s| && !(k == |d| && d != []))
  {
    if (k == |d| && d != []) || i == |s| then SpliceOutcome(d, |d|, s, |s|)
    else if i == j then SpliceOutcome(d[..k] + [s[i]] + d[k..], |d|, s[..i] + s[i + 1..], |s|)
    else SpliceOutcome(d[..k] + s[i..j] + d[k..], |d| + (j - i), s[..i] + s[j..], |s| - (j - i))
  }

  /** Splicing the empty range at the front of `[3, 4]` into `[1, 2]` moves
      the 3 all the same, and leaves both `size_` counters behind. */
  lemma SpliceRangeAsWrittenMiscounts()
    ensures SpliceRangeAsWritten([1, 2], 0, [3, 4], 0, 0) == SpliceOutcome([3, 1, 2], 2, [4], 2)
  {
    assert [1, 2][..0] + [[3, 4][0]] + [1, 2][0..] == [3, 1, 2];
    assert [3, 4][..0] + [3, 4][1..] == [4];
  }

  /** The range splice with the early-out for an empty range that its
      counting loop implies: exactly the elements `s[i..j]` move. */
  function SpliceRange<T>(d: seq<T>, k: nat, s: seq<T>, i: nat, j: nat): (r: SpliceOutcome<T>)
    requires k <= |d| && i <= j <= |s|
    ensures r.destSize == |r.dest| && r.sourceSize == |r.source|
    ensures (k == |d| && d != []) || i == j ==> r.dest == d && r.source == s
  {
    if (k == |d| && d != []) || i == j then SpliceOutcome(d, |d|, s, |s|)
    else SpliceOutcome(d[..k] + s[i..j] + d[k..], |d| + (j - i), s[..i] + s[j..], |s| - (j - i))
  }

  /** A range splice only moves elements: none is lost, none is duplicated. */
  lemma SpliceRangeConserves<T>(d: seq<T>, k: nat, s: seq<T>, i: nat, j: nat)
    requires k <= |d| && i <= j <= |s|
    ensures var r := SpliceRange(d, k, s, i, j);
      multiset(r.dest) + multiset(r.source) == multiset(d) + multiset(s)
  {
    assert s == s[..i] + s[i..j] + s[j..];
    assert d == d[..k] + d[k..];
  }

  /** The code as written and the corrected splice differ in one case only:
      a non-empty source position with `first == last`. */
  lemma SpliceRangeDifference<T>(d: seq<T>, k: nat, s: seq<T>, i: nat, j: nat)
    requires k <= |d| && i <= j <= |s|
    ensures SpliceRangeAsWritten(d, k, s, i, j) != SpliceRange(d, k, s, i, j) <==>
      i == j < |s| && !(k == |d| && d != [])
  {
    if i == j < |s| && !(k == |d| && d != []) {
      assert |SpliceRangeAsWritten(d, k, s, i, j).dest| == |d| + 1;
    }
  }
}

