/** `nctl::List<T>` (include/nctl/List.h): a doubly linked list that owns a
    chain of `ListNode`s through `head_`, `tail_` and `size_`. The ghost
    field `nodes` is the chain from head to tail; `Valid()` is the
    representation invariant, and `Contents()` the element sequence. Node
    allocation is `new`; deleting a node is its removal from `nodes`. */
module Lists {
  import opened ListNodes
  import opened ListIterators
  import opened ListSpec

  class List<T(==)> {
    var size: nat
    var head: ListNode?<T>
    var tail: ListNode?<T>
    ghost var nodes: seq<ListNode<T>>

    /** `size_` counts the chain and `Chain()` holds. */
    ghost predicate Valid()
      reads this, nodes
    {
      size == |nodes| && Chain()
    }

    /** `head_`/`tail_` are null exactly when the chain is empty and otherwise
        its two ends, and the links are symmetric. */
    ghost predicate Chain()
      reads this, nodes
    {
      (nodes == [] ==> head == null && tail == null) &&
      (nodes != [] ==> head == nodes[0] && tail == nodes[|nodes| - 1]) &&
      Linked(nodes)
    }

    /** The elements in list order. */
    ghost function Contents(): seq<T>
      reads this
    {
      Values(nodes)
    }

    /** A position of this list: one of its nodes, or the end. */
    ghost predicate IsPosition(n: ListNode?<T>)
      reads this
    {
      n == null || n in nodes
    }

    /** `List()`: the empty list. */
    constructor ()
      ensures Valid() && nodes == [] && Contents() == []
    {
      size, head, tail, nodes := 0, null, null, [];
    }

    /** `List(const List &other)`: an empty list that pushes back the element
        of every node of `other`, from the head to the tail. */
    constructor Copy(other: List<T>)
      requires other.Valid()
      ensures Valid() && Contents() == other.Contents()
      ensures forall q :: 0 <= q < |nodes| ==> fresh(nodes[q])
    {
      size, head, tail, nodes := 0, null, null, [];
      new;
      ghost var on := other.nodes;
      var i := other.head;
      ghost var m: nat := 0;
      while i != null
        invariant Valid() && other.Valid() && other.nodes == on
        invariant forall q :: 0 <= q < |nodes| ==> fresh(nodes[q])
        invariant m <= |on| && i == At(on, m)
        invariant Contents() == Values(on[..m])
        decreases |on| - m
      {
        PushBack(i.data);
        ValuesSnoc(on, 0, m);
        assert on[0..m] == on[..m] && on[0..m + 1] == on[..m + 1];
        i := i.next;
        m := m + 1;
      }
      assert on[..m] == on;
    }

    /** `swap(first, second)`: exchanges `size_`, `head_` and `tail_`, and so
        the two chains. */
    static method Swap(first: List<T>, second: List<T>)
      requires first.Valid() && second.Valid()
      modifies first, second
      ensures first.Valid() && second.Valid()
      ensures first.nodes == old(second.nodes) && second.nodes == old(first.nodes)
      ensures first.Contents() == old(second.Contents()) && second.Contents() == old(first.Contents())
    {
      ghost var fs, ss := first.nodes, second.nodes;
      assert Linked(fs) && Linked(ss);
      var size, head, tail := first.size, first.head, first.tail;
      first.size, first.head, first.tail, first.nodes := second.size, second.head, second.tail, second.nodes;
      second.size, second.head, second.tail, second.nodes := size, head, tail, fs;
    }

    /** `operator=(List other)`, copy and swap: `other` is copied (it is taken
        by value), the copy is swapped with this list, and the copy, now
        holding the old chain, is cleared as its destructor does. */
    method Assign(other: List<T>)
      requires Valid() && other.Valid()
      modifies this
      ensures Valid() && Contents() == old(other.Contents())
      ensures forall q :: 0 <= q < |nodes| ==> fresh(nodes[q])
    {
      var copy := new List.Copy(other);
      Swap(this, copy);
      copy.Clear();
    }

    /** `isEmpty()`: tests `head_`. */
    function IsEmpty(): (r: bool)
      reads this, nodes
      requires Valid()
      ensures r <==> Contents() == []
    {
      head == null
    }

    /** `size()`. */
    function Size(): (r: nat)
      reads this, nodes
      requires Valid()
      ensures r == |Contents()|
    {
      size
    }

    /** `front()`: the first element; asserts a non-empty list. */
    function Front(): (r: T)
      reads this, nodes
      requires Valid() && size > 0
      ensures r == Contents()[0]
    {
      ValuesAt(nodes, 0);
      head.data
    }

    /** `back()`: the last element; asserts a non-empty list. */
    function Back(): (r: T)
      reads this, nodes
      requires Valid() && size > 0
      ensures r == Contents()[|Contents()| - 1]
    {
      tail.data
    }

    /** `begin()`: an iterator at the head (constant for a constant list). */
    method Begin(isConst: bool) returns (it: ListIterator<T>)
      requires Valid()
      ensures fresh(it) && it.isConst == isConst && it.node == At(nodes, 0)
    {
      it := new ListIterator(head, isConst);
    }

    /** `end()`: the null sentinel. */
    method End(isConst: bool) returns (it: ListIterator<T>)
      ensures fresh(it) && it.isConst == isConst && it.node == null
    {
      it := new ListIterator(null, isConst);
    }

    /** `pushFront(element)`: a new node before the head. */
    method PushFront(element: T)
      requires Valid()
      modifies this, nodes
      ensures Valid()
      ensures |nodes| > 0 && fresh(nodes[0]) && nodes == [nodes[0]] + old(nodes)
      ensures Contents() == [element] + old(Contents())
    {
      ghost var ns := nodes;
      var node := new ListNode(element, null, head);
      if head != null {
        head.previous := node;
      }
      head := node;
      if tail == null {
        tail := node;
      }
      size := size + 1;
      nodes := [node] + nodes;
      assert forall i :: 0 < i < |nodes| ==> nodes[i] == ns[i - 1];
      ValuesConcat([node], ns);
      assert Values([node]) == [element] by {
        assert [node][..0] == [];
      }
    }

    /** `pushBack(element)`: a new node after the tail. */
    method PushBack(element: T)
      requires Valid()
      modifies this, nodes
      ensures Valid()
      ensures |nodes| > 0 && fresh(nodes[|nodes| - 1]) && nodes == old(nodes) + [nodes[|nodes| - 1]]
      ensures Contents() == old(Contents()) + [element]
    {
      ghost var ns := nodes;
      var node := new ListNode(element, tail, null);
      if tail != null {
        tail.next := node;
      }
      tail := node;
      if head == null {
        head := node;
      }
      size := size + 1;
      nodes := nodes + [node];
      assert forall i :: 0 <= i < |ns| ==> nodes[i] == ns[i];
      assert Values(nodes) == Values(ns) + [element];
    }

    /** `removeNode(node)`: unlinks the node at position `k` and returns its
        successor; the end position is an early-out that changes nothing. */
    method RemoveNode(node: ListNode?<T>, ghost k: nat) returns (nextNode: ListNode?<T>)
      requires Valid() && k <= |nodes| && node == At(nodes, k)
      modifies this, nodes
      ensures Valid()
      ensures nodes == if k < old(|nodes|) then old(nodes[..k] + nodes[k + 1..]) else old(nodes)
      ensures nextNode == At(old(nodes), k + 1)
    {
      if node == null {
        return null;
      }
      nextNode := node.next;
      Unhook(node, k);
    }

    /** `removeRange(firstNode, lastNode)`: unlinks the nodes at positions
        `i..j` by walking from `firstNode` to `lastNode`, counting them off
        `size_`, and joining the node before the range to `lastNode`; returns
        `lastNode`. A null `firstNode` is an early-out that changes nothing. */
    method RemoveRange(firstNode: ListNode?<T>, lastNode: ListNode?<T>, ghost i: nat, ghost j: nat)
      returns (r: ListNode?<T>)
      requires Valid() && i <= j <= |nodes| && firstNode == At(nodes, i) && lastNode == At(nodes, j)
      modifies this, nodes
      ensures Valid()
      ensures nodes == old(nodes[..i] + nodes[j..])
      ensures r == At(old(nodes), j)
    {
      if firstNode == null {
        assert nodes[..i] + nodes[j..] == nodes;
        return null;
      }
      ghost var ns := nodes;
      var previous := firstNode.previous;
      assert previous == if i == 0 then null else ns[i - 1];
      var next: ListNode?<T> := null;
      var current := firstNode;
      ghost var m: nat := i;
      while current != lastNode
        modifies this
        invariant nodes == ns && head == old(head) && tail == old(tail)
        invariant i <= m <= j && current == At(ns, m) && size == |ns| - (m - i)
        decreases j - m
      {
        next := current.next;
        size := size - 1;
        current := next;
        m := m + 1;
      }
      AtInjective(ns, m, j);
      if i > 0 {
        LinkedExcept(ns, i - 1);
      }
      if j < |ns| {
        LinkedExcept(ns, j);
      }
      if previous != null {
        previous.next := lastNode;
      } else {
        head := lastNode;
      }
      if lastNode != null {
        lastNode.previous := previous;
      } else {
        tail := previous;
      }
      nodes := nodes[..i] + nodes[j..];
      LinkedCut(ns, i, j);
      return lastNode;
    }

    /** `popFront()`: removes the head; a no-op on an empty list. */
    method PopFront()
      requires Valid()
      modifies this, nodes
      ensures Valid()
      ensures nodes == if old(nodes) == [] then [] else old(nodes[1..])
      ensures Contents() == if old(Contents()) == [] then [] else old(Contents())[1..]
    {
      var _ := RemoveNode(head, 0);
      if old(nodes) != [] {
        ValuesSplit(old(nodes), 1);
      }
    }

    /** `popBack()`: removes the tail; a no-op on an empty list. */
    method PopBack()
      requires Valid()
      modifies this, nodes
      ensures Valid()
      ensures nodes == if old(nodes) == [] then [] else old(nodes[..|nodes| - 1])
      ensures Contents() == if old(Contents()) == [] then [] else old(Contents())[..|old(Contents())| - 1]
    {
      var _ := RemoveNode(tail, if nodes == [] then 0 else |nodes| - 1);
    }

    /** `clear()`: walks from the head deleting every node. */
    method Clear()
      requires Valid()
      modifies this
      ensures Valid() && nodes == [] && Contents() == []
    {
      ghost var m: nat := 0;
      var next: ListNode?<T> := null;
      while head != null
        invariant m <= |nodes| && head == At(nodes, m)
        invariant Linked(nodes)
        decreases |nodes| - m
      {
        next := head.next;
        head := next;
        m := m + 1;
      }
      tail := null;
      size := 0;
      nodes := [];
    }

    /** `insertAfterNode(node, element)`: a new node right after the node at
        position `k`; on an empty list with the end position it falls back to
        `pushBack` and returns the head. The end of a non-empty list would be
        dereferenced, so it is excluded. */
    method InsertAfterNode(node: ListNode?<T>, element: T, ghost k: nat) returns (newNode: ListNode<T>)
      requires Valid() && k <= |nodes| && node == At(nodes, k)
      requires node == null ==> nodes == []
      modifies this, node, if node == null then null else node.next
      ensures Valid() && fresh(newNode)
      ensures old(nodes) == [] ==> nodes == [newNode]
      ensures old(nodes) != [] ==> nodes == old(nodes[..k + 1]) + [newNode] + old(nodes[k + 1..])
      ensures newNode.data == element && newNode.next == old(NextOf(node))
      ensures var q := if old(nodes) == [] then 0 else k + 1;
        q < |nodes| && nodes[q] == newNode && |nodes| == old(|nodes|) + 1 &&
        Contents() == old(Contents()[..q]) + [element] + old(Contents()[q..])
    {
      if head == null && node == null {
        assert Contents() == [];
        PushBack(element);
        assert nodes == [head] && Values(nodes)[0] == nodes[0].data;
        return head;
      }
      ghost var ns := nodes;
      assert node == ns[k];
      assert k + 1 < |ns| ==> ns[k + 1] in ns;
      LinkedExcept(ns, k);
      if k + 1 < |ns| {
        LinkedExcept(ns, k + 1);
      }
      newNode := new ListNode(element, node, node.next);
      if node.next == null {
        tail := newNode;
      } else {
        node.next.previous := newNode;
      }
      node.next := newNode;
      size := size + 1;
      nodes := nodes[..k + 1] + [newNode] + nodes[k + 1..];
      LinkedInsert(ns, k + 1, newNode);
      ValuesInsert(ns, k + 1, newNode);
    }

    /** `insertBeforeNode(node, element)`: a new node right before the node at
        position `k`; on an empty list with the end position it falls back to
        `pushFront` and returns the tail. */
    method InsertBeforeNode(node: ListNode?<T>, element: T, ghost k: nat) returns (newNode: ListNode<T>)
      requires Valid() && k <= |nodes| && node == At(nodes, k)
      requires node == null ==> nodes == []
      modifies this, node, if node == null then null else node.previous
      ensures Valid() && fresh(newNode)
      ensures nodes == old(nodes[..k]) + [newNode] + old(nodes[k..])
      ensures newNode.data == element
    {
      if tail == null && node == null {
        PushFront(element);
        assert nodes == [tail] && Values(nodes)[0] == nodes[0].data;
        return tail;
      }
      ghost var ns := nodes;
      assert node == ns[k];
      assert k > 0 ==> ns[k - 1] in ns;
      LinkedExcept(ns, k);
      if k > 0 {
        LinkedExcept(ns, k - 1);
      }
      newNode := new ListNode(element, node.previous, node);
      if node.previous == null {
        head := newNode;
      } else {
        node.previous.next := newNode;
      }
      node.previous := newNode;
      size := size + 1;
      nodes := nodes[..k] + [newNode] + nodes[k..];
      LinkedInsert(ns, k, newNode);
    }

    /** `insertAfter(position, element)`: the element lands right after
        `position`'s element, and the result points at it. */
    method InsertAfter(position: ListIterator<T>, element: T) returns (r: ListIterator<T>)
      requires Valid() && IsPosition(position.node)
      requires position.node == null ==> nodes == []
      modifies this, nodes
      ensures Valid() && fresh(r) && r.isConst
      ensures var p := if old(nodes) == [] then 0 else old(IndexOf(nodes, position.node)) + 1;
        p < |nodes| && r.node == nodes[p] && fresh(nodes[p]) &&
        nodes == old(nodes[..p]) + [nodes[p]] + old(nodes[p..]) &&
        Contents() == old(Contents()[..p]) + [element] + old(Contents()[p..])
    {
      ghost var ns := nodes;
      ghost var k := IndexOf(nodes, position.node);
      NextOfAt(nodes, k);
      r := new ListIterator(null, true);
      var n := InsertAfterNode(position.node, element, k);
      r.node := n;
    }

    /** `insertBefore(position, element)`: the element lands right before
        `position`'s element, and the result points at it. */
    method InsertBefore(position: ListIterator<T>, element: T) returns (r: ListIterator<T>)
      requires Valid() && IsPosition(position.node)
      requires position.node == null ==> nodes == []
      modifies this, nodes
      ensures Valid() && fresh(r) && r.isConst
      ensures var p := old(IndexOf(nodes, position.node));
        p < |nodes| && r.node == nodes[p] && fresh(nodes[p]) &&
        nodes == old(nodes[..p]) + [nodes[p]] + old(nodes[p..]) &&
        Contents() == old(Contents()[..p]) + [element] + old(Contents()[p..])
    {
      ghost var ns := nodes;
      ghost var k := IndexOf(nodes, position.node);
      PreviousOfAt(nodes, k);
      r := new ListIterator(null, true);
      var n := InsertBeforeNode(position.node, element, k);
      r.node := n;
      ValuesInsert(ns, k, n);
    }

    /** `insert(position, first, last)`: copies the elements of the range
        `[first, last)` of another chain, in source order, right after
        `position` (at the front of an empty list), and returns the last
        node inserted, or `position` for an empty range. The end of a
        non-empty list is dereferenced only when the range is not empty. */
    method Insert(position: ListIterator<T>, first: ListIterator<T>, last: ListIterator<T>,
                  ghost k: nat, ghost src: seq<ListNode<T>>, ghost i: nat, ghost j: nat)
      returns (r: ListIterator<T>)
      requires Valid() && k <= |nodes| && position.node == At(nodes, k)
      requires position.node == null && nodes != [] ==> i == j
      requires Linked(src) && Disjoint(src, nodes)
      requires i <= j <= |src| && first.node == At(src, i) && last.node == At(src, j)
      modifies this, nodes
      ensures Valid() && fresh(r) && r.isConst
      ensures var p := if old(nodes) == [] then 0 else if k < old(|nodes|) then k + 1 else k;
        |nodes| == old(|nodes|) + (j - i) &&
        OpenedAt(nodes, old(nodes), p, j - i) &&
        (forall q :: p <= q < p + (j - i) ==> fresh(nodes[q])) &&
        Contents() == old(Contents()[..p]) + Values(src[i..j]) + old(Contents()[p..]) &&
        r.node == (if i == j then old(position.node) else nodes[p + (j - i) - 1])
    {
      ghost var ns := nodes;
      ghost var p := if ns == [] then 0 else if k < |ns| then k + 1 else k;
      NextOfAt(ns, k);
      AtDistinctBefore(src, j);
      // the iterators are taken by value: `first` is stepped as `++first` does
      var node, added := CopyRange(position.node, first.node, last.node, k, ns, p, src, i, j);
      OpenedAtOf(ns, p, added);
      ValuesSplice(ns, p, added);
      r := new ListIterator(node, true);
    }

    /** The loop of `insert`: copies `src[i..j]` one node at a time right
        after `node0`, at position `p`, and returns the last node inserted
        (`node0` for an empty range) together with the copies made. */
    method CopyRange(node0: ListNode?<T>, first: ListNode?<T>, stop: ListNode?<T>, ghost k: nat,
                     ghost ns: seq<ListNode<T>>, ghost p: nat, ghost src: seq<ListNode<T>>, ghost i: nat, ghost j: nat)
      returns (node: ListNode?<T>, ghost added: seq<ListNode<T>>)
      requires Valid() && nodes == ns && k <= |ns| && node0 == At(ns, k)
      requires p == if ns == [] then 0 else if k < |ns| then k + 1 else k
      requires node0 == null && ns != [] ==> i == j
      requires NextOf(node0) == At(ns, p)
      requires Linked(src) && Disjoint(src, ns)
      requires i <= j <= |src| && first == At(src, i) && stop == At(src, j)
      requires forall q :: 0 <= q < j ==> src[q] != At(src, j)
      modifies this, nodes
      ensures Valid() && nodes == ns[..p] + added + ns[p..] && |added| == j - i
      ensures Values(added) == Values(src[i..j])
      ensures forall n <- added :: fresh(n)
      ensures node == if i == j then node0 else added[j - i - 1]
    {
      node := node0;
      var current := first;
      ghost var m: nat := i;
      ghost var at: nat := k;
      // the copies made so far, in order
      added := [];
      assert ns[..p] + added + ns[p..] == ns;
      while current != stop
        invariant Valid() && i <= m <= j && current == At(src, m)
        invariant Copying(node, at, node0, ns, p, src, i, m, added)
        invariant node == null ==> nodes == [] || m == j
        invariant m > i ==> fresh(node)
        invariant forall n <- added :: fresh(n)
        decreases j - m
      {
        assert m < |src| && current == src[m];
        DisjointAt(src, ns, m);
        // the source chain is outside this list, so its links are as on entry
        // and the insertion leaves them alone: `*first` and `++first` may both
        // be taken before the insertion
        assert current.next == old(current.next) == At(src, m + 1);
        var element := current.data;
        current := current.next;
        var copy;
        copy, at := InsertCopy(node, element, at, node0, ns, p, src, i, m, added);
        node, added := copy, added + [copy];
        m := m + 1;
      }
    }

    /** The state of `insert`'s loop after the copies `added` of `src[i..m]`:
        they sit in order at position `p` of the old chain `ns`, `node` is
        the last of them (`node0` before the first) at position `at`, and the
        node after it is the one that followed `node0`. */
    ghost predicate Copying(node: ListNode?<T>, at: nat, node0: ListNode?<T>, ns: seq<ListNode<T>>, p: nat,
                            src: seq<ListNode<T>>, i: nat, m: nat, added: seq<ListNode<T>>)
      reads this, node
    {
      p <= |ns| && i <= m <= |src| &&
      nodes == ns[..p] + added + ns[p..] && |added| == m - i &&
      Values(added) == Values(src[i..m]) &&
      at <= |nodes| && node == At(nodes, at) &&
      (node != null ==> at + 1 == p + (m - i)) &&
      NextOf(node) == At(ns, p) &&
      node == (if m == i then node0 else added[m - i - 1])
    }

    /** One turn of `insert`'s loop: the copy of `src[m]`, the `m - i`-th
        element of the range, lands right after the copies `added` made so
        far. */
    method InsertCopy(node: ListNode?<T>, element: T, ghost at: nat, ghost node0: ListNode?<T>, ghost ns: seq<ListNode<T>>,
                      ghost p: nat, ghost src: seq<ListNode<T>>, ghost i: nat, ghost m: nat,
                      ghost added: seq<ListNode<T>>)
      returns (newNode: ListNode<T>, ghost at': nat)
      requires Valid() && m < |src| && element == src[m].data
      requires Copying(node, at, node0, ns, p, src, i, m, added)
      requires node == null ==> nodes == []
      modifies this, node, NextOf(node)
      ensures Valid() && fresh(newNode)
      ensures Copying(newNode, at', node0, ns, p, src, i, m + 1, added + [newNode])
    {
      at' := if nodes == [] then 0 else at + 1;
      newNode := InsertAfterNode(node, element, at);
      PutAfterRun(ns, p, added, newNode);
      ValuesAppend(added, newNode);
      ValuesSnoc(src, i, m);
    }
  
    /** `erase(position)`: removes the element at position `k`; the result
        points at the element that followed it, which now sits at `k`. Erasing
        the end changes nothing. */
    method Erase(position: ListIterator<T>, ghost k: nat) returns (r: ListIterator<T>)
      requires Valid() && k <= |nodes| && position.node == At(nodes, k)
      modifies this, nodes
      ensures Valid() && fresh(r) && r.isConst
      ensures nodes == if k < old(|nodes|) then old(nodes[..k] + nodes[k + 1..]) else old(nodes)
      ensures Contents() == if k < old(|nodes|) then old(Contents()[..k] + Contents()[k + 1..]) else old(Contents())
      ensures r.node == At(nodes, k)
    {
      ghost var ns := nodes;
      var n := RemoveNode(position.node, k);
      if k < |ns| {
        ValuesCut(ns, k, k + 1);
      }
      r := new ListIterator(n, true);
    }

    /** `erase(first, last)`: removes the elements at positions `i..j`; the
        result points at `last`'s element, which now sits at `i`. */
    method EraseRange(first: ListIterator<T>, last: ListIterator<T>, ghost i: nat, ghost j: nat)
      returns (r: ListIterator<T>)
      requires Valid() && i <= j <= |nodes| && first.node == At(nodes, i) && last.node == At(nodes, j)
      modifies this, nodes
      ensures Valid() && fresh(r) && r.isConst
      ensures nodes == old(nodes[..i] + nodes[j..])
      ensures Contents() == old(Contents()[..i] + Contents()[j..])
      ensures r.node == At(nodes, i)
    {
      ghost var ns := nodes;
      var n := RemoveRange(first.node, last.node, i, j);
      ValuesCut(ns, i, j);
      r := new ListIterator(n, true);
    }
  
    /** `remove(element)`: walks from the head and unlinks the first node
        holding `element`, if any. */
    method Remove(element: T)
      requires Valid()
      modifies this, nodes
      ensures Valid()
      ensures Contents() == RemoveFirst(old(Contents()), element)
      ensures element !in old(Contents()) ==> nodes == old(nodes)
      ensures element in old(Contents()) ==>
        exists q :: 0 <= q < old(|nodes|) && old(Contents())[q] == element && element !in old(Contents())[..q] &&
          nodes == old(nodes[..q] + nodes[q + 1..])
    {
      ghost var ns := nodes;
      ghost var c := Contents();
      var current := head;
      ghost var m: nat := 0;
      while current != null
        invariant Valid() && nodes == ns
        invariant m <= |ns| && current == At(ns, m)
        invariant forall q :: 0 <= q < m ==> c[q] != element
        decreases |ns| - m
      {
        if current.data == element {
          assert c[m] == element && element !in c[..m];
          RemoveFirstAt(c, element, m);
          var _ := RemoveNode(current, m);
          ValuesCut(ns, m, m + 1);
          break;
        }
        current := current.next;
        m := m + 1;
      }
      if current == null {
        assert c == c[..m];
        RemoveFirstAbsent(c, element);
      }
    }

    /** `removeIf(pred)`: steps from `begin()` to `end()`, erasing each
        element `pred` accepts; what is left is `Keep`. The iterator is the
        node it holds; one turn of the loop is `RemoveIfStep`. */
    method RemoveIf(pred: T -> bool)
      requires Valid()
      modifies this, nodes
      ensures Valid()
      ensures nodes == Keep(old(nodes), OnData(pred))
      ensures Contents() == Keep(old(Contents()), pred)
    {
      ghost var ns := nodes;
      var i := head;
      ghost var m: nat := 0;
      ghost var d: nat := 0;
      while i != null
        invariant Valid()
        invariant m <= |ns| && d == |Keep(ns[..m], OnData(pred))|
        invariant nodes == Keep(ns[..m], OnData(pred)) + ns[m..]
        invariant d <= |nodes| && i == At(nodes, d)
        decreases |ns| - m
      {
        i, d := RemoveIfStep(i, pred, ns, m, d);
        m := m + 1;
      }
      assert m == |ns| by {
        assert |nodes| == d + (|ns| - m);
      }
      assert ns[..m] == ns;
      assert Contents() == Keep(old(Contents()), pred) by {
        ValuesKeep(ns, pred);
      }
    }

    /** One turn of the `removeIf` loop at the node `i`, which is `ns[m]`
        and sits at position `d`: `i = erase(i)` when `pred` accepts its
        element, `++i` otherwise. Afterwards `m + 1` nodes are decided. */
    method RemoveIfStep(i: ListNode<T>, pred: T -> bool, ghost ns: seq<ListNode<T>>, ghost m: nat, ghost d: nat)
      returns (next: ListNode?<T>, ghost d': nat)
      requires Valid() && m < |ns| && d == |Keep(ns[..m], OnData(pred))|
      requires nodes == Keep(ns[..m], OnData(pred)) + ns[m..]
      requires d <= |nodes| && i == At(nodes, d)
      modifies this, ns
      ensures Valid()
      ensures nodes == if pred(ns[m].data) then old(nodes[..d] + nodes[d + 1..]) else old(nodes)
      ensures nodes == Keep(ns[..m + 1], OnData(pred)) + ns[m + 1..]
      ensures d' == |Keep(ns[..m + 1], OnData(pred))|
      ensures d' <= |nodes| && next == At(nodes, d')
    {
      KeepStep(ns, m, d, nodes, OnData(pred));
      assert OnData(pred)(ns[m]) == pred(i.data);
      // the nodes still in the list are nodes of `ns`
      KeepMembers(ns[..m], OnData(pred));
      forall q | 0 <= q < |nodes|
        ensures nodes[q] in ns
      {
        if q < d {
          assert nodes[q] in Keep(ns[..m], OnData(pred));
          assert nodes[q] in ns[..m];
        } else {
          assert nodes[q] == ns[m + (q - d)];
        }
      }
      if pred(i.data) {
        next := RemoveNode(i, d);
        d' := d;
      } else {
        NextOfAt(nodes, d);
        next := i.next;
        d' := d + 1;
      }
    }
  
    /** `splice(position, source)`: relinks every node of `source` in right
        before `position` and empties `source`. The end position of a
        non-empty list has no node to link before, so it is a no-op. The two
        lists own different nodes; a non-empty destination needs a non-empty
        source, whose tail is dereferenced. */
    method SpliceAll(position: ListIterator<T>, source: List<T>, ghost k: nat)
      requires Valid() && source.Valid() && source != this && Disjoint(source.nodes, nodes)
      requires k <= |nodes| && position.node == At(nodes, k)
      requires position.node != null ==> source.nodes != []
      modifies this, nodes, source, source.nodes
      ensures Valid() && source.Valid()
      ensures old(position.node) == null && old(nodes) != [] ==>
        nodes == old(nodes) && source.nodes == old(source.nodes)
      ensures !(old(position.node) == null && old(nodes) != []) ==>
        nodes == old(nodes[..k] + source.nodes + nodes[k..]) && source.nodes == []
      ensures !(old(position.node) == null && old(nodes) != []) ==>
        Contents() == old(Contents()[..k] + source.Contents() + Contents()[k..]) && source.Contents() == []
    {
      var node := position.node;
      if node == null && size > 0 {
        return;
      }
      ValuesSplice(nodes, k, source.nodes);
      if node != null {
        SpliceAllBefore(node, source, k);
      } else {
        // the destination is empty: it takes over the source's chain
        assert nodes[..k] + source.nodes + nodes[k..] == source.nodes;
        head, tail, size, nodes := source.head, source.tail, source.size, source.nodes;
        source.head, source.tail, source.size, source.nodes := null, null, 0, [];
      }
    }

    /** The relinking branch of `SpliceAll`, before a node of this list. */
    method SpliceAllBefore(node: ListNode<T>, source: List<T>, ghost k: nat)
      requires Valid() && source.Valid() && source != this && Disjoint(source.nodes, nodes)
      requires k < |nodes| && node == nodes[k] && source.nodes != []
      modifies this, nodes, source, source.nodes
      ensures Valid() && source.Valid()
      ensures nodes == old(nodes[..k] + source.nodes + nodes[k..]) && source.nodes == []
    {
      ghost var ns, bs := nodes, source.nodes;
      LinkedExcept(bs, 0);
      LinkedExcept(bs, |bs| - 1);
      var prevNode := LinkBefore(node, source.head, source.tail, ns, k, bs);
      if prevNode == null {
        head := source.head;
      }
      size := size + source.size;
      nodes := ns[..k] + bs + ns[k..];
      source.head, source.tail, source.size, source.nodes := null, null, 0, [];
    }
  
    /** `splice(position, source, it)`: moves the node of `it`, at position
        `s` of `source`, to right before `position`. The end position of a
        non-empty list and the end of `source` are no-ops. */
    method SpliceElement(position: ListIterator<T>, source: List<T>, it: ListIterator<T>, ghost k: nat, ghost s: nat)
      requires Valid() && source.Valid() && source != this && Disjoint(source.nodes, nodes)
      requires k <= |nodes| && position.node == At(nodes, k)
      requires s <= |source.nodes| && it.node == At(source.nodes, s)
      modifies this, nodes, source, source.nodes
      ensures Valid() && source.Valid()
      ensures (old(position.node) == null && old(nodes) != []) || old(it.node) == null ==>
        nodes == old(nodes) && source.nodes == old(source.nodes)
      ensures !((old(position.node) == null && old(nodes) != []) || old(it.node) == null) ==>
        nodes == old(nodes[..k] + [source.nodes[s]] + nodes[k..]) &&
        source.nodes == old(source.nodes[..s] + source.nodes[s + 1..]) &&
        Contents() == old(Contents()[..k] + [source.Contents()[s]] + Contents()[k..]) &&
        source.Contents() == old(source.Contents()[..s] + source.Contents()[s + 1..])
    {
      var node := position.node;
      var sourceNode := it.node;
      if node == null && size > 0 {
        return;
      }
      if sourceNode == null {
        return;
      }
      ValuesInsert(nodes, k, sourceNode);
      ValuesCut(source.nodes, s, s + 1);
      MoveNode(node, source, sourceNode, k, s);
    }

    /** The body of `SpliceElement` past its guards: `sourceNode` is unhooked
        from `source` and hooked into this list before `node`. */
    method MoveNode(node: ListNode?<T>, source: List<T>, sourceNode: ListNode<T>, ghost k: nat, ghost s: nat)
      requires Valid() && source.Valid() && source != this && Disjoint(source.nodes, nodes)
      requires k <= |nodes| && node == At(nodes, k) && (node == null ==> nodes == [])
      requires s < |source.nodes| && sourceNode == source.nodes[s]
      modifies this, nodes, source, source.nodes
      ensures Valid() && source.Valid()
      ensures nodes == old(nodes[..k] + [sourceNode] + nodes[k..])
      ensures source.nodes == old(source.nodes[..s] + source.nodes[s + 1..])
    {
      ghost var ns, bs := nodes, source.nodes;
      DisjointAt(bs, ns, s);
      DisjointNone(bs, ns);
      LinkedExcept(bs, s);
      source.Unhook(sourceNode, s);
      assert Valid();
      assert forall q :: 0 <= q < |source.nodes| ==> source.nodes[q] !in ns && source.nodes[q] != sourceNode;
      Hook(node, sourceNode, k);
    }

    /** The unlinking `removeNode` does, without the `delete`: `node`, at
        position `k`, leaves the chain, its neighbours (or `head_`/`tail_`)
        are joined and `size_` drops by one. */
    method Unhook(node: ListNode<T>, ghost k: nat)
      requires Valid() && k < |nodes| && node == nodes[k]
      modifies this, nodes
      ensures Valid() && nodes == old(nodes[..k] + nodes[k + 1..])
    {
      ghost var ns := nodes;
      var before, after := node.previous, node.next;
      assert k > 0 ==> ns[k - 1] in ns;
      assert k + 1 < |ns| ==> ns[k + 1] in ns;
      Unlink(before, after, ns, k, k + 1);
      if before == null {
        head := after;
      }
      if after == null {
        tail := before;
      }
      size, nodes := size - 1, ns[..k] + ns[k + 1..];
    }

    /** Links the node `n`, which belongs to no chain of this list, in right
        before `node` at position `k`, or makes it the only node when the
        list is empty; `size_` grows by one. */
    method Hook(node: ListNode?<T>, n: ListNode<T>, ghost k: nat)
      requires Valid() && k <= |nodes| && node == At(nodes, k) && (node == null ==> nodes == [])
      requires n !in nodes
      modifies this, nodes, n
      ensures Valid() && nodes == old(nodes[..k] + [n] + nodes[k..])
    {
      ghost var ns := nodes;
      if node != null {
        assert k > 0 ==> ns[k - 1] in ns;
        var prevNode := LinkBefore(node, n, n, ns, k, [n]);
        if prevNode == null {
          head := n;
        }
      } else {
        head, tail := n, n;
        n.previous, n.next := null, null;
      }
      size, nodes := size + 1, ns[..k] + [n] + ns[k..];
    }

    /** `splice(position, source, first, last)`: moves the nodes at positions
        `i..j` of `source` to right before `position`. The end position of a
        non-empty list and an end `first` are no-ops; so is an empty range
        (`first == last`), an early-out the code as written lacks. */
    method SpliceRange(position: ListIterator<T>, source: List<T>, first: ListIterator<T>, last: ListIterator<T>,
                       ghost k: nat, ghost i: nat, ghost j: nat)
      requires Valid() && source.Valid() && source != this && Disjoint(source.nodes, nodes)
      requires k <= |nodes| && position.node == At(nodes, k)
      requires i <= j <= |source.nodes| && first.node == At(source.nodes, i) && last.node == At(source.nodes, j)
      modifies this, nodes, source, source.nodes
      ensures Valid() && source.Valid()
      ensures var r := old(ListSpec.SpliceRange(Contents(), k, source.Contents(), i, j));
        Contents() == r.dest && size == r.destSize && source.Contents() == r.source && source.size == r.sourceSize
      ensures (old(position.node) == null && old(nodes) != []) || i == j ==>
        nodes == old(nodes) && source.nodes == old(source.nodes)
      ensures !((old(position.node) == null && old(nodes) != []) || i == j) ==>
        nodes == old(nodes[..k] + source.nodes[i..j] + nodes[k..]) && source.nodes == old(source.nodes[..i] + source.nodes[j..])
    {
      var node := position.node;
      var firstNode := first.node;
      if node == null && size > 0 {
        return;
      }
      if firstNode == null {
        return;
      }
      if firstNode == last.node {
        AtInjective(source.nodes, i, j);
        return;
      }
      SpliceRangeValues(nodes, k, source.nodes, i, j);
      MoveRange(node, source, firstNode, last.node, k, i, j);
    }

    /** The elements after a range splice that moves nodes. */
    static lemma SpliceRangeValues(ns: seq<ListNode<T>>, k: nat, bs: seq<ListNode<T>>, i: nat, j: nat)
      requires k <= |ns| && i < j <= |bs| && !(k == |ns| && ns != [])
      ensures var r := ListSpec.SpliceRange(Values(ns), k, Values(bs), i, j);
        Values(ns[..k] + bs[i..j] + ns[k..]) == r.dest && Values(bs[..i] + bs[j..]) == r.source &&
        |ns| + (j - i) == r.destSize && |bs| - (j - i) == r.sourceSize
    {
      ValuesSplice(ns, k, bs[i..j]);
      ValuesCut(bs, i, j);
      assert Values(bs[i..j]) == Values(bs)[i..j];
    }

    /** The body of `SpliceRange` past its guards: the counting walk, then
        the range is unhooked from `source` and hooked in before `node`. */
    method MoveRange(node: ListNode?<T>, source: List<T>, firstNode: ListNode<T>, lastNode: ListNode?<T>,
                     ghost k: nat, ghost i: nat, ghost j: nat)
      requires Valid() && source.Valid() && source != this && Disjoint(source.nodes, nodes)
      requires k <= |nodes| && node == At(nodes, k) && (node == null ==> nodes == [])
      requires i < j <= |source.nodes| && firstNode == source.nodes[i] && lastNode == At(source.nodes, j)
      modifies this, nodes, source, source.nodes
      ensures Valid() && source.Valid()
      ensures nodes == old(nodes[..k] + source.nodes[i..j] + nodes[k..])
      ensures source.nodes == old(source.nodes[..i] + source.nodes[j..])
    {
      var lastIncluded := CountRange(source, firstNode, lastNode, i, j);
      TransferRange(node, source, firstNode, lastIncluded, k, i, j);
    }

    /** The relinking of `MoveRange`, once the sizes are counted: the range
        `i..j`, from `firstNode` to `lastNode`, is unhooked from `source` and
        hooked in before `node`. */
    method TransferRange(node: ListNode?<T>, source: List<T>, firstNode: ListNode<T>, lastNode: ListNode<T>,
                         ghost k: nat, ghost i: nat, ghost j: nat)
      requires Chain() && source.Chain() && source != this && Disjoint(source.nodes, nodes)
      requires k <= |nodes| && node == At(nodes, k) && (node == null ==> nodes == [])
      requires i < j <= |source.nodes| && firstNode == source.nodes[i] && lastNode == source.nodes[j - 1]
      requires size == |nodes| + (j - i) && source.size + (j - i) == |source.nodes|
      modifies this, nodes, source, source.nodes
      ensures Valid() && source.Valid()
      ensures nodes == old(nodes[..k] + source.nodes[i..j] + nodes[k..])
      ensures source.nodes == old(source.nodes[..i] + source.nodes[j..])
    {
      ghost var ns, bs := nodes, source.nodes;
      RangeDisjoint(bs, ns, bs[i..j], bs[..i] + bs[j..], i, j);
      RangeEnds(bs, bs[i..j], bs[..i] + bs[j..], i, j);
      DisjointNone(bs, ns);
      source.UnhookRange(firstNode, lastNode, i, j);
      assert Chain();
      HookRange(node, bs[i..j], firstNode, lastNode, k);
    }

    /** The loop of `splice(position, source, first, last)`: walks from
        `firstNode` to `lastNode`, moving one count from `source.size_` to
        `size_` per node, and returns the last node of the range. */
    method CountRange(source: List<T>, firstNode: ListNode<T>, lastNode: ListNode?<T>, ghost i: nat, ghost j: nat)
      returns (lastIncluded: ListNode<T>)
      requires Valid() && source.Valid() && source != this
      requires i < j <= |source.nodes| && firstNode == source.nodes[i] && lastNode == At(source.nodes, j)
      modifies this, source
      ensures size == old(size) + (j - i) && source.size == old(source.size) - (j - i)
      ensures nodes == old(nodes) && source.nodes == old(source.nodes)
      ensures Chain() && source.Chain() && lastIncluded == source.nodes[j - 1]
    {
      ghost var bs := source.nodes;
      var current: ListNode?<T> := firstNode;
      lastIncluded := firstNode;
      ghost var m := i;
      while current != lastNode
        invariant Chain() && source.Chain() && nodes == old(nodes) && source.nodes == bs
        invariant i <= m <= j && current == At(bs, m)
        invariant m > i ==> lastIncluded == bs[m - 1]
        invariant size == old(size) + (m - i) && source.size == |bs| - (m - i)
        decreases j - m
      {
        assert m < j;
        lastIncluded := current;
        current := current.next;
        size := size + 1;
        source.size := source.size - 1;
        m := m + 1;
      }
      AtInjective(bs, m, j);
    }

    /** The unlinking half of a range splice, on the source: the nodes at
        `i..j` leave the chain and their neighbours (or `head_`/`tail_`) are
        joined. `size_` was already counted down. */
    method UnhookRange(firstNode: ListNode<T>, lastNode: ListNode<T>, ghost i: nat, ghost j: nat)
      requires Chain() && i < j <= |nodes| && size + (j - i) == |nodes|
      requires firstNode == nodes[i] && lastNode == nodes[j - 1]
      modifies this, nodes
      ensures Valid() && nodes == old(nodes[..i] + nodes[j..])
      ensures Chained(old(nodes[i..j]))
    {
      ghost var ns := nodes;
      var firstPrev, after := firstNode.previous, lastNode.next;
      ChainedSlice(ns, i, j);
      if i > 0 {
        LinkedExcept(ns, i - 1);
      }
      if j < |ns| {
        LinkedExcept(ns, j);
      }
      Unlink(firstPrev, after, ns, i, j);
      if firstPrev == null {
        head := after;
      }
      if after == null {
        tail := firstPrev;
      }
      nodes := ns[..i] + ns[j..];
    }

    /** The linking half of a range splice, on the destination: the chained
        block `b` goes in right before `node`, or becomes the whole chain of
        this empty list. `size_` was already counted up. */
    method HookRange(node: ListNode?<T>, ghost b: seq<ListNode<T>>, firstNode: ListNode<T>, lastNode: ListNode<T>, ghost k: nat)
      requires Chain() && size == |nodes| + |b| && k <= |nodes| && node == At(nodes, k) && (node == null ==> nodes == [])
      requires b != [] && firstNode == b[0] && lastNode == b[|b| - 1] && Chained(b) && Disjoint(b, nodes)
      requires forall t :: 0 < t < |b| ==> b[t] != firstNode
      requires forall t :: 0 <= t < |b| - 1 ==> b[t] != lastNode
      modifies this, nodes, firstNode, lastNode
      ensures Valid() && nodes == old(nodes[..k] + b + nodes[k..])
    {
      ghost var ns := nodes;
      if node != null {
        assert k > 0 ==> ns[k - 1] in ns;
        var prevNode := LinkBefore(node, firstNode, lastNode, ns, k, b);
        if prevNode == null {
          head := firstNode;
        }
      } else {
        head, tail := firstNode, lastNode;
        firstNode.previous := null;
        lastNode.next := null;
        assert ns[..k] + b + ns[k..] == b;
      }
      nodes := ns[..k] + b + ns[k..];
    }
  }

  /** The elements of the nodes that `Keep` leaves, tested through
      `OnData`, are the elements that `Keep` leaves. */
  lemma {:induction false} ValuesKeep<T>(ns: seq<ListNode<T>>, pred: T -> bool)
    ensures Values(Keep(ns, OnData(pred))) == Keep(Values(ns), pred)
  {
    if ns != [] {
      var head: seq<ListNode<T>> := if pred(ns[0].data) then [] else [ns[0]];
      ValuesKeep(ns[1..], pred);
      ValuesConcat(head, Keep(ns[1..], OnData(pred)));
      ValuesSplit(ns, 1);
      assert Values(head) == if pred(Values(ns)[0]) then [] else [Values(ns)[0]];
    }
  }
}
