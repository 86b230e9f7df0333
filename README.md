# nCine containers, iterators, colours and render statistics in Dafny

This project models part of the nCine game engine and proves properties of that model. It covers:

- `nctl::List<T>`: a doubly linked list that owns a chain of `ListNode`s through `head_`, `tail_` and `size_`.
  - It supports push and pop at both ends, insertion after or before a position, insertion of a copied range, and erasure of one node or a range.
  - It has `remove`, `removeIf`, `clear`, a deep copy, copy-and-swap assignment and `swap`.
  - It has three `splice` overloads that relink nodes from one list into another.
- `nctl::ListIterator`: a cursor that holds one node pointer. The null pointer is the end position. Its `++` and `--` do nothing at the end.
- The older `ncine::ListIterator`, which behaves the same way.
- The iterator algorithms of `nctl/iterator.h`: category tags, `advance`, `next`, `prev` and `distance`, with dispatch on the tag.
- `ncine::Color`: four byte channels that the setters write with truncation to 8 bits.
- `ncine::RenderStatistics`: per-frame counters of the render queue, with `unsigned int` wrap-around and a ping-pong index for the culled-node counter.

How the model is built:

- The list is a `class` with the source's three fields and a ghost sequence `nodes`, which is the chain from head to tail.
  - `Valid()` is the representation invariant. `size` counts the chain. `head` and `tail` are its ends, or both null when it is empty. The `next`/`previous` links are symmetric and the ends are null-terminated.
  - `Contents()` is the element sequence.
  - Every mutator is a method that keeps `Valid()` and states the new `Contents()` and the new chain in terms of the old ones: which of the old nodes stay, in which order, and where the new nodes sit; inserted nodes are freshly allocated. Nodes that are not inserted or erased keep their identity, so iterators to them stay valid. The copy constructor and assignment state that every node of the new chain is fresh.
  - A position is an index into `nodes`, where `|nodes|` is the end.
- Iterators are classes whose `node` field the `++`/`--` methods update in place.
- `advance` and `distance` are methods with the source's loops, proved against closed-form index functions.
- `Color` is a class over a fixed array of four bytes.
- `RenderStatistics` is a class whose arrays are the source's static slot arrays.

Files:

- `ints.dfy`: C++ integer widths and conversions.
- `list_node.dfy`: `ListNode` and chain facts.
- `list_spec.dfy`: sequence meaning of `remove`, `removeIf` and the range splice.
- `list.dfy`: `List`.
- `list_iterator.dfy` and `legacy_list_iterator.dfy`: the two iterators.
- `iterator_tags.dfy`: tags and overload selection.
- `iterator_algorithms.dfy`: `advance`, `next`, `prev` and `distance`.
- `color.dfy`: `Color`.
- `render_statistics.dfy`: `RenderStatistics`.

## Model

| member | source | states |
|---|---|---|
| Ints.TruncateToByte | src/graphics/Color.cpp:56-59 | `static_cast<unsigned char>` keeps the value modulo 256; a value below 256 is kept as is |
| Ints.AddWrap | src/graphics/RenderStatistics.cpp:89-96 | `+=` on `unsigned int` is addition modulo 2^32, exact when there is no overflow |
| Ints.SubWrap | src/graphics/RenderStatistics.cpp:104 | `size - freeSpace` on `unsigned int` is subtraction modulo 2^32, exact when `freeSpace <= size` |
| Ints.MulWrap | src/graphics/RenderStatistics.cpp:87-88 | `numVertices * numInstances` is multiplication modulo 2^32, exact without overflow |
| Ints.UnsignedToSigned | include/nctl/iterator.h:67-70 | passing an `unsigned int` as the `int` parameter of `advance` reinterprets it modulo 2^32, exact below 2^31 |
| Ints.SignedToUnsigned | include/nctl/iterator.h:67-70 | the reverse reinterpretation agrees modulo 2^32 and keeps non-negative values |
| Ints.NegateUnsigned | include/nctl/iterator.h:85 | unary minus on an `unsigned int` is `2^32 - n` modulo 2^32 |
| Ints.SignedUnsignedRoundTrip | include/nctl/iterator.h:67-70 | the two reinterpretations are inverses |
| Ints.NegatedAsSigned | include/nctl/iterator.h:85 | `-n` reinterpreted as `int` is `-n` for `n <= 2^31` and `2^32 - n` above that |
| ListNodes.ListNode.constructor | include/nctl/List.h:25-26 | the node keeps the payload and both links it is given |
| Lists.List.constructor | include/nctl/List.h:45 | the new list is valid and empty |
| Lists.List.Copy | include/nctl/List.h:142-148 | the loop of `pushBack`s gives a valid list with the same elements in the same order, on fresh nodes only |
| Lists.List.Swap | include/nctl/List.h:54-59 | exchanging `size_`, `head_` and `tail_` keeps both lists valid and exchanges their chains and elements |
| Lists.List.Assign | include/nctl/List.h:150-156 | copy-and-swap leaves the elements of `other` in fresh nodes of this list |
| Lists.List.IsEmpty | include/nctl/List.h:82 | testing `head_` is true exactly when there are no elements |
| Lists.List.Size | include/nctl/List.h:84 | `size_` is the number of elements |
| Lists.List.Front | include/nctl/List.h:88-90 | the first element of a non-empty list |
| Lists.List.Back | include/nctl/List.h:92-94 | the last element of a non-empty list |
| Lists.List.Begin | include/nctl/List.h:62-72 | an iterator at position 0, which is the end on an empty list |
| Lists.List.End | include/nctl/List.h:66-76 | an iterator holding null |
| Lists.List.PushFront | include/nctl/List.h:174-186 | a fresh node is put in front: the elements become `[x] + s` |
| Lists.List.PushBack | include/nctl/List.h:188-200 | a fresh node is put at the back: the elements become `s + [x]` |
| Lists.List.PopFront | include/nctl/List.h:100 | the first element is dropped; an empty list is left alone |
| Lists.List.PopBack | include/nctl/List.h:102 | the last element is dropped; an empty list is left alone |
| Lists.List.Clear | include/nctl/List.h:158-172 | the walk leaves a valid empty list of size 0 |
| Lists.List.InsertAfterNode | include/nctl/List.h:417-437 | a fresh node lands right after position `k`; on an empty list it is the only node; its position and the new elements are given |
| Lists.List.InsertBeforeNode | include/nctl/List.h:439-459 | a fresh node lands right before position `k`, or is the only node of an empty list |
| Lists.List.InsertAfter | include/nctl/List.h:202-206 | the element lands right after `position`'s in a freshly allocated node, every old node keeps its place on either side of it, and the constant result iterator holds the new node |
| Lists.List.InsertBefore | include/nctl/List.h:208-212 | the element lands right before `position`'s in a freshly allocated node, every old node keeps its place on either side of it, and the constant result iterator holds the new node |
| Lists.List.Insert | include/nctl/List.h:214-225 | the range `[first, last)` of another chain is copied after `position`, in source order, into freshly allocated nodes; the old nodes keep their order before and after the copies (`OpenedAt`); the result is the last copy, or `position` for an empty range |
| Lists.List.CopyRange | include/nctl/List.h:217-222 | the loop of `insert`: the chain becomes the old one with the run of copies put in at the insertion point; the copies are freshly allocated and hold the range's elements in order, and the last one is returned |
| Lists.List.InsertCopy | include/nctl/List.h:218-222 | one turn of the copy loop puts a freshly allocated node holding the range's next element right after the copies made so far |
| Lists.List.RemoveNode | include/nctl/List.h:461-482 | the node at `k` leaves the chain and its successor is returned; null changes nothing and returns null |
| Lists.List.Unhook | include/nctl/List.h:468-477 | relinking around position `k` removes exactly that node and keeps the list valid |
| Lists.List.RemoveRange | include/nctl/List.h:484-513 | the nodes at `[i, j)` leave the chain and `lastNode` is returned; a null `firstNode` changes nothing |
| Lists.List.Erase | include/nctl/List.h:227-233 | the element at `k` is removed and the result holds the element now at `k`; erasing the end changes nothing |
| Lists.List.EraseRange | include/nctl/List.h:235-241 | the nodes at `[i, j)` are cut from the chain, the other nodes keep their order, and the result holds `last` |
| Lists.List.Remove | include/nctl/List.h:243-258 | the elements become `RemoveFirst(s, element)`; the chain loses exactly the node of the first match, or is unchanged when there is none |
| ListSpec.RemoveFirstAt | include/nctl/List.h:248-254 | when the first match is at `m`, exactly position `m` is cut |
| ListSpec.RemoveFirstAbsent | include/nctl/List.h:248-257 | with no match nothing is removed |
| ListSpec.RemoveFirstMultiset | include/nctl/List.h:243-258 | one copy of `element` is taken out if there is one, and nothing else |
| ListSpec.RemoveFirstLength | include/nctl/List.h:243-258 | the list is one shorter exactly when `element` occurs |
| Lists.List.RemoveIf | include/nctl/List.h:260-271 | the chain keeps exactly the old nodes whose element `pred` rejects, in order, and so the elements become `Keep(s, pred)` |
| Lists.ValuesKeep | include/nctl/List.h:260-271 | keeping the nodes whose element `pred` rejects keeps exactly the elements `pred` rejects |
| Lists.List.RemoveIfStep | include/nctl/List.h:264-270 | one turn erases the current node exactly when `pred` holds of its element, and extends the decided prefix of the old chain by one node |
| ListSpec.KeepConcat | include/nctl/List.h:260-271 | `Keep` works piecewise over a concatenation |
| ListSpec.KeepSnoc | include/nctl/List.h:266-269 | `Keep` decides one element at a time, from the front |
| ListSpec.KeepStep | include/nctl/List.h:264-270 | the loop's state after erasing or stepping over the current element |
| ListSpec.KeepMembers | include/nctl/List.h:260-271 | every survivor comes from the list and is rejected by `pred` |
| ListSpec.KeepCounts | include/nctl/List.h:260-271 | a rejected value survives as often as it occurred, a matching one not at all; the list does not grow |
| ListSpec.KeepNoneMatching | include/nctl/List.h:260-271 | with no match the list is kept whole |
| ListSpec.KeepUnchanged | include/nctl/List.h:260-271 | `removeIf` changes nothing exactly when no element matches |
| ListSpec.KeepIdempotent | include/nctl/List.h:260-271 | a second `removeIf` with the same predicate removes nothing |
| Lists.List.SpliceAll | include/nctl/List.h:273-305 | the end position of a non-empty list changes nothing; otherwise the destination becomes prefix + source + suffix and the source becomes empty |
| Lists.List.SpliceAllBefore | include/nctl/List.h:283-293 | relinking before a real node puts the whole source chain before it and empties the source |
| Lists.List.SpliceElement | include/nctl/List.h:307-354 | an end position of a non-empty list, or an end `it`, changes nothing; otherwise `it`'s node moves in front of `position` and the source loses exactly that node |
| Lists.List.MoveNode | include/nctl/List.h:322-353 | the source node at `s` leaves the source and lands at position `k` of this list |
| ListNodes.LinkBefore | include/nctl/List.h:283-292 | linking a separate chain in front of the node at position `k` gives one chain with the block at `k`, and returns the node's old predecessor; the same relinking is at lines 336-343 and 393-402 |
| ListNodes.Unlink | include/nctl/List.h:382-390 | making the neighbours of a block point to each other leaves a chain without the block; the same relinking is at lines 468-476 |
| Lists.List.Hook | include/nctl/List.h:334-352 | a node from outside the list is linked in at position `k`, or as the only node |
| Lists.List.SpliceRange | include/nctl/List.h:356-411 | both lists end up as `ListSpec.SpliceRange` says: elements and sizes; it is a no-op on an end position of a non-empty list or on an empty range |
| Lists.List.SpliceRangeValues | include/nctl/List.h:356-411 | moving the node block `[i, j)` moves the element block `[i, j)` the same way |
| Lists.List.MoveRange | include/nctl/List.h:371-410 | the block `[i, j)` of source nodes leaves the source and lands at position `k`, in order |
| Lists.List.CountRange | include/nctl/List.h:372-380 | the walk from `first` to `last` adds the block's length to one size and takes it from the other, and finds the block's last node |
| Lists.List.TransferRange | include/nctl/List.h:382-410 | once the sizes are counted, the block is unlinked from the source and linked into this list |
| Lists.List.UnhookRange | include/nctl/List.h:382-390 | relinking around the block removes exactly it from the source and leaves it a chain of its own |
| Lists.List.HookRange | include/nctl/List.h:392-410 | a separate chain is linked in at position `k` as one block |
| ListSpec.SpliceRange | include/nctl/List.h:356-411 | after the corrected range splice both sizes equal the lengths; a guarded case or an empty range changes nothing |
| ListSpec.SpliceRangeConserves | include/nctl/List.h:356-411 | a range splice loses and duplicates no element of the two lists |
| ListSpec.SpliceRangeAsWritten | include/nctl/List.h:356-411 | the splice as written keeps the total element count and the total size, and, outside the guarded case, leaves the destination size wrong exactly for `first == last` not at the end |
| ListSpec.SpliceRangeAsWrittenMiscounts | include/nctl/List.h:371-410 | as written, splicing `[3, 4][0, 0)` into `[1, 2]` yields `[3, 1, 2]` with size 2 and `[4]` with size 2 |
| ListSpec.SpliceRangeDifference | include/nctl/List.h:368-410 | the code as written and the corrected splice differ exactly for `first == last` not at the end, outside the guarded case |
| ListIterators.ListIterator.constructor | include/nctl/ListIterator.h:20-21 | the iterator holds the node it is given |
| ListIterators.ListIterator.FromMutable | include/nctl/ListIterator.h:24-25 | a constant iterator from a mutable one holds the same node |
| ListIterators.ListIterator.Deref | include/nctl/ListIterator.h:82-89 | `*it` on a real node is its payload |
| ListIterators.ListIterator.PreIncrement | include/nctl/ListIterator.h:91-98 | moves to `next_`, stays at the end, and returns the receiver |
| ListIterators.ListIterator.PostIncrement | include/nctl/ListIterator.h:100-110 | returns a copy at the old position and moves the receiver to `next_` |
| ListIterators.ListIterator.PreDecrement | include/nctl/ListIterator.h:112-119 | moves to `previous_`, stays at the end, and returns the receiver |
| ListIterators.ListIterator.PostDecrement | include/nctl/ListIterator.h:121-131 | returns a copy at the old position and moves the receiver to `previous_` |
| ListIterators.ListIterator.Equals | include/nctl/ListIterator.h:41 | equal exactly when both hold the same node, the end included |
| ListIterators.ListIterator.NotEquals | include/nctl/ListIterator.h:43 | the negation of equality |
| ListIterators.Category | include/nctl/ListIterator.h:54-80 | both specialisations report the bidirectional tag |
| ListIterators.StepsOnChain | include/nctl/ListIterator.h:91-131 | on a chain, `++` and `--` move one position, the end stays the end, and `--` from the head gives the end |
| NcineListIterators.NcineListIterator.constructor | include/ListIterator.h:19-20 | the iterator holds the node it is given |
| NcineListIterators.NcineListIterator.FromMutable | include/ListIterator.h:23-24 | a constant iterator from a mutable one holds the same node |
| NcineListIterators.NcineListIterator.Deref | include/ListIterator.h:81-88 | `*it` on a real node is its payload |
| NcineListIterators.NcineListIterator.PreIncrement | include/ListIterator.h:90-100 | moves to `next_` only from a real node, and returns the receiver |
| NcineListIterators.NcineListIterator.PostIncrement | include/ListIterator.h:102-115 | returns the pre-step iterator and moves the receiver to `next_` |
| NcineListIterators.NcineListIterator.PreDecrement | include/ListIterator.h:117-127 | moves to `previous_` only from a real node, and returns the receiver |
| NcineListIterators.NcineListIterator.PostDecrement | include/ListIterator.h:129-142 | returns the pre-step iterator and moves the receiver to `previous_` |
| NcineListIterators.NcineListIterator.Equals | include/ListIterator.h:40 | equal exactly when both hold the same node |
| NcineListIterators.NcineListIterator.NotEquals | include/ListIterator.h:42 | the negation of equality |
| NcineListIterators.NcineCategory | include/ListIterator.h:53-79 | both specialisations report the bidirectional tag |
| IteratorTags.Base | include/nctl/iterator.h:6-11 | each derived tag has a direct base one level up |
| IteratorTags.SelectOverload | include/nctl/iterator.h:58-63 | overload resolution picks an available tag the argument converts to, and the most derived one |
| IteratorTags.AdvanceDispatch | include/nctl/iterator.h:22-63 | every tag finds its own `advance` overload |
| IteratorTags.DistanceDispatch | include/nctl/iterator.h:97-125 | a bidirectional tag falls back to the forward `distance` |
| IteratorAlgorithms.StepIndex | include/nctl/iterator.h:29-54 | `n` single steps from a position stay within the chain |
| IteratorAlgorithms.BidirectionalAdvanceIsSteps | include/nctl/iterator.h:29-43 | the bidirectional loops are `n` single steps, forward or back |
| IteratorAlgorithms.ForwardAdvanceIsSteps | include/nctl/iterator.h:45-54 | the forward loop is `n` increments for positive `n` and no move otherwise |
| IteratorAlgorithms.AdvanceBidirectional | include/nctl/iterator.h:29-43 | the loops leave the iterator at the bidirectional advance index |
| IteratorAlgorithms.AdvanceForward | include/nctl/iterator.h:45-54 | the loop leaves the iterator at the forward advance index |
| IteratorAlgorithms.Advance | include/nctl/iterator.h:58-63 | a list iterator advances as a bidirectional one |
| IteratorAlgorithms.Next | include/nctl/iterator.h:65-71 | a fresh copy advanced by `n` read as `int`; the argument does not move |
| IteratorAlgorithms.NextOne | include/nctl/iterator.h:73-79 | a fresh copy moved once |
| IteratorAlgorithms.Prev | include/nctl/iterator.h:81-87 | a fresh copy advanced by `-n` read as `int` |
| IteratorAlgorithms.PrevOne | include/nctl/iterator.h:89-95 | a fresh copy stepped back once; `prev(end())` is the end |
| IteratorAlgorithms.PrevCount | include/nctl/iterator.h:81-87 | `prev(it, n)` steps back `n` times for `n <= 2^31` and forward `2^32 - n` times above that |
| IteratorAlgorithms.Distance | include/nctl/iterator.h:106-125 | the counting loop returns the number of increments from `first` to `last` |
| IteratorAlgorithms.AdvanceByDistance | include/nctl/iterator.h:29-116 | advancing by the counted distance reaches `last`; advancing back reaches `first` unless it started at the end |
| IteratorAlgorithms.EndAbsorbs | include/nctl/iterator.h:29-54 | no advance leaves the end position |
| IteratorAlgorithms.AdvanceRandomAccess | include/nctl/iterator.h:22-27 | `it += n` on the iterator's offset |
| IteratorAlgorithms.DistanceRandomAccess | include/nctl/iterator.h:99-104 | `last - first` on the offsets |
| IteratorAlgorithms.RandomAccessRoundTrip | include/nctl/iterator.h:22-104 | the random-access `distance` of an advance by `n` is `n`, and advancing by a distance that fits in an `int` reaches `last` |
| IteratorAlgorithms.ListIteratorDispatch | include/nctl/iterator.h:58-63 | for a list iterator, constant or not, `advance` resolves to the bidirectional overload and `distance` to the forward one, never to the random-access ones |
| Colors.Truncated | src/graphics/Color.cpp:54-60 | the stored channels are each argument modulo 256, in order |
| Colors.TruncatedBytes | src/graphics/Color.cpp:54-60 | channel values that fit in a byte are stored unchanged |
| Colors.TruncatedLowBits | src/graphics/Color.cpp:54-60 | only the low 8 bits of each argument matter |
| Colors.Color.constructor | src/graphics/Color.cpp:21-24 | the default colour is opaque white |
| Colors.Color.Rgb | src/graphics/Color.cpp:26-30 | the three-channel constructor sets alpha to 255 |
| Colors.Color.Rgba | src/graphics/Color.cpp:32-35 | the four-channel constructor stores the truncated arguments |
| Colors.Color.FromArray | src/graphics/Color.cpp:37-40 | the array constructor stores the first four entries, truncated, in order |
| Colors.Color.Set | src/graphics/Color.cpp:54-60 | the four channels become the truncated arguments |
| Colors.Color.SetRgb | src/graphics/Color.cpp:62-65 | the three-argument `set` stores alpha 255 |
| Colors.Color.SetVec | src/graphics/Color.cpp:67-70 | the first four entries, truncated, in order |
| Colors.Color.SetAlpha | src/graphics/Color.cpp:72-75 | alpha becomes the truncated argument and red, green and blue are unchanged |
| Colors.Color.Equals | src/graphics/Color.cpp:87-91 | equal exactly when all four channels are equal |
| Colors.EqualsReflexive | src/graphics/Color.cpp:87-91 | every colour equals itself |
| Colors.EqualsSymmetric | src/graphics/Color.cpp:87-91 | equality does not depend on operand order |
| Colors.EqualsTransitive | src/graphics/Color.cpp:87-91 | equality is transitive |
| Colors.Black | src/graphics/Color.cpp:11 | channels 0, 0, 0, 255 |
| Colors.White | src/graphics/Color.cpp:12 | channels 255, 255, 255, 255 |
| Colors.Red | src/graphics/Color.cpp:13 | channels 255, 0, 0, 255 |
| Colors.Green | src/graphics/Color.cpp:14 | channels 0, 255, 0, 255 |
| Colors.Blue | src/graphics/Color.cpp:15 | channels 0, 0, 255, 255 |
| RenderStats.TypedVertices | src/graphics/RenderStatistics.cpp:87-88 | an instanced command counts its vertices once per instance, as a product modulo 2^32, otherwise once |
| RenderStats.Gather | src/graphics/RenderStatistics.cpp:89-96 | vertices grow by the given count, commands by one, transparents by one exactly for a transparent material, instances by the instance count, all modulo 2^32 |
| RenderStats.GatherBuffer | src/graphics/RenderStatistics.cpp:102-104 | count grows by one, size by the buffer size and used space by size minus free space, modulo 2^32 |
| RenderStats.TotalUpdate | src/graphics/RenderStatistics.cpp:86-91 | changing one slot changes the sum by the difference |
| RenderStats.TotalZero | src/graphics/RenderStatistics.cpp:70-71 | zeroed slots sum to zero |
| RenderStats.CountsStep | src/graphics/RenderStatistics.cpp:86-96 | adding the same amount to the aggregate and to one slot keeps them in agreement modulo 2^32 |
| RenderStats.GatherAgrees | src/graphics/RenderStatistics.cpp:84-97 | after a command is gathered, the aggregate's commands, transparents and instances are still the totals of the typed slots modulo 2^32 |
| RenderStats.ZeroAgrees | src/graphics/RenderStatistics.cpp:70-72 | zeroed slots and a zeroed aggregate agree |
| RenderStats.RenderStatistics.constructor | src/graphics/RenderStatistics.cpp:10-16 | zeroed slots, `index` 0 and both culled counters 0 |
| RenderStats.RenderStatistics.PreviousCulledNodes | src/graphics/RenderStatistics.cpp:55 | the reported counter is the slot other than `index` |
| RenderStats.RenderStatistics.Reset | src/graphics/RenderStatistics.cpp:68-82 | every slot and the aggregate are zeroed; `index` flips between 0 and 1; the new frame's culled counter is zeroed and the old one is now the one reported |
| RenderStats.RenderStatistics.GatherCommand | src/graphics/RenderStatistics.cpp:84-97 | only the command's type slot changes, and it and the aggregate gather the command; the aggregate counts vertices without the instance multiplier |
| RenderStats.RenderStatistics.GatherBuffers | src/graphics/RenderStatistics.cpp:99-105 | only the buffer's type slot changes, and it gathers the buffer |

## Left out

- Memory: `new` is allocation of a fresh node and `delete` is removal from `nodes`. Allocation failure and the freeing itself are not modelled.
- Lists.List.Size: `size_` is an `unsigned int` in the source and an unbounded `nat` here, so a list of 2^32 or more elements is not modelled.
- `ListNode::data_` is a constant field. Writing through the `T &` that a mutable iterator, `front()` or `back()` returns is not modelled.
- Reverse iterators (`rBegin`, `rEnd`) are not modelled, because `ReverseIterator` is not part of this model. Neither is `nctl::swap` from `algorithms.h`; `swap` is modelled as three plain exchanges.
- Undefined behaviour becomes a precondition, not a crash:
  - `insertAfterNode`/`insertBeforeNode` (and so `insertAfter` and `insertBefore`) require that the position is not the end of a non-empty list;
  - `insert` requires a position that is not the end of a non-empty list only for a non-empty range, since an empty range never reaches `insertAfterNode`;
  - dereferencing requires a real node;
  - the whole-list splice requires a non-empty source before a real node;
  - `front()`/`back()` require a non-empty list.
- The splices require two different lists with no node in common. Splicing a list into itself is not modelled.
- `insert` requires that the copied range lies in a chain outside the destination.
- Lists.List.RemoveIf: `pred` is a pure, total Dafny function. A C++ predicate with side effects, internal state or exceptions is not modelled, so the model does not capture a predicate that answers differently for the same element or changes the list while it is walked.
- Lists.List.RemoveIf: walks the nodes directly instead of through `ConstIterator` objects. The same erase or step decisions are taken in the same order.
- Lists.List.SpliceRange: as written, the range splice with `first == last` not at the end moves one node without adjusting the sizes. The class method uses the corrected early-out instead; the behaviour as written is modelled on the elements, see Findings.
- Lists.List.CountRange: the loop walks the node pointers instead of a by-value copy of the `first` iterator.
- Several methods are pieces of one source function, split so that each proof stays small: SpliceAllBefore, MoveNode, Unhook, Hook, MoveRange, TransferRange, CountRange, UnhookRange, HookRange, CopyRange, InsertCopy and RemoveIfStep. The node-level relinking steps ListNodes.LinkBefore and ListNodes.Unlink are shared by several of them. Each one's row cites the lines it covers.
- Lists.List.Insert: requires a valid range, `first` not after `last` in its chain. Otherwise the loop reaches the end and `*first` dereferences null.
- Lists.List.EraseRange: requires a valid range, `first` not after `last`. Otherwise `removeRange` walks past the tail and reads `next_` through null.
- Lists.List.RemoveRange: requires a valid range, `firstNode` not after `lastNode`, for the same reason.
- Lists.List.SpliceRange: requires a valid range, `first` not after `last` in the source. Otherwise the counting loop never ends, since `++` on the end stays at the end.
- IteratorAlgorithms.Distance: requires a chain shorter than 2^31 nodes, because a longer count would overflow the `int` counter, which is undefined behaviour.
- IteratorAlgorithms.Distance: requires that `last` is reachable from `first`, that is, not before it. Otherwise the source loops forever, since `++` on the end stays at the end.
- `Color(const Colorf &)`, `operator=(const Colorf &)`, `operator*` and `operator*=` are not modelled. They use floating-point scaling and clamping.
- `appendCommandsStatistics` and `appendMoreStatistics` only format text. Of them, only the culled-node slot choice is modelled, as PreviousCulledNodes.
- `debugString_`, `textures_`, `customVbos_` and `vaoPool_` are not modelled. `vaoPool_.reset()` is left out of Reset.
- RenderStats.RenderStatistics.Reset: `Commands::reset()` and `Buffers::reset()` are declared in a header that is not part of this model. They are taken to zero every counter.
- `RenderCommand`, `Geometry`, `Material` and `ManagedBuffer` are reduced to the values that are gathered. `command.type()` and `buffer.type` are taken to be valid slot indices. `numInstances()` is taken as an `unsigned int`, as the `+=` into an unsigned counter treats it.
- `RenderCommand::CommandTypes::COUNT` and `RenderBuffersManager::BufferTypes::COUNT` are constructor parameters.
- The increments of `culledNodes_` happen outside this file and are not modelled.
- Colors.EqualsReflexive, Colors.EqualsSymmetric, Colors.EqualsTransitive: follow at once from the contract of Equals.

## Findings

| source | as written | input that shows it | evidently intended | confidence | as-written member | corrected member |
|---|---|---|---|---|---|---|
| include/nctl/List.h:371-410 | for `first == last` with `first` a real node, the loop does not run, but the node of `first` is still unlinked from the source and linked into the destination, and neither `size_` changes | destination `[1, 2]`, source `[3, 4]`, position `begin()`, `first == last == source.begin()`: the destination holds `[3, 1, 2]` with size 2 and the source holds `[4]` with size 2 | an empty range moves nothing, as the early-out for a null `first` does | not executed | ListSpec.SpliceRangeAsWritten, ListSpec.SpliceRangeAsWrittenMiscounts | ListSpec.SpliceRange, Lists.List.SpliceRange |
