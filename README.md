# Linked containers: list, queue and stack

This project models the three hand-linked containers of the `cpp_templates`
repository, with the element type fixed to `int`:

- `List.h`: a doubly-linked list. Besides head, tail and size it keeps an
  `isSorted` flag that every mutator updates by its own rule. The list also
  provides a merge sort by relinking, sorted insertion, a binary search
  gated by the flag, a consuming merge, `unique`, `resize`, functional
  operations and lexicographic comparisons.
- `Queue.h`: a singly-linked FIFO queue with front and rear node links.
- `Stack.h`: a singly-linked LIFO stack with a top node link.

Each container is a Dafny `class`:

- Its real fields are the source's node links, size and flag.
- Its `Node` class has real `data`/`next` (and, for the list, `prev`) fields.
- Three ghost fields describe what the links mean:
  - `nodes`: the chain of nodes in traversal order;
  - `Contents`: their values;
  - `Repr`: the footprint.
- `Valid()` is the link-integrity invariant that `checkIntegrity` tests:
  - the size matches the chain;
  - the end links are null;
  - `next`/`prev` agree;
  - the chain has no repeated node.
  For the list, `Valid()` also states that a true flag means `Contents` is
  non-decreasing.

Every public operation is a method that changes the real fields and links
in place, and its `ensures` gives the new `Contents` (and, where it
matters, `nodes`) in terms of the old ones. The walks of the source are
`while` loops with invariants. The loops that shuttle values through a
temporary queue or stack keep that form: the temporary is a second object
of the same class.

Four modules sit beside the three containers:

- `Wrappers` holds `Result`/`Error`. The source's exceptions (`out_of_range`,
  `underflow_error`, `logic_error`) become `Err(OutOfRange)`, `Err(Underflow)`
  and `Err(LogicError)`. Each such error is returned before anything is
  changed. A method that can return one and may change the container states
  that the values, the node sequence and the footprint (for the list also
  the flag) are then as before; the others have no `modifies` clause.
- `Sequences` holds the reference definitions on values:
  - `Sorted`, `Reversed`, `Filter`, `MapSeq`;
  - `IndexOf`/`LastIndexOf`, `RemoveFirstOf`;
  - `Dedup`, `FoldLeft`, `LexLess`;
  - lemmas about them.
- `Sorting` holds the reference algorithms:
  - a key-based `Merge`/`MergeSort`, with sortedness, permutation and
    stability proved;
  - `InsertSorted`, a comparator merge `MergeBy`, and an insertion sort
    `InsertionSortBy` that stands for `std::sort` under a comparator.

The list's `sort()` is `Sort`, whose own contract states the new values:
`MergeSort` of the old ones, hence sorted and a permutation of them. It
calls `SortRelink`, whose contract states that the nodes are relinked
exactly as the stable `MergeSort` of the node sequence keyed by their
values; stability is stated there.

## Model

| member | source | states |
|---|---|---|
| LinkedList.Node.constructor | List.h:382 | a fresh node holds the value and has no neighbours |
| LinkedList.List.constructor | List.h:382 | an empty, valid list with the flag set |
| LinkedList.List.FromSeq | List.h:401-408 | the list holds the literal values in order; the flag is true exactly when they are non-decreasing, as back-insertion leaves it |
| LinkedList.List.Filled | List.h:411-418 | `count` copies of `value`, with the flag set |
| LinkedList.List.AppendCopies | List.h:431-435 | an empty list receives a copy of another list's values in fresh nodes, disjoint from the other list |
| LinkedList.List.Assign | List.h:427-438 | copy assignment: the values and the flag are those of the other list; self-assignment changes nothing; the other list stays valid and disjoint |
| LinkedList.List.Copy | List.h:385-389 | the copy constructor yields fresh nodes with the same values and flag |
| LinkedList.List.MoveAssign | List.h:441-456 | move assignment takes over the other list's nodes, values and flag, and leaves it empty with the flag set; self-move changes nothing |
| LinkedList.List.Move | List.h:391-399 | the move constructor takes over the nodes, values and flag; the source list becomes empty and sorted |
| LinkedList.List.LinkOnly | List.h:485-486 | a detached node becomes the only node of an empty list, holding its only value; the flag is left alone |
| LinkedList.List.LinkFront | List.h:488-490 | a detached node is linked in front of the head: it heads the node sequence and its value heads the values; the flag is left alone |
| LinkedList.List.LinkBack | List.h:527-529 | a detached node is linked behind the tail: it ends the node sequence and its value ends the values; the flag is left alone |
| LinkedList.List.LinkBefore | List.h:573-576 | a node pointing at interior node k and its predecessor becomes node k, the old nodes from k on shifting back by one; the flag is left alone |
| LinkedList.List.UnlinkOnly | List.h:898-899 | detaching the only node leaves an empty list with the flag untouched |
| LinkedList.List.UnlinkFront | List.h:900-902 | detaching the head of a list of two or more drops exactly the first node and value |
| LinkedList.List.UnlinkBack | List.h:903-905 | detaching the tail of a list of two or more drops exactly the last node and value |
| LinkedList.List.UnlinkInner | List.h:906-908 | detaching interior node k removes exactly the k-th node and value |
| LinkedList.List.PushBackExact | List.h:521-537 | appending to a list whose flag says exactly whether it is sorted keeps the flag exact for the new values |
| LinkedList.List.Unlink | List.h:896-908 | detaching node k removes exactly the k-th node and value and leaves the flag alone |
| LinkedList.List.SpliceBefore | List.h:571-576 | a fresh node holding `value` is linked in just before interior node k |
| LinkedList.List.PushFront | List.h:482-498 | `value` becomes the first value in a fresh node; the flag survives exactly when it was set and `value` is not above the old head |
| LinkedList.List.PushBack | List.h:521-537 | `value` becomes the last value in a fresh node; the flag survives exactly when it was set and `value` is not below the old tail |
| LinkedList.List.GetNodeAt | List.h:459-478 | the walk from the nearer end reaches the node at `index`; an out-of-range index is `Err(OutOfRange)` |
| LinkedList.List.Insert | List.h:560-581 | `value` lands at `index`; an index past the size is `OutOfRange` and changes nothing; the flag follows push at either end and is cleared in between |
| LinkedList.List.InsertAt | List.h:609-632 | insertion before a cursor (null = end) puts `value` at the cursor's position; the flag follows push at the ends and is cleared before an interior node |
| LinkedList.List.Emplace | List.h:703-731 | like insertion before a cursor, but the flag is cleared even at the ends |
| LinkedList.List.PopFront | List.h:797-813 | drops the first value and node; `Underflow` on an empty list, which is left unchanged; flag kept |
| LinkedList.List.PopFrontAndReturn | List.h:816-824 | returns and drops the first value; `Underflow` when empty |
| LinkedList.List.PopBack | List.h:828-844 | drops the last value and node; `Underflow` when empty; flag kept |
| LinkedList.List.PopBackAndReturn | List.h:847-855 | returns and drops the last value; `Underflow` when empty |
| LinkedList.List.RemoveAt | List.h:859-875 | removes exactly the value at `index`; `OutOfRange` when `index >= size`, with nothing changed |
| LinkedList.List.RemoveAtAndReturn | List.h:878-886 | returns and removes the value at `index`; `OutOfRange` otherwise |
| LinkedList.List.Erase | List.h:890-915 | erasing at a cursor removes exactly that node and returns its successor (null at the end); the end cursor changes nothing |
| LinkedList.List.EraseRange | List.h:918-923 | the values from `first` up to but excluding `last` are removed, and `last` is returned |
| LinkedList.List.EraseStep | List.h:919-921 | one pass of the range loop removes the next node of the range and returns the cursor after it |
| LinkedList.List.At | List.h:1042-1059 | the value at `index`, or `OutOfRange` |
| LinkedList.List.RemoveFirst | List.h:927-950 | returns whether `value` occurs; if so exactly its first occurrence is removed, otherwise nothing changes |
| LinkedList.List.RemoveLast | List.h:953-976 | returns whether `value` occurs; if so exactly its last occurrence is removed |
| LinkedList.List.SiftNode | List.h:1016-1034 | one pass of `removeIf`: node k is removed exactly when the predicate holds, and the part still to be filtered keeps its filtered result |
| LinkedList.List.RemoveIf | List.h:1011-1038 | the new values are the old ones that fail the predicate, in order; the result is the number removed; flag kept |
| LinkedList.List.RemoveAll | List.h:979-1006 | every `value` is removed, the rest keep their order, and the result is the old count of `value` |
| LinkedList.List.Front | List.h:1061-1074 | the first value, or `Underflow` when empty |
| LinkedList.List.Back | List.h:1076-1090 | the last value, or `Underflow` when empty |
| LinkedList.List.Size | List.h:1094-1097 | the number of values |
| LinkedList.List.Empty | List.h:1099-1102 | true exactly when there are no values |
| LinkedList.List.IsSortedFlag | List.h:1104-1107 | a true flag means the values are non-decreasing |
| LinkedList.List.Contains | List.h:1111-1120 | true exactly when `value` occurs |
| LinkedList.List.Count | List.h:1123-1133 | the number of occurrences of `value` |
| LinkedList.List.FindFirst | List.h:1136-1147 | the first index of `value`, or -1 exactly when it is absent |
| LinkedList.List.FindLast | List.h:1150-1161 | the last index of `value`, or -1 exactly when it is absent |
| LinkedList.List.Find | List.h:1164-1185 | the node of the first occurrence, or null exactly when absent |
| LinkedList.List.BinarySearchIndex | List.h:1218-1246 | `LogicError` when the flag is clear; otherwise an index holding `value`, or -1 exactly when it is absent, the `mid == 0` break keeping the bounds non-negative |
| LinkedList.List.BinarySearch | List.h:1189-1216 | `LogicError` when the flag is clear; otherwise whether `value` occurs |
| LinkedList.List.BinaryFind | List.h:1249-1264 | `LogicError` when the flag is clear; otherwise a node holding `value`, or null exactly when it is absent |
| LinkedList.List.MergeNodes | List.h:1348-1363 | merging two disjoint sorted chains yields the chain `Merge` of them by value, ties from the left |
| LinkedList.List.SplitMiddle | List.h:1325-1336 | the slow/fast walk stops at node `n/2` and the chain splits there into two chains |
| LinkedList.List.MergeSortNodes | List.h:1320-1345 | the relinked chain is exactly the stable `MergeSort` of the node sequence keyed by value |
| LinkedList.List.RebuildLinks | List.h:1276-1287 | after a sort the `prev` links and the tail are rebuilt and the list is valid with the flag set |
| LinkedList.List.SortChain | List.h:1274 | the sorted chain holds the same nodes and its values are the sorted old values |
| LinkedList.List.SortRelink | List.h:1268-1288 | the list's nodes become the stable merge sort of the old nodes; the values are sorted and the flag set |
| LinkedList.List.Sort | List.h:1268-1288 | the values become the merge sort of the old ones: sorted and a permutation, by `Sorting.MergeSortIsSort`; footprint unchanged; flag set |
| LinkedList.List.EnsureSorted | List.h:736-738 | sorts when the flag is clear, so the values are the sorted old values and the flag is set |
| LinkedList.List.InsertSorted | List.h:735-763 | the values become the sorted old values with `value` inserted before the first value not less than it; flag set |
| LinkedList.List.InsertIntoSorted | List.h:740-762 | on a sorted list the short cuts at either end and the scan all insert `value` at its sorted place |
| LinkedList.List.SkipLess | List.h:750-753 | the scan stops at the first value not less than `value` |
| LinkedList.List.SortBy | List.h:1291-1316 | the nodes stay in place; the values are a permutation ordered under the comparator when it is a strict weak order; the flag is cleared even for short lists |
| LinkedList.List.SortValues | List.h:1298-1314 | the values are rewritten into the existing nodes as the comparator sort of the old values |
| LinkedList.List.WriteBack | List.h:1310-1314 | a buffer of equal length is written into the nodes in order |
| LinkedList.List.AppendRest | List.h:1422-1430 | the values left in one list after cursor i are appended in order, the flag tracking sortedness exactly |
| LinkedList.List.AppendOne | List.h:1422-1425 | one pass of the tail loop appends value j and moves the cursor on |
| LinkedList.List.MergeStep | List.h:1411-1419 | one pass of the merge loop takes the chosen head, so taken plus still-to-merge stays the whole merge |
| LinkedList.List.Interleave | List.h:1408-1420 | the merge loop runs until one side is used up, the taken values being a prefix of `MergeBy` of both sides |
| LinkedList.List.AppendMerged | List.h:1408-1430 | the result list receives `MergeBy` of both lists |
| LinkedList.List.TakeMerged | List.h:1432-1433 | the receiver takes over the result list and the other list is cleared |
| LinkedList.List.MergeWith | List.h:1402-1433 | the receiver becomes the merge of both sorted lists, ties from the receiver; it is sorted with the flag set, and the other list is empty and sorted |
| LinkedList.List.MergeWithBy | List.h:1436-1464 | the receiver becomes `MergeBy` of both lists under the comparator; the other list is empty |
| LinkedList.List.IsSortedCheck | List.h:1367-1381 | the adjacent-pair check is true exactly when the values are sorted |
| LinkedList.List.IsSortedCheckBy | List.h:1384-1398 | true exactly when no adjacent pair is out of order under the comparator |
| LinkedList.List.Clear | List.h:1468-1473 | no values and the flag set |
| LinkedList.List.FlipLinks | List.h:1482-1490 | the loop exchanges `next` and `prev` of every node and leaves `temp` at the last-but-one node |
| LinkedList.List.Exchange | List.h:1486-1488 | one node's `next` and `prev` are exchanged |
| LinkedList.List.ReverseAsWritten | List.h:1477-1498 | for two or more values both ends end up at the old tail, whose `next` is not null, so the list is no longer valid |
| LinkedList.List.Reverse | List.h:1477-1498 | corrected reversal: the nodes and values are the reversed old ones, and the flag survives only for lists of at most one value |
| LinkedList.List.Swap | List.h:1502-1507 | the two lists exchange nodes, values and flags |
| LinkedList.List.Resize | List.h:1511-1521 | shrinking keeps the prefix; growing keeps the old values and pads with `value`, the flag following push-back |
| LinkedList.List.TruncateTo | List.h:1513-1515 | popping the back down to `newSize` keeps the prefix |
| LinkedList.List.GrowTo | List.h:1516-1519 | pushing `value` up to `newSize` keeps the old values in front |
| LinkedList.List.SiftNext | List.h:1556-1568 | one pass of `unique`: the next node is removed exactly when it is the same as the current one |
| LinkedList.List.UniqueBy | List.h:1549-1570 | the values become `Dedup` of the old ones under the predicate: each run of adjacent equivalent values keeps its first |
| LinkedList.List.Unique | List.h:1525-1546 | the values become `Dedup` of the old ones under `==`; no two adjacent values are equal afterwards, by `Sequences.DedupNoAdjacent` |
| LinkedList.List.ForEachAsWritten | List.h:1574-1580 | the function is applied to every value in place and the flag is left as it was, so `Valid()` can fail |
| LinkedList.List.ForEach | List.h:1574-1580 | corrected: every value is mapped in place and the flag is cleared, keeping `Valid()` |
| LinkedList.List.AllOf | List.h:1592-1601 | true exactly when every value satisfies the predicate |
| LinkedList.List.AnyOf | List.h:1604-1613 | true exactly when some value satisfies the predicate |
| LinkedList.List.NoneOf | List.h:1616-1618 | true exactly when no value satisfies the predicate |
| LinkedList.List.MapTo | List.h:1622-1630 | a fresh list of the mapped values, its flag being exact sortedness as back-insertion leaves it |
| LinkedList.List.AppendMapped | List.h:1624-1628 | the mapping loop pushes the mapped values in order |
| LinkedList.List.PushBackIf | List.h:1637-1639 | a value is pushed exactly when it satisfies the predicate |
| LinkedList.List.FilterTo | List.h:1633-1643 | a fresh list of the values satisfying the predicate in order, with an exact flag |
| LinkedList.List.AppendFiltered | List.h:1635-1641 | the filtering loop pushes exactly the kept values in order |
| LinkedList.List.FilterOne | List.h:1637-1640 | one pass of the filtering loop extends the result to the filter of one more value |
| LinkedList.List.Reduce | List.h:1647-1655 | the left fold of the reducer over the values, from `initial` |
| LinkedList.List.ToVector | List.h:1659-1668 | the values head to tail |
| LinkedList.List.ToVectorReverse | List.h:1671-1680 | the reversed values |
| LinkedList.List.Equal | List.h:1684-1701 | true exactly when both lists hold the same values |
| LinkedList.List.NotEqual | List.h:1704-1706 | true exactly when the values differ |
| LinkedList.List.Less | List.h:1709-1724 | lexicographic less-than, a proper prefix being less |
| LinkedList.List.LessEq | List.h:1727-1729 | less or equal |
| LinkedList.List.Greater | List.h:1731-1734 | the other list is lexicographically less |
| LinkedList.List.GreaterEq | List.h:1736-1739 | greater or equal |
| LinkedList.List.CheckIntegrity | List.h:1785-1835 | the forward and backward walks, end links and `next`/`prev` agreement all succeed on every valid list |
| LinkedList.ForEachFlagCounterexample | List.h:1574-1580 | negating the sorted values [1, 2] leaves [-1, -2], which is not sorted |
| LinkedQueue.Node.constructor | Queue.h:14-25 | a fresh node holds the value and has no successor |
| LinkedQueue.Queue.constructor | Queue.h:188-189 | an empty, valid queue |
| LinkedQueue.Queue.FromSeq | Queue.h:207-212 | the literal values front to rear |
| LinkedQueue.Queue.AppendCopies | Queue.h:226-230 | another queue's values are enqueued in order into fresh nodes |
| LinkedQueue.Queue.Assign | Queue.h:222-233 | copy assignment reproduces the other queue's values front to rear; self-assignment changes nothing |
| LinkedQueue.Queue.Copy | Queue.h:192-195 | the copy holds the same values in fresh nodes |
| LinkedQueue.Queue.MoveAssign | Queue.h:236-248 | move assignment takes over the nodes and values and leaves the other queue empty |
| LinkedQueue.Queue.Move | Queue.h:198-204 | the move constructor takes over the nodes and values; the source becomes empty |
| LinkedQueue.Queue.Enqueue | Queue.h:251-262 | `value` is appended at the rear in a fresh node, the old nodes staying in front |
| LinkedQueue.Queue.Dequeue | Queue.h:295-310 | drops the front value and node, the rear link becoming null when the queue empties; `Underflow` when empty |
| LinkedQueue.Queue.DequeueAndReturn | Queue.h:313-321 | returns and drops the front value; `Underflow` when empty |
| LinkedQueue.Queue.Front | Queue.h:324-339 | the front value, or `Underflow` |
| LinkedQueue.Queue.Rear | Queue.h:342-357 | the rear value, or `Underflow` |
| LinkedQueue.Queue.Empty | Queue.h:360-363 | true exactly when there are no values |
| LinkedQueue.Queue.Size | Queue.h:366-369 | the number of values |
| LinkedQueue.Queue.Contains | Queue.h:372-382 | true exactly when `value` occurs |
| LinkedQueue.Queue.Count | Queue.h:385-396 | the number of occurrences of `value` |
| LinkedQueue.Queue.At | Queue.h:399-422 | the value `index` places from the front, or `OutOfRange` |
| LinkedQueue.Queue.Clear | Queue.h:425-430 | no values |
| LinkedQueue.Queue.Swap | Queue.h:433-438 | the two queues exchange nodes and values |
| LinkedQueue.Queue.MoveFrontTo | Queue.h:448 | the front value moves to the rear of the other queue |
| LinkedQueue.Queue.DropFrontBeside | Queue.h:450 | the front value is dropped and the other queue is untouched |
| LinkedQueue.Queue.TransferFrom | Queue.h:455-457 | the other queue's values are appended in order and it is left empty |
| LinkedQueue.Queue.DrainExcept | Queue.h:446-453 | the drain loop leaves the queue empty and the temporary holding the values other than `value` in order |
| LinkedQueue.Queue.ExceptStep | Queue.h:447-452 | one pass of the drain loop keeps the front value exactly when it is not `value` |
| LinkedQueue.Queue.RemoveAll | Queue.h:441-460 | every `value` is removed, the rest keep their order, and the result is the old count of `value` |
| LinkedQueue.Queue.DrainUntil | Queue.h:467-475 | the scan moves the values before the first `value` to the temporary and drops that occurrence; everything when there is none |
| LinkedQueue.Queue.UntilStep | Queue.h:469-474 | one pass of the scan either finds `value` at the front or moves the front value to the temporary |
| LinkedQueue.Queue.RemoveFirstAsWritten | Queue.h:463-482 | returns whether `value` occurs; the queue becomes the values after the first match followed by those before it |
| LinkedQueue.Queue.DrainSkipFirst | Queue.h:467-475 | corrected scan: every value but the first `value` reaches the temporary in order |
| LinkedQueue.Queue.SkipFirstStep | Queue.h:469-474 | one pass of the corrected scan skips the front value only if it is the first `value` |
| LinkedQueue.Queue.RemoveFirst | Queue.h:463-482 | corrected: returns whether `value` occurs and removes exactly its first occurrence, keeping the order |
| LinkedQueue.Queue.Duplicate | Queue.h:485-502 | `[x] + rest` becomes `[x, x] + rest`; `Underflow` when empty |
| LinkedQueue.Queue.DrainAll | Queue.h:510-513 | the queue is emptied into a buffer front first |
| LinkedQueue.Queue.EnqueueReversed | Queue.h:514-516 | a buffer is enqueued back to front |
| LinkedQueue.Queue.Reverse | Queue.h:505-517 | the values are reversed |
| LinkedQueue.Queue.FindFirst | Queue.h:520-532 | the first index from the front of `value`, or -1 exactly when absent |
| LinkedQueue.Queue.FindLast | Queue.h:535-548 | the last index of `value`, or -1 exactly when absent |
| LinkedQueue.Queue.SetData | Queue.h:555 | writing node k changes exactly value k |
| LinkedQueue.Queue.ForEach | Queue.h:551-558 | every value is mapped in place, front first |
| LinkedQueue.Queue.AllOf | Queue.h:571-581 | true exactly when every value satisfies the predicate |
| LinkedQueue.Queue.AnyOf | Queue.h:584-594 | true exactly when some value satisfies the predicate |
| LinkedQueue.Queue.ToVector | Queue.h:597-607 | the values front to rear |
| LinkedQueue.Queue.ToVectorReversed | Queue.h:610-615 | the reverse of `ToVector` |
| LinkedQueue.Queue.Equal | Queue.h:618-636 | true exactly when both queues hold the same values |
| LinkedQueue.Queue.NotEqual | Queue.h:639-642 | true exactly when the values differ |
| LinkedQueue.Queue.CheckIntegrity | Queue.h:666-687 | the node count equals the size and the last node is the rear, on every valid queue |
| LinkedQueue.RotatedRemovalCounts | Queue.h:463-482 | the rotation removes one occurrence, like in-place removal of the first match; absent values leave the queue as it was |
| LinkedQueue.RotatedRemovalAt | Queue.h:463-482 | with the first match at k, the rotation is the suffix after k followed by the prefix before k |
| LinkedQueue.RotatedRemovalCounterexample | Queue.h:463-482 | from [1, 2, 3], removing 2 gives [3, 1] where in-place removal gives [1, 3] |
| LinkedStack.Node.constructor | Stack.h:14-25 | a fresh node holds the value and has no successor |
| LinkedStack.Stack.constructor | Stack.h:182 | an empty, valid stack |
| LinkedStack.Stack.FromSeq | Stack.h:199-203 | pushing the literal values in order leaves the last on top |
| LinkedStack.Stack.PushBackwards | Stack.h:226-228 | pushing a buffer from its end puts its values on top in their own order |
| LinkedStack.Stack.Assign | Stack.h:213-231 | copy assignment reproduces the other stack's values top to bottom; self-assignment changes nothing |
| LinkedStack.Stack.Copy | Stack.h:186-188 | the copy holds the same values top to bottom in fresh nodes |
| LinkedStack.Stack.MoveAssign | Stack.h:235-244 | move assignment takes over the nodes and values and leaves the other stack empty |
| LinkedStack.Stack.Move | Stack.h:192-195 | the move constructor takes over the nodes and values; the source becomes empty |
| LinkedStack.Stack.Push | Stack.h:248-253 | `value` becomes the new top |
| LinkedStack.Stack.Pop | Stack.h:277-285 | drops the top; `Underflow` when empty |
| LinkedStack.Stack.PopAndReturn | Stack.h:289-296 | returns and drops the top; `Underflow` when empty |
| LinkedStack.Stack.Top | Stack.h:300-314 | the top value, or `Underflow` |
| LinkedStack.Stack.Empty | Stack.h:318-320 | true exactly when there are no values |
| LinkedStack.Stack.Size | Stack.h:324-326 | the number of values |
| LinkedStack.Stack.Contains | Stack.h:330-339 | true exactly when `value` occurs |
| LinkedStack.Stack.Count | Stack.h:343-353 | the number of occurrences of `value` |
| LinkedStack.Stack.At | Stack.h:357-379 | the value `index` places below the top (0 is the top), or `OutOfRange` |
| LinkedStack.Stack.Clear | Stack.h:383-387 | no values |
| LinkedStack.Stack.Swap | Stack.h:391-394 | the two stacks exchange nodes and values |
| LinkedStack.Stack.MoveTopTo | Stack.h:404 | the top value moves onto the other stack |
| LinkedStack.Stack.DropTopBeside | Stack.h:406 | the top value is dropped and the other stack is untouched |
| LinkedStack.Stack.RestoreFrom | Stack.h:411-413 | emptying a temporary holding a reversal back onto the stack restores the values in their order |
| LinkedStack.Stack.RestoreStep | Stack.h:411-413 | one pass of the restore loop moves one more value back |
| LinkedStack.Stack.DrainExcept | Stack.h:402-409 | the drain loop leaves in the temporary the reversal of the values other than `value` |
| LinkedStack.Stack.ExceptStep | Stack.h:403-408 | one pass keeps the top value exactly when it is not `value` |
| LinkedStack.Stack.RemoveAll | Stack.h:398-416 | every `value` is removed, the rest keep their order, and the result is the old count of `value` |
| LinkedStack.Stack.DrainUntil | Stack.h:424-431 | the scan moves the values above the topmost `value` to the temporary and drops that occurrence |
| LinkedStack.Stack.UntilStep | Stack.h:425-430 | one pass finds `value` on top or moves the top to the temporary |
| LinkedStack.Stack.RemoveFirst | Stack.h:420-438 | returns whether `value` occurs and removes exactly its topmost occurrence, keeping the order |
| LinkedStack.Stack.Duplicate | Stack.h:442-447 | pushes a copy of the top; `Underflow` when empty |
| LinkedStack.Stack.DrainAll | Stack.h:455-458 | the stack is emptied into a buffer top first |
| LinkedStack.Stack.PushEach | Stack.h:459-461 | pushing a buffer in order puts its last value on top |
| LinkedStack.Stack.Reverse | Stack.h:451-462 | the values are reversed: the old bottom becomes the top |
| LinkedStack.Stack.FindFirst | Stack.h:466-477 | the topmost index of `value`, or -1 exactly when absent |
| LinkedStack.Stack.FindLast | Stack.h:481-493 | the bottommost index of `value`, or -1 exactly when absent |
| LinkedStack.Stack.SetData | Stack.h:500 | writing node k changes exactly value k |
| LinkedStack.Stack.ForEach | Stack.h:497-503 | every value is mapped in place, top first |
| LinkedStack.Stack.AllOf | Stack.h:517-526 | true exactly when every value satisfies the predicate |
| LinkedStack.Stack.AnyOf | Stack.h:530-539 | true exactly when some value satisfies the predicate |
| LinkedStack.Stack.ToVector | Stack.h:543-552 | the values top to bottom |
| LinkedStack.Stack.ToVectorReversed | Stack.h:556-560 | the reverse of `ToVector` |
| LinkedStack.Stack.Equal | Stack.h:564-581 | true exactly when both stacks hold the same values |
| LinkedStack.Stack.NotEqual | Stack.h:585-587 | true exactly when the values differ |
| LinkedStack.Stack.CheckIntegrity | Stack.h:612-620 | the node count equals the size on every valid stack |
| LinkedStack.SplitAtFirst | Stack.h:420-438 | the values above the first match followed by those below it are the stack with that one occurrence removed |
| LinkedStack.KeptStep | Stack.h:403-408 | pushing a kept value onto the reversed filtered prefix gives the reversal of the longer filtered prefix |
| Sequences.SortedAppend | List.h:521-537 | appending keeps a sorted sequence sorted exactly when the new value is not below the last |
| Sequences.SortedPrepend | List.h:482-498 | prepending keeps a sorted sequence sorted exactly when the new value is not above the first |
| Sequences.SortedRemove | List.h:890-915 | removing any one value keeps a sorted sequence sorted, which is why removals keep the flag |
| Sequences.AdjacentSortedIsSorted | List.h:1367-1381 | comparing adjacent pairs decides sortedness over all pairs, both ways |
| Sequences.ReversedInvolution | List.h:1477-1498 | reversing twice gives back the sequence |
| Sequences.IsReversalReversed | Stack.h:451-462 | the pointwise reversal relation holds exactly for `Reversed` |
| Sequences.FilterAppend | List.h:1633-1643 | filtering distributes over concatenation |
| Sequences.FilterCounts | List.h:1011-1038 | a kept value keeps its count and a dropped value disappears |
| Sequences.FilterSorted | List.h:1011-1038 | filtering a sorted sequence leaves it sorted |
| Sequences.FilterOutCount | List.h:979-1006 | removing every `v` shortens the sequence by the count of `v`, leaves no `v` and keeps the other counts |
| Sequences.IndexOf | List.h:1136-1147 | the first index holding `v`, the length exactly when absent |
| Sequences.LastIndexOf | List.h:1150-1161 | the last index holding `v`, -1 exactly when absent |
| Sequences.RemoveFirstOfCut | List.h:927-950 | removing the first `v` cuts the sequence at `IndexOf` |
| Sequences.RemoveFirstOfCounts | List.h:927-950 | removing the first `v` takes away exactly one `v`, or nothing when absent |
| Sequences.FoldLeftAppend | List.h:1647-1655 | folding one more value applies the reducer once more |
| Sequences.LexLessIrreflexive | List.h:1709-1724 | no list is less than itself |
| Sequences.LexLessTransitive | List.h:1709-1724 | lexicographic less-than is transitive |
| Sequences.LexLessTrichotomy | List.h:1709-1724 | any two lists are equal or exactly one is less than the other |
| Sequences.LexLessPrefix | List.h:1709-1724 | a proper prefix is less than the longer list |
| Sequences.DedupNoAdjacent | List.h:1525-1546 | after `unique` no two adjacent values are equal |
| Sequences.DedupIdempotent | List.h:1525-1546 | `unique` twice is `unique` once |
| Sequences.DedupAfterIdentity | List.h:1525-1546 | a sequence without adjacent duplicates is left as it is |
| Sorting.Merge | List.h:1348-1363 | the merge has the combined length and multiset of both inputs |
| Sorting.MergeSort | List.h:1320-1345 | the merge sort is a permutation of its input |
| Sorting.MergeSorted | List.h:1348-1363 | merging two sorted sequences gives a sorted one |
| Sorting.MergeSortSorted | List.h:1320-1345 | the merge sort is sorted |
| Sorting.MergeStable | List.h:1354 | with ties taken from the left, the values of any one key keep their order, the left run's first |
| Sorting.MergeSortStable | List.h:1320-1345 | merge sort keeps the relative order of values with equal keys |
| Sorting.MergeKeys | List.h:1348-1363 | merging nodes and then reading their values is merging the values |
| Sorting.MergeSortKeys | List.h:1320-1345 | sorting nodes and then reading their values is sorting the values |
| Sorting.SortedUnique | List.h:1268-1288 | two sorted permutations of the same values are equal |
| Sorting.MergeSortIsSort | List.h:1268-1288 | the merge sort of the values is sorted, a permutation, and the only sorted permutation |
| Sorting.FirstNotLess | List.h:750-753 | the first index whose value is not less than `v` |
| Sorting.InsertSortedAt | List.h:740-762 | insertion puts `v` at `FirstNotLess`, shifting the later values by one |
| Sorting.InsertSortedCorrect | List.h:735-763 | inserting into a sorted sequence keeps it sorted and adds exactly one `v` |
| Sorting.InsertSortedAtEnd | List.h:745-748 | a value not below the last is appended |
| Sorting.InsertSortedAtFront | List.h:740-743 | a value not above the first is prepended |
| Sorting.MergeByPermutes | List.h:1436-1464 | the comparator merge is a permutation of both inputs |
| Sorting.MergeByStep | List.h:1442-1450 | each pass of the comparator merge takes the head chosen by the comparator |
| Sorting.MergeByAtMost | List.h:1408-1420 | with `<=` as the comparator, `MergeBy` is the key merge that takes ties from the left |
| Sorting.MergeByAtMostSorted | List.h:1402-1433 | merging two sorted lists with `<=` gives a sorted list |
| Sorting.InsertionSortByCorrect | List.h:1307 | the comparator sort is a permutation, ordered whenever the comparator is a strict weak order |
| Sorting.InsertBySorted | List.h:1307 | inserting into a comparator-ordered sequence keeps it ordered |

## Left out

- Console and stream output is I/O and is not modelled: `print`, `printReverse`, `printStats` and `operator<<` in List.h (List.h:1743-1868), and `print` and `operator<<` in Queue.h (Queue.h:646-705) and Stack.h (Stack.h:591-638).
- The element type is fixed to `int`. Sizes and indices (`size_t`) are unbounded naturals, so no width or wrap-around is modelled; a requested `Queue`/`Stack`/`List` index is a `nat`.
- Callables (`std::function`, predicates, comparators) are pure Dafny functions. Callables with side effects, and the const `forEach` overloads (List.h:1583-1590, Queue.h:562-569, Stack.h:507-514) whose only effect would be the callable's own, are not modelled.
- SortBy, SortValues: `std::sort` under a comparator (List.h:1307) is modelled by the insertion sort `Sorting.InsertionSortBy`. The list is thus pinned to one particular ordering of equivalent values, where the library may choose any. The promise stated is only a permutation that is ordered when the comparator is a strict weak order.
- Duplicate rvalue (`T&&`) overloads are not modelled; with `int` values they behave as the value-taking ones. This covers `pushFront`, `pushBack`, `insert`, `insertSorted`, `enqueue`, `push` and the iterator `insert` taking an rvalue (List.h:634-658).
- Variadic `emplaceFront`/`emplaceBack` (List.h:661-700) are not modelled, since with `int` they do exactly what `PushFront`/`PushBack` do. Queue `emplace` (Queue.h:281-293) and Stack `emplace` (Stack.h:267-275) are left out for the same reason: they are `Enqueue` and `Push`. The cursor `emplace` is modelled as `Emplace`.
- Iterators are modelled as a node reference or null, which stands for the end. Iterator classes, `begin`/`end`, tags, the const/non-const duplication and iterator validity after removal are not modelled. The const overloads of `front`, `back`, `rear`, `top`, `at`, `find` and `binaryFind` are the same operations.
- `partition`, `quickSortRec`, `insertAfter`, `insertBefore`, `removeNode` and `getNodeIndex` are declared (List.h:36-43) but never defined, so there is nothing to model.
- Allocation failure of `new`, destructors and memory reclamation are not modelled. A removed node simply leaves the footprint `Repr`.
- LinkedList.List.MergeWith and LinkedList.List.MergeWithBy: merging a list with itself is excluded by requiring disjoint footprints; the source does not guard that case.
- LinkedList.List.EraseRange: requires `first` not to come after `last` in the list (null counting as the end). On a reversed range the source's loop (List.h:918-923) erases up to the end and then keeps calling `erase(end())`, which returns `end()` (List.h:891-893), so it never stops and there is no outcome to model.
- LinkedList.List.RemoveAll: the source has its own loop (List.h:979-1006), which performs the same unlinking as `removeIf` with `x == value`. The model calls `RemoveIf` with that predicate.
- LinkedList.List.Unique: `unique()` (List.h:1525-1546) repeats the loop of `unique(comparator)` with `==`. The model calls `UniqueBy` with equality.
- LinkedList.List.BinarySearch: `binarySearch` (List.h:1189-1216) repeats the loop of `binarySearchIndex`. The model calls `BinarySearchIndex` and tests whether the index is -1.
- LinkedList.List.BinarySearchIndex: when `value` occurs more than once, the contract promises some index holding it, not the particular one the halving reaches. Each probe walks to `mid` through `At`, as the source does.
- LinkedList.List.Sort: stability is stated on `MergeSortNodes` and `SortRelink` (the nodes become `MergeSort` of the nodes keyed by value, and `Sorting.MergeSortStable` applies), not on `Sort` itself, whose contract speaks of values only.
- LinkedList.List.CheckIntegrity, LinkedQueue.Queue.CheckIntegrity, LinkedStack.Stack.CheckIntegrity: they require `Valid()` and promise `true`. A broken structure cannot be handed to them, so the false direction of the check is not stated.
- The functional results of `map` with a different element type `U`, and `reduce` with an accumulator type other than `int`, are modelled with `int` only.

## Findings

| source | as written | input that shows it | evidently intended | confidence | as-written member | corrected member |
|---|---|---|---|---|---|---|
| List.h:1492-1496 | after the link-flipping loop `headNode` is already the old tail, and the following swap of `headNode` and `tailNode` leaves both at the old tail | any list of two or more values, e.g. [1, 2]: head and tail both end at the node holding 2, whose `next` is the node holding 1 | head at the old tail and tail at the old head | not executed | LinkedList.List.ReverseAsWritten | LinkedList.List.Reverse |
| List.h:1574-1580 | `forEach` applies the callable to every value in place but keeps `isSorted` | the sorted list [1, 2] with `x => -x` becomes [-1, -2] while the flag still says sorted, so `binarySearch` would trust an unsorted list | the flag is cleared, as `sort(comparator)` and `reverse` do | not executed | LinkedList.List.ForEachAsWritten, LinkedList.ForEachFlagCounterexample | LinkedList.List.ForEach |
| Queue.h:463-482 | `removeFirst` moves the values before the match to a temporary queue and enqueues them again behind the rest | [1, 2, 3] with `removeFirst(2)` becomes [3, 1] | [1, 3]: only the match removed, order kept, as `removeAll` does | not executed | LinkedQueue.Queue.RemoveFirstAsWritten, LinkedQueue.RotatedRemovalCounterexample | LinkedQueue.Queue.RemoveFirst |
