# lab0-c queue, modelled in Dafny

A model of `queue.c` from lab0-c: a queue of C strings kept in an intrusive circular
doubly-linked list with a sentinel head (`struct list_head`). It covers every operation of
the file: the comparison `cmp`, construction, insertion and removal at both ends with the
bounded copy into a caller's buffer, size, deletion of the middle node and of duplicates,
pairwise swap, full and k-group reversal, the two-way merge, the recursive merge sort, the
right-scan monotonicity filters, and the k-way tournament merge over a chain of queues.

Layout:

- `cstrings.dfy` (`CStrings`): C strings as byte sequences without NUL, `strcmp`, and the
  `strncpy` + NUL copy into a buffer.
- `listhead.dfy` (`ListHead`): the element node (`Element`, a class, so that node identity
  is observable), the queue head (`Queue`, whose field `elems` lists the nodes from
  `head->next` round to `head->prev`), the chain of queue contexts (`Chain`), and the list.h
  primitives as methods on `Queue` with contracts on `elems`.
- `options.dfy` (`Options`): `Option`, for a NULL `char *`.
- `sequences.dfy`, `ordering.dfy`, `merging.dfy`, `filters.dfy`, `kway.dfy`: the meaning of
  each operation as a function on sequences (`Reversed`, `GroupsReversed`, `Merged`,
  `MergeSorted`, `Deduped`, `Kept`, `Pass`/`Rounds`) with the lemmas about it.
- `queue.dfy` (`QueueOps`): the operations of `queue.c` as imperative methods. Each `while`
  loop of the C code is a loop here, and each `struct list_head *` cursor that walks a list (`curr`, `safe`,
  `front`, `tail`, `slow`, `fast`, `dummy`, `iter`) is the position of its node in the
  queue's current `elems`. Every method is proved against the sequence function that gives
  its meaning.

Where the code and the usual description of these operations differ, the model follows
the code:

- `q_delete_dup` returns false on a NULL or empty queue (queue.c:170-171).
- `q_delete_dup` does not need a sorted queue. It removes every node whose string equals
  that of a neighbour. On a sorted queue this is every string that occurs more than once
  (`Filters.SortedNeighbourIffRepeated`).
- `q_merge_two` takes the node of `h2` first on equal strings (queue.c:261). `q_sort`
  passes the left half as `h2`, so the sort is still stable (`Merging.MergeSortedStable`).
- `q_merge` never reads `descend` (queue.c:379-413). Its result is ascending whatever
  `descend` says.

## Model

| member | source | states |
|---|---|---|
| ListHead.Cmp | queue.c:9-15 | cmp is 0 exactly for equal strings, negative exactly when the first string is lexicographically smaller, positive exactly when the second is |
| CStrings.Strcmp | queue.c:9-15 | cmp is 0 exactly when the two strings are equal |
| CStrings.StrcmpSwap | queue.c:9-15 | swapping the operands of cmp negates the result |
| CStrings.LessEqTotalOrder | queue.c:9-15 | the order cmp induces is reflexive, total, antisymmetric and transitive, and "strictly less" is "not greater or equal" |
| CStrings.StrcmpIsLexicographic | queue.c:9-15 | cmp is negative exactly when the first string is lexicographically smaller: a proper prefix, or a smaller byte at the first difference |
| CStrings.PrefixIsLess | queue.c:9-15 | a proper prefix compares smaller |
| CStrings.Strncpy | queue.c:100 | strncpy writes exactly the first n bytes: the string's bytes, then NUL padding; the rest of the buffer is untouched |
| CStrings.BufferHoldsTruncatedValue | queue.c:99-102 | the buffer image has bufsize bytes and ends in NUL, and reads back as the value cut to bufsize - 1 bytes, or the whole value when it fits |
| ListHead.Queue.IsEmpty | queue.c:94 | list_empty: the head links no node (also used at queue.c:111, 128, 147, 170, 203, 219, 295, 325, 354) |
| ListHead.Queue.IsSingular | queue.c:295 | list_is_singular: the head links exactly one node |
| ListHead.Queue.Init | queue.c:24 | INIT_LIST_HEAD: the head links no node afterwards (also queue.c:285) |
| ListHead.Queue.Add | queue.c:63 | list_add: the node comes first, the old nodes follow in order |
| ListHead.Queue.AddTail | queue.c:87 | list_add_tail: the node comes last, after the old nodes in order |
| ListHead.Queue.Del | queue.c:103 | list_del: exactly the node at the given position leaves the list, the others keep their order (also queue.c:120, 159, 180, 184, 337, 366) |
| ListHead.Queue.Move | queue.c:232 | list_move within one list: the node is unlinked and linked again right after the given node, or first when that is the head; every other node keeps its order (also queue.c:210) |
| ListHead.Queue.MoveTail | queue.c:263 | list_move_tail to another list: the node leaves this list and becomes the last node of the other one (also queue.c:267, 274, 280) |
| ListHead.Queue.Splice | queue.c:284 | list_splice: the source's nodes are linked in front of this list's nodes |
| ListHead.Queue.CutPosition | queue.c:308 | list_cut_position: the nodes up to and including the given one move to the destination, in order, and the rest stay |
| QueueOps.New | queue.c:18-26 | a fresh empty queue, or NULL exactly when allocation fails |
| QueueOps.InsertHead | queue.c:43-65 | true exactly for a non-NULL head and string when allocation succeeds; then a fresh node with the string comes first and the old nodes follow in order; otherwise nothing changes |
| QueueOps.InsertTail | queue.c:68-89 | as InsertHead, with the new node last |
| QueueOps.CopyOut | queue.c:99-102 | with a buffer and bufsize > 0, the first bufsize bytes hold the strncpy image and a final NUL, and nothing past them is written; otherwise the buffer is untouched |
| QueueOps.RemoveHead | queue.c:92-106 | NULL exactly for a NULL or empty queue, with nothing changed; otherwise the first node is returned, the rest stay in order, and the buffer holds its copied string |
| QueueOps.RemoveTail | queue.c:109-123 | as RemoveHead, for the last node |
| QueueOps.HeadRoundTrip | queue.c:43-106 | inserting a string at the head and removing at the head returns a node holding that string and leaves the queue as it was |
| QueueOps.TailRoundTrip | queue.c:68-123 | the same round trip at the tail |
| QueueOps.Size | queue.c:126-140 | the count is the queue's length, 0 for NULL |
| QueueOps.DeleteMid | queue.c:143-163 | false for NULL or empty, nothing changed; otherwise the node at (n - 1) / 2 is removed: the only middle of an odd queue, the first of the two middles of an even one |
| QueueOps.DeleteDup | queue.c:166-191 | false for NULL or empty, nothing changed; otherwise true, and the queue becomes Deduped of the old one |
| QueueOps.DedupStep | queue.c:178-187 | at the scan's current node, "equal to safe, or is_dup set" is exactly "has an equal neighbour in the original queue" |
| QueueOps.DedupDrops | queue.c:179-186 | deleting a node with an equal neighbour keeps the loop invariant: the survivors so far, then the dedup of the rest, make Deduped of the input |
| QueueOps.DedupKeeps | queue.c:178-188 | keeping a node without an equal neighbour keeps the same invariant |
| Filters.DedupedKeepsExactly | queue.c:166-191 | an element survives exactly when its string equals neither neighbour's |
| Filters.SortedNeighbourIffRepeated | queue.c:166-191 | on a sorted queue, having an equal neighbour is the same as having a duplicate anywhere |
| Filters.DedupedStrictlySorted | queue.c:166-191 | on a sorted queue the survivors are strictly increasing, so no string is left twice |
| QueueOps.Swap | queue.c:194-198 | the queue becomes its pairs reversed (GroupsReversed with k = 2) |
| Sequences.SwapExample | queue.c:194-198 | [1, 2, 3, 4, 5] becomes [2, 1, 4, 3, 5] |
| QueueOps.Reverse | queue.c:201-212 | the queue becomes its reversal |
| QueueOps.ReverseStep | queue.c:209-211 | moving the next node to the front extends the reversed prefix by that node |
| Sequences.ReversedTwice | queue.c:201-212 | reversing twice gives back the queue |
| Sequences.ReversedAt | queue.c:201-212 | position k of the reversal holds position n - 1 - k |
| Sequences.ReversedMultiset | queue.c:201-212 | the reversal holds the same nodes |
| QueueOps.ReverseK | queue.c:215-244 | for k >= 1 each full block of k nodes is reversed in place and a shorter trailing block is kept; for k <= 0 nothing changes (k = 0 only on a NULL or empty queue, which returns before the division) |
| QueueOps.TruncDiv | queue.c:223 | C's truncating division: for a non-negative size and positive k it is the number of whole blocks; for negative k it is at most 0 |
| QueueOps.BlocksIsDiv | queue.c:223 | the number of whole blocks of k equals n / k |
| QueueOps.ReverseGroup | queue.c:229-236 | one group reversed: it joins the finished groups, and groups_left drops by one and still counts the whole groups left |
| QueueOps.MoveGroup | queue.c:230-235 | the inner loop moves the group's nodes one by one after dummy, leaving the group reversed and the rest unchanged |
| QueueOps.GroupStep | queue.c:231-234 | one list_move(curr, dummy) extends the reversed front of the group by curr |
| QueueOps.GroupClosed | queue.c:236-242 | a reversed group joins the finished ones, and one whole group fewer is left |
| QueueOps.GroupsFinished | queue.c:229-243 | when no whole group is left, the queue is the block-reversal of the input |
| Sequences.GroupsReversedInBlock | queue.c:215-244 | inside the g-th full block, position t holds the block's position k - 1 - t |
| Sequences.GroupsReversedTail | queue.c:215-244 | past the last full block every node stays where it is |
| Sequences.GroupsReversedAppend | queue.c:215-244 | a prefix made of whole blocks is reversed independently of what follows |
| Sequences.GroupsOfOne | queue.c:219 | with k = 1 nothing moves |
| Sequences.GroupsLongerThanInput | queue.c:223-229 | with k greater than the length nothing moves |
| Sequences.GroupsReversedTwice | queue.c:215-244 | reversing the blocks twice gives back the queue |
| QueueOps.MergeTwo | queue.c:247-286 | with both heads present, h1 becomes Merged(h1, h2) and h2 becomes empty; with a NULL argument nothing changes |
| QueueOps.TakeFromFirst | queue.c:260-276 | moving h1's strictly smaller front (or any front once h2 is empty) to the result keeps "result followed by the merge of the rest is the full merge" |
| QueueOps.TakeFromSecond | queue.c:265-269 | the same for h2's front, which is taken on equal strings too |
| QueueOps.TakeRest | queue.c:278-282 | once h1 is empty, moving the rest of h2 keeps the result a prefix of the merge |
| Merging.MergedInterleaves | queue.c:247-286 | the merge is an interleaving of h1 and h2 that keeps each one's order |
| Merging.MergedPermutes | queue.c:247-286 | the merge has length \|h1\| + \|h2\| and is a permutation of h1 ++ h2 |
| Merging.MergedSorted | queue.c:247-286 | merging two sorted queues gives a sorted one |
| Merging.MergedTiesFavourSecond | queue.c:261 | when h2 is sorted, for every string all of h2's nodes with it come before all of h1's, each side in its own order |
| QueueOps.Sort | queue.c:289-317 | ascending: the queue becomes MergeSorted of the input; descending: its reversal |
| QueueOps.MergeSortedSplit | queue.c:299-308 | where fast stops, slow is the last of the first ceil(n / 2) nodes, the half MergeSorted sorts separately and passes second |
| Merging.MergeSortedSortsAndPermutes | queue.c:289-317 | the sort gives a sorted permutation of its input |
| Merging.MergeSortedStable | queue.c:307-312 | the sort is stable: nodes with equal strings keep their input order |
| Merging.MergeSortedFixesSorted | queue.c:289-317 | a sorted queue is left as it is, so sorting twice equals sorting once |
| Merging.DescendingSortIsDesc | queue.c:314-316 | the descending sort is non-increasing and a permutation of its input |
| Ordering.SortedUnique | queue.c:289-317 | two sorted queues that list the nodes of every string in the same order are equal, so a stable sort has exactly one result |
| QueueOps.RemoveBeaten | queue.c:329-344 | the scan of q_ascend and q_descend leaves exactly Kept of the input |
| QueueOps.DeleteIfBeaten | queue.c:334-342 | curr is deleted exactly when a node after it beats it; otherwise nothing changes |
| QueueOps.KeptStep | queue.c:333-344 | the node at curr survives exactly when nothing after it beats it |
| QueueOps.ScanKeeps | queue.c:343 | keeping curr and moving to safe keeps the scan invariant |
| QueueOps.ScanDrops | queue.c:337-343 | deleting curr and moving to safe keeps the scan invariant |
| QueueOps.Ascend | queue.c:321-346 | removes every node with a strictly smaller string to its right and returns the count left; 0 for NULL |
| QueueOps.Descend | queue.c:350-375 | removes every node with a strictly greater string to its right and returns the count left; 0 for NULL |
| Filters.KeptIsRunningKept | queue.c:321-375 | the right-scan filter equals the one-pass running-minimum (maximum) filter |
| Filters.KeptMonotone | queue.c:321-375 | no survivor beats a survivor before it |
| Filters.KeptSorted | queue.c:321-375 | q_ascend leaves a non-decreasing queue, q_descend a non-increasing one |
| Filters.KeptKeepsLast | queue.c:321-375 | the last node always survives |
| Filters.KeptMembers | queue.c:321-375 | the survivors come from the input, and there are no more of them |
| QueueOps.Merge | queue.c:379-414 | the queues become Rounds of their contents; the first holds every element, sorted if every input was, the others are empty, and the count of all elements is returned; 0 for a NULL chain |
| QueueOps.MergeRound | queue.c:398-408 | one round merges queue i with queue listsize - 1 - i for i < listsize / 2, and tail ends at the last queue of the next round |
| KWay.PassTotal | queue.c:401-408 | a round neither loses nor duplicates an element |
| KWay.PassEmpties | queue.c:398-409 | after a round over L queues those from ceil(L / 2) on are empty |
| KWay.PassSorted | queue.c:401-408 | a round keeps every queue sorted |
| KWay.RoundsGather | queue.c:398-411 | the rounds leave every queue after the first empty, keep the multiset of all elements, and keep every queue sorted when the inputs were |
| KWay.RoundsGatherAll | queue.c:379-414 | on K >= 1 queues the first queue ends with all elements, sorted when every input was, and every other queue is empty |

## Left out

- Memory is not modelled. This covers `malloc`, `strdup` and `free`, `q_free` (queue.c:29-40) and the `q_release_element` calls. A deleted or removed node simply leaves `elems`.
- Allocation failure in `q_new` and in the inserts is the parameter `allocOk`. The model does not distinguish a failed `malloc` from a failed `strdup`; both return false and change nothing.
- list.h is not part of this model. `ListHead` gives each primitive that `queue.c` uses the contract it has on the sequence of nodes.
- The circular `next`/`prev` links, the sentinel, and `list_entry`/`container_of` are not represented. A node's address is its position in the queue.
- C integer widths are not modelled: `int size` in `q_size`, `int k`, `size_t listsize`. Counts are unbounded integers, so overflow on queues of more than `INT_MAX` nodes is not captured.
- `q_merge` on a chain with no entries (queue.c:386-387) reads the chain head as if it were a `queue_contex_t`. `ListHead.Chain.Valid` requires at least one entry, and no queue twice.
- `q_reverseK` on a non-empty queue with k = 0 divides by zero (queue.c:223), so `QueueOps.ReverseK` requires k != 0 there. A NULL or empty queue returns before the division (queue.c:219-220) and is modelled for every k.
- `queue_contex_t` is reduced to its `q` field. Its other fields, and the chain's own links, are not modelled.
- `QueueOps.MergeTwo` requires two different heads when both are non-NULL. `queue.c` never passes the same queue twice (`q_sort` passes `head` and its local `left`; `q_merge` passes queues i and j with i < j of a chain without repeats). With one queue as both arguments the C loops would move nodes onto the local `result` head while still walking that queue (queue.c:255-284), which the model does not capture.
- The commented-out `list_sort` call (queue.c:291-293) is not modelled.
- Neither the quadratic cost of the filters nor the recursion depth of `q_sort` is modelled.
- QueueOps.TruncDiv: its result is stated only for the operands `q_reverseK` passes, a non-negative size. For a positive k it is the number of whole blocks; for a negative k it is at most 0. A negative dividend is not specified.
