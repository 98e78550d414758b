# lab0-c queue: a Dafny model of `queue.c`

`queue.c` implements a queue of owned strings on a Linux-kernel-style
intrusive ring: a sentinel `struct list_head` anchors a circular
doubly-linked list, and each `element_t` carries one node and one
`strdup`'d string. This project models every operation of that file except
the shuffle and the two helpers that only free memory (`q_free`,
`q_release_element`), and proves what each one computes.

The model reads the ring forwards from the sentinel as a sequence of
elements. Each element is a pair of an allocation identity (the node's
address) and its string (`ListHead.Element`). A NULL queue is `None`. A
pointer to a node is its index in the sequence. The `list.h` primitives
`list_add`, `list_add_tail`, `list_del` and `list_move_tail` become pure
sequence functions (`ListHead`). Operations that the C builds from those
primitives (`q_swap`, `q_reverse`, `q_delete_dup`) are written as the same
series of primitive calls, with loop invariants. Each of them is tied to an
independent reference definition in `Rearrange`: `Rev`, `SwapPairs` and
`DistinctOnly`.

`mergesort` is a recursive function on sequences (`MergeSort.Sort`). It
finds its cut point with the same fast/slow walk as the C
(`MergeSort.ChainMiddle`). The pointer-level pass that ends `q_sort` gets its
own model in `Ring`, with explicit `next`/`prev` maps. That pass rebuilds every
`prev` link from the open chain and re-closes the ring at the sentinel.
`Ring` also states the ring invariant (`x.next.prev == x`,
`x.prev.next == x`) and the agreement of the forward and backward traversals.

`strcmp` is modelled up to the sign of its result, as a lexicographic order
on NUL-free strings (`CStrings.Strcmp`). The terminator of the shorter string
compares below any character. One Dafny `char` stands for one byte of the
C string, so only characters up to `'\u00FF'` have a C counterpart, and
lengths and copy bounds count bytes. The copy into the caller's buffer in
`q_remove_head` and `q_remove_tail` is `strncpy` followed by a terminator in
the last slot (`CStrings.CopyOut`).

Files: `cstrings.dfy` (C strings), `listhead.dfy` (state and `list.h`
primitives), `rearrange.dfy` (reference definitions), `mergesort.dfy`,
`ring.dfy` (links and the `prev` rebuild), `queue.dfy` (the `q_*`
operations), `laws.dfy` (properties that span several operations).

Where the comments and the code disagree, the model follows the code:

- `q_delete_mid`: the comment at queue.c:157-158 names index ⌊n/2⌋, but the
  loop stops `slow` at index (n - 1) / 2. For odd n these are the same. For
  even n the loop removes the element one earlier. That matches the
  six-element example in the comment (index 2) but not the formula.
- `q_delete_mid`: the comment says the result is false for a NULL or empty
  queue. The code has no guard and reads through `head` at once. The model
  requires a non-empty queue.
- `q_sort`: the guard `!head->next` never holds on a well-formed ring, so an
  empty queue goes through the cut, the sort and the rebuild. The rebuild
  leaves the sentinel self-linked, so the queue stays empty.

## Model

| member | source | states |
|---|---|---|
| QueueOps.New | queue.c:20-27 | an empty queue when the sentinel is allocated, NULL otherwise |
| QueueOps.InsertHead | queue.c:47-61 | succeeds exactly when the queue is non-NULL and both allocations succeed; on success the new element holds `s` and is first, with the old elements after it in order; on failure the queue is unchanged; node addresses stay distinct |
| QueueOps.InsertTail | queue.c:70-84 | the same outcomes as insert-head, with the new element last and the old elements before it in order |
| QueueOps.RemoveHead | queue.c:100-111 | NULL for a NULL or empty queue, which is left unchanged with the buffer; otherwise returns the first element and leaves exactly the rest in order; a non-NULL buffer keeps its length, reads back as the string truncated to `bufsize - 1` characters, and holds its old contents from index `bufsize` on |
| QueueOps.RemoveTail | queue.c:117-128 | as remove-head for the last element, with the same buffer outcome; the remaining elements keep their order |
| CStrings.CopyOutReadsBack | queue.c:106-109 | after the copy-out the buffer holds min(len, bufsize - 1) characters of the string, then terminators up to index `bufsize - 1` |
| CStrings.CopyOut | queue.c:107-108 | the copy-out keeps the buffer's length and writes nothing from index `bufsize` on |
| CStrings.Strncpy | queue.c:107 | copying at most n characters keeps the destination's length and leaves everything from index n on untouched |
| ListHead.ListAdd | queue.c:59 | the added node is first and the old nodes follow it in their order |
| ListHead.ListAddTail | queue.c:82 | the added node is last and the old nodes precede it in their order |
| ListHead.ListDel | queue.c:105 | unlinking a node leaves one node fewer in the ring |
| ListHead.ListDelContents | queue.c:200-204 | each unlink removes exactly that node from the ring's contents and no other |
| ListHead.ListDelKeepsOrder | queue.c:174-175 | unlinking the node at index i keeps the nodes before it in place and moves each node after it one place forward |
| ListHead.ListMoveTail | queue.c:220-224 | moving a node to the tail keeps the ring's length and puts that node last |
| ListHead.ListMoveTailKeepsOrder | queue.c:240 | moving a node to the tail is unlinking it and re-adding it last: the other nodes keep their relative order in front of it |
| CStrings.Strcmp | queue.c:306-307 | the comparison is zero exactly for equal strings and its sign is one of -1, 0, 1 |
| CStrings.StrcmpLexicographic | queue.c:243-246 | `strcmp(a, b) < 0` exactly when `a` is a proper prefix of `b` or holds the smaller character at the first difference, so the sort's order is ascending lexicographic order |
| CStrings.StrcmpAntisymmetric | queue.c:306-307 | swapping the operands negates the comparison |
| CStrings.StrcmpTransitive | queue.c:306-307 | the order the comparison induces is transitive |
| QueueOps.Size | queue.c:144-153 | the number of elements, 0 for a NULL queue |
| QueueLaws.SizeAfterRun | queue.c:144-153 | after N insertions and M removals, none on an empty queue, the size is the starting size + N - M |
| QueueOps.DeleteMid | queue.c:163-178 | on a non-empty queue, returns true and removes exactly the element at index (n - 1) / 2, leaving the others in order |
| QueueOps.DeleteDup | queue.c:189-210 | false only for NULL; otherwise the result is the in-order subsequence of elements whose string equals neither neighbour's, for any input; the survivors are drawn from the queue and keep distinct node addresses, as a later sort requires |
| Rearrange.DistinctOnlyDrawn | queue.c:196-208 | duplicate deletion only unlinks nodes: the survivors are a sub-multiset of the queue, and distinct node addresses stay distinct |
| Rearrange.DistinctOnlyMembers | queue.c:196-208 | an element survives duplicate deletion exactly when it belongs to no run of two or more equal strings |
| QueueLaws.SortedIsolatedIffUnique | queue.c:180-188 | on sorted input, an element survives exactly when no other element holds its string |
| QueueLaws.DeleteDupExample | queue.c:189-210 | "a", "a", "b", "c", "c", "c" leaves only "b" |
| QueueOps.Swap | queue.c:215-225 | NULL stays NULL; otherwise the result is the pairwise swap `SwapPairs` of the input, which holds the same nodes by Rearrange.SwapPairsPermutes |
| Rearrange.SwapPairs | queue.c:215-225 | elements 2k and 2k+1 trade places for every full pair, a trailing odd element stays last, and the length is kept |
| Rearrange.SwapPairsPermutes | queue.c:215-225 | pairwise swapping keeps exactly the same elements |
| Rearrange.SwapPairsInvolution | queue.c:215-225 | swapping pairs twice restores the queue |
| QueueLaws.SwapExample | queue.c:215-225 | "a" to "e" becomes "b", "a", "d", "c", "e" |
| QueueOps.Reverse | queue.c:234-241 | NULL stays NULL; otherwise the result is the reverse of the input, reached with n - 1 moves for n >= 2 and none for 0 or 1 elements |
| Rearrange.Rev | queue.c:234-241 | element i of the reverse is element n - 1 - i of the input |
| Rearrange.RevPermutes | queue.c:234-241 | reversal keeps exactly the same elements, so nothing is allocated or freed |
| Rearrange.RevInvolution | queue.c:234-241 | reversing twice restores the queue |
| MergeSort.ChainMiddle | queue.c:293-296 | the fast/slow walk stops `slow` at index (n - 1) / 2 |
| MergeSort.SplitSizes | queue.c:293-300 | the left chain handed to the first recursive call holds ceil(n / 2) elements |
| MergeSort.Merge | queue.c:304-320 | the merged chain holds exactly the elements of both chains |
| MergeSort.MergeSorted | queue.c:305-319 | merging two sorted chains gives a sorted chain |
| MergeSort.MergeStable | queue.c:305-319 | for every string, the merge keeps the left chain's elements before the right chain's, because ties take from the left |
| MergeSort.Sort | queue.c:289-321 | the sorted chain is a permutation of the input |
| MergeSort.SortSorted | queue.c:289-321 | the result is non-decreasing under `strcmp` |
| MergeSort.SortStable | queue.c:289-321 | elements with equal strings keep their input order |
| QueueOps.Sort | queue.c:323-339 | NULL stays NULL; otherwise the result is sorted, a permutation and stable, and its links form a well-formed ring visiting the sorted order |
| Ring.Reclose | queue.c:332-338 | whatever `prev` links the nodes held, the rebuild produces the ring of the chain, a self-linked sentinel when it is empty |
| Ring.EncodesInvariant | queue.c:332-338 | a ring built this way satisfies `x.next.prev == x` and `x.prev.next == x` for every node |
| Ring.TraversalsAgree | queue.c:332-338 | following `next` from the sentinel visits the chain and returns; following `prev` visits the same nodes in reverse |
| QueueLaws.InsertRemoveHeadRoundTrip | queue.c:47-111 | inserting at the head and then removing from the head returns the new element and the old queue |
| QueueLaws.InsertRemoveTailRoundTrip | queue.c:70-128 | inserting at the tail and then removing from the tail returns the new element and the old queue |

## Left out

- `q_shuffle` (queue.c:341-352) depends on `srand(time(NULL))` and `rand()`. Its uniformity is a statistical claim. Its behaviour when the drawn node is the tail itself depends on `list.h` internals that are not part of this model.
- The commented-out `partition`, `qs` and `merge` (queue.c:249-287) are dead code.
- `q_free` and `q_release_element` (queue.c:30-38, 134-138) only free memory. A freed element simply leaves the model. `malloc` and `strdup` are inputs: one success flag each, plus the address of the new node, which must not be in the ring already.
- `harness.h`, `queue.h` and `list.h` are not part of this model. The list primitives take their standard meaning.
- QueueOps.Size: does not model the 32-bit `int` counter overflowing; the model counts with unbounded integers.
- QueueOps.DeleteMid: does not model the call on a NULL or empty queue, which the code does not guard against; it requires a non-empty queue.
- QueueOps.RemoveHead: does not model a non-NULL buffer with `bufsize` 0, where `bufsize - 1` wraps around in `size_t`, nor a `bufsize` larger than the buffer, which writes out of bounds; with a non-NULL buffer it requires 1 <= `bufsize` <= the buffer's length. The same holds for QueueOps.RemoveTail.
- CStrings.Strcmp: returns only the sign of the C result (-1, 0 or 1), which is all the code inspects. Characters are ordered by code point, which for bytes matches `strcmp`'s unsigned comparison.
- CStrings.CopyOut: one `char` is one byte. A string holding a character above `'\u00FF'` has no C counterpart, and multi-byte encodings are not modelled.
- QueueOps.Sort: takes the nodes' `prev` links from before the sort as an input map, since the cut and the recursive sort leave them stale.
