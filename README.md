# queue.c in Dafny

A model of the string queue in `queue.c`. A `queue_t` has `head`, `tail` and
`size`, and sits on a singly linked chain of `list_ele_t` elements. The
operations are:

- creation and release;
- O(1) insertion at the head and at the tail;
- removal of the head, with a truncating copy into the caller's buffer;
- the size query;
- in-place reversal;
- a recursive merge sort that relinks the existing elements and compares
  with `strcasecmp`.

The model keeps the program's own shape:

- `Node` is a class with a fixed `value` and a mutable `next` link.
- `Queue` is a class with the three fields of `queue_t`, plus a ghost
  sequence `nodes` listing the chain in link order.
- Every `q_*` function is a method that takes a possibly-null `Queue?`,
  just as the C functions take a possibly-NULL pointer.
- The loops of `q_free`, `q_reverse` and the front/back split are `while`
  loops with invariants.
- `SortedMerge` and `MergeSort` are recursive methods that relink nodes.

Each operation is specified against a function on sequences of strings
(`Reversed`, `Merge`, `MergeSortOf`, `CopyOut`), and the properties of those
functions are proved as lemmas.

Modules:

- `CaseFold` (case_fold.dfy): `strcasecmp` in the "C" locale, and the facts
  that make it a total preorder on C strings.
- `QueueSpec` (queue_spec.dfy): what reversal, the merge step and merge sort
  compute, sortedness, and what `q_remove_head` leaves in the buffer.
- `NodeChain` (node_chain.dfy): `list_ele_t`, the chain predicate, the loop
  of `q_reverse`, `SortedMerge`, the front/back split and `MergeSort`.
- `LinkedQueue` (queue.dfy): `queue_t` and the `q_*` operations.
- `QueueFixes` (queue_fixes.dfy): the two stale-`tail` findings below, each
  with a repaired operation.
- `QueueExamples` (queue_examples.dfy): two concrete runs, with the strings
  a caller reads back from its buffer.

Two invariants are kept apart:

- `Valid()` says that `head` starts a NULL-terminated chain of `nodes` and
  that `size` counts them. Every operation except `Free` keeps it; after
  `Free` the C code releases the queue itself.
- `TailValid()` says that `tail` is the last node, or null. The code does
  not keep it everywhere, so each operation states when it holds afterwards.

The model follows the code as written:

- The sort is not stable. The comment at queue.c:187-190 asks only for
  ascending order. `SortedMerge` takes the left element only when
  `strcasecmp` is negative (queue.c:201-206). On a tie it takes the right
  one, so equal elements can swap (`MergeTakesRightOnTie`).
- `q_insert_tail` relies on `tail` being the last element, or NULL for an
  empty queue. It tests `if (!q->tail)` to detect an empty queue
  (queue.c:106), and otherwise links after `tail` (queue.c:110-111).
  `q_remove_head` does not clear `tail` when the last element goes, and
  `q_sort` does not recompute it. See Findings.

## Model

| member | source | states |
|---|---|---|
| CaseFold.StrCaseCmp | queue.c:201 | `strcasecmp`: strings that are equal after case folding compare as 0, and a string that is a proper case-folded prefix of another sorts before it |
| CaseFold.Lower | queue.c:201 | `tolower` of the "C" locale: 'A'..'Z' move up by 32, every other character is unchanged, and only NUL folds to NUL |
| CaseFold.LowerAll | queue.c:201 | folds every character of a string, keeping its length |
| CaseFold.StrCaseCmpAntisymmetric | queue.c:201 | swapping the operands of `strcasecmp` negates its result |
| CaseFold.CaseLeTotal | queue.c:201 | of two strings, one always sorts no later than the other under `strcasecmp` |
| CaseFold.StrCaseCmpZero | queue.c:201 | on C strings `strcasecmp` is zero exactly when the case-folded strings are equal |
| CaseFold.CaseLeTransitive | queue.c:201 | on C strings "sorts no later than" is transitive, so the comparison is a total preorder |
| QueueSpec.Reversed | queue.c:165-185 | the reversed sequence has the same length |
| QueueSpec.ReversedInvolution | queue.c:165-185 | reversing twice gives the original sequence |
| QueueSpec.ReversedPermutation | queue.c:165-185 | reversal neither adds nor drops an element |
| QueueSpec.Merge | queue.c:192-209 | the merge of two runs has the length of both together |
| QueueSpec.MergePermutation | queue.c:192-209 | the merge holds exactly the elements of both runs |
| QueueSpec.MergeHead | queue.c:201-206 | the merge starts with the head of the left run only when it compares strictly below the head of the right run, otherwise with the head of the right run |
| QueueSpec.MergeSorted | queue.c:192-209 | merging two sorted runs gives a sorted run |
| QueueSpec.MergeTakesRightOnTie | queue.c:201-206 | of two elements that compare equal, the right-hand one comes out first, so the sort is not stable |
| QueueSpec.FrontLength | queue.c:218-232 | the slow/fast split gives the front half the ceiling of n/2 nodes, and both halves are non-empty when n >= 2 |
| QueueSpec.MergeSortOf | queue.c:211-238 | merge sort with that split keeps the length |
| QueueSpec.MergeSortOfSorted | queue.c:211-238 | merge sort returns a sorted sequence |
| QueueSpec.MergeSortOfPermutation | queue.c:211-238 | merge sort returns a permutation of its input |
| QueueSpec.MergeSortOfCorrect | queue.c:240-245 | merge sort returns a sorted permutation of its input |
| QueueSpec.SortedPairwise | queue.c:240-245 | in a sorted sequence every element sorts no later than every element after it, not only its neighbour |
| QueueSpec.StrNCpyOf | queue.c:134 | `strncpy` into `n` cells: cell `i` holds the source's character `i` while the source lasts, and NUL after it |
| QueueSpec.CopyOut | queue.c:133-135 | the caller's first `bufsize` cells after a removal: the first `bufsize - 1` as `strncpy` leaves them, and NUL in the last one |
| QueueSpec.CStringOfTerminated | queue.c:133-136 | a buffer holding a C string followed by NUL reads back as that string |
| QueueSpec.CopyOutReadBack | queue.c:133-136 | the copied-out buffer has exactly `bufsize` cells and ends in NUL; it reads back as the removed string truncated to `bufsize - 1` characters, and as the whole string when it fits |
| NodeChain.Node.constructor | queue.c:65-66 | a new element holds the given string and link |
| NodeChain.ChainShift | queue.c:28-35 | in a NULL-terminated chain, a node met twice is met twice again the same distance further on |
| NodeChain.ChainDistinct | queue.c:28-35 | a NULL-terminated chain never visits a node twice |
| NodeChain.ChainTail | queue.c:137-138 | after the first node of a chain comes the chain of the remaining nodes, and the first node does not occur among them |
| NodeChain.ChainCons | queue.c:65-68 | linking a node in front of a chain gives a chain one node longer |
| NodeChain.ChainSnoc | queue.c:106-113 | linking a node after the last node of a chain gives a chain one node longer |
| NodeChain.LinkFront | queue.c:202-203 | setting the link of a node outside a chain to the chain's head gives a chain one node longer, starting at that node |
| NodeChain.LinkBack | queue.c:174-175 | one step of the reversal: the node is linked in front of the reversed part, and the node it linked to before still heads the unreversed rest |
| NodeChain.ReverseStep | queue.c:173-182 | each step of the reversal puts the next node in front of the reversed prefix, and that node is not yet in the prefix |
| NodeChain.ReverseLinks | queue.c:169-182 | the loop of `q_reverse` relinks the chain so that it holds the same nodes in reverse order; the node it records as the new tail is the old first node, or the old `tail` when the chain is empty |
| NodeChain.MergeTakesLeft | queue.c:201-203 | taking the head of the left run in front of the merged rest gives the merge of both runs, over the same nodes |
| NodeChain.MergeTakesRight | queue.c:204-206 | taking the head of the right run in front of the merged rest gives the merge of both runs, over the same nodes |
| NodeChain.SortedMerge | queue.c:192-209 | relinks two disjoint chains into one chain that holds exactly their nodes, with strings in `Merge` order |
| NodeChain.FrontBackSplit | queue.c:218-232 | the slow/fast walk cuts the chain after `FrontLength(n)` nodes into two NULL-terminated chains that share no node |
| NodeChain.MergeOfSortedHalves | queue.c:234-237 | merging the two sorted halves yields the merge sort of the whole chain, over exactly its nodes |
| NodeChain.MergeSort | queue.c:211-238 | relinks a chain into one holding the same nodes, with strings in `MergeSortOf` order |
| NodeChain.LastNode | queue.c:240-245 | used only by the repaired `q_sort`, `QueueFixes.SortUpdatingTail`; queue.c has no such walk. Walking a chain from its head reaches its last node, or null for an empty chain |
| LinkedQueue.Queue.constructor | queue.c:18-19 | a new queue has a null head and tail, size 0 and no elements |
| LinkedQueue.NewQueue | queue.c:12-21 | returns null exactly when allocation fails, and otherwise a fresh empty queue with null head and tail and size 0 |
| LinkedQueue.Free | queue.c:24-37 | on a non-null queue, walks the chain and releases every node once, in chain order, leaving head null and no elements |
| LinkedQueue.InsertHead | queue.c:46-75 | fails exactly on a null queue or failed allocation, and then changes nothing; on success it prepends the string and adds one to size; `tail` becomes the new node when the queue was empty and stays as it was otherwise |
| LinkedQueue.InsertTail | queue.c:84-116 | fails exactly on a null queue or failed allocation, and then changes nothing; on success it appends the string as a new last node with a null link, adds one to size, and `tail` is that node |
| LinkedQueue.RemoveHead | queue.c:126-145 | fails exactly on a null or empty queue, changing neither the queue nor the buffer; on success it drops the first string, subtracts one from size and never touches `tail`; with a buffer, its first `bufsize` cells hold the truncated, NUL-padded copy and the cells after it are unchanged |
| LinkedQueue.Size | queue.c:151-156 | 0 for a null queue, otherwise the number of elements |
| LinkedQueue.Reverse | queue.c:165-185 | on a non-null queue, the same nodes in reverse order with size unchanged; `tail` becomes the old head, and stays as it was on an empty queue |
| LinkedQueue.Sort | queue.c:240-245 | on a non-null queue, the same nodes relinked with their strings sorted case-insensitively, a permutation of the old strings; size and `tail` unchanged |
| QueueFixes.DrainLeavesStaleTail | queue.c:138-140 | removing the only element leaves an empty queue whose `tail` is not null |
| QueueFixes.SortLeavesStaleTail | queue.c:240-245 | inserting two different strings at the tail, the second sorting no later than the first, and sorting leaves `tail` on the first node |
| QueueFixes.SortTwo | queue.c:201-206 | merge sort of two elements that tie or are out of order swaps them |
| QueueFixes.RemoveHeadClearingTail | queue.c:126-145 | the removal with `tail` cleared when the chain empties keeps `tail` on the last node across every removal |
| QueueFixes.DrainThenRefill | queue.c:84-116 | with the repaired removal, draining a queue and inserting at the tail again gives a one-element queue whose head is its tail |
| QueueFixes.SortUpdatingTail | queue.c:240-245 | the sort that recomputes `tail` leaves it on the last node of the sorted chain |
| QueueExamples.Pop | queue.c:126-145 | removing a head shorter than a 16-character buffer reads the whole string back from the buffer |
| QueueExamples.SortFruit | queue.c:211-238 | the merge sort of "banana", "Apple", "cherry" is "Apple", "banana", "cherry" |
| QueueExamples.SortThree | queue.c:211-238 | merge sort of three strings of which only the first two are out of order swaps those two and leaves the third last |
| QueueExamples.FruitOrder | queue.c:201 | `strcasecmp` orders "Apple", "banana", "cherry" ignoring case |
| QueueExamples.TailInserted | queue.c:84-116 | three insertions at the tail hold the strings in insertion order |
| QueueExamples.HeadInserted | queue.c:46-75 | three insertions at the head hold the strings in reverse insertion order |
| QueueExamples.SortThenDrain | queue.c:240-245 | inserting "banana", "Apple", "cherry" at the tail, sorting and removing three times reads back "Apple", "banana", "cherry" |
| QueueExamples.ReverseThenDrain | queue.c:165-185 | inserting "a", "b", "c" at the head, reversing and removing three times reads back "a", "b", "c" |

## Left out

- Allocation failure is an `oom` parameter to `NewQueue`, `InsertHead` and `InsertTail`. The model does not say which of the two allocations in an insertion failed. It also leaves out that partially allocated storage is released: Dafny has no explicit memory management.
- Releasing memory with `free` in `q_free` and `q_remove_head` is not modelled, because memory is garbage-collected in Dafny. `Free` detaches every node and returns them, in release order, as a ghost sequence. `Free` does not model the release of the `queue_t` itself.
- harness.h is not part of this model. It tracks allocations for the test harness.
- `strcasecmp` is folded with the ASCII rules of the "C" locale, over Dafny characters. Locales and bytes above 127 are not modelled.
- Strings are sequences of characters without NUL. The byte copies done by `malloc` and `strcpy` become sharing of an immutable value.
- RemoveHead: requires `bufsize >= 1` when a buffer is given. With `bufsize == 0` the C code computes `bufsize - 1` as an unsigned wrap-around and writes out of bounds.
- RemoveHead: the buffer is an array of at least `bufsize` cells. A too-short buffer is an out-of-bounds write in C and is ruled out by the precondition.
- `size` is an unbounded integer. A C `int` overflows past 2^31 - 1 elements.
- The guarded decrement of `size` in `q_remove_head` is modelled as written. `Valid()` makes a zero size with a non-empty chain impossible, so that guard never takes effect in the model.
- InsertTail: requires `TailValid()`, so it leaves out two cases in which the C code still runs. (1) After a drain, `tail` is the released element (first Findings row). The C code writes through that dangling pointer, and the model has no released objects to express it. (2) After `q_sort` of two or more elements, `tail` is a live element inside the chain (second Findings row). The C code links the new element after it, orphans the elements behind it, and leaves `size` larger than the chain. `Valid()`, whose `size` counts the chain, could then no longer hold.
- The recursion depth of `SortedMerge` and `MergeSort`, which is linear in the queue length, and stack exhaustion are not modelled.
- Sort: does not promise stability, because the code does not provide it (see `MergeTakesRightOnTie`).
- SortUpdatingTail: states the sorted order through `MergeSortOf` and leaves sortedness and permutation to `MergeSortOfCorrect`, instead of repeating them in its own contract.

## Findings

| source | as written | input that shows it | evidently intended | confidence | as-written member | corrected member |
|---|---|---|---|---|---|---|
| queue.c:138-140 | `q_remove_head` unlinks the head but never clears `tail`, so removing the last element leaves `tail` pointing at the released element | `q_new`; `q_insert_tail("a")`; `q_remove_head(q, NULL, 0)`: `head` is NULL and `tail` is not. A further `q_insert_tail("b")` writes into the released element and leaves `head` NULL with size 1 | `tail` becomes NULL when the queue empties, so that `tail` is always the last element or NULL | high, not executed | QueueFixes.DrainLeavesStaleTail | QueueFixes.RemoveHeadClearingTail |
| queue.c:240-245 | `q_sort` relinks the chain but keeps the old `tail`, which after sorting can be any element | `q_insert_tail("b")`; `q_insert_tail("a")`; `q_sort`: `tail` is the element holding "a", now the first one. A further `q_insert_tail("c")` links "c" after "a" and loses "b" | `tail` is recomputed as the last element of the sorted chain | high, not executed | QueueFixes.SortLeavesStaleTail | QueueFixes.SortUpdatingTail |
