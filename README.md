# utlist: intrusive linked lists and their merge sort, in Dafny

This project models `src/utlist.h` of uthash, a C header of macros that
manage linked lists built from the caller's own structures. Each node carries
a `next` link and, for the doubly-linked and circular kinds, a `prev` link.
The caller keeps a head pointer, and every macro rewrites links and the head
in place.

Three list shapes are covered:

- **LL**, singly-linked and null-terminated.
- **DL**, doubly-linked and null-terminated. The head's `prev` points at the
  tail.
- **CDL**, circular and doubly-linked. `next` closes into a ring at the head,
  and `prev` runs the ring backwards.

The sort is Simon Tatham's bottom-up merge sort. It is written out once for
each shape (`LL_SORT`, `DL_SORT`, `CDL_SORT`) and sorts the nodes in place by
relinking them.

In the model a node is a `Node<K>` object with a constant payload `key` and
mutable `next`/`prev` fields. A list is its head reference plus a ghost
sequence of nodes: its contents in link order. A predicate `Valid` for each
shape ties the two together, and each macro is a method that updates the
links in place. Each method's contract gives the new contents as a function
of the old: `[add] + s`, `s + [add]`, `Remove(s, del)`, the survivors of a
deleting iteration, or a permutation for the sort.

The sort is proved against the order in which the merge decides. It always
returns a well-linked permutation of the input in which every node may follow
its predecessor. When the comparator is a total preorder on the keys, the
result is sorted, and nodes with equal keys keep their original order
(stability).

Modules:

- `nodes.dfy` (`Nodes`): the node class, link predicates and sequence facts.
- `singly.dfy` (`Singly`), `doubly.dfy` (`Doubly`), `circular.dfy`
  (`Circular`): the list macros.
- `order.dfy` (`Order`): sortedness, stability, and the run structure of a
  sorting pass.
- `sort.dfy` (`MergeSort`): the three sort macros, which share one model
  parameterised by the list shape.

## Model

| member | source | states |
|---|---|---|
| Nodes.Remove | src/utlist.h:271-285 | The contents after deleting `x`: one node shorter when `x` occurs, unchanged otherwise, and the same multiset minus one `x`. |
| Singly.Prepend | src/utlist.h:252-256 | The added node becomes the head, its `next` is the old head, and the list is valid with contents `[add] + s`. |
| Singly.Append | src/utlist.h:258-269 | `add` is null-terminated and linked after the last node found by walking. It becomes the head of an empty list. The list is valid with contents `s + [add]`, and a non-empty list keeps its head. |
| Singly.Delete | src/utlist.h:271-285 | Contents become `Remove(s, del)`. A `del` that is not in the list changes no link and no head. `del`'s own `next` is untouched. |
| Singly.UnlinkAfter | src/utlist.h:281-283 | Pointing the predecessor's `next` past `del` leaves a null-terminated chain through the other nodes. |
| Singly.Foreach | src/utlist.h:287-288 | The nodes visited, from the head to the null link, are exactly the contents in order. |
| Singly.DeleteIfDoomed | src/utlist.h:290-291 | One visit of a safe iteration that deletes the current node if it is doomed and frees it (its link is overwritten). The list stays valid with contents equal to the survivors so far, followed by the unvisited rest. |
| Singly.ForeachSafeDelete | src/utlist.h:290-291 | Because the successor is read before the body runs, every original node is visited once, in order, although the body deletes and frees nodes. Afterwards the list holds exactly the survivors, and it is empty when all nodes were doomed. |
| Singly.SearchScalar | src/utlist.h:293-298 | Returns the first node whose field equals `val`, or null exactly when no node matches. |
| Singly.Search | src/utlist.h:300-305 | Returns the first node for which `cmp` gives 0, or null exactly when there is none. |
| Doubly.ForwardView | src/utlist.h:361-363 | A valid DL list is a valid LL list over the same nodes, which is why DL_SEARCH and DL_SEARCH_SCALAR are the LL macros. |
| Doubly.Foreach | src/utlist.h:354-355 | The nodes visited by following `next` from the head are exactly the contents in order. |
| Doubly.Prepend | src/utlist.h:310-320 | `add` becomes the head with contents `[add] + s`. The head's `prev` is still the tail, and in an empty list `add` points back at itself. |
| Doubly.Append | src/utlist.h:322-334 | `add` becomes the tail with contents `s + [add]`. It is reached through the head's `prev`, which then points at `add`. A non-empty list keeps its head. |
| Doubly.Delete | src/utlist.h:336-351 | For each case of the source (sole node, head, inner node, tail), the list stays valid with contents `Remove(s, del)`. `del`'s own links are untouched. |
| Doubly.UnlinkInner | src/utlist.h:343-350 | Splicing out a non-head node, including moving the head's `prev` when the tail is deleted, leaves a valid list of the other nodes with the same head. |
| Doubly.DeleteIfDoomed | src/utlist.h:358-359 | One visit of a safe iteration that deletes and frees a doomed node. The list stays valid, with contents equal to the survivors so far followed by the rest. |
| Doubly.ForeachSafeDelete | src/utlist.h:357-359 | Every original node is visited once, in order. Afterwards the list holds exactly the survivors, and it is empty when all were doomed. |
| Circular.Prepend | src/utlist.h:368-380 | `add` becomes the head of a ring with contents `[add] + s`, and the old tail's `next` points at it. An empty list becomes a ring of one. |
| Circular.Delete | src/utlist.h:382-391 | The sole node empties the list. Otherwise `del` is spliced out of both directions, and a deleted head is replaced by its successor. The ring stays valid with contents `Remove(s, del)`. |
| Circular.UnlinkInner | src/utlist.h:386-390 | Splicing out a node that is not the head leaves a valid ring of the other nodes with the same head. |
| Circular.Foreach | src/utlist.h:393-394 | Walking until the successor is the head again visits every node of the ring exactly once, in order. |
| Circular.DeleteIfDoomed | src/utlist.h:396-399 | One visit of the safe ring iteration that deletes and frees a doomed node. The ring stays valid, with contents equal to the survivors so far followed by the rest. |
| Circular.ForeachSafeDelete | src/utlist.h:396-399 | Stopping after the node that was the head's `prev` on entry visits every original node once, in order, even when the head is deleted. The ring afterwards holds exactly the survivors. |
| Circular.SearchScalar | src/utlist.h:401-406 | Returns the first node of the ring whose field equals `val`, or null exactly when none does. |
| Circular.Search | src/utlist.h:408-413 | Returns the first node of the ring for which `cmp` gives 0, or null exactly when none does. |
| Order.InitialRuns | src/utlist.h:92-94 | Before the first pass (`insize` = 1), the list is trivially in runs of one. |
| Order.RunsTake | src/utlist.h:103-110 | The next two runs of a pass are ordered, and each was originally before everything after it. |
| Order.RunsAppend | src/utlist.h:121-128 | Appending a merged run after whole runs of `w` gives runs of `w` again. |
| Order.OrderedSortedStable | src/utlist.h:116-117 | Under a total preorder, a list in which every node may follow its predecessor (ties going to the earlier run) is sorted and stable. |
| MergeSort.WalkRun | src/utlist.h:103-109 | The inner `for` loop counts the first run, `min(insize, rest)` nodes, and leaves `q` at the node after it, or null at the end (in a ring, on returning to the old head). |
| MergeSort.Emit | src/utlist.h:121-126 | The chosen node is linked after the tail, or becomes the new head. Except in LL it points back at the old tail, and it becomes the tail. |
| MergeSort.TakeFirstOrder | src/utlist.h:114-117 | Taking the left run's node when the right run is used up, or when `cmp(p, q) <= 0`, keeps the merged output ordered. Ties go left. |
| MergeSort.TakeSecondOrder | src/utlist.h:112-119 | Taking the right run's node when the left is used up, or when `cmp(p, q) > 0`, keeps the merged output ordered. |
| MergeSort.EmitFirst | src/utlist.h:114-126 | Emitting `p` and advancing it keeps the links of output, left run and right run consistent. |
| MergeSort.EmitSecond | src/utlist.h:112-126 | Emitting `q` and advancing it keeps the links of output, left run and right run consistent. |
| MergeSort.TakeFirst | src/utlist.h:114-117 | The `p` branch preserves the merge state: links, contents and order, one node further. |
| MergeSort.TakeSecond | src/utlist.h:112-119 | The `q` branch preserves the merge state: links, contents and order, one node further. |
| MergeSort.MergeStep | src/utlist.h:111-126 | One iteration of the merge loop, with the source's four-way choice, preserves the merge state and consumes a node. |
| MergeSort.MergeStart | src/utlist.h:110-111 | With `qsize = insize`, the merge state holds before the first iteration. |
| MergeSort.MergeDone | src/utlist.h:111-128 | When the loop guard fails, the merged run holds exactly the nodes of both runs, is ordered, and `q` is the node after them. |
| MergeSort.MergeRuns | src/utlist.h:110-128 | Merging two adjacent runs gives an ordered run with exactly their nodes, linked onto the output, and leaves `q` at the node after them. |
| MergeSort.MergeReady | src/utlist.h:102-110 | At the start of a merge, the rest of the list splits into the first run, the second run and what follows, as the merge needs. |
| MergeSort.PassTally | src/utlist.h:102 | Counting a merge: the output after `nmerges + 1` merges is more than `nmerges` whole runs of `2 * insize` and at most `nmerges + 1` of them. |
| MergeSort.PassAdvance | src/utlist.h:128 | After a merge, the pass state holds again with the merged run moved to the output. |
| MergeSort.PassStep | src/utlist.h:101-128 | One iteration of a pass preserves the pass state and consumes at least one node. |
| MergeSort.PassStart | src/utlist.h:96-100 | At the start of a pass, with empty output and zero merges, the pass state holds. |
| MergeSort.PassEnd | src/utlist.h:129-133 | When `p` runs out, the output is a distinct chain of all the nodes in runs of `2 * insize`. At most one merge was made exactly when the list fits in one such run. |
| MergeSort.MergeCount | src/utlist.h:131-133 | `nmerges <= 1` holds exactly when the list is at most one output run long, which is the stopping test. |
| MergeSort.Finish | src/utlist.h:239-240 | Closing a pass gives a valid list of the shape. The tail's `next` becomes null (LL, DL, lines 130 and 183) or the head (CDL). The head's `prev` becomes the tail (DL and CDL, lines 182 and 239). |
| MergeSort.Pass | src/utlist.h:96-134 | A pass over runs of `insize` gives a valid list of the same nodes in runs of `2 * insize`, and reports at most one merge exactly when the list was at most `2 * insize` long. |
| MergeSort.SortRuns | src/utlist.h:92-135 | The outer loop doubles `insize` after each pass and stops after a pass with at most one merge. The list it leaves is valid, holds the same nodes and is ordered as one run. |
| MergeSort.Sort | src/utlist.h:88-247 | LL_SORT, DL_SORT and CDL_SORT give a valid list of the same shape. Its nodes are a permutation of the input, each allowed by the comparator to follow its predecessor. Under a total preorder the list is sorted and stable. An empty list is left as it is. |

## Left out

- The `DECLTYPE` and `NO_DECLTYPE` compiler workarounds and the `_SV`, `_NEXT` and `_RS` casting shims (src/utlist.h:60-86) have no behaviour of their own. LL_SORT is modelled with the plain `next` access.
- Freeing memory is not modelled. The safe-iteration body frees a deleted node, and the model overwrites that node's links with arbitrary values instead.
- Only one body is modelled for the iteration macros. `Foreach` returns the sequence of visited nodes, because the body is caller code. `ForeachSafeDelete` models the body the safe variants exist for: delete some nodes, then free them.
- DL_SEARCH and DL_SEARCH_SCALAR are defined as the LL macros, applied to the `next` chain. They are covered by `Doubly.ForwardView` together with `Singly.Search` and `Singly.SearchScalar`, not restated.
- Each macro argument is evaluated once, and the model passes it by value. The C macros re-evaluate `head`, `add` and `del` at every use, so an argument that depends on links the macro rewrites behaves differently. For example, `DL_DELETE(head, head->next)` re-reads `del` after relinking. The model assumes arguments that are plain variables.
- Callbacks are modelled on keys, not node pointers. `cmp` receives keys rather than node pointers and is any function to `int`. The field read by the scalar searches is a function of the key.
- The C `int` counters (`_ls_insize`, `_ls_nmerges`, `_ls_psize`, `_ls_qsize`) are unbounded integers. Overflow would need more than 2^30 nodes.
- The source increments `_ls_nmerges` before each merge and the model increments it after. The count is the same whenever the loop tests it.
- Singly.Delete requires a non-empty list, as the source dereferences the head whenever `del` is not the head.
- Doubly.Delete and Circular.Delete require `del` to be in the list, because the source follows `del`'s links without checking them.
- The prepend and append methods require the added node not to be in the list already. The source would corrupt the list otherwise.
- The test programs and example drivers are not modelled. They do file I/O, allocate memory, or drive `utarray.h`, which is not part of this model.
