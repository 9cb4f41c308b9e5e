# Pointer programs, candidate generation, substitution and registration

This project models four pieces of the artifact and proves what they are for.

* **The pointer programs under `heaps/`.** AVL trees, treaps, trees renumbered in traversal order,
  sorted lists, doubly linked lists, memory regions and the BSD simple queue. Every structure has a
  class with the C struct's fields and a method per C function that takes the same branches and does the
  same assignments. A method takes, as a ghost argument, the *picture* of its structure: a tree value, or a
  sequence, that names the node objects together with the field values they hold. `Holds(x, t)` says
  that the heap at `x` is pictured by `t`, and reads exactly the nodes of `t`. The method's contract
  equates the final picture with a pure function of the initial one, so the frame (which nodes may
  change, which nodes the result consists of, which node is fresh) is explicit in the picture and in
  `modifies`. The lemmas are about the pure functions. The recursive predicates of the headers for
  trees, sorted lists and doubly linked lists are written out as recursive Dafny predicates and shown
  equivalent to global ones; for the queue and the memory regions only the global form is stated, by
  position along `next`. The headers' axioms are proved.
* **The candidate generator** `heaps/pred-gen-list.js`: enumeration of injective assignments, slot
  counting, the emission loops, guard names, the renderer `ts` and the text it writes.
* **`ExprUtil.Substitute`** of the Boogie abstract-interpretation framework.
* **The component registry** of the Z3 build scripts.

Some claims one might expect of the code are false, and the exact condition under which each holds is
proved for all inputs:

* `Substitute` is correct if and only if no lambda on the way to a free occurrence of the variable
  binds a name that is free in the replacement (`Substitution.SubstituteCorrectIff`, with
  `CaptureExample` as a failing input).
* `ts` returns what the pattern says if and only if, among the operands it reads, every operator is
  known and has its operands, every conjunction has two conjuncts or more, and each conjunct but the
  first either contains no `and`, or leaves the shared counter exactly where it was, or is the last
  one and leaves it beyond the end (`Exactness.RendersIffSteady`; such a pattern is called steady).
  Of any other pattern `ts` throws, never returns, or returns something else. That includes patterns
  whose conjuncts are all taken, each once, in another order: no such order gives the right output,
  not even by the conjuncts' own renderings turning them into one another. `ConjunctDropped` is a
  failing input. If the first conjunct off course moves the counter back, `ts` never returns
  (`LoopForever`, with `EndlessRuns` as an input). Every table in the file has conjunctions without
  nested conjunctions, which `FlatIsSteady` covers; the program text read at the start may add others.
* The run of `main` prints what its patterns say if and only if every pattern that the variables
  suffice for is steady (`Emission.EmissionIffSteady`). `DroppingTable` is a table with which every
  line is wrong, `EndlessTable` one with which nothing is printed.
* A pattern emits no candidate twice if and only if the slots that `findmax` and `findmin` count but
  `ts` does not read leave no choice: there is none, or a single one that gets the only name left (`Repeats.HeapCandidatesDistinctIff`,
  `Repeats.DataCandidatesDistinctIff`). The built-in patterns without a pointer slot fail it as soon
  as there are two pointers (`PointerFreeRepeats`).
* `split_memory_region` keeps the backing file of every address if and only if the region has no file
  or its file bytes end by the cut (`MemoryRegion.SplitKeepsBackingIff`, with `FilePageLost` as a
  failing input).

| file | contents |
|---|---|
| `Ints.dfy`, `Sequences.dfy` | integers and sequences of integers; facts about sequences |
| `AvlDefs.dfy`, `AvlOps.dfy`, `AvlHeap.dfy` | `heaps/tree/avl`: predicates, pure operations, methods on nodes |
| `TreapDefs.dfy`, `TreapOps.dfy` | `heaps/tree/treap` |
| `TraversalDefs.dfy`, `Traversal.dfy` | `heaps/tree/traverse` |
| `SortedListDefs.dfy`, `SortedList.dfy` | `heaps/grass/sls` |
| `DoublyLinked.dfy` | `heaps/glibc/glist/g_list_reverse.c` |
| `MemoryRegion.dfy` | `heaps/os/expressos` |
| `SimpleQueue.dfy` | `heaps/os/openbsd` |
| `Permutations.dfy`, `Candidates.dfy`, `Rendering.dfy`, `Exactness.dfy`, `Emission.dfy`, `Texts.dfy`, `Repeats.dfy` | `heaps/pred-gen-list.js`: assignments, patterns, the renderer, when it is right, the run of `main`, the text of a line, repeated lines |
| `Substitution.dfy` | `sources/Boogie/Source/AIFramework/Expr.cs` |
| `Components.dfy` | `sources/Z3/scripts/mk_util.py` |

## Model

| member | source | states |
|---|---|---|
| AvlDefs.MinKeyAxiom | heaps/tree/avl/dryad_avl.h:206 | the header's axiom, proved: a number below the minimum key of a non-empty tree is not a key of it |
| AvlDefs.MaxKeyAxiom | heaps/tree/avl/dryad_avl.h:207 | the header's axiom, proved: a number above the maximum key of a non-empty tree is not a key of it |
| AvlDefs.MinKeyIsLeast | heaps/tree/avl/dryad_avl.h:95-102 | the recursively defined minimum of any non-empty tree, ordered or not, is one of its keys and at most all of them |
| AvlDefs.MaxKeyIsGreatest | heaps/tree/avl/dryad_avl.h:103-110 | the recursively defined maximum is one of the keys and at least all of them |
| AvlDefs.AvlIffAspects | heaps/tree/avl/dryad_avl.h:51-74 | the header's one-node-at-a-time `avl` is equivalent to the conjunction of three independent global properties: no node shared, ordered, and balanced with exact stored heights |
| AvlDefs.OrderedIffSorted | heaps/tree/avl/dryad_avl.h:54-65 | the order part of `avl` holds if and only if the in-order listing of the keys is strictly increasing |
| AvlOps.BalanceKeepsRun | heaps/tree/avl/avl-insert-rec.c:24-76 | single and double rotations keep the left-to-right sequence of (node, key) pairs of any tree, balanced or not |
| AvlOps.BalanceHeights | heaps/tree/avl/avl-insert-rec.c:24-76 | for balanced children differing by at most two, the result is balanced and has exactly the height the contract's case list gives, equal grandchildren included |
| AvlOps.BalanceContract | heaps/tree/avl/avl-insert-rec.c:24-76 | the whole `avl_balance` contract: under its precondition the result is AVL, with the same keys, minimum, maximum, nodes and size, and the stated height in every case |
| AvlOps.FindSmallestIsMin | heaps/tree/avl/avl-find-smallest.c:6-36 | going left until there is no left child finds the minimum key of an ordered tree |
| AvlOps.InsertContract | heaps/tree/avl/avl-insert-rec.c:79-133 | inserting an absent key into an AVL tree gives an AVL tree with that key added, the old nodes plus one fresh leaf, height unchanged or one more, and one more node |
| AvlOps.InsertExtremes | heaps/tree/avl/avl-insert-rec.c:79-133 | the new minimum and maximum are the old ones combined with the inserted key |
| AvlOps.InsertRun | heaps/tree/avl/avl-insert-rec.c:79-133 | the in-order run of (node, key) pairs gains the fresh leaf with the inserted key at the one place where it belongs, and is otherwise the same: every old node keeps its key |
| AvlOps.DeleteContract | heaps/tree/avl/avl-delete-rec.c:80-146 | deleting a present key, the two-children case included, gives an AVL tree with exactly that key removed, no new node, height unchanged or one less, and one node fewer (`AvlOps.DeleteRun` says which) |
| AvlOps.DeleteExtremes | heaps/tree/avl/avl-delete-rec.c:80-146 | minimum and maximum move only inward, and strictly if and only if the deleted key was that extreme |
| AvlOps.DeleteRun | heaps/tree/avl/avl-delete-rec.c:104-127 | which node is freed: the run of (node, key) pairs loses the node of the deleted key when it has at most one child; with two it keeps that node, now with the next key, and loses the next node; every other node keeps its key |
| AvlOps.SameKeySetSameListing | heaps/tree/avl/dryad_avl.h:51-74 | two AVL trees with the same key set, however shaped, have the same in-order listing |
| AvlOps.InsertThenDelete | heaps/tree/avl/avl-insert-rec.c:79-133 | deleting the key just inserted restores the in-order listing |
| AvlOps.RunRefinesSet | heaps/tree/avl/avl-delete-rec.c:80-146 | any run of insertions and deletions that respects the preconditions keeps the tree AVL and its key set equal to that of the same run on a plain set |
| AvlOps.AvlSizeBound | heaps/tree/avl/dryad_avl.h:51-93 | an AVL tree of height h has at least Fib(h+3)-1 nodes |
| AvlOps.AvlHeightLogarithmic | heaps/tree/avl/dryad_avl.h:51-93 | an AVL tree of height h with n nodes satisfies 2^((h+1)/2) <= n+1, so the recursion depths below are logarithmic |
| AvlHeap.AvlBalance | heaps/tree/avl/avl-insert-rec.c:24-76 | the rotations on nodes, writing only nodes of the tree, yield exactly the picture the pure rebalancing gives |
| AvlHeap.AvlFindSmallest | heaps/tree/avl/avl-find-smallest.c:28-36 | on the heap, the key read at the end of the left spine is the minimum key and belongs to the tree |
| AvlHeap.FindSmallestCounted | heaps/tree/avl/avl-find-smallest.c:28-36 | the recursion on the heap, as the deletion runs it, returns what the function does and nests at most height plus one calls |
| AvlHeap.AvlInsert | heaps/tree/avl/avl-insert-rec.c:79-133 | the method meets every `avl_balance` precondition on the way, allocates exactly one fresh leaf, yields the picture of the pure insertion, and nests at most height plus two calls |
| AvlHeap.InsertReady | heaps/tree/avl/avl-insert-rec.c:116-130 | after the recursive insertion the node meets the precondition of `avl_balance`, on either side |
| AvlHeap.AvlDelete | heaps/tree/avl/avl-delete-rec.c:80-146 | the method, the removal of the successor included, yields the picture of the pure deletion, writes only nodes of the tree, and nests at most height plus one calls |
| AvlHeap.MoveSuccessorUp | heaps/tree/avl/avl-delete-rec.c:119-127 | the two-children case: the smallest key on the right moves into the node, is deleted from the right subtree, and the node is rebalanced |
| AvlHeap.DeleteReady | heaps/tree/avl/avl-delete-rec.c:129-143 | after a recursive deletion on either side the node meets the precondition of `avl_balance` |
| AvlHeap.SuccessorReady | heaps/tree/avl/avl-delete-rec.c:119-127 | after the successor has moved up the node meets the precondition of `avl_balance` |
| TreapDefs.MinKeyAxiom | heaps/tree/treap/dryad_treap.h:230 | the header's axiom, proved for non-empty trees |
| TreapDefs.MaxKeyAxiom | heaps/tree/treap/dryad_treap.h:231 | the header's axiom, proved for non-empty trees |
| TreapDefs.MaxPrioAxiom | heaps/tree/treap/dryad_treap.h:232 | the header's axiom, proved for non-empty trees |
| TreapDefs.RootPrioAxiom | heaps/tree/treap/dryad_treap.h:233 | the root of a non-empty treap carries the maximum priority |
| TreapDefs.TreapIffGood | heaps/tree/treap/dryad_treap.h:54-74 | the local predicate `treap` is equivalent to three global properties: nothing shared (nodes and priorities), ordered by key, strictly heaped by priority |
| TreapDefs.RootSplitsPairs | heaps/tree/treap/dryad_treap.h:54-74 | the root is the pair of greatest priority, strictly, and the subtrees hold exactly the pairs with smaller and with larger key |
| TreapDefs.TreapIsCanonical | heaps/tree/treap/dryad_treap.h:54-74 | two treaps hold the same (key, priority) pairs if and only if they have the same shape, keys and priorities in place |
| TreapDefs.NothingTwice | heaps/tree/treap/dryad_treap.h:54-74 | a treap has as many keys, and as many priorities, as nodes |
| TreapOps.JoinJoins | heaps/tree/treap/treap-delete-rec.c:5-22 | joining two treaps, the left one wholly below the right one, gives a treap with exactly the nodes, keys, priorities and pairs of both |
| TreapOps.RemoveRootContract | heaps/tree/treap/treap-delete-rec.c:5-22 | the whole `treap_remove_root` contract: treap again, keys and priorities without the root's, nodes among the old ones, and inward bounds when the result is not empty |
| TreapOps.DeleteContract | heaps/tree/treap/treap-delete-rec.c:24-62 | deleting a present key gives a treap with exactly that key's pair removed and no node added |
| TreapOps.DeleteExtremes | heaps/tree/treap/treap-delete-rec.c:24-62 | when the result is not empty, key bounds move inward and the maximum priority does not grow; it drops if and only if the root's key was deleted |
| TreapOps.RemoveRootListing | heaps/tree/treap/treap-delete-rec.c:5-22 | exactly the root's node is given up; the others keep their order, keys and priorities |
| TreapOps.DeleteListing | heaps/tree/treap/treap-delete-rec.c:24-62 | exactly the node of the deleted key is given up; the others keep their order, keys and priorities |
| TreapOps.DeleteIsForced | heaps/tree/treap/treap-delete-rec.c:24-62 | any treap holding the remaining pairs has the very shape the deletion produces, whatever body `treap_remove_root` has |
| TreapOps.DeletesCommute | heaps/tree/treap/treap-delete-rec.c:24-62 | two deletions of different keys can be made in either order, with the same final shape |
| TreapOps.TreapRemoveRoot | heaps/tree/treap/treap-delete-rec.c:5-22 | the method on nodes, relinking only, yields the picture of the pure removal |
| TreapOps.TreapDeleteRec | heaps/tree/treap/treap-delete-rec.c:24-62 | the method on nodes yields the picture of the pure deletion, and meets the precondition of `treap_remove_root` |
| TreapOps.TreapFindRec | heaps/tree/treap/treap-find-rec.c:6-37 | the search returns 0 if and only if the key is absent and 1 if and only if it is present |
| TraversalDefs.IntreeIffConsecutive | heaps/tree/traverse/dryad_intree.h:62-71 | the local predicate `intree` holds if and only if the nodes form a tree whose in-order key listing is consecutive |
| TraversalDefs.PretreeIffConsecutive | heaps/tree/traverse/dryad_pretree.h:53-61 | the same for `pretree` and the pre-order listing |
| TraversalDefs.PosttreeIffConsecutive | heaps/tree/traverse/dryad_posttree.h:55-63 | the same for `posttree` and the post-order listing |
| TraversalDefs.IntreeIsSearchTree | heaps/tree/traverse/dryad_intree.h:62-71 | an `intree` lists its keys in strictly increasing order: it is a search tree |
| TraversalDefs.PretreeIsMinHeap | heaps/tree/traverse/dryad_pretree.h:53-61 | in a `pretree` every key is below all keys beneath it |
| TraversalDefs.PosttreeIsMaxHeap | heaps/tree/traverse/dryad_posttree.h:55-63 | in a `posttree` every key is above all keys beneath it |
| Traversal.NumberIffCount | heaps/tree/traverse/traverse-inorder.c:6-41 | renumbering leaves a tree as it is if and only if its listing already counts up from n, in each of the three orders |
| Traversal.InNumberContract | heaps/tree/traverse/traverse-inorder.c:6-41 | after in-order numbering the listing is n, n+1, ..., n+size-1, shape and nodes are unchanged, `intree` holds and the root has number n plus the left size |
| Traversal.PreNumberContract | heaps/tree/traverse/traverse-preorder.c:6-39 | the same in pre-order; the root has number n |
| Traversal.PostNumberContract | heaps/tree/traverse/traverse-posttorder.c:6-41 | the same in post-order; the root has number n+size-1 |
| Traversal.AssumesIffRoom | heaps/tree/traverse/traverse-inorder.c:23-37 | the overflow assumptions on the whole recursion hold if and only if n+size is below INT_MAX (vacuously for an empty tree in pre-order) |
| Traversal.Inorder | heaps/tree/traverse/traverse-inorder.c:6-41 | with 32-bit keys and counter, the method yields the in-order numbering in place and returns n+size, never overflowing |
| Traversal.Preorder | heaps/tree/traverse/traverse-preorder.c:6-39 | the same for pre-order; on an empty tree for every counter, INT_MAX included |
| Traversal.Postorder | heaps/tree/traverse/traverse-posttorder.c:6-41 | the same for post-order |
| SortedListDefs.SrtlIffSorted | heaps/grass/sls/dryad_sls.h:210-216 | the local predicate `srtl` holds if and only if the list is sorted by key and no node repeats |
| SortedListDefs.KeyExtremes | heaps/grass/sls/dryad_sls.h:242-248 | the recursive minimum and maximum are attained and bound all keys |
| SortedListDefs.MergeStable | heaps/grass/sls/sls_merge.c:4-70 | for every key, the merged list has the nodes of that key of the first list, then those of the second, each in their old order |
| SortedListDefs.SortedDetermined | heaps/grass/sls/sls_merge.c:4-70 | a sorted sequence is determined by its per-key subsequences |
| SortedListDefs.MergeIsTheStableMerge | heaps/grass/sls/sls_merge.c:4-70 | for sorted inputs, a sequence is a sorted stable merge of the two if and only if it is the one the loop builds |
| SortedListDefs.MergeContract | heaps/grass/sls/sls_merge.c:4-70 | merging two disjoint `srtl` lists gives an `srtl` list with every node of both exactly once |
| SortedList.MergeLists | heaps/grass/sls/sls_merge.c:4-70 | the loop terminates and the nodes, relinked in place, are in the order of the functional merge |
| SortedList.InsertIsMerge | heaps/grass/sls/sls_insert.c:4-37 | inserting before the first greater key is merging with a one-node list |
| SortedList.SlsInsert | heaps/grass/sls/sls_insert.c:4-37 | the method links the detached node in exactly where merging with a one-node list puts it, at the front, inside and at the end |
| SortedList.Split | heaps/grass/sls/sls_split.c:10-49 | the two-speed walk never dereferences null, keeps the first min(n, ceil(n/2)+1) nodes at x and returns the others, as two null-terminated lists |
| SortedList.SplitShare | heaps/grass/sls/sls_split.c:10-49 | some node is returned if and only if there are at least four, so the split is no halving |
| SortedList.PiecesSorted | heaps/grass/sls/sls_split.c:10-49 | both pieces of a cut `srtl` list are `srtl`, share no node, and the first's keys are at most the second's |
| SortedList.SlsConcat | heaps/grass/sls/sls_concat.c:4-35 | the method yields the first list's nodes followed by the second's, empty lists included |
| SortedList.ConcatContract | heaps/grass/sls/sls_concat.c:4-35 | under the precondition the concatenation is `srtl` with the nodes of both |
| SortedList.SplitThenConcat | heaps/grass/sls/sls_split.c:10-49 | concatenating what split left and what it returned restores the original node sequence |
| DoublyLinked.DllIffUnfolded | heaps/glibc/glist/dryad_dll_lseg_defs.h:87-93 | the header's recursive `dll` is equivalent to consistent `next` and `prev` at every position with no node repeated |
| DoublyLinked.SwappedIsReversed | heaps/glibc/glist/g_list_reverse.c:6-30 | once every node has its pointers swapped, the reversed sequence is linked in both directions with null at both ends |
| DoublyLinked.GListReverse | heaps/glibc/glist/g_list_reverse.c:6-30 | the loop returns the head of exactly the reversed node sequence, consistent in both directions, head `prev` null, keys unchanged |
| DoublyLinked.ReverseTwice | heaps/glibc/glist/g_list_reverse.c:6-30 | reversing twice returns the original head and restores every `next` and `prev` |
| MemoryRegion.PartsCover | heaps/os/expressos/split_memory_region.c:19-53 | an address lies in the region if and only if it lies in one of the two parts, and never in both |
| MemoryRegion.SplitKeepsCovered | heaps/os/expressos/split_memory_region.c:6-63 | the set of covered addresses is unchanged |
| MemoryRegion.SplitKeepsDisjoint | heaps/os/expressos/split_memory_region.c:6-63 | pairwise disjoint regions stay pairwise disjoint |
| MemoryRegion.SplitKeepsOk | heaps/os/expressos/dryad_dll_mem_reg_defs.h:13-24 | `file_size <= size` and 32-bit end addresses are kept in every region |
| MemoryRegion.FindIsCovered | heaps/os/expressos/memory_region_find.c:6-23 | the search succeeds if and only if some region covers the address |
| MemoryRegion.FindUnique | heaps/os/expressos/memory_region_find.c:6-23 | among disjoint regions the one found is the only one that covers the address |
| MemoryRegion.FindAfterSplit | heaps/os/expressos/memory_region_find.c:6-23 | after a split the search succeeds on exactly the same addresses as before |
| MemoryRegion.BackingKeptIff | heaps/os/expressos/split_memory_region.c:23-53 | an address keeps its backing file and file offset if and only if it is not one of the region's file bytes at or beyond the cut |
| MemoryRegion.SplitKeepsBackingIff | heaps/os/expressos/split_memory_region.c:23-53 | every address does if and only if the region has no file or its file bytes end by the cut |
| MemoryRegion.SplitKeepsFileBytesIff | heaps/os/expressos/split_memory_region.c:23-53 | the total of file bytes never grows, and is kept if and only if the region's file bytes end by the cut |
| MemoryRegion.FilePageLost | heaps/os/expressos/split_memory_region.c:36-50 | two pages of a file cut after the first: the second page stays covered but is no longer backed, and half of the file bytes are gone |
| MemoryRegion.SplitKeepsDistinct | heaps/os/expressos/dryad_dll_mem_reg_defs.h:46-52 | the no-repeat clause of `dll`: with a node not in the list no node repeats afterwards |
| MemoryRegion.SplitMemoryRegion | heaps/os/expressos/split_memory_region.c:6-63 | returns null and changes nothing when the offset is past the region; otherwise returns a fresh node, linked in both directions right behind `curr`, no node repeated, with every field of both nodes stated: the new one has the file only if the cut falls within the file bytes, file size and offset 0, and the rest of the addresses; all other nodes keep their fields |
| MemoryRegion.SplitsKeepLookups | heaps/os/expressos/split_memory_region.c:6-63 | any run of splits keeps the regions disjoint, in range, with `file_size <= size` and no node repeated, covers the same addresses, and leaves every lookup succeeding exactly where it did |
| MemoryRegion.MemoryRegionFind | heaps/os/expressos/memory_region_find.c:6-23 | the loop returns the first region covering the address, and null if and only if none does, assuming the range only of the regions it inspects |
| SimpleQueue.InsertTail | heaps/os/openbsd/bsd_squeue_insert_tail.c:7-32 | appends when the new node has no successor, as the precondition asks; otherwise the head satisfies `queue` for no sequence of nodes, so the precondition is needed exactly |
| SimpleQueue.InsertHead | heaps/os/openbsd/bsd_squeue_insert_head.c:7-31 | prepends and keeps `queue`, whatever the new node pointed to |
| SimpleQueue.RemoveHead | heaps/os/openbsd/bsd_squeue_remove_head.c:7-27 | drops exactly the first node and keeps `queue`, the last removal included |
| SimpleQueue.RunOps | heaps/os/openbsd/dryad_bsd_queue.h:291-307 | any run of operations, each legal where it occurs, keeps `queue` and agrees with the same run on a sequence, removed nodes put back included |
| SimpleQueue.FirstInFirstOut | heaps/os/openbsd/bsd_squeue_insert_tail.c:7-32 | a legal run of tail insertions leaves the nodes in arrival order behind the old ones |
| Permutations.Rows.Go | heaps/pred-gen-list.js:488-495 | the recursive closure pushes, into every row, exactly the extensions of its prefix, behind what was there |
| Permutations.AllPermutations | heaps/pred-gen-list.js:485-498 | `permutations` returns one row per length from 0 to n, each being the specified enumeration |
| Permutations.RowIsInjections | heaps/pred-gen-list.js:485-498 | for distinct items, row k holds a sequence if and only if it has length k, no repeats, and items of the list |
| Permutations.RowHasNoRepeats | heaps/pred-gen-list.js:485-498 | for distinct items no sequence occurs twice in a row |
| Permutations.RowCount | heaps/pred-gen-list.js:485-498 | row k has n(n-1)...(n-k+1) entries |
| Permutations.RowInOrder | heaps/pred-gen-list.js:488-495 | a row is in lexicographic order of positions, which fixes the place of every selection |
| Permutations.FallingIsFactorialQuotient | heaps/pred-gen-list.js:485-498 | that number times (n-k)! is n! |
| Permutations.PermsAreSelections | heaps/pred-gen-list.js:485-498 | with repeated items too, everything in row k is a choice of k items by position |
| Permutations.SelectionsArePerms | heaps/pred-gen-list.js:485-498 | and every such choice is in row k |
| Candidates.FindExtremes | heaps/pred-gen-list.js:318-347 | `findmax` and `findmin` compute the greatest and the least slot number anywhere in the pattern, zero included as a starting value |
| Candidates.SlotCounts | heaps/pred-gen-list.js:318-347 | `numptrs` and `numints` bound all slots, tightly except that a pattern without pointers still counts one |
| Candidates.LeafIs | heaps/pred-gen-list.js:168-174 | slot n from 0 on stands for pointer n, slot n below 0 for integer -n-1, and a slot out of range for undefined |
| Candidates.ComputeMax | heaps/pred-gen-list.js:319-330 | the nested loop computes `findmax` |
| Candidates.ComputeMin | heaps/pred-gen-list.js:334-345 | the nested loop computes `findmin` |
| Candidates.DefinedIffInRange | heaps/pred-gen-list.js:167-174 | instantiating a pattern never yields undefined if and only if all slots that are read are in range of the assignment |
| Candidates.ShownIsSlot | heaps/pred-gen-list.js:175-309 | the slots `ts` reads are among those `findmax` and `findmin` count; surplus operands are counted and not read |
| Candidates.AssignmentsSuffice | heaps/pred-gen-list.js:354-373 | the assignments `main` passes are always long enough, and for the heap loop exactly when no integer slot is read |
| Candidates.SameTermIff | heaps/pred-gen-list.js:167-309 | two assignments give the same term if and only if they agree on the slots that are read (`Texts.SameTextIff` carries this to the text) |
| Candidates.UsedSlotsSeparate | heaps/pred-gen-list.js:167-309 | assignments with the same term agree on every slot that is read, pointers and integers |
| Candidates.UnusedSlotHidden | heaps/pred-gen-list.js:318-332 | a pointer slot that is counted and not read may be given any name without a trace |
| Candidates.UnusedIntegerHidden | heaps/pred-gen-list.js:333-347 | the same for an integer slot |
| Candidates.Pad | heaps/pred-gen-list.js:477-483 | the result is as long as the greater of the length asked for and the numeral, ends in the numeral, and has only zeros before it |
| Candidates.PadInjective | heaps/pred-gen-list.js:477-483 | the padded numeral still denotes the number, so padding is injective, past the padding width too |
| Candidates.GuardForm | heaps/pred-gen-list.js:359 | a guard is b followed by the number with zeros in front, in four digits, or in as many as it needs from 10000 on |
| Candidates.GuardInjective | heaps/pred-gen-list.js:359 | two guards are equal if and only if their numbers are |
| Emission.PrintLine | heaps/pred-gen-list.js:359 | one `console.log` prints the next guard with the term `ts` returns and hands the shared counter on; nothing is printed when `ts` throws or does not return |
| Emission.RenderedIs | heaps/pred-gen-list.js:354-373 | each term of a run is what `ts` returned for the call in the same place; behind the last one stands a call that threw or has not returned, if the run did not end |
| Emission.PatternCallsAt | heaps/pred-gen-list.js:357-371 | the place of every call of a pattern: pointer choices in the order of their row, and for each the integer choices in the order of theirs; heap calls get no integers |
| Emission.HeapCallsInOrder | heaps/pred-gen-list.js:354-362 | the calls of a heap pattern follow those of the heap patterns before it |
| Emission.DataCallsInOrder | heaps/pred-gen-list.js:363-374 | the calls of a data pattern follow those of all heap patterns and of the data patterns before it |
| Emission.Generator.EmitHeapPatterns | heaps/pred-gen-list.js:354-362 | the heap loop makes, in order, one call of `ts` per fitting pattern and injective pointer assignment, printing as specified |
| Emission.Generator.EmitDataPatterns | heaps/pred-gen-list.js:363-374 | the data loop continues with one call per fitting pattern, pointer assignment and integer assignment |
| Emission.Emit | heaps/pred-gen-list.js:348-379 | the whole output, for any tables: line j carries guard j and what the j-th call of `ts` returned with the counter left by the calls before; declarations follow only after the last line, one per guard |
| Emission.CallsSteadyIff | heaps/pred-gen-list.js:354-373 | all calls are on steady patterns if and only if every pattern the variables suffice for is steady |
| Emission.EmissionIffSteady | heaps/pred-gen-list.js:348-379 | for all tables, the run ends with exactly the lines the patterns call for if and only if every pattern that is used is steady; otherwise no number of iterations makes it so |
| Emission.DroppingTable | heaps/pred-gen-list.js:296-307 | a table and all sets of four pointers or more with which the run ends and not one line is what its pattern says |
| Emission.EndlessTable | heaps/pred-gen-list.js:296-307 | a table and all sets of three pointers or more with which the run prints nothing and never ends |
| Emission.GuardsDistinct | heaps/pred-gen-list.js:359-378 | no guard is used, hence declared, twice |
| Emission.EmissionTotal | heaps/pred-gen-list.js:348-379 | a run that ends prints as many lines as the sum, over patterns that fit, of the products of falling factorials, steady or not; any other prints fewer |
| Repeats.HeapCandidatesDistinctIff | heaps/pred-gen-list.js:354-362 | over distinct names, the candidates of a heap pattern, by position on its list of calls, are pairwise different if and only if it does not fit, or no counted pointer slot is unused, or exactly one is and all pointers are assigned |
| Repeats.DataCandidatesDistinctIff | heaps/pred-gen-list.js:363-374 | the same for a data pattern, for pointer and integer slots both |
| Repeats.EmittedOnceIff | heaps/pred-gen-list.js:354-373 | for a steady pattern the terms `ts` actually returns, whatever the counter was before, are pairwise different under exactly those conditions |
| Texts.SameTextIff | heaps/pred-gen-list.js:167-315 | for names without commas, closing parentheses and spaces, two assignments give the same text if and only if they give the same term |
| Texts.TextsDistinctIff | heaps/pred-gen-list.js:167-315 | the lines of one pattern repeat a text if and only if they repeat a term |
| Texts.TableSeparates | heaps/pred-gen-list.js:175-309 | operators that write an opening, something between operands and a closing, the latter two beginning with a comma, a closing parenthesis or a space, meet what the two rows above ask |
| Texts.TsSeparates | heaps/pred-gen-list.js:175-309 | every case of `ts`, with the text it writes around its operands spelled out, does |
| Texts.TextOfTwo | heaps/pred-gen-list.js:175-309 | the text of an operator with two operands: opening, first operand, what stands between, second operand, closing |
| Texts.TextOfOne | heaps/pred-gen-list.js:175-309 | the same with one operand |
| Texts.SegmentReachText | heaps/pred-gen-list.js:183-185 | `reach` of two operands spelled out: the segment function, with both |
| Texts.ListReachText | heaps/pred-gen-list.js:186-188 | `reach` of one operand spelled out: the list function |
| Repeats.HeapTextsDistinctIff | heaps/pred-gen-list.js:354-362 | the exact condition for a heap pattern to print no text twice |
| Repeats.DataTextsDistinctIff | heaps/pred-gen-list.js:363-374 | the exact condition for a data pattern to print no text twice |
| Repeats.SurplusOperandRepeats | heaps/pred-gen-list.js:176-177 | `list` given two slots prints candidates twice over three pointers or more, since it reads one |
| Repeats.PointerFreeRepeats | heaps/pred-gen-list.js:318-332 | a pattern without pointer slots repeats its candidates as soon as there are two pointers, and is not emitted at all without any |
| Rendering.TsShows | heaps/pred-gen-list.js:175-309 | whatever any case but `and` returns has that operator and the operands the case reads, in place, each as its own call returns it: one, two, or, for the functions of lists and segments, two if there are two; an unknown operator or a missing operand returns nothing |
| Rendering.TsShowsConjuncts | heaps/pred-gen-list.js:296-307 | whatever `and` returns, from two conjuncts or more, starts with the first and holds only what other conjuncts return |
| Rendering.TsIsRend | heaps/pred-gen-list.js:167-315 | `ts` depends on what it reads of the pattern alone: it is the rendering of the instantiated pattern, surplus operands gone, with the shared counter threaded through |
| Rendering.LeftOfOutput | heaps/pred-gen-list.js:296-307 | the counter a call leaves can be read off its output alone |
| Rendering.TsClean | heaps/pred-gen-list.js:167-315 | on a steady pattern (one meeting the condition above) the renderer returns, within an explicit number of iterations, the instantiated pattern, and leaves the shared counter where its last conjunction ended |
| Exactness.NeverTwice | heaps/pred-gen-list.js:299-301 | a loop that ends takes no conjunct twice |
| Exactness.NoLonger | heaps/pred-gen-list.js:299-301 | so a conjunction only ever gets shorter |
| Exactness.SameLength | heaps/pred-gen-list.js:299-301 | among finitely many terms that are each rendered from one of them, no conjunction loses a conjunct |
| Exactness.BackedIsSteady | heaps/pred-gen-list.js:296-307 | such terms are all steady, hence rendered as themselves: renderings cannot turn terms into one another in a circle |
| Exactness.MakesItselfIff | heaps/pred-gen-list.js:296-307 | a term is rendered as it stands if and only if it is steady |
| Exactness.RendersIffSteady | heaps/pred-gen-list.js:167-315 | `ts` returns the instantiated pattern if and only if the pattern is steady; otherwise, however long it is left to work, it has thrown, not returned, or returned another term |
| Rendering.FlatIsSteady | heaps/pred-gen-list.js:64-155 | a pattern whose operators are known and have their operands, and whose conjunctions contain no conjunction, is steady |
| Rendering.SurplusConjunctionIsSteady | heaps/pred-gen-list.js:259-263 | a concrete pattern with a nested conjunction in an operand that `ts` never reads is steady |
| Rendering.ConjunctDropped | heaps/pred-gen-list.js:296-307 | a concrete pattern with a nested conjunction whose last conjunct is dropped, whatever the counter was and the names are |
| Rendering.LoopForever | heaps/pred-gen-list.js:296-307 | if all conjuncts up to the first off course are steady and that one moves the counter back, `ts` never returns, whatever follows it |
| Rendering.EndlessRuns | heaps/pred-gen-list.js:296-307 | a concrete pattern of four conjuncts on which `ts` never returns |
| Substitution.Substitute | sources/Boogie/Source/AIFramework/Expr.cs:251-294 | the program, with its argument loop, computes the substitution function the lemmas are about |
| Substitution.SubstituteCorrectIff | sources/Boogie/Source/AIFramework/Expr.cs:251-294 | it agrees with capture-avoiding substitution on the nameless form if and only if no binder above a free occurrence of the variable binds a free name of the replacement |
| Substitution.ApartNoCapture | sources/Boogie/Source/AIFramework/Expr.cs:251-294 | parameters that are not free in the replacement are enough |
| Substitution.NotFreeUnchanged | sources/Boogie/Source/AIFramework/Expr.cs:251-294 | it is the identity when the variable is not free |
| Substitution.FreeVarsOfSubst | sources/Boogie/Source/AIFramework/Expr.cs:251-294 | otherwise, without capture, the free names are the old ones minus the variable plus the replacement's |
| Substitution.OuterBinders | sources/Boogie/Source/AIFramework/Expr.cs:275-283 | putting an expression under more binders leaves its nameless form alone if and only if they bind none of its free names |
| Substitution.CaptureExample | sources/Boogie/Source/AIFramework/Expr.cs:275-283 | replacing x by y under a lambda over y captures y |
| Components.AllDepsExact | sources/Z3/scripts/mk_util.py:915-926 | the list has no duplicate and holds exactly the declared names and the dependencies recorded for them |
| Components.AllDepsFails | sources/Z3/scripts/mk_util.py:915-926 | it fails if and only if some declared name is unknown, and reports the first one |
| Components.AllDepsInOrder | sources/Z3/scripts/mk_util.py:915-926 | the names stand in the order in which they first come up, going through the declared ones and, behind each, those recorded for it |
| Components.RegisterIff | sources/Z3/scripts/mk_util.py:928-938 | a registration succeeds if and only if the name is new and every declared dependency is registered; otherwise the error is the duplicate name, or the first unknown dependency |
| Components.RegisterAdds | sources/Z3/scripts/mk_util.py:928-944 | on success exactly that component is added, with the next id and the declared dependencies and theirs; every other entry stays |
| Components.RegisterKeepsInv | sources/Z3/scripts/mk_util.py:928-944 | a registration, successful or not, keeps the registry invariant |
| Components.RunKeepsInv | sources/Z3/scripts/mk_util.py:2261-2269 | so does every run of registrations |
| Components.DepsIsClosure | sources/Z3/scripts/mk_util.py:915-938 | a name is in the recorded dependencies if and only if a non-empty path of declared dependencies leads to it |
| Components.DepsHaveSmallerIds | sources/Z3/scripts/mk_util.py:915-926 | every dependency is registered, has a smaller id, and brings its own dependencies along |
| Components.Acyclic | sources/Z3/scripts/mk_util.py:915-938 | no component depends on itself, by any path |
| Components.RunRecords | sources/Z3/scripts/mk_util.py:2261-2269 | after any run the registry holds exactly the calls that succeed, judged on the calls alone: each name with the dependencies its call declares and its place among them as id |
| Components.AfterAnyRun | sources/Z3/scripts/mk_util.py:915-938 | starting from the empty registry, after any run: the registered names are those of the calls that succeed, their dependencies have no duplicates and are exactly the transitive closure of what those calls declare, ids are places in the order of the calls, dependencies have smaller ones |
| Components.SortDescending | sources/Z3/scripts/mk_util.py:1151-1152 | the sorted list has descending ids |
| Components.LinkOrder | sources/Z3/scripts/mk_util.py:1151-1152 | in any list of components with descending ids a component stands before what it depends on |
| Components.LinkLine | sources/Z3/scripts/mk_util.py:1151-1152 | the sorted dependencies of a component hold each exactly once, and whatever one of them depends on stands after it |
| Components.Registry.FindAllDeps | sources/Z3/scripts/mk_util.py:915-926 | the nested loops, with the membership test before each append, compute the specified list or the specified failure |
| Components.Registry.RegComponent | sources/Z3/scripts/mk_util.py:2261-2269 | registering a constructed component gives it the next id and keeps the four globals consistent |
| Components.Registry.Add | sources/Z3/scripts/mk_util.py:928-944 | constructing and registering a component changes all four globals as specified, and leaves them alone on either exception |

## Left out

- Bodies of `avl_balance` and `treap_remove_root`: the source gives only their contracts, so the bodies here (rotations; joining the two subtrees) are this project's. For treaps `TreapOps.DeleteIsForced` shows that the choice does not matter for the resulting shape.
- Minimum and maximum of an empty tree are not specified by the headers, so claims about them are made only for non-empty results.
- Failure of `malloc` (the source assumes it away) and `free`: a freed node leaves the picture and is written no more.
- Verification plumbing of the C files (`same_*`, `cond_same_*`, `disj_same_*`, `mutable_*`, heaplets): replaced by `reads`, `modifies` and `fresh`.
- Integer width: 32-bit values are explicit where sums are formed (`Traversal`, `MemoryRegion`). Elsewhere keys are only copied and compared and are unbounded; AVL heights are unbounded too, which `AvlOps.AvlHeightLogarithmic` makes harmless.
- MemoryRegion.SplitMemoryRegion: `BackingFile` is an identity only; its contents are not modelled.
- Rendering.Ts: the shared counter is threaded as a value and loop iterations are bounded by a fuel argument, because the source's loop may not end; the claims quantify over all fuel.
- Rendering.Ts: all exceptions are one outcome, `Thrown`, their messages left out. The other global, `str`, is not modelled: `+=` reads it before the nested call is made, so nested calls do not disturb it.
- Candidates.Read: an operand is a pattern; strings in place of operands, which `ts` would take for patterns with a one-letter operator, are excluded. Operators are values of a datatype instead of strings, with one case for all unknown ones.
- Texts.Text: a missing name is written `undefined` for pointers and integers alike, without the cast around a missing pointer, which does not occur.
- Emission.Emit: patterns that are a bare number are excluded; `console.log` is a list of lines.
- Substitution.Substitute: `CloneWithArguments` and `CloneWithBody` are interface methods whose bodies are not part of this model; they are taken to keep the symbol and the parameter. Variables are compared by name.
- Components.Registry.Add: a component is a value that receives its id when registered; paths, build directories and messages are left out, and `sorted` is modelled as insertion by id.
- The pattern tables themselves and reading the program text for variable names (`init`): patterns and names are parameters.
- `pred-gen-os.js`, `pred-gen-tree.js`, `pred-inject.js`: the same algorithm over other tables, or text rewriting.
- `memory_region_insert`, `memory_region_init` and `memory_region_create_user_space_region`: the first depends on a function without body, the others set constants.
- `heaps/afwp/SLL-merge.c`: it drops the rest of its second list, so no conservation holds for it.
- The remaining list, search-tree and glib routines under `heaps/`: single walks or weaker forms of the ones modelled.
- Running times, the Houdini, Boogie and Z3 engines, and the rest of their build scripts and C# support code.
