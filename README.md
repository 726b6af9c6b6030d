# Pairing heap (PairingPQ.h) in Dafny

This project models `PairingPQ`, the pairing-heap priority queue of
`PairingPQ.h`, and proves what its operations promise.

In the source each node has an element and three pointers:

- `child` points to the leftmost child;
- `sibling` points to the next sibling to the right;
- `previous` points to the left sibling, or to the parent when the node is a leftmost child.

The heap keeps a `root` pointer and a `count`.

The model is in two layers.

- **Values** (modules `Trees`, `Pairing`, `Traversal`, `Update`, `Binary`).
  - A heap is a multiway `Tree` of node handles and elements.
  - `meld`, the multi-pass pairing of `pop`, the breadth-first walk of `to_queue`, the rebuild of `updatePriorities` and the cut of `updateElt` are functions on trees.
  - Lemmas give their effect on the multiset of handles and on the multiset of elements, and show that they keep heap order.
  - `Drain` pops repeatedly; `Pairing.DrainSorted` proves that the elements come out monotone.
- **The arena** (modules `Arena`, `Unlink`, `HeapState`, `Relisting`, `Relink`, `Copying`, and class `PairingHeap.PairingPQ`).
  - The heap-allocated nodes are slots of a sequence `nodes`.
  - A pointer is a slot index, and `-1` is `nullptr`.
  - `Arena.Linked(t, nodes)` says that the links in the slots describe the tree `t`.
  - The class keeps that tree in a ghost field, `shape`.
  - Each method of the class mutates `nodes`, `root` and `count` the way the C++ does, link by link and loop by loop.
  - Each method is proved against the value layer: after a `Pop`, `shape` is `PopTree(old(shape))`, and so on.

Fixed choices:

- The comparator is `<` on `int`, so the heap is a max-heap.
- In `meld(a, b)`, `a` wins only when `b < a`; on a tie `b` wins (PairingPQ.h:374-375).
- Slots are never reused, so a handle returned by `AddNode` stays valid until that node is popped.

Two links are left stale by the source, and the model tracks both.

- When a node becomes the root in `pop`, the source does not clear the node's own `previous` and `sibling`.
- After a `pop`, the root's stale `sibling` is null or points into the heap below the root.
- `copy_non_recursive` follows `other.root->sibling` as well as `child`.
  - The copy therefore contains a second, unreachable copy of that subtree.
  - The copy constructor's `count = other.size()` still matches the reachable tree.
  - The model does the same: the copied root's `sibling` points into a region of slots (ghost field `junk`) that is not part of the heap.
  - No operation writes that region. Copying the copy reads it again: the copy follows the stale `sibling` a second time.
  - `HeapState.StaleOk` therefore allows three cases for the root's `sibling`: null, below the root, or the root of `junk`.

## Model

| member | source | states |
|---|---|---|
| PairingHeap.PairingPQ.constructor | PairingPQ.h:48-51 | a new heap is valid and ordered, holds no element, and has count 0 |
| PairingHeap.PairingPQ.FromSeq | PairingPQ.h:57-65 | building from a range gives a valid, ordered heap whose contents are exactly the multiset of the range and whose count is its length |
| PairingHeap.PairingPQ.AddAll | PairingPQ.h:62-64 | adding each element of the range in turn keeps validity and order; the contents grow by the range's multiset and the count grows by its length |
| PairingHeap.PairingPQ.Copy | PairingPQ.h:70-79 | the copy is valid; it is empty exactly when the original is; the tree has the same shape and elements on fresh nodes; contents and count are those of the original; it is ordered exactly when the original is |
| PairingHeap.PairingPQ.CopyNonRecursive | PairingPQ.h:81-127 | the slots it allocates store a tree that is the source's child/sibling structure from `other` with fresh, distinct handles, identical up to handle names; `root` is its first node, slot 0 |
| PairingHeap.PairingPQ.Assemble | PairingPQ.h:97-110 | one step: new nodes (as the Node constructor at PairingPQ.h:22-23 makes them: the element and three null links) for the existing child and sibling of the front, with the front's `child`/`sibling` and their `previous` set accordingly, and nothing else changed |
| PairingHeap.PairingPQ.Enqueue | PairingPQ.h:112-126 | the queue gains the child and then the sibling, each only when it is non-null |
| Copying.CopyDone | PairingPQ.h:81-127 | the finished copy satisfies the heap invariant with the original's count; its tree equals the original's tree once handles are erased |
| Copying.CopyFacts | PairingPQ.h:70-79 | two trees equal up to handle names hold the same elements, and one is heap-ordered exactly when the other is |
| Copying.EraseOrdered | PairingPQ.h:70-79 | renaming handles does not affect heap order, in either direction |
| Copying.CopyAdvance | PairingPQ.h:89-127 | one round of the copy loop keeps the loop invariant (the partial copy mirrors the visited part of the source and both queues list matching pending nodes) and shrinks the pending work |
| Copying.CopyEnd | PairingPQ.h:89-127 | when the queues are empty, the copy equals the source structure once handles are erased |
| PairingHeap.PairingPQ.Size | PairingPQ.h:297-299 | `count` is the number of live elements and the number of live nodes |
| PairingHeap.PairingPQ.IsEmpty | PairingPQ.h:303-305 | the heap is empty exactly when it holds no element, and exactly when count is 0 |
| PairingHeap.PairingPQ.Top | PairingPQ.h:258-260 | the root element is in the heap, and in an ordered heap no element is greater |
| PairingHeap.PairingPQ.Meld | PairingPQ.h:369-388 | the slots afterwards store the meld of the two trees; no slot outside the two trees changes; no element is written; the winner keeps its sibling link |
| PairingHeap.PairingPQ.AddNode | PairingPQ.h:349-361 | the returned handle is a new slot holding the value (a Node made at PairingPQ.h:22-23); the new tree is `meld(new node, old tree)`, so the new node becomes the root only when the old root is below it; its handle joins the live handles; the contents gain the value; count goes up by one; order is kept; no existing element changes |
| PairingHeap.PairingPQ.Push | PairingPQ.h:188-190 | the contents gain the value, count goes up by one, and order is kept |
| PairingHeap.PairingPQ.Pop | PairingPQ.h:199-250 | on a non-empty heap the new tree is the multi-pass pairing of the root's children, exactly one occurrence of top is removed, and count drops by one; on an empty heap count is 0; order is kept |
| PairingHeap.PairingPQ.MeldChildren | PairingPQ.h:213-248 | when the root has children, the root returned names the stored pairing of those children |
| PairingHeap.PairingPQ.Children | PairingPQ.h:224-228 | walking the sibling chain from the first child collects the children's handles left to right |
| PairingHeap.PairingPQ.PairUp | PairingPQ.h:230-248 | the FIFO pairing loop leaves a single stored tree that is the multi-pass meld of the queued trees, writing only their slots |
| Pairing.LinkShape | PairingPQ.h:374-385 | the winner is `a` when `b < a` and `b` otherwise (ties to `b`); the loser is prepended to the winner's children; the root is not below either argument |
| Pairing.LinkProps | PairingPQ.h:369-388 | linking two trees keeps all their handles and elements and gives a heap-ordered tree when both were |
| Pairing.MeldProps | PairingPQ.h:369-388 | a null argument gives back the other one; otherwise the result holds both: handles and elements are the unions, and order is kept |
| Arena.LinkSlotsMelded | PairingPQ.h:377-384 | the four link writes of meld perform the winner/loser relinking slot by slot |
| Arena.MeldedLinked | PairingPQ.h:369-388 | after those writes the slots store the linked tree |
| Pairing.MultiPassProps | PairingPQ.h:230-248 | the pairing of a non-empty list of trees holds all their handles and elements and is ordered when they all were |
| Pairing.PopProps | PairingPQ.h:204-249 | popping removes exactly the root's handle and one occurrence of the root element; the rest stays ordered, and its new root is not above the old one |
| Pairing.DrainElements | PairingPQ.h:199-260 | repeatedly reading top and popping yields exactly the heap's elements |
| Pairing.DrainAfterPop | PairingPQ.h:199-260 | no element left after a pop is above the popped top |
| Pairing.DrainSorted | PairingPQ.h:199-260 | in an ordered heap, repeated top and pop yields a non-increasing sequence |
| Trees.TopIsMax | PairingPQ.h:258-260 | in a heap-ordered tree no element is greater than the root |
| HeapState.RootIsTop | PairingPQ.h:258-260 | the root element is stored in the tree and is maximal when the tree is ordered |
| HeapState.OptEmpty | PairingPQ.h:303-305 | a heap has no root exactly when it holds no element |
| Trees.SizeCount | PairingPQ.h:297-299 | a tree has as many elements as nodes |
| Trees.SizeNodes | PairingPQ.h:297-299 | the node count of a tree is its number of handles, so `count` can track it |
| PairingHeap.PairingPQ.ToQueue | PairingPQ.h:264-293 | the queue is the handles of the breadth-first listing of the tree, and it holds every live handle exactly once |
| PairingHeap.PairingPQ.ListFrom | PairingPQ.h:270-290 | the pending-queue loop produces the breadth-first order of the queued trees |
| PairingHeap.PairingPQ.QueueKids | PairingPQ.h:275-286 | the child and then its right siblings are appended in order |
| Traversal.BfsNodes | PairingPQ.h:264-293 | the breadth-first walk lists each handle of the forest exactly once |
| Traversal.BfsElements | PairingPQ.h:264-293 | the nodes listed carry exactly the forest's elements |
| Traversal.BfsLevels | PairingPQ.h:270-290 | the walk lists the queued trees first and then the walk of all their children, that is, level by level |
| Traversal.ListingProps | PairingPQ.h:264-293 | the listing starts with the root and holds every handle and element of the heap exactly once |
| PairingHeap.PairingPQ.UpdatePriorities | PairingPQ.h:170-181 | the new tree is the old tree's breadth-first listing melded node by node into an empty heap; whatever the stored values, the heap becomes ordered; no node is created or destroyed; contents, handles and count are unchanged; no element is written |
| PairingHeap.PairingPQ.MeldAll | PairingPQ.h:171-180 | melding the listed nodes one by one after clearing their links leaves `root` naming a stored tree with all the original handles and elements, in heap order |
| PairingHeap.PairingPQ.ClearLinks | PairingPQ.h:175-177 | the node's three links become null and nothing else changes |
| Traversal.RebuildProps | PairingPQ.h:173-180 | melding the isolated nodes one by one into an accumulator keeps every handle and element and keeps order |
| Traversal.RebuildAll | PairingPQ.h:170-181 | rebuilding from the listing gives a non-empty tree exactly when the heap was non-empty, with the same handles and elements, and always in heap order |
| Relisting.RebuildDone | PairingPQ.h:170-181 | the rebuilt slots satisfy the heap invariant for the rebuilt tree with the same count |
| PairingHeap.PairingPQ.UpdateElt | PairingPQ.h:316-339 | for a live non-root node: the new tree is the old one with that node's subtree cut out, relabelled and melded with the rest; handles and count unchanged; the old element is replaced by the new one in the contents; order holds again when the new value is not below the old; only that node's element is written |
| PairingHeap.PairingPQ.UpdateLinks | PairingPQ.h:317-338 | unlinking the node and melding it into the root leaves slots that store the updated tree |
| PairingHeap.PairingPQ.Detach | PairingPQ.h:317-335 | the node's neighbours are as the tree says, and the slots are the old ones with the node written and unlinked |
| PairingHeap.PairingPQ.UnlinkNode | PairingPQ.h:318-334 | the leftmost-child branch and the other branch write exactly the source's links |
| Unlink.UnlinkSlotsUnlinked | PairingPQ.h:318-334 | the unlink writes bypass the node: its left neighbour or parent points past it, and its right sibling points back to that neighbour |
| Relink.UpdateFacts | PairingPQ.h:316-339 | the update keeps the handles; it replaces the node's old element by the new value; it gives an ordered tree when the new value is not below the old; no other element changes |
| Update.FindSound | PairingPQ.h:316-339 | a node found below the root has the requested handle and is ordered when the heap is |
| Update.FindComplete | PairingPQ.h:316-339 | every live non-root handle is found |
| Update.CutOrdered | PairingPQ.h:318-334 | cutting a subtree out of an ordered forest leaves it ordered |
| Update.CutNodes | PairingPQ.h:318-334 | the cut forest and the cut-out subtree together hold exactly the forest's handles |
| Update.CutElements | PairingPQ.h:318-334 | the cut forest and the cut-out subtree together hold exactly the forest's elements |
| Update.DecreaseNodes | PairingPQ.h:316-339 | updating a node keeps the set of handles |
| Update.DecreaseElements | PairingPQ.h:316-339 | updating a node replaces its old element by the new value in the multiset |
| Update.DecreaseOrdered | PairingPQ.h:316-339 | updating a node in an ordered heap to a value not below its old one gives an ordered heap |
| Update.DecreaseProps | PairingPQ.h:316-339 | the update finds the node, keeps the handles, swaps old element for new, and restores order under the source's precondition |

## Left out

- Memory management is not modelled. `new` appends a slot; `delete` of a popped root only drops the slot from the tree and does not mark it freed.
- The destructor, `operator=` and `swap` (PairingPQ.h:131-163, 390-394) are not modelled. They only free nodes, or copy through the same paths.
- The base class and the comparison functor are not modelled. The comparator is `<` on `int`.
- Amortized running times are not modelled.
- `std::size_t` and a bounded element type are not modelled: `count` and elements are unbounded integers.
- `std::queue` is modelled as a Dafny sequence.
- Pop's pairing loop is written `while |q| > 1` followed by the final tree. It performs the same melds in the same order as the source's loop, which tests for an empty queue and then for a second element.
- PairingHeap.PairingPQ.UpdateElt: requires the node to be a live non-root node.
  - For the root, line 319 reads the `previous` link of a node that has no parent in the heap.
  - On a fresh root that link is null, so the read is a null dereference.
  - After a `pop` the link is stale: it can name a live former sibling, which lines 319-334 then rewrite.
  - `meld(root, node)` at line 338 then melds the root with itself and makes it its own child, which corrupts the heap.
- PairingHeap.PairingPQ.UpdateElt: does not require the source's precondition that the new value is more extreme.
  - It proves heap order only when `!(v < old element)`, which is that precondition.
- PairingHeap.PairingPQ.FromSeq: takes the range as a sequence of values instead of an iterator pair.
  - It adds each value with Push, which is addNode without returning the handle.
- PairingHeap.PairingPQ.Copy: the other heap's slots are read through the other object's fields.
  - Copying into one arena a heap that shares that arena is not modelled.
- PairingHeap.PairingPQ.Pop: says nothing about the slots of the deleted root, which the model leaves in place unreachable.
