# Fibonacci heap

This project models the Fibonacci heap of the `fibonacci` Go package: a
mergeable min-priority queue. The heap's trees hang off a circular
doubly-linked root list, and the heap keeps a pointer `root` to a root of
least key. Every node carries an `id`, a `key`, the sibling links `left` and
`right`, a `parent` and a `child` link, a `degree` counter and a `marked` bit.
The model also covers the heap sort that the command-line driver
`cmd/main.go` performs with the heap, and proves that the sort's output is
sorted and is a permutation of its input.

## How the model is built

- **Nodes and memory (module `Nodes`, `node.dfy`).**
  - Go's `Node` struct is the record `Node`, and `NewNode`, `GetKey` and `GetID` are functions on it.
  - The Go heap memory is the class `Arena`. It has one sequence per node field, indexed by address.
  - A pointer is an address, and the nil pointer is `Nil` (-1).
  - An assignment `x.f = v` in Go is an update of sequence `f` at index `x`.
- **The heap (module `Fibonacci`, `heap.dfy`).** `Heap` is a class with the
  Go fields `root` and `size`, plus a ghost `shape` that names the rings as
  sequences:
  - the root list, read from `root`;
  - the child ring of each node, read from its `child`.
- **Exact effects.** These methods state their whole new memory as a
  function of the old one:
  - `AddToRoot` and `Insert` (`PushMem`), `RemoveFromRoot` (`UnlinkMem`) and `Link` (`LinkMem`);
  - `Splice` and `Meld` (`SpliceMem`), and `Cut` and `CutMarked` (`CutMem`);
  - `LiftChildren` and `Promote` (`PromoteMem`), and `ClearParents`;
  - `CascadingCut` (`Cascade`), `Lower` (`DecreaseCut`), and `LowerKey` and `DecreaseKey` (`Decrease`).

  Each of these functions transcribes the Go stores in their order.
- **Frame and invariants.** The loops of `consolidate` (`Walk`, `Absorb`,
  `LinkEqual`, `LinkOnce`, `Rebuild`, `Consolidate`) and the success path of
  `PopMin` do not state their exact memory. They state instead:
  - the heap invariant and the shape they leave;
  - the frame `Nodes.Kept`: every record outside the heap's own nodes is unchanged.

  Every public operation states this frame. So a second heap over the same
  memory stays valid (`Trees.InvKept`), and two heaps can be melded. Lemmas
  beside the memory functions prove what the stores achieve and which
  invariants they keep:
  - `Rings` and `Splices`: ring surgery;
  - `Trees`: the heap invariant;
  - `Frames`, `Promotion` and `Consolidation`: one module per operation.
- **The heap invariant (`Trees.Inv`):**
  - every sibling ring closes, and `left` and `right` are mutual inverses;
  - `degree` is the length of the child ring;
  - every child points back to its parent;
  - the keys are in min-heap order;
  - `root` is the first root of the list and has the least key on it;
  - `size` counts the nodes.
- **The abstract value.** `Heap.Model()` maps each node to its key.
- **Loops.** Go's loops are `while` loops with invariants:
  - the parent-clearing loop of `PopMin`;
  - the walk and the inner linking loop of `consolidate`;
  - the map-range loop that rebuilds the root list;
  - `cascadingCut`, whose recursion on the parent is a loop up the `parent` links.

## Model

| member | source | states |
|---|---|---|
| Nodes.NewNode | fibonacci/node.go:18-23 | the record holds exactly the given id and key; the links are nil, the degree is 0 and the node is unmarked (Go's zero values) |
| Nodes.Arena.Alloc | fibonacci/node.go:18-23 | allocating a node appends exactly `NewNode(id, key)` at the next free address and leaves every other address alone |
| Fibonacci.Heap.constructor | fibonacci/heap.go:17-19 | a new heap is valid and empty: nil root, size 0, no nodes, empty key map |
| Fibonacci.Heap.Size | fibonacci/heap.go:22-24 | the size is the number of nodes in the heap, and it is 0 exactly when `root` is nil |
| Fibonacci.Heap.Insert | fibonacci/heap.go:28-36 | the size grows by exactly 1; the node joins the heap and the root list; the key map gains the node's key; `root` changes to the new node only if its key is strictly smaller (a tie keeps the old root); keys and ids are unchanged and the invariant is kept; the memory is exactly `addToRoot`'s stores (`PushMem`), so every record outside the heap and the node is kept |
| Frames.InsertKept | fibonacci/heap.go:144-161 | `addToRoot`'s stores change records only at the heap's nodes and at the inserted node |
| Trees.InvKept | fibonacci/heap.go:40-68 | a valid heap stays valid, with the same key map, under any change that keeps its nodes' records; this is why two heaps can share memory until they are melded |
| Frames.InsertKeeps | fibonacci/heap.go:28-36 | adding a standalone node to the root list of a valid heap gives a valid heap with one more node, whose key map has the new node's key added |
| Fibonacci.Heap.AddToRoot | fibonacci/heap.go:144-161 | the memory after the call is exactly the four link stores of `addToRoot` (or the singleton ring when the heap is empty); `root` moves to the node only on a strictly smaller key |
| Splices.PushRing | fibonacci/heap.go:144-161 | after those stores the root ring is the old ring with the node just before the entry; only the node's links, the entry's `left` and the last member's `right` change |
| Fibonacci.Heap.RemoveFromRoot | fibonacci/heap.go:164-170 | the memory after the call is exactly the two unlinking stores; when the node is the entry, the entry moves to its right neighbour first |
| Splices.UnlinkRing | fibonacci/heap.go:164-170 | unlinking a member of a ring leaves a ring of the other members in the same order; only its two neighbours' links change; the new entry is the right neighbour |
| Fibonacci.Heap.Link | fibonacci/heap.go:173-188 | the memory after the call is exactly `link`'s stores: the root leaves the root ring and joins `parent`'s child ring |
| Splices.LinkRing | fibonacci/heap.go:173-188 | after `link`, the child is in `parent`'s child ring, just after `parent.child` or as the only child; `child.parent == parent`; `parent.degree` grows by 1; `child.marked` is false; the rest of the root list is still a ring; ids and keys are untouched |
| Frames.LinkKept | fibonacci/heap.go:173-188 | `link`'s stores change records only at the heap's nodes |
| Frames.LinkKeeps | fibonacci/heap.go:173-188 | linking root `y` under root `x` when `key[x] <= key[y]` keeps the forest well formed and heap-ordered, with the same nodes, keys and ids, and raises only `x`'s degree |
| Fibonacci.Heap.Meld | fibonacci/heap.go:40-68 | an empty receiver takes `other`'s root, size and nodes and changes no memory; an empty `other` changes nothing; otherwise the root rings are spliced into one, the size is the sum, and `other`'s root becomes the entry only with a strictly smaller key; in every case the heap is valid, its key map is the union, and every record outside the two heaps' nodes is kept |
| Fibonacci.Heap.Splice | fibonacci/heap.go:57-61 | the memory after the call is exactly the four stores that join the ring entered at `b` into the ring entered at `a` |
| Splices.SpliceRing | fibonacci/heap.go:57-61 | splicing two disjoint rings gives one ring holding both in order; only the links of the two entries and the two last members change |
| Frames.MeldKeeps | fibonacci/heap.go:55-65 | splicing two valid heaps with disjoint nodes gives a valid heap over both node sets, entered at the root of strictly smaller key (the receiver's on a tie) |
| Frames.MeldKept | fibonacci/heap.go:57-61 | the meld's four stores change records only at the nodes of the two heaps |
| Fibonacci.Heap.FindMin | fibonacci/heap.go:72-77 | fails with `EmptyHeap` exactly when the size is 0; otherwise returns `root`, a node of the heap whose key is at most every node's key |
| Trees.RootIsMin | fibonacci/heap.go:72-77 | in a heap-ordered forest, a least root has a key at most that of every node of the heap |
| Trees.RootsIffNodes | fibonacci/heap.go:85-92 | the root list is empty exactly when the heap has no nodes |
| Fibonacci.Heap.PopMin | fibonacci/heap.go:81-115 | fails with `EmptyHeap` exactly when the size is 0, and then changes nothing; otherwise returns the old `root`, whose key is at most every node's key, removes exactly that node (size minus 1, key map minus the node), keeps keys and ids, leaves a valid heap and, with two or more nodes, pairwise distinct root degrees; every record outside the heap's nodes is kept |
| Fibonacci.Heap.Promote | fibonacci/heap.go:94-109 | removes the minimum from the node set; the other roots followed by its former children form the new root list; every former child is on it with parent nil; the forest stays heap-ordered |
| Fibonacci.Heap.LiftChildren | fibonacci/heap.go:94-109 | the memory after the call is exactly: the children's parents cleared, their ring spliced before the minimum, and the minimum unlinked; the entry becomes the first remaining root |
| Fibonacci.Heap.ClearParents | fibonacci/heap.go:95-100 | the loop `for child.parent != nil` clears the parent of every child, in ring order, changes nothing else, and stops back at the first child |
| Promotion.PromoteRing | fibonacci/heap.go:101-109 | after the splice and the unlink, the other roots followed by the children form one ring, and no link outside the two rings changes |
| Promotion.PromoteKept | fibonacci/heap.go:94-109 | the promotion of the children changes records only at the heap's nodes |
| Promotion.PromoteKeeps | fibonacci/heap.go:94-109 | after the promotion the forest is well formed and heap-ordered over the nodes without the minimum, keys and ids are unchanged, and each former child is a root with parent nil |
| Fibonacci.Heap.Consolidate | fibonacci/heap.go:191-223 | the walk visits every root present at entry exactly once, in `right` order; afterwards the heap is sound over the same nodes with `root` a least root, the root list is exactly the table's values one per degree, and root degrees are pairwise distinct |
| Fibonacci.Heap.Walk | fibonacci/heap.go:195-216 | the outer loop visits the entry roots once each, in order, and ends with a table holding exactly the remaining roots, each under its degree, with the forest intact |
| Fibonacci.Heap.Absorb | fibonacci/heap.go:197-215 | one round of the outer loop keeps the walk state; the saved `right` is the next root to visit; `current == last` exactly at the last root |
| Fibonacci.Heap.LinkEqual | fibonacci/heap.go:199-210 | the inner loop ends when the degree of the surviving tree has no entry in the table, with the table still matching the walked roots |
| Fibonacci.Heap.LinkOnce | fibonacci/heap.go:200-209 | one link drops the entry of the current degree and raises the degree by 1; the survivor is the root with the strictly smaller key, or the walked tree on a tie |
| Consolidation.Order | fibonacci/heap.go:204-206 | the parent chosen before `link` is one of the two roots, has a key no larger than the child's, and is the walked tree `x` whenever `x`'s key is no larger |
| Consolidation.LinkStep | fibonacci/heap.go:200-209 | after a link, the parent has the next degree and stays the tree being linked, the child leaves the walked roots, and the table without the consumed entry still matches |
| Consolidation.WalkLeave | fibonacci/heap.go:211-215 | entering the survivor under its degree keeps the table consistent; the walk continues at the next root, or, at the last root, every root has been visited once and the table holds all roots |
| Consolidation.TableDistinct | fibonacci/heap.go:211 | when every walked root is its degree's entry in the table, no two roots share a degree |
| Fibonacci.Heap.Rebuild | fibonacci/heap.go:218-221 | adding the table's roots in any order gives a sound heap whose root list holds exactly those roots, with a least root as entry and distinct degrees, and with the trees unchanged |
| Consolidation.RebuildKept | fibonacci/heap.go:218-221 | adding one table root back to the root list changes records only at the heap's nodes |
| Consolidation.RebuildEnd | fibonacci/heap.go:218-221 | once the table is used up, the rebuilt ring holds exactly the walked roots, so the heap is sound over it and its degrees are distinct |
| Fibonacci.Heap.Cut | fibonacci/heap.go:226-243 | the memory after the call is exactly `cut`'s stores; the entry moves to the node only on a strictly smaller key |
| Splices.CutRing | fibonacci/heap.go:226-243 | after `cut` the remaining children still form a ring, the node is on the root ring just before the entry, the entry moves to the node only on a strictly smaller key, and a least entry stays least |
| Splices.DetachChild | fibonacci/heap.go:228-233 | `cut`'s `switch` leaves `parent.child` at the first of the remaining children: nil if the node was the only child, `node.right` if it pointed at the node, unchanged otherwise |
| Splices.CutFields | fibonacci/heap.go:226-243 | `cut` sets exactly `parent.child` as `DetachChild` says, lowers `parent.degree` by 1, sets the node's parent to nil and its mark to false, and leaves keys and ids alone |
| Splices.CutFrame | fibonacci/heap.go:234-238 | `cut` changes no sibling link outside the root ring and the parent's child ring |
| Frames.CutKept | fibonacci/heap.go:226-243 | `cut`'s stores change records only at the heap's nodes |
| Frames.CutKeeps | fibonacci/heap.go:226-243 | cutting a node from its parent keeps the forest well formed and heap-ordered, even when the node's new key is below its parent's, and keeps `root` a least root |
| Fibonacci.Heap.CascadingCut | fibonacci/heap.go:246-258 | the loop ends in exactly the state `Cascade` describes, with the heap valid and its size unchanged |
| Frames.Cascade | fibonacci/heap.go:246-258 | the state after `cascadingCut` (each marked node with a parent cut, the first unmarked non-root marked, a stop at a root) is again a sound heap over the same nodes, with the same keys and ids |
| Fibonacci.Heap.CutMarked | fibonacci/heap.go:254-256 | cutting a marked non-root node keeps the heap valid, leaves the rest of the cascade to the parent, and the parent ranks higher, so the loop terminates |
| Frames.CascadeKept | fibonacci/heap.go:246-258 | the whole `cascadingCut` changes records only at the heap's nodes |
| Frames.CascadeStep | fibonacci/heap.go:254-256 | the cascade from a marked non-root node is the cut followed by the cascade from its parent |
| Frames.MarkKeeps | fibonacci/heap.go:252-253 | setting a mark keeps the heap sound |
| Fibonacci.Heap.DecreaseKey | fibonacci/heap.go:119-141 | a larger key is refused with `InvalidArgument` and changes nothing; an equal key changes nothing; a smaller key leads to exactly the state of `Decrease` (key set, cut and cascade when it beats its parent, and a new entry when it beats the root); the heap stays valid with its nodes, size and ids; `GetKey` of the node then yields the new key and `GetID` its old id; every record outside the heap's nodes is kept |
| Fibonacci.Heap.LowerKey | fibonacci/heap.go:131-139 | a key below the current one leads to exactly the state `Decrease` describes, with the size unchanged and every record outside the heap's nodes kept |
| Fibonacci.Heap.Lower | fibonacci/heap.go:131-136 | the key store, then the cut and the cascading cut when the new key is below the parent's: exactly the state `DecreaseCut` describes |
| Frames.DecreaseCut | fibonacci/heap.go:131-136 | after the key is set and a node that beats its parent is cut, the forest is well formed over the same nodes and changes only that key; it is sound when a cut happened and otherwise equals the old heap with the new key |
| Frames.Decrease | fibonacci/heap.go:131-139 | after the whole `DecreaseKey` the heap is sound again, so `root` is a least root, over the same nodes, with only the node's key changed |
| Frames.DecreaseKept | fibonacci/heap.go:131-139 | the whole lowering path of `DecreaseKey` changes records only at the heap's nodes |
| Frames.DecreaseEntry | fibonacci/heap.go:137-139 | if the new key is below the entry's, the node is a root and making it the entry gives a sound heap; otherwise the heap is already sound |
| Frames.RotateKeeps | fibonacci/heap.go:137-139 | making a root with a strictly smaller key than the entry the new entry gives a sound heap over the same nodes |
| Client.HeapSort | cmd/main.go:27-41 | inserting every key into a new heap and popping it empty gives an output as long as the input, sorted in non-decreasing order, and a permutation of the input |
| Client.Empty | cmd/main.go:27 | `NewHeap` over a fresh memory: a new heap that is valid, empty and alone in a memory with no addresses |
| Client.Fill | cmd/main.go:27-31 | a new heap filled by the insertion loop is valid; its nodes are exactly the addresses of the keys, one per key, and each holds its key |
| Client.Load | cmd/main.go:28-31 | the insertion loop keeps the heap valid; it appends one node per key to the memory and to the heap, and keeps every record the heap did not hold |
| Client.PopAll | cmd/main.go:32-41 | popping a heap of `n` keys `n` times gives an output of length `n`, sorted, and a permutation of the keys |
| Client.MeldSort | fibonacci/heap.go:40-68 | two heaps filled over one memory and melded pop out both inputs together: the output is as long as both, sorted, and a permutation of their concatenation |
| Client.MeldLoaded | fibonacci/heap.go:40-68 | melding two filled heaps gives a valid heap whose key map is the union of the two: the addresses of the first input's keys and then of the second's, each with its key |
| Client.LoadTwo | cmd/main.go:27-31 | two heaps filled one after the other over one memory are both valid, with disjoint ranges of addresses holding the two inputs |
| Client.LoadOther | cmd/main.go:27-31 | filling a second heap over the memory of a valid heap keeps the first heap valid |
| Client.Add | cmd/main.go:28-30 | one insertion of `NewNode(key, key)` keeps the heap valid and adds exactly one node holding the key |
| Client.FillStep | cmd/main.go:28-30 | a node appended to the memory is standalone and new to the heap, and the heap's invariant survives the append |
| Client.Drain | cmd/main.go:32-39 | the popping loop yields one key per pop, in non-decreasing order, each no larger than any key left in the heap; the popped keys plus the remaining keys are the keys it began with |
| Client.Take | cmd/main.go:34-38 | one pop removes one node and yields its key, which is at most every key then in the heap |
| Client.DrainStep | cmd/main.go:33-39 | popping a least key keeps the output sorted and below the rest, and keeps popped plus remaining keys equal to the starting keys |
| Client.SortedStep | cmd/main.go:41 | appending a least remaining key to a sorted output that is below the remaining keys keeps it sorted and below what remains |
| Bags.BagRemove | cmd/main.go:34 | taking one node out of the heap takes exactly its key out of the bag of the heap's keys |

## Left out

- Generic ids and keys: `I` and `K` are fixed to `int`, and `cmp.Compare` is plain integer comparison.
- The type assertions at fibonacci/heap.go:29-32, 41-44 and 120-123 always succeed whenever the types are concrete, so their error paths are not modelled.
- `Insert`'s `nil` error result is not modelled, because it is always nil for a node of this heap.
- The interfaces of `heaps.go` are not part of this model: they only declare method sets.
- Amortized complexity and the log-phi bound on the degree table are not modelled. Only functional correctness is proved.
- Go's map iteration order in `consolidate` is a nondeterministic choice of the next degree (`:|`). Every property stated holds for any order.
- Calls outside the source's contract are preconditions, not modelled crashes:
  - `DecreaseKey` on a node of another heap or on an empty heap;
  - `Insert` of a node that is already in a heap;
  - `Meld` of a heap with itself.
- Meld requires that both heaps share one memory and have disjoint nodes, which is how Go pointers behave. After a meld the other heap shares the nodes and is not specified further, because the source does not empty it.
- `Client.MeldSort` is not in `cmd/main.go`: it exercises `Meld` on two heaps filled over one memory.
- Fields left stale on a popped node (`child`, `left`, `right`, `degree`) are not specified.
- Pointers are addresses into one `Arena`. Garbage collection and Go's aliasing of unrelated objects are not modelled.
- `cmd/main.go`'s random data, its infinite loop and its printing are left out. The model keeps its insert-then-pop loop and its sortedness check. The length check is also stated.
- Fibonacci.Heap.PopMin: the fact that every former child of the popped node becomes a root with parent nil is stated on `Promote`, not on `PopMin`'s final state, because `consolidate` may link those roots again right after.
- Nodes.GetKey: has no contract of its own. That it reflects a successful `DecreaseKey` is stated in `DecreaseKey`'s contract.
- Nodes.GetID: has no contract of its own. That no operation ever writes `id` is stated as `arena.id` unchanged in every heap operation's contract.
