// The Fibonacci heap of fibonacci/heap.go: a mergeable min-priority queue
// whose trees hang off a circular root list, with a cached minimal root.
module Fibonacci {
  import opened Nodes
  import opened Rings
  import opened Trees
  import opened Splices
  import opened Frames
  import opened Promotion
  import opened Consolidation

  datatype Error = EmptyHeap | InvalidArgument

  datatype Result<T> = Ok(value: T) | Err(error: Error)

  class Heap {
    /** The memory holding this heap's nodes (shared with heaps it melds with). */
    const arena: Arena
    var root: int
    var size: int
    ghost var shape: Shape

    ghost predicate Valid()
      reads this, arena
    {
      Inv(arena.Memory(), shape, root, size)
    }

    /** The abstract value: each node of the heap with its key. */
    ghost function Model(): map<int, int>
      reads this, arena
    {
      KeyMap(arena.key, shape.nodes)
    }

    /** `NewHeap`: an empty heap over the given memory. */
    constructor (mem: Arena)
      requires Sized(mem.Memory())
      ensures arena == mem && Valid()
      ensures root == Nil && size == 0 && shape.nodes == {} && Model() == map[]
    {
      arena := mem;
      root := Nil;
      size := 0;
      shape := Shape({}, [], map[], map[], 0);
    }

    /** `Size`: the number of nodes in the heap. */
    function Size(): (n: int)
      reads this, arena
      requires Valid()
      ensures n == |shape.nodes| && n == |Model()|
      ensures n == 0 <==> root == Nil
    {
      RootsIffNodes(arena.Memory(), shape);
      KeyMapSize(arena.key, shape.nodes);
      size
    }

    /** `Meld`: moves the nodes of `other`, a heap over the same memory, into
        this heap. An empty receiver takes over `other`'s entry and count, an
        empty `other` changes nothing, and otherwise the two root lists are
        spliced and `other`'s entry wins only with a strictly smaller key. */
    method Meld(other: Heap)
      requires Valid() && other.Valid() && other != this && other.arena == arena
      requires shape.nodes !! other.shape.nodes
      modifies this, arena
      ensures old(root) == Nil ==>
        arena.Memory() == old(arena.Memory()) && root == other.root && size == other.size && shape == other.shape
      ensures old(root) != Nil && other.root == Nil ==>
        arena.Memory() == old(arena.Memory()) && root == old(root) && size == old(size) && shape == old(shape)
      ensures old(root) != Nil && other.root != Nil ==>
        0 <= old(root) < |arena.key| && 0 <= other.root < |arena.key| &&
        var first := arena.key[other.root] < arena.key[old(root)];
        arena.Memory() == SpliceMem(old(arena.Memory()), old(root), other.root) &&
        root == (if first then other.root else old(root)) && size == old(size) + other.size &&
        shape == MeldShape(old(shape), other.shape,
                           if first then other.shape.roots + old(shape.roots) else old(shape.roots) + other.shape.roots)
      ensures Valid() && shape.nodes == old(shape.nodes) + other.shape.nodes
      ensures Model() == old(Model()) + old(other.Model())
      ensures arena.id == old(arena.id) && arena.key == old(arena.key)
      ensures Kept(old(arena.Memory()), arena.Memory(), old(shape.nodes) + other.shape.nodes)
    {
      KeyMapUnion(arena.key, shape.nodes, other.shape.nodes);
      KeptRefl(arena.Memory(), shape.nodes + other.shape.nodes);
      RootsIffNodes(arena.Memory(), shape);
      RootsIffNodes(arena.Memory(), other.shape);
      if root == Nil {
        root := other.root;
        size := other.size;
        shape := other.shape;
        return;
      }
      if other.root == Nil {
        return;
      }
      ghost var m := arena.Memory();
      ghost var sh, entry := MeldKeeps(m, shape, other.shape, root, other.root);
      MeldKept(m, shape, other.shape, root, other.root);
      size := size + other.size;
      Splice(root, other.root);
      assert arena.key == m.key;
      if arena.key[other.root] < arena.key[root] {
        root := other.root;
      }
      assert root == entry;
      shape := sh;
    }

    /** The four stores with which `Meld` and `PopMin` join the ring entered
        at `b` into the ring entered at `a`, just before `a`. */
    method Splice(a: int, b: int)
      requires SpliceReady(arena.Memory(), a, b)
      modifies arena
      ensures arena.Memory() == SpliceMem(old(arena.Memory()), a, b)
    {
      var last := arena.left[b];
      arena.left := arena.left[b := arena.left[a]];
      arena.right := arena.right[arena.left[a] := b];
      arena.left := arena.left[a := last];
      arena.right := arena.right[arena.left[a] := a];
    }

    /** `FindMin`: the minimal root, or `EmptyHeap` when there are no nodes. */
    method FindMin() returns (r: Result<int>)
      requires Valid()
      ensures r.Err? <==> size == 0
      ensures r.Err? ==> r.error == EmptyHeap
      ensures r.Ok? ==> r.value == root && r.value in shape.nodes
      ensures r.Ok? ==> forall x :: x in shape.nodes ==> arena.key[r.value] <= arena.key[x]
    {
      if size == 0 {
        return Err(EmptyHeap);
      }
      RootsIffNodes(arena.Memory(), shape);
      RootIsMin(arena.Memory(), shape, root);
      r := Ok(root);
    }

    /** `addToRoot`: puts `n` into the root list just before the entry `root`,
        or makes it the only root; `n` becomes the entry when its key is
        strictly smaller (ties keep the existing root). */
    method AddToRoot(n: int)
      requires Addr(arena.Memory(), n)
      requires root != Nil ==> Addr(arena.Memory(), root) && Addr(arena.Memory(), arena.left[root]) && n != root
      modifies this`root, arena
      ensures arena.Memory() == PushMem(old(arena.Memory()), old(root), n)
      ensures root == PushEntry(arena.key, old(root), n)
    {
      if root == Nil {
        root := n;
        arena.left := arena.left[n := n];
        arena.right := arena.right[n := n];
        return;
      }
      arena.left := arena.left[n := arena.left[root]];
      arena.right := arena.right[n := root];
      arena.right := arena.right[arena.left[root] := n];
      arena.left := arena.left[root := n];
      if arena.key[n] < arena.key[root] {
        root := n;
      }
    }

    /** `Insert`: counts a standalone node and adds it to the root list. */
    method Insert(n: int)
      requires Valid()
      requires n !in shape.nodes && Standalone(arena.Memory(), n)
      modifies this, arena
      ensures Valid()
      ensures shape.nodes == old(shape.nodes) + {n} && n in shape.roots
      ensures Model() == old(Model())[n := arena.key[n]]
      ensures size == old(size) + 1
      ensures root == if old(root) == Nil || arena.key[n] < arena.key[old(root)] then n else old(root)
      ensures arena.id == old(arena.id) && arena.key == old(arena.key)
      ensures PushReady(old(arena.Memory()), old(root), n) &&
        arena.Memory() == PushMem(old(arena.Memory()), old(root), n)
      ensures Kept(old(arena.Memory()), arena.Memory(), old(shape.nodes) + {n})
    {
      InsertKept(arena.Memory(), shape, root, size, n);
      ghost var sh := InsertKeeps(arena.Memory(), shape, root, size, n);
      size := size + 1;
      AddToRoot(n);
      shape := sh;
    }
  
    /** `removeFromRoot`: unlinks `n` from its sibling ring, moving the
        entry to its right neighbour first when `n` is the entry. */
    method RemoveFromRoot(n: int)
      requires UnlinkReady(arena.Memory(), n)
      modifies this`root, arena
      ensures arena.Memory() == UnlinkMem(old(arena.Memory()), n)
      ensures root == UnlinkEntry(old(arena.right), old(root), n)
    {
      if root == n {
        root := arena.right[n];
      }
      arena.right := arena.right[arena.left[n] := arena.right[n]];
      arena.left := arena.left[arena.right[n] := arena.left[n]];
    }

    /** `link`: takes the root `y` off the root list and makes it a child of
        `x`, right after `x.child` or as its only child. */
    method Link(x: int, y: int)
      requires LinkReady(arena.Memory(), x, y)
      modifies this`root, arena
      ensures arena.Memory() == LinkMem(old(arena.Memory()), x, y)
      ensures root == UnlinkEntry(old(arena.right), old(root), y)
    {
      RemoveFromRoot(y);
      if arena.child[x] == Nil {
        arena.child := arena.child[x := y];
        arena.left := arena.left[y := y];
        arena.right := arena.right[y := y];
      } else {
        arena.right := arena.right[y := arena.right[arena.child[x]]];
        arena.left := arena.left[y := arena.child[x]];
        arena.left := arena.left[arena.right[arena.child[x]] := y];
        arena.right := arena.right[arena.child[x] := y];
      }
      arena.parent := arena.parent[y := x];
      arena.degree := arena.degree[x := arena.degree[x] + 1];
      arena.marked := arena.marked[y := false];
    }
  
    /** `cut`: moves `n` from the children of `p` to the root list. */
    method Cut(p: int, n: int)
      requires CutReady(arena.Memory(), root, p, n)
      modifies this`root, arena
      ensures arena.Memory() == CutMem(old(arena.Memory()), old(root), p, n)
      ensures root == PushEntry(arena.key, old(root), n)
    {
      if arena.child[p] == arena.right[arena.child[p]] {
        arena.child := arena.child[p := Nil];
      } else if arena.child[p] == n {
        arena.child := arena.child[p := arena.right[n]];
      }
      arena.right := arena.right[arena.left[n] := arena.right[n]];
      arena.left := arena.left[arena.right[n] := arena.left[n]];
      AddToRoot(n);
      arena.degree := arena.degree[p := arena.degree[p] - 1];
      arena.parent := arena.parent[n := Nil];
      arena.marked := arena.marked[n := false];
    }

    /** `cascadingCut`, with the recursion on the parent as a loop. */
    method CascadingCut(node: int)
      requires Valid() && node in shape.nodes
      modifies this, arena
      ensures var r := Cascade(old(arena.Memory()), old(shape), old(root), node);
        arena.Memory() == r.mem && root == r.root && shape == r.shape
      ensures Valid() && size == old(size)
      ensures Kept(old(arena.Memory()), arena.Memory(), old(shape.nodes))
    {
      CascadeKept(arena.Memory(), shape, root, node);
      ghost var target := Cascade(arena.Memory(), shape, root, node);
      var x := node;
      while arena.parent[x] != Nil && arena.marked[x]
        invariant Valid() && x in shape.nodes && size == old(size)
        invariant Cascade(arena.Memory(), shape, root, x) == target
        decreases shape.bound - shape.rank[x]
      {
        x := CutMarked(x);
      }
      if arena.parent[x] != Nil {
        MarkKeeps(arena.Memory(), shape, root, x, true);
        arena.marked := arena.marked[x := true];
      }
    }

    /** One round of `cascadingCut`: the marked non-root `x` is cut from its
        parent, and the cascade goes on at the parent. */
    method CutMarked(x: int) returns (parent: int)
      requires Valid() && x in shape.nodes && 0 <= x < |arena.key| && arena.parent[x] != Nil && arena.marked[x]
      modifies this`root, this`shape, arena
      ensures Valid() && parent == old(arena.parent[x]) && parent in shape.nodes
      ensures Cascade(arena.Memory(), shape, root, parent) == old(Cascade(arena.Memory(), shape, root, x))
      ensures shape.rank == old(shape.rank) && shape.bound == old(shape.bound)
      ensures 0 <= shape.bound - shape.rank[parent] < shape.bound - shape.rank[x]
      ensures CutReady(old(arena.Memory()), old(root), parent, x) &&
        arena.Memory() == CutMem(old(arena.Memory()), old(root), parent, x)
    {
      parent := arena.parent[x];
      ghost var m := arena.Memory();
      CascadeStep(m, shape, root, x);
      ghost var sh := CutShape(shape, m.key, root, parent, x);
      Cut(parent, x);
      shape := sh;
    }

    /** `DecreaseKey`: lowers the key of `n` to `k`; a larger key is refused
        and changes nothing, an equal key changes nothing. */
    method DecreaseKey(n: int, k: int) returns (r: Result<()>)
      requires Valid() && n in shape.nodes
      modifies this, arena
      ensures r.Err? <==> old(arena.key[n]) < k
      ensures r.Err? ==> r.error == InvalidArgument
      ensures old(arena.key[n]) <= k ==>
        arena.Memory() == old(arena.Memory()) && root == old(root) && shape == old(shape)
      ensures k < old(arena.key[n]) ==>
        var s := Decrease(old(arena.Memory()), old(shape), old(root), n, k);
        arena.Memory() == s.mem && root == s.root && shape == s.shape
      ensures Valid() && size == old(size) && shape.nodes == old(shape.nodes)
      ensures r.Ok? ==> Model() == old(Model())[n := k]
      ensures arena.id == old(arena.id)
      ensures 0 <= n < |arena.key|
      ensures GetKey(arena.NodeAt(n)) == if r.Ok? then k else old(GetKey(arena.NodeAt(n)))
      ensures GetID(arena.NodeAt(n)) == old(GetID(arena.NodeAt(n)))
      ensures Kept(old(arena.Memory()), arena.Memory(), old(shape.nodes))
    {
      assert NodeOk(arena.Memory(), shape, n);
      if arena.key[n] < k {
        KeptRefl(arena.Memory(), shape.nodes);
        return Err(InvalidArgument);
      }
      if arena.key[n] == k {
        KeptRefl(arena.Memory(), shape.nodes);
        assert arena.key[n := k] == arena.key;
        KeyMapSet(arena.key, shape.nodes, n, k);
        return Ok(());
      }
      KeyMapSet(arena.key, shape.nodes, n, k);
      LowerKey(n, k);
      r := Ok(());
    }

    /** What `DecreaseKey` does once `k` is below the key of `n`: the key
        update and cut, after which `n` becomes the entry if it beats it. */
    method LowerKey(n: int, k: int)
      requires Valid() && n in shape.nodes && 0 <= n < |arena.key| && k < arena.key[n]
      modifies this, arena
      ensures var s := Decrease(old(arena.Memory()), old(shape), old(root), n, k);
        arena.Memory() == s.mem && root == s.root && shape == s.shape
      ensures size == old(size)
      ensures Kept(old(arena.Memory()), arena.Memory(), old(shape.nodes))
    {
      ghost var m0, sh0, root0 := arena.Memory(), shape, root;
      DecreaseSteps(m0, sh0, root0, n, k);
      DecreaseKept(m0, sh0, root0, n, k);
      ghost var s := Decrease(m0, sh0, root0, n, k);
      Lower(n, k);
      if arena.key[n] < arena.key[root] {
        root := n;
      }
      shape := s.shape;
    }

    /** The key update and cut of `DecreaseKey`, once `k` is below the key of `n`. */
    method Lower(n: int, k: int)
      requires Valid() && n in shape.nodes && 0 <= n < |arena.key| && k < arena.key[n]
      modifies this, arena
      ensures var t := DecreaseCut(old(arena.Memory()), old(shape), old(root), n, k);
        arena.Memory() == t.mem && root == t.root && shape == t.shape
      ensures size == old(size)
    {
      ghost var m0 := arena.Memory();
      assert NodeOk(m0, shape, n);
      arena.key := arena.key[n := k];
      var parent := arena.parent[n];
      if parent != Nil && arena.key[n] < arena.key[parent] {
        ghost var m := arena.Memory();
        assert Beats(m0, n, k);
        DecreaseCutStep(m0, shape, root, n, k);
        ghost var sh := CutShape(shape, m.key, root, parent, n);
        Cut(parent, n);
        shape := sh;
        CascadingCut(parent);
      }
    }

    /** `PopMin`: removes the minimal root and returns it, or `EmptyHeap`
        when there are no nodes (and then nothing changes). The last node
        leaves an empty heap; otherwise the children of the minimum become
        roots and the root list is consolidated. */
    method PopMin() returns (r: Result<int>)
      requires Valid()
      modifies this, arena
      ensures r.Err? <==> old(size) == 0
      ensures r.Err? ==> r.error == EmptyHeap
      ensures r.Err? ==>
                arena.Memory() == old(arena.Memory()) && root == old(root) && size == old(size) && shape == old(shape)
      ensures r.Ok? ==> r.value == old(root) && r.value in old(shape.nodes) && 0 <= r.value < |arena.key|
      ensures r.Ok? ==> forall x :: x in old(shape.nodes) ==> 0 <= x < |arena.key| && arena.key[r.value] <= arena.key[x]
      ensures r.Ok? ==> size == old(size) - 1 && shape.nodes == old(shape.nodes) - {r.value}
      ensures r.Ok? ==> Model() == old(Model()) - {r.value}
      ensures r.Ok? && old(size) >= 2 ==> DistinctDegrees(arena.degree, shape.roots)
      ensures Valid() && arena.key == old(arena.key) && arena.id == old(arena.id)
      ensures Kept(old(arena.Memory()), arena.Memory(), old(shape.nodes))
    {
      var minNode := root;
      KeptRefl(arena.Memory(), shape.nodes);
      if size == 0 {
        return Err(EmptyHeap);
      }
      RootsIffNodes(arena.Memory(), shape);
      RootIsMin(arena.Memory(), shape, root);
      KeyMapRemove(arena.key, shape.nodes, minNode);
      assert minNode in shape.nodes by {
        assert shape.roots[0] in shape.nodes;
      }
      if size == 1 {
        assert shape.nodes - {minNode} == {} by {
          assert |shape.nodes - {minNode}| == |shape.nodes| - 1;
        }
        root := Nil;
        size := 0;
        shape := shape.(nodes := {}, roots := []);
        return Ok(minNode);
      }
      assert NodeOk(arena.Memory(), shape, minNode);
      ghost var m0, nodes0 := arena.Memory(), shape.nodes;
      Promote();
      ghost var m1 := arena.Memory();
      ghost var walk, table := Consolidate();
      KeptTrans(m0, m1, arena.Memory(), nodes0, nodes0 - {minNode});
      size := size - 1;
      r := Ok(minNode);
    }

    /** The first half of `PopMin` on a heap of at least two nodes: the loop
        `for child.parent != nil` clears the parent of every child of the
        entry, their ring is spliced in before the entry, and the entry is
        unlinked; the former children are now roots with no parent. */
    method Promote()
      requires Valid() && size >= 2 && root in shape.kids
      modifies this`root, this`shape, arena
      ensures Promotable(old(arena.Memory()), old(shape.roots), old(shape.kids[root]))
      ensures arena.Memory() == PromoteMem(old(arena.Memory()), old(shape.roots), old(shape.kids[root]))
      ensures shape == PromoteShape(old(shape), old(root)) && root == First(shape.roots) && root != Nil
      ensures Forest(arena.Memory(), shape) && HeapOrdered(arena.Memory(), shape)
      ensures shape.nodes == old(shape.nodes) - {old(root)} && |shape.nodes| == size - 1
      ensures forall i :: 0 <= i < |old(shape.kids[root])| ==>
        arena.parent[old(shape.kids[root])[i]] == Nil && old(shape.kids[root])[i] in shape.roots
      ensures arena.key == old(arena.key) && arena.id == old(arena.id)
      ensures Kept(old(arena.Memory()), arena.Memory(), old(shape.nodes))
    {
      var minNode := root;
      ghost var m0, sh0 := arena.Memory(), shape;
      PromoteStart(m0, shape, root, size);
      PromoteKeeps(m0, shape, root, size);
      PromoteKept(m0, shape, root, size);
      LiftChildren(shape.roots, shape.kids[root]);
      shape := PromoteShape(sh0, minNode);
    }

    /** The pointer work of `PopMin` before `consolidate`: the children of
        the minimum `root` (ring `ks`) lose their parent and are spliced into
        the root ring `s`, and the minimum is unlinked from it. */
    method LiftChildren(ghost s: seq<int>, ghost ks: seq<int>)
      requires Promotable(arena.Memory(), s, ks) && |s| + |ks| >= 2
      requires root != Nil && root == s[0] && Addr(arena.Memory(), root) && arena.child[root] == First(ks)
      requires forall i :: 0 <= i < |ks| ==> arena.parent[ks[i]] == root
      modifies this`root, arena
      ensures arena.Memory() == PromoteMem(old(arena.Memory()), s, ks)
      ensures root == First(s[1..] + ks)
    {
      var minNode := root;
      ghost var m0 := arena.Memory();
      if arena.child[minNode] != Nil {
        var child := ClearParents(minNode, ks);
        SplicedRing(m0, s, ks);
        Splice(minNode, child);
      } else {
        assert ks == [];
        assert Cleared(m0.parent, ks, 0) == m0.parent;
        assert m0.(parent := Cleared(m0.parent, ks, |ks|)) == m0;
      }
      PromoteRing(m0, s, ks);
      RemoveFromRoot(minNode);
    }

    /** The loop `for child.parent != nil` of `PopMin`: starting at `p.child`,
        it clears the parent of each child of `p` in ring order and stops
        back at the first child. */
    method ClearParents(p: int, ghost ks: seq<int>) returns (child: int)
      requires Sized(arena.Memory()) && IsRing(arena.left, arena.right, ks) && ks != []
      requires p != Nil && 0 <= p < |arena.child| && arena.child[p] == ks[0]
      requires forall i :: 0 <= i < |ks| ==> arena.parent[ks[i]] == p
      modifies arena
      ensures child == ks[0]
      ensures arena.Memory() == old(arena.Memory()).(parent := Cleared(old(arena.parent), ks, |ks|))
    {
      ghost var m0 := arena.Memory();
      child := arena.child[p];
      ghost var j := 0;
      ClearDone(m0.parent, ks);
      ClearStep(m0, ks, 0, p);
      assert Cleared(m0.parent, ks, 0) == m0.parent;
      while arena.parent[child] != Nil
        invariant 0 <= j <= |ks| && (j < |ks| ==> child == ks[j]) && (j == |ks| ==> child == ks[0])
        invariant arena.Memory() == m0.(parent := Cleared(m0.parent, ks, j))
        invariant j < |ks| ==> Cleared(m0.parent, ks, j)[ks[j]] == p
        decreases |ks| - j
      {
        ClearStep(m0, ks, j, p);
        arena.parent := arena.parent[child := Nil];
        child := arena.right[child];
        j := j + 1;
        if j < |ks| {
          ClearStep(m0, ks, j, p);
        }
      }
    }

    /** `consolidate`: walks the root list once from the entry, linking roots
        of equal degree (the root with the strictly smaller key becomes the
        parent, so on ties the tree being walked stays on top), and then
        rebuilds the root list from the roots left in `degreeToRoot`. */
    method Consolidate() returns (ghost walk: seq<int>, ghost table: map<int, int>)
      requires Forest(arena.Memory(), shape) && HeapOrdered(arena.Memory(), shape)
      requires root == First(shape.roots) && root != Nil
      modifies this`root, this`shape, arena
      ensures walk == old(shape.roots)
      ensures Sound(arena.Memory(), shape, root) && shape.nodes == old(shape.nodes)
      ensures TableOk(arena.degree, shape.roots, table, Nil) && DistinctDegrees(arena.degree, shape.roots)
      ensures arena.key == old(arena.key) && arena.id == old(arena.id)
      ensures Kept(old(arena.Memory()), arena.Memory(), old(shape.nodes))
    {
      var degreeToRoot;
      ghost var m0, nodes0 := arena.Memory(), shape.nodes;
      WalkStart(arena.Memory(), shape);
      walk, degreeToRoot := Walk();
      ghost var m1 := arena.Memory();
      table := degreeToRoot;
      Rebuild(degreeToRoot);
      KeptTrans(m0, m1, arena.Memory(), nodes0, nodes0);
    }

    /** The walk of `consolidate`: from the entry, each root of the list is
        visited once, in `right` order, and linked with the roots of equal
        degree met so far; `degreeToRoot` ends with one root per degree. */
    method Walk() returns (ghost walk: seq<int>, degreeToRoot: map<int, int>)
      requires Walking(arena.Memory(), shape, shape.nodes, arena.key, arena.id, [], shape.roots, 0, map[])
      requires root == shape.roots[0]
      modifies this`root, this`shape, arena
      ensures walk == old(shape.roots)
      ensures Gathered(arena.Memory(), shape, old(shape.nodes), old(arena.key), old(arena.id), degreeToRoot)
      ensures Kept(old(arena.Memory()), arena.Memory(), old(shape.nodes))
    {
      ghost var S, nodes0, key0, id0 := shape.roots, shape.nodes, arena.key, arena.id;
      ghost var m0 := arena.Memory();
      KeptRefl(m0, nodes0);
      degreeToRoot := map[];
      RingLinks(arena.left, arena.right, S, 0);
      var current, last := root, arena.left[root];
      ghost var P: seq<int> := [];
      ghost var i := 0;
      walk := [];
      while true
        invariant Walking(arena.Memory(), shape, nodes0, key0, id0, P, S, i, degreeToRoot)
        invariant current == S[i] && last == S[|S| - 1] && Visited(walk, S, i)
        invariant Kept(m0, arena.Memory(), nodes0)
        decreases |S| - i
      {
        var right;
        ghost var m := arena.Memory();
        right, degreeToRoot, P := Absorb(current, degreeToRoot, P, S, i, walk, nodes0, key0, id0);
        KeptTrans(m0, m, arena.Memory(), nodes0, nodes0);
        walk := walk + [current];
        if current == last {
          break;
        }
        current := right;
        i := i + 1;
      }
    }

    /** One round of the outer loop of `consolidate`: the root `current`
        is linked with the equal-degree trees of the table until its degree
        is free, and is then entered in the table. */
    method Absorb(current: int, table0: map<int, int>, ghost P0: seq<int>, ghost S: seq<int>, ghost i: int,
                  ghost w: seq<int>, ghost nodes0: set<int>, ghost key0: seq<int>, ghost id0: seq<int>)
      returns (right: int, table: map<int, int>, ghost P: seq<int>)
      requires Walking(arena.Memory(), shape, nodes0, key0, id0, P0, S, i, table0)
      requires current == S[i] && Visited(w, S, i)
      modifies this`root, this`shape, arena
      ensures i + 1 < |S| ==> right == S[i + 1]
      ensures current == S[|S| - 1] <==> i + 1 == |S|
      ensures i + 1 < |S| ==>
                Walking(arena.Memory(), shape, nodes0, key0, id0, P, S, i + 1, table) && Visited(w + [current], S, i + 1)
      ensures i + 1 == |S| ==> Gathered(arena.Memory(), shape, nodes0, key0, id0, table) && w + [current] == S
      ensures Kept(old(arena.Memory()), arena.Memory(), nodes0)
    {
      WalkEnter(arena.Memory(), shape, nodes0, key0, id0, P0, S, i, table0);
      right := arena.right[current];
      var x, degree;
      x, degree, table, P := LinkEqual(current, arena.degree[current], table0, P0 + [current], S[i + 1..],
                                       nodes0, key0, id0);
      WalkLeave(arena.Memory(), shape, nodes0, key0, id0, P, S, i, table, x, degree, w);
      table := table[degree := x];
    }

    /** The inner loop of `consolidate`: while the table holds a tree of
        the degree of `x`, the two are linked and the survivor carries on
        with the next degree. */
    method LinkEqual(x0: int, degree0: int, table0: map<int, int>, ghost P0: seq<int>, ghost T: seq<int>,
                     ghost nodes0: set<int>, ghost key0: seq<int>, ghost id0: seq<int>)
      returns (x: int, degree: int, table: map<int, int>, ghost P: seq<int>)
      requires Linking(arena.Memory(), shape, nodes0, key0, id0, P0, T, table0, x0, degree0)
      modifies this`root, this`shape, arena
      ensures Linking(arena.Memory(), shape, nodes0, key0, id0, P, T, table, x, degree) && degree !in table
      ensures Kept(old(arena.Memory()), arena.Memory(), nodes0)
    {
      x, degree, table, P := x0, degree0, table0, P0;
      KeptRefl(arena.Memory(), nodes0);
      while degree in table
        invariant Linking(arena.Memory(), shape, nodes0, key0, id0, P, T, table, x, degree)
        invariant Kept(old(arena.Memory()), arena.Memory(), nodes0)
        decreases |table|
      {
        ghost var m := arena.Memory();
        x, degree, table, P := LinkOnce(x, degree, table, P, T, nodes0, key0, id0);
        KeptTrans(old(arena.Memory()), m, arena.Memory(), nodes0, nodes0);
      }
    }

    /** One round of the inner loop: `x` and the table's tree of the same
        degree are linked under the one with the smaller key (`x` on a tie),
        and the survivor goes on with the next degree. */
    method LinkOnce(x0: int, degree0: int, table0: map<int, int>, ghost P0: seq<int>, ghost T: seq<int>,
                    ghost nodes0: set<int>, ghost key0: seq<int>, ghost id0: seq<int>)
      returns (x: int, degree: int, table: map<int, int>, ghost P: seq<int>)
      requires Linking(arena.Memory(), shape, nodes0, key0, id0, P0, T, table0, x0, degree0) && degree0 in table0
      modifies this`root, this`shape, arena
      ensures Linking(arena.Memory(), shape, nodes0, key0, id0, P, T, table, x, degree)
      ensures table == table0 - {degree0} && degree == degree0 + 1
      ensures x == Order(old(arena.key), x0, table0[degree0]).0
      ensures Kept(old(arena.Memory()), arena.Memory(), nodes0)
    {
      ghost var a, b;
      P, a, b := LinkNext(arena.Memory(), shape, nodes0, key0, id0, P0, T, table0, x0, degree0);
      var (parent, child) := Order(arena.key, x0, table0[degree0]);
      assert parent == a && child == b;
      ghost var sh := LinkShape(shape, parent, child);
      Link(parent, child);
      shape := sh;
      table := table0 - {degree0};
      x := parent;
      degree := degree0 + 1;
    }

    /** The end of `consolidate`: the root list is rebuilt by adding the
        roots of `table` one at a time, in no particular order. */
    method Rebuild(table: map<int, int>)
      requires Gathered(arena.Memory(), shape, shape.nodes, arena.key, arena.id, table)
      modifies this`root, this`shape, arena
      ensures Sound(arena.Memory(), shape, root) && shape == old(shape).(roots := shape.roots)
      ensures TableOk(arena.degree, shape.roots, table, Nil) && DistinctDegrees(arena.degree, shape.roots)
      ensures arena.key == old(arena.key) && arena.id == old(arena.id)
      ensures Kept(old(arena.Memory()), arena.Memory(), old(shape.nodes))
    {
      ghost var shape0, key0, id0 := shape, arena.key, arena.id;
      RebuildStart(arena.Memory(), shape, table);
      KeptRefl(arena.Memory(), shape0.nodes);
      root := Nil;
      var rest := table;
      ghost var R: seq<int> := [];
      while rest != map[]
        invariant Rebuilding(arena.Memory(), shape, key0, id0, R, root, rest, table) && shape == shape0
        invariant Kept(old(arena.Memory()), arena.Memory(), shape0.nodes)
        decreases |rest|
      {
        KeyExists(rest);
        var d :| d in rest;
        ghost var m := arena.Memory();
        RebuildStep(arena.Memory(), shape, key0, id0, R, root, rest, table, d);
        RebuildKept(arena.Memory(), shape, key0, id0, R, root, rest, table, d);
        R := PushRoots(arena.key, R, root, rest[d]);
        AddToRoot(rest[d]);
        KeptTrans(old(arena.Memory()), m, arena.Memory(), shape0.nodes, shape0.nodes);
        rest := rest - {d};
      }
      RebuildEnd(arena.Memory(), shape, R, root, table);
      shape := shape.(roots := R);
    }
  }
}
