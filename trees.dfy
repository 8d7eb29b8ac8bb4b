// The shape of a Fibonacci heap: a ring of roots, and for every node the ring
// of its children, all threaded through the node memory.
//
// `Shape` is ghost bookkeeping that names the rings as sequences: `roots` is
// the root list read from the heap's `root`, `kids[x]` is the child ring of `x`
// read from `x.child`. `rank` is a height bound (a parent's rank exceeds its
// children's) that makes "walk up through `parent`" a terminating argument.
module Trees {
  import opened Nodes
  import opened Rings

  datatype Shape = Shape(
    nodes: set<int>,
    roots: seq<int>,
    kids: map<int, seq<int>>,
    rank: map<int, int>,
    bound: int)

  /** Every heap node is an address with a child ring and a rank. */
  ghost predicate NodesIn(m: Mem, sh: Shape) {
    forall x :: x in sh.nodes ==> 0 <= x < |m.key| && x in sh.kids && x in sh.rank
  }

  /** The members of the root list are parentless heap nodes. */
  ghost predicate RootsOk(m: Mem, sh: Shape) {
    Sized(m) &&
    forall i :: 0 <= i < |sh.roots| ==>
      sh.roots[i] in sh.nodes && 0 <= sh.roots[i] < |m.key| && m.parent[sh.roots[i]] == Nil
  }

  /** `ks` is the child ring of `x`: `x.child` enters it, `x.degree` counts it,
      and every member points back to `x`. */
  ghost predicate KidRingAt(m: Mem, x: int, ks: seq<int>) {
    Sized(m) && 0 <= x < |m.key| && IsRing(m.left, m.right, ks) &&
    m.degree[x] == |ks| && m.child[x] == First(ks) &&
    forall i :: 0 <= i < |ks| ==> m.parent[ks[i]] == x
  }

  /** Node `x` is well formed: its child ring is `kids[x]` and consists of heap
      nodes, it sits in the root list when it has no parent and otherwise in
      its parent's child ring, and its parent outranks it. */
  ghost predicate NodeOk(m: Mem, sh: Shape, x: int) {
    Sized(m) && 0 <= x < |m.key| && x in sh.kids && x in sh.rank &&
    KidRingAt(m, x, sh.kids[x]) &&
    (forall i :: 0 <= i < |sh.kids[x]| ==> sh.kids[x][i] in sh.nodes) &&
    0 <= sh.rank[x] < sh.bound &&
    (m.parent[x] == Nil ==> x in sh.roots) &&
    (m.parent[x] != Nil ==>
      m.parent[x] in sh.nodes && m.parent[x] in sh.kids && m.parent[x] in sh.rank &&
      x in sh.kids[m.parent[x]] && sh.rank[m.parent[x]] > sh.rank[x])
  }

  /** Every heap node is well formed. The per-node facts are used by naming
      `NodeOk` for a particular node. */
  ghost predicate AllNodesOk(m: Mem, sh: Shape) {
    forall x {:trigger NodeOk(m, sh, x)} :: x in sh.nodes ==> NodeOk(m, sh, x)
  }

  /** The trees without the root list's links: what holds while the root list
      is being rebuilt. */
  ghost predicate Grove(m: Mem, sh: Shape) {
    Sized(m) && NodesIn(m, sh) && RootsOk(m, sh) && AllNodesOk(m, sh)
  }

  /** A heap-shaped collection of trees whose roots form one ring. */
  ghost predicate Forest(m: Mem, sh: Shape) {
    Grove(m, sh) && IsRing(m.left, m.right, sh.roots)
  }

  /** Min-heap order on every parent/child edge, except possibly the edge into `n`. */
  ghost predicate HeapOrderedExcept(m: Mem, sh: Shape, n: int) {
    Sized(m) &&
    forall x :: x in sh.nodes && x != n && 0 <= x < |m.key| && 0 <= m.parent[x] < |m.key| ==>
      m.key[m.parent[x]] <= m.key[x]
  }

  ghost predicate HeapOrdered(m: Mem, sh: Shape) {
    HeapOrderedExcept(m, sh, Nil)
  }

  /** `root` has the least key on the ring `roots`. */
  ghost predicate RootMin(keys: seq<int>, roots: seq<int>, root: int) {
    0 <= root < |keys| &&
    forall i :: 0 <= i < |roots| && 0 <= roots[i] < |keys| ==> keys[root] <= keys[roots[i]]
  }

  /** A root with a smaller key than the least one becomes the least. */
  lemma RootMinPrepend(keys: seq<int>, roots: seq<int>, root: int, n: int)
    requires RootMin(keys, roots, root) && 0 <= n < |keys| && keys[n] < keys[root]
    ensures RootMin(keys, [n] + roots, n)
  {
    forall i | 0 <= i < |[n] + roots| && 0 <= ([n] + roots)[i] < |keys|
      ensures keys[n] <= keys[([n] + roots)[i]]
    {
      if i > 0 {
        assert ([n] + roots)[i] == roots[i - 1];
      }
    }
  }

  /** A root with a key no smaller than the least one leaves the least in place. */
  lemma RootMinAppend(keys: seq<int>, roots: seq<int>, root: int, n: int)
    requires RootMin(keys, roots, root) && 0 <= n < |keys| && keys[root] <= keys[n]
    ensures RootMin(keys, roots + [n], root)
  {
    forall i | 0 <= i < |roots + [n]| && 0 <= (roots + [n])[i] < |keys|
      ensures keys[root] <= keys[(roots + [n])[i]]
    {
      if i < |roots| {
        assert (roots + [n])[i] == roots[i];
      }
    }
  }

  /** No two roots have the same degree (what `consolidate` establishes). */
  ghost predicate DistinctDegrees(degree: seq<int>, roots: seq<int>) {
    forall i, j :: 0 <= i < j < |roots| && 0 <= roots[i] < |degree| && 0 <= roots[j] < |degree| ==>
      degree[roots[i]] != degree[roots[j]]
  }

  /** The heap's `root` pointer is nil exactly when the root list is empty, and
      otherwise is the entry of the root list and a root of least key. */
  ghost predicate RootPtr(m: Mem, sh: Shape, root: int) {
    root == First(sh.roots) && (root != Nil ==> RootMin(m.key, sh.roots, root))
  }

  /** The heap's nodes form heap-ordered trees whose roots are one ring, and
      `root` is a least root. */
  ghost predicate Sound(m: Mem, sh: Shape, root: int) {
    Forest(m, sh) && HeapOrdered(m, sh) && RootPtr(m, sh, root)
  }

  /** What holds of a heap between operations: it is sound and `size`
      counts its nodes. */
  ghost predicate Inv(m: Mem, sh: Shape, root: int, size: int) {
    Sound(m, sh, root) && size == |sh.nodes|
  }

  /** The keys stored at the heap's nodes. */
  ghost function KeyMap(keys: seq<int>, nodes: set<int>): map<int, int> {
    map x | x in nodes && 0 <= x < |keys| :: keys[x]
  }

  lemma KeyMapSize(keys: seq<int>, nodes: set<int>)
    requires forall x :: x in nodes ==> 0 <= x < |keys|
    ensures |KeyMap(keys, nodes)| == |nodes|
  {
    assert KeyMap(keys, nodes).Keys == nodes;
  }

  lemma KeyMapAdd(keys: seq<int>, nodes: set<int>, n: int)
    requires 0 <= n < |keys|
    ensures KeyMap(keys, nodes + {n}) == KeyMap(keys, nodes)[n := keys[n]]
  {
  }

  lemma KeyMapRemove(keys: seq<int>, nodes: set<int>, n: int)
    ensures KeyMap(keys, nodes - {n}) == KeyMap(keys, nodes) - {n}
  {
  }

  lemma KeyMapUnion(keys: seq<int>, a: set<int>, b: set<int>)
    ensures KeyMap(keys, a + b) == KeyMap(keys, a) + KeyMap(keys, b)
  {
  }

  lemma KeyMapSet(keys: seq<int>, nodes: set<int>, n: int, k: int)
    requires 0 <= n < |keys| && n in nodes
    ensures KeyMap(keys[n := k], nodes) == KeyMap(keys, nodes)[n := k]
  {
  }

  /** Walking up through `parent` from any node reaches a root whose key is no
      larger: the heap order is transitive along the acyclic parent links. */
  lemma {:induction false} RootAbove(m: Mem, sh: Shape, x: int) returns (r: int)
    requires Forest(m, sh) && HeapOrdered(m, sh) && x in sh.nodes
    ensures r in sh.roots && m.key[r] <= m.key[x]
    decreases sh.bound - sh.rank[x]
  {
    assert NodeOk(m, sh, x);
    if m.parent[x] == Nil {
      r := x;
    } else {
      r := RootAbove(m, sh, m.parent[x]);
    }
  }

  /** A node that has a parent descends from some root through one of that
      root's children. */
  lemma {:induction false} ChildOfRootAbove(m: Mem, sh: Shape, x: int) returns (y: int)
    requires Grove(m, sh) && x in sh.nodes && m.parent[x] != Nil
    ensures y in sh.nodes && m.parent[y] in sh.roots && m.parent[y] in sh.kids
    ensures y in sh.kids[m.parent[y]]
    decreases sh.bound - sh.rank[x]
  {
    assert NodeOk(m, sh, x);
    var p := m.parent[x];
    assert NodeOk(m, sh, p);
    if m.parent[p] == Nil {
      y := x;
    } else {
      y := ChildOfRootAbove(m, sh, p);
    }
  }

  /** The minimal root holds the least key of the whole heap. */
  lemma RootIsMin(m: Mem, sh: Shape, root: int)
    requires Forest(m, sh) && HeapOrdered(m, sh) && RootMin(m.key, sh.roots, root)
    ensures forall x :: x in sh.nodes ==> m.key[root] <= m.key[x]
  {
    forall x | x in sh.nodes ensures m.key[root] <= m.key[x] {
      var r := RootAbove(m, sh, x);
      var i :| 0 <= i < |sh.roots| && sh.roots[i] == r;
    }
  }

  /** A heap with a node has a root. */
  lemma RootsNonEmpty(m: Mem, sh: Shape, x: int)
    requires Grove(m, sh) && x in sh.nodes
    ensures sh.roots != []
  {
    assert NodeOk(m, sh, x);
    if m.parent[x] != Nil {
      var y := ChildOfRootAbove(m, sh, x);
    }
  }

  /** The root list is empty exactly when the heap has no nodes. */
  lemma RootsIffNodes(m: Mem, sh: Shape)
    requires Grove(m, sh)
    ensures sh.roots == [] <==> sh.nodes == {}
  {
    if sh.roots == [] {
      forall x | x in sh.nodes ensures false {
        RootsNonEmpty(m, sh, x);
      }
    } else {
      assert sh.roots[0] in sh.nodes;
    }
  }

  /** `NodeOk` depends only on the node's own links, its child ring's links and
      the shape entries it mentions: the node may move (to another parent, or
      to the roots) as long as the new shape places it there. */
  lemma NodeOkFrame(m: Mem, m': Mem, sh: Shape, sh': Shape, x: int)
    requires NodeOk(m, sh, x) && Sized(m') && |m'.key| == |m.key|
    requires x in sh'.kids && sh'.kids[x] == sh.kids[x]
    requires x in sh'.rank && sh'.rank[x] == sh.rank[x] && sh.bound <= sh'.bound
    requires forall i :: 0 <= i < |sh.kids[x]| ==> sh.kids[x][i] in sh'.nodes
    requires m'.child[x] == m.child[x] && m'.degree[x] == m.degree[x]
    requires forall i :: 0 <= i < |sh.kids[x]| ==>
      var y := sh.kids[x][i];
      m'.left[y] == m.left[y] && m'.right[y] == m.right[y] && m'.parent[y] == m.parent[y]
    requires m'.parent[x] == Nil ==> x in sh'.roots
    requires m'.parent[x] != Nil ==>
      m'.parent[x] in sh'.nodes && m'.parent[x] in sh'.kids && m'.parent[x] in sh'.rank &&
      x in sh'.kids[m'.parent[x]] && sh'.rank[m'.parent[x]] > sh'.rank[x]
    ensures NodeOk(m', sh', x)
  {
    RingFrame(m.left, m.right, m'.left, m'.right, sh.kids[x]);
  }

  /** The fields the heap's invariant reads agree at every node of `nodes`. */
  ghost predicate SameAt(m: Mem, m': Mem, nodes: set<int>) {
    Sized(m) && Sized(m') && |m.key| <= |m'.key| &&
    forall x :: x in nodes ==>
      0 <= x < |m.key| && m'.key[x] == m.key[x] && m'.left[x] == m.left[x] && m'.right[x] == m.right[x] &&
      m'.parent[x] == m.parent[x] && m'.child[x] == m.child[x] && m'.degree[x] == m.degree[x]
  }

  /** A memory that keeps every record outside `S` keeps those of a heap
      whose nodes lie outside `S`. */
  lemma SameAtNodes(m: Mem, m': Mem, sh: Shape, S: set<int>)
    requires NodesIn(m, sh) && Kept(m, m', S) && S !! sh.nodes
    ensures SameAt(m, m', sh.nodes)
  {
    KeptAt(m, m', S);
    forall x | x in sh.nodes ensures At(m', x) == At(m, x) {
      assert x !in S;
    }
  }

  lemma NodeKept(m: Mem, m': Mem, sh: Shape, x: int)
    requires NodeOk(m, sh, x) && x in sh.nodes && SameAt(m, m', sh.nodes)
    ensures NodeOk(m', sh, x)
  {
    RingFrame(m.left, m.right, m'.left, m'.right, sh.kids[x]);
  }

  /** A heap's invariant and its keys depend only on the records at its own
      nodes: writes elsewhere in the shared memory, and allocations, keep the
      heap exactly as it was. */
  lemma InvKept(m: Mem, m': Mem, sh: Shape, root: int, size: int, S: set<int>)
    requires Inv(m, sh, root, size) && Kept(m, m', S) && S !! sh.nodes
    ensures Inv(m', sh, root, size) && KeyMap(m'.key, sh.nodes) == KeyMap(m.key, sh.nodes)
  {
    SameAtNodes(m, m', sh, S);
    ForestKept(m, m', sh);
    OrderKept(m, m', sh);
    RootPtrKept(m, m', sh, root);
  }

  lemma ForestKept(m: Mem, m': Mem, sh: Shape)
    requires Forest(m, sh) && SameAt(m, m', sh.nodes)
    ensures Forest(m', sh)
  {
    RingFrame(m.left, m.right, m'.left, m'.right, sh.roots);
    forall x | x in sh.nodes ensures NodeOk(m', sh, x) {
      NodeKept(m, m', sh, x);
    }
  }

  lemma OrderKept(m: Mem, m': Mem, sh: Shape)
    requires Grove(m, sh) && HeapOrdered(m, sh) && SameAt(m, m', sh.nodes)
    ensures HeapOrdered(m', sh) && KeyMap(m'.key, sh.nodes) == KeyMap(m.key, sh.nodes)
  {
    forall x | x in sh.nodes && 0 <= m'.parent[x] < |m'.key| ensures m'.key[m'.parent[x]] <= m'.key[x] {
      assert NodeOk(m, sh, x);
    }
  }

  lemma RootPtrKept(m: Mem, m': Mem, sh: Shape, root: int)
    requires RootsOk(m, sh) && RootPtr(m, sh, root) && SameAt(m, m', sh.nodes)
    ensures RootPtr(m', sh, root)
  {
    if root != Nil {
      assert sh.roots[0] in sh.nodes;
      forall i | 0 <= i < |sh.roots| ensures m'.key[root] <= m'.key[sh.roots[i]] {
        assert m.key[root] <= m.key[sh.roots[i]];
      }
    }
  }

  /** The children of a heap node point back to it, so none of them is a root. */
  lemma KidsOffRoots(m: Mem, sh: Shape, x: int)
    requires Grove(m, sh) && x in sh.nodes
    ensures x in sh.kids && 0 <= x < |m.key|
    ensures forall i :: 0 <= i < |sh.kids[x]| ==>
      sh.kids[x][i] in sh.nodes && 0 <= sh.kids[x][i] < |m.key| &&
      m.parent[sh.kids[x][i]] == x && sh.kids[x][i] !in sh.roots
  {
    assert NodeOk(m, sh, x);
  }
}
