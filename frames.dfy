// How each pointer surgery of the heap carries the tree invariants over: one
// lemma per operation, relating the memory and shape before the operation to
// the memory and shape after it.
module Frames {
  import opened Nodes
  import opened Rings
  import opened Trees
  import opened Splices

  /** `Insert`: pushing a standalone node that is new to the heap onto the
      root list gives a heap with one more node, the new one a root. */
  lemma InsertKeeps(m: Mem, sh: Shape, root: int, size: int, n: int) returns (sh': Shape)
    requires Inv(m, sh, root, size) && n !in sh.nodes && Standalone(m, n)
    ensures root != Nil ==> Addr(m, root) && Addr(m, m.left[root]) && n != root
    ensures Inv(PushMem(m, root, n), sh', PushEntry(m.key, root, n), size + 1)
    ensures sh'.nodes == sh.nodes + {n} && n in sh'.roots
    ensures KeyMap(m.key, sh'.nodes) == KeyMap(m.key, sh.nodes)[n := m.key[n]]
  {
    assert n !in sh.roots;
    PushRing(m, sh.roots, root, n);
    var m' := PushMem(m, root, n);
    sh' := sh.(nodes := sh.nodes + {n}, roots := PushRoots(m.key, sh.roots, root, n),
               kids := sh.kids[n := []], rank := sh.rank[n := 0],
               bound := if sh.bound < 1 then 1 else sh.bound);
    InsertForest(m, m', sh, sh', n);
    KeyMapAdd(m.key, sh.nodes, n);
  }

  lemma InsertForest(m: Mem, m': Mem, sh: Shape, sh': Shape, n: int)
    requires Forest(m, sh) && HeapOrdered(m, sh) && n !in sh.nodes && Standalone(m, n)
    requires sh'.nodes == sh.nodes + {n} && sh'.kids == sh.kids[n := []] && sh'.rank == sh.rank[n := 0]
    requires sh'.bound >= sh.bound && sh'.bound >= 1
    requires sh'.roots == sh.roots + [n] || sh'.roots == [n] + sh.roots
    requires m' == m.(left := m'.left, right := m'.right) && IsRing(m'.left, m'.right, sh'.roots)
    requires SameExcept(m.left, m'.left, {n, First(sh.roots)})
    requires SameExcept(m.right, m'.right, {n, Last(sh.roots)})
    ensures Forest(m', sh') && HeapOrdered(m', sh')
  {
    InsertNodesOk(m, m', sh, sh', n);
  }

  lemma InsertNodesOk(m: Mem, m': Mem, sh: Shape, sh': Shape, n: int)
    requires Grove(m, sh) && n !in sh.nodes && Standalone(m, n)
    requires sh'.nodes == sh.nodes + {n} && sh'.kids == sh.kids[n := []] && sh'.rank == sh.rank[n := 0]
    requires sh'.bound >= sh.bound && sh'.bound >= 1
    requires sh'.roots == sh.roots + [n] || sh'.roots == [n] + sh.roots
    requires m' == m.(left := m'.left, right := m'.right) && |m'.left| == |m'.right| == |m.left|
    requires SameExcept(m.left, m'.left, {n, First(sh.roots)})
    requires SameExcept(m.right, m'.right, {n, Last(sh.roots)})
    ensures AllNodesOk(m', sh')
  {
    if sh.roots != [] {
      assert First(sh.roots) in sh.nodes && m.parent[First(sh.roots)] == Nil;
      assert Last(sh.roots) in sh.nodes && m.parent[Last(sh.roots)] == Nil;
    }
    forall x | x in sh'.nodes ensures NodeOk(m', sh', x) {
      if x == n {
        assert KidRingAt(m', n, []);
      } else {
        assert NodeOk(m, sh, x);
        NodeOkFrame(m, m', sh, sh', x);
      }
    }
  }

  /** The larger of two integers. */
  function Max(a: int, b: int): int {
    if a < b then b else a
  }

  /** The shape after `link(x, y)`: `y` leaves the root list and joins the
      children of `x`, whose rank grows past `y`'s. */
  ghost function LinkShape(sh: Shape, x: int, y: int): Shape
    requires y in sh.roots && x in sh.kids && x in sh.rank && y in sh.rank
  {
    var r := Max(sh.rank[x], sh.rank[y] + 1);
    sh.(roots := RemoveAt(sh.roots, IndexOf(sh.roots, y)),
        kids := sh.kids[x := AdoptKids(sh.kids[x], y)],
        rank := sh.rank[x := r], bound := Max(sh.bound, r + 1))
  }

  /** `link`: making one root a child of another root with no larger key
      keeps the heap's trees heap-ordered and their roots a ring, now without
      `y`; only the degree of `x` changes among the counters. */
  lemma LinkKeeps(m: Mem, sh: Shape, x: int, y: int)
    requires Forest(m, sh) && HeapOrdered(m, sh)
    requires x in sh.roots && y in sh.roots && x != y && m.key[x] <= m.key[y]
    ensures x in sh.kids && x in sh.rank && y in sh.rank
    ensures LinkReady(m, x, y)
    ensures var m' := LinkMem(m, x, y); var sh' := LinkShape(sh, x, y);
      Forest(m', sh') && HeapOrdered(m', sh') && sh'.nodes == sh.nodes &&
      m'.key == m.key && m'.id == m.id && m'.degree == m.degree[x := m.degree[x] + 1]
  {
    var k := IndexOf(sh.roots, y);
    var ks := sh.kids[x];
    KidsOffRoots(m, sh, x);
    assert NodeOk(m, sh, x);
    assert |sh.roots| >= 2 by {
      if |sh.roots| < 2 {
        var i := IndexOf(sh.roots, x);
      }
    }
    forall i, j | 0 <= i < |sh.roots| && 0 <= j < |ks| ensures Across(sh.roots, ks, i, j) {
    }
    LinkRing(m, sh.roots, k, ks, x);
    var m' := LinkMem(m, x, y);
    LinkNodesOk(m, m', sh, LinkShape(sh, x, y), x, y);
  }

  /** Every node is well formed after `link(x, y)`, given what the link's
      stores do: `y` and the children of `x` point to `x`, and no node below
      another node than `x` has a link changed. */
  lemma LinkNodesOk(m: Mem, m': Mem, sh: Shape, sh': Shape, x: int, y: int)
    requires Grove(m, sh) && HeapOrdered(m, sh) && Distinct(sh.roots)
    requires x in sh.roots && y in sh.roots && x != y && m.key[x] <= m.key[y]
    requires x in sh.kids && x in sh.rank && y in sh.rank && sh' == LinkShape(sh, x, y)
    requires Sized(m') && |m'.key| == |m.key| && m'.key == m.key
    requires m'.parent == m.parent[y := x] && m'.degree == m.degree[x := m.degree[x] + 1]
    requires m'.child == m.child[x := First(AdoptKids(sh.kids[x], y))]
    requires IsRing(m'.left, m'.right, AdoptKids(sh.kids[x], y))
    requires forall w :: 0 <= w < |m.key| && w !in sh.roots && w !in sh.kids[x] ==>
      m'.left[w] == m.left[w] && m'.right[w] == m.right[w]
    ensures Grove(m', sh') && HeapOrdered(m', sh')
  {
    LinkAllOk(m, m', sh, sh', x, y);
    LinkRootsOk(m, m', sh, sh', x, y);
  }

  lemma LinkAllOk(m: Mem, m': Mem, sh: Shape, sh': Shape, x: int, y: int)
    requires Grove(m, sh)
    requires x in sh.roots && y in sh.roots && x != y
    requires x in sh.kids && x in sh.rank && y in sh.rank && sh' == LinkShape(sh, x, y)
    requires Sized(m') && |m'.key| == |m.key|
    requires m'.parent == m.parent[y := x] && m'.degree == m.degree[x := m.degree[x] + 1]
    requires m'.child == m.child[x := First(AdoptKids(sh.kids[x], y))]
    requires IsRing(m'.left, m'.right, AdoptKids(sh.kids[x], y))
    requires forall w :: 0 <= w < |m.key| && w !in sh.roots && w !in sh.kids[x] ==>
      m'.left[w] == m.left[w] && m'.right[w] == m.right[w]
    ensures AllNodesOk(m', sh')
  {
    AdoptKidsMembers(sh.kids[x], y);
    forall z | z in sh'.nodes ensures NodeOk(m', sh', z) {
      LinkNodeOk(m, m', sh, sh', x, y, z);
    }
  }

  lemma LinkRootsOk(m: Mem, m': Mem, sh: Shape, sh': Shape, x: int, y: int)
    requires Grove(m, sh) && HeapOrdered(m, sh) && Distinct(sh.roots)
    requires x in sh.roots && y in sh.roots && x != y && m.key[x] <= m.key[y]
    requires x in sh.kids && x in sh.rank && y in sh.rank && sh' == LinkShape(sh, x, y)
    requires Sized(m') && |m'.key| == |m.key| && m'.key == m.key
    requires m'.parent == m.parent[y := x]
    ensures NodesIn(m', sh') && RootsOk(m', sh') && HeapOrdered(m', sh')
  {
    RemoveAtMembers(sh.roots, IndexOf(sh.roots, y));
  }

  lemma LinkNodeOk(m: Mem, m': Mem, sh: Shape, sh': Shape, x: int, y: int, z: int)
    requires Grove(m, sh) && z in sh.nodes
    requires x in sh.roots && y in sh.roots && x != y
    requires x in sh.kids && x in sh.rank && y in sh.rank && sh' == LinkShape(sh, x, y)
    requires Sized(m') && |m'.key| == |m.key|
    requires m'.parent == m.parent[y := x] && m'.degree == m.degree[x := m.degree[x] + 1]
    requires m'.child == m.child[x := First(AdoptKids(sh.kids[x], y))]
    requires IsRing(m'.left, m'.right, AdoptKids(sh.kids[x], y))
    requires forall w :: 0 <= w < |m.key| && w !in sh.roots && w !in sh.kids[x] ==>
      m'.left[w] == m.left[w] && m'.right[w] == m.right[w]
    requires |AdoptKids(sh.kids[x], y)| == |sh.kids[x]| + 1 && y in AdoptKids(sh.kids[x], y)
    requires forall i :: 0 <= i < |sh.kids[x]| ==> sh.kids[x][i] in AdoptKids(sh.kids[x], y)
    requires forall i :: 0 <= i < |AdoptKids(sh.kids[x], y)| ==>
      AdoptKids(sh.kids[x], y)[i] == y || AdoptKids(sh.kids[x], y)[i] in sh.kids[x]
    ensures NodeOk(m', sh', z)
  {
    if z == x {
      LinkParentOk(m, m', sh, sh', x, y);
    } else {
      LinkOtherOk(m, m', sh, sh', x, y, z);
    }
  }

  lemma LinkParentOk(m: Mem, m': Mem, sh: Shape, sh': Shape, x: int, y: int)
    requires Grove(m, sh)
    requires x in sh.roots && y in sh.roots && x != y
    requires x in sh.kids && x in sh.rank && y in sh.rank && sh' == LinkShape(sh, x, y)
    requires Sized(m') && |m'.key| == |m.key|
    requires m'.parent == m.parent[y := x] && m'.degree == m.degree[x := m.degree[x] + 1]
    requires m'.child == m.child[x := First(AdoptKids(sh.kids[x], y))]
    requires IsRing(m'.left, m'.right, AdoptKids(sh.kids[x], y))
    requires |AdoptKids(sh.kids[x], y)| == |sh.kids[x]| + 1
    requires forall i :: 0 <= i < |AdoptKids(sh.kids[x], y)| ==>
      AdoptKids(sh.kids[x], y)[i] == y || AdoptKids(sh.kids[x], y)[i] in sh.kids[x]
    ensures NodeOk(m', sh', x)
  {
    assert NodeOk(m, sh, x);
    RemoveAtKeeps(sh.roots, IndexOf(sh.roots, y), x);
  }

  lemma LinkOtherOk(m: Mem, m': Mem, sh: Shape, sh': Shape, x: int, y: int, z: int)
    requires Grove(m, sh) && z in sh.nodes && z != x
    requires x in sh.roots && y in sh.roots && x != y
    requires x in sh.kids && x in sh.rank && y in sh.rank && sh' == LinkShape(sh, x, y)
    requires Sized(m') && |m'.key| == |m.key|
    requires m'.parent == m.parent[y := x] && m'.degree == m.degree[x := m.degree[x] + 1]
    requires m'.child == m.child[x := First(AdoptKids(sh.kids[x], y))]
    requires forall w :: 0 <= w < |m.key| && w !in sh.roots && w !in sh.kids[x] ==>
      m'.left[w] == m.left[w] && m'.right[w] == m.right[w]
    requires y in AdoptKids(sh.kids[x], y)
    requires forall i :: 0 <= i < |sh.kids[x]| ==> sh.kids[x][i] in AdoptKids(sh.kids[x], y)
    ensures NodeOk(m', sh', z)
  {
    assert NodeOk(m, sh, z);
    assert NodeOk(m, sh, x);
    KidsOffRoots(m, sh, z);
    if z != y && m.parent[z] == Nil {
      RemoveAtKeeps(sh.roots, IndexOf(sh.roots, y), z);
    }
    forall i | 0 <= i < |sh.kids[z]| ensures m'.parent[sh.kids[z][i]] == m.parent[sh.kids[z][i]] {
    }
    NodeOkFrame(m, m', sh, sh', z);
  }

  /** The shape after `cut(p, n)`: `n` leaves the children of `p` and joins
      the root list as `addToRoot` puts it. */
  ghost function CutShape(sh: Shape, keys: seq<int>, root: int, p: int, n: int): Shape
    requires p in sh.kids && n in sh.kids[p] && 0 <= n < |keys| && (root != Nil ==> 0 <= root < |keys|)
  {
    sh.(roots := PushRoots(keys, sh.roots, root, n),
        kids := sh.kids[p := RemoveAt(sh.kids[p], IndexOf(sh.kids[p], n))])
  }

  /** `cut`: moving a node whose edge to its parent may violate the heap
      order from its parent's children to the root list gives a heap again,
      with the same nodes, keys, ranks and a least root as entry. */
  lemma CutKeeps(m: Mem, sh: Shape, root: int, p: int, n: int)
    requires Forest(m, sh) && HeapOrderedExcept(m, sh, n) && RootPtr(m, sh, root)
    requires n in sh.nodes && 0 <= n < |m.key| && m.parent[n] == p && p != Nil
    ensures p in sh.kids && n in sh.kids[p] && (root != Nil ==> 0 <= root < |m.key|)
    ensures CutReady(m, root, p, n)
    ensures var m' := CutMem(m, root, p, n); var sh' := CutShape(sh, m.key, root, p, n);
      Forest(m', sh') && HeapOrdered(m', sh') && RootPtr(m', sh', PushEntry(m.key, root, n))
    ensures var m' := CutMem(m, root, p, n); var sh' := CutShape(sh, m.key, root, p, n);
      sh'.nodes == sh.nodes && sh'.rank == sh.rank && sh'.bound == sh.bound &&
      m'.key == m.key && m'.id == m.id && m'.parent == m.parent[n := Nil] &&
      m'.marked == m.marked[n := false]
    ensures p in sh.nodes && p in sh.rank && n in sh.rank && sh.bound > sh.rank[p] > sh.rank[n]
  {
    assert NodeOk(m, sh, n);
    var ks := sh.kids[p];
    var j := IndexOf(ks, n);
    KidsOffRoots(m, sh, p);
    forall a, b | 0 <= a < |sh.roots| && 0 <= b < |ks| ensures Across(sh.roots, ks, a, b) {
    }
    assert NodeOk(m, sh, p);
    CutRing(m, sh.roots, root, ks, p, j);
    CutFields(m, sh.roots, root, ks, p, j);
    CutFrame(m, sh.roots, root, ks, p, j);
    var m' := CutMem(m, root, p, n);
    var sh' := CutShape(sh, m.key, root, p, n);
    PushRootsMembers(m.key, sh.roots, root, n);
    CutAllOk(m, m', sh, sh', root, p, n);
    CutRootsOk(m, m', sh, sh', root, p, n);
  }

  lemma CutAllOk(m: Mem, m': Mem, sh: Shape, sh': Shape, root: int, p: int, n: int)
    requires Grove(m, sh)
    requires n in sh.nodes && m.parent[n] == p && p in sh.nodes && 0 <= p < |m.key| && p in sh.kids && n in sh.kids[p]
    requires 0 <= n < |m.key| && (root != Nil ==> 0 <= root < |m.key|)
    requires sh' == CutShape(sh, m.key, root, p, n)
    requires Sized(m') && |m'.key| == |m.key| && m'.key == m.key
    requires m'.child == m.child[p := First(RemoveAt(sh.kids[p], IndexOf(sh.kids[p], n)))]
    requires m'.parent == m.parent[n := Nil] && m'.degree == m.degree[p := m.degree[p] - 1]
    requires IsRing(m'.left, m'.right, RemoveAt(sh.kids[p], IndexOf(sh.kids[p], n)))
    requires forall w :: 0 <= w < |m.key| && w !in sh.roots && w !in sh.kids[p] ==>
      m'.left[w] == m.left[w] && m'.right[w] == m.right[w]
    requires n in sh'.roots && forall i :: 0 <= i < |sh.roots| ==> sh.roots[i] in sh'.roots
    ensures AllNodesOk(m', sh')
  {
    forall z | z in sh'.nodes ensures NodeOk(m', sh', z) {
      if z == p {
        CutParentOk(m, m', sh, sh', root, p, n);
      } else {
        CutOtherOk(m, m', sh, sh', root, p, n, z);
      }
    }
  }

  lemma CutRootsOk(m: Mem, m': Mem, sh: Shape, sh': Shape, root: int, p: int, n: int)
    requires Grove(m, sh) && HeapOrderedExcept(m, sh, n)
    requires n in sh.nodes && 0 <= n < |m.key| && p in sh.kids && n in sh.kids[p]
    requires root != Nil ==> 0 <= root < |m.key|
    requires sh' == CutShape(sh, m.key, root, p, n)
    requires Sized(m') && |m'.key| == |m.key| && m'.key == m.key && m'.parent == m.parent[n := Nil]
    requires forall i :: 0 <= i < |sh'.roots| ==> sh'.roots[i] == n || sh'.roots[i] in sh.roots
    ensures NodesIn(m', sh') && RootsOk(m', sh') && HeapOrdered(m', sh')
  {
  }

  lemma CutParentOk(m: Mem, m': Mem, sh: Shape, sh': Shape, root: int, p: int, n: int)
    requires Grove(m, sh)
    requires n in sh.nodes && m.parent[n] == p && p in sh.nodes && 0 <= p < |m.key| && p in sh.kids && n in sh.kids[p]
    requires 0 <= n < |m.key| && (root != Nil ==> 0 <= root < |m.key|)
    requires sh' == CutShape(sh, m.key, root, p, n)
    requires Sized(m') && |m'.key| == |m.key|
    requires m'.child == m.child[p := First(RemoveAt(sh.kids[p], IndexOf(sh.kids[p], n)))]
    requires m'.parent == m.parent[n := Nil] && m'.degree == m.degree[p := m.degree[p] - 1]
    requires IsRing(m'.left, m'.right, RemoveAt(sh.kids[p], IndexOf(sh.kids[p], n)))
    requires forall i :: 0 <= i < |sh.roots| ==> sh.roots[i] in sh'.roots
    ensures NodeOk(m', sh', p)
  {
    assert NodeOk(m, sh, p);
    var ks := sh.kids[p];
    var t := RemoveAt(ks, IndexOf(ks, n));
    RemoveAtMembers(ks, IndexOf(ks, n));
    forall i | 0 <= i < |t| ensures m'.parent[t[i]] == p && t[i] in sh.nodes {
      assert t[i] != n && t[i] in ks;
    }
    assert KidRingAt(m', p, t);
    if m.parent[p] != Nil {
      assert sh'.kids[m.parent[p]] == sh.kids[m.parent[p]];
    }
  }

  lemma CutOtherOk(m: Mem, m': Mem, sh: Shape, sh': Shape, root: int, p: int, n: int, z: int)
    requires Grove(m, sh) && z in sh.nodes && z != p
    requires n in sh.nodes && m.parent[n] == p && p in sh.nodes && 0 <= p < |m.key| && p in sh.kids && n in sh.kids[p]
    requires 0 <= n < |m.key| && (root != Nil ==> 0 <= root < |m.key|)
    requires sh' == CutShape(sh, m.key, root, p, n)
    requires Sized(m') && |m'.key| == |m.key|
    requires m'.child == m.child[p := First(RemoveAt(sh.kids[p], IndexOf(sh.kids[p], n)))]
    requires m'.parent == m.parent[n := Nil] && m'.degree == m.degree[p := m.degree[p] - 1]
    requires forall w :: 0 <= w < |m.key| && w !in sh.roots && w !in sh.kids[p] ==>
      m'.left[w] == m.left[w] && m'.right[w] == m.right[w]
    requires n in sh'.roots && forall i :: 0 <= i < |sh.roots| ==> sh.roots[i] in sh'.roots
    ensures NodeOk(m', sh', z)
  {
    assert NodeOk(m, sh, z);
    assert NodeOk(m, sh, p);
    KidsOffRoots(m, sh, z);
    if z != n && m.parent[z] == p {
      RemoveAtKeeps(sh.kids[p], IndexOf(sh.kids[p], n), z);
    }
    NodeOkFrame(m, m', sh, sh', z);
  }

  /** A heap state: memory, entry pointer and shape. */
  datatype Snap = Snap(mem: Mem, root: int, shape: Shape)

  /** The mark bits play no part in the heap's shape. */
  lemma MarkKeeps(m: Mem, sh: Shape, root: int, x: int, b: bool)
    requires Sound(m, sh, root) && 0 <= x < |m.key|
    ensures Sound(m.(marked := m.marked[x := b]), sh, root)
  {
    var m' := m.(marked := m.marked[x := b]);
    forall z | z in sh.nodes ensures NodeOk(m', sh, z) {
      assert NodeOk(m, sh, z);
    }
  }

  /** The map holding `a`'s entries for the keys in `dom`, and `b`'s otherwise. */
  ghost function Merge<V>(a: map<int, V>, b: map<int, V>, dom: set<int>): (r: map<int, V>)
    ensures forall x :: x in dom && x in a ==> x in r && r[x] == a[x]
    ensures forall x :: x !in dom && x in b ==> x in r && r[x] == b[x]
  {
    map x | x in a.Keys + b.Keys :: if x in dom && x in a then a[x] else if x in b then b[x] else a[x]
  }

  /** The shape of two melded heaps whose root lists were spliced into `roots`. */
  ghost function MeldShape(sh: Shape, osh: Shape, roots: seq<int>): Shape {
    Shape(sh.nodes + osh.nodes, roots, Merge(sh.kids, osh.kids, sh.nodes),
          Merge(sh.rank, osh.rank, sh.nodes), Max(sh.bound, osh.bound))
  }

  /** A node of one of the melded heaps: only root links changed, and the
      merged shape agrees with its own shape on its nodes. */
  lemma MeldNodeOk(m: Mem, m': Mem, a: Shape, sh': Shape, z: int)
    requires Grove(m, a) && z in a.nodes && Sized(m')
    requires m' == m.(left := m'.left, right := m'.right)
    requires forall w :: 0 <= w < |m.key| && w in a.nodes && w !in a.roots ==>
      m'.left[w] == m.left[w] && m'.right[w] == m.right[w]
    requires forall i :: 0 <= i < |a.roots| ==> a.roots[i] in sh'.roots
    requires forall x :: x in a.nodes ==> x in sh'.nodes && x in sh'.kids && x in sh'.rank
    requires forall x :: x in a.nodes ==> sh'.kids[x] == a.kids[x] && sh'.rank[x] == a.rank[x]
    requires sh'.bound >= a.bound
    ensures NodeOk(m', sh', z)
  {
    KidsOffRoots(m, a, z);
    assert NodeOk(m, a, z);
    var ks := a.kids[z];
    RingFrame(m.left, m.right, m'.left, m'.right, ks);
  }

  /** `Meld` of two non-empty heaps over one memory: splicing the root lists
      at the two entries gives one sound heap over both node sets, entered at
      the other heap's entry only when its key is strictly smaller. */
  lemma MeldKeeps(m: Mem, sh: Shape, osh: Shape, root: int, oroot: int) returns (sh': Shape, entry: int)
    requires Sound(m, sh, root) && Sound(m, osh, oroot) && sh.nodes !! osh.nodes
    requires root != Nil && oroot != Nil
    ensures 0 <= root < |m.key| && 0 <= oroot < |m.key| && SpliceReady(m, root, oroot)
    ensures entry == if m.key[oroot] < m.key[root] then oroot else root
    ensures sh' == MeldShape(sh, osh, if m.key[oroot] < m.key[root] then osh.roots + sh.roots else sh.roots + osh.roots)
    ensures Sound(SpliceMem(m, root, oroot), sh', entry)
    ensures SpliceMem(m, root, oroot).key == m.key && SpliceMem(m, root, oroot).id == m.id
    ensures sh'.nodes == sh.nodes + osh.nodes
  {
    var s, t := sh.roots, osh.roots;
    forall a, b | 0 <= a < |s| && 0 <= b < |t| ensures Across(s, t, a, b) {
    }
    SpliceRing(m, s, t);
    var m' := SpliceMem(m, root, oroot);
    var first := m.key[oroot] < m.key[root];
    var roots := if first then t + s else s + t;
    entry := if first then oroot else root;
    sh' := MeldShape(sh, osh, roots);
    MeldGrove(m, m', sh, osh, roots);
    MeldOrdered(m, m', sh, osh, roots);
    MeldRootMin(m.key, s, t, root, oroot);
    assert Forest(m', sh');
    assert RootPtr(m', sh', entry);
  }

  /** The parent links and keys are untouched, so both heap orders carry over. */
  lemma MeldOrdered(m: Mem, m': Mem, sh: Shape, osh: Shape, roots: seq<int>)
    requires HeapOrdered(m, sh) && HeapOrdered(m, osh) && Sized(m')
    requires m' == m.(left := m'.left, right := m'.right)
    ensures HeapOrdered(m', MeldShape(sh, osh, roots))
  {
  }

  /** The trees of both heaps survive the splice of their root lists. */
  lemma MeldGrove(m: Mem, m': Mem, sh: Shape, osh: Shape, roots: seq<int>)
    requires Grove(m, sh) && Grove(m, osh) && sh.nodes !! osh.nodes && Sized(m')
    requires |sh.roots| > 0 && |osh.roots| > 0
    requires m' == m.(left := m'.left, right := m'.right)
    requires SameExcept(m.left, m'.left, {sh.roots[0], osh.roots[0]})
    requires SameExcept(m.right, m'.right, {sh.roots[|sh.roots| - 1], osh.roots[|osh.roots| - 1]})
    requires roots == sh.roots + osh.roots || roots == osh.roots + sh.roots
    ensures Grove(m', MeldShape(sh, osh, roots))
  {
    var sh' := MeldShape(sh, osh, roots);
    MeldFrame(m, m', sh, osh);
    assert {sh.roots[0], osh.roots[0]} == {osh.roots[0], sh.roots[0]};
    assert {sh.roots[|sh.roots| - 1], osh.roots[|osh.roots| - 1]} == {osh.roots[|osh.roots| - 1], sh.roots[|sh.roots| - 1]};
    MeldFrame(m, m', osh, sh);
    assert forall i :: 0 <= i < |sh.roots| ==> sh.roots[i] in roots;
    RootLinksOk(m, m', sh, sh');
    assert forall i :: 0 <= i < |osh.roots| ==> osh.roots[i] in roots;
    RootLinksOk(m, m', osh, sh');
    assert AllNodesOk(m', sh');
    MeldRootsOk(m, m', sh, osh, roots);
  }

  /** The merged root list holds roots of either heap. */
  lemma MeldRootsOk(m: Mem, m': Mem, sh: Shape, osh: Shape, roots: seq<int>)
    requires RootsOk(m, sh) && RootsOk(m, osh) && NodesIn(m, sh) && NodesIn(m, osh) && Sized(m')
    requires m' == m.(left := m'.left, right := m'.right)
    requires roots == sh.roots + osh.roots || roots == osh.roots + sh.roots
    ensures RootsOk(m', MeldShape(sh, osh, roots)) && NodesIn(m', MeldShape(sh, osh, roots))
  {
  }

  /** The splice changes links of roots only. */
  lemma MeldFrame(m: Mem, m': Mem, a: Shape, b: Shape)
    requires RootsOk(m, a) && RootsOk(m, b) && a.nodes !! b.nodes
    requires |a.roots| > 0 && |b.roots| > 0
    requires SameExcept(m.left, m'.left, {a.roots[0], b.roots[0]})
    requires SameExcept(m.right, m'.right, {a.roots[|a.roots| - 1], b.roots[|b.roots| - 1]})
    ensures forall w :: 0 <= w < |m.key| && w in a.nodes && w !in a.roots ==>
      m'.left[w] == m.left[w] && m'.right[w] == m.right[w]
  {
    assert b.roots[0] in b.nodes && b.roots[|b.roots| - 1] in b.nodes;
  }

  /** When only links of roots change, every node of `a` is well placed in a
      shape that agrees with `a` on its nodes and keeps its roots. */
  lemma RootLinksOk(m: Mem, m': Mem, a: Shape, sh': Shape)
    requires Grove(m, a) && Sized(m')
    requires m' == m.(left := m'.left, right := m'.right)
    requires forall w :: 0 <= w < |m.key| && w in a.nodes && w !in a.roots ==>
      m'.left[w] == m.left[w] && m'.right[w] == m.right[w]
    requires forall i :: 0 <= i < |a.roots| ==> a.roots[i] in sh'.roots
    requires forall x :: x in a.nodes ==> x in sh'.nodes && x in sh'.kids && x in sh'.rank
    requires forall x :: x in a.nodes ==> sh'.kids[x] == a.kids[x] && sh'.rank[x] == a.rank[x]
    requires sh'.bound >= a.bound
    ensures forall z :: z in a.nodes ==> NodeOk(m', sh', z)
  {
    forall z | z in a.nodes ensures NodeOk(m', sh', z) {
      MeldNodeOk(m, m', a, sh', z);
    }
  }

  /** The entry of the melded root list is minimal. */
  lemma MeldRootMin(keys: seq<int>, s: seq<int>, t: seq<int>, root: int, oroot: int)
    requires RootMin(keys, s, root) && RootMin(keys, t, oroot)
    ensures var first := keys[oroot] < keys[root];
      RootMin(keys, if first then t + s else s + t, if first then oroot else root)
  {
  }

  /** `cascadingCut(node)`: walking up from `node`, every marked node that
      has a parent is cut to the root list; the walk ends at a root, or at
      the first unmarked node, which it marks. */
  ghost function Cascade(m: Mem, sh: Shape, root: int, node: int): (r: Snap)
    requires Sound(m, sh, root) && node in sh.nodes
    ensures Sound(r.mem, r.shape, r.root) && r.shape.nodes == sh.nodes
    ensures r.mem.key == m.key && r.mem.id == m.id
    decreases sh.bound - sh.rank[node]
  {
    assert NodeOk(m, sh, node);
    var p := m.parent[node];
    if p == Nil then Snap(m, root, sh)
    else if !m.marked[node] then
      MarkKeeps(m, sh, root, node, true);
      Snap(m.(marked := m.marked[node := true]), root, sh)
    else
      CutKeeps(m, sh, root, p, node);
      Cascade(CutMem(m, root, p, node), CutShape(sh, m.key, root, p, node),
              PushEntry(m.key, root, node), p)
  }

  /** One step of the walk: a marked node with a parent is cut, and the rest
      of the walk starts from the parent, which ranks higher. */
  lemma CascadeStep(m: Mem, sh: Shape, root: int, x: int)
    requires Sound(m, sh, root) && x in sh.nodes && 0 <= x < |m.key|
    requires m.parent[x] != Nil && m.marked[x]
    ensures m.parent[x] in sh.kids && x in sh.kids[m.parent[x]] && (root != Nil ==> 0 <= root < |m.key|)
    ensures CutReady(m, root, m.parent[x], x)
    ensures var p := m.parent[x]; var m' := CutMem(m, root, p, x);
      var sh' := CutShape(sh, m.key, root, p, x); var root' := PushEntry(m.key, root, x);
      Sound(m', sh', root') && sh'.nodes == sh.nodes && m'.key == m.key && p in sh.nodes &&
      Cascade(m, sh, root, x) == Cascade(m', sh', root', p) &&
      sh'.rank == sh.rank && sh'.bound == sh.bound &&
      0 <= sh.bound - sh.rank[p] < sh.bound - sh.rank[x]
  {
    CutKeeps(m, sh, root, m.parent[x], x);
  }

  /** Go's `n.parent != nil && n.key < n.parent.key` once the key is `k`. */
  ghost predicate Beats(m: Mem, n: int, k: int) {
    0 <= n < |m.parent| && 0 <= m.parent[n] < |m.key| && k < m.key[m.parent[n]]
  }

  /** The trees do not depend on the keys. */
  lemma KeysKeep(m: Mem, sh: Shape, keys: seq<int>)
    requires Forest(m, sh) && |keys| == |m.key|
    ensures Forest(m.(key := keys), sh)
  {
    forall z | z in sh.nodes ensures NodeOk(m.(key := keys), sh, z) {
      assert NodeOk(m, sh, z);
    }
  }

  /** Lowering the key of `n` keeps every parent edge ordered except the one
      into `n`, and that one too unless `n` now beats its parent. */
  lemma DecreaseOrder(m: Mem, sh: Shape, n: int, k: int)
    requires HeapOrdered(m, sh) && 0 <= n < |m.key| && k < m.key[n]
    ensures HeapOrderedExcept(m.(key := m.key[n := k]), sh, n)
    ensures !Beats(m, n, k) ==> HeapOrdered(m.(key := m.key[n := k]), sh)
  {
  }

  /** Lowering the key of a node that is not a root keeps the entry minimal. */
  lemma DecreaseRootPtr(m: Mem, sh: Shape, root: int, n: int, k: int)
    requires Forest(m, sh) && RootPtr(m, sh, root) && 0 <= n < |m.key| && m.parent[n] != Nil
    ensures RootPtr(m.(key := m.key[n := k]), sh, root)
  {
    if root != Nil {
      forall i | 0 <= i < |sh.roots| ensures sh.roots[i] != n {
      }
    }
  }

  /** The root ring read starting from the root `n`. */
  ghost function Rotated(sh: Shape, n: int): (sh': Shape)
    requires n in sh.roots
    ensures First(sh'.roots) == n
  {
    var i := IndexOf(sh.roots, n);
    sh.(roots := sh.roots[i..] + sh.roots[..i])
  }

  /** Rotating the root ring keeps it a ring over the same roots. */
  lemma RotateRing(m: Mem, sh: Shape, n: int)
    requires IsRing(m.left, m.right, sh.roots) && n in sh.roots
    ensures IsRing(m.left, m.right, Rotated(sh, n).roots)
    ensures forall j :: 0 <= j < |sh.roots| ==> sh.roots[j] in Rotated(sh, n).roots
    ensures forall j :: 0 <= j < |Rotated(sh, n).roots| ==> Rotated(sh, n).roots[j] in sh.roots
  {
    var i := IndexOf(sh.roots, n);
    var s := sh.roots;
    var t := s[i..] + s[..i];
    assert Rotated(sh, n).roots == t;
    RingRotate(m.left, m.right, s, i);
    forall j | 0 <= j < |s| ensures s[j] in t {
      if j >= i {
        assert s[j] == t[j - i];
      } else {
        assert s[j] == t[j + (|s| - i)];
      }
    }
    forall j | 0 <= j < |t| ensures t[j] in s {
      if j < |s| - i {
        assert t[j] == s[j + i];
      } else {
        assert t[j] == s[j - (|s| - i)];
      }
    }
  }

  /** The trees only need the root list as a set of roots. */
  lemma GroveReorder(m: Mem, sh: Shape, roots: seq<int>)
    requires Grove(m, sh)
    requires forall j :: 0 <= j < |sh.roots| ==> sh.roots[j] in roots
    requires forall j :: 0 <= j < |roots| ==> roots[j] in sh.roots
    ensures Grove(m, sh.(roots := roots))
  {
    forall z | z in sh.nodes ensures NodeOk(m, sh.(roots := roots), z) {
      assert NodeOk(m, sh, z);
    }
  }

  /** A root whose key drops below the entry's becomes the entry: reading the
      root ring from it gives a sound heap again. */
  lemma RotateKeeps(m: Mem, sh: Shape, root: int, n: int)
    requires Forest(m, sh) && HeapOrdered(m, sh) && root == First(sh.roots) && root != Nil
    requires n in sh.roots && 0 <= n < |m.key| && 0 <= root < |m.key| && m.key[n] < m.key[root]
    requires forall i :: 0 <= i < |sh.roots| && sh.roots[i] != n ==> m.key[root] <= m.key[sh.roots[i]]
    ensures Sound(m, Rotated(sh, n), n) && Rotated(sh, n).nodes == sh.nodes
  {
    var sh' := Rotated(sh, n);
    RotateRing(m, sh, n);
    GroveReorder(m, sh, sh'.roots);
    assert sh.(roots := sh'.roots) == sh';
  }

  /** The minimal root of a sound, non-empty heap. */
  lemma EntryIn(m: Mem, sh: Shape, root: int, n: int)
    requires Forest(m, sh) && root == First(sh.roots) && n in sh.nodes
    ensures root != Nil && 0 <= root < |m.key| && root in sh.roots
  {
    RootsIffNodes(m, sh);
  }

  /** The first part of `DecreaseKey` once the new key `k` is below the old:
      the key is set, and a node that now beats its parent is cut, with the
      cascade run from the parent. */
  ghost function DecreaseCut(m: Mem, sh: Shape, root: int, n: int, k: int): (r: Snap)
    requires Sound(m, sh, root) && n in sh.nodes && 0 <= n < |m.key| && k < m.key[n]
    ensures Forest(r.mem, r.shape) && r.root == First(r.shape.roots) && r.shape.nodes == sh.nodes
    ensures r.mem.key == m.key[n := k] && r.mem.id == m.id
    ensures Beats(m, n, k) ==> Sound(r.mem, r.shape, r.root)
    ensures !Beats(m, n, k) ==> r == Snap(m.(key := m.key[n := k]), root, sh)
  {
    var m1 := m.(key := m.key[n := k]);
    KeysKeep(m, sh, m1.key);
    DecreaseOrder(m, sh, n, k);
    if Beats(m, n, k) then
      var p := m.parent[n];
      CutKeeps(m1, sh, root, p, n);
      Cascade(CutMem(m1, root, p, n), CutShape(sh, m1.key, root, p, n), PushEntry(m1.key, root, n), p)
    else Snap(m1, root, sh)
  }

  /** `DecreaseKey` once the new key `k` is below the old: after the cut,
      `n` becomes the entry if it beats it. */
  ghost function Decrease(m: Mem, sh: Shape, root: int, n: int, k: int): (r: Snap)
    requires Sound(m, sh, root) && n in sh.nodes && 0 <= n < |m.key| && k < m.key[n]
    ensures Sound(r.mem, r.shape, r.root) && r.shape.nodes == sh.nodes
    ensures r.mem.key == m.key[n := k] && r.mem.id == m.id
  {
    var s := DecreaseCut(m, sh, root, n, k);
    EntryIn(s.mem, s.shape, s.root, n);
    DecreaseEntry(m, sh, root, n, k, s);
    if k < s.mem.key[s.root] then Snap(s.mem, n, Rotated(s.shape, n)) else s
  }

  /** The cut of `DecreaseKey`, for the method that performs it. */
  lemma DecreaseCutStep(m: Mem, sh: Shape, root: int, n: int, k: int)
    requires Sound(m, sh, root) && n in sh.nodes && 0 <= n < |m.key| && k < m.key[n]
    requires Beats(m, n, k)
    ensures var m1 := m.(key := m.key[n := k]); var p := m.parent[n];
      p in sh.kids && n in sh.kids[p] && (root != Nil ==> 0 <= root < |m.key|) &&
      CutReady(m1, root, p, n)
    ensures var m1 := m.(key := m.key[n := k]); var p := m.parent[n];
      var m' := CutMem(m1, root, p, n); var sh' := CutShape(sh, m1.key, root, p, n);
      var root' := PushEntry(m1.key, root, n);
      Sound(m', sh', root') && sh'.nodes == sh.nodes && p in sh'.nodes &&
      DecreaseCut(m, sh, root, n, k) == Cascade(m', sh', root', p)
  {
    var m1 := m.(key := m.key[n := k]);
    KeysKeep(m, sh, m1.key);
    DecreaseOrder(m, sh, n, k);
    CutKeeps(m1, sh, root, m.parent[n], n);
  }

  /** `Decrease` in two steps, for the method that performs them. */
  lemma DecreaseSteps(m: Mem, sh: Shape, root: int, n: int, k: int)
    requires Sound(m, sh, root) && n in sh.nodes && 0 <= n < |m.key| && k < m.key[n]
    ensures var t := DecreaseCut(m, sh, root, n, k); var s := Decrease(m, sh, root, n, k);
      0 <= t.root < |t.mem.key| && s.mem == t.mem && s.root == (if k < t.mem.key[t.root] then n else t.root)
  {
    var t := DecreaseCut(m, sh, root, n, k);
    EntryIn(t.mem, t.shape, t.root, n);
  }

  /** The last step of `Decrease`: either the heap is already sound, or `n`
      is a root that beats the entry and rotating to it makes it sound. */
  lemma DecreaseEntry(m: Mem, sh: Shape, root: int, n: int, k: int, s: Snap)
    requires Sound(m, sh, root) && n in sh.nodes && 0 <= n < |m.key| && k < m.key[n]
    requires Beats(m, n, k) ==> Sound(s.mem, s.shape, s.root) && s.shape.nodes == sh.nodes && s.mem.key == m.key[n := k]
    requires !Beats(m, n, k) ==> s == Snap(m.(key := m.key[n := k]), root, sh)
    requires Forest(s.mem, s.shape) && s.root == First(s.shape.roots) && 0 <= s.root < |s.mem.key|
    ensures k < s.mem.key[s.root] ==> n in s.shape.roots && Sound(s.mem, Rotated(s.shape, n), n)
    ensures !(k < s.mem.key[s.root]) ==> Sound(s.mem, s.shape, s.root)
  {
    var m1 := m.(key := m.key[n := k]);
    DecreaseOrder(m, sh, n, k);
    if Beats(m, n, k) {
      RootIsMin(s.mem, s.shape, s.root);
    } else if m.parent[n] != Nil {
      DecreaseRootPtr(m, sh, root, n, k);
      RootIsMin(s.mem, s.shape, s.root);
    } else {
      assert NodeOk(m, sh, n);
      if root == n {
        assert RootMin(m1.key, sh.roots, root);
      } else if k < m1.key[root] {
        RotateKeeps(m1, sh, root, n);
      } else {
        assert RootMin(m1.key, sh.roots, root);
      }
    }
  }

  // What each operation leaves alone: every node outside the heap keeps its
  // record, so another heap allocated in the same memory stays intact.

  /** `insert` stores only to `n` and to the two roots that become its neighbours. */
  lemma InsertKept(m: Mem, sh: Shape, root: int, size: int, n: int)
    requires Inv(m, sh, root, size) && n !in sh.nodes && Standalone(m, n)
    ensures PushReady(m, root, n) && Kept(m, PushMem(m, root, n), sh.nodes + {n})
  {
    assert n !in sh.roots;
    PushRing(m, sh.roots, root, n);
    if sh.roots != [] {
      assert sh.roots[0] in sh.nodes && sh.roots[|sh.roots| - 1] in sh.nodes;
    }
    LinksKept(m, PushMem(m, root, n), {n, First(sh.roots)}, {n, Last(sh.roots)}, sh.nodes + {n});
  }

  /** `meld` stores only to the ends of the two root rings. */
  lemma MeldKept(m: Mem, sh: Shape, osh: Shape, root: int, oroot: int)
    requires Sound(m, sh, root) && Sound(m, osh, oroot) && sh.nodes !! osh.nodes
    requires root != Nil && oroot != Nil
    ensures SpliceReady(m, root, oroot) && Kept(m, SpliceMem(m, root, oroot), sh.nodes + osh.nodes)
  {
    var s, t := sh.roots, osh.roots;
    forall a, b | 0 <= a < |s| && 0 <= b < |t| ensures Across(s, t, a, b) {
    }
    SpliceRing(m, s, t);
    assert s[0] in sh.nodes && s[|s| - 1] in sh.nodes && t[0] in osh.nodes && t[|t| - 1] in osh.nodes;
    LinksKept(m, SpliceMem(m, root, oroot), {s[0], t[0]}, {s[|s| - 1], t[|t| - 1]}, sh.nodes + osh.nodes);
  }

  /** `link(x, y)` stores only to heap nodes: the roots and the children of `x`. */
  lemma LinkKept(m: Mem, sh: Shape, x: int, y: int)
    requires Forest(m, sh) && x in sh.roots && y in sh.roots && x != y
    ensures LinkReady(m, x, y) && Kept(m, LinkMem(m, x, y), sh.nodes)
  {
    var k := IndexOf(sh.roots, y);
    var ks := sh.kids[x];
    KidsOffRoots(m, sh, x);
    assert NodeOk(m, sh, x);
    var i0 := IndexOf(sh.roots, x);
    assert i0 != k && |sh.roots| >= 2;
    forall i, j | 0 <= i < |sh.roots| && 0 <= j < |ks| ensures Across(sh.roots, ks, i, j) {
    }
    LinkRing(m, sh.roots, k, ks, x);
    var m' := LinkMem(m, x, y);
    forall w | 0 <= w < |m.key| && w !in sh.nodes ensures At(m', w) == At(m, w) {
      assert w !in sh.roots && w !in ks && w != x && w != y;
    }
    KeptIntro(m, m', sh.nodes);
  }

  /** `cut(p, n)` stores only to heap nodes: the roots and the children of `p`. */
  lemma CutKept(m: Mem, sh: Shape, root: int, p: int, n: int)
    requires Forest(m, sh) && root == First(sh.roots)
    requires n in sh.nodes && 0 <= n < |m.key| && m.parent[n] == p && p != Nil
    ensures CutReady(m, root, p, n) && Kept(m, CutMem(m, root, p, n), sh.nodes)
  {
    assert NodeOk(m, sh, n);
    var ks := sh.kids[p];
    var j := IndexOf(ks, n);
    KidsOffRoots(m, sh, p);
    forall a, b | 0 <= a < |sh.roots| && 0 <= b < |ks| ensures Across(sh.roots, ks, a, b) {
    }
    assert NodeOk(m, sh, p);
    CutFields(m, sh.roots, root, ks, p, j);
    CutFrame(m, sh.roots, root, ks, p, j);
    var m' := CutMem(m, root, p, n);
    forall w | 0 <= w < |m.key| && w !in sh.nodes ensures At(m', w) == At(m, w) {
      assert w !in sh.roots && w !in ks && w != p && w != n;
    }
    KeptIntro(m, m', sh.nodes);
  }

  /** The cascading cut stores only to heap nodes. */
  lemma {:induction false} CascadeKept(m: Mem, sh: Shape, root: int, node: int)
    requires Sound(m, sh, root) && node in sh.nodes
    ensures Kept(m, Cascade(m, sh, root, node).mem, sh.nodes)
    decreases sh.bound - sh.rank[node]
  {
    assert NodeOk(m, sh, node);
    var p := m.parent[node];
    if p == Nil {
      KeptRefl(m, sh.nodes);
    } else if !m.marked[node] {
      KeptIntro(m, m.(marked := m.marked[node := true]), sh.nodes);
    } else {
      CutKeeps(m, sh, root, p, node);
      CutKept(m, sh, root, p, node);
      var m' := CutMem(m, root, p, node);
      var sh' := CutShape(sh, m.key, root, p, node);
      CascadeKept(m', sh', PushEntry(m.key, root, node), p);
      KeptTrans(m, m', Cascade(m, sh, root, node).mem, sh.nodes, sh'.nodes);
    }
  }

  /** `DecreaseKey` stores only to heap nodes. */
  lemma DecreaseKept(m: Mem, sh: Shape, root: int, n: int, k: int)
    requires Sound(m, sh, root) && n in sh.nodes && 0 <= n < |m.key| && k < m.key[n]
    ensures Kept(m, Decrease(m, sh, root, n, k).mem, sh.nodes)
  {
    var m1 := m.(key := m.key[n := k]);
    KeptIntro(m, m1, sh.nodes);
    DecreaseSteps(m, sh, root, n, k);
    if Beats(m, n, k) {
      DecreaseCutStep(m, sh, root, n, k);
      KeysKeep(m, sh, m1.key);
      var p := m.parent[n];
      CutKept(m1, sh, root, p, n);
      var m' := CutMem(m1, root, p, n);
      var sh' := CutShape(sh, m1.key, root, p, n);
      CascadeKept(m', sh', PushEntry(m1.key, root, n), p);
      KeptTrans(m, m1, m', sh.nodes, sh.nodes);
      KeptTrans(m, m', DecreaseCut(m, sh, root, n, k).mem, sh.nodes, sh'.nodes);
    } else {
      assert DecreaseCut(m, sh, root, n, k).mem == m1;
    }
  }
}
