// The first half of `PopMin` in fibonacci/heap.go: the children of the
// minimal root `min` lose their parent link, their ring is spliced into the
// root list, and `min` is unlinked from it. `s` is the root list read from
// `min` and `ks` is the child list of `min`.
module Promotion {
  import opened Nodes
  import opened Rings
  import opened Trees
  import opened Splices
  import opened Frames

  /** The parent links once the first `j` members of `ks` have been cleared. */
  ghost function Cleared(parent: seq<int>, ks: seq<int>, j: int): seq<int>
    requires 0 <= j <= |ks|
  {
    seq(|parent|, i requires 0 <= i < |parent| => if i in ks[..j] then Nil else parent[i])
  }

  /** One turn of the loop `for child.parent != nil`: the `j`-th child still
      has its parent, clearing it extends the cleared prefix, and `right`
      leads to the next child around the ring. */
  lemma ClearStep(m: Mem, ks: seq<int>, j: int, p: int)
    requires Sized(m) && IsRing(m.left, m.right, ks) && 0 <= j < |ks|
    requires forall i :: 0 <= i < |ks| ==> m.parent[ks[i]] == p
    ensures Cleared(m.parent, ks, j)[ks[j]] == p
    ensures Cleared(m.parent, ks, j)[ks[j] := Nil] == Cleared(m.parent, ks, j + 1)
    ensures m.right[ks[j]] == if j + 1 < |ks| then ks[j + 1] else ks[0]
  {
    assert ks[..j + 1] == ks[..j] + [ks[j]];
    forall i | 0 <= i < j ensures ks[i] != ks[j] {
      DistinctAt(ks, i, j);
    }
    RingLinks(m.left, m.right, ks, j);
  }

  /** The loop stops back at the first child: every child has been cleared. */
  lemma ClearDone(parent: seq<int>, ks: seq<int>)
    requires |ks| > 0 && 0 <= ks[0] < |parent|
    ensures Cleared(parent, ks, |ks|)[ks[0]] == Nil
  {
    assert ks[..|ks|][0] == ks[0];
  }

  /** What the promotion starts from: two disjoint rings, the root ring
      non-empty. */
  ghost predicate Promotable(m: Mem, s: seq<int>, ks: seq<int>) {
    Sized(m) && IsRing(m.left, m.right, s) && IsRing(m.left, m.right, ks) && |s| > 0 && Disjoint(s, ks)
  }

  /** The memory after the parent links are cleared and, when there are
      children, their ring is spliced in just before `s[0]`. */
  ghost function Spliced(m: Mem, s: seq<int>, ks: seq<int>): Mem
    requires Promotable(m, s, ks)
  {
    var m1 := m.(parent := Cleared(m.parent, ks, |ks|));
    if ks == [] then m1
    else
      SpliceRing(m1, s, ks);
      SpliceMem(m1, s[0], ks[0])
  }

  lemma SplicedRing(m: Mem, s: seq<int>, ks: seq<int>)
    requires Promotable(m, s, ks)
    ensures ks != [] ==> SpliceReady(m.(parent := Cleared(m.parent, ks, |ks|)), s[0], ks[0])
    ensures var m2 := Spliced(m, s, ks);
      m2 == m.(parent := Cleared(m.parent, ks, |ks|), left := m2.left, right := m2.right) &&
      IsRing(m2.left, m2.right, s + ks) &&
      forall w :: 0 <= w < |m.key| && w !in s && w !in ks ==> m2.left[w] == m.left[w] && m2.right[w] == m.right[w]
  {
    var m1 := m.(parent := Cleared(m.parent, ks, |ks|));
    if ks == [] {
      assert s + ks == s;
    } else {
      SpliceRing(m1, s, ks);
    }
  }

  /** The memory after `removeFromRoot(min)` as well. */
  ghost function PromoteMem(m: Mem, s: seq<int>, ks: seq<int>): Mem
    requires Promotable(m, s, ks)
  {
    SplicedRing(m, s, ks);
    UnlinkRing(Spliced(m, s, ks), s + ks, 0);
    UnlinkMem(Spliced(m, s, ks), s[0])
  }

  /** The promotion leaves one ring of the other roots followed by the
      children, changes no link outside the two rings, and moves the entry
      to the first of them. */
  lemma PromoteRing(m: Mem, s: seq<int>, ks: seq<int>)
    requires Promotable(m, s, ks)
    ensures UnlinkReady(Spliced(m, s, ks), s[0])
    ensures var m3 := PromoteMem(m, s, ks);
      m3 == m.(parent := Cleared(m.parent, ks, |ks|), left := m3.left, right := m3.right) &&
      IsRing(m3.left, m3.right, s[1..] + ks) &&
      (forall w :: 0 <= w < |m.key| && w !in s && w !in ks ==> m3.left[w] == m.left[w] && m3.right[w] == m.right[w]) &&
      (|s| + |ks| >= 2 ==> First(s[1..] + ks) == UnlinkEntry(Spliced(m, s, ks).right, s[0], s[0]))
  {
    SplicedRing(m, s, ks);
    var m2 := Spliced(m, s, ks);
    UnlinkRing(m2, s + ks, 0);
    assert RemoveAt(s + ks, 0) == s[1..] + ks;
  }

  /** The shape after the promotion: `min` is gone and its children are roots. */
  ghost function PromoteShape(sh: Shape, min: int): Shape
    requires min in sh.kids && sh.roots != []
  {
    sh.(nodes := sh.nodes - {min}, roots := sh.roots[1..] + sh.kids[min])
  }

  /** A heap of at least two nodes whose only root is `root` gives `root`
      children: every other node hangs below it. */
  lemma PromoteCount(m: Mem, sh: Shape, root: int)
    requires Grove(m, sh) && |sh.nodes| >= 2 && sh.roots == [root] && root in sh.kids
    ensures sh.kids[root] != []
  {
    assert sh.roots[0] in sh.nodes;
    assert |sh.nodes - {root}| == |sh.nodes| - 1;
    MemberExists(sh.nodes - {root});
    var x :| x in sh.nodes - {root};
    assert NodeOk(m, sh, x);
    var y := ChildOfRootAbove(m, sh, x);
    assert m.parent[y] == root;
  }

  /** The link and parent fields a promoted node sees. */
  ghost predicate PromotedFrom(m: Mem, m3: Mem, s: seq<int>, ks: seq<int>) {
    Sized(m) && Sized(m3) && 0 <= |ks| &&
    m3 == m.(parent := m3.parent, left := m3.left, right := m3.right) &&
    (forall i :: 0 <= i < |ks| ==> 0 <= ks[i] < |m.key| && m3.parent[ks[i]] == Nil) &&
    (forall w :: 0 <= w < |m.key| && w !in ks ==> m3.parent[w] == m.parent[w]) &&
    (forall w :: 0 <= w < |m.key| && w !in s && w !in ks ==> m3.left[w] == m.left[w] && m3.right[w] == m.right[w])
  }

  /** A node other than `min` is well placed after the promotion. */
  lemma PromoteNodeOk(m: Mem, m3: Mem, sh: Shape, min: int, z: int)
    requires Grove(m, sh) && min in sh.nodes && sh.roots != [] && sh.roots[0] == min
    requires PromotedFrom(m, m3, sh.roots, sh.kids[min]) && Distinct(sh.roots)
    requires z in sh.nodes && z != min
    ensures NodeOk(m3, PromoteShape(sh, min), z)
  {
    var sh3 := PromoteShape(sh, min);
    KidsOffRoots(m, sh, min);
    KidsOffRoots(m, sh, z);
    assert NodeOk(m, sh, z);
    var cs := sh.kids[z];
    forall i | 0 <= i < |cs| ensures cs[i] !in sh.kids[min] && cs[i] != min {
    }
    RingFrame(m.left, m.right, m3.left, m3.right, cs);
    if m.parent[z] == Nil {
      assert z in sh.roots[1..] by {
        var i :| 0 <= i < |sh.roots| && sh.roots[i] == z;
        assert i != 0;
        assert sh.roots[1..][i - 1] == z;
      }
    } else if z !in sh.kids[min] {
      assert m.parent[z] != min;
    }
  }

  /** The root list after the promotion holds roots only. */
  lemma PromoteRootsOk(m: Mem, m3: Mem, sh: Shape, min: int)
    requires Grove(m, sh) && min in sh.nodes && sh.roots != [] && sh.roots[0] == min
    requires PromotedFrom(m, m3, sh.roots, sh.kids[min]) && Distinct(sh.roots)
    ensures RootsOk(m3, PromoteShape(sh, min)) && NodesIn(m3, PromoteShape(sh, min))
  {
    KidsOffRoots(m, sh, min);
    var s := sh.roots;
    forall i | 1 <= i < |s| ensures s[i] != min {
      DistinctAt(s, 0, i);
    }
    var ks := sh.kids[min];
    forall i | 0 <= i < |ks| ensures ks[i] != min {
    }
    assert forall i :: 0 <= i < |s| - 1 ==> s[1..][i] == s[i + 1];
  }

  /** Every node other than `min` is well placed after the promotion. */
  lemma PromoteAllOk(m: Mem, m3: Mem, sh: Shape, min: int)
    requires Grove(m, sh) && min in sh.nodes && sh.roots != [] && sh.roots[0] == min
    requires PromotedFrom(m, m3, sh.roots, sh.kids[min]) && Distinct(sh.roots)
    ensures AllNodesOk(m3, PromoteShape(sh, min))
  {
    forall z | z in PromoteShape(sh, min).nodes ensures NodeOk(m3, PromoteShape(sh, min), z) {
      PromoteNodeOk(m, m3, sh, min, z);
    }
  }

  /** Clearing the parent links of the children removes parent edges only. */
  lemma PromoteOrdered(m: Mem, m3: Mem, sh: Shape, min: int)
    requires HeapOrdered(m, sh) && min in sh.kids && sh.roots != []
    requires PromotedFrom(m, m3, sh.roots, sh.kids[min])
    ensures HeapOrdered(m3, PromoteShape(sh, min))
  {
  }

  /** `PopMin` on a heap of at least two nodes: the entry is the first root,
      the promotion is possible, and the loop over the children finds each
      of them with the entry as parent. */
  lemma PromoteStart(m: Mem, sh: Shape, root: int, size: int)
    requires Inv(m, sh, root, size) && size >= 2
    ensures root != Nil && root in sh.nodes && root in sh.kids && sh.roots != [] && sh.roots[0] == root
    ensures Addr(m, root) && m.child[root] == First(sh.kids[root])
    ensures Promotable(m, sh.roots, sh.kids[root]) && |sh.roots| + |sh.kids[root]| >= 2
    ensures forall i :: 0 <= i < |sh.kids[root]| ==> m.parent[sh.kids[root][i]] == root
  {
    RootsIffNodes(m, sh);
    assert sh.roots[0] in sh.nodes;
    var s, ks := sh.roots, sh.kids[root];
    KidsOffRoots(m, sh, root);
    assert NodeOk(m, sh, root);
    forall a, b | 0 <= a < |s| && 0 <= b < |ks| ensures Across(s, ks, a, b) {
    }
    if |s| == 1 {
      assert s == [root];
      PromoteCount(m, sh, root);
    }
  }

  /** `PopMin` up to `consolidate`: the other nodes form a forest whose roots
      are the other roots followed by the former children, each with its
      parent link cleared. */
  lemma PromoteKeeps(m: Mem, sh: Shape, root: int, size: int)
    requires Inv(m, sh, root, size) && size >= 2
    requires root in sh.kids && sh.roots != [] && sh.roots[0] == root && Promotable(m, sh.roots, sh.kids[root])
    ensures var ks := sh.kids[root]; var m3 := PromoteMem(m, sh.roots, ks); var sh3 := PromoteShape(sh, root);
      Forest(m3, sh3) && HeapOrdered(m3, sh3) && m3.key == m.key && m3.id == m.id &&
      sh3.nodes == sh.nodes - {root} && |sh3.nodes| == size - 1 &&
      forall i :: 0 <= i < |ks| ==> m3.parent[ks[i]] == Nil && ks[i] in sh3.roots
  {
    var s, ks := sh.roots, sh.kids[root];
    assert s[0] in sh.nodes;
    PromoteRing(m, s, ks);
    var m3 := PromoteMem(m, s, ks);
    assert ks[..|ks|] == ks;
    assert PromotedFrom(m, m3, s, ks);
    PromoteRootsOk(m, m3, sh, root);
    PromoteAllOk(m, m3, sh, root);
    PromoteOrdered(m, m3, sh, root);
    assert forall i :: 0 <= i < |ks| ==> (s[1..] + ks)[|s| - 1 + i] == ks[i];
  }

  /** Promoting the children stores only to heap nodes: the roots and the
      children of the entry. */
  lemma PromoteKept(m: Mem, sh: Shape, root: int, size: int)
    requires Inv(m, sh, root, size) && size >= 2
    requires root in sh.kids && sh.roots != [] && sh.roots[0] == root && Promotable(m, sh.roots, sh.kids[root])
    ensures Kept(m, PromoteMem(m, sh.roots, sh.kids[root]), sh.nodes)
  {
    var s, ks := sh.roots, sh.kids[root];
    assert s[0] in sh.nodes;
    PromoteRing(m, s, ks);
    KidsOffRoots(m, sh, root);
    var m3 := PromoteMem(m, s, ks);
    assert ks[..|ks|] == ks;
    forall w | 0 <= w < |m.key| && w !in sh.nodes ensures At(m3, w) == At(m, w) {
      assert w !in s && w !in ks;
      assert Cleared(m.parent, ks, |ks|)[w] == m.parent[w];
    }
    KeptIntro(m, m3, sh.nodes);
  }
}
