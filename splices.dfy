// The pointer surgery of fibonacci/heap.go as functions of the memory: each
// function performs, in order, the field stores of one straight-line piece of
// the Go code, and the lemmas beside it say what the stores do to the rings.
module Splices {
  import opened Nodes
  import opened Rings
  import opened Trees

  /** `x` is an address of `m` (a non-nil pointer). */
  ghost predicate Addr(m: Mem, x: int) {
    Sized(m) && 0 <= x < |m.key|
  }

  /** The addresses `addToRoot(n)` dereferences are valid, and `n` is not
      the entry it goes next to. */
  ghost predicate PushReady(m: Mem, root: int, n: int) {
    Addr(m, n) && (root != Nil ==> Addr(m, root) && Addr(m, m.left[root]) && n != root)
  }

  /** `addToRoot`'s stores: with an empty root list `n` becomes a ring of its
      own; otherwise it goes between `root` and `root.left`. */
  ghost function PushMem(m: Mem, root: int, n: int): Mem
    requires PushReady(m, root, n)
  {
    if root == Nil then
      m.(left := m.left[n := n], right := m.right[n := n])
    else
      var left1 := m.left[n := m.left[root]];
      var right1 := m.right[n := root];
      var right2 := right1[left1[root] := n];
      m.(left := left1[root := n], right := right2)
  }

  /** The entry after `addToRoot`: the new node when the list was empty or its
      key is strictly smaller than the entry's. */
  function PushEntry(keys: seq<int>, root: int, n: int): int
    requires 0 <= n < |keys| && (root != Nil ==> 0 <= root < |keys|)
  {
    if root == Nil || keys[n] < keys[root] then n else root
  }

  /** The root list after `addToRoot`, read from the new entry. */
  ghost function PushRoots(keys: seq<int>, roots: seq<int>, root: int, n: int): seq<int>
    requires 0 <= n < |keys| && (root != Nil ==> 0 <= root < |keys|)
  {
    if root == Nil then [n]
    else if keys[n] < keys[root] then [n] + roots
    else roots + [n]
  }

  /** `addToRoot` on a consistent root list keeps it a ring, read from the new
      entry, changes only the links next to `n`, and keeps the entry minimal. */
  lemma PushRing(m: Mem, roots: seq<int>, root: int, n: int)
    requires Sized(m) && IsRing(m.left, m.right, roots) && root == First(roots)
    requires 0 <= n < |m.key| && n !in roots
    ensures PushReady(m, root, n)
    ensures var m' := PushMem(m, root, n); var roots' := PushRoots(m.key, roots, root, n);
      m' == m.(left := m'.left, right := m'.right) &&
      SameExcept(m.left, m'.left, {n, First(roots)}) &&
      SameExcept(m.right, m'.right, {n, Last(roots)}) &&
      IsRing(m'.left, m'.right, roots') &&
      roots'[0] == PushEntry(m.key, root, n) &&
      (root == Nil || RootMin(m.key, roots, root) ==> RootMin(m.key, roots', roots'[0]))
  {
    if root != Nil {
      RingLinks(m.left, m.right, roots, 0);
      var m' := PushMem(m, root, n);
      if m.key[n] < m.key[root] {
        RingInsertFront(m.left, m.right, m'.left, m'.right, roots, n);
        if RootMin(m.key, roots, root) {
          RootMinPrepend(m.key, roots, root, n);
        }
      } else {
        RingInsertBefore(m.left, m.right, m'.left, m'.right, roots, n);
        if RootMin(m.key, roots, root) {
          RootMinAppend(m.key, roots, root, n);
        }
      }
    }
  }

  /** The addresses `node.left.right = node.right; node.right.left = node.left`
      dereferences are valid. */
  ghost predicate UnlinkReady(m: Mem, n: int) {
    Addr(m, n) && Addr(m, m.left[n]) && Addr(m, m.right[n])
  }

  /** The stores that take `n` out of its sibling ring (`removeFromRoot`
      and `cut`): first `n.left.right`, then `n.right.left`. */
  ghost function UnlinkMem(m: Mem, n: int): Mem
    requires UnlinkReady(m, n)
  {
    var right1 := m.right[m.left[n] := m.right[n]];
    m.(left := m.left[right1[n] := m.left[n]], right := right1)
  }

  /** The entry after `removeFromRoot(n)`: `n`'s right neighbour when `n`
      was the entry. */
  function UnlinkEntry(right: seq<int>, root: int, n: int): int
    requires 0 <= n < |right|
  {
    if root == n then right[n] else root
  }

  /** Unlinking a ring member leaves the others a ring, in the same order,
      and changes only the links of its two neighbours; when it was the
      entry, its right neighbour becomes the entry. */
  lemma UnlinkRing(m: Mem, s: seq<int>, k: int)
    requires Sized(m) && IsRing(m.left, m.right, s) && 0 <= k < |s|
    ensures UnlinkReady(m, s[k])
    ensures var m' := UnlinkMem(m, s[k]);
      m' == m.(left := m'.left, right := m'.right) &&
      SameExcept(m.left, m'.left, {s[NextPos(|s|, k)]}) &&
      SameExcept(m.right, m'.right, {s[PrevPos(|s|, k)]}) &&
      IsRing(m'.left, m'.right, RemoveAt(s, k)) &&
      (|s| >= 2 ==> First(RemoveAt(s, k)) == UnlinkEntry(m.right, s[0], s[k]))
  {
    RingLinks(m.left, m.right, s, k);
    var m' := UnlinkMem(m, s[k]);
    if |s| >= 2 {
      DistinctAt(s, k, PrevPos(|s|, k));
      RingRemove(m.left, m.right, m'.left, m'.right, s, k);
      if k > 0 {
        DistinctAt(s, 0, k);
      }
    }
  }

  /** The addresses the splice of the ring entered at `b` into the ring
      entered at `a` dereferences are valid. */
  ghost predicate SpliceReady(m: Mem, a: int, b: int) {
    Addr(m, a) && Addr(m, b) && Addr(m, m.left[a]) && Addr(m, m.left[b])
  }

  /** The stores with which `Meld` and `PopMin` join the ring entered at `b`
      to the ring entered at `a`, just before `a`:
      `last := b.left; b.left = a.left; a.left.right = b; a.left = last;
      a.left.right = a`. */
  ghost function SpliceMem(m: Mem, a: int, b: int): Mem
    requires SpliceReady(m, a, b)
  {
    var last := m.left[b];
    var left1 := m.left[b := m.left[a]];
    var right1 := m.right[left1[a] := b];
    var left2 := left1[a := last];
    m.(left := left2, right := right1[left2[a] := a])
  }

  /** Splicing two disjoint rings gives one ring: `s` then `t` read from `a`,
      `t` then `s` read from `b`. Only the links at the two seams change. */
  lemma SpliceRing(m: Mem, s: seq<int>, t: seq<int>)
    requires Sized(m) && IsRing(m.left, m.right, s) && IsRing(m.left, m.right, t)
    requires |s| > 0 && |t| > 0 && Disjoint(s, t)
    ensures SpliceReady(m, s[0], t[0])
    ensures var m' := SpliceMem(m, s[0], t[0]);
      m' == m.(left := m'.left, right := m'.right) &&
      SameExcept(m.left, m'.left, {s[0], t[0]}) &&
      SameExcept(m.right, m'.right, {s[|s| - 1], t[|t| - 1]}) &&
      IsRing(m'.left, m'.right, s + t) && IsRing(m'.left, m'.right, t + s)
  {
    RingLinks(m.left, m.right, s, 0);
    RingLinks(m.left, m.right, t, 0);
    DisjointAt(s, t, 0, 0);
    DisjointAt(s, t, |s| - 1, |t| - 1);
    var m' := SpliceMem(m, s[0], t[0]);
    RingSplice(m.left, m.right, m'.left, m'.right, s, t);
  }

  /** The child ring of `x` after `link` adds `y`: `y` alone, or `y` right
      after the entry. */
  function AdoptKids(ks: seq<int>, y: int): seq<int> {
    if ks == [] then [y] else [ks[0], y] + ks[1..]
  }

  lemma AdoptKidsMembers(ks: seq<int>, y: int)
    ensures |AdoptKids(ks, y)| == |ks| + 1 && y in AdoptKids(ks, y)
    ensures forall i :: 0 <= i < |ks| ==> ks[i] in AdoptKids(ks, y)
    ensures forall i :: 0 <= i < |AdoptKids(ks, y)| ==> AdoptKids(ks, y)[i] == y || AdoptKids(ks, y)[i] in ks
  {
    if ks != [] {
      var t := AdoptKids(ks, y);
      forall i | 0 <= i < |ks| ensures ks[i] in t {
        if i > 0 {
          assert t[i + 1] == ks[i];
        }
      }
      forall i | 0 <= i < |t| ensures t[i] == y || t[i] in ks {
        if i > 1 {
          assert t[i] == ks[i - 1];
        }
      }
    }
  }

  /** The addresses the second half of `link(x, y)` dereferences are valid. */
  ghost predicate AdoptReady(m: Mem, x: int, y: int) {
    Addr(m, x) && Addr(m, y) &&
    (m.child[x] != Nil ==> Addr(m, m.child[x]) && Addr(m, m.right[m.child[x]]))
  }

  /** `link(x, y)` after `removeFromRoot(y)`: `y` becomes the only child of
      `x`, or goes right after `x.child`; then `y.parent = x`, `x.degree++`
      and `y.marked = false`. */
  ghost function AdoptMem(m: Mem, x: int, y: int): Mem
    requires AdoptReady(m, x, y)
  {
    var m1 :=
      if m.child[x] == Nil then
        m.(child := m.child[x := y], left := m.left[y := y], right := m.right[y := y])
      else
        var c := m.child[x];
        var right1 := m.right[y := m.right[c]];
        var left1 := m.left[y := c];
        m.(left := left1[right1[c] := y], right := right1[c := y]);
    m1.(parent := m1.parent[y := x], degree := m1.degree[x := m1.degree[x] + 1],
        marked := m1.marked[y := false])
  }

  /** The addresses all of `link(x, y)` dereferences are valid. */
  ghost predicate LinkReady(m: Mem, x: int, y: int) {
    UnlinkReady(m, y) && AdoptReady(UnlinkMem(m, y), x, y)
  }

  /** All stores of `link(x, y)`. */
  ghost function LinkMem(m: Mem, x: int, y: int): Mem
    requires LinkReady(m, x, y)
  {
    AdoptMem(UnlinkMem(m, y), x, y)
  }

  /** Adding a node that is in no ring to the child ring of `x` gives the ring
      `AdoptKids`, touching only the links of `y` and of the entry and its
      right neighbour, and sets exactly the fields `link` names. */
  lemma AdoptRing(m: Mem, ks: seq<int>, x: int, y: int)
    requires Addr(m, x) && Addr(m, y) && IsRing(m.left, m.right, ks)
    requires m.child[x] == First(ks) && y !in ks
    ensures AdoptReady(m, x, y)
    ensures var m' := AdoptMem(m, x, y);
      m'.id == m.id && m'.key == m.key && Sized(m') &&
      m'.child == m.child[x := First(AdoptKids(ks, y))] &&
      m'.parent == m.parent[y := x] && m'.degree == m.degree[x := m.degree[x] + 1] &&
      m'.marked == m.marked[y := false] &&
      (ks == [] ==> SameExcept(m.left, m'.left, {y}) && SameExcept(m.right, m'.right, {y})) &&
      (ks != [] ==> SameExcept(m.left, m'.left, {y, ks[NextPos(|ks|, 0)]}) &&
                    SameExcept(m.right, m'.right, {y, ks[0]})) &&
      IsRing(m'.left, m'.right, AdoptKids(ks, y))
  {
    if ks == [] {
      AdoptFirst(m, x, y);
    } else {
      AdoptNext(m, ks, x, y);
    }
  }

  lemma AdoptFirst(m: Mem, x: int, y: int)
    requires Addr(m, x) && Addr(m, y) && m.child[x] == Nil
    ensures AdoptReady(m, x, y)
    ensures var m' := AdoptMem(m, x, y);
      m'.id == m.id && m'.key == m.key && Sized(m') &&
      m'.child == m.child[x := y] &&
      m'.parent == m.parent[y := x] && m'.degree == m.degree[x := m.degree[x] + 1] &&
      m'.marked == m.marked[y := false] &&
      SameExcept(m.left, m'.left, {y}) && SameExcept(m.right, m'.right, {y}) &&
      IsRing(m'.left, m'.right, [y])
  {
  }

  lemma AdoptNext(m: Mem, ks: seq<int>, x: int, y: int)
    requires Addr(m, x) && Addr(m, y) && IsRing(m.left, m.right, ks)
    requires ks != [] && m.child[x] == ks[0] && y !in ks
    ensures AdoptReady(m, x, y)
    ensures var m' := AdoptMem(m, x, y);
      m'.id == m.id && m'.key == m.key && Sized(m') &&
      m'.child == m.child &&
      m'.parent == m.parent[y := x] && m'.degree == m.degree[x := m.degree[x] + 1] &&
      m'.marked == m.marked[y := false] &&
      SameExcept(m.left, m'.left, {y, ks[NextPos(|ks|, 0)]}) &&
      SameExcept(m.right, m'.right, {y, ks[0]}) &&
      IsRing(m'.left, m'.right, [ks[0], y] + ks[1..])
  {
    RingLinks(m.left, m.right, ks, 0);
    var m' := AdoptMem(m, x, y);
    RingInsertAfter(m.left, m.right, m'.left, m'.right, ks, y);
  }

  /** `link(x, y)` with `y` the `k`th member of the ring `s` and `ks` the
      child ring of `x`, which shares no node with `s`: `y` leaves `s` and
      joins `ks`, and no link outside the two rings changes. */
  lemma LinkRing(m: Mem, s: seq<int>, k: int, ks: seq<int>, x: int)
    requires Sized(m) && IsRing(m.left, m.right, s) && 2 <= |s| && 0 <= k < |s|
    requires IsRing(m.left, m.right, ks) && Disjoint(s, ks)
    requires Addr(m, x) && m.child[x] == First(ks)
    ensures LinkReady(m, x, s[k])
    ensures var y := s[k]; var m' := LinkMem(m, x, y);
      m'.id == m.id && m'.key == m.key && Sized(m') &&
      m'.child == m.child[x := First(AdoptKids(ks, y))] &&
      m'.parent == m.parent[y := x] && m'.degree == m.degree[x := m.degree[x] + 1] &&
      m'.marked == m.marked[y := false] &&
      IsRing(m'.left, m'.right, RemoveAt(s, k)) && IsRing(m'.left, m'.right, AdoptKids(ks, y)) &&
      forall w :: 0 <= w < |m.key| && w !in s && w !in ks ==>
        m'.left[w] == m.left[w] && m'.right[w] == m.right[w]
  {
    var y := s[k];
    UnlinkRing(m, s, k);
    var m1 := UnlinkMem(m, y);
    forall i | 0 <= i < |ks| ensures m1.left[ks[i]] == m.left[ks[i]] && m1.right[ks[i]] == m.right[ks[i]] {
      DisjointAt(s, ks, NextPos(|s|, k), i);
      DisjointAt(s, ks, PrevPos(|s|, k), i);
    }
    RingFrame(m.left, m.right, m1.left, m1.right, ks);
    forall i | 0 <= i < |ks| ensures ks[i] != y {
      DisjointAt(s, ks, k, i);
    }
    AdoptRing(m1, ks, x, y);
    LinkKeepsRoots(m1, LinkMem(m, x, y), s, k, ks);
  }

  /** The rest of the root ring is untouched by the second half of `link`. */
  lemma LinkKeepsRoots(m1: Mem, m': Mem, s: seq<int>, k: int, ks: seq<int>)
    requires 0 <= k < |s| && IsRing(m1.left, m1.right, RemoveAt(s, k)) && Distinct(s) && Disjoint(s, ks)
    requires ks == [] ==> SameExcept(m1.left, m'.left, {s[k]}) && SameExcept(m1.right, m'.right, {s[k]})
    requires ks != [] ==> SameExcept(m1.left, m'.left, {s[k], ks[NextPos(|ks|, 0)]}) &&
                          SameExcept(m1.right, m'.right, {s[k], ks[0]})
    ensures IsRing(m'.left, m'.right, RemoveAt(s, k))
  {
    RemoveAtMembers(s, k);
    var t := RemoveAt(s, k);
    forall i | 0 <= i < |t| ensures m'.left[t[i]] == m1.left[t[i]] && m'.right[t[i]] == m1.right[t[i]] {
      var j := if i < k then i else i + 1;
      assert t[i] == s[j];
      DistinctAt(s, j, k);
      if ks != [] {
        DisjointAt(s, ks, j, 0);
        DisjointAt(s, ks, j, NextPos(|ks|, 0));
      }
    }
    RingFrame(m1.left, m1.right, m'.left, m'.right, t);
  }

  /** The members of the root list after `addToRoot(n)` are the old ones and `n`. */
  lemma PushRootsMembers(keys: seq<int>, roots: seq<int>, root: int, n: int)
    requires 0 <= n < |keys| && (root != Nil ==> 0 <= root < |keys|) && root == First(roots)
    requires forall i :: 0 <= i < |roots| ==> 0 <= roots[i]
    ensures |PushRoots(keys, roots, root, n)| == |roots| + 1 && n in PushRoots(keys, roots, root, n)
    ensures forall i :: 0 <= i < |roots| ==> roots[i] in PushRoots(keys, roots, root, n)
    ensures forall i :: 0 <= i < |roots| + 1 ==>
      PushRoots(keys, roots, root, n)[i] == n || PushRoots(keys, roots, root, n)[i] in roots
  {
    var t := PushRoots(keys, roots, root, n);
    if root != Nil && keys[n] < keys[root] {
      forall i | 0 <= i < |roots| ensures roots[i] in t {
        assert t[i + 1] == roots[i];
      }
      forall i | 0 <= i < |roots| + 1 ensures t[i] == n || t[i] in roots {
        if i > 0 {
          assert t[i] == roots[i - 1];
        }
      }
    } else if root != Nil {
      forall i | 0 <= i < |roots| ensures roots[i] in t {
        assert t[i] == roots[i];
      }
      forall i | 0 <= i < |roots| + 1 ensures t[i] == n || t[i] in roots {
        if i < |roots| {
          assert t[i] == roots[i];
        }
      }
    }
  }

  /** The addresses `cut`'s `switch parent.child` dereferences are valid. */
  ghost predicate DetachReady(m: Mem, p: int, n: int) {
    Addr(m, p) && Addr(m, m.child[p]) && Addr(m, m.right[m.child[p]]) && Addr(m, n) &&
    Addr(m, m.right[n])
  }

  /** `cut`'s first store: `parent.child` becomes nil when it is its own right
      neighbour, moves to `n.right` when it is `n`, and stays otherwise. */
  ghost function DetachMem(m: Mem, p: int, n: int): Mem
    requires DetachReady(m, p, n)
  {
    var c := m.child[p];
    if c == m.right[c] then m.(child := m.child[p := Nil])
    else if c == n then m.(child := m.child[p := m.right[n]])
    else m
  }

  /** The addresses all of `cut(p, n)` dereferences are valid. */
  ghost predicate CutReady(m: Mem, root: int, p: int, n: int) {
    DetachReady(m, p, n) && UnlinkReady(m, n) &&
    PushReady(UnlinkMem(DetachMem(m, p, n), n), root, n)
  }

  /** All stores of `cut(p, n)`: detach from `p.child`, unlink from the
      sibling ring, `addToRoot(n)`, then `p.degree--`, `n.parent = nil` and
      `n.marked = false`. */
  ghost function CutMem(m: Mem, root: int, p: int, n: int): Mem
    requires CutReady(m, root, p, n)
  {
    var m3 := PushMem(UnlinkMem(DetachMem(m, p, n), n), root, n);
    m3.(degree := m3.degree[p := m3.degree[p] - 1], parent := m3.parent[n := Nil],
        marked := m3.marked[n := false])
  }

  /** `cut`'s `switch` leaves `p.child` at the entry of the child ring
      without `n`. */
  lemma DetachChild(m: Mem, ks: seq<int>, p: int, j: int)
    requires Addr(m, p) && IsRing(m.left, m.right, ks) && 0 <= j < |ks| && m.child[p] == ks[0]
    ensures DetachReady(m, p, ks[j])
    ensures DetachMem(m, p, ks[j]) == m.(child := m.child[p := First(RemoveAt(ks, j))])
  {
    RingLinks(m.left, m.right, ks, 0);
    RingLinks(m.left, m.right, ks, j);
    if |ks| >= 2 {
      DistinctAt(ks, 0, 1);
      if j > 0 {
        DistinctAt(ks, 0, j);
      }
    }
  }

  /** `cut(p, n)` with `n` the `j`th member of the child ring `ks` of `p`,
      which shares no node with the root ring: `n` leaves `ks` and joins the
      roots as `addToRoot` does. */
  lemma CutRing(m: Mem, roots: seq<int>, root: int, ks: seq<int>, p: int, j: int)
    requires Sized(m) && IsRing(m.left, m.right, roots) && root == First(roots)
    requires IsRing(m.left, m.right, ks) && 0 <= j < |ks| && Disjoint(roots, ks)
    requires Addr(m, p) && m.child[p] == ks[0]
    ensures CutReady(m, root, p, ks[j])
    ensures var n := ks[j]; var m' := CutMem(m, root, p, n);
      var roots' := PushRoots(m.key, roots, root, n);
      IsRing(m'.left, m'.right, RemoveAt(ks, j)) && IsRing(m'.left, m'.right, roots') &&
      roots'[0] == PushEntry(m.key, root, n) &&
      (root == Nil || RootMin(m.key, roots, root) ==> RootMin(m.key, roots', roots'[0]))
  {
    var n := ks[j];
    CutUnlink(m, roots, ks, p, j);
    var m2 := UnlinkMem(DetachMem(m, p, n), n);
    forall i | 0 <= i < |roots| ensures roots[i] != n {
      DisjointAt(roots, ks, i, j);
    }
    PushRing(m2, roots, root, n);
    CutKeepsKids(m2, PushMem(m2, root, n), roots, ks, j);
  }

  /** The fields `cut(p, n)` sets. */
  lemma CutFields(m: Mem, roots: seq<int>, root: int, ks: seq<int>, p: int, j: int)
    requires Sized(m) && IsRing(m.left, m.right, roots) && root == First(roots)
    requires IsRing(m.left, m.right, ks) && 0 <= j < |ks| && Disjoint(roots, ks)
    requires Addr(m, p) && m.child[p] == ks[0]
    ensures CutReady(m, root, p, ks[j])
    ensures var n := ks[j]; var m' := CutMem(m, root, p, n);
      m'.id == m.id && m'.key == m.key && Sized(m') &&
      m'.child == m.child[p := First(RemoveAt(ks, j))] &&
      m'.parent == m.parent[n := Nil] && m'.degree == m.degree[p := m.degree[p] - 1] &&
      m'.marked == m.marked[n := false]
  {
    var n := ks[j];
    CutUnlink(m, roots, ks, p, j);
    var m2 := UnlinkMem(DetachMem(m, p, n), n);
    CutPush(m2, roots, root, ks, j);
  }

  /** `cut(p, n)` changes no link outside the root ring and the child ring. */
  lemma CutFrame(m: Mem, roots: seq<int>, root: int, ks: seq<int>, p: int, j: int)
    requires Sized(m) && IsRing(m.left, m.right, roots) && root == First(roots)
    requires IsRing(m.left, m.right, ks) && 0 <= j < |ks| && Disjoint(roots, ks)
    requires Addr(m, p) && m.child[p] == ks[0]
    requires CutReady(m, root, p, ks[j])
    ensures var m' := CutMem(m, root, p, ks[j]);
      forall w :: 0 <= w < |m.key| && w !in roots && w !in ks ==>
        m'.left[w] == m.left[w] && m'.right[w] == m.right[w]
  {
    var n := ks[j];
    CutUnlinkFrame(m, roots, ks, p, j);
    var m2 := UnlinkMem(DetachMem(m, p, n), n);
    CutPush(m2, roots, root, ks, j);
    var m3 := PushMem(m2, root, n);
    var a, b := ks[NextPos(|ks|, j)], ks[PrevPos(|ks|, j)];
    SameExceptTrans(m.left, m2.left, m3.left, {a}, {n, First(roots)});
    SameExceptTrans(m.right, m2.right, m3.right, {b}, {n, Last(roots)});
    forall w | 0 <= w < |m.key| && w !in roots && w !in ks
      ensures w !in {a} + {n, First(roots)} && w !in {b} + {n, Last(roots)}
    {
      assert w != n && w != a && w != b;
      assert w != First(roots) && w != Last(roots);
    }
  }

  /** The part of `CutUnlink` that `CutFrame` needs. */
  lemma CutUnlinkFrame(m: Mem, roots: seq<int>, ks: seq<int>, p: int, j: int)
    requires Sized(m) && IsRing(m.left, m.right, roots)
    requires IsRing(m.left, m.right, ks) && 0 <= j < |ks| && Disjoint(roots, ks)
    requires Addr(m, p) && m.child[p] == ks[0]
    ensures DetachReady(m, p, ks[j]) && UnlinkReady(DetachMem(m, p, ks[j]), ks[j])
    ensures var m2 := UnlinkMem(DetachMem(m, p, ks[j]), ks[j]);
      Sized(m2) && m2.key == m.key && IsRing(m2.left, m2.right, roots) &&
      SameExcept(m.left, m2.left, {ks[NextPos(|ks|, j)]}) &&
      SameExcept(m.right, m2.right, {ks[PrevPos(|ks|, j)]})
  {
    CutUnlink(m, roots, ks, p, j);
  }

  /** Two writes with footprints `e1` and `e2` change nothing outside `e1 + e2`. */
  lemma SameExceptTrans(a: seq<int>, b: seq<int>, c: seq<int>, e1: set<int>, e2: set<int>)
    requires SameExcept(a, b, e1) && SameExcept(b, c, e2)
    ensures SameExcept(a, c, e1 + e2)
  {
  }

  /** Stores to the sibling links at addresses in `e1` (`left`) and `e2`
      (`right`) keep every record outside a set that holds those addresses. */
  lemma LinksKept(m: Mem, m': Mem, e1: set<int>, e2: set<int>, S: set<int>)
    requires Sized(m) && m' == m.(left := m'.left, right := m'.right)
    requires SameExcept(m.left, m'.left, e1) && SameExcept(m.right, m'.right, e2)
    requires forall x :: x in e1 + e2 && 0 <= x < |m.key| ==> x in S
    ensures Kept(m, m', S)
  {
    KeptIntro(m, m', S);
  }

  /** The `addToRoot(n)` step of `cut`, for a child `n` that is not a root. */
  lemma CutPush(m2: Mem, roots: seq<int>, root: int, ks: seq<int>, j: int)
    requires Sized(m2) && IsRing(m2.left, m2.right, roots) && root == First(roots)
    requires 0 <= j < |ks| && Disjoint(roots, ks) && 0 <= ks[j] < |m2.key|
    ensures PushReady(m2, root, ks[j])
    ensures var m3 := PushMem(m2, root, ks[j]);
      m3 == m2.(left := m3.left, right := m3.right) &&
      SameExcept(m2.left, m3.left, {ks[j], First(roots)}) &&
      SameExcept(m2.right, m3.right, {ks[j], Last(roots)})
  {
    forall i | 0 <= i < |roots| ensures roots[i] != ks[j] {
      DisjointAt(roots, ks, i, j);
    }
    PushRing(m2, roots, root, ks[j]);
  }

  /** The first two steps of `cut`: detaching `n` from `p.child` and
      unlinking it leave the child ring without `n` and the root ring as it was. */
  lemma CutUnlink(m: Mem, roots: seq<int>, ks: seq<int>, p: int, j: int)
    requires Sized(m) && IsRing(m.left, m.right, roots)
    requires IsRing(m.left, m.right, ks) && 0 <= j < |ks| && Disjoint(roots, ks)
    requires Addr(m, p) && m.child[p] == ks[0]
    ensures DetachReady(m, p, ks[j]) && UnlinkReady(DetachMem(m, p, ks[j]), ks[j])
    ensures var m2 := UnlinkMem(DetachMem(m, p, ks[j]), ks[j]);
      m2 == m.(child := m.child[p := First(RemoveAt(ks, j))], left := m2.left, right := m2.right) &&
      IsRing(m2.left, m2.right, RemoveAt(ks, j)) && IsRing(m2.left, m2.right, roots) &&
      SameExcept(m.left, m2.left, {ks[NextPos(|ks|, j)]}) &&
      SameExcept(m.right, m2.right, {ks[PrevPos(|ks|, j)]})
  {
    var n := ks[j];
    DetachChild(m, ks, p, j);
    var m1 := DetachMem(m, p, n);
    UnlinkRing(m1, ks, j);
    var m2 := UnlinkMem(m1, n);
    forall i | 0 <= i < |roots| ensures m2.left[roots[i]] == m.left[roots[i]] && m2.right[roots[i]] == m.right[roots[i]] {
      DisjointAt(roots, ks, i, NextPos(|ks|, j));
      DisjointAt(roots, ks, i, PrevPos(|ks|, j));
    }
    RingFrame(m.left, m.right, m2.left, m2.right, roots);
  }

  /** The rest of the child ring is untouched by the `addToRoot` inside `cut`. */
  lemma CutKeepsKids(m2: Mem, m3: Mem, roots: seq<int>, ks: seq<int>, j: int)
    requires 0 <= j < |ks| && IsRing(m2.left, m2.right, RemoveAt(ks, j)) && Distinct(ks)
    requires Disjoint(roots, ks)
    requires SameExcept(m2.left, m3.left, {ks[j], First(roots)})
    requires SameExcept(m2.right, m3.right, {ks[j], Last(roots)})
    ensures IsRing(m3.left, m3.right, RemoveAt(ks, j))
  {
    RemoveAtMembers(ks, j);
    var t := RemoveAt(ks, j);
    forall i | 0 <= i < |t| ensures m3.left[t[i]] == m2.left[t[i]] && m3.right[t[i]] == m2.right[t[i]] {
      var l := if i < j then i else i + 1;
      assert t[i] == ks[l];
      DistinctAt(ks, l, j);
      if roots != [] {
        DisjointAt(roots, ks, 0, l);
        DisjointAt(roots, ks, |roots| - 1, l);
      }
    }
    RingFrame(m2.left, m2.right, m3.left, m3.right, t);
  }
}
