// Circular doubly-linked sibling rings over the node arena.
//
// A ring is described by the ghost sequence of its members in `right` order:
// following `right` from each member reaches the next one, the last member's
// `right` is the first member, and `left` is the inverse of `right`. The lemmas
// below describe the four pointer splices of the Go code: unlinking one node,
// inserting a node before the ring's entry (`addToRoot`), inserting a node
// right after the entry (`link`) and concatenating two rings (`Meld`, `PopMin`).
module Rings {
  import opened Nodes

  /** Positions `i` and `j` of `s` hold different members. */
  ghost predicate Apart(s: seq<int>, i: int, j: int) {
    0 <= i < |s| && 0 <= j < |s| && s[i] != s[j]
  }

  /** No member occurs twice. The facts are used by naming `Apart` for a pair
      of positions (or through `DistinctAt`), so that a ring in scope does not
      relate every pair of its positions unasked. */
  ghost predicate Distinct(s: seq<int>) {
    forall i, j {:trigger Apart(s, i, j)} :: 0 <= i < j < |s| ==> Apart(s, i, j)
  }

  /** Position `i` of `s` and position `j` of `t` hold different members. */
  ghost predicate Across(s: seq<int>, t: seq<int>, i: int, j: int) {
    0 <= i < |s| && 0 <= j < |t| && s[i] != t[j]
  }

  /** No member of `s` is a member of `t`. */
  ghost predicate Disjoint(s: seq<int>, t: seq<int>) {
    forall i, j {:trigger Across(s, t, i, j)} :: 0 <= i < |s| && 0 <= j < |t| ==> Across(s, t, i, j)
  }

  lemma DistinctAt(s: seq<int>, i: int, j: int)
    requires Distinct(s) && 0 <= i < |s| && 0 <= j < |s| && i != j
    ensures s[i] != s[j]
  {
    if i < j {
      assert Apart(s, i, j);
    } else {
      assert Apart(s, j, i);
    }
  }

  lemma DisjointAt(s: seq<int>, t: seq<int>, i: int, j: int)
    requires Disjoint(s, t) && 0 <= i < |s| && 0 <= j < |t|
    ensures s[i] != t[j]
  {
    assert Across(s, t, i, j);
  }

  lemma DisjointSingle(s: seq<int>, n: int)
    requires n !in s
    ensures Disjoint(s, [n])
  {
    forall i, j | 0 <= i < |s| && 0 <= j < 1 ensures Across(s, [n], i, j) {
      assert s[i] in s;
    }
  }

  lemma DistinctRemove(s: seq<int>, k: int)
    requires Distinct(s) && 0 <= k < |s|
    ensures Distinct(s[..k] + s[k + 1..])
  {
    var t := s[..k] + s[k + 1..];
    assert forall j :: 0 <= j < |t| ==> t[j] == if j < k then s[j] else s[j + 1];
    forall i, j | 0 <= i < j < |t| ensures Apart(t, i, j) {
      var i' := if i < k then i else i + 1;
      var j' := if j < k then j else j + 1;
      assert t[i] == s[i'] && t[j] == s[j'] && Apart(s, i', j');
    }
  }

  lemma DistinctConcat(s: seq<int>, t: seq<int>)
    requires Distinct(s) && Distinct(t) && Disjoint(s, t)
    ensures Distinct(s + t) && Distinct(t + s)
  {
    var st := s + t;
    forall i, j | 0 <= i < j < |st| ensures Apart(st, i, j) {
      if j < |s| {
        assert st[i] == s[i] && st[j] == s[j] && Apart(s, i, j);
      } else if i >= |s| {
        assert st[i] == t[i - |s|] && st[j] == t[j - |s|] && Apart(t, i - |s|, j - |s|);
      } else {
        assert st[i] == s[i] && st[j] == t[j - |s|] && Across(s, t, i, j - |s|);
      }
    }
    var ts := t + s;
    forall i, j | 0 <= i < j < |ts| ensures Apart(ts, i, j) {
      if j < |t| {
        assert ts[i] == t[i] && ts[j] == t[j] && Apart(t, i, j);
      } else if i >= |t| {
        assert ts[i] == s[i - |t|] && ts[j] == s[j - |t|] && Apart(s, i - |t|, j - |t|);
      } else {
        assert ts[i] == t[i] && ts[j] == s[j - |t|] && Across(s, t, j - |t|, i);
      }
    }
  }

  /** A non-empty set has a member to choose. */
  lemma MemberExists(s: set<int>)
    requires s != {}
    ensures exists x :: x in s
  {
    if forall x :: x !in s {
      assert false;
    }
  }

  /** A non-empty map has a key to choose. */
  lemma KeyExists(m: map<int, int>)
    requires m != map[]
    ensures exists d :: d in m
  {
    if forall d :: d !in m {
      assert false;
    }
  }

  /** `s` lists, in `right` order, the members of one consistent sibling ring
      of the link fields `L` (`left`) and `R` (`right`). */
  ghost predicate IsRing(L: seq<int>, R: seq<int>, s: seq<int>) {
    |L| == |R| &&
    (forall i :: 0 <= i < |s| ==> 0 <= s[i] < |L|) &&
    Distinct(s) &&
    (forall i :: 0 <= i < |s| - 1 ==> R[s[i]] == s[i + 1] && L[s[i + 1]] == s[i]) &&
    (|s| > 0 ==> R[s[|s| - 1]] == s[0] && L[s[0]] == s[|s| - 1])
  }

  /** `b` agrees with `a` at every index outside `ex`. */
  ghost predicate SameExcept(a: seq<int>, b: seq<int>, ex: set<int>) {
    |a| == |b| && forall x :: 0 <= x < |a| && x !in ex ==> b[x] == a[x]
  }

  /** The node reached from `x` after `m` steps along `right`. */
  ghost function Follow(R: seq<int>, x: int, m: nat): int
    decreases m
  {
    if m == 0 then x
    else
      var y := Follow(R, x, m - 1);
      if 0 <= y < |R| then R[y] else Nil
  }

  /** The entry of a ring, or `Nil` for an empty one. */
  function First(s: seq<int>): int {
    if s == [] then Nil else s[0]
  }

  /** The last member of a ring, or `Nil` for an empty one. */
  function Last(s: seq<int>): int {
    if s == [] then Nil else s[|s| - 1]
  }

  /** `s` without its member at position `k`. */
  function RemoveAt(s: seq<int>, k: int): seq<int>
    requires 0 <= k < |s|
  {
    s[..k] + s[k + 1..]
  }

  /** The position of `x` in `s` (its first one). */
  function IndexOf(s: seq<int>, x: int): (i: int)
    requires x in s
    ensures 0 <= i < |s| && s[i] == x
    ensures forall j :: 0 <= j < i ==> s[j] != x
  {
    if s[0] == x then 0 else 1 + IndexOf(s[1..], x)
  }

  /** The members of `RemoveAt(s, k)` are those of `s` but the `k`th; in a
      duplicate-free sequence, that one is gone. */
  lemma RemoveAtMembers(s: seq<int>, k: int)
    requires 0 <= k < |s|
    ensures |RemoveAt(s, k)| == |s| - 1
    ensures forall i :: 0 <= i < |s| - 1 ==> RemoveAt(s, k)[i] == s[if i < k then i else i + 1]
    ensures Distinct(s) ==> s[k] !in RemoveAt(s, k) && Distinct(RemoveAt(s, k))
  {
    if Distinct(s) {
      DistinctRemove(s, k);
      forall i | 0 <= i < |s| - 1 ensures RemoveAt(s, k)[i] != s[k] {
        DistinctAt(s, k, if i < k then i else i + 1);
      }
    }
  }

  /** Removing one member of a sequence keeps every other one. */
  lemma RemoveAtKeeps(s: seq<int>, k: int, x: int)
    requires 0 <= k < |s| && x in s && x != s[k]
    ensures x in RemoveAt(s, k)
  {
    var i := IndexOf(s, x);
    if i < k {
      assert RemoveAt(s, k)[i] == x;
    } else {
      assert RemoveAt(s, k)[i - 1] == x;
    }
  }

  /** Position of the right neighbour of position `i` in a ring of `n` members. */
  function NextPos(n: int, i: int): int {
    if i == n - 1 then 0 else i + 1
  }

  /** Position of the left neighbour of position `i` in a ring of `n` members. */
  function PrevPos(n: int, i: int): int {
    if i == 0 then n - 1 else i - 1
  }

  lemma RingLinks(L: seq<int>, R: seq<int>, s: seq<int>, i: int)
    requires IsRing(L, R, s) && 0 <= i < |s|
    ensures R[s[i]] == s[NextPos(|s|, i)]
    ensures L[s[i]] == s[PrevPos(|s|, i)]
  {
    if i > 0 {
      assert R[s[i - 1]] == s[i] && L[s[i]] == s[i - 1];
    }
  }

  /** Following `right` from position `i` walks the ring in order: after `m`
      steps it is at position `i + m`, wrapping once past the end. */
  lemma {:induction false} RingWalk(L: seq<int>, R: seq<int>, s: seq<int>, i: nat, m: nat)
    requires IsRing(L, R, s) && i < |s| && m <= |s|
    ensures Follow(R, s[i], m) == s[if i + m < |s| then i + m else i + m - |s|]
    decreases m
  {
    if m > 0 {
      RingWalk(L, R, s, i, m - 1);
      var j := if i + m - 1 < |s| then i + m - 1 else i + m - 1 - |s|;
      RingLinks(L, R, s, j);
    }
  }

  /** Following `right` `|s|` times from any member returns to that member, and
      no fewer steps do. */
  lemma RingCloses(L: seq<int>, R: seq<int>, s: seq<int>, i: nat)
    requires IsRing(L, R, s) && i < |s|
    ensures Follow(R, s[i], |s|) == s[i]
    ensures forall m :: 0 < m < |s| ==> Follow(R, s[i], m) != s[i]
  {
    RingWalk(L, R, s, i, |s|);
    forall m | 0 < m < |s| ensures Follow(R, s[i], m) != s[i] {
      RingWalk(L, R, s, i, m);
      DistinctAt(s, i, if i + m < |s| then i + m else i + m - |s|);
    }
  }

  lemma RingFrame(L: seq<int>, R: seq<int>, L': seq<int>, R': seq<int>, s: seq<int>)
    requires IsRing(L, R, s) && |L'| == |R'| && |L| <= |L'|
    requires forall i :: 0 <= i < |s| ==> L'[s[i]] == L[s[i]] && R'[s[i]] == R[s[i]]
    ensures IsRing(L', R', s)
  {
  }

  /** Unlinking `s[k]` (`node.left.right = node.right; node.right.left = node.left`)
      leaves the other members as a ring. */
  lemma RingRemove(L: seq<int>, R: seq<int>, L': seq<int>, R': seq<int>, s: seq<int>, k: int)
    requires IsRing(L, R, s) && 2 <= |s| && 0 <= k < |s|
    requires SameExcept(L, L', {s[NextPos(|s|, k)]}) && SameExcept(R, R', {s[PrevPos(|s|, k)]})
    requires R'[s[PrevPos(|s|, k)]] == s[NextPos(|s|, k)]
    requires L'[s[NextPos(|s|, k)]] == s[PrevPos(|s|, k)]
    ensures IsRing(L', R', s[..k] + s[k + 1..])
  {
    var n := |s|;
    var l, r := s[PrevPos(n, k)], s[NextPos(n, k)];
    var t := s[..k] + s[k + 1..];
    assert |t| == n - 1;
    DistinctRemove(s, k);
    forall j | 0 <= j < |t| - 1 ensures R'[t[j]] == t[j + 1] && L'[t[j + 1]] == t[j] {
      RingRemoveStep(L, R, L', R', s, k, j);
    }
    if k == 0 {
      assert t[0] == r && t[|t| - 1] == l;
    } else if k == n - 1 {
      assert t[0] == r && t[|t| - 1] == l;
    } else {
      assert t[0] == s[0] && t[|t| - 1] == s[n - 1];
      DistinctAt(s, n - 1, k - 1);
      DistinctAt(s, 0, k + 1);
    }
  }

  lemma RingRemoveStep(L: seq<int>, R: seq<int>, L': seq<int>, R': seq<int>, s: seq<int>, k: int, j: int)
    requires IsRing(L, R, s) && 2 <= |s| && 0 <= k < |s| && 0 <= j < |s| - 2
    requires SameExcept(L, L', {s[NextPos(|s|, k)]}) && SameExcept(R, R', {s[PrevPos(|s|, k)]})
    requires R'[s[PrevPos(|s|, k)]] == s[NextPos(|s|, k)]
    requires L'[s[NextPos(|s|, k)]] == s[PrevPos(|s|, k)]
    ensures var t := s[..k] + s[k + 1..];
      R'[t[j]] == t[j + 1] && L'[t[j + 1]] == t[j]
  {
    var l, r := s[PrevPos(|s|, k)], s[NextPos(|s|, k)];
    var t := s[..k] + s[k + 1..];
    if j < k - 1 {
      assert t[j] == s[j] && t[j + 1] == s[j + 1];
      DistinctAt(s, j, PrevPos(|s|, k));
      DistinctAt(s, j + 1, NextPos(|s|, k));
    } else if j == k - 1 {
      assert t[j] == l && t[j + 1] == r;
    } else {
      assert t[j] == s[j + 1] && t[j + 1] == s[j + 2];
      DistinctAt(s, j + 1, PrevPos(|s|, k));
      DistinctAt(s, j + 2, NextPos(|s|, k));
    }
  }

  /** `addToRoot` on a non-empty ring whose entry is `s[0]`: the node becomes the
      entry's left neighbour, so the ring reads `s + [n]` from the entry ... */
  lemma RingInsertBefore(L: seq<int>, R: seq<int>, L': seq<int>, R': seq<int>, s: seq<int>, n: int)
    requires IsRing(L, R, s) && |s| > 0 && 0 <= n < |L| && n !in s
    requires SameExcept(L, L', {n, s[0]}) && SameExcept(R, R', {n, s[|s| - 1]})
    requires L'[n] == s[|s| - 1] && R'[n] == s[0]
    requires R'[s[|s| - 1]] == n && L'[s[0]] == n
    ensures IsRing(L', R', s + [n])
  {
    DisjointSingle(s, n);
    DistinctConcat(s, [n]);
    var t := s + [n];
    forall j | 0 <= j < |t| - 1 ensures R'[t[j]] == t[j + 1] && L'[t[j + 1]] == t[j] {
      if j < |s| - 1 {
        assert t[j] == s[j] && t[j + 1] == s[j + 1];
        DistinctAt(s, j, |s| - 1);
        DistinctAt(s, j + 1, 0);
      }
    }
  }

  /** ... and `[n] + s` from the new node. */
  lemma RingInsertFront(L: seq<int>, R: seq<int>, L': seq<int>, R': seq<int>, s: seq<int>, n: int)
    requires IsRing(L, R, s) && |s| > 0 && 0 <= n < |L| && n !in s
    requires SameExcept(L, L', {n, s[0]}) && SameExcept(R, R', {n, s[|s| - 1]})
    requires L'[n] == s[|s| - 1] && R'[n] == s[0]
    requires R'[s[|s| - 1]] == n && L'[s[0]] == n
    ensures IsRing(L', R', [n] + s)
  {
    DisjointSingle(s, n);
    DistinctConcat(s, [n]);
    var u := [n] + s;
    forall j | 0 <= j < |u| - 1 ensures R'[u[j]] == u[j + 1] && L'[u[j + 1]] == u[j] {
      if j > 0 {
        assert u[j] == s[j - 1] && u[j + 1] == s[j];
        DistinctAt(s, j - 1, |s| - 1);
        DistinctAt(s, j, 0);
      }
    }
  }

  /** `link`'s splice of `y` right after the entry `ks[0]` of a child ring. */
  lemma RingInsertAfter(L: seq<int>, R: seq<int>, L': seq<int>, R': seq<int>, ks: seq<int>, y: int)
    requires IsRing(L, R, ks) && |ks| > 0 && 0 <= y < |L| && y !in ks
    requires SameExcept(L, L', {y, ks[NextPos(|ks|, 0)]}) && SameExcept(R, R', {y, ks[0]})
    requires R'[y] == ks[NextPos(|ks|, 0)] && L'[y] == ks[0]
    requires L'[ks[NextPos(|ks|, 0)]] == y && R'[ks[0]] == y
    ensures IsRing(L', R', [ks[0], y] + ks[1..])
  {
    var t := [ks[0], y] + ks[1..];
    var d := ks[NextPos(|ks|, 0)];
    assert |t| == |ks| + 1;
    assert forall j :: 2 <= j < |t| ==> t[j] == ks[j - 1];
    forall i, j | 0 <= i < j < |t| ensures Apart(t, i, j) {
      if i >= 2 {
        assert t[i] == ks[i - 1] && t[j] == ks[j - 1];
        DistinctAt(ks, i - 1, j - 1);
      } else if i == 1 {
        assert t[j] == ks[j - 1];
      } else if j >= 2 {
        assert t[j] == ks[j - 1];
        DistinctAt(ks, 0, j - 1);
      }
    }
    forall j | 0 <= j < |t| - 1 ensures R'[t[j]] == t[j + 1] && L'[t[j + 1]] == t[j] {
      if j == 1 {
        assert t[j + 1] == d;
      } else if j >= 2 {
        assert t[j] == ks[j - 1] && t[j + 1] == ks[j];
        DistinctAt(ks, j - 1, 0);
        DistinctAt(ks, j, NextPos(|ks|, 0));
      }
    }
    if |ks| == 1 {
      assert t[|t| - 1] == y && d == ks[0];
    } else {
      assert t[|t| - 1] == ks[|ks| - 1];
      DistinctAt(ks, |ks| - 1, 0);
      DistinctAt(ks, 0, 1);
    }
  }

  /** Concatenating two disjoint rings by the four-pointer splice that puts `t`
      between the last member of `s` and its entry `s[0]`. */
  lemma RingSplice(L: seq<int>, R: seq<int>, L': seq<int>, R': seq<int>, s: seq<int>, t: seq<int>)
    requires IsRing(L, R, s) && IsRing(L, R, t) && |s| > 0 && |t| > 0 && Disjoint(s, t)
    requires SameExcept(L, L', {t[0], s[0]}) && SameExcept(R, R', {s[|s| - 1], t[|t| - 1]})
    requires L'[t[0]] == s[|s| - 1] && R'[s[|s| - 1]] == t[0]
    requires L'[s[0]] == t[|t| - 1] && R'[t[|t| - 1]] == s[0]
    ensures IsRing(L', R', s + t) && IsRing(L', R', t + s)
  {
    DistinctConcat(s, t);
    var st := s + t;
    forall j | 0 <= j < |st| - 1 ensures R'[st[j]] == st[j + 1] && L'[st[j + 1]] == st[j] {
      if j < |s| - 1 {
        assert st[j] == s[j] && st[j + 1] == s[j + 1];
        DistinctAt(s, j + 1, 0);
        DistinctAt(s, j, |s| - 1);
        DisjointAt(s, t, j, |t| - 1);
        DisjointAt(s, t, j + 1, 0);
      } else if j == |s| - 1 {
        assert st[j] == s[|s| - 1] && st[j + 1] == t[0];
      } else {
        assert st[j] == t[j - |s|] && st[j + 1] == t[j + 1 - |s|];
        DistinctAt(t, j - |s|, |t| - 1);
        DistinctAt(t, j + 1 - |s|, 0);
        DisjointAt(s, t, |s| - 1, j - |s|);
        DisjointAt(s, t, 0, j + 1 - |s|);
      }
    }
    var ts := t + s;
    forall j | 0 <= j < |ts| - 1 ensures R'[ts[j]] == ts[j + 1] && L'[ts[j + 1]] == ts[j] {
      if j < |t| - 1 {
        assert ts[j] == t[j] && ts[j + 1] == t[j + 1];
        DistinctAt(t, j, |t| - 1);
        DistinctAt(t, j + 1, 0);
        DisjointAt(s, t, |s| - 1, j);
        DisjointAt(s, t, 0, j + 1);
      } else if j == |t| - 1 {
        assert ts[j] == t[|t| - 1] && ts[j + 1] == s[0];
      } else {
        assert ts[j] == s[j - |t|] && ts[j + 1] == s[j + 1 - |t|];
        DistinctAt(s, j - |t|, |s| - 1);
        DistinctAt(s, j + 1 - |t|, 0);
        DisjointAt(s, t, j - |t|, |t| - 1);
        DisjointAt(s, t, j + 1 - |t|, 0);
      }
    }
  }

  /** A ring read from another member is the same ring. */
  lemma RingRotate(L: seq<int>, R: seq<int>, s: seq<int>, k: int)
    requires IsRing(L, R, s) && 0 <= k < |s|
    ensures IsRing(L, R, s[k..] + s[..k])
  {
    var t := s[k..] + s[..k];
    assert forall j :: 0 <= j < |t| ==> t[j] == if j < |s| - k then s[j + k] else s[j - (|s| - k)];
    forall i, j | 0 <= i < j < |t| ensures Apart(t, i, j) {
      DistinctAt(s, if i < |s| - k then i + k else i - (|s| - k), if j < |s| - k then j + k else j - (|s| - k));
    }
    if k > 0 {
      assert t[|s| - k - 1] == s[|s| - 1] && t[|s| - k] == s[0];
    }
  }
}
