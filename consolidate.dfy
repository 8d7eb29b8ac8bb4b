// The bookkeeping of `consolidate` in fibonacci/heap.go. The walk visits the
// root list `S` once, linking roots of equal degree; `degreeToRoot` maps each
// degree seen so far to the one remaining root of that degree. Afterwards the
// root list is rebuilt from the table's roots, one `addToRoot` at a time.
module Consolidation {
  import opened Nodes
  import opened Rings
  import opened Trees
  import opened Splices
  import opened Frames

  /** The choice of parent before `link`: the root with the strictly smaller
      key; on equal keys the tree `x` being walked stays the parent. */
  function Order(keys: seq<int>, x: int, y: int): (r: (int, int))
    requires 0 <= x < |keys| && 0 <= y < |keys|
    ensures r == (x, y) || r == (y, x)
    ensures keys[r.0] <= keys[r.1]
    ensures keys[x] <= keys[y] ==> r == (x, y)
  {
    if keys[y] < keys[x] then (y, x) else (x, y)
  }

  /** The table matches the walked roots `P`: each entry's root is in `P` and
      has the entry's degree, and each root of `P` other than the tree `x`
      still being linked is the entry of its degree. */
  ghost predicate TableOk(degree: seq<int>, P: seq<int>, table: map<int, int>, x: int) {
    (forall d :: d in table ==>
      table[d] in P && table[d] != x && 0 <= table[d] < |degree| && degree[table[d]] == d) &&
    (forall j :: 0 <= j < |P| ==>
      0 <= P[j] < |degree| && (P[j] != x ==> degree[P[j]] in table && table[degree[P[j]]] == P[j]))
  }

  lemma DistinctPrefix(s: seq<int>, t: seq<int>)
    requires Distinct(s + t)
    ensures Distinct(s) && forall j :: 0 <= j < |s| ==> s[j] !in t
  {
    forall i, j | 0 <= i < j < |s| ensures Apart(s, i, j) {
      DistinctAt(s + t, i, j);
    }
    forall j | 0 <= j < |s| ensures s[j] !in t {
      if s[j] in t {
        var k :| 0 <= k < |t| && t[k] == s[j];
        DistinctAt(s + t, j, |s| + k);
      }
    }
  }

  lemma RemoveAtConcat(P: seq<int>, T: seq<int>, y: int)
    requires y in P
    ensures IndexOf(P + T, y) == IndexOf(P, y)
    ensures RemoveAt(P + T, IndexOf(P, y)) == RemoveAt(P, IndexOf(P, y)) + T
  {
    var k := IndexOf(P, y);
    assert (P + T)[k] == y;
    forall j | 0 <= j < k ensures (P + T)[j] != y {
      assert (P + T)[j] == P[j];
    }
    IndexOfFirst(P + T, y, k);
    assert (P + T)[..k] == P[..k];
    assert (P + T)[k + 1..] == P[k + 1..] + T;
  }

  lemma IndexOfFirst(s: seq<int>, x: int, k: int)
    requires 0 <= k < |s| && s[k] == x && forall j :: 0 <= j < k ==> s[j] != x
    ensures IndexOf(s, x) == k
  {
    var i := IndexOf(s, x);
    if i < k {
      assert false;
    }
  }

  /** Entering the walk at `S[i]`: the walked roots `P` followed by `S[i]`
      match the table, with `S[i]` as the tree being linked. */
  lemma TableEnter(degree: seq<int>, P: seq<int>, S: seq<int>, i: int, table: map<int, int>)
    requires TableOk(degree, P, table, Nil) && 0 <= i < |S| && Distinct(P + S[i..])
    requires 0 <= S[i] < |degree|
    ensures TableOk(degree, P + [S[i]], table, S[i])
    ensures P + S[i..] == (P + [S[i]]) + S[i + 1..]
  {
    DistinctPrefix(P, S[i..]);
    assert S[i..][0] == S[i];
    forall d | d in table ensures table[d] != S[i] {
      assert table[d] in P;
    }
    assert S[i..] == [S[i]] + S[i + 1..];
  }

  /** One `link` of the inner loop keeps the table in step: the two roots
      `link` joins are distinct roots in heap order, the entry of degree `deg`
      is consumed, the parent `a` is the tree being linked and has the next
      degree, and the child `b` leaves the walked roots. */
  lemma LinkStep(degree: seq<int>, keys: seq<int>, P: seq<int>, T: seq<int>, table: map<int, int>,
                 x: int, deg: int, a: int, b: int) returns (P': seq<int>)
    requires Distinct(P + T) && TableOk(degree, P, table, x) && x in P && deg in table
    requires 0 <= x < |keys| && 0 <= x < |degree| && degree[x] == deg && 0 <= table[deg] < |keys|
    requires (a, b) == Order(keys, x, table[deg])
    ensures a != b && a in P + T && b in P + T && 0 <= a < |keys| && 0 <= b < |keys| && keys[a] <= keys[b]
    ensures RemoveAt(P + T, IndexOf(P + T, b)) == P' + T
    ensures TableOk(degree[a := degree[a] + 1], P', table - {deg}, a) && a in P'
    ensures 0 <= a < |degree| && degree[a] == deg
  {
    var y := table[deg];
    assert y in P && y != x;
    assert forall v :: v in P ==> v in P + T;
    RemoveAtConcat(P, T, b);
    P' := RemoveAt(P, IndexOf(P, b));
    DistinctPrefix(P, T);
    TableLink(degree, degree[a := degree[a] + 1], P, table, x, deg, a, b);
  }

  lemma TableLink(degree: seq<int>, degree': seq<int>, P: seq<int>, table: map<int, int>, x: int, deg: int,
                  a: int, b: int)
    requires TableOk(degree, P, table, x) && deg in table && 0 <= x < |degree| && degree[x] == deg
    requires (a, b) == (x, table[deg]) || (a, b) == (table[deg], x)
    requires x in P && Distinct(P) && degree' == degree[a := degree[a] + 1]
    ensures b in P && a in RemoveAt(P, IndexOf(P, b))
    ensures TableOk(degree', RemoveAt(P, IndexOf(P, b)), table - {deg}, a)
  {
    var k := IndexOf(P, b);
    var P' := RemoveAt(P, k);
    RemoveAtMembers(P, k);
    RemoveAtKeeps(P, k, a);
    forall d | d in table - {deg}
      ensures table[d] in P' && table[d] != a && 0 <= table[d] < |degree'| && degree'[table[d]] == d
    {
      assert table[d] != table[deg];
      var i :| 0 <= i < |P| && P[i] == table[d];
      assert i != k;
      assert P'[if i < k then i else i - 1] == table[d];
    }
    forall j | 0 <= j < |P'|
      ensures 0 <= P'[j] < |degree'| &&
        (P'[j] != a ==> degree'[P'[j]] in table - {deg} && (table - {deg})[degree'[P'[j]]] == P'[j])
    {
      var i := if j < k then j else j + 1;
      assert P'[j] == P[i] && i != k;
      DistinctAt(P, i, k);
    }
  }

  /** Closing the inner loop: `x` becomes the entry of its degree. */
  lemma TableAdd(degree: seq<int>, P: seq<int>, table: map<int, int>, x: int)
    requires TableOk(degree, P, table, x) && x in P && 0 <= x < |degree| && degree[x] !in table
    ensures TableOk(degree, P, table[degree[x] := x], Nil)
  {
  }

  /** The walk moves on along the ring: `right` of `S[i]` is `S[i + 1]`. */
  lemma WalkNext(L: seq<int>, R: seq<int>, P: seq<int>, S: seq<int>, i: int)
    requires 0 <= i < |S| && IsRing(L, R, P + S[i..])
    ensures 0 <= S[i] < |L|
    ensures i + 1 < |S| ==> R[S[i]] == S[i + 1]
  {
    var s := P + S[i..];
    assert s[|P|] == S[i];
    RingLinks(L, R, s, |P|);
    if i + 1 < |S| {
      assert s[|P| + 1] == S[i + 1];
    }
  }

  /** After the walk no two walked roots share a degree. */
  lemma TableDistinct(degree: seq<int>, P: seq<int>, table: map<int, int>)
    requires TableOk(degree, P, table, Nil) && Distinct(P)
    ensures DistinctDegrees(degree, P)
  {
    forall i, j | 0 <= i < j < |P| && 0 <= P[i] < |degree| && 0 <= P[j] < |degree|
      ensures degree[P[i]] != degree[P[j]]
    {
      DistinctAt(P, i, j);
    }
  }

  /** The state of the outer loop of the walk before visiting `S[i]`: the
      roots walked so far, `P`, match the table, and the heap is intact. */
  ghost predicate Walking(m: Mem, sh: Shape, nodes: set<int>, keys: seq<int>, ids: seq<int>,
                          P: seq<int>, S: seq<int>, i: int, table: map<int, int>) {
    0 <= i < |S| && Distinct(S) && Forest(m, sh) && HeapOrdered(m, sh) &&
    sh.nodes == nodes && m.key == keys && m.id == ids &&
    sh.roots == P + S[i..] && TableOk(m.degree, P, table, Nil)
  }

  /** A forest with a root is ready to be walked from its first root. */
  lemma WalkStart(m: Mem, sh: Shape)
    requires Forest(m, sh) && HeapOrdered(m, sh) && sh.roots != []
    ensures Walking(m, sh, sh.nodes, m.key, m.id, [], sh.roots, 0, map[])
  {
    assert [] + sh.roots[0..] == sh.roots;
  }

  /** The state of the inner loop: the tree `x` of degree `deg` is being
      linked with the table's tree of that degree, and `T` is still to walk. */
  ghost predicate Linking(m: Mem, sh: Shape, nodes: set<int>, keys: seq<int>, ids: seq<int>,
                          P: seq<int>, T: seq<int>, table: map<int, int>, x: int, deg: int) {
    Forest(m, sh) && HeapOrdered(m, sh) && sh.nodes == nodes && m.key == keys && m.id == ids &&
    sh.roots == P + T && TableOk(m.degree, P, table, x) && x in P &&
    0 <= x < |m.key| && m.degree[x] == deg
  }

  /** Visiting `S[i]`: it becomes the tree being linked, and its right
      neighbour is the next root to visit. */
  lemma WalkEnter(m: Mem, sh: Shape, nodes: set<int>, keys: seq<int>, ids: seq<int>,
                  P: seq<int>, S: seq<int>, i: int, table: map<int, int>)
    requires Walking(m, sh, nodes, keys, ids, P, S, i, table)
    ensures 0 <= S[i] < |m.key| && (i + 1 < |S| ==> m.right[S[i]] == S[i + 1])
    ensures Linking(m, sh, nodes, keys, ids, P + [S[i]], S[i + 1..], table, S[i], m.degree[S[i]])
  {
    WalkNext(m.left, m.right, P, S, i);
    TableEnter(m.degree, P, S, i, table);
  }

  /** One `link` of the inner loop: the roots `Order` picks are linked, the
      table loses the entry of degree `deg`, and the parent carries on with
      the next degree. */
  lemma LinkNext(m: Mem, sh: Shape, nodes: set<int>, keys: seq<int>, ids: seq<int>,
                 P: seq<int>, T: seq<int>, table: map<int, int>, x: int, deg: int)
    returns (P': seq<int>, a: int, b: int)
    requires Linking(m, sh, nodes, keys, ids, P, T, table, x, deg) && deg in table
    ensures 0 <= table[deg] < |m.key| && (a, b) == Order(m.key, x, table[deg])
    ensures b in sh.roots && a in sh.kids && a in sh.rank && b in sh.rank && LinkReady(m, a, b) &&
      Linking(LinkMem(m, a, b), LinkShape(sh, a, b), nodes, keys, ids, P', T, table - {deg}, a, deg + 1)
    ensures Kept(m, LinkMem(m, a, b), nodes)
  {
    assert table[deg] in P;
    a, b := Order(m.key, x, table[deg]).0, Order(m.key, x, table[deg]).1;
    P' := LinkStep(m.degree, m.key, P, T, table, x, deg, a, b);
    LinkKeeps(m, sh, a, b);
    LinkKept(m, sh, a, b);
  }

  /** Leaving the inner loop: `x` enters the table and `S[i]` has been
      visited; the walk goes on at `S[i + 1]`, or, when `S[i]` is the last
      root, every root has been visited once and the walked roots are all
      the roots. */
  lemma WalkLeave(m: Mem, sh: Shape, nodes: set<int>, keys: seq<int>, ids: seq<int>,
                  P: seq<int>, S: seq<int>, i: int, table: map<int, int>, x: int, deg: int, w: seq<int>)
    requires 0 <= i < |S| && Distinct(S) && Visited(w, S, i)
    requires Linking(m, sh, nodes, keys, ids, P, S[i + 1..], table, x, deg) && deg !in table
    ensures S[i] == S[|S| - 1] <==> i + 1 == |S|
    ensures i + 1 < |S| ==> Walking(m, sh, nodes, keys, ids, P, S, i + 1, table[deg := x]) && Visited(w + [S[i]], S, i + 1)
    ensures i + 1 == |S| ==> Gathered(m, sh, nodes, keys, ids, table[deg := x]) && w + [S[i]] == S
  {
    TableAdd(m.degree, P, table, x);
    if i + 1 == |S| {
      assert P + S[i + 1..] == P;
    } else {
      DistinctAt(S, i, |S| - 1);
    }
    VisitedStep(w, S, i);
    if i + 1 == |S| {
      VisitedAll(w + [S[i]], S);
    }
  }

  /** The state after the walk: the heap is intact and the table holds
      exactly the roots, one per degree. */
  ghost predicate Gathered(m: Mem, sh: Shape, nodes: set<int>, keys: seq<int>, ids: seq<int>, table: map<int, int>) {
    Forest(m, sh) && HeapOrdered(m, sh) && sh.nodes == nodes && m.key == keys && m.id == ids &&
    sh.roots != [] && TableOk(m.degree, sh.roots, table, Nil)
  }

  /** The walk has visited the first `i` roots of `S`, in order. */
  ghost predicate Visited(w: seq<int>, S: seq<int>, i: int) {
    0 <= i <= |S| && |w| == i && forall j :: 0 <= j < i ==> w[j] == S[j]
  }

  lemma VisitedStep(w: seq<int>, S: seq<int>, i: int)
    requires Visited(w, S, i) && i < |S|
    ensures Visited(w + [S[i]], S, i + 1)
  {
  }

  lemma VisitedAll(w: seq<int>, S: seq<int>)
    requires Visited(w, S, |S|)
    ensures w == S
  {
  }

  /** The state of the rebuild: `R` is the new root ring entered at a minimal
      `root`, holding the table's roots whose degrees left `rest`, and `rest`
      is the part of the table still to add. */
  ghost predicate RebuildOk(m: Mem, P: seq<int>, R: seq<int>, root: int, rest: map<int, int>, table: map<int, int>) {
    Sized(m) && IsRing(m.left, m.right, R) && root == First(R) && (root != Nil ==> RootMin(m.key, R, root)) &&
    TableOk(m.degree, P, table, Nil) &&
    (forall j :: 0 <= j < |R| ==> R[j] in P && m.degree[R[j]] !in rest) &&
    (forall d :: d in rest ==> d in table && rest[d] == table[d]) &&
    (forall d :: d in table && d !in rest ==> table[d] in R)
  }

  /** The state of the rebuild loop: the trees are intact and the root ring
      is being rebuilt as `RebuildOk` says. */
  ghost predicate Rebuilding(m: Mem, sh: Shape, keys: seq<int>, ids: seq<int>,
                             R: seq<int>, root: int, rest: map<int, int>, table: map<int, int>) {
    Grove(m, sh) && HeapOrdered(m, sh) && m.key == keys && m.id == ids &&
    RebuildOk(m, sh.roots, R, root, rest, table)
  }

  lemma RebuildStart(m: Mem, sh: Shape, table: map<int, int>)
    requires Gathered(m, sh, sh.nodes, m.key, m.id, table)
    ensures Rebuilding(m, sh, m.key, m.id, [], Nil, table, table) && Distinct(sh.roots)
  {
  }

  /** One `addToRoot` of the rebuild keeps the trees and the rebuild state. */
  lemma RebuildStep(m: Mem, sh: Shape, keys: seq<int>, ids: seq<int>, R: seq<int>, root: int, rest: map<int, int>, table: map<int, int>, d: int)
    requires Rebuilding(m, sh, keys, ids, R, root, rest, table) && d in rest
    ensures 0 <= rest[d] < |m.key| && (root != Nil ==> 0 <= root < |m.key|)
    ensures PushReady(m, root, rest[d])
    ensures Rebuilding(PushMem(m, root, rest[d]), sh, keys, ids, PushRoots(m.key, R, root, rest[d]),
                       PushEntry(m.key, root, rest[d]), rest - {d}, table)
  {
    var v := rest[d];
    assert v in sh.roots && m.degree[v] == d;
    assert v !in R by {
      if v in R {
        assert false;
      }
    }
    PushRing(m, R, root, v);
    var m' := PushMem(m, root, v);
    var R' := PushRoots(m.key, R, root, v);
    PushRootsMembers(m.key, R, root, v);
    RebuildGrove(m, m', sh, R, v);
    RebuildNext(m, m', sh.roots, R, R', root, rest, table, d);
  }

  /** One `addToRoot` of the rebuild stores only to roots of the heap. */
  lemma RebuildKept(m: Mem, sh: Shape, keys: seq<int>, ids: seq<int>, R: seq<int>, root: int, rest: map<int, int>, table: map<int, int>, d: int)
    requires Rebuilding(m, sh, keys, ids, R, root, rest, table) && d in rest
    ensures PushReady(m, root, rest[d]) && Kept(m, PushMem(m, root, rest[d]), sh.nodes)
  {
    var v := rest[d];
    assert v in sh.roots && m.degree[v] == d;
    assert v !in R by {
      if v in R {
        assert false;
      }
    }
    PushRing(m, R, root, v);
    if R != [] {
      assert R[0] in sh.roots && R[|R| - 1] in sh.roots;
    }
    LinksKept(m, PushMem(m, root, v), {v, First(R)}, {v, Last(R)}, sh.nodes);
  }

  /** Relinking roots only keeps the trees. */
  lemma RebuildGrove(m: Mem, m': Mem, sh: Shape, R: seq<int>, v: int)
    requires Grove(m, sh) && HeapOrdered(m, sh) && Sized(m')
    requires m' == m.(left := m'.left, right := m'.right)
    requires SameExcept(m.left, m'.left, {v, First(R)}) && SameExcept(m.right, m'.right, {v, Last(R)})
    requires v in sh.roots && forall j :: 0 <= j < |R| ==> R[j] in sh.roots
    ensures Grove(m', sh) && HeapOrdered(m', sh)
  {
    if R != [] {
      assert R[0] in sh.roots && R[|R| - 1] in sh.roots;
    }
    RootLinksOk(m, m', sh, sh);
  }

  /** The rebuild state moves on by one table entry. */
  lemma RebuildNext(m: Mem, m': Mem, P: seq<int>, R: seq<int>, R': seq<int>, root: int,
                    rest: map<int, int>, table: map<int, int>, d: int)
    requires RebuildOk(m, P, R, root, rest, table) && d in rest
    requires Sized(m') && m'.degree == m.degree && m'.key == m.key
    requires IsRing(m'.left, m'.right, R') && R' != [] && RootMin(m.key, R', R'[0])
    requires rest[d] in R' && forall j :: 0 <= j < |R'| ==> R'[j] == rest[d] || R'[j] in R
    requires forall j :: 0 <= j < |R| ==> R[j] in R'
    ensures RebuildOk(m', P, R', R'[0], rest - {d}, table)
  {
    var v := rest[d];
    assert v in P && m.degree[v] == d;
    forall j | 0 <= j < |R'| ensures R'[j] in P && m'.degree[R'[j]] !in rest - {d} {
      if R'[j] != v {
        var i :| 0 <= i < |R| && R[i] == R'[j];
      }
    }
    forall e | e in table && e !in rest - {d} ensures table[e] in R' {
      if e != d {
        assert table[e] in R;
      }
    }
  }

  /** The end of the rebuild: the new ring holds exactly the walked roots, so
      the heap is sound over it and their degrees are distinct. */
  lemma RebuildEnd(m: Mem, sh: Shape, R: seq<int>, root: int, table: map<int, int>)
    requires Rebuilding(m, sh, m.key, m.id, R, root, map[], table) && Distinct(sh.roots) && sh.roots != []
    ensures Sound(m, sh.(roots := R), root)
    ensures TableOk(m.degree, R, table, Nil) && DistinctDegrees(m.degree, R)
  {
    forall j | 0 <= j < |sh.roots| ensures sh.roots[j] in R {
      var x := sh.roots[j];
      assert 0 <= x < |m.degree| && x != Nil;
      var d := m.degree[x];
      assert d in table && table[d] == x;
    }
    GroveReorder(m, sh, R);
    TableDistinct(m.degree, R, table) by {
      forall d | d in table ensures table[d] in R {
      }
    }
  }
}
