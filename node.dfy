// The node record of the Fibonacci heap and the memory that holds the nodes.
//
// Go's `*Node` pointers become addresses into an arena, and the nil pointer
// becomes `Nil`. The record keeps exactly the fields of the Go struct: the
// caller's `id`, the ordering `key`, the sibling links `left` and `right`, the
// `parent` and `child` links, the `degree` counter and the `marked` bit. The
// arena stores each field as its own sequence indexed by address, so that an
// assignment `x.f = v` changes one sequence at one index.
module Nodes {

  /** The address that stands for Go's nil pointer. */
  const Nil: int := -1

  datatype Node = Node(
    id: int,
    key: int,
    left: int,
    right: int,
    parent: int,
    child: int,
    degree: int,
    marked: bool)

  /** `NewNode`: a record holding the given id and key; every other field has
      Go's zero value (nil links, degree 0, unmarked). */
  function NewNode(id: int, key: int): (n: Node)
    ensures n.id == id && n.key == key
    ensures n.left == Nil && n.right == Nil && n.parent == Nil && n.child == Nil
    ensures n.degree == 0 && !n.marked
  {
    Node(id, key, Nil, Nil, Nil, Nil, 0, false)
  }

  /** `GetKey`: the node's current key. */
  function GetKey(n: Node): int {
    n.key
  }

  /** `GetID`: the identity given to `NewNode`. */
  function GetID(n: Node): int {
    n.id
  }

  /** A snapshot of the whole memory: one sequence per field of `Node`. */
  datatype Mem = Mem(
    id: seq<int>,
    key: seq<int>,
    left: seq<int>,
    right: seq<int>,
    parent: seq<int>,
    child: seq<int>,
    degree: seq<int>,
    marked: seq<bool>)

  /** All field sequences cover the same addresses. */
  ghost predicate Sized(m: Mem) {
    |m.id| == |m.key| && |m.left| == |m.key| && |m.right| == |m.key| &&
    |m.parent| == |m.key| && |m.child| == |m.key| && |m.degree| == |m.key| &&
    |m.marked| == |m.key|
  }

  /** The memory with one more address, holding `n`. */
  ghost function Append(m: Mem, n: Node): Mem {
    Mem(m.id + [n.id], m.key + [n.key], m.left + [n.left], m.right + [n.right],
        m.parent + [n.parent], m.child + [n.child], m.degree + [n.degree], m.marked + [n.marked])
  }

  /** A node that belongs to no tree: no parent, no children. */
  ghost predicate Standalone(m: Mem, x: int) {
    Sized(m) && 0 <= x < |m.key| && m.parent[x] == Nil && m.child[x] == Nil && m.degree[x] == 0
  }

  /** The record at address `x` of a memory snapshot. */
  ghost function At(m: Mem, x: int): Node
    requires Sized(m) && 0 <= x < |m.key|
  {
    Node(m.id[x], m.key[x], m.left[x], m.right[x], m.parent[x], m.child[x], m.degree[x], m.marked[x])
  }

  /** `m'` holds the same record as `m` at every address of `m` outside `S`;
      it may hold further addresses. */
  ghost predicate Kept(m: Mem, m': Mem, S: set<int>) {
    Sized(m) && Sized(m') && |m.key| <= |m'.key| && KeptFrom(m, m', S, 0)
  }

  /** `Kept`, address by address from `i` up. */
  ghost predicate KeptFrom(m: Mem, m': Mem, S: set<int>, i: nat)
    requires Sized(m) && Sized(m') && |m.key| <= |m'.key|
    decreases |m.key| - i
  {
    i >= |m.key| || ((i in S || At(m', i) == At(m, i)) && KeptFrom(m, m', S, i + 1))
  }

  /** What `Kept` says of each address. */
  lemma KeptAt(m: Mem, m': Mem, S: set<int>)
    requires Kept(m, m', S)
    ensures forall x :: 0 <= x < |m.key| && x !in S ==> At(m', x) == At(m, x)
  {
    forall x | 0 <= x < |m.key| && x !in S ensures At(m', x) == At(m, x) {
      KeptFromAt(m, m', S, 0, x);
    }
  }

  lemma {:induction false} KeptFromAt(m: Mem, m': Mem, S: set<int>, i: nat, x: int)
    requires Sized(m) && Sized(m') && |m.key| <= |m'.key| && KeptFrom(m, m', S, i)
    requires i <= x < |m.key| && x !in S
    ensures At(m', x) == At(m, x)
    decreases x - i
  {
    if i < x {
      KeptFromAt(m, m', S, i + 1, x);
    }
  }

  /** Establishes `Kept` from its meaning at each address. */
  lemma KeptIntro(m: Mem, m': Mem, S: set<int>)
    requires Sized(m) && Sized(m') && |m.key| <= |m'.key|
    requires forall x :: 0 <= x < |m.key| && x !in S ==> At(m', x) == At(m, x)
    ensures Kept(m, m', S)
  {
    KeptFromIntro(m, m', S, 0);
  }

  lemma {:induction false} KeptFromIntro(m: Mem, m': Mem, S: set<int>, i: nat)
    requires Sized(m) && Sized(m') && |m.key| <= |m'.key|
    requires forall x :: 0 <= x < |m.key| && x !in S ==> At(m', x) == At(m, x)
    ensures KeptFrom(m, m', S, i)
    decreases |m.key| - i
  {
    if i < |m.key| {
      KeptFromIntro(m, m', S, i + 1);
    }
  }

  /** A memory keeps itself. */
  lemma KeptRefl(m: Mem, S: set<int>)
    requires Sized(m)
    ensures Kept(m, m, S)
  {
    KeptIntro(m, m, S);
  }

  /** A step that keeps everything outside `S`, followed by one that keeps
      everything outside `T`, keeps everything outside `S` when the addresses
      of `T` that the first memory has are in `S`. */
  lemma KeptTrans(a: Mem, b: Mem, c: Mem, S: set<int>, T: set<int>)
    requires Kept(a, b, S) && Kept(b, c, T)
    requires forall x :: x in T && 0 <= x < |a.key| ==> x in S
    ensures Kept(a, c, S)
  {
    KeptAt(a, b, S);
    KeptAt(b, c, T);
    KeptIntro(a, c, S);
  }

  /** An allocation keeps every existing record. */
  lemma KeptAppend(m: Mem, n: Node, S: set<int>)
    requires Sized(m)
    ensures Kept(m, Append(m, n), S)
  {
    KeptIntro(m, Append(m, n), S);
  }

  /** The store of all nodes; an address is an index into every field. */
  class Arena {
    var id: seq<int>
    var key: seq<int>
    var left: seq<int>
    var right: seq<int>
    var parent: seq<int>
    var child: seq<int>
    var degree: seq<int>
    var marked: seq<bool>

    ghost function Memory(): Mem
      reads this
    {
      Mem(id, key, left, right, parent, child, degree, marked)
    }

    /** A memory with no addresses yet, before any `NewNode`. */
    constructor ()
      ensures Memory() == Mem([], [], [], [], [], [], [], [])
    {
      id, key, left, right := [], [], [], [];
      parent, child, degree, marked := [], [], [], [];
    }

    /** The record stored at address `x`. */
    function NodeAt(x: int): Node
      reads this
      requires Sized(Memory()) && 0 <= x < |key|
    {
      Node(id[x], key[x], left[x], right[x], parent[x], child[x], degree[x], marked[x])
    }

    /** Allocates `NewNode(id, key)` at the next free address. */
    method Alloc(i: int, k: int) returns (r: int)
      modifies this
      ensures r == |old(key)|
      ensures Memory() == Append(old(Memory()), NewNode(i, k))
    {
      r := |key|;
      var n := NewNode(i, k);
      id, key, left, right := id + [n.id], key + [n.key], left + [n.left], right + [n.right];
      parent, child := parent + [n.parent], child + [n.child];
      degree, marked := degree + [n.degree], marked + [n.marked];
    }
  }
}
