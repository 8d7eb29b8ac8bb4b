// Bags of keys, used to state that the heap sort's output is a permutation of
// its input.
module Bags {

  /** The keys at the addresses below `n` that are in `R`, as a bag. */
  ghost function Bag(keys: seq<int>, R: set<int>, n: int): multiset<int>
    requires 0 <= n <= |keys|
    decreases n
  {
    if n == 0 then multiset{}
    else Bag(keys, R, n - 1) + (if n - 1 in R then multiset{keys[n - 1]} else multiset{})
  }

  /** Taking one address out of `R` takes its key out of the bag. */
  lemma {:induction false} BagRemove(keys: seq<int>, R: set<int>, n: int, y: int)
    requires 0 <= n <= |keys| && 0 <= y < n && y in R
    ensures Bag(keys, R, n) == Bag(keys, R - {y}, n) + multiset{keys[y]}
    decreases n, 1
  {
    if y < n - 1 {
      BagRemoveBelow(keys, R, n, y);
    } else {
      BagRemoveTop(keys, R, n, y);
    }
  }

  /** `BagRemove` for an address below the last one counted. */
  lemma {:induction false} BagRemoveBelow(keys: seq<int>, R: set<int>, n: int, y: int)
    requires 0 <= n <= |keys| && 0 <= y < n - 1 && y in R
    ensures Bag(keys, R, n) == Bag(keys, R - {y}, n) + multiset{keys[y]}
    decreases n, 0
  {
    BagRemove(keys, R, n - 1, y);
    var e := if n - 1 in R then multiset{keys[n - 1]} else multiset{};
    assert (n - 1 in R) == (n - 1 in R - {y});
    assert (Bag(keys, R - {y}, n - 1) + multiset{keys[y]}) + e == (Bag(keys, R - {y}, n - 1) + e) + multiset{keys[y]};
  }

  /** `BagRemove` for the last address counted. */
  lemma BagRemoveTop(keys: seq<int>, R: set<int>, n: int, y: int)
    requires 0 <= n <= |keys| && y == n - 1 && 0 <= y && y in R
    ensures Bag(keys, R, n) == Bag(keys, R - {y}, n) + multiset{keys[y]}
  {
    BagSame(keys, R, R - {y}, n - 1);
    assert Bag(keys, R - {y}, n) == Bag(keys, R - {y}, n - 1);
  }

  /** The bag only depends on the addresses below `n`. */
  lemma {:induction false} BagSame(keys: seq<int>, R: set<int>, R': set<int>, n: int)
    requires 0 <= n <= |keys| && forall x :: 0 <= x < n ==> (x in R <==> x in R')
    ensures Bag(keys, R, n) == Bag(keys, R', n)
    decreases n
  {
    if n > 0 {
      BagSame(keys, R, R', n - 1);
    }
  }

  /** All addresses below `n` give the bag of the first `n` keys. */
  lemma {:induction false} BagAll(keys: seq<int>, R: set<int>, n: int)
    requires 0 <= n <= |keys| && forall x :: 0 <= x < n ==> x in R
    ensures Bag(keys, R, n) == multiset(keys[..n])
    decreases n
  {
    if n > 0 {
      BagAll(keys, R, n - 1);
      assert keys[..n] == keys[..n - 1] + [keys[n - 1]];
    }
  }

  /** No address gives the empty bag. */
  lemma {:induction false} BagEmpty(keys: seq<int>, n: int)
    requires 0 <= n <= |keys|
    ensures Bag(keys, {}, n) == multiset{}
    decreases n
  {
    if n > 0 {
      BagEmpty(keys, n - 1);
    }
  }
}

// The heap sort that the command-line driver in cmd/main.go performs: every
// key is inserted as a fresh node whose id is the key itself, and the heap is
// then popped once per key, collecting the popped keys in order. The same
// loading is also run on two heaps sharing one memory, which are then melded.
module Client {
  import opened Bags
  import opened Nodes
  import opened Trees
  import opened Fibonacci

  ghost predicate Sorted(s: seq<int>) {
    forall i, j :: 0 <= i < j < |s| ==> s[i] <= s[j]
  }

  /** Inserting every key into a fresh heap and popping the heap empty gives
      the keys in non-decreasing order (the check at the end of cmd/main.go). */
  method HeapSort(keys: seq<int>) returns (output: seq<int>)
    ensures |output| == |keys|
    ensures Sorted(output)
    ensures multiset(output) == multiset(keys)
  {
    var heap := Fill(keys);
    output := PopAll(heap, keys);
  }

  /** Two heaps loaded over one memory and melded, then popped empty: the
      output is both key lists together, in non-decreasing order. */
  method MeldSort(keys1: seq<int>, keys2: seq<int>) returns (output: seq<int>)
    ensures |output| == |keys1| + |keys2|
    ensures Sorted(output)
    ensures multiset(output) == multiset(keys1 + keys2)
  {
    var heap := MeldLoaded(keys1, keys2);
    output := PopAll(heap, keys1 + keys2);
  }

  /** Popping a heap that holds the node at every address of the memory,
      once per node, yields the keys of the memory in non-decreasing order. */
  method PopAll(heap: Heap, ghost keys: seq<int>) returns (output: seq<int>)
    requires heap.Valid() && heap.arena.key == keys
    requires Range(heap.shape.nodes, 0, |keys|) && heap.size == |keys|
    modifies heap, heap.arena
    ensures |output| == |keys|
    ensures Sorted(output)
    ensures multiset(output) == multiset(keys)
  {
    ghost var R0 := heap.shape.nodes;
    BagAll(keys, R0, |keys|);
    output := Drain(heap, heap.size);
    assert heap.shape.nodes == {};
    DrainEnd(output, keys, R0);
    assert keys[..|keys|] == keys;
  }

  /** `R` holds exactly the addresses from `lo` up to, not including, `hi`. */
  ghost predicate Range(R: set<int>, lo: int, hi: int) {
    lo <= hi && forall x :: x in R <==> lo <= x < hi
  }

  /** A node appended to the memory of a heap whose nodes fill the top of the
      memory is standalone, new to the heap, and the heap's invariant
      survives it. */
  lemma FillStep(m: Mem, sh: Shape, root: int, size: int, k: int, lo: int)
    requires Inv(m, sh, root, size) && Range(sh.nodes, lo, |m.key|)
    ensures Inv(Append(m, NewNode(k, k)), sh, root, size)
    ensures Standalone(Append(m, NewNode(k, k)), |m.key|) && |m.key| !in sh.nodes
    ensures Range(sh.nodes + {|m.key|}, lo, |m.key| + 1)
  {
    KeptAppend(m, NewNode(k, k), {});
    InvKept(m, Append(m, NewNode(k, k)), sh, root, size, {});
  }

  /** A fresh heap holding one fresh node per key, at the addresses
      `0 .. |keys| - 1`, each node's id and key being the key itself. */
  method Fill(keys: seq<int>) returns (heap: Heap)
    ensures fresh(heap) && fresh(heap.arena) && heap.Valid()
    ensures heap.arena.key == keys && Range(heap.shape.nodes, 0, |keys|) && heap.size == |keys|
  {
    heap := Empty();
    Load(heap, keys, 0);
    assert [] + keys == keys;
  }

  /** The `NewHeap` call of cmd/main.go: a fresh empty heap over a fresh,
      empty memory. */
  method Empty() returns (heap: Heap)
    ensures fresh(heap) && fresh(heap.arena) && heap.Valid()
    ensures heap.arena.key == [] && heap.shape.nodes == {} && heap.size == 0
  {
    var arena := new Arena();
    heap := new Heap(arena);
  }

  /** Two fresh heaps over one fresh memory, the first loaded with `keys1`
      and the second with `keys2`, melded into the first: the result holds
      the union of the two loaded key maps. */
  method MeldLoaded(keys1: seq<int>, keys2: seq<int>) returns (heap: Heap)
    ensures fresh(heap) && fresh(heap.arena) && heap.Valid()
    ensures heap.arena.key == keys1 + keys2
    ensures Range(heap.shape.nodes, 0, |keys1| + |keys2|) && heap.size == |keys1| + |keys2|
    ensures forall x :: x in heap.Model() <==> 0 <= x < |keys1| + |keys2|
    ensures forall x :: 0 <= x < |keys1| ==> heap.Model()[x] == keys1[x]
    ensures forall j :: 0 <= j < |keys2| ==> heap.Model()[|keys1| + j] == keys2[j]
  {
    var a, b := LoadTwo(keys1, keys2);
    forall x | x in a.shape.nodes ensures x !in b.shape.nodes {
      assert x < |keys1|;
    }
    a.Meld(b);
    heap := a;
    KeyMapRange(keys1, keys2, heap.shape.nodes);
  }

  /** Two fresh heaps over one fresh memory, the first loaded with `keys1`
      and then the second with `keys2`. */
  method LoadTwo(keys1: seq<int>, keys2: seq<int>) returns (a: Heap, b: Heap)
    ensures fresh(a) && fresh(b) && fresh(a.arena) && a != b && b.arena == a.arena
    ensures a.Valid() && b.Valid() && a.arena.key == keys1 + keys2
    ensures Range(a.shape.nodes, 0, |keys1|) && a.size == |keys1|
    ensures Range(b.shape.nodes, |keys1|, |keys1| + |keys2|) && b.size == |keys2|
  {
    a := Fill(keys1);
    b := LoadOther(a, keys2);
  }

  /** A fresh heap over the memory of `a`, loaded with `keys`; the heap `a`
      stays intact: its nodes, its entry, its count and its invariant. */
  method LoadOther(a: Heap, keys: seq<int>) returns (b: Heap)
    requires a.Valid() && Range(a.shape.nodes, 0, |a.arena.key|)
    modifies a.arena
    ensures fresh(b) && b.arena == a.arena && a.Valid() && b.Valid()
    ensures b.arena.key == old(a.arena.key) + keys
    ensures Range(b.shape.nodes, |old(a.arena.key)|, |b.arena.key|) && b.size == |keys|
  {
    b := new Heap(a.arena);
    Load(b, keys, |a.arena.key|);
    InvKept(old(a.arena.Memory()), a.arena.Memory(), a.shape, a.root, a.size, {});
  }

  /** The keys of the addresses `0 .. |keys1| + |keys2| - 1` in a memory
      holding `keys1` and then `keys2`. */
  lemma KeyMapRange(keys1: seq<int>, keys2: seq<int>, R: set<int>)
    requires Range(R, 0, |keys1| + |keys2|)
    ensures forall x :: x in KeyMap(keys1 + keys2, R) <==> 0 <= x < |keys1| + |keys2|
    ensures forall x :: 0 <= x < |keys1| ==> KeyMap(keys1 + keys2, R)[x] == keys1[x]
    ensures forall j :: 0 <= j < |keys2| ==> KeyMap(keys1 + keys2, R)[|keys1| + j] == keys2[j]
  {
  }

  /** The insertion loop of cmd/main.go, on a heap whose nodes are the
      addresses from `lo` to the top of the memory: one fresh node per key
      is allocated and inserted. Every record the heap did not hold is kept,
      so other heaps in the same memory stay intact. */
  method Load(heap: Heap, keys: seq<int>, ghost lo: int)
    requires heap.Valid() && Range(heap.shape.nodes, lo, |heap.arena.key|)
    modifies heap, heap.arena
    ensures heap.Valid() && heap.arena.key == old(heap.arena.key) + keys
    ensures Range(heap.shape.nodes, lo, |heap.arena.key|) && heap.size == old(heap.size) + |keys|
    ensures Kept(old(heap.arena.Memory()), heap.arena.Memory(), old(heap.shape.nodes))
  {
    var arena := heap.arena;
    ghost var m0, key0, nodes0 := arena.Memory(), arena.key, heap.shape.nodes;
    KeptRefl(m0, nodes0);
    var i := 0;
    while i < |keys|
      invariant 0 <= i <= |keys| && heap.Valid()
      invariant arena.key == key0 + keys[..i] && Range(heap.shape.nodes, lo, |arena.key|)
      invariant heap.size == old(heap.size) + i && Kept(m0, arena.Memory(), nodes0)
    {
      ghost var m, nodes := arena.Memory(), heap.shape.nodes;
      Add(heap, keys[i], lo);
      KeptTrans(m0, m, arena.Memory(), nodes0, nodes);
      assert keys[..i + 1] == keys[..i] + [keys[i]];
      i := i + 1;
    }
    assert keys[..|keys|] == keys;
  }

  /** One round of the insertion loop: a new node with id and key `k` at the
      next free address, inserted into the heap. */
  method Add(heap: Heap, k: int, ghost lo: int)
    requires heap.Valid() && Range(heap.shape.nodes, lo, |heap.arena.key|)
    modifies heap, heap.arena
    ensures heap.Valid()
    ensures heap.arena.key == old(heap.arena.key) + [k]
    ensures Range(heap.shape.nodes, lo, |heap.arena.key|) && heap.size == old(heap.size) + 1
    ensures Kept(old(heap.arena.Memory()), heap.arena.Memory(), old(heap.shape.nodes))
  {
    var arena := heap.arena;
    ghost var m, nodes := arena.Memory(), heap.shape.nodes;
    FillStep(m, heap.shape, heap.root, heap.size, k, lo);
    var n := arena.Alloc(k, k);
    ghost var m1 := arena.Memory();
    KeptAppend(m, NewNode(k, k), nodes);
    heap.Insert(n);
    KeptTrans(m, m1, arena.Memory(), nodes, nodes + {n});
  }
  /** The loop `for i := 0; i < len(slice); i++` of cmd/main.go: `count`
      pops, each yielding a key no smaller than the one before. */
  method Drain(heap: Heap, count: int) returns (output: seq<int>)
    requires heap.Valid() && 0 <= count <= heap.size
    modifies heap, heap.arena
    ensures heap.Valid() && heap.arena.key == old(heap.arena.key)
    ensures |output| == count && heap.size == old(heap.size) - count && |heap.shape.nodes| == heap.size
    ensures Drained(output, heap.arena.key, heap.shape.nodes, old(heap.shape.nodes))
  {
    ghost var keys, R := heap.arena.key, heap.shape.nodes;
    forall x | x in R ensures 0 <= x < |keys| {
      assert NodeOk(heap.arena.Memory(), heap.shape, x);
    }
    output := [];
    var i := 0;
    while i < count
      invariant 0 <= i <= count && |output| == i
      invariant heap.Valid() && heap.arena.key == keys
      invariant R == heap.shape.nodes && heap.size == |R| && heap.size == old(heap.size) - i
      invariant Drained(output, keys, R, old(heap.shape.nodes))
    {
      var k, y := Take(heap, keys);
      DrainStep(output, keys, R, old(heap.shape.nodes), y, k);
      output := output + [k];
      R := R - {y};
      i := i + 1;
    }
  }

  /** The popping loop's progress: the keys popped so far, in order, and the
      keys still in the heap make up the keys of the nodes `R0` it began with,
      and every popped key is at most every key still in the heap. */
  ghost predicate Drained(out: seq<int>, keys: seq<int>, R: set<int>, R0: set<int>) {
    (forall x :: x in R ==> 0 <= x < |keys|) &&
    multiset(out) + Bag(keys, R, |keys|) == Bag(keys, R0, |keys|) &&
    Sorted(out) && Below(out, keys, R)
  }

  /** Popping a minimum of the keys in `R` moves the loop on by one. */
  lemma DrainStep(out: seq<int>, keys: seq<int>, R: set<int>, R0: set<int>, y: int, k: int)
    requires Drained(out, keys, R, R0) && y in R && 0 <= y < |keys| && k == keys[y]
    requires forall x :: x in R ==> k <= keys[x]
    ensures Drained(out + [k], keys, R - {y}, R0)
  {
    BagRemove(keys, R, |keys|, y);
    SortedStep(out, keys, R, y, k);
  }

  /** Once the heap is empty, the output holds exactly the keys it began with. */
  lemma DrainEnd(out: seq<int>, keys: seq<int>, R0: set<int>)
    requires Drained(out, keys, {}, R0)
    ensures multiset(out) == Bag(keys, R0, |keys|) && Sorted(out)
  {
    BagEmpty(keys, |keys|);
  }

  /** Every key of `out` is at most the key of every address in `R`. */
  ghost predicate Below(out: seq<int>, keys: seq<int>, R: set<int>) {
    forall j, x :: 0 <= j < |out| && x in R && 0 <= x < |keys| ==> out[j] <= keys[x]
  }

  /** Appending a minimum of the keys in `R` to a sorted output below them
      keeps it sorted, and below what remains of `R`. */
  lemma SortedStep(out: seq<int>, keys: seq<int>, R: set<int>, y: int, k: int)
    requires Sorted(out) && Below(out, keys, R) && y in R && 0 <= y < |keys| && k == keys[y]
    requires forall x :: x in R && 0 <= x < |keys| ==> k <= keys[x]
    ensures Sorted(out + [k]) && Below(out + [k], keys, R - {y})
  {
    forall i, j | 0 <= i < j < |out + [k]| ensures (out + [k])[i] <= (out + [k])[j] {
      if j == |out| { assert out[i] <= keys[y]; }
    }
  }

  /** One round of the popping loop: the minimum address taken out of the
      heap, and the key read from its node. */
  method Take(heap: Heap, ghost keys: seq<int>) returns (k: int, y: int)
    requires heap.Valid() && heap.arena.key == keys && heap.size > 0
    modifies heap, heap.arena
    ensures heap.Valid() && heap.arena.key == keys
    ensures y in old(heap.shape.nodes) && heap.shape.nodes == old(heap.shape.nodes) - {y}
    ensures heap.size == old(heap.size) - 1
    ensures 0 <= y < |keys| && k == keys[y]
    ensures forall x :: x in old(heap.shape.nodes) ==> k <= keys[x]
  {
    var r := heap.PopMin();
    y := r.value;
    k := GetKey(heap.arena.NodeAt(y));
  }
}
