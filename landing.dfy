/**
 * Where `set` puts a value written key by key (src/utils/objectModifier.js:50-80).
 *
 * A non-empty map or array is not stored whole: `set` clears the keypath
 * and then sets every key of the value below it, and the containers along
 * the way are created by `ensurePath` when the first leaf is written. The
 * lemmas here follow that recursion and show that the keypath ends up
 * holding a copy of the value, for every value whose keys `ensurePath`
 * recreates as they were (`Landable`).
 */
module Landings {
  import opened Values
  import opened Heaps
  import opened EnsurePaths
  import opened Modifiers
  import opened ModifierFacts

  // ---------------------------------------------------------------------------
  // Walks

  /** Every level above a container is a container, with a smaller identity. */
  lemma PrefixContainer(h: Heap, v: Value, p: Path, j: nat)
    requires Closed(h) && IsContainer(h, Get(h, v, p)) && j < |p|
    ensures IsContainer(h, Get(h, v, p[..j])) && Get(h, v, p[..j]).id < Get(h, v, p).id
  {
    GetConcat(h, v, p[..j], p[j..]);
    assert p[..j] + p[j..] == p;
    GetIdsGrow(h, Get(h, v, p[..j]), p[j..]);
  }

  /**
   * A walk reads the same in a heap where only the object `a`, which the
   * walk does not pass through, may have changed.
   */
  lemma {:induction false} GetKeep(h: Heap, h': Heap, v: Value, p: Path, a: NodeId)
    requires Closed(h) && ValueIn(h, v)
    requires forall id :: id in h.nodes && id != a ==> id in h'.nodes && h'.nodes[id] == h.nodes[id]
    requires forall j :: 0 <= j < |p| ==> Get(h, v, p[..j]) != Ref(a)
    ensures Get(h', v, p) == Get(h, v, p)
    decreases |p|
  {
    if p != [] {
      assert p[..0] == [];
      if IsContainer(h, v) {
        var c := Lookup(h.nodes[v.id], p[0]);
        assert ValueIn(h, c) by {
          if c.Ref? { assert p[0] in h.nodes[v.id].fields; }
        }
        forall j | 0 <= j < |p[1..]| ensures Get(h, c, p[1..][..j]) != Ref(a) {
          GetStep(h, v, p, j + 1);
        }
        GetKeep(h, h', c, p[1..], a);
      } else {
        assert !IsContainer(h', v);
      }
    }
  }

  /** A keypath one key longer keeps the levels that held containers, and adds one when the keypath itself does. */
  lemma {:induction false} KeptExtend(H: Heap, v: Value, q: Path, k: Key)
    requires IsContainer(H, v) && q != []
    ensures Kept(H, v, q + [k]) == if IsContainer(H, Get(H, v, q)) then |q| + 1 else Kept(H, v, q)
    decreases |q|
  {
    var c := Lookup(H.nodes[v.id], q[0]);
    assert (q + [k])[0] == q[0] && (q + [k])[1..] == q[1..] + [k];
    if |q| > 1 && IsContainer(H, c) {
      KeptExtend(H, c, q[1..], k);
    } else if |q| > 1 {
      GetOfNonContainer(H, if c.Prim? then Absent else c, q[1..]);
    }
  }

  /** `Parent` is the container found at the last level `Kept` counts. */
  lemma {:induction false} ParentMeaning(H: Heap, v: Value, p: Path)
    requires IsContainer(H, v) && p != []
    ensures IsContainer(H, Get(H, v, p[..Kept(H, v, p) - 1]))
    ensures Parent(H, v, p) == Get(H, v, p[..Kept(H, v, p) - 1]).id
    decreases |p|
  {
    var c := Lookup(H.nodes[v.id], p[0]);
    assert p[..0] == [];
    if |p| > 1 && IsContainer(H, c) {
      ParentMeaning(H, c, p[1..]);
      GetStep(H, v, p, Kept(H, v, p) - 1);
    }
  }

  // ---------------------------------------------------------------------------
  // The containers `ensurePath` creates

  /** A walk that ends at the object `a` reads the same while only `a` changes. */
  lemma WalkTo(h: Heap, h': Heap, v: Value, p: Path, a: NodeId)
    requires Closed(h) && ValueIn(h, v) && Get(h, v, p) == Ref(a) && a in h.nodes
    requires forall id :: id in h.nodes && id != a ==> id in h'.nodes && h'.nodes[id] == h.nodes[id]
    ensures Get(h', v, p) == Ref(a)
  {
    forall j | 0 <= j < |p| ensures Get(h, v, p[..j]) != Ref(a) {
      PrefixContainer(h, v, p, j);
    }
    GetKeep(h, h', v, p, a);
  }

  /**
   * After `ensurePath` the walk still reaches the old container `Parent`,
   * which now holds the first new container.
   */
  lemma ChainTop(H: Heap, root: NodeId, p: Path)
    requires Closed(H) && root in H.nodes && p != [] && Kept(H, Ref(root), p) < |p|
    ensures var m, a, h1 := Kept(H, Ref(root), p), Parent(H, Ref(root), p), Ensure(H, Ref(root), p).0;
      && a in H.nodes && a < H.next && a in h1.nodes
      && Get(h1, Ref(root), p[..m - 1]) == Ref(a)
      && Get(h1, Ref(root), p[..m]) == Ref(H.next)
  {
    var m, a, h1 := Kept(H, Ref(root), p), Parent(H, Ref(root), p), Ensure(H, Ref(root), p).0;
    ChainAnchor(H, root, p);
    WalkTo(H, h1, Ref(root), p[..m - 1], a);
    GetAppend(h1, Ref(root), p[..m - 1], p[m - 1]);
    assert p[..m - 1] + [p[m - 1]] == p[..m];
  }

  /** `Parent` now holds the first new container under the key of the first missing level. */
  lemma ChainAnchor(H: Heap, root: NodeId, p: Path)
    requires Closed(H) && root in H.nodes && p != [] && Kept(H, Ref(root), p) < |p|
    ensures var m, a, h1 := Kept(H, Ref(root), p), Parent(H, Ref(root), p), Ensure(H, Ref(root), p).0;
      && Get(H, Ref(root), p[..m - 1]) == Ref(a)
      && a in H.nodes && a < H.next && a in h1.nodes
      && h1.nodes[a] == Store(H.nodes[a], p[m - 1], Ref(H.next))
      && forall id :: id in H.nodes && id != a ==> id in h1.nodes && h1.nodes[id] == H.nodes[id]
  {
    var m, a := Kept(H, Ref(root), p), Parent(H, Ref(root), p);
    EnsureShape(H, Ref(root), p);
    ParentMeaning(H, Ref(root), p);
    assert a !in Chain(p, m, H.next);
    assert forall id :: id in H.nodes ==> id !in Chain(p, m, H.next);
  }

  /** The container `ensurePath` created with identity `x`. */
  lemma ChainAt(H: Heap, root: NodeId, p: Path, x: NodeId)
    requires Closed(H) && root in H.nodes && p != []
    requires H.next <= x < H.next + (|p| - Kept(H, Ref(root), p))
    ensures var m, h1 := Kept(H, Ref(root), p), Ensure(H, Ref(root), p).0;
      x in h1.nodes && h1.nodes[x] == ChainNode(p, m, H.next, x)
  {
    var m := Kept(H, Ref(root), p);
    EnsureShape(H, Ref(root), p);
    assert x in Chain(p, m, H.next);
  }

  /** The walk reaches each container `ensurePath` created, the first at the first missing level. */
  lemma ChainGet(H: Heap, root: NodeId, p: Path, j: nat)
    requires Closed(H) && root in H.nodes && p != []
    requires Kept(H, Ref(root), p) <= j < |p|
    ensures var m, h1 := Kept(H, Ref(root), p), Ensure(H, Ref(root), p).0;
      && Get(h1, Ref(root), p[..j]) == Ref(H.next + (j - m))
      && H.next + (j - m) in h1.nodes
  {
    var m, h1 := Kept(H, Ref(root), p), Ensure(H, Ref(root), p).0;
    ChainTop(H, root, p);
    forall x | H.next <= x < H.next + (|p| - m) ensures x in h1.nodes && h1.nodes[x] == ChainNode(p, m, H.next, x) {
      ChainAt(H, root, p, x);
    }
    ChainWalk(h1, root, p, m, H.next, j);
  }

  /** Along a chain of containers numbered from `base`, each holding the next, the walk reaches the `j - m`-th. */
  lemma {:induction false} ChainWalk(h1: Heap, root: NodeId, p: Path, m: nat, base: NodeId, j: nat)
    requires m <= j < |p| && Get(h1, Ref(root), p[..m]) == Ref(base)
    requires forall x :: base <= x < base + (|p| - m) ==> x in h1.nodes && h1.nodes[x] == ChainNode(p, m, base, x)
    ensures Get(h1, Ref(root), p[..j]) == Ref(base + (j - m)) && base + (j - m) in h1.nodes
    decreases j
  {
    if j > m {
      ChainWalk(h1, root, p, m, base, j - 1);
      var y := base + (j - 1 - m);
      assert h1.nodes[y] == ChainNode(p, m, base, y);
      ChainLink(h1, root, p, j, y);
    }
  }

  /** A walk reaching a created container `y` goes on to the container `y + 1` it holds. */
  lemma ChainLink(h1: Heap, root: NodeId, p: Path, j: nat, y: NodeId)
    requires 0 < j <= |p| && Get(h1, Ref(root), p[..j - 1]) == Ref(y) && y in h1.nodes
    requires h1.nodes[y] == Store(EmptyNode(CreatesArray(p[j - 1])), p[j - 1], Ref(y + 1))
    ensures Get(h1, Ref(root), p[..j]) == Ref(y + 1)
  {
    GetAppend(h1, Ref(root), p[..j - 1], p[j - 1]);
    assert p[..j - 1] + [p[j - 1]] == p[..j];
  }

  /** A store into the object `x` changes no other object. */
  lemma StoreAtFrame(h: Heap, x: NodeId, k: Key, v: Value)
    requires x in h.nodes
    ensures forall id :: id in h.nodes && id != x ==> id in StoreAt(h, x, k, v).nodes && StoreAt(h, x, k, v).nodes[id] == h.nodes[id]
  {
  }

  /**
   * Walks to the levels above the object `x` at `p[..|p| - 1]` read the
   * same when only `x` changes.
   */
  lemma AboveHolder(h: Heap, h': Heap, root: NodeId, p: Path, x: NodeId)
    requires Closed(h) && root in h.nodes && p != [] && Get(h, Ref(root), p[..|p| - 1]) == Ref(x) && x in h.nodes
    requires forall id :: id in h.nodes && id != x ==> id in h'.nodes && h'.nodes[id] == h.nodes[id]
    ensures forall j :: 0 <= j < |p| ==> Get(h', Ref(root), p[..j]) == Get(h, Ref(root), p[..j])
  {
    var q := p[..|p| - 1];
    forall j | 0 <= j < |p| ensures Get(h', Ref(root), p[..j]) == Get(h, Ref(root), p[..j]) {
      forall j' | 0 <= j' < j ensures Get(h, Ref(root), p[..j][..j']) != Ref(x) {
        PrefixContainer(h, Ref(root), q, j');
        assert q[..j'] == p[..j][..j'];
      }
      GetKeep(h, h', Ref(root), p[..j], x);
    }
  }

  // ---------------------------------------------------------------------------
  // What a write into an empty keypath changes

  /**
   * The keypath holds nothing, and clearing it changes nothing: its holder,
   * if it has one, is left as it was by storing `undefined` under the last
   * key (a map without that key, or an array whose length is that index).
   */
  ghost predicate Vacant(h: Heap, root: NodeId, p: Path)
    requires p != []
  {
    && Get(h, Ref(root), p) == Absent
    && (IsContainer(h, Holder(h, Ref(root), p)) ==>
          var n := h.nodes[Holder(h, Ref(root), p).id];
          Store(n, p[|p| - 1], Absent) == n)
  }

  /** The removal step of `set` leaves a vacant keypath's tree as it was. */
  lemma ClearVacant(s: ModState, root: NodeId, p: Path)
    requires Rooted(s, root) && p != [] && Vacant(s.heap, root, p)
    ensures Clear(s, root, p).heap == s.heap
  {
    SetDeepMeaning(s.heap, Ref(root), p, Absent);
    if IsContainer(s.heap, Holder(s.heap, Ref(root), p)) {
      var x := Holder(s.heap, Ref(root), p).id;
      assert s.heap.nodes[x := s.heap.nodes[x]] == s.heap.nodes;
    }
  }

  /**
   * Level `j` of `p` holds a container created by the write (its identity
   * is at least `H.next`), of the kind `ensurePath` picks for the key below
   * it, holding only that key.
   */
  ghost predicate Made(H: Heap, r: Heap, root: NodeId, p: Path, j: nat)
    requires j < |p|
  {
    var x := Get(r, Ref(root), p[..j]);
    && x.Ref? && x.id >= H.next && x.id in r.nodes
    && r.nodes[x.id] == Assign(EmptyNode(CreatesArray(p[j])), p[j], Get(r, Ref(root), p[..j + 1]))
  }

  /**
   * The objects a write at `p` into `H` leaves as `r`: the container `Parent`
   * at the last level that already held one gets the next level under its
   * key, each later level is a new container, and no other old object changes.
   */
  ghost predicate Framed(H: Heap, r: Heap, root: NodeId, p: Path)
    requires root in H.nodes && p != []
  {
    var m, a := Kept(H, Ref(root), p), Parent(H, Ref(root), p);
    && (forall id :: id in H.nodes && id != a ==> id in r.nodes && r.nodes[id] == H.nodes[id])
    && a in r.nodes && r.nodes[a] == Assign(H.nodes[a], p[m - 1], Get(r, Ref(root), p[..m]))
    && (forall j :: m <= j < |p| ==> Made(H, r, root, p, j))
  }

  /** A write of `v` at `p` into `H` gave `r`: `p` holds a copy of `v`, and only `Framed` objects changed. */
  ghost predicate Landed(H: Heap, r: Heap, root: NodeId, p: Path, v: Json)
    requires root in H.nodes && p != []
  {
    && Wrapped(r, root)
    && Resolve(r, Get(r, Ref(root), p)) == v
    && Framed(H, r, root, p)
  }

  /**
   * The leaf write in three steps: `ensurePath` gives `h1`, placing the
   * value gives `h2` and `val` (a new empty container is an object no walk
   * of `h1` reaches), and the value is stored into the holder of `p`.
   */
  lemma LeafSteps(s: ModState, root: NodeId, p: Path, v: Json)
    requires Wrapped(s.heap, root) && p != [] && !IsComposite(v) && v != Undef
    ensures var h1 := Ensure(s.heap, Ref(root), p).0;
      var (h2, val) := Place(h1, v);
      var r := PutLeaf(s, root, p, v).heap;
      && Closed(h1) && root in h1.nodes && Closed(h2) && val != Absent
      && (forall id :: id in h1.nodes ==> id in h2.nodes && h2.nodes[id] == h1.nodes[id])
      && (forall j :: 0 <= j < |p| ==> Get(h2, Ref(root), p[..j]) == Get(h1, Ref(root), p[..j]))
      && IsContainer(h2, Get(h2, Ref(root), p[..|p| - 1]))
      && r == StoreAt(h2, Get(h2, Ref(root), p[..|p| - 1]).id, p[|p| - 1], val)
      && Get(r, Ref(root), p) == val
  {
    var h1 := Ensure(s.heap, Ref(root), p).0;
    var (h2, val) := Place(h1, v);
    PutLeafGet(s, root, p, v);
    PlaceClosed(h1, root, p, v);
    EnsureClosed(s.heap, Ref(root), p);
    PlaceKeeps(h1, root, p, v);
    DeepStore(h2, root, p, val, PutLeaf(s, root, p, v).heap);
  }

  /** Placing a leaf value adds at most one object, which no walk reaches. */
  lemma PlaceKeeps(h1: Heap, root: NodeId, p: Path, v: Json)
    requires Closed(h1) && root in h1.nodes && !IsComposite(v)
    ensures var (h2, val) := Place(h1, v);
      forall j :: 0 <= j < |p| ==> Get(h2, Ref(root), p[..j]) == Get(h1, Ref(root), p[..j])
  {
    var (h2, val) := Place(h1, v);
    forall j | 0 <= j < |p| ensures Get(h2, Ref(root), p[..j]) == Get(h1, Ref(root), p[..j]) {
      if val.Ref? {
        GetAlloc(h1, v.JArr?, Ref(root), p[..j]);
      }
    }
  }

  /** A deep write that succeeds stores into the holder, an object. */
  lemma DeepStore(h2: Heap, root: NodeId, p: Path, val: Value, r: Heap)
    requires p != [] && SetDeep(h2, Ref(root), p, val).Some? && r == SetDeep(h2, Ref(root), p, val).value.0
    ensures IsContainer(h2, Get(h2, Ref(root), p[..|p| - 1]))
    ensures r == StoreAt(h2, Get(h2, Ref(root), p[..|p| - 1]).id, p[|p| - 1], val)
  {
    SetDeepMeaning(h2, Ref(root), p, val);
  }

  /** The leaf write where the holder of `p` already is a container: only the holder changes. */
  lemma LeafKept(H: Heap, root: NodeId, p: Path, h2: Heap, val: Value, r: Heap)
    requires Closed(H) && root in H.nodes && p != [] && Kept(H, Ref(root), p) == |p| && val != Absent
    requires forall id :: id in H.nodes ==> id in h2.nodes && h2.nodes[id] == H.nodes[id]
    requires Get(h2, Ref(root), p[..|p| - 1]) == Get(H, Ref(root), p[..|p| - 1])
    requires IsContainer(h2, Get(h2, Ref(root), p[..|p| - 1]))
    requires r == StoreAt(h2, Get(h2, Ref(root), p[..|p| - 1]).id, p[|p| - 1], val)
    requires Get(r, Ref(root), p) == val
    ensures Framed(H, r, root, p)
  {
    var a := Get(H, Ref(root), p[..|p| - 1]).id;
    assert Parent(H, Ref(root), p) == a && a in H.nodes by {
      ParentMeaning(H, Ref(root), p);
    }
    assert p[..|p|] == p;
    KeptHolder(H, h2, r, a, p[|p| - 1], val);
  }

  /** A store into the old object `a` of a heap that extends `H`: only `a` differs from `H`, by the one key. */
  lemma KeptHolder(H: Heap, h2: Heap, r: Heap, a: NodeId, k: Key, val: Value)
    requires a in H.nodes && val != Absent
    requires forall id :: id in H.nodes ==> id in h2.nodes && h2.nodes[id] == H.nodes[id]
    requires r == StoreAt(h2, a, k, val)
    ensures forall id :: id in H.nodes && id != a ==> id in r.nodes && r.nodes[id] == H.nodes[id]
    ensures a in r.nodes && r.nodes[a] == Assign(H.nodes[a], k, val)
  {
  }

  /** What the leaf write creating levels of `p` needs of its three steps. */
  ghost predicate LeafFacts(H: Heap, root: NodeId, p: Path, h2: Heap, val: Value, r: Heap)
    requires Closed(H) && root in H.nodes && p != [] && Kept(H, Ref(root), p) < |p|
  {
    var h1, L := Ensure(H, Ref(root), p).0, H.next + (|p| - 1 - Kept(H, Ref(root), p));
    && val != Absent && root in h1.nodes && L in h2.nodes
    && (forall id :: id in h1.nodes ==> id in h2.nodes && h2.nodes[id] == h1.nodes[id])
    && (forall j :: 0 <= j < |p| ==> Get(h2, Ref(root), p[..j]) == Get(h1, Ref(root), p[..j]))
    && r == StoreAt(h2, L, p[|p| - 1], val)
    && Get(r, Ref(root), p) == val
    && (forall j :: 0 <= j < |p| ==> Get(r, Ref(root), p[..j]) == Get(h2, Ref(root), p[..j]))
  }

  /** The leaf write where levels of `p` were missing: they are created, the last holding the value. */
  lemma LeafCreated(H: Heap, root: NodeId, p: Path, h2: Heap, val: Value, r: Heap)
    requires Closed(H) && root in H.nodes && p != [] && Kept(H, Ref(root), p) < |p| && val != Absent
    requires root in Ensure(H, Ref(root), p).0.nodes && Closed(h2)
    requires forall id :: id in Ensure(H, Ref(root), p).0.nodes ==> id in h2.nodes && h2.nodes[id] == Ensure(H, Ref(root), p).0.nodes[id]
    requires forall j :: 0 <= j < |p| ==> Get(h2, Ref(root), p[..j]) == Get(Ensure(H, Ref(root), p).0, Ref(root), p[..j])
    requires IsContainer(h2, Get(h2, Ref(root), p[..|p| - 1]))
    requires r == StoreAt(h2, Get(h2, Ref(root), p[..|p| - 1]).id, p[|p| - 1], val)
    requires Get(r, Ref(root), p) == val
    ensures Framed(H, r, root, p)
  {
    var m, h1 := Kept(H, Ref(root), p), Ensure(H, Ref(root), p).0;
    var L := H.next + (|p| - 1 - m);
    ChainGet(H, root, p, |p| - 1);
    assert Get(h2, Ref(root), p[..|p| - 1]) == Ref(L);
    StoreAtFrame(h2, L, p[|p| - 1], val);
    AboveHolder(h2, r, root, p, L);
    LeafFactsHold(H, root, p, h1, L, h2, val, r);
    LeafFramed(H, root, p, h2, val, r);
  }

  /** The objects the leaf write creating levels changes are the ones `Framed` names. */
  lemma LeafFramed(H: Heap, root: NodeId, p: Path, h2: Heap, val: Value, r: Heap)
    requires Closed(H) && root in H.nodes && p != [] && Kept(H, Ref(root), p) < |p|
    requires LeafFacts(H, root, p, h2, val, r)
    ensures Framed(H, r, root, p)
  {
    LeafAnchor(H, root, p, h2, val, r);
    forall j | Kept(H, Ref(root), p) <= j < |p| ensures Made(H, r, root, p, j) {
      LeafMade(H, root, p, h2, val, r, j);
    }
  }

  /** `LeafFacts` from its parts, `h1` the heap `ensurePath` gave and `L` the holder it created. */
  lemma LeafFactsHold(H: Heap, root: NodeId, p: Path, h1: Heap, L: NodeId, h2: Heap, val: Value, r: Heap)
    requires Closed(H) && root in H.nodes && p != [] && Kept(H, Ref(root), p) < |p| && val != Absent
    requires h1 == Ensure(H, Ref(root), p).0 && L == H.next + (|p| - 1 - Kept(H, Ref(root), p))
    requires root in h1.nodes && L in h1.nodes
    requires forall id :: id in h1.nodes ==> id in h2.nodes && h2.nodes[id] == h1.nodes[id]
    requires forall j :: 0 <= j < |p| ==> Get(h2, Ref(root), p[..j]) == Get(h1, Ref(root), p[..j])
    requires r == StoreAt(h2, L, p[|p| - 1], val) && Get(r, Ref(root), p) == val
    requires forall j :: 0 <= j < |p| ==> Get(r, Ref(root), p[..j]) == Get(h2, Ref(root), p[..j])
    ensures LeafFacts(H, root, p, h2, val, r)
  {
  }

  /** The old objects after a leaf write creating levels: only `Parent` changed, to hold the first new one. */
  lemma LeafAnchor(H: Heap, root: NodeId, p: Path, h2: Heap, val: Value, r: Heap)
    requires Closed(H) && root in H.nodes && p != [] && Kept(H, Ref(root), p) < |p|
    requires LeafFacts(H, root, p, h2, val, r)
    ensures var m, a := Kept(H, Ref(root), p), Parent(H, Ref(root), p);
      && (forall id :: id in H.nodes && id != a ==> id in r.nodes && r.nodes[id] == H.nodes[id])
      && a in r.nodes && r.nodes[a] == Assign(H.nodes[a], p[m - 1], Get(r, Ref(root), p[..m]))
  {
    ChainAnchor(H, root, p);
    ChainTop(H, root, p);
  }

  /** One level created by the leaf write. */
  lemma LeafMade(H: Heap, root: NodeId, p: Path, h2: Heap, val: Value, r: Heap, j: nat)
    requires Closed(H) && root in H.nodes && p != [] && Kept(H, Ref(root), p) <= j < |p|
    requires LeafFacts(H, root, p, h2, val, r)
    ensures Made(H, r, root, p, j)
  {
    if j + 1 < |p| {
      LeafMadeInner(H, root, p, h2, val, r, j);
    } else {
      LeafMadeLast(H, root, p, h2, val, r);
    }
  }

  /** A created level above the holder: it holds the next created level. */
  lemma LeafMadeInner(H: Heap, root: NodeId, p: Path, h2: Heap, val: Value, r: Heap, j: nat)
    requires Closed(H) && root in H.nodes && p != [] && Kept(H, Ref(root), p) <= j && j + 1 < |p|
    requires LeafFacts(H, root, p, h2, val, r)
    ensures Made(H, r, root, p, j)
  {
    var m, h1 := Kept(H, Ref(root), p), Ensure(H, Ref(root), p).0;
    var x, L := H.next + (j - m), H.next + (|p| - 1 - m);
    ChainGet(H, root, p, j);
    ChainGet(H, root, p, j + 1);
    ChainAt(H, root, p, x);
    assert h1.nodes[x] == Store(EmptyNode(CreatesArray(p[j])), p[j], Ref(x + 1));
    assert Get(r, Ref(root), p[..j]) == Ref(x);
    assert Get(r, Ref(root), p[..j + 1]) == Ref(x + 1);
    assert x != L;
    assert r.nodes[x] == h2.nodes[x] == h1.nodes[x];
  }

  /** The holder: a created level holding the value under the last key. */
  lemma LeafMadeLast(H: Heap, root: NodeId, p: Path, h2: Heap, val: Value, r: Heap)
    requires Closed(H) && root in H.nodes && p != [] && Kept(H, Ref(root), p) < |p|
    requires LeafFacts(H, root, p, h2, val, r)
    ensures Made(H, r, root, p, |p| - 1)
  {
    var m, h1 := Kept(H, Ref(root), p), Ensure(H, Ref(root), p).0;
    var j, L := |p| - 1, H.next + (|p| - 1 - m);
    ChainEnd(H, root, p);
    assert Get(r, Ref(root), p[..j]) == Ref(L);
    HolderMade(H, h2, r, root, p, L, val);
  }

  /** The last container `ensurePath` creates is empty, and the walk to the holder of `p` reaches it. */
  lemma ChainEnd(H: Heap, root: NodeId, p: Path)
    requires Closed(H) && root in H.nodes && p != [] && Kept(H, Ref(root), p) < |p|
    ensures var h1, L := Ensure(H, Ref(root), p).0, H.next + (|p| - 1 - Kept(H, Ref(root), p));
      && Get(h1, Ref(root), p[..|p| - 1]) == Ref(L)
      && L in h1.nodes && h1.nodes[L] == EmptyNode(CreatesArray(p[|p| - 1]))
  {
    var m := Kept(H, Ref(root), p);
    var L := H.next + (|p| - 1 - m);
    ChainGet(H, root, p, |p| - 1);
    ChainAt(H, root, p, L);
    assert m + (L - H.next) == |p| - 1;
  }

  /** The holder `L`, a new empty container, given the value under the last key. */
  lemma HolderMade(H: Heap, h2: Heap, r: Heap, root: NodeId, p: Path, L: NodeId, val: Value)
    requires p != [] && L >= H.next && val != Absent
    requires L in h2.nodes && h2.nodes[L] == EmptyNode(CreatesArray(p[|p| - 1]))
    requires r == StoreAt(h2, L, p[|p| - 1], val)
    requires Get(r, Ref(root), p[..|p| - 1]) == Ref(L) && Get(r, Ref(root), p) == val
    ensures Made(H, r, root, p, |p| - 1)
  {
    var j := |p| - 1;
    assert Get(r, Ref(root), p[..j + 1]) == val by {
      assert p[..j + 1] == p;
    }
    LeafHolder(h2, r, L, p[j], val, CreatesArray(p[j]));
  }

  /** The holder's new contents: an empty container given the value under one key. */
  lemma LeafHolder(h2: Heap, r: Heap, L: NodeId, k: Key, val: Value, isArray: bool)
    requires L in h2.nodes && h2.nodes[L] == EmptyNode(isArray) && val != Absent
    requires r == StoreAt(h2, L, k, val)
    ensures L in r.nodes && r.nodes[L] == Assign(EmptyNode(isArray), k, val)
  {
  }

  /** The leaf write, from any well-formed tree, lands the value and changes only `Framed` objects. */
  lemma PutLeafLanded(s: ModState, root: NodeId, p: Path, v: Json)
    requires Wrapped(s.heap, root) && p != [] && !IsComposite(v) && v != Undef
    ensures Landed(s.heap, PutLeaf(s, root, p, v).heap, root, p, v)
  {
    var h1 := Ensure(s.heap, Ref(root), p).0;
    EnsureValid(s.heap, Ref(root), p, root);
    EnsureClosed(s.heap, Ref(root), p);
    PlaceValid(h1, root, p, v);
    PutLeafLands(s, root, p, v);
    PutLeafFramed(s, root, p, v);
  }

  /** The objects the leaf write changes. */
  lemma PutLeafFramed(s: ModState, root: NodeId, p: Path, v: Json)
    requires Wrapped(s.heap, root) && p != [] && !IsComposite(v) && v != Undef
    ensures Framed(s.heap, PutLeaf(s, root, p, v).heap, root, p)
  {
    var H := s.heap;
    var h1 := Ensure(H, Ref(root), p).0;
    var (h2, val) := Place(h1, v);
    var r := PutLeaf(s, root, p, v).heap;
    LeafSteps(s, root, p, v);
    if Kept(H, Ref(root), p) == |p| {
      EnsureShape(H, Ref(root), p);
      LeafKept(H, root, p, h2, val, r);
    } else {
      LeafCreated(H, root, p, h2, val, r);
    }
  }

  // ---------------------------------------------------------------------------
  // Values written key by key

  /**
   * A value `set` rebuilds as it was: no `undefined` anywhere inside it
   * (writing one deletes the key, or pops the array when it is the last
   * element) and no index among the keys of a map (`ensurePath` creates an
   * array for a level whose first key is an index).
   */
  predicate Landable(v: Json)
  {
    match v
    case JObj(f) => forall k :: k in f ==> k.Name? && f[k] != Undef && Landable(f[k])
    case JArr(items) => forall i :: 0 <= i < |items| ==> items[i] != Undef && Landable(items[i])
    case _ => true
  }

  /** Every value `set` writes as one leaf is rebuilt as it was. */
  lemma LeafLandable(v: Json)
    requires !IsComposite(v)
    ensures Landable(v)
  {
  }

  /** The keys `keys` lists are distinct. */
  lemma KeysDistinct(v: Json)
    ensures forall i, j :: 0 <= i < j < |JsonKeys(v)| ==> JsonKeys(v)[i] != JsonKeys(v)[j]
  {
    KeyLessIsStrictTotalOrder();
  }

  /**
   * The container `n` holds the first `i` keys of `v`, each with a copy of
   * its value, and nothing else; an array is exactly `i` long.
   */
  ghost predicate Partial(h: Heap, n: NodeId, v: Json, i: nat)
    requires Closed(h) && n in h.nodes
  {
    var N, ks := h.nodes[n], JsonKeys(v);
    && i <= |ks|
    && N.isArray == v.JArr?
    && (v.JArr? ==> N.length == i)
    && (forall j :: 0 <= j < i ==> Resolve(h, Lookup(N, ks[j])) == JsonChild(v, ks[j]))
    && (forall k :: k in N.fields ==> k in ks[..i])
  }

  /** A container holding every key of `v` is a copy of `v`. */
  lemma PartialFull(h: Heap, n: NodeId, v: Json)
    requires Closed(h) && n in h.nodes && IsContainerJson(v) && Landable(v)
    requires Partial(h, n, v, |JsonKeys(v)|)
    ensures ResolveNode(h, n) == v
  {
    var N, ks := h.nodes[n], JsonKeys(v);
    assert ks[..|ks|] == ks;
    if v.JArr? {
      ArrayFull(h, n, v);
    } else {
      forall k | k in v.fields ensures k in N.fields && Resolve(h, N.fields[k]) == v.fields[k] {
        ObjectHas(h, n, v, k);
      }
      ObjectFull(h, n, v);
    }
  }

  lemma ArrayFull(h: Heap, n: NodeId, v: Json)
    requires Closed(h) && n in h.nodes && v.JArr? && h.nodes[n].isArray && h.nodes[n].length == |v.items|
    requires forall j :: 0 <= j < |JsonKeys(v)| ==> Resolve(h, Lookup(h.nodes[n], JsonKeys(v)[j])) == JsonChild(v, JsonKeys(v)[j])
    ensures ResolveNode(h, n) == v
  {
    var N, ks := h.nodes[n], JsonKeys(v);
    forall i | 0 <= i < |v.items| ensures Resolve(h, Lookup(N, Index(i))) == v.items[i] {
      assert ks[i] == Index(i);
    }
  }

  lemma ObjectFull(h: Heap, n: NodeId, v: Json)
    requires Closed(h) && n in h.nodes && v.JObj? && !h.nodes[n].isArray
    requires forall k :: k in v.fields ==> k in h.nodes[n].fields && Resolve(h, h.nodes[n].fields[k]) == v.fields[k]
    requires forall k :: k in h.nodes[n].fields ==> k in v.fields
    ensures ResolveNode(h, n) == v
  {
    var N, f := h.nodes[n], v.fields;
    var M := map k | k in N.fields :: Resolve(h, N.fields[k]);
    assert M == f;
    assert ResolveNode(h, n) == JObj(M);
  }

  /** A key of the map `v` is held, with a copy of its value. */
  lemma ObjectHas(h: Heap, n: NodeId, v: Json, k: Key)
    requires Closed(h) && n in h.nodes && v.JObj? && k in v.fields && v.fields[k] != Undef
    requires forall j :: 0 <= j < |JsonKeys(v)| ==> Resolve(h, Lookup(h.nodes[n], JsonKeys(v)[j])) == JsonChild(v, JsonKeys(v)[j])
    ensures k in h.nodes[n].fields && Resolve(h, h.nodes[n].fields[k]) == v.fields[k]
  {
    var ks := JsonKeys(v);
    var j :| 0 <= j < |ks| && ks[j] == k;
    assert Resolve(h, Lookup(h.nodes[n], k)) == v.fields[k];
  }

  /** The next key of a partly written container is vacant. */
  lemma VacantNext(h: Heap, root: NodeId, p: Path, n: NodeId, v: Json, i: nat)
    requires Closed(h) && root in h.nodes && Get(h, Ref(root), p) == Ref(n) && n in h.nodes
    requires IsContainerJson(v) && Partial(h, n, v, i) && i < |JsonKeys(v)|
    ensures Vacant(h, root, p + [JsonKeys(v)[i]])
  {
    var N, ks := h.nodes[n], JsonKeys(v);
    var k := ks[i];
    KeysDistinct(v);
    assert (p + [k])[..|p|] == p;
    GetAppend(h, Ref(root), p, k);
    assert k !in N.fields;
    if N.isArray {
      assert k == Index(i);
    }
    AbsentBeyond(N, k);
  }

  /** Storing `undefined` under a key an object lacks, past the end if it is an array, changes nothing. */
  lemma AbsentBeyond(N: Node, k: Key)
    requires k !in N.fields && (N.isArray ==> k == Index(N.length))
    ensures Store(N, k, Absent) == N
  {
    assert N.fields[k := Absent] - {k} == N.fields;
  }

  /** A write of the next key of `v` below a partly written container adds that key alone. */
  lemma PartialStep(h: Heap, h': Heap, root: NodeId, p: Path, n: NodeId, v: Json, i: nat)
    requires Closed(h) && root in h.nodes && p != [] && Get(h, Ref(root), p) == Ref(n) && n in h.nodes
    requires IsContainerJson(v) && Partial(h, n, v, i) && i < |JsonKeys(v)|
    requires Closed(h') && Framed(h, h', root, p + [JsonKeys(v)[i]])
    requires Resolve(h', Get(h', Ref(root), p + [JsonKeys(v)[i]])) == JsonChild(v, JsonKeys(v)[i])
    ensures n in h'.nodes && Get(h', Ref(root), p) == Ref(n) && Partial(h', n, v, i + 1)
    ensures forall id :: id in h.nodes && id != n ==> id in h'.nodes && h'.nodes[id] == h.nodes[id]
  {
    var k := JsonKeys(v)[i];
    var X := Get(h', Ref(root), p + [k]);
    ChildSlot(h, h', root, p, n, k);
    PartialGrow(h, h', n, v, i, X);
  }

  /** The write below the container `n` at `p` changes `n` alone, under its key. */
  lemma ChildSlot(h: Heap, h': Heap, root: NodeId, p: Path, n: NodeId, k: Key)
    requires Closed(h) && root in h.nodes && p != [] && Get(h, Ref(root), p) == Ref(n) && n in h.nodes
    requires Framed(h, h', root, p + [k])
    ensures n in h'.nodes && Get(h', Ref(root), p) == Ref(n)
    ensures h'.nodes[n] == Assign(h.nodes[n], k, Get(h', Ref(root), p + [k]))
    ensures forall id :: id in h.nodes && id != n ==> id in h'.nodes && h'.nodes[id] == h.nodes[id]
  {
    var q := p + [k];
    KeptExtend(h, Ref(root), p, k);
    ParentMeaning(h, Ref(root), q);
    assert q[..|p|] == p && q[..|p| + 1] == q;
    WalkTo(h, h', Ref(root), p, n);
  }

  /** Adding the next key of `v` with a copy of its value to a partly written container. */
  lemma PartialGrow(h: Heap, h': Heap, n: NodeId, v: Json, i: nat, X: Value)
    requires Closed(h) && Closed(h') && n in h.nodes && n in h'.nodes
    requires IsContainerJson(v) && Partial(h, n, v, i) && i < |JsonKeys(v)|
    requires h'.nodes[n] == Assign(h.nodes[n], JsonKeys(v)[i], X)
    requires Resolve(h', X) == JsonChild(v, JsonKeys(v)[i])
    requires forall id :: id in h.nodes && id != n ==> id in h'.nodes && h'.nodes[id] == h.nodes[id]
    ensures Partial(h', n, v, i + 1)
  {
    var ks, N' := JsonKeys(v), h'.nodes[n];
    assert forall j :: 0 <= j < i + 1 ==> Resolve(h', Lookup(N', ks[j])) == JsonChild(v, ks[j]) by {
      KeysDistinct(v);
      PartialValues(h, h', n, v, ks, i, X);
    }
    assert forall k :: k in N'.fields ==> k in ks[..i + 1] by {
      PartialKeys(h.nodes[n], N', ks, i, X);
    }
    assert N'.isArray == v.JArr? && (v.JArr? ==> N'.length == i + 1) by {
      if v.JArr? { assert ks[i] == Index(i); }
    }
    PartialIntro(h', n, v, ks, i + 1);
  }

  /** `Partial` from its parts, `ks` the keys of `v`. */
  lemma PartialIntro(h: Heap, n: NodeId, v: Json, ks: seq<Key>, i: nat)
    requires Closed(h) && n in h.nodes && ks == JsonKeys(v) && i <= |ks|
    requires h.nodes[n].isArray == v.JArr? && (v.JArr? ==> h.nodes[n].length == i)
    requires forall j :: 0 <= j < i ==> Resolve(h, Lookup(h.nodes[n], ks[j])) == JsonChild(v, ks[j])
    requires forall k :: k in h.nodes[n].fields ==> k in ks[..i]
    ensures Partial(h, n, v, i)
  {
  }

  /** The values of the first `i + 1` keys after the next key is added. */
  lemma PartialValues(h: Heap, h': Heap, n: NodeId, v: Json, ks: seq<Key>, i: nat, X: Value)
    requires Closed(h) && Closed(h') && n in h.nodes && n in h'.nodes && i < |ks|
    requires forall a, b :: 0 <= a < b < |ks| ==> ks[a] != ks[b]
    requires forall j :: 0 <= j < i ==> Resolve(h, Lookup(h.nodes[n], ks[j])) == JsonChild(v, ks[j])
    requires h'.nodes[n] == Assign(h.nodes[n], ks[i], X) && Resolve(h', X) == JsonChild(v, ks[i])
    requires forall id :: id in h.nodes && id != n ==> id in h'.nodes && h'.nodes[id] == h.nodes[id]
    ensures forall j :: 0 <= j < i + 1 ==> Resolve(h', Lookup(h'.nodes[n], ks[j])) == JsonChild(v, ks[j])
  {
    var N, N' := h.nodes[n], h'.nodes[n];
    forall j | 0 <= j < i + 1 ensures Resolve(h', Lookup(N', ks[j])) == JsonChild(v, ks[j]) {
      if j < i {
        PartialKeep(h, h', n, ks[j]);
        assert Lookup(N', ks[j]) == Lookup(N, ks[j]);
      }
    }
  }

  /** The keys of the container after the next key is added. */
  lemma PartialKeys(N: Node, N': Node, ks: seq<Key>, i: nat, X: Value)
    requires i < |ks| && N' == Assign(N, ks[i], X)
    requires forall k :: k in N.fields ==> k in ks[..i]
    ensures forall k :: k in N'.fields ==> k in ks[..i + 1]
  {
    assert ks[..i + 1] == ks[..i] + [ks[i]];
  }

  /** A value already in the container reads the same after only the container changed. */
  lemma PartialKeep(h: Heap, h': Heap, n: NodeId, k: Key)
    requires Closed(h) && Closed(h') && n in h.nodes
    requires forall id :: id in h.nodes && id != n ==> id in h'.nodes && h'.nodes[id] == h.nodes[id]
    ensures Resolve(h', Lookup(h.nodes[n], k)) == Resolve(h, Lookup(h.nodes[n], k))
  {
    var c := Lookup(h.nodes[n], k);
    if c.Ref? { assert k in h.nodes[n].fields; }
    ResolveFrame(h, h', c, n + 1);
  }

  /** The first key written into an empty keypath makes a new container there holding that key. */
  lemma FirstMade(h: Heap, h': Heap, root: NodeId, p: Path, k: Key)
    requires Closed(h) && root in h.nodes && p != [] && Get(h, Ref(root), p) == Absent
    requires Framed(h, h', root, p + [k])
    ensures var x := Get(h', Ref(root), p);
      && x.Ref? && x.id >= h.next && x.id in h'.nodes
      && h'.nodes[x.id] == Assign(EmptyNode(CreatesArray(k)), k, Get(h', Ref(root), p + [k]))
  {
    var q := p + [k];
    KeptExtend(h, Ref(root), p, k);
    assert Made(h, h', root, q, |p|);
    assert q[..|p|] == p && q[..|p| + 1] == q && q[|p|] == k;
  }

  /** That container holds the first key of `v`, as `Partial` asks. */
  lemma FirstLevel(h: Heap, x: NodeId, v: Json, X: Value)
    requires Closed(h) && x in h.nodes && IsComposite(v) && Landable(v)
    requires var k := JsonKeys(v)[0];
      h.nodes[x] == Assign(EmptyNode(CreatesArray(k)), k, X) && Resolve(h, X) == JsonChild(v, k)
    ensures Partial(h, x, v, 1)
  {
    var ks := JsonKeys(v);
    assert ks[0].Index? == v.JArr? && (v.JArr? ==> ks[0] == Index(0)) by {
      if v.JObj? { assert ks[0] in v.fields; }
    }
    FirstHolder(h, x, v, ks, X);
  }

  /** A new container holding only the first of `v`'s keys `ks`. */
  lemma FirstHolder(h: Heap, x: NodeId, v: Json, ks: seq<Key>, X: Value)
    requires Closed(h) && x in h.nodes && ks == JsonKeys(v) && ks != []
    requires ks[0].Index? == v.JArr? && (v.JArr? ==> ks[0] == Index(0))
    requires h.nodes[x] == Assign(EmptyNode(ks[0].Index?), ks[0], X) && Resolve(h, X) == JsonChild(v, ks[0])
    ensures Partial(h, x, v, 1)
  {
    var N := h.nodes[x];
    assert N.fields.Keys == {ks[0]} && ks[..1] == [ks[0]];
  }

  /** Walks down to the object at `p` read the same while only that object changes. */
  lemma AboveNode(h: Heap, h': Heap, root: NodeId, p: Path, x: NodeId)
    requires Closed(h) && root in h.nodes && Get(h, Ref(root), p) == Ref(x) && x in h.nodes
    requires forall id :: id in h.nodes && id != x ==> id in h'.nodes && h'.nodes[id] == h.nodes[id]
    ensures forall j :: 0 <= j <= |p| ==> Get(h', Ref(root), p[..j]) == Get(h, Ref(root), p[..j])
  {
    var q := p + [Index(0)];
    assert q[..|q| - 1] == p;
    AboveHolder(h, h', root, q, x);
    forall j | 0 <= j <= |p| ensures Get(h', Ref(root), p[..j]) == Get(h, Ref(root), p[..j]) {
      assert q[..j] == p[..j];
    }
  }

  /**
   * Writing the remaining keys changes only the container at `p`, so the
   * objects the first key's write changed are the ones a write at `p` changes.
   */
  lemma FramedLift(h: Heap, h': Heap, r: Heap, root: NodeId, p: Path, k: Key, x: NodeId)
    requires Closed(h) && root in h.nodes && p != [] && Get(h, Ref(root), p) == Absent
    requires Closed(h') && Framed(h, h', root, p + [k])
    requires Get(h', Ref(root), p) == Ref(x) && x >= h.next && x in h'.nodes
    requires forall id :: id in h'.nodes && id != x ==> id in r.nodes && r.nodes[id] == h'.nodes[id]
    ensures Framed(h, r, root, p)
  {
    var q := p + [k];
    KeptExtend(h, Ref(root), p, k);
    ParentMeaning(h, Ref(root), p);
    ParentMeaning(h, Ref(root), q);
    var m := Kept(h, Ref(root), p);
    assert q[..m - 1] == p[..m - 1] && q[..m] == p[..m] && q[m - 1] == p[m - 1] by {
      ExtendPrefix(p, k, m - 1);
      ExtendPrefix(p, k, m);
    }
    AboveNode(h', r, root, p, x);
    forall j | m <= j < |p| ensures Made(h, r, root, p, j) {
      assert Made(h, h', root, q, j);
      MadeLift(h, h', r, root, p, k, x, j);
    }
  }

  /** Extending a keypath leaves its prefixes as they were. */
  lemma ExtendPrefix(p: Path, k: Key, j: nat)
    requires j <= |p|
    ensures (p + [k])[..j] == p[..j] && (j < |p| ==> (p + [k])[j] == p[j])
  {
  }

  /** One created level above `p`, which the later writes leave as it was. */
  lemma MadeLift(h: Heap, h': Heap, r: Heap, root: NodeId, p: Path, k: Key, x: NodeId, j: nat)
    requires Closed(h') && root in h'.nodes && j < |p| && Made(h, h', root, p + [k], j)
    requires Get(h', Ref(root), p) == Ref(x) && x in h'.nodes
    requires forall id :: id in h'.nodes && id != x ==> id in r.nodes && r.nodes[id] == h'.nodes[id]
    requires forall j :: 0 <= j <= |p| ==> Get(r, Ref(root), p[..j]) == Get(h', Ref(root), p[..j])
    ensures Made(h, r, root, p, j)
  {
    var q := p + [k];
    assert q[..j] == p[..j] && q[..j + 1] == p[..j + 1] && q[j] == p[j];
    PrefixContainer(h', Ref(root), p, j);
  }

  /**
   * `v`'s keys from the `i`-th on, written below the container `n` at `p`
   * that holds the first `i`: `n` ends up a copy of `v`, and no other object
   * that was there before changes.
   */
  lemma LandKeys(s: ModState, root: NodeId, p: Path, v: Json, n: NodeId, i: nat)
    requires Wrapped(s.heap, root) && p != [] && IsComposite(v) && Landable(v)
    requires Get(s.heap, Ref(root), p) == Ref(n) && n in s.heap.nodes
    requires 1 <= i <= |JsonKeys(v)| && Partial(s.heap, n, v, i)
    ensures KeysLanded(s.heap, KeysFrom(s, root, p, v, i).heap, root, p, v, n)
    decreases v, 0, |JsonKeys(v)| - i, 1
  {
    var ks := JsonKeys(v);
    if i == |ks| {
      PartialFull(s.heap, n, v);
    } else {
      var s' := SetChild(s, root, p, v, ks[i]);
      LandNext(s, root, p, v, n, i);
      LandKeys(s', root, p, v, n, i + 1);
      KeysFromStep(s, root, p, v, i);
      KeysLandedCompose(s.heap, s'.heap, KeysFrom(s', root, p, v, i + 1).heap, root, p, v, n);
    }
  }

  /** `r` holds a copy of `v` in the container `n` at `p`, and every other object of `h` is as it was. */
  ghost predicate KeysLanded(h: Heap, r: Heap, root: NodeId, p: Path, v: Json, n: NodeId)
  {
    && Wrapped(r, root) && n in r.nodes && Get(r, Ref(root), p) == Ref(n) && ResolveNode(r, n) == v
    && forall id :: id in h.nodes && id != n ==> id in r.nodes && r.nodes[id] == h.nodes[id]
  }

  lemma KeysLandedCompose(h0: Heap, h1: Heap, r: Heap, root: NodeId, p: Path, v: Json, n: NodeId)
    requires forall id :: id in h0.nodes && id != n ==> id in h1.nodes && h1.nodes[id] == h0.nodes[id]
    requires KeysLanded(h1, r, root, p, v, n)
    ensures KeysLanded(h0, r, root, p, v, n)
  {
  }

  lemma KeysFromStep(s: ModState, root: NodeId, p: Path, v: Json, i: nat)
    requires Rooted(s, root) && i < |JsonKeys(v)|
    ensures KeysFrom(s, root, p, v, i) == KeysFrom(SetChild(s, root, p, v, JsonKeys(v)[i]), root, p, v, i + 1)
  {
  }

  /** `v`'s keys from the `i`-th on, written one after the other: `SetKeys` on `keys(v)[i..]`. */
  ghost function KeysFrom(s: ModState, root: NodeId, p: Path, v: Json, i: nat): (r: ModState)
    requires Rooted(s, root) && i <= |JsonKeys(v)|
    ensures Rooted(r, root)
    decreases |JsonKeys(v)| - i
  {
    if i == |JsonKeys(v)| then s
    else KeysFrom(SetChild(s, root, p, v, JsonKeys(v)[i]), root, p, v, i + 1)
  }

  /** The `i`-th key of `v` written below the container `n` at `p`: `n` now holds one key more. */
  lemma LandNext(s: ModState, root: NodeId, p: Path, v: Json, n: NodeId, i: nat)
    requires Wrapped(s.heap, root) && p != [] && IsComposite(v) && Landable(v)
    requires Get(s.heap, Ref(root), p) == Ref(n) && n in s.heap.nodes
    requires i < |JsonKeys(v)| && Partial(s.heap, n, v, i)
    ensures Wrapped(SetChild(s, root, p, v, JsonKeys(v)[i]).heap, root)
    ensures n in SetChild(s, root, p, v, JsonKeys(v)[i]).heap.nodes
    ensures Get(SetChild(s, root, p, v, JsonKeys(v)[i]).heap, Ref(root), p) == Ref(n)
    ensures Partial(SetChild(s, root, p, v, JsonKeys(v)[i]).heap, n, v, i + 1)
    ensures forall id :: id in s.heap.nodes && id != n ==>
      id in SetChild(s, root, p, v, JsonKeys(v)[i]).heap.nodes && SetChild(s, root, p, v, JsonKeys(v)[i]).heap.nodes[id] == s.heap.nodes[id]
    decreases v, 0, |JsonKeys(v)| - i, 0
  {
    var k := JsonKeys(v)[i];
    VacantNext(s.heap, root, p, n, v, i);
    LandChild(s, root, p, v, k);
    PartialStep(s.heap, SetChild(s, root, p, v, k).heap, root, p, n, v, i);
  }

  /** `KeysFrom` is `SetKeys` on the keys from the `i`-th on. */
  lemma {:induction false} KeysFromIs(s: ModState, root: NodeId, p: Path, v: Json, i: nat)
    requires Rooted(s, root) && i <= |JsonKeys(v)|
    ensures KeysFrom(s, root, p, v, i) == SetKeys(s, root, p, v, JsonKeys(v)[i..])
    decreases |JsonKeys(v)| - i
  {
    var ks := JsonKeys(v);
    if i < |ks| {
      KeysFromStep(s, root, p, v, i);
      SetKeysStep(s, root, p, v, ks, i);
      KeysFromIs(SetChild(s, root, p, v, ks[i]), root, p, v, i + 1);
    }
  }

  /** `v`'s child under `k`, written into a vacant keypath below `p`. */
  lemma LandChild(s: ModState, root: NodeId, p: Path, v: Json, k: Key)
    requires Wrapped(s.heap, root) && Landable(v) && IsContainerJson(v) && k in JsonKeys(v)
    requires Vacant(s.heap, root, p + [k])
    ensures Landed(s.heap, SetChild(s, root, p, v, k).heap, root, p + [k], JsonChild(v, k))
    decreases v, 0, 0, 0
  {
    var c := JsonChild(v, k);
    assert c != Undef && Landable(c) by {
      if v.JArr? { assert k.Index? && k.i < |v.items|; }
    }
    LandFresh(s, root, p + [k], c);
  }

  /**
   * `set` of a rebuildable value at a vacant keypath: the keypath holds a
   * copy of it, and only the objects `Framed` names changed.
   */
  lemma LandFresh(s: ModState, root: NodeId, p: Path, v: Json)
    requires Wrapped(s.heap, root) && p != [] && Landable(v) && v != Undef
    requires Vacant(s.heap, root, p)
    ensures Landed(s.heap, AfterSet(s, root, p, v).heap, root, p, v)
    decreases v, 1, 0, 0
  {
    var c := Clear(s, root, p);
    ClearVacant(s, root, p);
    if IsComposite(v) {
      LandFirst(c, root, p, v);
    } else {
      PutLeafLanded(c, root, p, v);
    }
  }

  /** `v`'s keys written into an empty keypath. */
  lemma LandFirst(s: ModState, root: NodeId, p: Path, v: Json)
    requires Wrapped(s.heap, root) && p != [] && IsComposite(v) && Landable(v)
    requires Get(s.heap, Ref(root), p) == Absent
    ensures Landed(s.heap, SetKeys(s, root, p, v, JsonKeys(v)).heap, root, p, v)
    decreases v, 0, |JsonKeys(v)| + 1, 0
  {
    var ks := JsonKeys(v);
    var k := ks[0];
    var s' := SetChild(s, root, p, v, k);
    LandFirstChild(s, root, p, v);
    var x := Get(s'.heap, Ref(root), p).id;
    KeysAfterFirst(s, root, p, v);
    LandKeys(s', root, p, v, x, 1);
    LandedAbove(s.heap, s'.heap, SetKeys(s, root, p, v, ks).heap, root, p, k, v, x);
  }

  /** Writing all of `v`'s keys is writing the first and then the rest. */
  lemma KeysAfterFirst(s: ModState, root: NodeId, p: Path, v: Json)
    requires Rooted(s, root) && JsonKeys(v) != []
    ensures KeysFrom(SetChild(s, root, p, v, JsonKeys(v)[0]), root, p, v, 1) == SetKeys(s, root, p, v, JsonKeys(v))
  {
    var ks := JsonKeys(v);
    KeysFromIs(s, root, p, v, 0);
    KeysFromStep(s, root, p, v, 0);
    assert ks[0..] == ks;
  }

  /** A container made at an empty keypath `p` and then filled with a copy of `v`: `v` landed at `p`. */
  lemma LandedAbove(h: Heap, h': Heap, r: Heap, root: NodeId, p: Path, k: Key, v: Json, x: NodeId)
    requires Closed(h) && root in h.nodes && p != [] && Get(h, Ref(root), p) == Absent
    requires Closed(h') && Framed(h, h', root, p + [k])
    requires Get(h', Ref(root), p) == Ref(x) && x >= h.next && x in h'.nodes
    requires KeysLanded(h', r, root, p, v, x)
    ensures Landed(h, r, root, p, v)
  {
    FramedLift(h, h', r, root, p, k, x);
  }

  /** The first key of `v` written into an empty keypath makes the new container at `p`, holding that key. */
  lemma LandFirstChild(s: ModState, root: NodeId, p: Path, v: Json)
    requires Wrapped(s.heap, root) && p != [] && IsComposite(v) && Landable(v)
    requires Get(s.heap, Ref(root), p) == Absent
    ensures var s' := SetChild(s, root, p, v, JsonKeys(v)[0]);
      var x := Get(s'.heap, Ref(root), p);
      && Wrapped(s'.heap, root) && Framed(s.heap, s'.heap, root, p + [JsonKeys(v)[0]])
      && x.Ref? && x.id >= s.heap.next && x.id in s'.heap.nodes && Partial(s'.heap, x.id, v, 1)
    decreases v, 0, |JsonKeys(v)|, 0
  {
    var k := JsonKeys(v)[0];
    var s' := SetChild(s, root, p, v, k);
    VacantBelow(s.heap, root, p, k);
    LandChild(s, root, p, v, k);
    FirstChildShape(s.heap, s'.heap, root, p, v);
  }

  /** Below an empty keypath every keypath is vacant. */
  lemma VacantBelow(h: Heap, root: NodeId, p: Path, k: Key)
    requires Closed(h) && root in h.nodes && Get(h, Ref(root), p) == Absent
    ensures Vacant(h, root, p + [k])
  {
    assert (p + [k])[..|p|] == p;
    GetAppend(h, Ref(root), p, k);
  }

  /** The container a write of `v`'s first key made at the empty keypath `p` holds a copy of that key's child. */
  lemma FirstChildShape(h: Heap, h': Heap, root: NodeId, p: Path, v: Json)
    requires Closed(h) && root in h.nodes && p != [] && Get(h, Ref(root), p) == Absent
    requires IsComposite(v) && Landable(v)
    requires Landed(h, h', root, p + [JsonKeys(v)[0]], JsonChild(v, JsonKeys(v)[0]))
    ensures var x := Get(h', Ref(root), p);
      x.Ref? && x.id >= h.next && x.id in h'.nodes && Partial(h', x.id, v, 1)
  {
    var k := JsonKeys(v)[0];
    FirstMade(h, h', root, p, k);
    var x := Get(h', Ref(root), p).id;
    FirstLevel(h', x, v, Get(h', Ref(root), p + [k]));
  }

  /**
   * `set(keypath, v)` for every value it rebuilds: afterwards the keypath
   * holds a copy of `v`, whatever the tree held before.
   */
  lemma SetLands(s: ModState, root: NodeId, q: Path, v: Json)
    requires Wrapped(s.heap, root) && q != [] && Landable(v)
    ensures Closed(AfterSet(s, root, q, v).heap)
    ensures Resolve(AfterSet(s, root, q, v).heap, Get(AfterSet(s, root, q, v).heap, Ref(root), q)) == v
  {
    if !IsComposite(v) {
      SetLeafLands(s, root, q, v);
    } else {
      var c := Clear(s, root, q);
      ClearValid(s, root, q);
      if Reached(s, root, q) {
        ClearLands(s, root, q);
      } else {
        SetDeepMeaning(s.heap, Ref(root), q, Absent);
        GetAppend(s.heap, Ref(root), q[..|q| - 1], q[|q| - 1]);
        assert q[..|q| - 1] + [q[|q| - 1]] == q;
      }
      LandFirst(c, root, q, v);
    }
  }
}
