/**
 * `ensurePath` (src/utils/ensurePath.js): make every proper prefix of a
 * keypath a container, creating arrays and objects where the tree holds
 * something else, and report each created level.
 */
module EnsurePaths {
  import opened Values
  import opened Heaps

  /** One created level: where, what it replaced, and the container put there. */
  datatype NewPath = NewPath(path: Path, oldVal: Value, newVal: Value)

  /** A created level is an array exactly when the key below it is an index. */
  predicate CreatesArray(next: Key)
  {
    next.Index?
  }

  /**
   * The containers created for the prefixes `path[..m]`, ..., `path[..|path| - 1]`,
   * numbered from `base` on, each holding the next one.
   */
  ghost function Chain(path: Path, m: nat, base: NodeId): map<NodeId, Node>
    requires 1 <= m <= |path|
  {
    map id: NodeId | base <= id < base + (|path| - m) :: ChainNode(path, m, base, id)
  }

  /** The created container with identity `id`, for the prefix `path[..m + (id - base)]`. */
  ghost function ChainNode(path: Path, m: nat, base: NodeId, id: NodeId): Node
    requires base <= id && m + (id - base) < |path|
  {
    var j := m + (id - base);
    var empty := EmptyNode(CreatesArray(path[j]));
    if j + 1 < |path| then Store(empty, path[j], Ref(id + 1)) else empty
  }

  lemma ChainShift(path: Path, m: nat, base: NodeId)
    requires 2 <= m <= |path|
    ensures Chain(path[1..], m - 1, base) == Chain(path, m, base)
  {
    forall id: NodeId | base <= id && m + (id - base) < |path|
      ensures ChainNode(path[1..], m - 1, base, id) == ChainNode(path, m, base, id)
    {
      assert path[1..][m - 1 + (id - base)] == path[m + (id - base)];
    }
  }

  lemma ChainCons(path: Path, base: NodeId)
    requires 3 <= |path|
    ensures Chain(path, 1, base) ==
      Chain(path[1..], 1, base + 1)[base := Store(EmptyNode(CreatesArray(path[1])), path[1], Ref(base + 1))]
  {
    var l := Chain(path, 1, base);
    var r := Chain(path[1..], 1, base + 1)[base := Store(EmptyNode(CreatesArray(path[1])), path[1], Ref(base + 1))];
    assert l.Keys == r.Keys;
    forall id | id in l ensures l[id] == r[id] {
      if id > base {
        assert path[1..][1 + (id - (base + 1))] == path[1 + (id - base)];
        assert ChainNode(path[1..], 1, base + 1, id) == ChainNode(path, 1, base, id);
      }
    }
  }

  function Prepend(k: Key, ps: seq<NewPath>): (r: seq<NewPath>)
    ensures |r| == |ps|
    ensures forall j :: 0 <= j < |ps| ==> r[j] == ps[j].(path := [k] + ps[j].path)
  {
    if ps == [] then [] else [ps[0].(path := [k] + ps[0].path)] + Prepend(k, ps[1..])
  }

  /**
   * The report of the levels `path[..m]`, ..., `path[..|path| - 1]`, in
   * order: the first with the value it replaced and the others with
   * `undefined`, each with the new container numbered from `base` on.
   */
  function Report(path: Path, m: nat, replaced: Value, base: NodeId): (ps: seq<NewPath>)
    requires 1 <= m <= |path|
  {
    seq(|path| - m, j requires 0 <= j < |path| - m =>
      NewPath(path[..m + j], if j == 0 then replaced else Absent, Ref(base + j)))
  }

  /** Prefixing every reported path with the first key. */
  lemma PrependReport(path: Path, m: nat, replaced: Value, base: NodeId)
    requires 2 <= m <= |path|
    ensures Prepend(path[0], Report(path[1..], m - 1, replaced, base)) == Report(path, m, replaced, base)
  {
    var l := Prepend(path[0], Report(path[1..], m - 1, replaced, base));
    var r := Report(path, m, replaced, base);
    forall j | 0 <= j < |r| ensures l[j] == r[j] {
      PrefixCons(path, m + j);
    }
  }

  /** A created first level followed by the report of the levels created below it. */
  lemma ConsReport(path: Path, sub: seq<NewPath>, k: nat, r: Value, replaced: Value, base: NodeId)
    requires 2 <= |path| && k == 1 && (|path| > 2 ==> r == Absent)
    requires sub == Report(path[1..], k, r, base + 1)
    ensures [NewPath([path[0]], replaced, Ref(base))] + Prepend(path[0], sub) == Report(path, 1, replaced, base)
  {
    var l := [NewPath([path[0]], replaced, Ref(base))] + Prepend(path[0], sub);
    var R := Report(path, 1, replaced, base);
    forall j | 0 <= j < |R| ensures l[j] == R[j] {
      PrefixCons(path, 1 + j);
    }
  }

  // ---------------------------------------------------------------------------
  // What the walk finds, level by level

  /**
   * How many of the levels `path[..0]`, `path[..1]`, ... hold containers
   * before the first one that does not (at most `|path|`, and only the
   * proper prefixes are looked at).
   */
  function Kept(H: Heap, v: Value, path: Path): (m: nat)
    requires IsContainer(H, v) && path != []
    ensures 1 <= m <= |path|
    decreases |path|
  {
    if |path| == 1 then 1
    else
      var c := Lookup(H.nodes[v.id], path[0]);
      if IsContainer(H, c) then 1 + Kept(H, c, path[1..]) else 1
  }

  /** The value found at the first level that is not a container. */
  function Replaced(H: Heap, v: Value, path: Path): Value
    requires IsContainer(H, v) && path != []
    decreases |path|
  {
    if |path| == 1 then Absent
    else
      var c := Lookup(H.nodes[v.id], path[0]);
      if IsContainer(H, c) then Replaced(H, c, path[1..]) else c
  }

  /** The container holding the first level that is not a container. */
  function Parent(H: Heap, v: Value, path: Path): (p: NodeId)
    requires IsContainer(H, v) && path != []
    ensures p in H.nodes
    decreases |path|
  {
    var c := Lookup(H.nodes[v.id], path[0]);
    if |path| > 1 && IsContainer(H, c) then Parent(H, c, path[1..]) else v.id
  }

  /** Every proper prefix of `path` from `v` holds a container. */
  predicate AllContainers(H: Heap, v: Value, path: Path)
    decreases |path|
  {
    IsContainer(H, v) && (|path| <= 1 || AllContainers(H, Lookup(H.nodes[v.id], path[0]), path[1..]))
  }

  /**
   * `Kept`, `Replaced` and `Parent` in terms of reading the tree: the first
   * `Kept` levels hold containers, and when that is not all of them, the
   * next level holds `Replaced`, which is not a container, inside the
   * container `Parent`.
   */
  lemma {:induction false} KeptMeaning(H: Heap, v: Value, path: Path)
    requires IsContainer(H, v) && path != []
    ensures var m := Kept(H, v, path);
      && (forall j :: 0 <= j < m ==> IsContainer(H, Get(H, v, path[..j])))
      && (m < |path| ==>
            && Replaced(H, v, path) == Get(H, v, path[..m])
            && !IsContainer(H, Replaced(H, v, path))
            && Parent(H, v, path) == Get(H, v, path[..m - 1]).id)
    decreases |path|
  {
    var m := Kept(H, v, path);
    assert path[..0] == [];
    if |path| > 1 {
      var c := Lookup(H.nodes[v.id], path[0]);
      if IsContainer(H, c) {
        KeptMeaning(H, c, path[1..]);
        forall j | 1 <= j < m ensures IsContainer(H, Get(H, v, path[..j])) {
          GetStep(H, v, path, j);
        }
        if m < |path| {
          GetStep(H, v, path, m);
          GetStep(H, v, path, m - 1);
          if m == 2 { assert path[1..][..0] == []; }
        }
      } else {
        GetStep(H, v, path, 1);
        assert path[1..][..0] == [];
      }
    }
  }

  /** `AllContainers` holds exactly when every proper prefix of `path` reads as a container. */
  lemma {:induction false} AllContainersMeaning(H: Heap, v: Value, path: Path)
    requires path != []
    ensures AllContainers(H, v, path) <==> forall j :: 0 <= j < |path| ==> IsContainer(H, Get(H, v, path[..j]))
    decreases |path|
  {
    assert path[..0] == [];
    if |path| > 1 && IsContainer(H, v) {
      var c := Lookup(H.nodes[v.id], path[0]);
      AllContainersMeaning(H, c, path[1..]);
      forall j | 1 <= j < |path| ensures Get(H, v, path[..j]) == Get(H, c, path[1..][..j - 1]) {
        GetStep(H, v, path, j);
      }
      if forall j :: 0 <= j < |path| ==> IsContainer(H, Get(H, v, path[..j])) {
        forall i | 0 <= i < |path[1..]| ensures IsContainer(H, Get(H, c, path[1..][..i])) {
          assert IsContainer(H, Get(H, v, path[..i + 1]));
        }
      }
    }
  }

  lemma {:induction false} ParentBelow(H: Heap, v: Value, path: Path)
    requires Closed(H) && IsContainer(H, v) && path != []
    ensures v.id <= Parent(H, v, path)
    decreases |path|
  {
    var c := Lookup(H.nodes[v.id], path[0]);
    if |path| > 1 && IsContainer(H, c) {
      assert path[0] in H.nodes[v.id].fields;
      ParentBelow(H, c, path[1..]);
    }
  }

  /** The heap after the creation step and the recursive call is the promised one. */
  lemma CreatedNodes(H: Heap, H1: Heap, H': Heap, obj: Value, path: Path, csub: nat)
    requires IsContainer(H, obj) && |path| >= 2 && Closed(H) && csub == |path| - 2
    requires H1 == StoreAt(Alloc(H, CreatesArray(path[1])), obj.id, path[0], Ref(H.next))
    requires csub == 0 ==> H'.nodes == H1.nodes
    requires csub > 0 ==>
      H'.nodes == H1.nodes[H.next := Store(H1.nodes[H.next], path[1], Ref(H1.next))] + Chain(path[1..], 1, H1.next)
    ensures H'.nodes ==
      H.nodes[obj.id := Store(H.nodes[obj.id], path[0], Ref(H.next))] + Chain(path, 1, H.next)
  {
    var created := H.next;
    assert created !in H.nodes && obj.id != created;
    var S := Store(H.nodes[obj.id], path[0], Ref(created));
    var e := EmptyNode(CreatesArray(path[1]));
    assert H1.nodes == H.nodes[created := e][obj.id := S];
    if csub == 0 {
      assert Chain(path, 1, created) == map[created := e];
      UpdateSwap(H.nodes, created, e, obj.id, S);
    } else {
      ChainCons(path, created);
      UpdateOverride(H.nodes, created, e, obj.id, S,
        Store(e, path[1], Ref(created + 1)), Chain(path[1..], 1, created + 1));
    }
  }

  lemma UpdateSwap(M: map<NodeId, Node>, b: NodeId, x: Node, a: NodeId, y: Node)
    requires a != b
    ensures M[b := x][a := y] == M[a := y] + map[b := x]
  {
  }

  lemma UpdateOverride(M: map<NodeId, Node>, b: NodeId, x: Node, a: NodeId, y: Node, z: Node, C: map<NodeId, Node>)
    requires a != b && b !in C && a !in C
    ensures M[b := x][a := y][b := z] + C == M[a := y] + C[b := z]
  {
  }

  // ---------------------------------------------------------------------------
  // The operation

  /**
   * What `ensurePath(obj, path)` leaves behind: the new heap and the report
   * of created levels. Walking down `path`, a level that holds a container
   * is entered; one that does not is replaced by a new array (when the key
   * below it is an index) or object, and the walk goes on inside it. A
   * one-key path changes nothing.
   */
  function Ensure(H: Heap, obj: Value, path: Path): (r: (Heap, seq<NewPath>))
    requires IsContainer(H, obj) && path != []
    ensures |r.1| < |path| && r.0.next == H.next + |r.1|
    decreases |path|
  {
    if |path| == 1 then (H, [])
    else
      var child := Lookup(H.nodes[obj.id], path[0]);
      if IsContainer(H, child) then
        var sub := Ensure(H, child, path[1..]);
        (sub.0, Prepend(path[0], sub.1))
      else
        var H1 := StoreAt(Alloc(H, CreatesArray(path[1])), obj.id, path[0], Ref(H.next));
        var sub := Ensure(H1, Ref(H.next), path[1..]);
        (sub.0, [NewPath([path[0]], child, Ref(H.next))] + Prepend(path[0], sub.1))
  }

  /**
   * The report lists the levels from the first one that held no container
   * down to the last proper prefix, the first with the value it replaced
   * and the others with `undefined`, each with its new container.
   */
  lemma {:induction false} EnsureReport(H: Heap, obj: Value, path: Path)
    requires Bounded(H) && IsContainer(H, obj) && path != []
    ensures Ensure(H, obj, path).1 == Report(path, Kept(H, obj, path), Replaced(H, obj, path), H.next)
    decreases |path|
  {
    if |path| > 1 {
      var child := Lookup(H.nodes[obj.id], path[0]);
      if IsContainer(H, child) {
        EnsureReport(H, child, path[1..]);
        PrependReport(path, Kept(H, obj, path), Replaced(H, child, path[1..]), H.next);
      } else {
        var created := H.next;
        var H1 := StoreAt(Alloc(H, CreatesArray(path[1])), obj.id, path[0], Ref(created));
        assert Bounded(H1);
        EnsureReport(H1, Ref(created), path[1..]);
        assert H1.nodes[created] == EmptyNode(CreatesArray(path[1]));
        assert Kept(H1, Ref(created), path[1..]) == 1;
        assert |path| > 2 ==> Replaced(H1, Ref(created), path[1..]) == Absent;
        assert H1.next == created + 1;
        ConsReport(path, Ensure(H1, Ref(created), path[1..]).1, Kept(H1, Ref(created), path[1..]),
          Replaced(H1, Ref(created), path[1..]), child, created);
      }
    }
  }

  /** Objects with identities below `obj`'s are left alone, and no object disappears. */
  lemma {:induction false} EnsureFrame(H: Heap, obj: Value, path: Path)
    requires Closed(H) && IsContainer(H, obj) && path != []
    ensures var H' := Ensure(H, obj, path).0;
      forall id :: id in H.nodes ==> id in H'.nodes && (id < obj.id ==> H'.nodes[id] == H.nodes[id])
    decreases |path|
  {
    var H' := Ensure(H, obj, path).0;
    if |path| > 1 {
      var child := Lookup(H.nodes[obj.id], path[0]);
      if IsContainer(H, child) {
        assert path[0] in H.nodes[obj.id].fields;
        EnsureFrame(H, child, path[1..]);
        assert H' == Ensure(H, child, path[1..]).0;
      } else {
        var created := H.next;
        var H1 := StoreAt(Alloc(H, CreatesArray(path[1])), obj.id, path[0], Ref(created));
        CreateClosed(H, CreatesArray(path[1]), obj.id, path[0]);
        CreateFrame(H, CreatesArray(path[1]), obj.id, path[0]);
        EnsureFrame(H1, Ref(created), path[1..]);
        assert H' == Ensure(H1, Ref(created), path[1..]).0;
      }
    }
  }

  /** The heap stays closed and keeps every object. */
  lemma {:induction false} EnsureClosed(H: Heap, obj: Value, path: Path)
    requires Closed(H) && IsContainer(H, obj) && path != []
    ensures Closed(Ensure(H, obj, path).0) && H.nodes.Keys <= Ensure(H, obj, path).0.nodes.Keys
    decreases |path|
  {
    if |path| > 1 {
      var child := Lookup(H.nodes[obj.id], path[0]);
      if IsContainer(H, child) {
        EnsureClosed(H, child, path[1..]);
      } else {
        var created := H.next;
        var H1 := StoreAt(Alloc(H, CreatesArray(path[1])), obj.id, path[0], Ref(created));
        CreateClosed(H, CreatesArray(path[1]), obj.id, path[0]);
        EnsureClosed(H1, Ref(created), path[1..]);
      }
    }
  }

  /** The heap stays well formed, and an object no slot held is still held by none. */
  lemma {:induction false} EnsureValid(H: Heap, obj: Value, path: Path, root: NodeId)
    requires HeapValid(H) && IsContainer(H, obj) && path != []
    requires root in H.nodes && Unreferenced(H, root)
    ensures HeapValid(Ensure(H, obj, path).0) && Unreferenced(Ensure(H, obj, path).0, root)
    decreases |path|
  {
    if |path| > 1 {
      var child := Lookup(H.nodes[obj.id], path[0]);
      if IsContainer(H, child) {
        EnsureValid(H, child, path[1..], root);
      } else {
        var created := H.next;
        var H1 := StoreAt(Alloc(H, CreatesArray(path[1])), obj.id, path[0], Ref(created));
        AllocValid(H, CreatesArray(path[1]));
        StoreAtValid(Alloc(H, CreatesArray(path[1])), obj.id, path[0], Ref(created));
        EnsureValid(H1, Ref(created), path[1..], root);
      }
    }
  }

  /** Afterwards every proper prefix of `path` holds a container. */
  lemma {:induction false} EnsureReaches(H: Heap, obj: Value, path: Path)
    requires HeapValid(H) && IsContainer(H, obj) && path != []
    ensures AllContainers(Ensure(H, obj, path).0, obj, path)
    decreases |path|
  {
    var H' := Ensure(H, obj, path).0;
    EnsureFrame(H, obj, path);
    if |path| > 1 {
      var child := Lookup(H.nodes[obj.id], path[0]);
      if IsContainer(H, child) {
        assert path[0] in H.nodes[obj.id].fields;
        EnsureReaches(H, child, path[1..]);
        EnsureFrame(H, child, path[1..]);
        assert H'.nodes[obj.id] == H.nodes[obj.id];
      } else {
        var created := H.next;
        var H1 := StoreAt(Alloc(H, CreatesArray(path[1])), obj.id, path[0], Ref(created));
        AllocValid(H, CreatesArray(path[1]));
        StoreAtValid(Alloc(H, CreatesArray(path[1])), obj.id, path[0], Ref(created));
        EnsureReaches(H1, Ref(created), path[1..]);
        EnsureFrame(H1, Ref(created), path[1..]);
        assert H'.nodes[obj.id] == H1.nodes[obj.id];
      }
    }
  }

  /**
   * Nothing changes when every level already was a container; otherwise
   * the parent of the first level that was not now holds the first new
   * container, the chain of new containers is added, and no other object
   * changes.
   */
  ghost predicate Shaped(H: Heap, obj: Value, path: Path)
    requires IsContainer(H, obj) && path != []
  {
    var H', m := Ensure(H, obj, path).0, Kept(H, obj, path);
    && (m == |path| ==> H' == H)
    && (m < |path| ==>
          var p := Parent(H, obj, path);
          H'.nodes == H.nodes[p := Store(H.nodes[p], path[m - 1], Ref(H.next))] + Chain(path, m, H.next))
  }

  /** `ensurePath` changes the tree as `Shaped` says. */
  lemma {:induction false} EnsureShape(H: Heap, obj: Value, path: Path)
    requires Closed(H) && IsContainer(H, obj) && path != []
    ensures Shaped(H, obj, path)
    decreases |path|, 1
  {
    if |path| > 1 {
      if IsContainer(H, Lookup(H.nodes[obj.id], path[0])) {
        ShapeKept(H, obj, path);
      } else {
        ShapeCreated(H, obj, path);
      }
    }
  }

  /** The first level already holds a container: the shape is that of the walk below it. */
  lemma {:induction false} ShapeKept(H: Heap, obj: Value, path: Path)
    requires Closed(H) && IsContainer(H, obj) && |path| > 1
    requires IsContainer(H, Lookup(H.nodes[obj.id], path[0]))
    ensures Shaped(H, obj, path)
    decreases |path|, 0
  {
    var child := Lookup(H.nodes[obj.id], path[0]);
    var sub := path[1..];
    var H' := Ensure(H, obj, path).0;
    var m, m' := Kept(H, obj, path), Kept(H, child, sub);
    var p := Parent(H, child, sub);
    assert m == 1 + m';
    assert m < |path| ==> sub[m' - 1] == path[m - 1];
    assert H' == Ensure(H, child, sub).0;
    assert Parent(H, obj, path) == p;
    EnsureShape(H, child, sub);
    if m < |path| {
      assert H'.nodes == H.nodes[p := Store(H.nodes[p], sub[m' - 1], Ref(H.next))] + Chain(sub, m', H.next);
      ChainShift(path, m, H.next);
    } else {
      assert m' == |sub|;
    }
  }

  /** The first level holds no container: a new one is stored there and the chain goes on below it. */
  lemma {:induction false} ShapeCreated(H: Heap, obj: Value, path: Path)
    requires Closed(H) && IsContainer(H, obj) && |path| > 1
    requires !IsContainer(H, Lookup(H.nodes[obj.id], path[0]))
    ensures Shaped(H, obj, path)
    decreases |path|, 0
  {
    var created := H.next;
    var H1 := StoreAt(Alloc(H, CreatesArray(path[1])), obj.id, path[0], Ref(created));
    assert Ensure(H, obj, path).0 == Ensure(H1, Ref(created), path[1..]).0;
    assert Kept(H, obj, path) == 1 && Parent(H, obj, path) == obj.id;
    CreateClosed(H, CreatesArray(path[1]), obj.id, path[0]);
    EnsureShape(H1, Ref(created), path[1..]);
    assert H1.nodes[created].fields == map[];
    assert Kept(H1, Ref(created), path[1..]) == 1 && Parent(H1, Ref(created), path[1..]) == created;
    if |path| > 2 {
      assert path[1..][0] == path[1];
    }
    CreatedNodes(H, H1, Ensure(H, obj, path).0, obj, path, |path| - 2);
  }

  /** `ensurePath(obj, path)` on the container `obj` of the tree `t`. */
  method EnsurePath(t: Tree, obj: Value, path: Path) returns (newPaths: seq<NewPath>)
    requires t.Valid() && IsContainer(t.heap, obj) && path != []
    modifies t
    ensures (t.heap, newPaths) == Ensure(old(t.heap), obj, path)
    ensures t.Valid()
    decreases |path|
  {
    if |path| == 1 {
      return [];
    }
    var key := path[0];
    var child := Lookup(t.heap.nodes[obj.id], key);
    if IsContainer(t.heap, child) {
      var sub := EnsurePath(t, child, path[1..]);
      newPaths := Prepend(key, sub);
    } else {
      var created := t.heap.next;
      var isArray := CreatesArray(path[1]);
      AllocValid(t.heap, isArray);
      t.heap := Alloc(t.heap, isArray);
      StoreAtValid(t.heap, obj.id, key, Ref(created));
      t.heap := StoreAt(t.heap, obj.id, key, Ref(created));
      var sub := EnsurePath(t, Ref(created), path[1..]);
      newPaths := [NewPath([key], child, Ref(created))] + Prepend(key, sub);
    }
  }
}
