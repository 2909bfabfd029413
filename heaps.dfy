/**
 * The in-memory tree: a graph of container objects addressed by identity.
 *
 * JavaScript objects live on a heap and are compared by identity (lodash `eq`
 * is `===` for objects). `Heap` is that store: `nodes` maps an object's
 * identity to its contents, and `next` is the first identity not yet handed
 * out. A `Value` in a slot is `undefined`, a primitive, or a reference.
 */
module Heaps {
  import opened Values

  type NodeId = nat

  datatype Value = Absent | Prim(p: Primitive) | Ref(id: NodeId)

  /**
   * A container object. For an array, `length` is its length and an index
   * below it with nothing in `fields` is a hole; a map has `length` 0.
   * Arrays may also carry named (non-index) properties in `fields`.
   */
  datatype Node = Node(isArray: bool, fields: map<Key, Value>, length: nat)

  datatype Heap = Heap(nodes: map<NodeId, Node>, next: NodeId)

  function EmptyNode(isArray: bool): Node
  {
    Node(isArray, map[], 0)
  }

  /** `n[k]`: `undefined` when the property is missing or a hole. */
  function Lookup(n: Node, k: Key): Value
  {
    if k in n.fields then n.fields[k] else Absent
  }

  /** `n[k] = v`; assigning an index at or past an array's end extends it. */
  function Assign(n: Node, k: Key, v: Value): (r: Node)
    ensures r.isArray == n.isArray
    ensures Lookup(r, k) == v
    ensures forall k' :: k' != k ==> Lookup(r, k') == Lookup(n, k')
  {
    if n.isArray && k.Index? then
      Node(true, n.fields[k := v], if k.i + 1 > n.length then k.i + 1 else n.length)
    else
      n.(fields := n.fields[k := v])
  }

  /** `n.pop()` on an array; popping an empty array changes nothing. */
  function Pop(n: Node): Node
    requires n.isArray
  {
    if n.length == 0 then n else Node(true, n.fields - {Index(n.length - 1)}, n.length - 1)
  }

  predicate LastIsAbsent(n: Node)
  {
    n.length == 0 || Lookup(n, Index(n.length - 1)) == Absent
  }

  /**
   * The final step of a deep write (src/utils/objectModifier.js:382-392):
   * assign `v` to `k`; when `v` is `undefined`, pop the array if its last
   * element is `undefined` now, otherwise delete the property.
   */
  function Store(n: Node, k: Key, v: Value): (r: Node)
    ensures r.isArray == n.isArray
    ensures Lookup(r, k) == v
    ensures forall k' :: k' != k ==> Lookup(r, k') == Lookup(n, k')
  {
    var a := Assign(n, k, v);
    if v != Absent then a
    else if a.isArray && LastIsAbsent(a) then Pop(a)
    else a.(fields := a.fields - {k})
  }

  /**
   * Storing `undefined` at an index of an array: the last element is popped,
   * any other becomes a hole and the length stays (when the last slot is
   * filled; JavaScript compares the last element by value, so with an empty
   * last slot that slot is popped instead).
   */
  lemma StoreAbsentInArray(n: Node, i: nat)
    requires n.isArray && i < n.length
    ensures i == n.length - 1 ==> Store(n, Index(i), Absent).length == n.length - 1
    ensures i < n.length - 1 && Lookup(n, Index(n.length - 1)) != Absent ==>
      var r := Store(n, Index(i), Absent);
      r.length == n.length && Index(i) !in r.fields
    ensures i < n.length - 1 && Lookup(n, Index(n.length - 1)) == Absent ==>
      var r := Store(n, Index(i), Absent);
      r.length == n.length - 1 && Lookup(r, Index(i)) == Absent
  {
    var a := Assign(n, Index(i), Absent);
    assert a.length == n.length;
    if i < n.length - 1 {
      assert Lookup(a, Index(n.length - 1)) == Lookup(n, Index(n.length - 1));
    }
  }

  // ---------------------------------------------------------------------------
  // Well-formedness

  ghost predicate NodeWF(n: Node)
  {
    && (n.isArray ==> forall k :: k in n.fields && k.Index? ==> k.i < n.length)
    && (!n.isArray ==> n.length == 0 && forall k :: k in n.fields ==> n.fields[k] != Absent)
  }

  /**
   * Every identity in use is below `next`, and a reference in a slot points
   * to an existing object with a larger identity (objects are only ever
   * linked in right after they are created, so the graph is acyclic).
   */
  ghost predicate Closed(h: Heap)
  {
    && (forall id :: id in h.nodes ==> id < h.next && NodeWF(h.nodes[id]))
    && (forall id, k :: id in h.nodes && k in h.nodes[id].fields && h.nodes[id].fields[k].Ref? ==>
          id < h.nodes[id].fields[k].id && h.nodes[id].fields[k].id in h.nodes)
  }

  /** No object is held by two slots. */
  ghost predicate Unshared(h: Heap)
  {
    forall a, ka, b, kb ::
      a in h.nodes && b in h.nodes && ka in h.nodes[a].fields && kb in h.nodes[b].fields &&
      h.nodes[a].fields[ka].Ref? && h.nodes[a].fields[ka] == h.nodes[b].fields[kb]
      ==> a == b && ka == kb
  }

  /** No slot holds the object `id`. */
  ghost predicate Unreferenced(h: Heap, id: NodeId)
  {
    forall a, k :: a in h.nodes && k in h.nodes[a].fields ==> h.nodes[a].fields[k] != Ref(id)
  }

  /** Every identity in use is below `next`. */
  ghost predicate Bounded(h: Heap)
  {
    forall id :: id in h.nodes ==> id < h.next
  }

  ghost predicate HeapValid(h: Heap)
  {
    Closed(h) && Unshared(h)
  }

  predicate IsContainer(h: Heap, v: Value)
  {
    v.Ref? && v.id in h.nodes
  }

  ghost predicate ValueIn(h: Heap, v: Value)
  {
    v.Ref? ==> v.id in h.nodes
  }

  // ---------------------------------------------------------------------------
  // Reading

  /**
   * The value under `path` starting from `v` (`_get`, src/utils/patch.js:70-78):
   * the empty path gives `v` itself, and a path that runs through something
   * that is not a container gives `undefined`.
   */
  function Get(h: Heap, v: Value, path: Path): Value
    decreases |path|
  {
    if path == [] then v
    else if IsContainer(h, v) then Get(h, Lookup(h.nodes[v.id], path[0]), path[1..])
    else Absent
  }

  lemma {:induction false} GetAppend(h: Heap, v: Value, p: Path, k: Key)
    ensures Get(h, v, p + [k]) ==
      (if IsContainer(h, Get(h, v, p)) then Lookup(h.nodes[Get(h, v, p).id], k) else Absent)
    decreases |p|
  {
    if p != [] {
      assert (p + [k])[1..] == p[1..] + [k];
      if IsContainer(h, v) { GetAppend(h, Lookup(h.nodes[v.id], p[0]), p[1..], k); }
    }
  }

  lemma {:induction false} GetConcat(h: Heap, v: Value, p: Path, q: Path)
    ensures Get(h, v, p + q) == Get(h, Get(h, v, p), q)
    decreases |p|
  {
    if p != [] {
      assert (p + q)[0] == p[0] && (p + q)[1..] == p[1..] + q;
      if IsContainer(h, v) {
        var c := Lookup(h.nodes[v.id], p[0]);
        assert Get(h, v, p + q) == Get(h, c, p[1..] + q);
        assert Get(h, v, p) == Get(h, c, p[1..]);
        GetConcat(h, c, p[1..], q);
      } else {
        assert Get(h, v, p + q) == Absent && Get(h, v, p) == Absent;
        GetOfNonContainer(h, Absent, q);
      }
    } else {
      assert p + q == q;
    }
  }

  lemma {:induction false} GetOfNonContainer(h: Heap, v: Value, q: Path)
    requires !IsContainer(h, v) && (v.Ref? || v == Absent)
    ensures Get(h, v, q) == (if q == [] then v else Absent)
  {
  }

  /** The value at a keypath is the last key's slot in the object holding it. */
  lemma GetLast(h: Heap, v: Value, path: Path)
    requires path != [] && IsContainer(h, Get(h, v, path[..|path| - 1]))
    ensures Get(h, v, path) == Lookup(h.nodes[Get(h, v, path[..|path| - 1]).id], path[|path| - 1])
  {
    var n := |path|;
    GetAppend(h, v, path[..n - 1], path[n - 1]);
    assert path[..n - 1] + [path[n - 1]] == path;
  }

  /** The ids along a walk only grow, so a walk never re-enters an object it left. */
  lemma {:induction false} GetIdsGrow(h: Heap, v: Value, path: Path)
    requires Closed(h)
    requires IsContainer(h, v) && IsContainer(h, Get(h, v, path)) && path != []
    ensures v.id < Get(h, v, path).id
    decreases |path|
  {
    var c := Lookup(h.nodes[v.id], path[0]);
    assert Get(h, v, path) == Get(h, c, path[1..]);
    if path[1..] != [] {
      GetIdsGrow(h, c, path[1..]);
    } else {
      assert path[0] in h.nodes[v.id].fields;
    }
  }

  /** Walking a prefix of `path` from a container is walking the rest of it from the first child. */
  lemma GetStep(h: Heap, v: Value, path: Path, j: nat)
    requires IsContainer(h, v) && 1 <= j <= |path|
    ensures Get(h, v, path[..j]) == Get(h, Lookup(h.nodes[v.id], path[0]), path[1..][..j - 1])
  {
    assert path[..j][0] == path[0] && path[..j][1..] == path[1..][..j - 1];
  }

  /**
   * What a walk finds depends only on the objects at or above the identity
   * it starts from.
   */
  lemma {:induction false} GetFrame(h: Heap, h': Heap, v: Value, c: NodeId, q: Path)
    requires Closed(h) && ValueIn(h, v) && (v.Ref? ==> c <= v.id)
    requires forall id :: id in h.nodes && c <= id ==> id in h'.nodes && h'.nodes[id] == h.nodes[id]
    ensures Get(h', v, q) == Get(h, v, q)
    decreases |q|
  {
    if q != [] && IsContainer(h, v) {
      var child := Lookup(h.nodes[v.id], q[0]);
      if child.Ref? {
        assert q[0] in h.nodes[v.id].fields;
      }
      GetFrame(h, h', child, c, q[1..]);
    }
  }

  function Rank(h: Heap, v: Value): nat
  {
    if v.Ref? && v.id < h.next then h.next - v.id else 0
  }

  /** The snapshot of a value: what `cloneDeep` or a deep comparison sees. */
  function Resolve(h: Heap, v: Value): Json
    requires Closed(h)
    decreases Rank(h, v), 1
  {
    match v
    case Absent => Undef
    case Prim(p) => JPrim(p)
    case Ref(id) => if id in h.nodes then ResolveNode(h, id) else Undef
  }

  function ResolveNode(h: Heap, id: NodeId): Json
    requires Closed(h) && id in h.nodes
    decreases h.next - id, 0
  {
    var n := h.nodes[id];
    if n.isArray then
      JArr(seq(n.length, i requires 0 <= i < n.length => Resolve(h, Lookup(n, Index(i)))))
    else
      JObj(map k | k in n.fields :: Resolve(h, n.fields[k]))
  }

  /** The snapshot of an empty object or array. */
  lemma ResolveEmpty(h: Heap, id: NodeId, isArray: bool)
    requires Closed(h) && id in h.nodes && h.nodes[id] == EmptyNode(isArray)
    ensures ResolveNode(h, id) == if isArray then JArr([]) else JObj(map[])
  {
  }

  /**
   * A snapshot depends only on the objects reachable from the value, all of
   * which have identities at or above its own.
   */
  lemma {:induction false} ResolveFrame(h: Heap, h': Heap, v: Value, c: NodeId)
    requires Closed(h) && Closed(h')
    requires v.Ref? ==> c <= v.id
    requires forall id :: id in h.nodes && c <= id ==> id in h'.nodes && h'.nodes[id] == h.nodes[id]
    requires ValueIn(h, v)
    ensures Resolve(h', v) == Resolve(h, v)
    decreases Rank(h, v)
  {
    if v.Ref? {
      var n := h.nodes[v.id];
      forall k | k in n.fields
        ensures Resolve(h', n.fields[k]) == Resolve(h, n.fields[k])
      {
        ResolveFrame(h, h', n.fields[k], c);
      }
      if n.isArray {
        var a := ResolveNode(h, v.id);
        var a' := ResolveNode(h', v.id);
        assert |a.items| == |a'.items|;
        forall i | 0 <= i < n.length ensures a.items[i] == a'.items[i] {
          assert a.items[i] == Resolve(h, Lookup(n, Index(i)));
          assert a'.items[i] == Resolve(h', Lookup(n, Index(i)));
          if Index(i) !in n.fields {
            assert Lookup(n, Index(i)) == Absent;
          }
        }
      }
    }
  }

  // ---------------------------------------------------------------------------
  // Allocation

  /** The heap after creating one empty container. */
  function Alloc(h: Heap, isArray: bool): (r: Heap)
    ensures r.next == h.next + 1 && r.nodes == h.nodes[h.next := EmptyNode(isArray)]
  {
    Heap(h.nodes[h.next := EmptyNode(isArray)], h.next + 1)
  }

  lemma AllocValid(h: Heap, isArray: bool)
    requires HeapValid(h)
    ensures HeapValid(Alloc(h, isArray))
    ensures forall id :: id in h.nodes ==> Unreferenced(h, id) == Unreferenced(Alloc(h, isArray), id)
    ensures Unreferenced(Alloc(h, isArray), h.next)
  {
    var r := Alloc(h, isArray);
    assert h.next !in h.nodes;
    assert forall a, k :: a in r.nodes && k in r.nodes[a].fields ==> a in h.nodes && r.nodes[a] == h.nodes[a];
    forall id | id in h.nodes ensures Unreferenced(h, id) == Unreferenced(r, id) {
      if Unreferenced(h, id) {
        forall a, k | a in r.nodes && k in r.nodes[a].fields ensures r.nodes[a].fields[k] != Ref(id) {
          assert a in h.nodes;
        }
      }
      if Unreferenced(r, id) {
        forall a, k | a in h.nodes && k in h.nodes[a].fields ensures h.nodes[a].fields[k] != Ref(id) {
          assert a in r.nodes && r.nodes[a] == h.nodes[a];
        }
      }
    }
  }

  /** The heap after the deep write's final step on the object `id`. */
  function StoreAt(h: Heap, id: NodeId, k: Key, v: Value): (r: Heap)
    requires id in h.nodes
    ensures r.next == h.next && r.nodes == h.nodes[id := Store(h.nodes[id], k, v)]
  {
    h.(nodes := h.nodes[id := Store(h.nodes[id], k, v)])
  }

  /** A value that may be placed into a slot of object `id` without breaking the heap's shape. */
  ghost predicate Placeable(h: Heap, id: NodeId, v: Value)
  {
    v.Ref? ==> v.id in h.nodes && id < v.id && Unreferenced(h, v.id)
  }

  /** A store only keeps old slots or fills slot `k` with `v`, and keeps a node well formed. */
  lemma StoreSlots(n: Node, k: Key, v: Value)
    ensures var r := Store(n, k, v);
      forall k' :: k' in r.fields ==> (k' == k && r.fields[k'] == v) || (k' in n.fields && r.fields[k'] == n.fields[k'])
    ensures NodeWF(n) ==> NodeWF(Store(n, k, v))
  {
  }

  lemma StoreAtClosed(h: Heap, id: NodeId, k: Key, v: Value)
    requires Closed(h) && id in h.nodes && (v.Ref? ==> v.id in h.nodes && id < v.id)
    ensures Closed(StoreAt(h, id, k, v))
  {
    StoreSlots(h.nodes[id], k, v);
  }

  /** Creating an empty container and linking it under `id` keeps the heap closed. */
  lemma CreateClosed(h: Heap, isArray: bool, id: NodeId, k: Key)
    requires Closed(h) && id in h.nodes
    ensures Closed(StoreAt(Alloc(h, isArray), id, k, Ref(h.next)))
  {
    var a := Alloc(h, isArray);
    assert Closed(a) by {
      assert forall x, k' :: x in a.nodes && k' in a.nodes[x].fields ==> x in h.nodes && a.nodes[x] == h.nodes[x];
    }
    StoreAtClosed(a, id, k, Ref(h.next));
  }

  /** Creating a container changes no existing object other than the one that links it. */
  lemma CreateFrame(h: Heap, isArray: bool, id: NodeId, k: Key)
    requires Closed(h) && id in h.nodes
    ensures var h1 := StoreAt(Alloc(h, isArray), id, k, Ref(h.next));
      forall x :: x in h.nodes ==> x in h1.nodes && x < h.next && (x != id ==> h1.nodes[x] == h.nodes[x])
  {
  }

  lemma StoreAtUnreferenced(h: Heap, id: NodeId, k: Key, v: Value, x: NodeId)
    requires id in h.nodes && Unreferenced(h, x) && v != Ref(x)
    ensures Unreferenced(StoreAt(h, id, k, v), x)
  {
    StoreSlots(h.nodes[id], k, v);
    var r := StoreAt(h, id, k, v);
    forall a, ka | a in r.nodes && ka in r.nodes[a].fields ensures r.nodes[a].fields[ka] != Ref(x) {
      if a != id { assert r.nodes[a] == h.nodes[a]; }
    }
  }

  lemma StoreAtUnshared(h: Heap, id: NodeId, k: Key, v: Value)
    requires HeapValid(h) && id in h.nodes && Placeable(h, id, v)
    ensures Unshared(StoreAt(h, id, k, v))
  {
    var r := StoreAt(h, id, k, v);
    StoreSlots(h.nodes[id], k, v);
    assert forall b, kb :: b in r.nodes && kb in r.nodes[b].fields && !(b == id && kb == k) ==>
      kb in h.nodes[b].fields && r.nodes[b].fields[kb] == h.nodes[b].fields[kb];
    forall a, ka, b, kb |
      a in r.nodes && b in r.nodes && ka in r.nodes[a].fields && kb in r.nodes[b].fields &&
      r.nodes[a].fields[ka].Ref? && r.nodes[a].fields[ka] == r.nodes[b].fields[kb]
      ensures a == b && ka == kb
    {
      var x := r.nodes[a].fields[ka];
      if !(a == id && ka == k) && !(b == id && kb == k) {
        assert h.nodes[a].fields[ka] == x == h.nodes[b].fields[kb];
      }
    }
  }

  lemma StoreAtValid(h: Heap, id: NodeId, k: Key, v: Value)
    requires HeapValid(h) && id in h.nodes && Placeable(h, id, v)
    ensures HeapValid(StoreAt(h, id, k, v))
    ensures forall x :: Unreferenced(h, x) && v != Ref(x) ==> Unreferenced(StoreAt(h, id, k, v), x)
  {
    StoreAtClosed(h, id, k, v);
    StoreAtUnshared(h, id, k, v);
    forall x | Unreferenced(h, x) && v != Ref(x) ensures Unreferenced(StoreAt(h, id, k, v), x) {
      StoreAtUnreferenced(h, id, k, v, x);
    }
  }

  // ---------------------------------------------------------------------------
  // Deep copy

  /**
   * What lodash `cloneDeep` keeps of an object: an array is copied index by
   * index up to its length, so its named properties are dropped; a map keeps
   * all its own properties.
   */
  function CloneNode(n: Node): (r: Node)
    ensures r.isArray == n.isArray && r.length == n.length
    ensures forall i: nat :: Lookup(r, Index(i)) == Lookup(n, Index(i))
    ensures !n.isArray ==> r == n
    ensures n.isArray ==> forall k :: k in r.fields ==> k.Index? && k in n.fields
    ensures forall k :: k in r.fields ==> k in n.fields && r.fields[k] == n.fields[k]
  {
    if n.isArray then n.(fields := map k | k in n.fields && k.Index? :: n.fields[k]) else n
  }

  /** The heap of a deep copy: the same identities, each object copied as `CloneNode` says. */
  function CloneHeap(h: Heap): (r: Heap)
    ensures r.next == h.next && r.nodes.Keys == h.nodes.Keys
    ensures forall id :: id in h.nodes ==> r.nodes[id] == CloneNode(h.nodes[id])
    ensures Closed(h) ==> Closed(r)
  {
    var r := Heap(map id | id in h.nodes :: CloneNode(h.nodes[id]), h.next);
    assert Closed(h) ==> Closed(r) by {
      if Closed(h) {
        forall id | id in r.nodes ensures NodeWF(r.nodes[id]) {
          assert NodeWF(h.nodes[id]);
        }
      }
    }
    r
  }

  /** A copy keeps the heap well formed and every unreferenced object unreferenced. */
  lemma CloneValid(h: Heap)
    requires HeapValid(h)
    ensures HeapValid(CloneHeap(h))
    ensures forall x :: Unreferenced(h, x) ==> Unreferenced(CloneHeap(h), x)
  {
    var r := CloneHeap(h);
    assert forall a, k :: a in r.nodes && k in r.nodes[a].fields ==> a in h.nodes && k in h.nodes[a].fields && r.nodes[a].fields[k] == h.nodes[a].fields[k];
  }

  /** A copy has the same snapshot as the original, from every value. */
  lemma {:induction false} CloneResolve(h: Heap, v: Value)
    requires Closed(h)
    ensures Resolve(CloneHeap(h), v) == Resolve(h, v)
    decreases Rank(h, v)
  {
    var r := CloneHeap(h);
    if v.Ref? && v.id in h.nodes {
      var n := h.nodes[v.id];
      var c := r.nodes[v.id];
      forall k | k in n.fields
        ensures Resolve(r, n.fields[k]) == Resolve(h, n.fields[k])
      {
        CloneResolve(h, n.fields[k]);
      }
      if n.isArray {
        var a := ResolveNode(h, v.id);
        var a' := ResolveNode(r, v.id);
        forall i | 0 <= i < n.length ensures a'.items[i] == a.items[i] {
          assert a'.items[i] == Resolve(r, Lookup(c, Index(i)));
          assert a.items[i] == Resolve(h, Lookup(n, Index(i)));
          assert Lookup(c, Index(i)) == Lookup(n, Index(i));
          if Index(i) !in n.fields {
            assert Lookup(n, Index(i)) == Absent;
          }
        }
      }
    }
  }

  /**
   * A JavaScript object graph reachable from one root object (the `obj` an
   * `ObjectModifier` wraps, the `state` of a `State`).
   */
  class Tree {
    var heap: Heap
    const root: NodeId

    ghost predicate Valid()
      reads this
    {
      HeapValid(heap) && root in heap.nodes && Unreferenced(heap, root)
    }

    ghost function Snapshot(): Json
      reads this
      requires Valid()
    {
      Resolve(heap, Ref(root))
    }

    /** `cloneDeep(other)`: a separate object graph with the same contents. */
    constructor Copy(other: Tree)
      requires other.Valid()
      ensures Valid() && heap == CloneHeap(other.heap) && root == other.root
      ensures Snapshot() == other.Snapshot()
    {
      heap := CloneHeap(other.heap);
      root := other.root;
      new;
      CloneValid(other.heap);
      CloneResolve(other.heap, Ref(root));
    }

    /** A fresh graph holding one empty container. */
    constructor Empty(isArray: bool)
      ensures Valid() && heap.nodes == map[root := EmptyNode(isArray)]
      ensures Snapshot() == if isArray then JArr([]) else JObj(map[])
    {
      heap := Heap(map[0 := EmptyNode(isArray)], 1);
      root := 0;
      new;
      assert ResolveNode(heap, 0) == if isArray then JArr([]) else JObj(map[]);
    }
  }
}
