/**
 * What one `set` (src/utils/objectModifier.js:50-80) does to the snapshot of
 * the whole tree when every level above its keypath is an object (not an
 * array): the keypath holds the value afterwards, the key is gone when the
 * value is `undefined`, and nothing else in the tree changes.
 */
module Snapshots {
  import opened Values
  import opened Heaps
  import opened EnsurePaths
  import opened Modifiers
  import opened ModifierFacts
  import opened Landings

  // ---------------------------------------------------------------------------
  // Writes on snapshots

  /**
   * The object `m` with `c` under `k`, or without `k` when `c` is
   * `undefined`: an object keeps no `undefined` property once `set` has
   * stored into it.
   */
  function SetKey(m: map<Key, Json>, k: Key, c: Json): (r: Json)
    ensures r.JObj? && JsonChild(r, k) == c
    ensures forall k' :: k' != k ==> JsonChild(r, k') == JsonChild(JObj(m), k')
  {
    if c == Undef then JObj(m - {k}) else JObj(m[k := c])
  }

  /** The snapshot `t` with `v` written at `p`, through the objects above `p`. */
  function JsonPut(t: Json, p: Path, v: Json): Json
    decreases |p|
  {
    if p == [] then v
    else if !t.JObj? then t
    else SetKey(t.fields, p[0], JsonPut(JsonChild(t, p[0]), p[1..], v))
  }

  /** Every proper prefix of `p` reads an object in `t`. */
  predicate Objs(t: Json, p: Path)
    decreases |p|
  {
    p == [] || (t.JObj? && Objs(JsonChild(t, p[0]), p[1..]))
  }

  /** Reading one key further. */
  lemma {:induction false} GetBelow(t: Json, p: Path, k: Key)
    ensures JsonGet(t, p + [k]) == JsonChild(JsonGet(t, p), k)
    decreases |p|
  {
    if p != [] {
      assert (p + [k])[0] == p[0] && (p + [k])[1..] == p[1..] + [k];
      GetBelow(JsonChild(t, p[0]), p[1..], k);
    }
  }

  /** A write through objects reads back, and the levels above it stay objects. */
  lemma {:induction false} PutGet(t: Json, p: Path, v: Json)
    requires Objs(t, p)
    ensures JsonGet(JsonPut(t, p, v), p) == v
    ensures Objs(JsonPut(t, p, v), p)
    decreases |p|
  {
    if p != [] {
      PutGet(JsonChild(t, p[0]), p[1..], v);
    }
  }

  /** A second write at the same keypath overrides the first. */
  lemma {:induction false} PutTwice(t: Json, p: Path, a: Json, b: Json)
    requires Objs(t, p)
    ensures JsonPut(JsonPut(t, p, a), p, b) == JsonPut(t, p, b)
    decreases |p|
  {
    if p != [] {
      var k := p[0];
      var c := JsonChild(t, k);
      PutTwice(c, p[1..], a, b);
      var ca := JsonPut(c, p[1..], a);
      var cb := JsonPut(c, p[1..], b);
      var t1 := SetKey(t.fields, k, ca);
      assert JsonPut(t1, p, b) == SetKey(t1.fields, k, cb);
      if cb == Undef {
        assert t1.fields - {k} == t.fields - {k};
      } else {
        assert t1.fields[k := cb] == t.fields[k := cb];
      }
    }
  }

  /** Writing the value already there changes nothing. */
  lemma {:induction false} PutSame(t: Json, p: Path)
    requires Objs(t, p) && JsonGet(t, p) != Undef
    ensures JsonPut(t, p, JsonGet(t, p)) == t
    decreases |p|
  {
    if p != [] {
      var k := p[0];
      var c := JsonChild(t, k);
      PutSame(c, p[1..]);
      assert c != Undef;
      assert t.fields[k := c] == t.fields;
    }
  }

  /** A write one key below `p` is a write at `p` of the object there with that key set. */
  lemma {:induction false} PutBelow(t: Json, p: Path, k: Key, w: Json)
    requires Objs(t, p) && JsonGet(t, p).JObj?
    ensures Objs(t, p + [k])
    ensures JsonPut(t, p + [k], w) == JsonPut(t, p, SetKey(JsonGet(t, p).fields, k, w))
    decreases |p|
  {
    if p == [] {
      assert [] + [k] == [k];
    } else {
      assert (p + [k])[0] == p[0] && (p + [k])[1..] == p[1..] + [k];
      PutBelow(JsonChild(t, p[0]), p[1..], k, w);
    }
  }

  // ---------------------------------------------------------------------------
  // Snapshots of the tree

  /** Every proper prefix of `p` from `v` reads an object that is not an array. */
  ghost predicate MapChain(h: Heap, v: Value, p: Path)
  {
    forall j :: 0 <= j < |p| ==> IsContainer(h, Get(h, v, p[..j])) && !h.nodes[Get(h, v, p[..j]).id].isArray
  }

  /** An object's snapshot holds each property's snapshot under its key. */
  lemma ResolveObject(h: Heap, v: Value, k: Key)
    requires Closed(h) && IsContainer(h, v) && !h.nodes[v.id].isArray
    ensures Resolve(h, v).JObj?
    ensures JsonChild(Resolve(h, v), k) == Resolve(h, Lookup(h.nodes[v.id], k))
  {
  }

  /**
   * Where the snapshot reads objects along `p`, so does the tree, and
   * reading `p` commutes with taking snapshots.
   */
  lemma {:induction false} ObjsChain(h: Heap, v: Value, p: Path)
    requires Closed(h) && ValueIn(h, v) && Objs(Resolve(h, v), p)
    ensures MapChain(h, v, p)
    ensures Resolve(h, Get(h, v, p)) == JsonGet(Resolve(h, v), p)
    decreases |p|
  {
    if p != [] {
      assert v.Ref? && v.id in h.nodes;
      assert Resolve(h, v) == ResolveNode(h, v.id);
      assert !h.nodes[v.id].isArray;
      var c := Lookup(h.nodes[v.id], p[0]);
      ResolveObject(h, v, p[0]);
      assert ValueIn(h, c) by {
        if c.Ref? { assert p[0] in h.nodes[v.id].fields; }
      }
      ObjsChain(h, c, p[1..]);
      forall j | 0 <= j < |p|
        ensures IsContainer(h, Get(h, v, p[..j])) && !h.nodes[Get(h, v, p[..j]).id].isArray
      {
        if j == 0 {
          assert p[..0] == [];
        } else {
          GetStep(h, v, p, j);
        }
      }
    }
  }

  /**
   * Reaching the same object by two keypaths from an unreferenced root
   * means the keypaths are equal: no object is held twice and the
   * identities grow along every walk.
   */
  lemma {:induction false} PathUnique(h: Heap, root: NodeId, p1: Path, p2: Path)
    requires HeapValid(h) && root in h.nodes
    requires IsContainer(h, Get(h, Ref(root), p1)) && Get(h, Ref(root), p1) == Get(h, Ref(root), p2)
    ensures p1 == p2
    decreases |p1| + |p2|
  {
    if p1 != [] && p2 != [] {
      var n1, n2 := |p1|, |p2|;
      var y1, y2 := Get(h, Ref(root), p1[..n1 - 1]), Get(h, Ref(root), p2[..n2 - 1]);
      GetAppend(h, Ref(root), p1[..n1 - 1], p1[n1 - 1]);
      GetAppend(h, Ref(root), p2[..n2 - 1], p2[n2 - 1]);
      assert p1[..n1 - 1] + [p1[n1 - 1]] == p1;
      assert p2[..n2 - 1] + [p2[n2 - 1]] == p2;
      assert IsContainer(h, y1) && IsContainer(h, y2);
      assert p1[n1 - 1] in h.nodes[y1.id].fields && p2[n2 - 1] in h.nodes[y2.id].fields;
      assert y1 == y2 && p1[n1 - 1] == p2[n2 - 1];
      PathUnique(h, root, p1[..n1 - 1], p2[..n2 - 1]);
    } else if p1 != [] {
      GetIdsGrow(h, Ref(root), p1);
    } else if p2 != [] {
      GetIdsGrow(h, Ref(root), p2);
    }
  }

  /**
   * A snapshot stays the same while only the object `x` changes, when no
   * walk from the value reaches `x`.
   */
  lemma {:induction false} ResolveAway(h: Heap, h': Heap, v: Value, x: NodeId)
    requires Closed(h) && Closed(h') && ValueIn(h, v)
    requires forall id :: id in h.nodes && id != x ==> id in h'.nodes && h'.nodes[id] == h.nodes[id]
    requires forall p :: Get(h, v, p) != Ref(x)
    ensures Resolve(h', v) == Resolve(h, v)
    decreases Rank(h, v)
  {
    if v.Ref? {
      assert Get(h, v, []) == v;
      var n := h.nodes[v.id];
      forall k | k in n.fields
        ensures Resolve(h', n.fields[k]) == Resolve(h, n.fields[k])
      {
        var c := n.fields[k];
        forall p ensures Get(h, c, p) != Ref(x) {
          assert ([k] + p)[0] == k && ([k] + p)[1..] == p;
          assert Get(h, v, [k] + p) == Get(h, c, p);
        }
        ResolveAway(h, h', c, x);
      }
      assert v.id != x && h'.nodes[v.id] == n;
      if n.isArray {
        var a := ResolveNode(h, v.id);
        var a' := ResolveNode(h', v.id);
        forall i | 0 <= i < n.length ensures a'.items[i] == a.items[i] {
          assert a.items[i] == Resolve(h, Lookup(n, Index(i)));
          assert a'.items[i] == Resolve(h', Lookup(n, Index(i)));
          if Index(i) !in n.fields {
            assert Lookup(n, Index(i)) == Absent;
          }
        }
      }
    }
  }

  /** A store of `val` into an object (after storing `undefined` there) sets the key, or removes it for `undefined`. */
  lemma StoreObject(n: Node, k: Key, val: Value)
    requires !n.isArray
    ensures Store(Store(n, k, Absent), k, val).fields == if val == Absent then n.fields - {k} else n.fields[k := val]
    ensures !Store(Store(n, k, Absent), k, val).isArray
  {
  }

  /** An object whose key `key` now reads `w` and whose other properties read as before has its snapshot updated by `SetKey`. */
  lemma NodeUpdate(h: Heap, r: Heap, y: NodeId, key: Key, w: Json)
    requires Closed(h) && Closed(r) && y in h.nodes && y in r.nodes
    requires !h.nodes[y].isArray && !r.nodes[y].isArray
    requires r.nodes[y].fields.Keys == if w == Undef then h.nodes[y].fields.Keys - {key} else h.nodes[y].fields.Keys + {key}
    requires w != Undef ==> Resolve(r, r.nodes[y].fields[key]) == w
    requires forall k' :: k' in r.nodes[y].fields && k' != key ==>
      k' in h.nodes[y].fields && Resolve(r, r.nodes[y].fields[k']) == Resolve(h, h.nodes[y].fields[k'])
    ensures ResolveNode(r, y) == SetKey(ResolveNode(h, y).fields, key, w)
  {
    var F, F' := h.nodes[y].fields, r.nodes[y].fields;
    var M := map k' | k' in F :: Resolve(h, F[k']);
    var M' := map k' | k' in F' :: Resolve(r, F'[k']);
    assert ResolveNode(h, y) == JObj(M);
    assert ResolveNode(r, y) == JObj(M');
    var E := if w == Undef then M - {key} else M[key := w];
    assert M'.Keys == E.Keys;
    forall k' | k' in M' ensures M'[k'] == E[k'] {
      if k' != key {
        assert M'[k'] == Resolve(r, F'[k']) == Resolve(h, F[k']) == M[k'];
      }
    }
    assert M' == E;
  }

  /** A sibling of the keypath's `j`-th level never leads to the keypath's holder `x`. */
  lemma SiblingAway(h: Heap, root: NodeId, q: Path, x: NodeId, y: NodeId, j: nat, k': Key)
    requires HeapValid(h) && root in h.nodes && j < |q|
    requires Get(h, Ref(root), q[..j]) == Ref(y) && y in h.nodes && k' in h.nodes[y].fields && k' != q[j]
    requires Get(h, Ref(root), q[..|q| - 1]) == Ref(x) && x in h.nodes
    ensures forall p :: Get(h, h.nodes[y].fields[k'], p) != Ref(x)
  {
    var c := h.nodes[y].fields[k'];
    forall p ensures Get(h, c, p) != Ref(x) {
      GetAppend(h, Ref(root), q[..j], k');
      GetConcat(h, Ref(root), q[..j] + [k'], p);
      if Get(h, c, p) == Ref(x) {
        PathUnique(h, root, q[..j] + [k'] + p, q[..|q| - 1]);
        assert false;
      }
    }
  }

  /** The siblings of the keypath's `j`-th level keep their snapshots while only the holder `x` changes. */
  lemma SiblingsKept(h: Heap, r: Heap, root: NodeId, q: Path, x: NodeId, y: NodeId, j: nat)
    requires HeapValid(h) && root in h.nodes && Closed(r) && j < |q|
    requires Get(h, Ref(root), q[..j]) == Ref(y) && y in h.nodes
    requires Get(h, Ref(root), q[..|q| - 1]) == Ref(x) && x in h.nodes
    requires forall id :: id in h.nodes && id != x ==> id in r.nodes && r.nodes[id] == h.nodes[id]
    ensures forall k' :: k' in h.nodes[y].fields && k' != q[j] ==>
      Resolve(r, h.nodes[y].fields[k']) == Resolve(h, h.nodes[y].fields[k'])
  {
    forall k' | k' in h.nodes[y].fields && k' != q[j]
      ensures Resolve(r, h.nodes[y].fields[k']) == Resolve(h, h.nodes[y].fields[k'])
    {
      SiblingAway(h, root, q, x, y, j, k');
      assert ValueIn(h, h.nodes[y].fields[k']);
      ResolveAway(h, r, h.nodes[y].fields[k'], x);
    }
  }

  /** The holder's snapshot after storing `val` (whose snapshot is `v`) under `key`. */
  lemma HolderLevel(h: Heap, r: Heap, x: NodeId, key: Key, val: Value, v: Json)
    requires Closed(h) && Closed(r) && x in h.nodes && x in r.nodes && !h.nodes[x].isArray
    requires r.nodes[x] == Store(Store(h.nodes[x], key, Absent), key, val)
    requires Resolve(r, val) == v
    requires forall k' :: k' in h.nodes[x].fields && k' != key ==>
      Resolve(r, h.nodes[x].fields[k']) == Resolve(h, h.nodes[x].fields[k'])
    ensures Resolve(r, Ref(x)) == JsonPut(Resolve(h, Ref(x)), [key], v)
  {
    StoreObject(h.nodes[x], key, val);
    if val != Absent {
      assert key in r.nodes[x].fields && r.nodes[x].fields[key] == val;
      assert val.Ref? ==> val.id in r.nodes;
    }
    assert v == Undef <==> val == Absent;
    NodeUpdate(h, r, x, key, v);
    assert [key][1..] == [];
    ResolveObject(h, Ref(x), key);
  }

  /** An unchanged object above the holder: its snapshot takes the new snapshot `w` of the property on the keypath. */
  lemma InnerLevel(h: Heap, r: Heap, y: NodeId, key: Key, w: Json)
    requires Closed(h) && Closed(r) && y in h.nodes && y in r.nodes && !h.nodes[y].isArray && r.nodes[y] == h.nodes[y]
    requires key in h.nodes[y].fields && Resolve(r, h.nodes[y].fields[key]) == w && w != Undef
    requires forall k' :: k' in h.nodes[y].fields && k' != key ==>
      Resolve(r, h.nodes[y].fields[k']) == Resolve(h, h.nodes[y].fields[k'])
    ensures Resolve(h, Ref(y)).JObj?
    ensures Resolve(r, Ref(y)) == SetKey(Resolve(h, Ref(y)).fields, key, w)
  {
    NodeUpdate(h, r, y, key, w);
  }

  /**
   * Snapshots along a keypath of objects when only its holder `x` changed,
   * by storing `val` (whose snapshot is `v`) under the last key: each level
   * `j` reads the old snapshot with `v` written below it.
   */
  lemma {:induction false} ChainResolve(h: Heap, r: Heap, root: NodeId, q: Path, x: NodeId, val: Value, v: Json, j: nat)
    requires HeapValid(h) && root in h.nodes && Closed(r) && j < |q|
    requires MapChain(h, Ref(root), q) && Get(h, Ref(root), q[..|q| - 1]) == Ref(x) && x in h.nodes
    requires forall id :: id in h.nodes && id != x ==> id in r.nodes && r.nodes[id] == h.nodes[id]
    requires x in r.nodes && r.nodes[x] == Store(Store(h.nodes[x], q[|q| - 1], Absent), q[|q| - 1], val)
    requires Resolve(r, val) == v
    ensures Resolve(r, Get(h, Ref(root), q[..j])) == JsonPut(Resolve(h, Get(h, Ref(root), q[..j])), q[j..], v)
    decreases |q| - j
  {
    var n := |q|;
    var y := Get(h, Ref(root), q[..j]);
    assert IsContainer(h, y) && !h.nodes[y.id].isArray;
    var key := q[j];
    SiblingsKept(h, r, root, q, x, y.id, j);
    if j == n - 1 {
      assert y == Ref(x) && q[j..] == [key];
      HolderLevel(h, r, x, key, val, v);
    } else {
      ChainResolve(h, r, root, q, x, val, v, j + 1);
      ChainStep(h, r, root, q, x, v, j);
    }
  }

  /** Above the holder `x`, level `j` of a keypath of objects is an object other than `x` holding level `j + 1`. */
  lemma ChainLinks(h: Heap, root: NodeId, q: Path, x: NodeId, j: nat)
    requires Closed(h) && root in h.nodes && j < |q| - 1
    requires MapChain(h, Ref(root), q) && Get(h, Ref(root), q[..|q| - 1]) == Ref(x) && x in h.nodes
    ensures IsContainer(h, Get(h, Ref(root), q[..j])) && !h.nodes[Get(h, Ref(root), q[..j]).id].isArray
    ensures IsContainer(h, Get(h, Ref(root), q[..j + 1])) && !h.nodes[Get(h, Ref(root), q[..j + 1]).id].isArray
    ensures Get(h, Ref(root), q[..j]).id != x
    ensures q[j] in h.nodes[Get(h, Ref(root), q[..j]).id].fields
    ensures h.nodes[Get(h, Ref(root), q[..j]).id].fields[q[j]] == Get(h, Ref(root), q[..j + 1])
  {
    var n := |q|;
    var y := Get(h, Ref(root), q[..j]);
    assert IsContainer(h, y) && !h.nodes[y.id].isArray;
    GetAppend(h, Ref(root), q[..j], q[j]);
    assert q[..j] + [q[j]] == q[..j + 1];
    assert IsContainer(h, Get(h, Ref(root), q[..j + 1]));
    PrefixContainer(h, Ref(root), q[..n - 1], j);
    assert q[..n - 1][..j] == q[..j];
  }

  /** One level of `ChainResolve` above the holder, from the level below it. */
  lemma ChainStep(h: Heap, r: Heap, root: NodeId, q: Path, x: NodeId, v: Json, j: nat)
    requires HeapValid(h) && root in h.nodes && Closed(r) && j < |q| - 1
    requires MapChain(h, Ref(root), q) && Get(h, Ref(root), q[..|q| - 1]) == Ref(x) && x in h.nodes
    requires forall id :: id in h.nodes && id != x ==> id in r.nodes && r.nodes[id] == h.nodes[id]
    requires Resolve(r, Get(h, Ref(root), q[..j + 1])) == JsonPut(Resolve(h, Get(h, Ref(root), q[..j + 1])), q[j + 1..], v)
    ensures Resolve(r, Get(h, Ref(root), q[..j])) == JsonPut(Resolve(h, Get(h, Ref(root), q[..j])), q[j..], v)
  {
    ChainLinks(h, root, q, x, j);
    var y := Get(h, Ref(root), q[..j]);
    var c0 := Get(h, Ref(root), q[..j + 1]);
    var key := q[j];
    SiblingsKept(h, r, root, q, x, y.id, j);
    ResolveObject(h, c0, key);
    var w := JsonPut(Resolve(h, c0), q[j + 1..], v);
    assert w.JObj?;
    InnerLevel(h, r, y.id, key, w);
    ResolveObject(h, y, key);
    assert q[j..][0] == key && q[j..][1..] == q[j + 1..];
  }

  // ---------------------------------------------------------------------------
  // One `set`

  /** With a container at every level above the keypath, `ensurePath` changes nothing and keeps every level. */
  lemma {:induction false} EnsureKeeps(H: Heap, obj: Value, path: Path)
    requires IsContainer(H, obj) && path != [] && AllContainers(H, obj, path)
    ensures Ensure(H, obj, path).0 == H
    ensures Kept(H, obj, path) == |path|
    decreases |path|
  {
    if |path| > 1 {
      EnsureKeeps(H, Lookup(H.nodes[obj.id], path[0]), path[1..]);
    }
  }

  /** With a container at every level above `q`, `ensurePath` keeps every level and the holder `x` is the parent it writes into. */
  lemma KeptAll(H: Heap, root: NodeId, q: Path, x: NodeId)
    requires root in H.nodes && q != []
    requires forall j :: 0 <= j < |q| ==> IsContainer(H, Get(H, Ref(root), q[..j]))
    requires Get(H, Ref(root), q[..|q| - 1]) == Ref(x)
    ensures AllContainers(H, Ref(root), q)
    ensures Kept(H, Ref(root), q) == |q| && Parent(H, Ref(root), q) == x
  {
    AllContainersMeaning(H, Ref(root), q);
    EnsureKeeps(H, Ref(root), q);
    ParentMeaning(H, Ref(root), q);
  }

  /** A landed write that kept every level changed only the holder `x`, by assigning the new value under the last key. */
  lemma LandedFrame(H: Heap, r: Heap, root: NodeId, q: Path, v: Json, x: NodeId)
    requires root in H.nodes && q != [] && Kept(H, Ref(root), q) == |q| && Parent(H, Ref(root), q) == x
    requires Landed(H, r, root, q, v)
    ensures Wrapped(r, root) && Resolve(r, Get(r, Ref(root), q)) == v
    ensures forall id :: id in H.nodes && id != x ==> id in r.nodes && r.nodes[id] == H.nodes[id]
    ensures x in H.nodes && x in r.nodes && r.nodes[x] == Assign(H.nodes[x], q[|q| - 1], Get(r, Ref(root), q))
  {
    assert q[..|q|] == q;
  }

  /**
   * The removal step of `set` below a container at every level stores
   * `undefined` into the holder `x`, keeps the walks above it and leaves
   * nothing at `q`.
   */
  lemma ClearHolder(s: ModState, root: NodeId, q: Path, x: NodeId)
    requires Wrapped(s.heap, root) && q != []
    requires forall j :: 0 <= j < |q| ==> IsContainer(s.heap, Get(s.heap, Ref(root), q[..j]))
    requires Get(s.heap, Ref(root), q[..|q| - 1]) == Ref(x) && x in s.heap.nodes
    ensures Clear(s, root, q).heap == StoreAt(s.heap, x, q[|q| - 1], Absent)
    ensures Wrapped(Clear(s, root, q).heap, root)
    ensures forall j :: 0 <= j < |q| ==> Get(Clear(s, root, q).heap, Ref(root), q[..j]) == Get(s.heap, Ref(root), q[..j])
    ensures forall j :: 0 <= j < |q| ==> IsContainer(Clear(s, root, q).heap, Get(Clear(s, root, q).heap, Ref(root), q[..j]))
    ensures Get(Clear(s, root, q).heap, Ref(root), q) == Absent
  {
    var c := Clear(s, root, q).heap;
    SetDeepMeaning(s.heap, Ref(root), q, Absent);
    ClearValid(s, root, q);
    StoreAtFrame(s.heap, x, q[|q| - 1], Absent);
    AboveHolder(s.heap, c, root, q, x);
    assert c.nodes.Keys == s.heap.nodes.Keys;
    GetLast(c, Ref(root), q);
  }

  /** Below a container at every level, the leaf write of `undefined` is one more store of `undefined` into the holder. */
  lemma RemoveHeap(c: ModState, root: NodeId, q: Path, x: NodeId)
    requires Wrapped(c.heap, root) && q != []
    requires forall j :: 0 <= j < |q| ==> IsContainer(c.heap, Get(c.heap, Ref(root), q[..j]))
    requires Get(c.heap, Ref(root), q[..|q| - 1]) == Ref(x) && x in c.heap.nodes
    ensures PutLeaf(c, root, q, Undef).heap == StoreAt(c.heap, x, q[|q| - 1], Absent)
  {
    KeptAll(c.heap, root, q, x);
    EnsureKeeps(c.heap, Ref(root), q);
    assert Place(c.heap, Undef) == (c.heap, Absent);
    SetDeepMeaning(c.heap, Ref(root), q, Absent);
  }

  /** The leaf write of `undefined` below a container at every level leaves nothing at `q`. */
  lemma RemoveFrame(c: ModState, root: NodeId, q: Path, x: NodeId, r: Heap)
    requires Wrapped(c.heap, root) && q != []
    requires forall j :: 0 <= j < |q| ==> IsContainer(c.heap, Get(c.heap, Ref(root), q[..j]))
    requires Get(c.heap, Ref(root), q[..|q| - 1]) == Ref(x) && x in c.heap.nodes
    requires r == PutLeaf(c, root, q, Undef).heap
    ensures r == StoreAt(c.heap, x, q[|q| - 1], Absent)
    ensures Wrapped(r, root) && Get(r, Ref(root), q) == Absent
  {
    RemoveHeap(c, root, q, x);
    SetDeepMeaning(c.heap, Ref(root), q, Absent);
    ClearValid(c, root, q);
    StoreAtFrame(c.heap, x, q[|q| - 1], Absent);
    WalkTo(c.heap, r, Ref(root), q[..|q| - 1], x);
    GetLast(r, Ref(root), q);
  }

  /**
   * Below a container at every level, writing a value other than
   * `undefined` at an empty keypath changes only the holder `x`, which gets
   * the new value under the last key.
   */
  lemma WriteFrame(c: ModState, root: NodeId, q: Path, v: Json, x: NodeId, r: Heap)
    requires Wrapped(c.heap, root) && q != [] && Landable(v) && v != Undef
    requires forall j :: 0 <= j < |q| ==> IsContainer(c.heap, Get(c.heap, Ref(root), q[..j]))
    requires Get(c.heap, Ref(root), q[..|q| - 1]) == Ref(x) && x in c.heap.nodes && Get(c.heap, Ref(root), q) == Absent
    requires r == (if IsComposite(v) then SetKeys(c, root, q, v, JsonKeys(v)) else PutLeaf(c, root, q, v)).heap
    ensures Wrapped(r, root) && Resolve(r, Get(r, Ref(root), q)) == v
    ensures forall id :: id in c.heap.nodes && id != x ==> id in r.nodes && r.nodes[id] == c.heap.nodes[id]
    ensures x in r.nodes && r.nodes[x] == Store(c.heap.nodes[x], q[|q| - 1], Get(r, Ref(root), q))
  {
    KeptAll(c.heap, root, q, x);
    if IsComposite(v) {
      LandFirst(c, root, q, v);
    } else {
      PutLeafLanded(c, root, q, v);
    }
    LandedFrame(c.heap, r, root, q, v, x);
    assert Get(r, Ref(root), q) != Absent;
  }

  /**
   * `set(q, v)` below a container at every level: the holder `x` of `q`
   * gets the new value under the last key, after the removal step stored
   * `undefined` there; that value's snapshot is `v`; no other old object
   * changes.
   */
  lemma SetFrame(s: ModState, root: NodeId, q: Path, v: Json, x: NodeId, r: Heap)
    requires Wrapped(s.heap, root) && q != [] && Landable(v)
    requires forall j :: 0 <= j < |q| ==> IsContainer(s.heap, Get(s.heap, Ref(root), q[..j]))
    requires Get(s.heap, Ref(root), q[..|q| - 1]) == Ref(x) && x in s.heap.nodes
    requires r == AfterSet(s, root, q, v).heap
    ensures Wrapped(r, root) && Resolve(r, Get(r, Ref(root), q)) == v
    ensures forall id :: id in s.heap.nodes && id != x ==> id in r.nodes && r.nodes[id] == s.heap.nodes[id]
    ensures x in r.nodes
    ensures r.nodes[x] == Store(Store(s.heap.nodes[x], q[|q| - 1], Absent), q[|q| - 1], Get(r, Ref(root), q))
  {
    AfterSetSteps(s, root, q, v);
    ClearThenWrite(s, root, q, v, x, r);
  }

  /** `set(q, v)` as its two steps: the removal step, then the write of `v`. */
  lemma ClearThenWrite(s: ModState, root: NodeId, q: Path, v: Json, x: NodeId, r: Heap)
    requires Wrapped(s.heap, root) && q != [] && Landable(v)
    requires forall j :: 0 <= j < |q| ==> IsContainer(s.heap, Get(s.heap, Ref(root), q[..j]))
    requires Get(s.heap, Ref(root), q[..|q| - 1]) == Ref(x) && x in s.heap.nodes
    requires r == (if IsComposite(v) then SetKeys(Clear(s, root, q), root, q, v, JsonKeys(v))
                   else PutLeaf(Clear(s, root, q), root, q, v)).heap
    ensures Wrapped(r, root) && Resolve(r, Get(r, Ref(root), q)) == v
    ensures forall id :: id in s.heap.nodes && id != x ==> id in r.nodes && r.nodes[id] == s.heap.nodes[id]
    ensures x in r.nodes
    ensures r.nodes[x] == Store(Store(s.heap.nodes[x], q[|q| - 1], Absent), q[|q| - 1], Get(r, Ref(root), q))
  {
    ClearHolder(s, root, q, x);
    WriteAfterClear(s.heap, Clear(s, root, q), root, q, v, x, r);
  }

  /** The write step of `set`, after the removal step stored `undefined` into the holder `x`. */
  lemma WriteAfterClear(h: Heap, c: ModState, root: NodeId, q: Path, v: Json, x: NodeId, r: Heap)
    requires q != [] && Landable(v) && x in h.nodes && c.heap == StoreAt(h, x, q[|q| - 1], Absent)
    requires Wrapped(c.heap, root)
    requires forall j :: 0 <= j < |q| ==> IsContainer(c.heap, Get(c.heap, Ref(root), q[..j]))
    requires Get(c.heap, Ref(root), q[..|q| - 1]) == Ref(x) && Get(c.heap, Ref(root), q) == Absent
    requires r == (if IsComposite(v) then SetKeys(c, root, q, v, JsonKeys(v)) else PutLeaf(c, root, q, v)).heap
    ensures Wrapped(r, root) && Resolve(r, Get(r, Ref(root), q)) == v
    ensures forall id :: id in h.nodes && id != x ==> id in r.nodes && r.nodes[id] == h.nodes[id]
    ensures x in r.nodes
    ensures r.nodes[x] == Store(Store(h.nodes[x], q[|q| - 1], Absent), q[|q| - 1], Get(r, Ref(root), q))
  {
    if v == Undef {
      ClearedRemove(c, root, q, x, r);
    } else {
      WriteFrame(c, root, q, v, x, r);
    }
    ComposeFrames(h, c.heap, r, x, q[|q| - 1], Get(r, Ref(root), q));
  }

  /** The leaf write of `undefined` after the removal step, as a change of the holder alone. */
  lemma ClearedRemove(c: ModState, root: NodeId, q: Path, x: NodeId, r: Heap)
    requires Wrapped(c.heap, root) && q != []
    requires forall j :: 0 <= j < |q| ==> IsContainer(c.heap, Get(c.heap, Ref(root), q[..j]))
    requires Get(c.heap, Ref(root), q[..|q| - 1]) == Ref(x) && x in c.heap.nodes
    requires r == PutLeaf(c, root, q, Undef).heap
    ensures Wrapped(r, root) && Resolve(r, Get(r, Ref(root), q)) == Undef
    ensures forall id :: id in c.heap.nodes && id != x ==> id in r.nodes && r.nodes[id] == c.heap.nodes[id]
    ensures x in r.nodes && r.nodes[x] == Store(c.heap.nodes[x], q[|q| - 1], Get(r, Ref(root), q))
  {
    RemoveFrame(c, root, q, x, r);
    StoreAtFrame(c.heap, x, q[|q| - 1], Absent);
  }

  /** `set` is the removal step followed by the write of the new value. */
  lemma AfterSetSteps(s: ModState, root: NodeId, q: Path, v: Json)
    requires Rooted(s, root) && q != []
    ensures AfterSet(s, root, q, v) ==
      if IsComposite(v) then SetKeys(Clear(s, root, q), root, q, v, JsonKeys(v)) else PutLeaf(Clear(s, root, q), root, q, v)
  {
  }

  /** A store of `undefined` into `x` followed by a change of `x` alone by a store of `val`. */
  lemma ComposeFrames(h: Heap, c: Heap, r: Heap, x: NodeId, k: Key, val: Value)
    requires x in h.nodes && c == StoreAt(h, x, k, Absent)
    requires forall id :: id in c.nodes && id != x ==> id in r.nodes && r.nodes[id] == c.nodes[id]
    requires x in r.nodes && r.nodes[x] == Store(c.nodes[x], k, val)
    ensures forall id :: id in h.nodes && id != x ==> id in r.nodes && r.nodes[id] == h.nodes[id]
    ensures r.nodes[x] == Store(Store(h.nodes[x], k, Absent), k, val)
  {
  }

  /**
   * `set(q, v)` through objects, on the snapshot of the whole tree: it
   * becomes the old snapshot with `v` written at `q`, and the walks to the
   * levels above `q` still reach the same objects.
   */
  lemma SetSnapshot(s: ModState, root: NodeId, q: Path, v: Json)
    requires Wrapped(s.heap, root) && q != [] && Landable(v)
    requires Objs(Resolve(s.heap, Ref(root)), q)
    ensures Wrapped(AfterSet(s, root, q, v).heap, root)
    ensures Resolve(AfterSet(s, root, q, v).heap, Ref(root)) == JsonPut(Resolve(s.heap, Ref(root)), q, v)
    ensures forall j :: 0 <= j < |q| ==> Get(AfterSet(s, root, q, v).heap, Ref(root), q[..j]) == Get(s.heap, Ref(root), q[..j])
  {
    var h := s.heap;
    var n := |q|;
    ObjsChain(h, Ref(root), q);
    var x := Get(h, Ref(root), q[..n - 1]).id;
    var r := AfterSet(s, root, q, v).heap;
    SetFrame(s, root, q, v, x, r);
    ChainResolve(h, r, root, q, x, Get(r, Ref(root), q), v, 0);
    assert q[..0] == [] && q[0..] == q;
    AboveHolder(h, r, root, q, x);
  }
}
