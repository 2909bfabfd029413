/**
 * `diff(base, base)` (src/utils/diff.js:33-50) with the base's own
 * snapshot as the target yields the empty patch, for a base whose arrays
 * have a defined element at every index. Every primitive is set twice on
 * the copy (src/utils/diff.js:60-65): once removed and written back by
 * the first `set`, which the log records as a removal followed by a
 * write of the same value, and once more by `_diff` itself; `compact`
 * cancels each such pair.
 *
 * On an array with a hole or an `undefined` element the self-diff is not
 * empty: the `set` of `undefined` at the last index pops the array
 * (src/utils/objectModifier.js:384-391) and logs a change from
 * `undefined` to `undefined` that nothing cancels.
 */
module SelfDiffs {
  import opened Values
  import opened Heaps
  import opened ChangeLogs
  import opened EnsurePaths
  import opened Modifiers
  import opened Snapshots
  import opened Diffs
  import opened DiffFacts

  // ---------------------------------------------------------------------------
  // Logs that compact to nothing

  /** A keypath's entries: pairs of a change and the change that undoes it. */
  predicate IsPairs(es: seq<Entry>)
    decreases |es|
  {
    es == [] ||
      (|es| >= 2 && es[|es| - 2].oldVal == es[|es| - 1].newVal && es[|es| - 2].newVal == es[|es| - 1].oldVal &&
       IsPairs(es[..|es| - 2]))
  }

  /** The compaction loop cuts out each change together with the change that undoes it. */
  lemma {:induction false} PairsCompact(es: seq<Entry>)
    requires IsPairs(es)
    ensures CompactList(es) == []
    decreases |es|
  {
    if es != [] {
      var n := |es|;
      assert es[..n - 2] + es[n..] == es[..n - 2];
      PairsCompact(es[..n - 2]);
    }
  }

  lemma {:induction false} PairsConcat(a: seq<Entry>, b: seq<Entry>)
    requires IsPairs(a) && IsPairs(b)
    ensures IsPairs(a + b)
    decreases |b|
  {
    if b == [] {
      assert a + b == a;
    } else {
      var n := |b|;
      assert (a + b)[..|a + b| - 2] == a + b[..n - 2];
      PairsConcat(a, b[..n - 2]);
    }
  }

  /** A log whose changes at every keypath come in undoing pairs. */
  ghost predicate Cancelling(cs: seq<Change>)
  {
    forall p :: IsPairs(Filter(cs, p))
  }

  lemma CancellingConcat(a: seq<Change>, b: seq<Change>)
    requires Cancelling(a) && Cancelling(b)
    ensures Cancelling(a + b)
  {
    forall p ensures IsPairs(Filter(a + b, p)) {
      FilterConcat(a, b, p);
      PairsConcat(Filter(a, p), Filter(b, p));
    }
  }

  /** The log of a primitive removed and written back. */
  lemma CancellingPair(q: Path, v: Value)
    ensures Cancelling([Change(q, v, Absent, false), Change(q, Absent, v, false)])
  {
    var cs := [Change(q, v, Absent, false), Change(q, Absent, v, false)];
    forall p ensures IsPairs(Filter(cs, p)) {
      assert cs[..1] == [cs[0]] && [cs[0]][..0] == [];
      if p == q {
        assert Filter(cs, p) == [Entry(v, Absent, false), Entry(Absent, v, false)];
      }
    }
  }

  /** A cancelling log compacts to the empty log, and compressing that leaves it empty. */
  lemma CancellingCompacts(cs: seq<Change>)
    requires Cancelling(cs)
    ensures CompactLog(cs) == [] && CompressLog(CompactLog(cs)) == []
  {
    var c := CompactLog(cs);
    if c != [] {
      FilterHas(c, 0, c[0].keypath);
      CompactLogAt(cs, c[0].keypath);
      PairsCompact(Filter(cs, c[0].keypath));
      assert false;
    }
    var d := CompressLog([]);
    if d != [] {
      FilterHas(d, 0, d[0].keypath);
      CompressLogAt([], d[0].keypath);
      assert false;
    }
  }

  // ---------------------------------------------------------------------------
  // Bases without holes

  /** Every array holds a defined element at each of its indices. */
  ghost predicate Dense(h: Heap)
  {
    forall id, i :: id in h.nodes && h.nodes[id].isArray && 0 <= i < h.nodes[id].length ==>
      Lookup(h.nodes[id], Index(i)) != Absent
  }

  /** Every array has index keys only. */
  ghost predicate IndexOnly(h: Heap)
  {
    forall id, k :: id in h.nodes && h.nodes[id].isArray && k in h.nodes[id].fields ==> k.Index?
  }

  /** The copy `diff` works on has no holes where the base has none, and no named array properties. */
  lemma ClonePlain(h: Heap)
    requires Dense(h)
    ensures Dense(CloneHeap(h)) && IndexOnly(CloneHeap(h))
  {
  }

  /** `lodash.keys` of an array without named properties lists its indices. */
  lemma KeysAgree(h: Heap, o1: Value)
    requires Closed(h) && IndexOnly(h) && IsContainer(h, o1)
    ensures Keys(h, o1) == JsonKeys(Resolve(h, o1))
  {
    var n := h.nodes[o1.id];
    if n.isArray {
      IndexKeys(n);
    } else {
      var M := map k | k in n.fields :: Resolve(h, n.fields[k]);
      assert Resolve(h, o1) == JObj(M);
      assert M.Keys == n.fields.Keys;
    }
  }

  /** An array with index properties only lists its indices. */
  lemma IndexKeys(n: Node)
    requires n.isArray && forall k :: k in n.fields ==> k.Index?
    ensures NodeKeys(n) == Indices(n.length)
  {
    var names := set k | k in n.fields && k.Name?;
    assert names == {};
    assert |SortedKeys(names)| == 0;
    assert Indices(n.length) + [] == Indices(n.length);
  }

  /** The keys of `a` that `b` has are all of `a` when `b` has all of them. */
  lemma {:induction false} CommonAll(a: seq<Key>, b: seq<Key>)
    requires forall k :: k in a ==> k in b
    ensures Common(a, b) == a
    decreases |a|
  {
    if a != [] {
      CommonAll(a[1..], b);
      assert [a[0]] + a[1..] == a;
    }
  }

  /** None of the keys of `a` is missing from `b` when `b` has all of them. */
  lemma {:induction false} MinusAll(a: seq<Key>, b: seq<Key>)
    requires forall k :: k in a ==> k in b
    ensures Minus(a, b) == []
    decreases |a|
  {
    if a != [] {
      MinusAll(a[1..], b);
    }
  }

  // ---------------------------------------------------------------------------
  // One primitive written over itself

  /**
   * Storing `undefined` under a key of a node and then its old value back
   * restores the node, unless the array the key belongs to ends in a hole.
   */
  lemma RestoreNode(n: Node, k: Key, v: Value)
    requires NodeWF(n) && v != Absent && k in n.fields && n.fields[k] == v
    requires n.isArray ==> k.Index? && Lookup(n, Index(n.length - 1)) != Absent
    ensures Store(Store(n, k, Absent), k, v) == n
  {
    var a := Assign(n, k, Absent);
    if n.isArray {
      assert a == Node(true, n.fields[k := Absent], n.length);
      if k.i == n.length - 1 {
        assert Store(n, k, Absent) == Node(true, n.fields - {k}, n.length - 1);
      } else {
        assert Store(n, k, Absent) == Node(true, n.fields - {k}, n.length);
      }
    } else {
      assert Store(n, k, Absent) == n.(fields := n.fields - {k});
    }
    assert (n.fields - {k})[k := v] == n.fields;
  }

  /** The removal step of `set` at a primitive, below objects at every level. */
  lemma ClearLeaf(s: ModState, root: NodeId, q: Path, p: Primitive, x: NodeId)
    requires Closed(s.heap) && root in s.heap.nodes && q != []
    requires Get(s.heap, Ref(root), q[..|q| - 1]) == Ref(x) && x in s.heap.nodes
    requires Get(s.heap, Ref(root), q) == Prim(p)
    ensures Clear(s, root, q) ==
      ModState(StoreAt(s.heap, x, q[|q| - 1], Absent), s.changes + [Change(q, Prim(p), Absent, false)])
  {
    var H := StoreAt(s.heap, x, q[|q| - 1], Absent);
    assert SetDeep(s.heap, Ref(root), q, Absent) == Some((H, Prim(p))) by {
      SetDeepMeaning(s.heap, Ref(root), q, Absent);
    }
    assert Closed(H) by {
      SetDeepClosed(s.heap, Ref(root), q, Absent);
    }
    RemovedPrim(H, q, p);
  }

  /** Removing a primitive at `q` logs one entry. */
  lemma RemovedPrim(H: Heap, q: Path, p: Primitive)
    requires Closed(H)
    ensures Rebase(q, RemovalChanges(H, Prim(p))) == [Change(q, Prim(p), Absent, false)]
  {
    assert q + [] == q;
  }

  /** After the removal step the walks above the keypath still reach objects, the last one `x`. */
  lemma ClearedShape(s: ModState, root: NodeId, q: Path, x: NodeId)
    requires Wrapped(s.heap, root) && q != []
    requires forall j :: 0 <= j < |q| ==> IsContainer(s.heap, Get(s.heap, Ref(root), q[..j]))
    requires Get(s.heap, Ref(root), q[..|q| - 1]) == Ref(x) && x in s.heap.nodes
    ensures var H := StoreAt(s.heap, x, q[|q| - 1], Absent);
      && Wrapped(H, root) && x in H.nodes && Get(H, Ref(root), q[..|q| - 1]) == Ref(x)
      && forall j :: 0 <= j < |q| ==> IsContainer(H, Get(H, Ref(root), q[..j]))
  {
    ClearHolder(s, root, q, x);
  }

  /** `set` of a primitive is the removal step followed by the leaf write. */
  lemma SetPrimSteps(s: ModState, root: NodeId, q: Path, p: Primitive)
    requires Rooted(s, root) && q != []
    ensures AfterSet(s, root, q, JPrim(p)) == PutLeaf(Clear(s, root, q), root, q, JPrim(p))
  {
  }

  /** The leaf write of a primitive, below objects at every level. */
  lemma WriteLeaf(c: ModState, root: NodeId, q: Path, p: Primitive, x: NodeId)
    requires Wrapped(c.heap, root) && q != []
    requires forall j :: 0 <= j < |q| ==> IsContainer(c.heap, Get(c.heap, Ref(root), q[..j]))
    requires Get(c.heap, Ref(root), q[..|q| - 1]) == Ref(x) && x in c.heap.nodes
    ensures PutLeaf(c, root, q, JPrim(p)) ==
      ModState(StoreAt(c.heap, x, q[|q| - 1], Prim(p)), c.changes + [Change(q, Absent, Prim(p), false)])
  {
    assert Ensure(c.heap, Ref(root), q) == (c.heap, []) by {
      KeptAll(c.heap, root, q, x);
      EnsureKeeps(c.heap, Ref(root), q);
    }
    assert SetDeep(c.heap, Ref(root), q, Prim(p)).Some? &&
      SetDeep(c.heap, Ref(root), q, Prim(p)).value.0 == StoreAt(c.heap, x, q[|q| - 1], Prim(p)) by {
      SetDeepMeaning(c.heap, Ref(root), q, Prim(p));
    }
  }

  /** The holder of a primitive at `q` gets it back after a store of `undefined` there. */
  lemma HolderRestored(h: Heap, root: NodeId, q: Path, p: Primitive, x: NodeId)
    requires Closed(h) && Dense(h) && IndexOnly(h) && q != []
    requires Get(h, Ref(root), q[..|q| - 1]) == Ref(x) && x in h.nodes
    requires Get(h, Ref(root), q) == Prim(p)
    ensures StoreAt(StoreAt(h, x, q[|q| - 1], Absent), x, q[|q| - 1], Prim(p)) == h
  {
    var k := q[|q| - 1];
    HolderSlot(h, root, q, x);
    var N := h.nodes[x];
    if N.isArray {
      assert k.Index? && N.length > 0;
    }
    RestoreNode(N, k, Prim(p));
    StoreTwice(h, x, k, Prim(p));
  }

  /** The last key of `q` is a slot of its holder `x`, holding what the walk to `q` finds. */
  lemma HolderSlot(h: Heap, root: NodeId, q: Path, x: NodeId)
    requires q != [] && Get(h, Ref(root), q[..|q| - 1]) == Ref(x) && x in h.nodes
    ensures Lookup(h.nodes[x], q[|q| - 1]) == Get(h, Ref(root), q)
  {
    var above, k := q[..|q| - 1], q[|q| - 1];
    assert above + [k] == q;
    GetAppend(h, Ref(root), above, k);
  }

  lemma StoreTwice(h: Heap, x: NodeId, k: Key, v: Value)
    requires x in h.nodes && Store(Store(h.nodes[x], k, Absent), k, v) == h.nodes[x]
    ensures StoreAt(StoreAt(h, x, k, Absent), x, k, v) == h
  {
    assert h.nodes[x := h.nodes[x]] == h.nodes;
  }

  lemma AppendTwo(cs: seq<Change>, a: Change, b: Change)
    ensures (cs + [a]) + [b] == cs + [a, b]
  {
  }

  /**
   * `set(q, v)` of the primitive `q` already holds, below objects at every
   * level, logs its removal and its write back and leaves the tree as it was.
   */
  lemma LeafTwice(s: ModState, root: NodeId, q: Path, p: Primitive)
    requires Wrapped(s.heap, root) && Dense(s.heap) && IndexOnly(s.heap) && q != []
    requires forall j :: 0 <= j < |q| ==> IsContainer(s.heap, Get(s.heap, Ref(root), q[..j]))
    requires Get(s.heap, Ref(root), q) == Prim(p)
    ensures AfterSet(s, root, q, JPrim(p)) ==
      ModState(s.heap, s.changes + [Change(q, Prim(p), Absent, false), Change(q, Absent, Prim(p), false)])
  {
    var h := s.heap;
    assert IsContainer(h, Get(h, Ref(root), q[..|q| - 1]));
    var x := Get(h, Ref(root), q[..|q| - 1]).id;
    var k := q[|q| - 1];
    var A, B := Change(q, Prim(p), Absent, false), Change(q, Absent, Prim(p), false);
    ClearLeaf(s, root, q, p, x);
    ClearedShape(s, root, q, x);
    var c := ModState(StoreAt(h, x, k, Absent), s.changes + [A]);
    WriteLeaf(c, root, q, p, x);
    HolderRestored(h, root, q, p, x);
    AppendTwo(s.changes, A, B);
    SetPrimSteps(s, root, q, p);
  }

  // ---------------------------------------------------------------------------
  // `_diff` of the copy against its own snapshot

  /** `o1` is the defined value at `path` of the copy, below objects, and `o2` its snapshot. */
  ghost predicate Same(s: ModState, root: NodeId, path: Path, o1: Value, o2: Json)
  {
    && Wrapped(s.heap, root) && Dense(s.heap) && IndexOnly(s.heap)
    && (forall j :: 0 <= j < |path| ==> IsContainer(s.heap, Get(s.heap, Ref(root), path[..j])))
    && o1 == Get(s.heap, Ref(root), path) && o1 != Absent && o2 == Resolve(s.heap, o1)
    && (path != [] || IsContainerJson(o2))
  }

  /** `_diff` at a primitive of the copy, against its own snapshot, writes it over itself. */
  lemma LeafDiff(s: ModState, root: NodeId, path: Path, o1: Value, o2: Json)
    requires Same(s, root, path, o1, o2) && !IsContainerJson(o2)
    ensures o1.Prim?
    ensures DiffAt(s, root, path, o1, o2) ==
      ModState(s.heap, s.changes + [Change(path, o1, Absent, false), Change(path, Absent, o1, false)])
  {
    GetAlloc(s.heap, false, Ref(root), path);
    ContainerResolve(s.heap, o1);
    LeafTwice(s, root, path, o1.p);
  }

  /** What a step appends to a log, followed by what the next step appends. */
  lemma CancellingSteps(a: seq<Change>, b: seq<Change>, c: seq<Change>)
    requires a <= b <= c && Cancelling(b[|a|..]) && Cancelling(c[|b|..])
    ensures Cancelling(c[|a|..])
  {
    assert c[|a|..] == b[|a|..] + c[|b|..];
    CancellingConcat(b[|a|..], c[|b|..]);
  }

  lemma CancellingPairAfter(cs: seq<Change>, q: Path, v: Value)
    ensures Cancelling((cs + [Change(q, v, Absent, false), Change(q, Absent, v, false)])[|cs|..])
  {
    var P := [Change(q, v, Absent, false), Change(q, Absent, v, false)];
    assert (cs + P)[|cs|..] == P;
    CancellingPair(q, v);
  }

  /**
   * `_diff` of a value of the copy against its own snapshot leaves the
   * copy as it was and logs only changes that come in undoing pairs.
   */
  lemma {:induction false} SelfDiffAt(s: ModState, root: NodeId, path: Path, o1: Value, o2: Json)
    requires Same(s, root, path, o1, o2)
    ensures DiffAt(s, root, path, o1, o2).heap == s.heap
    ensures s.changes <= DiffAt(s, root, path, o1, o2).changes
    ensures Cancelling(DiffAt(s, root, path, o1, o2).changes[|s.changes|..])
    decreases IsContainerJson(o2), o2, 2
  {
    if !IsContainerJson(o2) {
      LeafDiff(s, root, path, o1, o2);
      CancellingPairAfter(s.changes, path, o1);
    } else {
      var h := s.heap;
      ContainerResolve(h, o1);
      var K := Keys(h, o1);
      KeysAgree(h, o1);
      CommonAll(K, K);
      MinusAll(K, K);
      SelfDiffCommon(s, root, path, o1, o2, K);
    }
  }

  /** The first stage of `_diff` over keys of `o1`. */
  lemma {:induction false} SelfDiffCommon(s: ModState, root: NodeId, path: Path, o1: Value, o2: Json, ks: seq<Key>)
    requires Same(s, root, path, o1, o2) && IsContainerJson(o2)
    requires forall k :: k in ks ==> k in Keys(s.heap, o1)
    ensures DiffCommon(s, root, path, o1, o2, ks).heap == s.heap
    ensures s.changes <= DiffCommon(s, root, path, o1, o2, ks).changes
    ensures Cancelling(DiffCommon(s, root, path, o1, o2, ks).changes[|s.changes|..])
    decreases true, o2, 1, |ks|
  {
    if ks == [] {
      assert s.changes[|s.changes|..] == [];
    } else {
      var s1 := DiffKey(s, root, path, o1, o2, ks[0]);
      SelfDiffKey(s, root, path, o1, o2, ks[0]);
      SelfDiffCommon(s1, root, path, o1, o2, ks[1..]);
      CancellingSteps(s.changes, s1.changes, DiffCommon(s1, root, path, o1, o2, ks[1..]).changes);
    }
  }

  /** One key of `o1`, compared with itself. */
  lemma {:induction false} SelfDiffKey(s: ModState, root: NodeId, path: Path, o1: Value, o2: Json, k: Key)
    requires Same(s, root, path, o1, o2) && IsContainerJson(o2) && k in Keys(s.heap, o1)
    ensures DiffKey(s, root, path, o1, o2, k).heap == s.heap
    ensures s.changes <= DiffKey(s, root, path, o1, o2, k).changes
    ensures Cancelling(DiffKey(s, root, path, o1, o2, k).changes[|s.changes|..])
    decreases true, o2, 0, 0
  {
    var h := s.heap;
    var c := Child(h, o1, k);
    KeyChild(h, root, path, o1, o2, k);
    if IsContainer(h, c) {
      SelfDiffAt(s, root, path + [k], c, JsonChild(o2, k));
    } else {
      LeafKey(s, root, path, o1, o2, k);
    }
  }

  /** A primitive under a key of `o1` is written over itself twice: by `_diff`'s first `set` and by `_diff` below. */
  lemma LeafKey(s: ModState, root: NodeId, path: Path, o1: Value, o2: Json, k: Key)
    requires Same(s, root, path, o1, o2) && IsContainerJson(o2) && k in Keys(s.heap, o1)
    requires !IsContainer(s.heap, Child(s.heap, o1, k))
    ensures DiffKey(s, root, path, o1, o2, k).heap == s.heap
    ensures s.changes <= DiffKey(s, root, path, o1, o2, k).changes
    ensures Cancelling(DiffKey(s, root, path, o1, o2, k).changes[|s.changes|..])
  {
    var h := s.heap;
    var q := path + [k];
    var c := Child(h, o1, k);
    var c2 := JsonChild(o2, k);
    var P := [Change(q, c, Absent, false), Change(q, Absent, c, false)];
    KeyChild(h, root, path, o1, o2, k);
    var s1 := AfterSet(s, root, q, c2);
    assert s1 == ModState(h, s.changes + P) by {
      LeafTwice(s, root, q, c.p);
    }
    assert DiffKey(s, root, path, o1, o2, k) == ModState(h, s.changes + P + P) by {
      LeafDiff(s1, root, q, c, c2);
    }
    PairTwice(s.changes, P, q, c);
  }

  /** Two cancelling pairs logged after `cs` cancel. */
  lemma PairTwice(cs: seq<Change>, P: seq<Change>, q: Path, v: Value)
    requires P == [Change(q, v, Absent, false), Change(q, Absent, v, false)]
    ensures cs <= cs + P + P && Cancelling((cs + P + P)[|cs|..])
  {
    CancellingPairAfter(cs, q, v);
    CancellingPairAfter(cs + P, q, v);
    CancellingSteps(cs, cs + P, cs + P + P);
  }

  /** The keypath one key below `o1` has objects at every level above it and reaches `o1`'s child. */
  lemma KeyPath(h: Heap, root: NodeId, path: Path, o1: Value, k: Key)
    requires forall j :: 0 <= j < |path| ==> IsContainer(h, Get(h, Ref(root), path[..j]))
    requires o1 == Get(h, Ref(root), path) && IsContainer(h, o1)
    ensures forall j :: 0 <= j < |path + [k]| ==> IsContainer(h, Get(h, Ref(root), (path + [k])[..j]))
    ensures Get(h, Ref(root), path + [k]) == Child(h, o1, k)
  {
    var q := path + [k];
    GetAppend(h, Ref(root), path, k);
    forall j | 0 <= j < |q| ensures IsContainer(h, Get(h, Ref(root), q[..j])) {
      if j < |path| {
        assert q[..j] == path[..j];
      } else {
        assert q[..j] == path;
      }
    }
  }

  /** A key `lodash.keys` lists for an object of a base without holes holds a defined value, whose snapshot is the snapshot's child. */
  lemma KeyValue(h: Heap, o1: Value, o2: Json, k: Key)
    requires Closed(h) && Dense(h) && IndexOnly(h)
    requires IsContainer(h, o1) && o2 == Resolve(h, o1) && k in Keys(h, o1)
    ensures Child(h, o1, k) != Absent && ValueIn(h, Child(h, o1, k))
    ensures Resolve(h, Child(h, o1, k)) == JsonChild(o2, k)
  {
    var n := h.nodes[o1.id];
    assert o2 == ResolveNode(h, o1.id);
    if n.isArray {
      assert forall k' :: k' in n.fields ==> k'.Index?;
      assert forall i :: 0 <= i < n.length ==> Lookup(n, Index(i)) != Absent;
      ArraySlot(h, o1.id, k);
    } else {
      MapSlot(h, o1.id, k);
    }
  }

  /** A listed key of an array with index keys only and no holes. */
  lemma ArraySlot(h: Heap, id: NodeId, k: Key)
    requires Closed(h) && id in h.nodes && h.nodes[id].isArray
    requires forall k' :: k' in h.nodes[id].fields ==> k'.Index?
    requires forall i :: 0 <= i < h.nodes[id].length ==> Lookup(h.nodes[id], Index(i)) != Absent
    requires k in NodeKeys(h.nodes[id])
    ensures Lookup(h.nodes[id], k) != Absent && ValueIn(h, Lookup(h.nodes[id], k))
    ensures Resolve(h, Lookup(h.nodes[id], k)) == JsonChild(ResolveNode(h, id), k)
  {
    var n := h.nodes[id];
    var names := set k' | k' in n.fields && k'.Name?;
    assert names == {};
    assert SortedKeys(names) == [];
    assert NodeKeys(n) == Indices(n.length) + [];
    assert k.Index? && k.i < n.length;
    if k in n.fields { assert n.fields[k] == Lookup(n, k); }
  }

  /** A listed key of a map. */
  lemma MapSlot(h: Heap, id: NodeId, k: Key)
    requires Closed(h) && id in h.nodes && !h.nodes[id].isArray
    requires k in NodeKeys(h.nodes[id])
    ensures Lookup(h.nodes[id], k) != Absent && ValueIn(h, Lookup(h.nodes[id], k))
    ensures Resolve(h, Lookup(h.nodes[id], k)) == JsonChild(ResolveNode(h, id), k)
  {
    assert k in h.nodes[id].fields;
  }

  /** The value of the copy under a key of `o1` is defined, found by the walk, and smaller in the snapshot. */
  lemma KeyChild(h: Heap, root: NodeId, path: Path, o1: Value, o2: Json, k: Key)
    requires Wrapped(h, root) && Dense(h) && IndexOnly(h)
    requires forall j :: 0 <= j < |path| ==> IsContainer(h, Get(h, Ref(root), path[..j]))
    requires o1 == Get(h, Ref(root), path) && IsContainer(h, o1) && o2 == Resolve(h, o1)
    requires k in Keys(h, o1)
    ensures var q := path + [k];
      && (forall j :: 0 <= j < |q| ==> IsContainer(h, Get(h, Ref(root), q[..j])))
      && Get(h, Ref(root), q) == Child(h, o1, k) && Child(h, o1, k) != Absent
      && Resolve(h, Child(h, o1, k)) == JsonChild(o2, k) && JsonChild(o2, k) < o2
      && (IsContainer(h, Child(h, o1, k)) || Child(h, o1, k).Prim?)
  {
    KeyPath(h, root, path, o1, k);
    KeyValue(h, o1, o2, k);
  }

  // ---------------------------------------------------------------------------
  // The whole diff

  /**
   * `diff(base, base)`: with the base's own snapshot as the target the
   * patch is empty, for a base whose arrays have a defined element at
   * every index.
   */
  lemma SelfDiffEmpty(h: Heap, root: NodeId)
    requires Wrapped(h, root) && Dense(h)
    ensures DiffOf(h, root, Resolve(h, Ref(root))) == Some([])
  {
    var t := Resolve(h, Ref(root));
    var s := ModState(CloneHeap(h), []);
    assert Same(s, root, [], Ref(root), t) by {
      CloneValid(h);
      ClonePlain(h);
      CloneResolve(h, Ref(root));
    }
    var r := DiffAt(s, root, [], Ref(root), t);
    assert Closed(r.heap) && Cancelling(r.changes) by {
      SelfDiffAt(s, root, [], Ref(root), t);
      assert r.changes[0..] == r.changes;
    }
    CancellingEncoded(r);
  }

  /** A log of cancelling pairs encodes to the empty patch. */
  lemma CancellingEncoded(r: ModState)
    requires Closed(r.heap) && Cancelling(r.changes)
    ensures Encoded(r) == []
  {
    CancellingCompacts(r.changes);
  }
}
