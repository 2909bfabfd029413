/**
 * What `_diff` (src/utils/diff.js:55-72) does to the copy of the base it
 * works on: replaying its writes turns the copy into the target. Proved
 * for targets without arrays whose objects have only name keys and no
 * `undefined` properties, over a base that has no array where the target
 * has an object.
 */
module DiffFacts {
  import opened Values
  import opened Heaps
  import opened Modifiers
  import opened Landings
  import opened Snapshots
  import opened Diffs

  // ---------------------------------------------------------------------------
  // The condition on the base

  /**
   * Wherever the target `t` has an object, the base `b` has no array. (On
   * an array, `_diff` removes the indices and adds the target's names as
   * named properties of the array, which a snapshot does not show.)
   */
  predicate Fits(b: Json, t: Json)
    decreases t
  {
    match t
    case JObj(f) => !b.JArr? && forall k :: k in f ==> Fits(JsonChild(b, k), f[k])
    case _ => true
  }

  /** A value fits itself. */
  lemma {:induction false} FitsSelf(t: Json)
    ensures Fits(t, t)
    decreases t
  {
    if t.JObj? {
      forall k | k in t.fields ensures Fits(JsonChild(t, k), t.fields[k]) {
        FitsSelf(t.fields[k]);
      }
    }
  }

  // ---------------------------------------------------------------------------
  // The three stages on the object's properties

  /** The properties `m` after writing, for each of `ks` in turn, the target's value under that key. */
  function Overlay(m: map<Key, Json>, o2: Json, ks: seq<Key>): map<Key, Json>
    decreases |ks|
  {
    if ks == [] then m else Overlay(SetKey(m, ks[0], JsonChild(o2, ks[0])).fields, o2, ks[1..])
  }

  /**
   * A key among `ks` ends up with the target's value, or absent where the
   * target has none; any other key keeps what `m` has.
   */
  lemma {:induction false} OverlayMeaning(m: map<Key, Json>, o2: Json, ks: seq<Key>)
    ensures forall k :: k in ks ==>
      (k in Overlay(m, o2, ks) <==> JsonChild(o2, k) != Undef) &&
      (k in Overlay(m, o2, ks) ==> Overlay(m, o2, ks)[k] == JsonChild(o2, k))
    ensures forall k :: k !in ks ==>
      (k in Overlay(m, o2, ks) <==> k in m) &&
      (k in Overlay(m, o2, ks) ==> Overlay(m, o2, ks)[k] == m[k])
    decreases |ks|
  {
    if ks != [] {
      var m1 := SetKey(m, ks[0], JsonChild(o2, ks[0])).fields;
      OverlayMeaning(m1, o2, ks[1..]);
      forall k ensures k in ks <==> k == ks[0] || k in ks[1..] {
        assert ks == [ks[0]] + ks[1..];
      }
    }
  }

  // ---------------------------------------------------------------------------
  // The copy's objects and their snapshots

  /** Where the snapshot reads an object at `p`, one more key reads that object's property. */
  lemma {:induction false} ObjsExtend(t: Json, p: Path, k: Key)
    requires Objs(t, p) && JsonGet(t, p).JObj?
    ensures Objs(t, p + [k]) && JsonGet(t, p + [k]) == JsonChild(JsonGet(t, p), k)
    decreases |p|
  {
    GetBelow(t, p, k);
    if p != [] {
      assert (p + [k])[0] == p[0] && (p + [k])[1..] == p[1..] + [k];
      ObjsExtend(JsonChild(t, p[0]), p[1..], k);
    }
  }

  /** A value of the tree is a container exactly when its snapshot is. */
  lemma ContainerResolve(h: Heap, x: Value)
    requires Closed(h)
    ensures IsContainer(h, x) <==> IsContainerJson(Resolve(h, x))
    ensures IsContainer(h, x) ==> (Resolve(h, x).JArr? <==> h.nodes[x.id].isArray)
  {
  }

  /**
   * The object `o1` at `p`, whose snapshot is an object: `lodash.keys` of it
   * lists exactly the snapshot's keys, and its property under `k` is what
   * the walk to `p + [k]` finds.
   */
  lemma NodeAt(h: Heap, root: NodeId, p: Path, o1: Value)
    requires Closed(h) && root in h.nodes
    requires Objs(Resolve(h, Ref(root)), p) && JsonGet(Resolve(h, Ref(root)), p).JObj?
    requires o1 == Get(h, Ref(root), p)
    ensures IsContainer(h, o1) && !h.nodes[o1.id].isArray
    ensures forall k :: k in Keys(h, o1) <==> k in JsonGet(Resolve(h, Ref(root)), p).fields
    ensures forall k :: Child(h, o1, k) == Get(h, Ref(root), p + [k])
  {
    ObjsChain(h, Ref(root), p);
    ContainerResolve(h, o1);
    var n := h.nodes[o1.id];
    assert Resolve(h, o1) == JObj(map k | k in n.fields :: Resolve(h, n.fields[k]));
    forall k ensures Child(h, o1, k) == Get(h, Ref(root), p + [k]) {
      GetAppend(h, Ref(root), p, k);
    }
  }

  /**
   * The property `k` of the object at `p`: its keypath reads objects above
   * it, and its snapshot is the property's snapshot.
   */
  lemma ChildAt(h: Heap, root: NodeId, p: Path, o1: Value, k: Key)
    requires Closed(h) && root in h.nodes
    requires Objs(Resolve(h, Ref(root)), p) && JsonGet(Resolve(h, Ref(root)), p).JObj?
    requires o1 == Get(h, Ref(root), p)
    ensures Objs(Resolve(h, Ref(root)), p + [k])
    ensures JsonGet(Resolve(h, Ref(root)), p + [k]) == JsonChild(JsonGet(Resolve(h, Ref(root)), p), k)
    ensures Child(h, o1, k) == Get(h, Ref(root), p + [k])
    ensures Resolve(h, Child(h, o1, k)) == JsonGet(Resolve(h, Ref(root)), p + [k])
    ensures IsContainer(h, Child(h, o1, k)) <==> IsContainerJson(JsonGet(Resolve(h, Ref(root)), p + [k]))
  {
    NodeAt(h, root, p, o1);
    ObjsExtend(Resolve(h, Ref(root)), p, k);
    ObjsChain(h, Ref(root), p + [k]);
    ContainerResolve(h, Child(h, o1, k));
  }

  /** After a write below the object at `p`, the snapshot still reads an object at `p`, with the new property. */
  lemma WroteBelow(t: Json, p: Path, k: Key, w: Json)
    requires Objs(t, p) && JsonGet(t, p).JObj?
    ensures JsonPut(t, p + [k], w) == JsonPut(t, p, SetKey(JsonGet(t, p).fields, k, w))
    ensures Objs(JsonPut(t, p + [k], w), p)
    ensures JsonGet(JsonPut(t, p + [k], w), p) == SetKey(JsonGet(t, p).fields, k, w)
  {
    PutBelow(t, p, k, w);
    PutGet(t, p, SetKey(JsonGet(t, p).fields, k, w));
  }

  /** Overwriting the object at `p` twice: the second write wins, and `p` still reads it. */
  lemma Rewrote(t: Json, p: Path, a: Json, b: Json)
    requires Objs(t, p)
    ensures JsonPut(JsonPut(t, p, a), p, b) == JsonPut(t, p, b)
    ensures Objs(JsonPut(t, p, a), p) && JsonGet(JsonPut(t, p, a), p) == a
  {
    PutTwice(t, p, a, b);
    PutGet(t, p, a);
  }

  // ---------------------------------------------------------------------------
  // `_diff` on the copy

  /** The state `_diff` starts from at `path`: an object there whose snapshot the target `o2` fits. */
  ghost predicate Ready(s: ModState, root: NodeId, path: Path, o1: Value, o2: Json)
  {
    && Wrapped(s.heap, root)
    && Objs(Resolve(s.heap, Ref(root)), path)
    && ArrayFree(o2) && Landable(o2)
    && Fits(JsonGet(Resolve(s.heap, Ref(root)), path), o2)
    && (path != [] || IsContainerJson(o2))
    && (IsContainerJson(o2) ==> o1 == Get(s.heap, Ref(root), path) && JsonGet(Resolve(s.heap, Ref(root)), path).JObj?)
  }

  /** The state one stage of `_diff` at `path` works in: the object `o1` still sits at `path`. */
  ghost predicate AtObject(s: ModState, root: NodeId, path: Path, o1: Value)
  {
    && Wrapped(s.heap, root)
    && Objs(Resolve(s.heap, Ref(root)), path)
    && JsonGet(Resolve(s.heap, Ref(root)), path).JObj?
    && o1 == Get(s.heap, Ref(root), path)
  }

  /**
   * `_diff(path, o1, o2)` leaves `o2` at `path`: the copy's snapshot is the
   * old one with `o2` written at `path`, and `path` now reads a value whose
   * snapshot is `o2`. The walks to the levels above `path` find the same
   * objects, and so does the walk to `path` itself when `o2` is an object.
   */
  lemma {:induction false} DiffAtReaches(s: ModState, root: NodeId, path: Path, o1: Value, o2: Json)
    requires Ready(s, root, path, o1, o2)
    ensures Wrapped(DiffAt(s, root, path, o1, o2).heap, root)
    ensures Resolve(DiffAt(s, root, path, o1, o2).heap, Ref(root)) == JsonPut(Resolve(s.heap, Ref(root)), path, o2)
    ensures Resolve(DiffAt(s, root, path, o1, o2).heap, Get(DiffAt(s, root, path, o1, o2).heap, Ref(root), path)) == o2
    ensures forall j :: 0 <= j < |path| ==>
      Get(DiffAt(s, root, path, o1, o2).heap, Ref(root), path[..j]) == Get(s.heap, Ref(root), path[..j])
    ensures IsContainerJson(o2) ==> Get(DiffAt(s, root, path, o1, o2).heap, Ref(root), path) == o1
    decreases IsContainerJson(o2), o2, 2
  {
    var T := Resolve(s.heap, Ref(root));
    var r := DiffAt(s, root, path, o1, o2);
    if !IsContainerJson(o2) {
      SetSnapshot(s, root, path, o2);
    } else {
      DiffObjectReaches(s, root, path, o1, o2);
    }
    WrittenReads(r.heap, root, T, path, o2);
    assert path[..|path|] == path;
  }

  /** A heap whose snapshot is `t` with `v` written at `path` reads a copy of `v` at `path`. */
  lemma WrittenReads(h: Heap, root: NodeId, t: Json, path: Path, v: Json)
    requires Closed(h) && root in h.nodes && Objs(t, path) && Resolve(h, Ref(root)) == JsonPut(t, path, v)
    ensures Resolve(h, Get(h, Ref(root), path)) == v
  {
    PutGet(t, path, v);
    ObjsChain(h, Ref(root), path);
  }

  /** The object case of `DiffAtReaches`: the three stages, each on the same object `o1`. */
  lemma {:induction false} DiffObjectReaches(s: ModState, root: NodeId, path: Path, o1: Value, o2: Json)
    requires Ready(s, root, path, o1, o2) && IsContainerJson(o2)
    ensures Wrapped(DiffAt(s, root, path, o1, o2).heap, root)
    ensures Resolve(DiffAt(s, root, path, o1, o2).heap, Ref(root)) == JsonPut(Resolve(s.heap, Ref(root)), path, o2)
    ensures forall j :: 0 <= j <= |path| ==>
      Get(DiffAt(s, root, path, o1, o2).heap, Ref(root), path[..j]) == Get(s.heap, Ref(root), path[..j])
    decreases true, o2, 2, 0
  {
    var T := Resolve(s.heap, Ref(root));
    var M := JsonGet(T, path).fields;
    assert o2.JObj?;
    NodeAt(s.heap, root, path, o1);
    var ks1 := Common(Keys(s.heap, o1), JsonKeys(o2));
    var s1 := DiffCommon(s, root, path, o1, o2, ks1);
    forall k | k in ks1 ensures Fits(JsonChild(JsonGet(T, path), k), JsonChild(o2, k)) {
    }
    DiffCommonReaches(s, root, path, o1, o2, ks1);
    var m1 := Overlay(M, o2, ks1);
    Rewrote(T, path, JObj(m1), o2);
    CommonStage(M, o2, ks1);
    DiffTailReaches(s1, root, path, o1, o2);
  }

  /** After the first stage, the shared keys hold the target's values. */
  lemma CommonStage(m: map<Key, Json>, o2: Json, ks1: seq<Key>)
    requires o2.JObj?
    requires forall k :: k in ks1 <==> k in m && k in o2.fields
    ensures forall k :: k in Overlay(m, o2, ks1) && k in o2.fields ==> Overlay(m, o2, ks1)[k] == o2.fields[k]
  {
    OverlayMeaning(m, o2, ks1);
  }

  /**
   * The second and third stages: once the shared keys hold the target's
   * values, removing the keys the target lacks and adding the keys the
   * object lacks gives the target's properties.
   */
  lemma TwoStages(m1: map<Key, Json>, o2: Json, ks2: seq<Key>, ks3: seq<Key>)
    requires o2.JObj? && forall k :: k in o2.fields ==> o2.fields[k] != Undef
    requires forall k :: k in m1 && k in o2.fields ==> m1[k] == o2.fields[k]
    requires forall k :: k in ks2 <==> k in m1 && k !in o2.fields
    requires forall k :: k in ks3 <==> k in o2.fields && k !in Overlay(m1, o2, ks2)
    ensures Overlay(Overlay(m1, o2, ks2), o2, ks3) == o2.fields
  {
    var m2 := Overlay(m1, o2, ks2);
    var m3 := Overlay(m2, o2, ks3);
    OverlayMeaning(m1, o2, ks2);
    OverlayMeaning(m2, o2, ks3);
    forall k ensures k in m3 <==> k in o2.fields {
    }
    forall k | k in m3 ensures m3[k] == o2.fields[k] {
    }
  }

  /** The second and third stages of `_diff` on the object `o1` at `path`, once the shared keys hold the target's values. */
  lemma DiffTailReaches(s1: ModState, root: NodeId, path: Path, o1: Value, o2: Json)
    requires AtObject(s1, root, path, o1) && o2.JObj? && Landable(o2)
    requires var m1 := JsonGet(Resolve(s1.heap, Ref(root)), path).fields;
      forall k :: k in m1 && k in o2.fields ==> m1[k] == o2.fields[k]
    ensures var s2 := RemoveKeys(s1, root, path, Minus(Keys(s1.heap, o1), JsonKeys(o2)));
      var s3 := SetMissing(s2, root, path, o2, Minus(JsonKeys(o2), Keys(s2.heap, o1)));
      && Wrapped(s3.heap, root)
      && Resolve(s3.heap, Ref(root)) == JsonPut(Resolve(s1.heap, Ref(root)), path, o2)
      && forall j :: 0 <= j <= |path| ==> Get(s3.heap, Ref(root), path[..j]) == Get(s1.heap, Ref(root), path[..j])
  {
    var T1 := Resolve(s1.heap, Ref(root));
    var m1 := JsonGet(T1, path).fields;
    NodeAt(s1.heap, root, path, o1);
    var ks2 := Minus(Keys(s1.heap, o1), JsonKeys(o2));
    var s2 := RemoveKeys(s1, root, path, ks2);
    RemoveKeysReaches(s1, root, path, o1, o2, ks2);
    var m2 := Overlay(m1, o2, ks2);
    Rewrote(T1, path, JObj(m2), o2);
    NodeAt(s2.heap, root, path, o1);
    var ks3 := Minus(JsonKeys(o2), Keys(s2.heap, o1));
    SetMissingReaches(s2, root, path, o1, o2, ks3);
    var m3 := Overlay(m2, o2, ks3);
    PutTwice(T1, path, JObj(m2), JObj(m3));
    TwoStages(m1, o2, ks2, ks3);
  }

  /** The first stage: each shared key `k` gets the target's value. */
  lemma {:induction false} DiffCommonReaches(s: ModState, root: NodeId, path: Path, o1: Value, o2: Json, ks: seq<Key>)
    requires AtObject(s, root, path, o1) && o2.JObj? && ArrayFree(o2) && Landable(o2)
    requires forall k :: k in ks ==> Fits(JsonChild(JsonGet(Resolve(s.heap, Ref(root)), path), k), JsonChild(o2, k))
    ensures AtObject(DiffCommon(s, root, path, o1, o2, ks), root, path, o1)
    ensures Resolve(DiffCommon(s, root, path, o1, o2, ks).heap, Ref(root)) ==
      JsonPut(Resolve(s.heap, Ref(root)), path, JObj(Overlay(JsonGet(Resolve(s.heap, Ref(root)), path).fields, o2, ks)))
    ensures forall j :: 0 <= j <= |path| ==>
      Get(DiffCommon(s, root, path, o1, o2, ks).heap, Ref(root), path[..j]) == Get(s.heap, Ref(root), path[..j])
    decreases true, o2, 1, |ks|
  {
    var T := Resolve(s.heap, Ref(root));
    var M := JsonGet(T, path).fields;
    if ks == [] {
      PutSame(T, path);
    } else {
      var k := ks[0];
      var c2 := JsonChild(o2, k);
      var s1 := DiffKey(s, root, path, o1, o2, k);
      DiffKeyReaches(s, root, path, o1, o2, k);
      WroteBelow(T, path, k, c2);
      var M1 := SetKey(M, k, c2).fields;
      var T1 := Resolve(s1.heap, Ref(root));
      forall k' | k' in ks[1..] ensures Fits(JsonChild(JsonGet(T1, path), k'), JsonChild(o2, k')) {
        assert k' in ks;
        if k' == k {
          FitsSelf(c2);
        }
      }
      assert path[..|path|] == path;
      DiffCommonReaches(s1, root, path, o1, o2, ks[1..]);
      PutTwice(T, path, JObj(M1), JObj(Overlay(M1, o2, ks[1..])));
    }
  }

  /** One shared key: the property `k` of the object at `path` ends up as the target's. */
  lemma {:induction false} DiffKeyReaches(s: ModState, root: NodeId, path: Path, o1: Value, o2: Json, k: Key)
    requires AtObject(s, root, path, o1) && o2.JObj? && ArrayFree(o2) && Landable(o2)
    requires Fits(JsonChild(JsonGet(Resolve(s.heap, Ref(root)), path), k), JsonChild(o2, k))
    ensures Wrapped(DiffKey(s, root, path, o1, o2, k).heap, root)
    ensures Resolve(DiffKey(s, root, path, o1, o2, k).heap, Ref(root)) == JsonPut(Resolve(s.heap, Ref(root)), path + [k], JsonChild(o2, k))
    ensures forall j :: 0 <= j <= |path| ==>
      Get(DiffKey(s, root, path, o1, o2, k).heap, Ref(root), path[..j]) == Get(s.heap, Ref(root), path[..j])
    decreases true, o2, 0, 1
  {
    var q := path + [k];
    var c2 := JsonChild(o2, k);
    assert ArrayFree(c2) && Landable(c2);
    ChildAt(s.heap, root, path, o1, k);
    forall j | 0 <= j <= |path| ensures q[..j] == path[..j] {
    }
    if IsContainer(s.heap, Child(s.heap, o1, k)) {
      DiffAtReaches(s, root, q, Child(s.heap, o1, k), c2);
    } else {
      assert ArrayFree(c2) && Landable(c2);
      KeyRewritten(s, root, path, o1, o2, k);
    }
  }

  /** A shared key whose old value is no object: the target's child is written and then compared with itself. */
  lemma {:induction false} KeyRewritten(s: ModState, root: NodeId, path: Path, o1: Value, o2: Json, k: Key)
    requires AtObject(s, root, path, o1) && o2.JObj? && ArrayFree(o2) && Landable(o2)
    requires !IsContainer(s.heap, Child(s.heap, o1, k))
    ensures Wrapped(DiffKey(s, root, path, o1, o2, k).heap, root)
    ensures Resolve(DiffKey(s, root, path, o1, o2, k).heap, Ref(root)) == JsonPut(Resolve(s.heap, Ref(root)), path + [k], JsonChild(o2, k))
    ensures forall j :: 0 <= j <= |path| ==>
      Get(DiffKey(s, root, path, o1, o2, k).heap, Ref(root), path[..j]) == Get(s.heap, Ref(root), path[..j])
    decreases true, o2, 0, 0
  {
    var q := path + [k];
    var c2 := JsonChild(o2, k);
    var s1 := AfterSet(s, root, q, c2);
    var r := DiffAt(s1, root, q, Child(s1.heap, o1, k), c2);
    assert DiffKey(s, root, path, o1, o2, k) == r;
    assert && Wrapped(r.heap, root)
           && Resolve(r.heap, Ref(root)) == JsonPut(Resolve(s.heap, Ref(root)), q, c2)
           && forall j :: 0 <= j < |q| ==> Get(r.heap, Ref(root), q[..j]) == Get(s.heap, Ref(root), q[..j]) by {
      RewriteReady(s, root, path, o1, k, c2);
      DiffAtReaches(s1, root, q, Child(s1.heap, o1, k), c2);
    }
    ExtendPrefixes(path, k);
  }

  /** Extending a keypath leaves its prefixes as they were. */
  lemma ExtendPrefixes(path: Path, k: Key)
    ensures forall j :: 0 <= j <= |path| ==> (path + [k])[..j] == path[..j]
  {
  }

  /** After `set(path.concat([k]), c)` below the object at `path`, `_diff` of `c` against itself may start there. */
  lemma RewriteReady(s: ModState, root: NodeId, path: Path, o1: Value, k: Key, c: Json)
    requires AtObject(s, root, path, o1) && ArrayFree(c) && Landable(c)
    ensures var s1 := AfterSet(s, root, path + [k], c);
      && Ready(s1, root, path + [k], Child(s1.heap, o1, k), c)
      && JsonPut(Resolve(s1.heap, Ref(root)), path + [k], c) == Resolve(s1.heap, Ref(root))
      && Resolve(s1.heap, Ref(root)) == JsonPut(Resolve(s.heap, Ref(root)), path + [k], c)
      && forall j :: 0 <= j < |path| + 1 ==>
        Get(s1.heap, Ref(root), (path + [k])[..j]) == Get(s.heap, Ref(root), (path + [k])[..j])
  {
    var q := path + [k];
    assert Objs(Resolve(s.heap, Ref(root)), q) by {
      ChildAt(s.heap, root, path, o1, k);
    }
    SetSnapshot(s, root, q, c);
    ReadyAfterWrite(s.heap, AfterSet(s, root, q, c).heap, root, path, o1, k, c);
  }

  /** `RewriteReady` on heaps: `h1` is `h` with `c` written at `path + [k]`. */
  lemma ReadyAfterWrite(h: Heap, h1: Heap, root: NodeId, path: Path, o1: Value, k: Key, c: Json)
    requires Wrapped(h, root) && Objs(Resolve(h, Ref(root)), path) && JsonGet(Resolve(h, Ref(root)), path).JObj?
    requires o1 == Get(h, Ref(root), path) && Objs(Resolve(h, Ref(root)), path + [k]) && ArrayFree(c)
    requires Wrapped(h1, root) && Resolve(h1, Ref(root)) == JsonPut(Resolve(h, Ref(root)), path + [k], c)
    requires forall j :: 0 <= j < |path| + 1 ==> Get(h1, Ref(root), (path + [k])[..j]) == Get(h, Ref(root), (path + [k])[..j])
    ensures Objs(Resolve(h1, Ref(root)), path + [k])
    ensures Fits(JsonGet(Resolve(h1, Ref(root)), path + [k]), c)
    ensures IsContainerJson(c) ==>
      Child(h1, o1, k) == Get(h1, Ref(root), path + [k]) && JsonGet(Resolve(h1, Ref(root)), path + [k]).JObj?
    ensures JsonPut(Resolve(h1, Ref(root)), path + [k], c) == Resolve(h1, Ref(root))
    ensures forall j :: 0 <= j <= |path| ==> Get(h1, Ref(root), path[..j]) == Get(h, Ref(root), path[..j])
  {
    var T := Resolve(h, Ref(root));
    var q := path + [k];
    ExtendPrefixes(path, k);
    assert q[..|path|] == path;
    WroteBelow(T, path, k, c);
    ChildAt(h1, root, path, o1, k);
    FitsSelf(c);
    Rewrote(T, q, c, c);
  }

  /** One `set(path.concat([k]), c)` below the object at `path`: that object's property `k` becomes `c`. */
  lemma WriteKey(s: ModState, root: NodeId, path: Path, o1: Value, k: Key, c: Json)
    requires AtObject(s, root, path, o1) && Landable(c)
    ensures AtObject(AfterSet(s, root, path + [k], c), root, path, o1)
    ensures Resolve(AfterSet(s, root, path + [k], c).heap, Ref(root)) ==
      JsonPut(Resolve(s.heap, Ref(root)), path, SetKey(JsonGet(Resolve(s.heap, Ref(root)), path).fields, k, c))
    ensures forall j :: 0 <= j <= |path| ==>
      Get(AfterSet(s, root, path + [k], c).heap, Ref(root), path[..j]) == Get(s.heap, Ref(root), path[..j])
  {
    var q := path + [k];
    assert Objs(Resolve(s.heap, Ref(root)), q) by {
      ChildAt(s.heap, root, path, o1, k);
    }
    SetSnapshot(s, root, q, c);
    KeyWritten(s.heap, AfterSet(s, root, q, c).heap, root, path, o1, k, c);
  }

  /** `WriteKey` on heaps: `h1` is `h` with `c` written at `path + [k]`. */
  lemma KeyWritten(h: Heap, h1: Heap, root: NodeId, path: Path, o1: Value, k: Key, c: Json)
    requires Closed(h) && root in h.nodes && Closed(h1) && root in h1.nodes
    requires Objs(Resolve(h, Ref(root)), path) && JsonGet(Resolve(h, Ref(root)), path).JObj?
    requires o1 == Get(h, Ref(root), path)
    requires Resolve(h1, Ref(root)) == JsonPut(Resolve(h, Ref(root)), path + [k], c)
    requires forall j :: 0 <= j < |path| + 1 ==> Get(h1, Ref(root), (path + [k])[..j]) == Get(h, Ref(root), (path + [k])[..j])
    ensures Objs(Resolve(h1, Ref(root)), path) && JsonGet(Resolve(h1, Ref(root)), path).JObj?
    ensures o1 == Get(h1, Ref(root), path)
    ensures Resolve(h1, Ref(root)) ==
      JsonPut(Resolve(h, Ref(root)), path, SetKey(JsonGet(Resolve(h, Ref(root)), path).fields, k, c))
    ensures forall j :: 0 <= j <= |path| ==> Get(h1, Ref(root), path[..j]) == Get(h, Ref(root), path[..j])
  {
    ExtendPrefixes(path, k);
    WroteBelow(Resolve(h, Ref(root)), path, k, c);
    assert path[..|path|] == path;
  }

  /** The second stage: each of `ks`, none of which the target has, is removed. */
  lemma {:induction false} RemoveKeysReaches(s: ModState, root: NodeId, path: Path, o1: Value, o2: Json, ks: seq<Key>)
    requires AtObject(s, root, path, o1) && o2.JObj?
    requires forall k :: k in ks ==> k !in o2.fields
    ensures AtObject(RemoveKeys(s, root, path, ks), root, path, o1)
    ensures Resolve(RemoveKeys(s, root, path, ks).heap, Ref(root)) ==
      JsonPut(Resolve(s.heap, Ref(root)), path, JObj(Overlay(JsonGet(Resolve(s.heap, Ref(root)), path).fields, o2, ks)))
    ensures forall j :: 0 <= j <= |path| ==>
      Get(RemoveKeys(s, root, path, ks).heap, Ref(root), path[..j]) == Get(s.heap, Ref(root), path[..j])
    decreases |ks|
  {
    var T := Resolve(s.heap, Ref(root));
    var M := JsonGet(T, path).fields;
    if ks == [] {
      PutSame(T, path);
    } else {
      var k := ks[0];
      var s1 := AfterSet(s, root, path + [k], Undef);
      WriteKey(s, root, path, o1, k, Undef);
      assert JsonChild(o2, k) == Undef;
      var M1 := SetKey(M, k, Undef).fields;
      Rewrote(T, path, JObj(M1), JObj(M1));
      RemoveKeysReaches(s1, root, path, o1, o2, ks[1..]);
      PutTwice(T, path, JObj(M1), JObj(Overlay(M1, o2, ks[1..])));
    }
  }

  /** The third stage: each of `ks` gets the target's value. */
  lemma {:induction false} SetMissingReaches(s: ModState, root: NodeId, path: Path, o1: Value, o2: Json, ks: seq<Key>)
    requires AtObject(s, root, path, o1) && o2.JObj? && Landable(o2)
    ensures AtObject(SetMissing(s, root, path, o2, ks), root, path, o1)
    ensures Resolve(SetMissing(s, root, path, o2, ks).heap, Ref(root)) ==
      JsonPut(Resolve(s.heap, Ref(root)), path, JObj(Overlay(JsonGet(Resolve(s.heap, Ref(root)), path).fields, o2, ks)))
    ensures forall j :: 0 <= j <= |path| ==>
      Get(SetMissing(s, root, path, o2, ks).heap, Ref(root), path[..j]) == Get(s.heap, Ref(root), path[..j])
    decreases |ks|
  {
    var T := Resolve(s.heap, Ref(root));
    var M := JsonGet(T, path).fields;
    if ks == [] {
      PutSame(T, path);
    } else {
      var k := ks[0];
      var c2 := JsonChild(o2, k);
      assert Landable(c2);
      var s1 := AfterSet(s, root, path + [k], c2);
      WriteKey(s, root, path, o1, k, c2);
      var M1 := SetKey(M, k, c2).fields;
      Rewrote(T, path, JObj(M1), JObj(M1));
      SetMissingReaches(s1, root, path, o1, o2, ks[1..]);
      PutTwice(T, path, JObj(M1), JObj(Overlay(M1, o2, ks[1..])));
    }
  }

  // ---------------------------------------------------------------------------
  // `diff(base, target)`

  /**
   * The modifier `diff` runs on a copy of the base ends with the target's
   * snapshot: every write it logs together turn the base into the target.
   */
  lemma DiffWalkReaches(h: Heap, root: NodeId, target: Json)
    requires Wrapped(h, root) && target.JObj? && ArrayFree(target) && Landable(target)
    requires Fits(Resolve(h, Ref(root)), target)
    ensures Resolve(DiffAt(ModState(CloneHeap(h), []), root, [], Ref(root), target).heap, Ref(root)) == target
  {
    var s := ModState(CloneHeap(h), []);
    CloneValid(h);
    CloneResolve(h, Ref(root));
    ContainerResolve(s.heap, Ref(root));
    assert Ready(s, root, [], Ref(root), target);
    DiffAtReaches(s, root, [], Ref(root), target);
  }
}
