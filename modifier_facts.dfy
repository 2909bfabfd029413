/**
 * What the writes of an ObjectModifier do to the tree and to the log:
 * where a written leaf lands, which entries a write records, and which
 * entries the removal of a subtree records.
 */
module ModifierFacts {
  import opened Values
  import opened Heaps
  import opened EnsurePaths
  import opened ChangeLogs
  import opened Modifiers

  // ---------------------------------------------------------------------------
  // Removal changes

  /**
   * Every removal change goes from the value found at its keypath (never
   * `undefined`) to `undefined`, and is not seen yet.
   */
  lemma {:induction false} RemovalSound(h: Heap, v: Value)
    requires Closed(h)
    ensures forall c :: c in RemovalChanges(h, v) ==>
      c.newVal == Absent && !c.seen && c.oldVal != Absent && c.oldVal == Get(h, v, c.keypath)
    decreases Rank(h, v), 1
  {
    if v != Absent && IsContainer(h, v) {
      RemovalOfKeysSound(h, v, NodeKeys(h.nodes[v.id]));
    }
  }

  lemma {:induction false} RemovalOfKeysSound(h: Heap, v: Value, ks: seq<Key>)
    requires Closed(h) && IsContainer(h, v)
    ensures forall c :: c in RemovalOfKeys(h, v, ks) ==>
      c.newVal == Absent && !c.seen && c.oldVal != Absent && c.oldVal == Get(h, v, c.keypath)
    decreases Rank(h, v), 0, |ks|
  {
    if ks != [] {
      var child := Lookup(h.nodes[v.id], ks[0]);
      ChildRank(h, v, ks[0]);
      RemovalSound(h, child);
      RemovalOfKeysSound(h, v, ks[1..]);
      var sub := RemovalChanges(h, child);
      var u := Under(ks[0], sub);
      forall c | c in u
        ensures c.newVal == Absent && !c.seen && c.oldVal != Absent && c.oldVal == Get(h, v, c.keypath)
      {
        var i :| 0 <= i < |u| && u[i] == c;
        assert sub[i] in sub;
        ConsTail(c.keypath);
      }
      assert RemovalOfKeys(h, v, ks) == u + RemovalOfKeys(h, v, ks[1..]);
    }
  }

  /** Putting a keypath in front of two paths keeps whether one lies below the other. */
  lemma BelowRebase(keypath: Path, p: Path, q: Path)
    ensures Below(keypath + p, keypath + q) <==> Below(p, q)
  {
    if |q| < |p| {
      assert (keypath + p)[..|keypath + q|] == keypath + p[..|q|];
      if (keypath + p)[..|keypath + q|] == keypath + q {
        assert p[..|q|] == (keypath + p[..|q|])[|keypath|..];
      }
    }
  }

  lemma DescendantsFirstRebase(keypath: Path, cs: seq<Change>)
    requires DescendantsFirst(cs)
    ensures DescendantsFirst(Rebase(keypath, cs))
  {
    var r := Rebase(keypath, cs);
    forall i, j | 0 <= i < j < |r| ensures !Below(r[j].keypath, r[i].keypath) {
      BelowRebase(keypath, cs[j].keypath, cs[i].keypath);
    }
  }

  // ---------------------------------------------------------------------------
  // The removal step of `set`

  /** What the keypath holds before the removal step, and whether the step reaches it. */
  function Reached(s: ModState, root: NodeId, keypath: Path): bool
  {
    keypath != [] && IsContainer(s.heap, Holder(s.heap, Ref(root), keypath))
  }

  /**
   * The removal step finds the value through the deep write and the removed
   * subtree is left as it was.
   */
  lemma ClearRemoved(s: ModState, root: NodeId, keypath: Path)
    requires Rooted(s, root) && Reached(s, root, keypath)
    ensures SetDeep(s.heap, Ref(root), keypath, Absent).Some?
    ensures var h := SetDeep(s.heap, Ref(root), keypath, Absent).value.0;
      var removed := Get(s.heap, Ref(root), keypath);
      && SetDeep(s.heap, Ref(root), keypath, Absent).value.1 == removed
      && Closed(h)
      && Clear(s, root, keypath) == ModState(h, s.changes + Rebase(keypath, RemovalChanges(h, removed)))
      && forall q :: Get(h, removed, q) == Get(s.heap, removed, q)
  {
    SetDeepMeaning(s.heap, Ref(root), keypath, Absent);
    SetDeepClosed(s.heap, Ref(root), keypath, Absent);
    var holder := Holder(s.heap, Ref(root), keypath);
    var h := SetDeep(s.heap, Ref(root), keypath, Absent).value.0;
    var removed := Get(s.heap, Ref(root), keypath);
    var n := |keypath|;
    GetLast(s.heap, Ref(root), keypath);
    assert ValueIn(s.heap, removed) && (removed.Ref? ==> holder.id + 1 <= removed.id) by {
      if removed.Ref? {
        assert keypath[n - 1] in s.heap.nodes[holder.id].fields;
      }
    }
    forall q ensures Get(h, removed, q) == Get(s.heap, removed, q) {
      GetFrame(s.heap, h, removed, holder.id + 1, q);
    }
  }

  /** After the removal step the keypath holds nothing. */
  lemma ClearLands(s: ModState, root: NodeId, keypath: Path)
    requires Rooted(s, root) && Reached(s, root, keypath)
    ensures Get(Clear(s, root, keypath).heap, Ref(root), keypath) == Absent
  {
    SetDeepMeaning(s.heap, Ref(root), keypath, Absent);
    SetDeepLands(s.heap, Ref(root), keypath, Absent);
  }

  /** The entries the removal step appends to the log. */
  lemma ClearAdded(s: ModState, root: NodeId, keypath: Path)
    requires Rooted(s, root)
    ensures Reached(s, root, keypath) ==> SetDeep(s.heap, Ref(root), keypath, Absent).Some?
    ensures var added := Clear(s, root, keypath).changes[|s.changes|..];
      && (!Reached(s, root, keypath) ==> added == [])
      && (Reached(s, root, keypath) ==>
            var h := SetDeep(s.heap, Ref(root), keypath, Absent).value.0;
            added == Rebase(keypath, RemovalChanges(h, Get(s.heap, Ref(root), keypath))))
  {
    if Reached(s, root, keypath) {
      ClearRemoved(s, root, keypath);
      var h := SetDeep(s.heap, Ref(root), keypath, Absent).value.0;
      SliceAfter(s.changes, Rebase(keypath, RemovalChanges(h, Get(s.heap, Ref(root), keypath))));
    } else {
      SetDeepMeaning(s.heap, Ref(root), keypath, Absent);
    }
  }

  /**
   * The removal step logs nothing when the keypath cannot be reached or
   * holds nothing; otherwise it ends with the removal of the keypath's own
   * value.
   */
  lemma ClearLog(s: ModState, root: NodeId, keypath: Path)
    requires Rooted(s, root)
    ensures var added := Clear(s, root, keypath).changes[|s.changes|..];
      var removed := Get(s.heap, Ref(root), keypath);
      && (added == [] <==> !Reached(s, root, keypath) || removed == Absent)
      && (added != [] ==> added[|added| - 1] == Change(keypath, removed, Absent, false))
  {
    ClearAdded(s, root, keypath);
    if Reached(s, root, keypath) {
      var h := SetDeep(s.heap, Ref(root), keypath, Absent).value.0;
      var rc := RemovalChanges(h, Get(s.heap, Ref(root), keypath));
      if rc != [] {
        RebaseLast(keypath, Get(s.heap, Ref(root), keypath), rc);
      }
    }
  }

  lemma RebaseLast(keypath: Path, removed: Value, rc: seq<Change>)
    requires rc != [] && rc[|rc| - 1] == Change([], removed, Absent, false)
    ensures Rebase(keypath, rc)[|rc| - 1] == Change(keypath, removed, Absent, false)
  {
    assert keypath + [] == keypath;
  }

  /**
   * Every entry of the removal step removes a value the old tree held at
   * the entry's keypath, at or below the keypath written.
   */
  lemma ClearSound(s: ModState, root: NodeId, keypath: Path)
    requires Rooted(s, root)
    ensures forall c :: c in Clear(s, root, keypath).changes[|s.changes|..] ==>
      && c.newVal == Absent && !c.seen && c.oldVal != Absent
      && c.oldVal == Get(s.heap, Ref(root), c.keypath)
      && c.keypath[..|keypath|] == keypath
  {
    ClearAdded(s, root, keypath);
    if Reached(s, root, keypath) {
      ClearRemoved(s, root, keypath);
      var h := SetDeep(s.heap, Ref(root), keypath, Absent).value.0;
      var removed := Get(s.heap, Ref(root), keypath);
      RemovalSound(h, removed);
      RebaseSound(s.heap, h, Ref(root), keypath, RemovalChanges(h, removed));
    }
  }

  lemma SliceAfter<T>(a: seq<T>, b: seq<T>)
    ensures (a + b)[|a|..] == b
  {
  }

  /**
   * Removal changes computed in `h` for the value at `keypath`, whose
   * subtree reads the same in `h0`, describe `h0` once rebased.
   */
  lemma RebaseSound(h0: Heap, h: Heap, root: Value, keypath: Path, rc: seq<Change>)
    requires var removed := Get(h0, root, keypath);
      && (forall q :: Get(h, removed, q) == Get(h0, removed, q))
      && forall c :: c in rc ==> c.newVal == Absent && !c.seen && c.oldVal != Absent && c.oldVal == Get(h, removed, c.keypath)
    ensures forall c :: c in Rebase(keypath, rc) ==>
      && c.newVal == Absent && !c.seen && c.oldVal != Absent
      && c.oldVal == Get(h0, root, c.keypath)
      && c.keypath[..|keypath|] == keypath
  {
    var added := Rebase(keypath, rc);
    forall c | c in added
      ensures && c.newVal == Absent && !c.seen && c.oldVal != Absent
              && c.oldVal == Get(h0, root, c.keypath)
              && c.keypath[..|keypath|] == keypath
    {
      var i :| 0 <= i < |added| && added[i] == c;
      assert rc[i] in rc;
      GetConcat(h0, root, keypath, rc[i].keypath);
      assert c.keypath[..|keypath|] == keypath;
    }
  }

  /** The removal step lists every value of the removed subtree, children before parents. */
  lemma ClearCovers(s: ModState, root: NodeId, keypath: Path, q: Path)
    requires Rooted(s, root) && Reached(s, root, keypath)
    requires Get(s.heap, Ref(root), keypath + q) != Absent
    ensures var added := Clear(s, root, keypath).changes[|s.changes|..];
      exists c :: c in added && c.keypath == keypath + q
  {
    ClearAdded(s, root, keypath);
    ClearRemoved(s, root, keypath);
    var h := SetDeep(s.heap, Ref(root), keypath, Absent).value.0;
    var removed := Get(s.heap, Ref(root), keypath);
    GetConcat(s.heap, Ref(root), keypath, q);
    assert Get(h, removed, q) != Absent;
    RemovalCovers(h, removed, q);
    var rc := RemovalChanges(h, removed);
    var c :| c in rc && c.keypath == q;
    var i :| 0 <= i < |rc| && rc[i] == c;
    var added := Clear(s, root, keypath).changes[|s.changes|..];
    assert added[i] == Rebase(keypath, rc)[i];
    assert added[i] in added && added[i].keypath == keypath + q;
  }

  lemma ClearDescendantsFirst(s: ModState, root: NodeId, keypath: Path)
    requires Rooted(s, root)
    ensures DescendantsFirst(Clear(s, root, keypath).changes[|s.changes|..])
  {
    var added := Clear(s, root, keypath).changes[|s.changes|..];
    if Reached(s, root, keypath) {
      ClearRemoved(s, root, keypath);
      var h := SetDeep(s.heap, Ref(root), keypath, Absent).value.0;
      var removed := Get(s.heap, Ref(root), keypath);
      RemovalDescendantsFirst(h, removed);
      DescendantsFirstRebase(keypath, RemovalChanges(h, removed));
      assert added == Rebase(keypath, RemovalChanges(h, removed));
    } else {
      SetDeepMeaning(s.heap, Ref(root), keypath, Absent);
      assert added == [];
    }
  }

  // ---------------------------------------------------------------------------
  // The write step of `set`

  /** Placing a value and writing it where the holder is a container stores it there. */
  lemma PlaceLands(h1: Heap, root: NodeId, keypath: Path, v: Json)
    requires Closed(h1) && root in h1.nodes && keypath != [] && !IsComposite(v)
    requires IsContainer(h1, Get(h1, Ref(root), keypath[..|keypath| - 1]))
    ensures var (h2, val) := Place(h1, v);
      && SetDeep(h2, Ref(root), keypath, val).Some?
      && Get(SetDeep(h2, Ref(root), keypath, val).value.0, Ref(root), keypath) == val
  {
    var (h2, val) := Place(h1, v);
    PlaceClosed(h1, root, keypath, v);
    var holder := Get(h1, Ref(root), keypath[..|keypath| - 1]);
    if val.Ref? {
      GetAlloc(h1, v.JArr?, Ref(root), keypath[..|keypath| - 1]);
    }
    assert Holder(h2, Ref(root), keypath) == holder && IsContainer(h2, holder);
    SetDeepMeaning(h2, Ref(root), keypath, val);
    SetDeepLands(h2, Ref(root), keypath, val);
  }

  /** The leaf write stores the placed value at the keypath. */
  lemma PutLeafGet(s: ModState, root: NodeId, keypath: Path, v: Json)
    requires Wrapped(s.heap, root) && keypath != [] && !IsComposite(v)
    ensures var h1 := Ensure(s.heap, Ref(root), keypath).0;
      var (h2, val) := Place(h1, v);
      && Closed(h1)
      && SetDeep(h2, Ref(root), keypath, val).Some?
      && PutLeaf(s, root, keypath, v).heap == SetDeep(h2, Ref(root), keypath, val).value.0
      && Get(PutLeaf(s, root, keypath, v).heap, Ref(root), keypath) == val
  {
    var h1 := Ensure(s.heap, Ref(root), keypath).0;
    EnsureValid(s.heap, Ref(root), keypath, root);
    EnsureReaches(s.heap, Ref(root), keypath);
    AllContainersMeaning(h1, Ref(root), keypath);
    PlaceLands(h1, root, keypath, v);
  }

  /** After the leaf write the keypath holds the value given (an empty container as a new one). */
  lemma PutLeafLands(s: ModState, root: NodeId, keypath: Path, v: Json)
    requires Wrapped(s.heap, root) && keypath != [] && !IsComposite(v)
    ensures var r := PutLeaf(s, root, keypath, v);
      Closed(r.heap) && Resolve(r.heap, Get(r.heap, Ref(root), keypath)) == v
  {
    PutLeafGet(s, root, keypath, v);
    var h1 := Ensure(s.heap, Ref(root), keypath).0;
    var (h2, val) := Place(h1, v);
    var h3 := PutLeaf(s, root, keypath, v).heap;
    if val.Ref? {
      SetDeepMeaning(h2, Ref(root), keypath, val);
      var holder := Holder(h2, Ref(root), keypath);
      GetAlloc(h1, v.JArr?, Ref(root), keypath[..|keypath| - 1]);
      assert holder.id in h1.nodes;
      assert h3.nodes[val.id] == EmptyNode(v.JArr?);
      ResolveEmpty(h3, val.id, v.JArr?);
    }
  }

  /**
   * The entries the leaf write logs: one per created level, outermost
   * first, each with the container created, the first with the value it
   * replaced and the rest with `undefined`; then the write itself, from
   * `undefined` to what the keypath now holds.
   */
  lemma PutLeafLog(s: ModState, root: NodeId, keypath: Path, v: Json)
    requires Wrapped(s.heap, root) && keypath != [] && !IsComposite(v)
    ensures var r := PutLeaf(s, root, keypath, v);
      var m := Kept(s.heap, Ref(root), keypath);
      var added := r.changes[|s.changes|..];
      && |added| == |keypath| - m + 1
      && (forall j :: 0 <= j < |keypath| - m ==>
            && added[j].keypath == keypath[..m + j] && !added[j].seen
            && added[j].oldVal == (if j == 0 then Replaced(s.heap, Ref(root), keypath) else Absent)
            && added[j].newVal.Ref? && added[j].newVal.id >= s.heap.next)
      && added[|keypath| - m] == Change(keypath, Absent, Get(r.heap, Ref(root), keypath), false)
  {
    var m := Kept(s.heap, Ref(root), keypath);
    var r := PutLeaf(s, root, keypath, v);
    var last := Change(keypath, Absent, Get(r.heap, Ref(root), keypath), false);
    var cs := Creations(Report(keypath, m, Replaced(s.heap, Ref(root), keypath), s.heap.next)) + [last];
    PutLeafAdded(s, root, keypath, v);
    CreationsOfReport(keypath, m, Replaced(s.heap, Ref(root), keypath), s.heap.next, last);
    var added := r.changes[|s.changes|..];
    forall j | 0 <= j < |keypath| - m
      ensures && added[j].keypath == keypath[..m + j] && !added[j].seen
              && added[j].oldVal == (if j == 0 then Replaced(s.heap, Ref(root), keypath) else Absent)
              && added[j].newVal.Ref? && added[j].newVal.id >= s.heap.next
    {
      assert added[j] == cs[j];
    }
  }

  /** The entries the leaf write appends, as `ensurePath` reports the levels it created. */
  lemma PutLeafAdded(s: ModState, root: NodeId, keypath: Path, v: Json)
    requires Wrapped(s.heap, root) && keypath != [] && !IsComposite(v)
    ensures var r := PutLeaf(s, root, keypath, v);
      r.changes[|s.changes|..] ==
        Creations(Report(keypath, Kept(s.heap, Ref(root), keypath), Replaced(s.heap, Ref(root), keypath), s.heap.next))
        + [Change(keypath, Absent, Get(r.heap, Ref(root), keypath), false)]
  {
    var (h1, ps) := Ensure(s.heap, Ref(root), keypath);
    var last := Change(keypath, Absent, Place(h1, v).1, false);
    PutLeafChanges(s, root, keypath, v);
    SliceAfter(s.changes, Creations(ps) + [last]);
    EnsureReport(s.heap, Ref(root), keypath);
    PutLeafGet(s, root, keypath, v);
  }

  lemma PutLeafChanges(s: ModState, root: NodeId, keypath: Path, v: Json)
    requires Rooted(s, root) && keypath != [] && !IsComposite(v)
    ensures var (h1, ps) := Ensure(s.heap, Ref(root), keypath);
      PutLeaf(s, root, keypath, v).changes ==
        s.changes + (Creations(ps) + [Change(keypath, Absent, Place(h1, v).1, false)])
  {
  }

  lemma CreationsOfReport(path: Path, m: nat, replaced: Value, base: NodeId, last: Change)
    requires 1 <= m <= |path|
    ensures var cs := Creations(Report(path, m, replaced, base)) + [last];
      && |cs| == |path| - m + 1 && cs[|path| - m] == last
      && forall j :: 0 <= j < |path| - m ==>
           && cs[j].keypath == path[..m + j] && !cs[j].seen
           && cs[j].oldVal == (if j == 0 then replaced else Absent)
           && cs[j].newVal == Ref(base + j)
  {
  }

  // ---------------------------------------------------------------------------
  // `set`, `push` and `pop`

  /** `set` of a value written whole leaves that value at the keypath. */
  lemma SetLeafLands(s: ModState, root: NodeId, keypath: Path, v: Json)
    requires Wrapped(s.heap, root) && keypath != [] && !IsComposite(v)
    ensures var r := AfterSet(s, root, keypath, v);
      Closed(r.heap) && Resolve(r.heap, Get(r.heap, Ref(root), keypath)) == v
  {
    ClearValid(s, root, keypath);
    PutLeafLands(Clear(s, root, keypath), root, keypath, v);
  }

  /** After `remove(keypath)` the keypath holds nothing. */
  lemma RemoveLands(s: ModState, root: NodeId, keypath: Path)
    requires Wrapped(s.heap, root) && keypath != []
    ensures var r := AfterSet(s, root, keypath, Undef);
      Closed(r.heap) && Get(r.heap, Ref(root), keypath) == Absent
  {
    ClearValid(s, root, keypath);
    var c := Clear(s, root, keypath);
    PutLeafGet(c, root, keypath, Undef);
    PutLeafLands(c, root, keypath, Undef);
  }

  /** `set(keypath, undefined)` always ends the log with an `undefined` to `undefined` entry at the keypath. */
  lemma RemoveEndsLog(s: ModState, root: NodeId, keypath: Path)
    requires Rooted(s, root) && keypath != []
    ensures var r := AfterSet(s, root, keypath, Undef);
      r.changes != [] && r.changes[|r.changes| - 1] == Change(keypath, Absent, Absent, false)
  {
    var c := Clear(s, root, keypath);
    var h1 := Ensure(c.heap, Ref(root), keypath).0;
    assert Place(h1, Undef).1 == Absent;
  }

  /**
   * `push` of one value written whole onto an array: it succeeds, the array
   * is what the keypath holds, and the value lands at the index equal to
   * the array's old length.
   */
  lemma PushLands(s: ModState, root: NodeId, keypath: Path, v: Json)
    requires Wrapped(s.heap, root) && !IsComposite(v)
    requires IsArrayIn(s.heap, Walk(s.heap, Ref(root), keypath))
    ensures var a := Get(s.heap, Ref(root), keypath);
      var r := AfterPush(s, root, keypath, [v]);
      && a == Walk(s.heap, Ref(root), keypath) && IsArrayIn(s.heap, a)
      && r.1 && Closed(r.0.heap)
      && Resolve(r.0.heap, Get(r.0.heap, Ref(root), keypath + [Index(s.heap.nodes[a.id].length)])) == v
  {
    WalkGet(s.heap, Ref(root), keypath);
    var a := Get(s.heap, Ref(root), keypath);
    var kp := keypath + [Index(s.heap.nodes[a.id].length)];
    assert [v][1..] == [];
    SetLeafLands(s, root, kp, v);
  }

  /** `pop` of an array: it succeeds and the array's last index holds nothing afterwards. */
  lemma PopLands(s: ModState, root: NodeId, keypath: Path)
    requires Wrapped(s.heap, root)
    requires IsArrayIn(s.heap, Walk(s.heap, Ref(root), keypath))
    ensures var a := Get(s.heap, Ref(root), keypath);
      var r := AfterPop(s, root, keypath);
      && a == Walk(s.heap, Ref(root), keypath)
      && r.Some? && Closed(r.value.heap)
      && Get(r.value.heap, Ref(root), keypath + [Index(LastIndex(s.heap.nodes[a.id]))]) == Absent
  {
    WalkGet(s.heap, Ref(root), keypath);
    var a := Get(s.heap, Ref(root), keypath);
    var kp := keypath + [Index(LastIndex(s.heap.nodes[a.id]))];
    RemoveLands(s, root, kp);
  }
}
