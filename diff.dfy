/**
 * `diff(base, target)` (src/utils/diff.js): replay the differences between
 * a copy of `base` and `target` through an ObjectModifier, compact and
 * compress its log, and turn each remaining change into a patch entry.
 */
module Diffs {
  import opened Values
  import opened Heaps
  import opened ChangeLogs
  import opened Modifiers

  /**
   * One patch entry: a keypath, an operation code and its arguments. The
   * code `"a"` (add) carries the new value, `"d"` (delete) the old value and
   * `"u"` (update) the old and then the new value.
   */
  datatype PatchEntry = PatchEntry(path: Path, op: string, args: seq<Json>)

  // ---------------------------------------------------------------------------
  // Key enumeration

  /** lodash `keys(v)` for a value of the tree: none for a non-container. */
  function Keys(h: Heap, v: Value): (ks: seq<Key>)
    ensures IsContainer(h, v) ==> ks == NodeKeys(h.nodes[v.id])
    ensures !IsContainer(h, v) ==> ks == []
  {
    if IsContainer(h, v) then NodeKeys(h.nodes[v.id]) else []
  }

  /** `v[k]` for a value of the tree. */
  function Child(h: Heap, v: Value, k: Key): Value
  {
    if IsContainer(h, v) then Lookup(h.nodes[v.id], k) else Absent
  }

  /** lodash `intersection(a, b)`: the keys of `a` that `b` has, in the order of `a`. */
  function Common(a: seq<Key>, b: seq<Key>): (r: seq<Key>)
    ensures |r| <= |a|
    ensures forall k :: k in r <==> k in a && k in b
  {
    if a == [] then []
    else (if a[0] in b then [a[0]] else []) + Common(a[1..], b)
  }

  /** lodash `difference(a, b)`: the keys of `a` that `b` lacks, in the order of `a`. */
  function Minus(a: seq<Key>, b: seq<Key>): (r: seq<Key>)
    ensures |r| <= |a|
    ensures forall k :: k in r <==> k in a && k !in b
  {
    if a == [] then []
    else (if a[0] in b then [] else [a[0]]) + Minus(a[1..], b)
  }

  // ---------------------------------------------------------------------------
  // `_diff` (src/utils/diff.js:55-72) on the modifier's state

  /**
   * `_diff(path, o1, o2, modifier)`: `o1` is the value of the copy at `path`
   * (a live object whose contents change as the keys below it are written)
   * and `o2` the target's value there. A target that is not a container is
   * written whole. Otherwise the shared keys are compared (a key whose
   * value in the copy is not a container is first overwritten with the
   * target's value), then the keys only the copy has are removed, then the
   * keys only the target has are written. The key lists of the copy are
   * read afresh at each of the three stages.
   */
  function DiffAt(s: ModState, root: NodeId, path: Path, o1: Value, o2: Json): (r: ModState)
    requires Rooted(s, root) && (path != [] || IsContainerJson(o2))
    ensures Rooted(r, root) && s.changes <= r.changes
    decreases IsContainerJson(o2), o2, 2
  {
    if !IsContainerJson(o2) then AfterSet(s, root, path, o2)
    else
      var s1 := DiffCommon(s, root, path, o1, o2, Common(Keys(s.heap, o1), JsonKeys(o2)));
      var s2 := RemoveKeys(s1, root, path, Minus(Keys(s1.heap, o1), JsonKeys(o2)));
      SetMissing(s2, root, path, o2, Minus(JsonKeys(o2), Keys(s2.heap, o1)))
  }

  /** The first stage of `_diff`, over the shared keys `ks`. */
  function DiffCommon(s: ModState, root: NodeId, path: Path, o1: Value, o2: Json, ks: seq<Key>): (r: ModState)
    requires Rooted(s, root) && IsContainerJson(o2)
    ensures Rooted(r, root) && s.changes <= r.changes
    decreases true, o2, 1, |ks|
  {
    if ks == [] then s
    else DiffCommon(DiffKey(s, root, path, o1, o2, ks[0]), root, path, o1, o2, ks[1..])
  }

  /** One shared key: overwrite a non-container, then compare the two values. */
  function DiffKey(s: ModState, root: NodeId, path: Path, o1: Value, o2: Json, k: Key): (r: ModState)
    requires Rooted(s, root) && IsContainerJson(o2)
    ensures Rooted(r, root) && s.changes <= r.changes
    decreases true, o2, 0, 0
  {
    var c2 := JsonChild(o2, k);
    var s1 := if IsContainer(s.heap, Child(s.heap, o1, k)) then s else AfterSet(s, root, path + [k], c2);
    DiffAt(s1, root, path + [k], Child(s1.heap, o1, k), c2)
  }

  /** The second stage of `_diff`: `remove(path.concat([k]))` for each of `ks`. */
  function RemoveKeys(s: ModState, root: NodeId, path: Path, ks: seq<Key>): (r: ModState)
    requires Rooted(s, root)
    ensures Rooted(r, root) && s.changes <= r.changes
    decreases |ks|
  {
    if ks == [] then s
    else RemoveKeys(AfterSet(s, root, path + [ks[0]], Undef), root, path, ks[1..])
  }

  /** The third stage of `_diff`: `set(path.concat([k]), o2[k])` for each of `ks`. */
  function SetMissing(s: ModState, root: NodeId, path: Path, o2: Json, ks: seq<Key>): (r: ModState)
    requires Rooted(s, root)
    ensures Rooted(r, root) && s.changes <= r.changes
    decreases |ks|
  {
    if ks == [] then s
    else SetMissing(AfterSet(s, root, path + [ks[0]], JsonChild(o2, ks[0])), root, path, o2, ks[1..])
  }

  lemma DiffCommonStep(s: ModState, root: NodeId, path: Path, o1: Value, o2: Json, ks: seq<Key>, i: nat)
    requires Rooted(s, root) && IsContainerJson(o2) && i < |ks|
    ensures DiffCommon(s, root, path, o1, o2, ks[i..]) ==
      DiffCommon(DiffKey(s, root, path, o1, o2, ks[i]), root, path, o1, o2, ks[i + 1..])
  {
    assert ks[i..][1..] == ks[i + 1..];
  }

  lemma RemoveKeysStep(s: ModState, root: NodeId, path: Path, ks: seq<Key>, i: nat)
    requires Rooted(s, root) && i < |ks|
    ensures RemoveKeys(s, root, path, ks[i..]) ==
      RemoveKeys(AfterSet(s, root, path + [ks[i]], Undef), root, path, ks[i + 1..])
  {
    assert ks[i..][1..] == ks[i + 1..];
  }

  lemma SetMissingStep(s: ModState, root: NodeId, path: Path, o2: Json, ks: seq<Key>, i: nat)
    requires Rooted(s, root) && i < |ks|
    ensures SetMissing(s, root, path, o2, ks[i..]) ==
      SetMissing(AfterSet(s, root, path + [ks[i]], JsonChild(o2, ks[i])), root, path, o2, ks[i + 1..])
  {
    assert ks[i..][1..] == ks[i + 1..];
  }

  // ---------------------------------------------------------------------------
  // Patch entries (src/utils/diff.js:38-48)

  /**
   * The entry for one change passed to the `forEachChange` callback: `"a"`
   * when the old value is `undefined`, else `"d"` when the new value is,
   * else `"u"`; the old value follows unless it is `undefined`, then the new
   * value unless it is. A container is given by its snapshot in `h`, the
   * heap once the whole diff is done.
   */
  function Encode(h: Heap, keypath: Path, newVal: Value, oldVal: Value): PatchEntry
    requires Closed(h)
  {
    var uold := oldVal == Absent;
    var unew := newVal == Absent;
    PatchEntry(keypath, if uold then "a" else if unew then "d" else "u",
      (if uold then [] else [Resolve(h, oldVal)]) + (if unew then [] else [Resolve(h, newVal)]))
  }

  /** The entries for a log, one per change, in log order. */
  function Translate(h: Heap, cs: seq<Change>): (es: seq<PatchEntry>)
    requires Closed(h)
    ensures |es| == |cs|
    ensures forall i :: 0 <= i < |cs| ==> es[i] == Encode(h, cs[i].keypath, cs[i].newVal, cs[i].oldVal)
  {
    seq(|cs|, i requires 0 <= i < |cs| => Encode(h, cs[i].keypath, cs[i].newVal, cs[i].oldVal))
  }

  /**
   * The result of `diff(base, target)` for a tree `base` held in `h` at
   * `root`; `None` where it throws: a target that is not a container is
   * written at the empty keypath, which `set` refuses.
   */
  function DiffOf(h: Heap, root: NodeId, target: Json): (r: Option<seq<PatchEntry>>)
    requires Closed(h) && root in h.nodes
    ensures r.Some? <==> IsContainerJson(target)
  {
    if !IsContainerJson(target) then None
    else
      Some(Encoded(DiffAt(ModState(CloneHeap(h), []), root, [], Ref(root), target)))
  }

  /** The patch a modifier's log becomes: compacted, compressed, then translated change by change. */
  function Encoded(s: ModState): (es: seq<PatchEntry>)
    requires Closed(s.heap)
  {
    Translate(s.heap, CompressLog(CompactLog(s.changes)))
  }

  /**
   * After compression no two entries of a patch are at the same keypath,
   * nor is one entry's keypath below another's, so the entries of a patch
   * touch disjoint parts of the tree.
   */
  lemma EncodedAntichain(s: ModState)
    requires Closed(s.heap)
    ensures var es := Encoded(s);
      forall i, j :: 0 <= i < |es| && 0 <= j < |es| && i != j ==>
        es[i].path != es[j].path && !Below(es[i].path, es[j].path)
  {
    CompressLogAntichain(CompactLog(s.changes));
  }

  /** The entries of `diff(base, target)` touch disjoint parts of the tree. */
  lemma DiffOfAntichain(h: Heap, root: NodeId, target: Json)
    requires Closed(h) && root in h.nodes && IsContainerJson(target)
    ensures var es := DiffOf(h, root, target).value;
      forall i, j :: 0 <= i < |es| && 0 <= j < |es| && i != j ==>
        es[i].path != es[j].path && !Below(es[i].path, es[j].path)
  {
    EncodedAntichain(DiffAt(ModState(CloneHeap(h), []), root, [], Ref(root), target));
  }

  // ---------------------------------------------------------------------------
  // The code

  /** `_diff(path, o1, o2, modifier)`. */
  method DiffRec(m: ObjectModifier, path: Path, o1: Value, o2: Json)
    requires m.Valid() && (path != [] || IsContainerJson(o2))
    modifies m, m.tree
    ensures m.Valid() && m.State() == DiffAt(old(m.State()), m.tree.root, path, o1, o2)
    decreases IsContainerJson(o2), o2, 2
  {
    if !IsContainerJson(o2) {
      var _ := m.Set(path, o2);
      return;
    }
    DiffCommonAt(m, path, o1, o2, Common(Keys(m.tree.heap, o1), JsonKeys(o2)));
    RemoveKeysAt(m, path, Minus(Keys(m.tree.heap, o1), JsonKeys(o2)));
    SetMissingAt(m, path, o2, Minus(JsonKeys(o2), Keys(m.tree.heap, o1)));
  }

  /** The first `forEach` of `_diff`, over the shared keys `ks`. */
  method DiffCommonAt(m: ObjectModifier, path: Path, o1: Value, o2: Json, ks: seq<Key>)
    requires m.Valid() && IsContainerJson(o2)
    modifies m, m.tree
    ensures m.Valid() && m.State() == DiffCommon(old(m.State()), m.tree.root, path, o1, o2, ks)
    decreases true, o2, 1, |ks|
  {
    ghost var s0 := m.State();
    var i := 0;
    while i < |ks|
      invariant 0 <= i <= |ks| && m.Valid()
      invariant DiffCommon(m.State(), m.tree.root, path, o1, o2, ks[i..]) == DiffCommon(s0, m.tree.root, path, o1, o2, ks)
    {
      ghost var before := m.State();
      DiffKeyAt(m, path, o1, o2, ks[i]);
      DiffCommonStep(before, m.tree.root, path, o1, o2, ks, i);
      i := i + 1;
    }
  }

  /** The body of the first `forEach` of `_diff`, for the key `k`. */
  method DiffKeyAt(m: ObjectModifier, path: Path, o1: Value, o2: Json, k: Key)
    requires m.Valid() && IsContainerJson(o2)
    modifies m, m.tree
    ensures m.Valid() && m.State() == DiffKey(old(m.State()), m.tree.root, path, o1, o2, k)
    decreases true, o2, 0, 0
  {
    var c2 := JsonChild(o2, k);
    if !IsContainer(m.tree.heap, Child(m.tree.heap, o1, k)) {
      var _ := m.Set(path + [k], c2);
    }
    DiffRec(m, path + [k], Child(m.tree.heap, o1, k), c2);
  }

  /** The second `forEach` of `_diff`: remove each of `ks` below `path`. */
  method RemoveKeysAt(m: ObjectModifier, path: Path, ks: seq<Key>)
    requires m.Valid()
    modifies m, m.tree
    ensures m.Valid() && m.State() == RemoveKeys(old(m.State()), m.tree.root, path, ks)
  {
    ghost var s0 := m.State();
    var i := 0;
    while i < |ks|
      invariant 0 <= i <= |ks| && m.Valid()
      invariant RemoveKeys(m.State(), m.tree.root, path, ks[i..]) == RemoveKeys(s0, m.tree.root, path, ks)
    {
      ghost var before := m.State();
      var _ := m.Remove(path + [ks[i]]);
      RemoveKeysStep(before, m.tree.root, path, ks, i);
      i := i + 1;
    }
  }

  /** The third `forEach` of `_diff`: write the target's value for each of `ks`. */
  method SetMissingAt(m: ObjectModifier, path: Path, o2: Json, ks: seq<Key>)
    requires m.Valid()
    modifies m, m.tree
    ensures m.Valid() && m.State() == SetMissing(old(m.State()), m.tree.root, path, o2, ks)
  {
    ghost var s0 := m.State();
    var i := 0;
    while i < |ks|
      invariant 0 <= i <= |ks| && m.Valid()
      invariant SetMissing(m.State(), m.tree.root, path, o2, ks[i..]) == SetMissing(s0, m.tree.root, path, o2, ks)
    {
      ghost var before := m.State();
      var _ := m.Set(path + [ks[i]], JsonChild(o2, ks[i]));
      SetMissingStep(before, m.tree.root, path, o2, ks, i);
      i := i + 1;
    }
  }

  /** The `forEachChange` callback of `diff`: one entry per call, in order. */
  method EncodeAll(h: Heap, notices: seq<Notice>) returns (es: seq<PatchEntry>)
    requires Closed(h)
    ensures |es| == |notices|
    ensures forall j :: 0 <= j < |es| ==> es[j] == Encode(h, notices[j].keypath, notices[j].newVal, notices[j].oldVal)
  {
    es := [];
    for i := 0 to |notices|
      invariant |es| == i
      invariant forall j :: 0 <= j < i ==> es[j] == Encode(h, notices[j].keypath, notices[j].newVal, notices[j].oldVal)
    {
      es := es + [Encode(h, notices[i].keypath, notices[i].newVal, notices[i].oldVal)];
    }
  }

  lemma EncodeNotices(h: Heap, cs: seq<Change>, notices: seq<Notice>, es: seq<PatchEntry>)
    requires Closed(h) && |notices| == |cs| && |es| == |cs|
    requires forall j :: 0 <= j < |cs| ==> notices[j] == NoticeOf(cs[j], cs[j].seen)
    requires forall j :: 0 <= j < |es| ==> es[j] == Encode(h, notices[j].keypath, notices[j].newVal, notices[j].oldVal)
    ensures es == Translate(h, cs)
  {
  }

  /**
   * `diff(base, target)`. It works on a copy of `base`, so `base` is left as
   * it was; `None` where JavaScript throws.
   */
  method Diff(base: Tree, target: Json) returns (r: Option<seq<PatchEntry>>)
    requires base.Valid()
    ensures r == DiffOf(base.heap, base.root, target)
  {
    if !IsContainerJson(target) {
      return None;
    }
    var es := DiffEntries(base, target);
    r := Some(es);
  }

  /** `diff` on a container target: walk a copy of `base` towards `target`, then encode the log. */
  method DiffEntries(base: Tree, target: Json) returns (es: seq<PatchEntry>)
    requires base.Valid() && IsContainerJson(target)
    ensures es == Encoded(DiffAt(ModState(CloneHeap(base.heap), []), base.root, [], Ref(base.root), target))
  {
    var m := DiffState(base, target);
    es := EncodeLog(m, m.State());
  }

  /** The first part of `diff`: a modifier over a deep copy of `base`, walked towards `target`. */
  method DiffState(base: Tree, target: Json) returns (m: ObjectModifier)
    requires base.Valid() && IsContainerJson(target)
    ensures fresh(m) && fresh(m.tree) && m.Valid()
    ensures m.State() == DiffAt(ModState(CloneHeap(base.heap), []), base.root, [], Ref(base.root), target)
  {
    var copy := new Tree.Copy(base);
    m := new ObjectModifier(copy);
    DiffRec(m, [], Ref(copy.root), target);
  }

  /**
   * The end of `diff`: the log compacted and compressed, then one patch
   * entry per change, in order, encoded against the tree as it now is.
   */
  method EncodeLog(m: ObjectModifier, ghost s: ModState) returns (es: seq<PatchEntry>)
    requires m.Valid() && m.State() == s
    modifies m
    ensures es == Encoded(s)
  {
    m.Compact();
    m.Compress();
    ghost var cs := m.changes;
    var notices := m.ForEachChange();
    es := EncodeAll(m.tree.heap, notices);
    EncodeNotices(m.tree.heap, cs, notices, es);
  }
}
