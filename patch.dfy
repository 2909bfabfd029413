/**
 * `patch(target, diff, strict)` (src/utils/patch.js): apply patch entries to
 * a tree through an ObjectModifier, checking each entry's expected old
 * value first in strict mode.
 */
module Patches {
  import opened Values
  import opened Heaps
  import opened ChangeLogs
  import opened Modifiers
  import opened Diffs
  import ModifierFacts
  import Landings

  /** `p[2 + i]`: a missing argument reads as `undefined`. */
  function Arg(e: PatchEntry, i: nat): Json
  {
    if i < |e.args| then e.args[i] else Undef
  }

  /**
   * The (expected old value, new value) pair an entry stands for;
   * `None` for an unknown operation code, where `_patchEntry` throws.
   */
  function Decode(e: PatchEntry): Option<(Json, Json)>
  {
    if e.op == "a" then Some((Undef, Arg(e, 0)))
    else if e.op == "u" then Some((Arg(e, 0), Arg(e, 1)))
    else if e.op == "d" then Some((Arg(e, 0), Undef))
    else None
  }

  /**
   * lodash `eq(actual, expected)`: primitives and `undefined` compare by
   * value, objects by identity. A container in a patch entry is never an
   * object of the tree being patched, so it matches nothing.
   */
  predicate Matches(actual: Value, expected: Json)
  {
    match expected
    case Undef => actual == Absent
    case JPrim(p) => actual == Prim(p)
    case _ => false
  }

  /**
   * `_patchEntry(o, m, strict, p)` on the modifier's state; `None` where it
   * throws, which it does before writing anything: an unknown code, a
   * strict check that fails, or a value written whole at the empty keypath.
   */
  function PatchStep(s: ModState, root: NodeId, e: PatchEntry, strict: bool): (r: Option<ModState>)
    requires Rooted(s, root)
    ensures r.Some? ==> Rooted(r.value, root) && s.changes <= r.value.changes
  {
    match Decode(e)
    case None => None
    case Some((expected, newVal)) =>
      if strict && !Matches(Get(s.heap, Ref(root), e.path), expected) then None
      else if e.path == [] && !IsComposite(newVal) then None
      else Some(AfterSet(s, root, e.path, newVal))
  }

  /**
   * The `forEach` of `patch`: the entries in order, up to the first one
   * that throws; the flag says whether all of them were applied.
   */
  function PatchRun(s: ModState, root: NodeId, es: seq<PatchEntry>, strict: bool): (r: (ModState, bool))
    requires Rooted(s, root)
    ensures Rooted(r.0, root) && s.changes <= r.0.changes
    decreases |es|
  {
    if es == [] then (s, true)
    else match PatchStep(s, root, es[0], strict)
      case None => (s, false)
      case Some(s1) => PatchRun(s1, root, es[1..], strict)
  }

  /**
   * `patch(target, es, strict)` for a target held in `h` at `root`: a fresh
   * modifier, the entries, then `compact`. When an entry throws the call
   * throws and the log is not compacted; the target keeps the writes of
   * the entries before it.
   */
  function PatchOf(h: Heap, root: NodeId, es: seq<PatchEntry>, strict: bool): (r: (ModState, bool))
    requires Closed(h) && root in h.nodes
  {
    var (s, ok) := PatchRun(ModState(h, []), root, es, strict);
    if ok then (ModState(s.heap, CompactLog(s.changes)), true) else (s, false)
  }

  // ---------------------------------------------------------------------------
  // Properties

  /** Decoding undoes the encoding `diff` uses: each entry asks for the change it was made from. */
  lemma DecodeEncode(h: Heap, keypath: Path, newVal: Value, oldVal: Value)
    requires Closed(h)
    ensures var e := Encode(h, keypath, newVal, oldVal);
      e.path == keypath && Decode(e) == Some((Resolve(h, oldVal), Resolve(h, newVal)))
  {
  }

  /**
   * The strict check on a value of the tree: it passes exactly when the
   * expected value is not a container and is the snapshot of what the
   * keypath holds.
   */
  lemma MatchesMeaning(h: Heap, actual: Value, expected: Json)
    requires Closed(h) && ValueIn(h, actual)
    ensures Matches(actual, expected) <==> !IsContainerJson(expected) && Resolve(h, actual) == expected
  {
    if actual.Ref? {
      assert Resolve(h, actual) == ResolveNode(h, actual.id);
    }
  }

  /** In strict mode an update or deletion whose old value is a container always throws. */
  lemma StrictContainerFails(s: ModState, root: NodeId, e: PatchEntry)
    requires Rooted(s, root) && (e.op == "u" || e.op == "d") && e.args != [] && IsContainerJson(e.args[0])
    ensures PatchStep(s, root, e, true).None?
  {
  }

  /**
   * In lenient mode an entry throws only for an unknown code or for a value
   * written whole at the empty keypath; a base mismatch never throws.
   */
  lemma LenientFailures(s: ModState, root: NodeId, e: PatchEntry)
    requires Rooted(s, root)
    ensures PatchStep(s, root, e, false).None? <==>
      Decode(e).None? || (e.path == [] && !IsComposite(Decode(e).value.1))
  {
  }

  /**
   * A lenient entry at a non-empty keypath leaves its new value there,
   * whether written whole or key by key, for every value `set` rebuilds
   * (`Landings.Landable`: every value written whole is one).
   */
  lemma LenientLands(s: ModState, root: NodeId, e: PatchEntry)
    requires Wrapped(s.heap, root) && Decode(e).Some? && e.path != [] && Landings.Landable(Decode(e).value.1)
    ensures var r := PatchStep(s, root, e, false);
      && r.Some? && Closed(r.value.heap)
      && Resolve(r.value.heap, Get(r.value.heap, Ref(root), e.path)) == Decode(e).value.1
  {
    Landings.SetLands(s, root, e.path, Decode(e).value.1);
  }

  /** The run threw at entry `i`, having applied the entries before it. */
  predicate Stopped(s: ModState, root: NodeId, es: seq<PatchEntry>, strict: bool, i: nat)
    requires Rooted(s, root) && i < |es|
  {
    var before := PatchRun(s, root, es[..i], strict);
    && before.1 && before.0 == PatchRun(s, root, es, strict).0
    && PatchStep(before.0, root, es[i], strict).None?
  }

  /**
   * A run that throws has applied every entry before the one that threw
   * and none after it.
   */
  lemma {:induction false} PatchRunStops(s: ModState, root: NodeId, es: seq<PatchEntry>, strict: bool)
    requires Rooted(s, root) && !PatchRun(s, root, es, strict).1
    ensures exists i :: 0 <= i < |es| && Stopped(s, root, es, strict, i)
    decreases |es|
  {
    match PatchStep(s, root, es[0], strict)
    case None =>
      assert es[..0] == [];
      assert Stopped(s, root, es, strict, 0);
    case Some(s1) =>
      PatchRunStops(s1, root, es[1..], strict);
      var i :| 0 <= i < |es[1..]| && Stopped(s1, root, es[1..], strict, i);
      PatchRunCons(s, root, es, strict, i);
      assert es[1..][i] == es[i + 1];
      assert Stopped(s, root, es, strict, i + 1);
  }

  /** A run of a prefix after a first entry that does not throw. */
  lemma PatchRunCons(s: ModState, root: NodeId, es: seq<PatchEntry>, strict: bool, i: nat)
    requires Rooted(s, root) && i < |es| - 1 && PatchStep(s, root, es[0], strict).Some?
    ensures PatchRun(s, root, es[..i + 1], strict) ==
      PatchRun(PatchStep(s, root, es[0], strict).value, root, es[1..][..i], strict)
  {
    assert es[..i + 1][0] == es[0] && es[..i + 1][1..] == es[1..][..i];
  }

  /** A run that does not throw applies every entry in turn. */
  lemma {:induction false} PatchRunAll(s: ModState, root: NodeId, es: seq<PatchEntry>, strict: bool)
    requires Rooted(s, root) && PatchRun(s, root, es, strict).1
    ensures forall i :: 0 <= i < |es| ==> PatchStep(PatchRun(s, root, es[..i], strict).0, root, es[i], strict).Some?
    decreases |es|
  {
    if es != [] {
      var s1 := PatchStep(s, root, es[0], strict).value;
      PatchRunAll(s1, root, es[1..], strict);
      forall i | 0 <= i < |es|
        ensures PatchStep(PatchRun(s, root, es[..i], strict).0, root, es[i], strict).Some?
      {
        if i == 0 {
          assert es[..0] == [];
        } else {
          PatchRunCons(s, root, es, strict, i - 1);
          assert es[1..][i - 1] == es[i];
        }
      }
    }
  }

  // ---------------------------------------------------------------------------
  // The code

  /** `_get(o, path)` (src/utils/patch.js:70-78). */
  method GetAt(t: Tree, path: Path) returns (v: Value)
    requires t.Valid()
    ensures v == Get(t.heap, Ref(t.root), path)
  {
    v := Ref(t.root);
    var i := 0;
    while i < |path|
      invariant 0 <= i <= |path|
      invariant Get(t.heap, v, path[i..]) == Get(t.heap, Ref(t.root), path)
    {
      assert path[i..][1..] == path[i + 1..];
      if !IsContainer(t.heap, v) {
        return Absent;
      }
      v := Lookup(t.heap.nodes[v.id], path[i]);
      i := i + 1;
    }
    assert path[i..] == [];
  }

  /** `_patchEntry(o, m, strict, e)`; `false` where it throws, and then nothing has changed. */
  method PatchEntryAt(m: ObjectModifier, strict: bool, e: PatchEntry) returns (ok: bool)
    requires m.Valid()
    modifies m, m.tree
    ensures m.Valid() && ok == PatchStep(old(m.State()), m.tree.root, e, strict).Some?
    ensures m.State() == if ok then PatchStep(old(m.State()), m.tree.root, e, strict).value else old(m.State())
  {
    var decoded := Decode(e);
    if decoded.None? {
      return false;
    }
    var (expected, newVal) := decoded.value;
    if strict {
      var actual := GetAt(m.tree, e.path);
      if !Matches(actual, expected) {
        return false;
      }
    }
    ok := m.Set(e.path, newVal);
  }

  /** The `forEach` of `patch`: stop at the first entry that throws. */
  method PatchEntries(m: ObjectModifier, es: seq<PatchEntry>, strict: bool) returns (ok: bool)
    requires m.Valid()
    modifies m, m.tree
    ensures m.Valid() && (m.State(), ok) == PatchRun(old(m.State()), m.tree.root, es, strict)
  {
    ghost var s0 := m.State();
    var i := 0;
    ok := true;
    while i < |es| && ok
      invariant 0 <= i <= |es| && m.Valid()
      invariant ok ==> PatchRun(m.State(), m.tree.root, es[i..], strict) == PatchRun(s0, m.tree.root, es, strict)
      invariant !ok ==> (m.State(), false) == PatchRun(s0, m.tree.root, es, strict)
    {
      assert es[i..][1..] == es[i + 1..];
      ok := PatchEntryAt(m, strict, es[i]);
      i := i + 1;
    }
    if ok {
      assert es[i..] == [];
    }
  }

  /**
   * `patch(target, es, strict)`: the modifier it returns, over `target`;
   * `false` where it throws, with the target keeping the writes made
   * before the entry that threw.
   */
  method Patch(target: Tree, es: seq<PatchEntry>, strict: bool) returns (ok: bool, m: ObjectModifier)
    requires target.Valid()
    modifies target
    ensures fresh(m) && m.tree == target && m.Valid()
    ensures (m.State(), ok) == PatchOf(old(target.heap), target.root, es, strict)
  {
    m := new ObjectModifier(target);
    ok := PatchEntries(m, es, strict);
    if ok {
      m.Compact();
    }
  }
}
