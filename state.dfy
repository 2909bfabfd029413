/**
 * `State` (src/state.js): a tree with an ObjectModifier over it that
 * announces every change made through it. The `"change"` events are
 * returned as the list of notices emitted, in order.
 */
module States {
  import opened Values
  import opened Heaps
  import opened ChangeLogs
  import opened Modifiers
  import opened Diffs
  import opened Patches

  // ---------------------------------------------------------------------------
  // Keypaths given as text (src/state.js:16, 29-31)

  const Delimiter: char := '.'

  /** `s.split(".")`: the pieces between the delimiters, never none. */
  function Split(s: string): (parts: seq<string>)
    ensures |parts| >= 1
    ensures forall i :: 0 <= i < |parts| ==> Delimiter !in parts[i]
    decreases |s|
  {
    if s == [] then [""]
    else
      var rest := Split(s[1..]);
      if s[0] == Delimiter then [""] + rest
      else [[s[0]] + rest[0]] + rest[1..]
  }

  /** `parts.join(".")`. */
  function Join(parts: seq<string>): string
    requires |parts| >= 1
    decreases |parts|
  {
    if |parts| == 1 then parts[0] else parts[0] + [Delimiter] + Join(parts[1..])
  }

  /** Splitting and joining again gives back the text. */
  lemma {:induction false} JoinSplit(s: string)
    ensures Join(Split(s)) == s
    decreases |s|
  {
    if s != [] {
      var rest := Split(s[1..]);
      JoinSplit(s[1..]);
      if s[0] != Delimiter {
        if |rest| == 1 {
          assert Split(s) == [[s[0]] + rest[0]];
        } else {
          assert Split(s)[1..] == rest[1..];
        }
      }
    }
  }

  /** Joining pieces without delimiters and splitting again gives back the pieces. */
  lemma {:induction false} SplitJoin(parts: seq<string>)
    requires |parts| >= 1 && forall i :: 0 <= i < |parts| ==> Delimiter !in parts[i]
    ensures Split(Join(parts)) == parts
    decreases |parts|, |parts[0]|
  {
    if |parts| == 1 {
      SplitPiece(parts[0]);
    } else {
      SplitJoin(parts[1..]);
      SplitPieceThen(parts[0], Join(parts[1..]));
      assert [parts[0]] + parts[1..] == parts;
    }
  }

  lemma {:induction false} SplitPiece(p: string)
    requires Delimiter !in p
    ensures Split(p) == [p]
    decreases |p|
  {
    if p != [] {
      SplitPiece(p[1..]);
      assert [p[0]] + p[1..] == p;
    }
  }

  /** A piece without delimiters followed by a delimiter and more text. */
  lemma {:induction false} SplitPieceThen(p: string, rest: string)
    requires Delimiter !in p
    ensures Split(p + [Delimiter] + rest) == [p] + Split(rest)
    decreases |p|
  {
    if p == [] {
      assert p + [Delimiter] + rest == [Delimiter] + rest;
      assert ([Delimiter] + rest)[1..] == rest;
    } else {
      SplitPieceThen(p[1..], rest);
      var s := p + [Delimiter] + rest;
      assert s[0] == p[0] && s[1..] == p[1..] + [Delimiter] + rest;
      assert [p[0]] + p[1..] == p;
    }
  }

  predicate IsDigit(c: char)
  {
    '0' <= c <= '9'
  }

  /** The decimal text of a non-negative integer, without leading zeros. */
  predicate IsNumeral(s: string)
  {
    && s != []
    && (forall i :: 0 <= i < |s| ==> IsDigit(s[i]))
    && (s[0] == '0' ==> |s| == 1)
  }

  function DigitsValue(s: string): nat
    requires forall i :: 0 <= i < |s| ==> IsDigit(s[i])
    decreases |s|
  {
    if s == [] then 0 else DigitsValue(s[..|s| - 1]) * 10 + DigitValue(s[|s| - 1])
  }

  function DigitValue(c: char): (d: nat)
    requires IsDigit(c)
    ensures d < 10
  {
    c as int - '0' as int
  }

  function Digit(d: nat): char
    requires d < 10
  {
    (d + '0' as int) as char
  }

  /** The decimal text of `n`. */
  function NatText(n: nat): (s: string)
    ensures IsNumeral(s)
    ensures s[0] == '0' <==> n == 0
    decreases n
  {
    if n < 10 then [Digit(n)]
    else NatText(n / 10) + [Digit(n % 10)]
  }

  /**
   * The key a piece of a keypath names: an index for the decimal text of a
   * non-negative integer (JavaScript's property `"3"` is index 3), a name
   * otherwise.
   */
  function KeyOf(s: string): (k: Key)
    ensures k.Name? <==> !IsNumeral(s)
    ensures k.Name? ==> k.s == s
  {
    if IsNumeral(s) then Index(DigitsValue(s)) else Name(s)
  }

  /** The text JavaScript uses for a key. */
  function KeyText(k: Key): string
  {
    match k
    case Index(i) => NatText(i)
    case Name(s) => s
  }

  lemma {:induction false} DigitsPositive(s: string)
    requires IsNumeral(s) && s[0] != '0'
    ensures DigitsValue(s) >= 1
    decreases |s|
  {
    if |s| > 1 {
      DigitsPositive(s[..|s| - 1]);
    }
  }

  /** A piece of a keypath reads back as the same text from its key. */
  lemma {:induction false} KeyTextOf(s: string)
    ensures KeyText(KeyOf(s)) == s
    decreases |s|
  {
    if IsNumeral(s) {
      var n := DigitsValue(s);
      if |s| == 1 {
        assert s[..0] == [] && DigitsValue([]) == 0;
        assert n == DigitsValue(s[..0]) * 10 + DigitValue(s[0]);
        assert NatText(n) == [s[0]];
      } else {
        var p := s[..|s| - 1];
        assert IsNumeral(p);
        DigitsPositive(p);
        KeyTextOf(p);
        assert n / 10 == DigitsValue(p) && n % 10 == DigitValue(s[|s| - 1]);
        assert NatText(n) == NatText(n / 10) + [Digit(n % 10)];
        assert s == p + [s[|s| - 1]];
      }
    }
  }

  /** A keypath argument of `set`: a dotted text or a list of keys. */
  datatype KeypathArg = Dotted(text: string) | KeyList(keys: Path)

  function KeypathOf(a: KeypathArg): (p: Path)
    ensures a.Dotted? ==> |p| == |Split(a.text)|
  {
    match a
    case Dotted(text) =>
      var parts := Split(text);
      seq(|parts|, i requires 0 <= i < |parts| => KeyOf(parts[i]))
    case KeyList(keys) => keys
  }

  // ---------------------------------------------------------------------------
  // Notices and logs

  /** The `"change"` events for the unseen changes of a log, in log order. */
  function NewNotices(cs: seq<Change>): (ns: seq<Notice>)
    ensures |ns| == |Unseen(cs)|
    ensures forall i :: 0 <= i < |ns| ==> ns[i] == NoticeOf(Unseen(cs)[i], false)
  {
    var u := Unseen(cs);
    seq(|u|, i requires 0 <= i < |u| => NoticeOf(u[i], false))
  }

  /**
   * What `set` leaves in the log: the compacted log, every entry of it
   * announced and so seen.
   */
  function Announced(cs: seq<Change>): seq<Change>
  {
    MarkSeen(CompactLog(cs))
  }

  /** A log of entries already announced announces nothing more. */
  lemma NothingNewAfterAnnounce(cs: seq<Change>)
    ensures NewNotices(Announced(cs)) == []
  {
    UnseenOfMarked(CompactLog(cs));
  }

  /** The empty log compacts and compresses to the empty log. */
  lemma EmptyLogs()
    ensures CompactLog([]) == [] && CompressLog([]) == []
  {
    assert Generate([]) == EmptyTree;
    assert SortedKeys({}) == [];
    assert CompactList([]) == [];
    assert CompactTree(EmptyTree) == EmptyTree;
    assert CompressTree(EmptyTree) == EmptyTree;
  }

  /**
   * The (state, indices of entries that threw) of the loop of `applyPatch`
   * from entry `i` on: every entry is tried, whether or not an earlier one
   * threw.
   */
  function ApplyFrom(s: ModState, root: NodeId, es: seq<PatchEntry>, strict: bool, i: nat): (r: (ModState, seq<nat>))
    requires Rooted(s, root) && i <= |es|
    ensures Rooted(r.0, root)
    ensures forall j :: 0 <= j < |r.1| ==> i <= r.1[j] < |es|
    decreases |es| - i
  {
    if i == |es| then (s, [])
    else match PatchStep(s, root, es[i], strict)
      case None =>
        var r := ApplyFrom(s, root, es, strict, i + 1);
        (r.0, [i] + r.1)
      case Some(s1) => ApplyFrom(s1, root, es, strict, i + 1)
  }

  /**
   * The state `applyPatch` leaves: every entry tried, the log compacted and
   * every entry of it announced.
   */
  function Applied(s: ModState, root: NodeId, es: seq<PatchEntry>, strict: bool): (r: ModState)
    requires Rooted(s, root)
    ensures Rooted(r, root)
  {
    var t := ApplyFrom(s, root, es, strict, 0).0;
    ModState(t.heap, Announced(t.changes))
  }

  /** Whether some entry threw, so that a strict `applyPatch` throws at the end. */
  predicate ApplyFails(s: ModState, root: NodeId, es: seq<PatchEntry>, strict: bool)
    requires Rooted(s, root)
  {
    ApplyFrom(s, root, es, strict, 0).1 != []
  }

  /** In lenient mode the only entries that throw are those `patch` cannot read or `set` refuses. */
  lemma {:induction false} LenientApplyFailures(s: ModState, root: NodeId, es: seq<PatchEntry>, i: nat)
    requires Rooted(s, root) && i <= |es|
    ensures forall j :: j in ApplyFrom(s, root, es, false, i).1 ==>
      j < |es| && (Decode(es[j]).None? || (es[j].path == [] && !IsComposite(Decode(es[j]).value.1)))
    decreases |es| - i
  {
    if i < |es| {
      LenientFailures(s, root, es[i]);
      match PatchStep(s, root, es[i], false)
      case None =>
        LenientApplyFailures(s, root, es, i + 1);
      case Some(s1) =>
        LenientApplyFailures(s1, root, es, i + 1);
    }
  }

  /** `getLatestPatch` of a log: compact, compress, one entry per change. */
  function LatestPatch(h: Heap, cs: seq<Change>): seq<PatchEntry>
    requires Closed(h)
  {
    Encoded(ModState(h, cs))
  }

  /** Once the log has been emptied the latest patch is empty. */
  lemma LatestPatchOfEmpty(h: Heap)
    requires Closed(h)
    ensures LatestPatch(h, []) == []
  {
    EmptyLogs();
  }

  // ---------------------------------------------------------------------------
  // The class

  /** The argument of `new State(init)`: nothing, a primitive, or an object graph. */
  datatype Init = Undefined | Primitive(p: Primitive) | Object(t: Tree)

  class State {
    const state: Tree
    const modifier: ObjectModifier

    ghost predicate Valid()
      reads this, modifier, modifier.tree, state
    {
      modifier.tree == state && modifier.Valid()
    }

    constructor(t: Tree)
      requires t.Valid()
      ensures state == t && fresh(modifier) && Valid() && modifier.changes == []
    {
      state := t;
      modifier := new ObjectModifier(t);
    }

    /**
     * `set(keypath, value)`, then `compact`, then one `"change"` event per
     * unseen change. `false` where the modifier's `set` throws; nothing has
     * changed then and no event is emitted.
     */
    method Set(keypath: KeypathArg, value: Json) returns (ok: bool, notices: seq<Notice>)
      requires Valid()
      modifies modifier, state
      ensures Valid()
      ensures ok == (KeypathOf(keypath) != [] || IsComposite(value))
      ensures ok ==> var s := AfterSet(old(modifier.State()), state.root, KeypathOf(keypath), value);
        && modifier.State() == ModState(s.heap, Announced(s.changes))
        && notices == NewNotices(CompactLog(s.changes))
      ensures !ok ==> modifier.State() == old(modifier.State()) && notices == []
    {
      ok := modifier.Set(KeypathOf(keypath), value);
      if !ok {
        return ok, [];
      }
      modifier.Compact();
      ghost var cs := modifier.changes;
      notices := modifier.ForEachNewChange();
      assert notices == NewNotices(cs);
    }

    /**
     * `applyPatch(es, strict)`: try every entry, collecting the ones that
     * throw; compact; emit the events; then throw (the flag) when in strict
     * mode an entry threw.
     */
    method ApplyPatch(es: seq<PatchEntry>, strict: bool) returns (failed: seq<nat>, notices: seq<Notice>, thrown: bool)
      requires Valid()
      modifies modifier, state
      ensures Valid() && thrown == (strict && failed != [])
      ensures failed == ApplyFrom(old(modifier.State()), state.root, es, strict, 0).1
      ensures failed != [] <==> ApplyFails(old(modifier.State()), state.root, es, strict)
      ensures modifier.State() == Applied(old(modifier.State()), state.root, es, strict)
      ensures notices == NewNotices(CompactLog(ApplyFrom(old(modifier.State()), state.root, es, strict, 0).0.changes))
    {
      failed := ApplyEntries(es, strict);
      modifier.Compact();
      ghost var cs := modifier.changes;
      notices := modifier.ForEachNewChange();
      assert notices == NewNotices(cs);
      thrown := strict && failed != [];
    }

    /** The loop of `applyPatch`. */
    method ApplyEntries(es: seq<PatchEntry>, strict: bool) returns (failed: seq<nat>)
      requires Valid()
      modifies modifier, state
      ensures Valid() && (modifier.State(), failed) == ApplyFrom(old(modifier.State()), state.root, es, strict, 0)
    {
      ghost var all := ApplyFrom(modifier.State(), state.root, es, strict, 0);
      failed := [];
      var i: nat := 0;
      assert [] + all.1 == all.1;
      while i < |es|
        invariant i <= |es| && Valid()
        invariant ApplyFrom(modifier.State(), state.root, es, strict, i).0 == all.0
        invariant failed + ApplyFrom(modifier.State(), state.root, es, strict, i).1 == all.1
      {
        failed := ApplyEntry(es, strict, i, failed);
        i := i + 1;
      }
      assert failed + [] == failed;
    }

    /** One turn of that loop: entry `i` is tried, and its index recorded when it throws. */
    method ApplyEntry(es: seq<PatchEntry>, strict: bool, i: nat, failed: seq<nat>) returns (failed': seq<nat>)
      requires Valid() && i < |es|
      modifies modifier, state
      ensures Valid()
      ensures var r := ApplyFrom(old(modifier.State()), state.root, es, strict, i);
        var next := ApplyFrom(modifier.State(), state.root, es, strict, i + 1);
        next.0 == r.0 && failed' + next.1 == failed + r.1
    {
      ghost var s := modifier.State();
      ghost var step := PatchStep(s, state.root, es[i], strict);
      var ok := PatchEntryAt(modifier, strict, es[i]);
      ghost var next := ApplyFrom(modifier.State(), state.root, es, strict, i + 1);
      assert ApplyFrom(s, state.root, es, strict, i) == if ok then next else (next.0, [i] + next.1);
      if ok {
        failed' := failed;
      } else {
        assert failed + ([i] + next.1) == (failed + [i]) + next.1;
        failed' := failed + [i];
      }
    }

    /** `getLatestPatch()`: the patch of the changes since the last call; the log is then emptied. */
    method GetLatestPatch() returns (es: seq<PatchEntry>)
      requires Valid()
      modifies modifier
      ensures Valid() && modifier.changes == [] && state.heap == old(state.heap)
      ensures es == LatestPatch(state.heap, old(modifier.changes))
    {
      ghost var cs0 := modifier.changes;
      modifier.Compact();
      modifier.Compress();
      ghost var cs := modifier.changes;
      var notices := modifier.ForEachChange();
      es := EncodeAll(state.heap, notices);
      EncodeNotices(state.heap, cs, notices, es);
      modifier.Reset();
    }
  }

  /**
   * `new State(init)`: `None` where the constructor throws, for anything
   * but `undefined` or a plain (non-array) object. No argument gives a new
   * empty object; an object is used as it is, not copied.
   */
  method NewState(init: Init) returns (r: Option<State>)
    requires init.Object? ==> init.t.Valid()
    ensures r.None? <==> init.Primitive? || (init.Object? && init.t.heap.nodes[init.t.root].isArray)
    ensures r.Some? ==> fresh(r.value) && fresh(r.value.modifier) && r.value.Valid() && r.value.modifier.changes == []
    ensures r.Some? && init.Object? ==> r.value.state == init.t
    ensures r.Some? && init.Undefined? ==> fresh(r.value.state) && r.value.state.Snapshot() == JObj(map[])
  {
    if init.Primitive? || (init.Object? && init.t.heap.nodes[init.t.root].isArray) {
      return None;
    }
    var t: Tree;
    if init.Object? {
      t := init.t;
    } else {
      t := new Tree.Empty(false);
    }
    var st := new State(t);
    return Some(st);
  }

  /** `State.clone(other)`: a new State over a deep copy of the other's tree, with an empty log. */
  method Clone(other: State) returns (st: State)
    requires other.Valid()
    ensures fresh(st) && fresh(st.state) && fresh(st.modifier) && st.Valid() && st.modifier.changes == []
    ensures st.state.heap == CloneHeap(other.state.heap) && st.state.root == other.state.root
  {
    var copy := new Tree.Copy(other.state);
    st := new State(copy);
  }
}
