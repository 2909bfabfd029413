/**
 * The ObjectModifier of src/utils/objectModifier.js: a wrapper around one
 * tree that sets, removes, pushes and pops values at keypaths and records
 * every modification in a log of changes.
 */
module Modifiers {
  import opened Values
  import opened Heaps
  import opened EnsurePaths
  import opened ChangeLogs

  // ---------------------------------------------------------------------------
  // `_setPrimitiveDeep` (src/utils/objectModifier.js:379-397)

  /**
   * Walk `keypath` down from `obj` and store `v` under its last key, with the
   * cleanup of `Store`; the result is the new heap and the value that was
   * there. `None` is where JavaScript throws: the keypath is empty, or it
   * runs through something that is not an object (reading a property of
   * `undefined`, or assigning one on a primitive in strict mode).
   */
  function SetDeep(h: Heap, obj: Value, keypath: Path, v: Value): (r: Option<(Heap, Value)>)
    ensures r.Some? ==> r.value.0.next == h.next && r.value.0.nodes.Keys == h.nodes.Keys
    decreases |keypath|
  {
    if keypath == [] || !IsContainer(h, obj) then None
    else if |keypath| == 1 then Some((StoreAt(h, obj.id, keypath[0], v), Lookup(h.nodes[obj.id], keypath[0])))
    else SetDeep(h, Lookup(h.nodes[obj.id], keypath[0]), keypath[1..], v)
  }

  /** The object that holds the last key of `keypath`, if there is one. */
  function Holder(h: Heap, obj: Value, keypath: Path): Value
    requires keypath != []
  {
    Get(h, obj, keypath[..|keypath| - 1])
  }

  /**
   * The deep write succeeds exactly when the keypath's holder is an object;
   * it then stores into the holder alone and returns what the keypath held.
   */
  lemma {:induction false} SetDeepMeaning(h: Heap, obj: Value, keypath: Path, v: Value)
    ensures SetDeep(h, obj, keypath, v).Some? <==> keypath != [] && IsContainer(h, Holder(h, obj, keypath))
    ensures keypath != [] && IsContainer(h, Holder(h, obj, keypath)) ==>
      SetDeep(h, obj, keypath, v) ==
        Some((StoreAt(h, Holder(h, obj, keypath).id, keypath[|keypath| - 1], v), Get(h, obj, keypath)))
    decreases |keypath|
  {
    if |keypath| == 1 {
      assert keypath[..0] == [];
    } else if |keypath| > 1 {
      var n := |keypath|;
      if IsContainer(h, obj) {
        var c := Lookup(h.nodes[obj.id], keypath[0]);
        SetDeepMeaning(h, c, keypath[1..], v);
        GetStep(h, obj, keypath, n - 1);
        assert keypath[1..][..n - 2] == keypath[1..][..|keypath[1..]| - 1];
        assert keypath[1..][n - 2] == keypath[n - 1];
      } else {
        assert Holder(h, obj, keypath) == Absent;
      }
    }
  }

  /** After a successful deep write the keypath holds the value written. */
  lemma {:induction false} SetDeepLands(h: Heap, obj: Value, keypath: Path, v: Value)
    requires Closed(h) && SetDeep(h, obj, keypath, v).Some?
    ensures Get(SetDeep(h, obj, keypath, v).value.0, obj, keypath) == v
    decreases |keypath|
  {
    var h' := SetDeep(h, obj, keypath, v).value.0;
    SetDeepMeaning(h, obj, keypath, v);
    var holder := Holder(h, obj, keypath);
    if |keypath| > 1 {
      var c := Lookup(h.nodes[obj.id], keypath[0]);
      GetIdsGrow(h, obj, keypath[..|keypath| - 1]);
      assert h'.nodes[obj.id] == h.nodes[obj.id];
      SetDeepLands(h, c, keypath[1..], v);
    }
  }

  /** A deep write keeps the heap closed when the value written is not an object above the holder. */
  lemma SetDeepClosed(h: Heap, obj: Value, keypath: Path, v: Value)
    requires Closed(h) && keypath != [] && IsContainer(h, Holder(h, obj, keypath))
    requires v.Ref? ==> v.id in h.nodes && Holder(h, obj, keypath).id < v.id
    ensures SetDeep(h, obj, keypath, v).Some? && Closed(SetDeep(h, obj, keypath, v).value.0)
  {
    SetDeepMeaning(h, obj, keypath, v);
    StoreAtClosed(h, Holder(h, obj, keypath).id, keypath[|keypath| - 1], v);
  }

  /** `_setPrimitiveDeep(obj, keypath, v)` on the tree `t`. */
  method SetPrimitiveDeep(t: Tree, obj: Value, keypath: Path, v: Value) returns (r: Option<Value>)
    modifies t
    ensures SetDeep(old(t.heap), obj, keypath, v) == if r.Some? then Some((t.heap, r.value)) else None
    ensures r.None? ==> t.heap == old(t.heap)
    decreases |keypath|
  {
    if keypath == [] || !IsContainer(t.heap, obj) {
      return None;
    }
    var child := Lookup(t.heap.nodes[obj.id], keypath[0]);
    if |keypath| == 1 {
      t.heap := StoreAt(t.heap, obj.id, keypath[0], v);
      return Some(child);
    }
    r := SetPrimitiveDeep(t, child, keypath[1..], v);
  }

  // ---------------------------------------------------------------------------
  // `_generateRemovalChanges` (src/utils/objectModifier.js:345-363)

  /**
   * lodash `keys` of an object: every index of an array (holes included)
   * followed by its other properties, or the keys of a map.
   */
  function NodeKeys(n: Node): seq<Key>
  {
    if n.isArray then Indices(n.length) + SortedKeys(set k | k in n.fields && k.Name?)
    else SortedKeys(n.fields.Keys)
  }

  lemma NodeKeysDistinct(n: Node)
    ensures Distinct(NodeKeys(n))
  {
    SortedKeysDistinct(n.fields.Keys);
    var names := set k | k in n.fields && k.Name?;
    SortedKeysDistinct(names);
    if n.isArray {
      var a, b := Indices(n.length), SortedKeys(names);
      forall i, j | 0 <= i < j < |a + b| ensures (a + b)[i] != (a + b)[j] {
        if i >= |a| {
          assert (a + b)[i] == b[i - |a|] && (a + b)[j] == b[j - |a|];
        } else if j >= |a| {
          assert (a + b)[j] == b[j - |a|] && b[j - |a|] in names;
        }
      }
    }
  }

  lemma NodeKeysComplete(n: Node)
    requires NodeWF(n)
    ensures forall k :: k in n.fields ==> k in NodeKeys(n)
  {
    if n.isArray {
      forall k | k in n.fields ensures k in NodeKeys(n) {
        if k.Index? { assert Indices(n.length)[k.i] == k; }
      }
    }
  }

  lemma ChildRank(h: Heap, v: Value, k: Key)
    requires Closed(h) && IsContainer(h, v)
    ensures Rank(h, Lookup(h.nodes[v.id], k)) < Rank(h, v)
  {
    if k in h.nodes[v.id].fields && h.nodes[v.id].fields[k].Ref? {
      assert v.id < h.nodes[v.id].fields[k].id;
    }
  }

  /**
   * The changes that removing `v` records: one for every value of its
   * subtree, children (in key order) before their parent, each going from
   * the value to `undefined`.
   */
  function RemovalChanges(h: Heap, v: Value): (cs: seq<Change>)
    requires Closed(h)
    ensures cs == [] <==> v == Absent
    ensures cs != [] ==> cs[|cs| - 1] == Change([], v, Absent, false)
    decreases Rank(h, v), 1
  {
    if v == Absent then []
    else (if IsContainer(h, v) then RemovalOfKeys(h, v, NodeKeys(h.nodes[v.id])) else []) + [Change([], v, Absent, false)]
  }

  function RemovalOfKeys(h: Heap, v: Value, ks: seq<Key>): (cs: seq<Change>)
    requires Closed(h) && IsContainer(h, v)
    ensures forall c :: c in cs ==> c.keypath != [] && c.keypath[0] in ks
    decreases Rank(h, v), 0, |ks|
  {
    if ks == [] then []
    else
      var child := Lookup(h.nodes[v.id], ks[0]);
      ChildRank(h, v, ks[0]);
      var sub := RemovalChanges(h, child);
      var u := Under(ks[0], sub);
      assert forall c :: c in u ==> c.keypath[0] == ks[0] by {
        forall c | c in u ensures c.keypath[0] == ks[0] {
          var i :| 0 <= i < |u| && u[i] == c;
        }
      }
      u + RemovalOfKeys(h, v, ks[1..])
  }

  /** Every value of the subtree gets a removal change. */
  lemma {:induction false} RemovalCovers(h: Heap, v: Value, q: Path)
    requires Closed(h) && Get(h, v, q) != Absent
    ensures exists c :: c in RemovalChanges(h, v) && c.keypath == q
    decreases |q|
  {
    if q == [] {
      var cs := RemovalChanges(h, v);
      assert cs[|cs| - 1] in cs;
    } else {
      GetHead(h, v, q);
      var child := Lookup(h.nodes[v.id], q[0]);
      ChildRank(h, v, q[0]);
      RemovalCovers(h, child, q[1..]);
      var c :| c in RemovalChanges(h, child) && c.keypath == q[1..];
      RemovalStep(h, v, q[0], c);
      ConsTail(q);
    }
  }

  /** A keypath that reaches a value starts at a key the object holds. */
  lemma GetHead(h: Heap, v: Value, q: Path)
    requires q != [] && Get(h, v, q) != Absent
    ensures IsContainer(h, v) && q[0] in h.nodes[v.id].fields
    ensures Get(h, v, q) == Get(h, Lookup(h.nodes[v.id], q[0]), q[1..])
  {
    if IsContainer(h, v) && q[0] !in h.nodes[v.id].fields {
      GetOfNonContainer(h, Absent, q[1..]);
    }
  }

  /** A removal change of a child's subtree appears, under the child's key, among the parent's. */
  lemma RemovalStep(h: Heap, v: Value, k: Key, c: Change)
    requires Closed(h) && IsContainer(h, v) && k in h.nodes[v.id].fields
    requires c in RemovalChanges(h, Lookup(h.nodes[v.id], k))
    ensures exists d :: d in RemovalChanges(h, v) && d.keypath == [k] + c.keypath
  {
    var n := h.nodes[v.id];
    NodeKeysComplete(n);
    RemovalOfKeysCovers(h, v, NodeKeys(n), k, c);
    var kids := RemovalOfKeys(h, v, NodeKeys(n));
    var d :| d in kids && d.keypath == [k] + c.keypath;
    assert RemovalChanges(h, v) == kids + [Change([], v, Absent, false)];
    assert d in RemovalChanges(h, v);
  }

  lemma {:induction false} RemovalOfKeysCovers(h: Heap, v: Value, ks: seq<Key>, k: Key, c: Change)
    requires Closed(h) && IsContainer(h, v) && k in ks
    requires c in RemovalChanges(h, Lookup(h.nodes[v.id], k))
    ensures exists d :: d in RemovalOfKeys(h, v, ks) && d.keypath == [k] + c.keypath
    decreases |ks|
  {
    ChildRank(h, v, ks[0]);
    if ks[0] == k {
      var sub := RemovalChanges(h, Lookup(h.nodes[v.id], k));
      var i :| 0 <= i < |sub| && sub[i] == c;
      var u := Under(k, sub);
      assert u[i] in RemovalOfKeys(h, v, ks);
    } else {
      RemovalOfKeysCovers(h, v, ks[1..], k, c);
      var d :| d in RemovalOfKeys(h, v, ks[1..]) && d.keypath == [k] + c.keypath;
      assert d in RemovalOfKeys(h, v, ks);
    }
  }

  /** No change is listed before a change at one of its descendants. */
  predicate DescendantsFirst(cs: seq<Change>)
  {
    forall i, j :: 0 <= i < j < |cs| ==> !Below(cs[j].keypath, cs[i].keypath)
  }

  lemma {:induction false} DescendantsFirstConcat(a: seq<Change>, b: seq<Change>)
    requires DescendantsFirst(a) && DescendantsFirst(b)
    requires forall x, y :: x in a && y in b ==> !Below(y.keypath, x.keypath)
    ensures DescendantsFirst(a + b)
  {
    var ab := a + b;
    forall i, j | 0 <= i < j < |ab| ensures !Below(ab[j].keypath, ab[i].keypath) {
      if j < |a| {
        assert ab[i] == a[i] && ab[j] == a[j];
      } else if i >= |a| {
        assert ab[i] == b[i - |a|] && ab[j] == b[j - |a|];
      } else {
        assert ab[i] in a && ab[j] in b;
      }
    }
  }

  lemma {:induction false} DescendantsFirstUnder(k: Key, cs: seq<Change>)
    requires DescendantsFirst(cs)
    ensures DescendantsFirst(Under(k, cs))
  {
    var r := Under(k, cs);
    forall i, j | 0 <= i < j < |r| ensures !Below(r[j].keypath, r[i].keypath) {
      BelowCons(k, cs[j].keypath, cs[i].keypath);
    }
  }

  /** The removal changes list every value before the values above it (a post-order walk). */
  lemma {:induction false} RemovalDescendantsFirst(h: Heap, v: Value)
    requires Closed(h)
    ensures DescendantsFirst(RemovalChanges(h, v))
    decreases Rank(h, v), 1
  {
    if v != Absent {
      var own := [Change([], v, Absent, false)];
      var kids := if IsContainer(h, v) then RemovalOfKeys(h, v, NodeKeys(h.nodes[v.id])) else [];
      if IsContainer(h, v) {
        NodeKeysDistinct(h.nodes[v.id]);
        RemovalOfKeysDescendantsFirst(h, v, NodeKeys(h.nodes[v.id]));
      }
      DescendantsFirstConcat(kids, own);
    }
  }

  lemma {:induction false} RemovalOfKeysDescendantsFirst(h: Heap, v: Value, ks: seq<Key>)
    requires Closed(h) && IsContainer(h, v) && Distinct(ks)
    ensures DescendantsFirst(RemovalOfKeys(h, v, ks))
    decreases Rank(h, v), 0, |ks|
  {
    if ks != [] {
      var child := Lookup(h.nodes[v.id], ks[0]);
      ChildRank(h, v, ks[0]);
      var sub := RemovalChanges(h, child);
      var u := Under(ks[0], sub);
      var rest := RemovalOfKeys(h, v, ks[1..]);
      RemovalDescendantsFirst(h, child);
      DescendantsFirstUnder(ks[0], sub);
      assert Distinct(ks[1..]);
      RemovalOfKeysDescendantsFirst(h, v, ks[1..]);
      forall x, y | x in u && y in rest ensures !Below(y.keypath, x.keypath) {
        var i :| 0 <= i < |u| && u[i] == x;
        assert x.keypath[0] == ks[0];
        assert y.keypath[0] in ks[1..] && ks[0] !in ks[1..];
        if Below(y.keypath, x.keypath) {
          BelowHead(y.keypath, x.keypath);
        }
      }
      DescendantsFirstConcat(u, rest);
    }
  }

  // ---------------------------------------------------------------------------
  // The state of a modifier and the operations of `set`

  /** What an ObjectModifier holds: the tree it wraps (a heap) and its log. */
  datatype ModState = ModState(heap: Heap, changes: seq<Change>)

  /** The heap invariant the deep operations rely on, with the wrapped root in place. */
  ghost predicate Rooted(s: ModState, root: NodeId)
  {
    Closed(s.heap) && root in s.heap.nodes
  }

  /** Every change with `keypath` put in front of its keypath. */
  function Rebase(keypath: Path, cs: seq<Change>): (r: seq<Change>)
    ensures |r| == |cs|
    ensures forall i :: 0 <= i < |cs| ==> r[i] == cs[i].(keypath := keypath + cs[i].keypath)
  {
    seq(|cs|, i requires 0 <= i < |cs| => cs[i].(keypath := keypath + cs[i].keypath))
  }

  /** The log entries reporting the levels `ensurePath` created. */
  function Creations(ps: seq<NewPath>): (cs: seq<Change>)
    ensures |cs| == |ps|
    ensures forall i :: 0 <= i < |ps| ==> cs[i] == Change(ps[i].path, ps[i].oldVal, ps[i].newVal, false)
  {
    seq(|ps|, i requires 0 <= i < |ps| => Change(ps[i].path, ps[i].oldVal, ps[i].newVal, false))
  }

  /**
   * The first step of `set` (src/utils/objectModifier.js:51-63): write
   * `undefined` at the keypath; when that succeeds and something was there,
   * log a removal for every value of the removed subtree.
   */
  function Clear(s: ModState, root: NodeId, keypath: Path): (r: ModState)
    requires Rooted(s, root)
    ensures Rooted(r, root) && r.heap.next == s.heap.next
    ensures s.changes <= r.changes
  {
    match SetDeep(s.heap, Ref(root), keypath, Absent)
    case None => s
    case Some((h, removed)) =>
      SetDeepMeaning(s.heap, Ref(root), keypath, Absent);
      SetDeepClosed(s.heap, Ref(root), keypath, Absent);
      ModState(h, s.changes + Rebase(keypath, RemovalChanges(h, removed)))
  }

  /**
   * The value a leaf write puts in the tree. JavaScript stores the given
   * object itself; here an empty map or array becomes a new empty container.
   */
  function Place(h: Heap, v: Json): (r: (Heap, Value))
    requires !IsComposite(v)
    ensures r.1.Ref? ==> r.1.id == h.next && r.0 == Alloc(h, v.JArr?)
    ensures !r.1.Ref? ==> r.0 == h
  {
    match v
    case Undef => (h, Absent)
    case JPrim(p) => (h, Prim(p))
    case _ => (Alloc(h, v.JArr?), Ref(h.next))
  }

  /**
   * `_setPrimitive` (src/utils/objectModifier.js:238-254): create the missing
   * levels, write the value, log each created level and then the write
   * itself, with `undefined` as its old value.
   */
  function PutLeaf(s: ModState, root: NodeId, keypath: Path, v: Json): (r: ModState)
    requires Rooted(s, root) && keypath != [] && !IsComposite(v)
    ensures Rooted(r, root) && r.heap.next >= s.heap.next
    ensures s.changes <= r.changes
  {
    var (h1, newPaths) := Ensure(s.heap, Ref(root), keypath);
    EnsureClosed(s.heap, Ref(root), keypath);
    var (h2, val) := Place(h1, v);
    var h3 := match SetDeep(h2, Ref(root), keypath, val)
      case Some((h, _)) => h
      case None => h2;
    PlaceClosed(h1, root, keypath, v);
    ModState(h3, s.changes + Creations(newPaths) + [Change(keypath, Absent, val, false)])
  }

  /** Walking from a value of the heap never reaches an object created after it. */
  lemma {:induction false} GetAlloc(h: Heap, isArray: bool, v: Value, p: Path)
    requires Closed(h) && ValueIn(h, v)
    ensures Get(Alloc(h, isArray), v, p) == Get(h, v, p) && ValueIn(h, Get(h, v, p))
    decreases |p|
  {
    if p != [] && IsContainer(h, v) {
      var c := Lookup(h.nodes[v.id], p[0]);
      assert ValueIn(h, c) by {
        if c.Ref? { assert p[0] in h.nodes[v.id].fields; }
      }
      GetAlloc(h, isArray, c, p[1..]);
    }
  }

  /** The leaf write keeps the heap closed: the value placed is newer than every object. */
  lemma PlaceClosed(h: Heap, root: NodeId, keypath: Path, v: Json)
    requires Closed(h) && root in h.nodes && !IsComposite(v)
    ensures var (h2, val) := Place(h, v);
      && Closed(h2) && root in h2.nodes
      && (SetDeep(h2, Ref(root), keypath, val).Some? ==>
            Closed(SetDeep(h2, Ref(root), keypath, val).value.0) && root in SetDeep(h2, Ref(root), keypath, val).value.0.nodes)
  {
    var (h2, val) := Place(h, v);
    if val.Ref? {
      assert h.next !in h.nodes;
      assert Closed(h2) by {
        assert forall x, k :: x in h2.nodes && k in h2.nodes[x].fields ==> x in h.nodes && h2.nodes[x] == h.nodes[x];
      }
    }
    SetDeepMeaning(h2, Ref(root), keypath, val);
    if SetDeep(h2, Ref(root), keypath, val).Some? {
      var holder := Holder(h2, Ref(root), keypath);
      if val.Ref? {
        GetAlloc(h, v.JArr?, Ref(root), keypath[..|keypath| - 1]);
      }
      SetDeepClosed(h2, Ref(root), keypath, val);
    }
  }

  /** `set` of a value that is written whole: clear the keypath, then write the leaf. */
  function SetLeaf(s: ModState, root: NodeId, keypath: Path, v: Json): (r: ModState)
    requires Rooted(s, root) && keypath != [] && !IsComposite(v)
    ensures Rooted(r, root) && s.changes <= r.changes
  {
    PutLeaf(Clear(s, root, keypath), root, keypath, v)
  }

  /**
   * `set(keypath, v)` (src/utils/objectModifier.js:50-80): clear the
   * keypath, then write a non-empty map or array key by key (in the order
   * `keys` lists them) and anything else as one leaf. The empty keypath
   * is only meaningful for a value written key by key.
   */
  function AfterSet(s: ModState, root: NodeId, keypath: Path, v: Json): (r: ModState)
    requires Rooted(s, root) && (keypath != [] || IsComposite(v))
    ensures Rooted(r, root) && s.changes <= r.changes
    decreases v, 1
  {
    if IsComposite(v) then SetKeys(Clear(s, root, keypath), root, keypath, v, JsonKeys(v))
    else SetLeaf(s, root, keypath, v)
  }

  /**
   * The per-key writes of a composite value. A child that is not itself
   * composite is written by `SetLeaf`, which is what `set` does with it.
   */
  function SetKeys(s: ModState, root: NodeId, keypath: Path, v: Json, ks: seq<Key>): (r: ModState)
    requires Rooted(s, root)
    ensures Rooted(r, root) && s.changes <= r.changes
    decreases v, 0, |ks|
  {
    if ks == [] then s
    else SetKeys(SetChild(s, root, keypath, v, ks[0]), root, keypath, v, ks[1..])
  }

  /** The write of `v`'s child under `k`. */
  function SetChild(s: ModState, root: NodeId, keypath: Path, v: Json, k: Key): (r: ModState)
    requires Rooted(s, root)
    ensures Rooted(r, root) && s.changes <= r.changes
    decreases v, 0, 0
  {
    var c := JsonChild(v, k);
    if IsComposite(c) then AfterSet(s, root, keypath + [k], c) else SetLeaf(s, root, keypath + [k], c)
  }

  lemma SetKeysStep(s: ModState, root: NodeId, keypath: Path, v: Json, ks: seq<Key>, i: nat)
    requires Rooted(s, root) && i < |ks|
    ensures SetKeys(s, root, keypath, v, ks[i..]) == SetKeys(SetChild(s, root, keypath, v, ks[i]), root, keypath, v, ks[i + 1..])
  {
    assert ks[i..][1..] == ks[i + 1..];
  }

  // ---------------------------------------------------------------------------
  // `push` and `pop` (src/utils/objectModifier.js:99-138)

  /**
   * The target `push` and `pop` find: walk down `path`, stopping at the
   * first value that is not an object.
   */
  function Walk(h: Heap, v: Value, path: Path): Value
    decreases |path|
  {
    if path == [] || !IsContainer(h, v) then v
    else
      var c := Lookup(h.nodes[v.id], path[0]);
      if IsContainer(h, c) then Walk(h, c, path[1..]) else c
  }

  /** When the walk ends at an object or at `undefined`, it found what the keypath holds. */
  lemma {:induction false} WalkGet(h: Heap, v: Value, path: Path)
    requires IsContainer(h, v)
    requires IsContainer(h, Walk(h, v, path)) || Walk(h, v, path) == Absent
    ensures Walk(h, v, path) == Get(h, v, path)
    decreases |path|
  {
    if path != [] {
      var c := Lookup(h.nodes[v.id], path[0]);
      if IsContainer(h, c) {
        WalkGet(h, c, path[1..]);
      } else {
        GetOfNonContainer(h, c, path[1..]);
      }
    }
  }

  predicate IsArrayIn(h: Heap, v: Value)
  {
    IsContainer(h, v) && h.nodes[v.id].isArray
  }

  /**
   * `push(keypath, ...values)`: each value is `set` at the index equal to
   * the array's current length, or at 0 when there is nothing there; a
   * target that is neither stops the push with an error. The flag says
   * whether the push went through.
   */
  function AfterPush(s: ModState, root: NodeId, keypath: Path, values: seq<Json>): (r: (ModState, bool))
    requires Rooted(s, root)
    ensures Rooted(r.0, root)
    decreases |values|
  {
    if values == [] then (s, true)
    else
      var target := Walk(s.heap, Ref(root), keypath);
      if IsArrayIn(s.heap, target) then
        AfterPush(AfterSet(s, root, keypath + [Index(s.heap.nodes[target.id].length)], values[0]), root, keypath, values[1..])
      else if target == Absent then
        AfterPush(AfterSet(s, root, keypath + [Index(0)], values[0]), root, keypath, values[1..])
      else (s, false)
  }

  /** The index `pop` clears: the last one, or 0 for an empty array. */
  function LastIndex(n: Node): nat
  {
    if n.length == 0 then 0 else n.length - 1
  }

  /** `pop(keypath)`: `set` the last element of the target array to `undefined`; no array is an error. */
  function AfterPop(s: ModState, root: NodeId, keypath: Path): (r: Option<ModState>)
    requires Rooted(s, root)
    ensures r.Some? ==> Rooted(r.value, root)
  {
    var target := Walk(s.heap, Ref(root), keypath);
    if IsArrayIn(s.heap, target) then
      Some(AfterSet(s, root, keypath + [Index(LastIndex(s.heap.nodes[target.id]))], Undef))
    else None
  }

  // ---------------------------------------------------------------------------
  // The log readers (src/utils/objectModifier.js:182-201)

  /** One callback call: keypath, new value, old value and the `seen` flag passed. */
  datatype Notice = Notice(keypath: Path, newVal: Value, oldVal: Value, seen: bool)

  function MarkSeen(cs: seq<Change>): (r: seq<Change>)
    ensures |r| == |cs| && forall i :: 0 <= i < |cs| ==> r[i] == cs[i].(seen := true)
  {
    seq(|cs|, i requires 0 <= i < |cs| => cs[i].(seen := true))
  }

  /** lodash `filter(changes, c => !c.seen)`: the changes not reported yet, in log order. */
  function Unseen(cs: seq<Change>): (r: seq<Change>)
    ensures |r| <= |cs|
    ensures forall c :: c in r <==> c in cs && !c.seen
  {
    if cs == [] then []
    else Unseen(cs[..|cs| - 1]) + (if cs[|cs| - 1].seen then [] else [cs[|cs| - 1]])
  }

  /** Once every change is marked seen, there is nothing new to report. */
  lemma {:induction false} UnseenOfMarked(cs: seq<Change>)
    ensures Unseen(MarkSeen(cs)) == []
    decreases |cs|
  {
    if cs != [] {
      var m := MarkSeen(cs);
      assert m[..|m| - 1] == MarkSeen(cs[..|cs| - 1]);
      UnseenOfMarked(cs[..|cs| - 1]);
    }
  }

  function NoticeOf(c: Change, seen: bool): Notice
  {
    Notice(c.keypath, c.newVal, c.oldVal, seen)
  }

  // ---------------------------------------------------------------------------
  // The shape invariant across the deep writes

  /** The wrapped tree's invariant: well formed, with nothing holding the root. */
  ghost predicate Wrapped(h: Heap, root: NodeId)
  {
    HeapValid(h) && root in h.nodes && Unreferenced(h, root)
  }

  lemma SetDeepValid(h: Heap, root: NodeId, keypath: Path, v: Value)
    requires Wrapped(h, root) && keypath != [] && IsContainer(h, Holder(h, Ref(root), keypath))
    requires Placeable(h, Holder(h, Ref(root), keypath).id, v) && v != Ref(root)
    ensures SetDeep(h, Ref(root), keypath, v).Some? && Wrapped(SetDeep(h, Ref(root), keypath, v).value.0, root)
  {
    SetDeepMeaning(h, Ref(root), keypath, v);
    StoreAtValid(h, Holder(h, Ref(root), keypath).id, keypath[|keypath| - 1], v);
  }

  lemma ClearValid(s: ModState, root: NodeId, keypath: Path)
    requires Wrapped(s.heap, root)
    ensures Wrapped(Clear(s, root, keypath).heap, root)
  {
    SetDeepMeaning(s.heap, Ref(root), keypath, Absent);
    if SetDeep(s.heap, Ref(root), keypath, Absent).Some? {
      SetDeepValid(s.heap, root, keypath, Absent);
    }
  }

  lemma PlaceValid(h: Heap, root: NodeId, keypath: Path, v: Json)
    requires Wrapped(h, root) && !IsComposite(v)
    ensures var (h2, val) := Place(h, v);
      && Wrapped(h2, root)
      && (SetDeep(h2, Ref(root), keypath, val).Some? ==> Wrapped(SetDeep(h2, Ref(root), keypath, val).value.0, root))
  {
    var (h2, val) := Place(h, v);
    if val.Ref? {
      AllocValid(h, v.JArr?);
      assert root != h.next;
    }
    SetDeepMeaning(h2, Ref(root), keypath, val);
    if SetDeep(h2, Ref(root), keypath, val).Some? {
      if val.Ref? {
        GetAlloc(h, v.JArr?, Ref(root), keypath[..|keypath| - 1]);
      }
      SetDeepValid(h2, root, keypath, val);
    }
  }

  // ---------------------------------------------------------------------------
  // The class

  /** `ObjectModifier`: the wrapped tree and the log of its modifications. */
  class ObjectModifier {
    const tree: Tree
    var changes: seq<Change>

    ghost predicate Valid()
      reads this, tree
    {
      Wrapped(tree.heap, tree.root)
    }

    function State(): ModState
      reads this, tree
    {
      ModState(tree.heap, changes)
    }

    constructor(t: Tree)
      requires Wrapped(t.heap, t.root)
      ensures tree == t && changes == [] && Valid()
    {
      tree := t;
      changes := [];
    }

    /** The removal step of `set`. */
    method ClearAt(keypath: Path)
      requires Valid()
      modifies this, tree
      ensures Valid() && State() == Clear(old(State()), tree.root, keypath)
    {
      ClearValid(State(), tree.root, keypath);
      var removed := SetPrimitiveDeep(tree, Ref(tree.root), keypath, Absent);
      if removed.Some? && removed.value != Absent {
        changes := changes + Rebase(keypath, RemovalChanges(tree.heap, removed.value));
      }
    }

    /** `_setPrimitive(keypath, v)`. */
    method SetPrimitive(keypath: Path, v: Json)
      requires Valid() && keypath != [] && !IsComposite(v)
      modifies this, tree
      ensures Valid() && State() == PutLeaf(old(State()), tree.root, keypath, v)
    {
      var newPaths := EnsurePath(tree, Ref(tree.root), keypath);
      var placed := Place(tree.heap, v);
      PlaceValid(tree.heap, tree.root, keypath, v);
      tree.heap := placed.0;
      var _ := SetPrimitiveDeep(tree, Ref(tree.root), keypath, placed.1);
      changes := changes + Creations(newPaths) + [Change(keypath, Absent, placed.1, false)];
    }

    method SetLeafAt(keypath: Path, v: Json)
      requires Valid() && keypath != [] && !IsComposite(v)
      modifies this, tree
      ensures Valid() && State() == SetLeaf(old(State()), tree.root, keypath, v)
    {
      ClearAt(keypath);
      SetPrimitive(keypath, v);
    }

    method SetValue(keypath: Path, v: Json)
      requires Valid() && (keypath != [] || IsComposite(v))
      modifies this, tree
      ensures Valid() && State() == AfterSet(old(State()), tree.root, keypath, v)
      decreases v, 1
    {
      if IsComposite(v) {
        ClearAt(keypath);
        SetKeysAt(keypath, v);
      } else {
        SetLeafAt(keypath, v);
      }
    }

    /** The loop of `set` over the keys of a composite value. */
    method SetKeysAt(keypath: Path, v: Json)
      requires Valid()
      modifies this, tree
      ensures Valid() && State() == SetKeys(old(State()), tree.root, keypath, v, JsonKeys(v))
      decreases v, 0
    {
      var ks := JsonKeys(v);
      ghost var s0 := State();
      var i := 0;
      while i < |ks|
        invariant 0 <= i <= |ks| && Valid()
        invariant SetKeys(State(), tree.root, keypath, v, ks[i..]) == SetKeys(s0, tree.root, keypath, v, ks)
      {
        ghost var before := State();
        SetChildAt(keypath, v, ks[i]);
        SetKeysStep(before, tree.root, keypath, v, ks, i);
        i := i + 1;
      }
    }

    /** `set(keypath.concat([k]), v[k])`. */
    method SetChildAt(keypath: Path, v: Json, k: Key)
      requires Valid()
      modifies this, tree
      ensures Valid() && State() == SetChild(old(State()), tree.root, keypath, v, k)
      decreases v, 0, 0
    {
      var c := JsonChild(v, k);
      if IsComposite(c) {
        SetValue(keypath + [k], c);
      } else {
        SetLeafAt(keypath + [k], c);
      }
    }

    /**
     * `set(keypath, v)`. The flag is `false` where JavaScript throws: a
     * value written whole at the empty keypath; nothing changes then.
     */
    method Set(keypath: Path, v: Json) returns (ok: bool)
      requires Valid()
      modifies this, tree
      ensures Valid() && ok == (keypath != [] || IsComposite(v))
      ensures State() == if ok then AfterSet(old(State()), tree.root, keypath, v) else old(State())
    {
      ok := keypath != [] || IsComposite(v);
      if ok {
        SetValue(keypath, v);
      }
    }

    /** `remove(keypath)`: `set(keypath, undefined)`. */
    method Remove(keypath: Path) returns (ok: bool)
      requires Valid()
      modifies this, tree
      ensures Valid() && ok == (keypath != [])
      ensures State() == if ok then AfterSet(old(State()), tree.root, keypath, Undef) else old(State())
    {
      ok := Set(keypath, Undef);
    }

    /** The walk `push` and `pop` start with. */
    method WalkTo(keypath: Path) returns (target: Value)
      requires Valid()
      ensures target == Walk(tree.heap, Ref(tree.root), keypath)
    {
      target := Ref(tree.root);
      var i := 0;
      var going := true;
      while i < |keypath| && going
        invariant 0 <= i <= |keypath|
        invariant going ==> IsContainer(tree.heap, target) && Walk(tree.heap, target, keypath[i..]) == Walk(tree.heap, Ref(tree.root), keypath)
        invariant !going ==> target == Walk(tree.heap, Ref(tree.root), keypath)
        decreases |keypath| - i
      {
        assert keypath[i..][1..] == keypath[i + 1..];
        target := Lookup(tree.heap.nodes[target.id], keypath[i]);
        going := IsContainer(tree.heap, target);
        i := i + 1;
      }
    }

    /** `push(keypath, ...values)`; `false` where JavaScript throws. */
    method Push(keypath: Path, values: seq<Json>) returns (ok: bool)
      requires Valid()
      modifies this, tree
      ensures Valid() && (State(), ok) == AfterPush(old(State()), tree.root, keypath, values)
      decreases |values|
    {
      if values == [] {
        return true;
      }
      var target := WalkTo(keypath);
      if IsArrayIn(tree.heap, target) {
        SetValue(keypath + [Index(tree.heap.nodes[target.id].length)], values[0]);
      } else if target == Absent {
        SetValue(keypath + [Index(0)], values[0]);
      } else {
        return false;
      }
      ok := Push(keypath, values[1..]);
    }

    /** `pop(keypath)`; `false` where JavaScript throws. */
    method Pop(keypath: Path) returns (ok: bool)
      requires Valid()
      modifies this, tree
      ensures Valid() && ok == AfterPop(old(State()), tree.root, keypath).Some?
      ensures State() == if ok then AfterPop(old(State()), tree.root, keypath).value else old(State())
    {
      var target := WalkTo(keypath);
      if IsArrayIn(tree.heap, target) {
        var i := LastIndex(tree.heap.nodes[target.id]);
        SetValue(keypath + [Index(i)], Undef);
        ok := true;
      } else {
        ok := false;
      }
    }

    /** `reset()`: forget the log; the tree stays as it is. */
    method Reset()
      modifies this
      ensures changes == []
    {
      changes := [];
    }

    /**
     * `_generateChangesTree()`: run `forEachChange` with a callback that
     * files each change, with the `seen` flag it had, under its keypath.
     */
    method GenerateTree() returns (t: ChangesTree)
      modifies this
      ensures t == Generate(old(changes)) && changes == MarkSeen(old(changes))
    {
      var cs := changes;
      t := EmptyTree;
      var i := 0;
      while i < |cs|
        invariant 0 <= i <= |cs| && |changes| == |cs|
        invariant t == Generate(cs[..i])
        invariant forall j :: 0 <= j < i ==> changes[j] == cs[j].(seen := true)
        invariant forall j :: i <= j < |cs| ==> changes[j] == cs[j]
      {
        assert cs[..i + 1][..i] == cs[..i];
        t := Insert(t, cs[i].keypath, EntryOf(cs[i]));
        changes := changes[i := changes[i].(seen := true)];
        i := i + 1;
      }
      assert cs[..i] == cs;
    }

    /** `compact()`: rebuild the log from the compacted changes tree. */
    method Compact()
      modifies this
      ensures changes == CompactLog(old(changes))
    {
      var t := GenerateTree();
      t := CompactNodes(t);
      changes := Zip(t);
    }

    /** `compress()`: rebuild the log from the compressed changes tree. */
    method Compress()
      modifies this
      ensures changes == CompressLog(old(changes))
    {
      var t := GenerateTree();
      changes := Zip(CompressTree(t));
    }

    /** `forEachChange(cb)`: the calls made to `cb`, in log order; every change is then seen. */
    method ForEachChange() returns (notices: seq<Notice>)
      modifies this
      ensures changes == MarkSeen(old(changes)) && |notices| == |old(changes)|
      ensures forall i :: 0 <= i < |notices| ==> notices[i] == NoticeOf(old(changes)[i], old(changes)[i].seen)
    {
      var cs := changes;
      notices := [];
      var i := 0;
      while i < |cs|
        invariant 0 <= i <= |cs| && |changes| == |cs| && |notices| == i
        invariant forall j :: 0 <= j < i ==> changes[j] == cs[j].(seen := true) && notices[j] == NoticeOf(cs[j], cs[j].seen)
        invariant forall j :: i <= j < |cs| ==> changes[j] == cs[j]
      {
        var seen := changes[i].seen;
        changes := changes[i := changes[i].(seen := true)];
        notices := notices + [NoticeOf(cs[i], seen)];
        i := i + 1;
      }
    }

    /** `forEachNewChange(cb)`: the calls made to `cb`, one per unseen change in log order; all are then seen. */
    method ForEachNewChange() returns (notices: seq<Notice>)
      modifies this
      ensures changes == MarkSeen(old(changes))
      ensures |notices| == |Unseen(old(changes))|
      ensures forall i :: 0 <= i < |notices| ==> notices[i] == NoticeOf(Unseen(old(changes))[i], false)
    {
      var pending := Unseen(changes);
      notices := [];
      var i := 0;
      while i < |pending|
        invariant 0 <= i <= |pending| && |notices| == i
        invariant forall j :: 0 <= j < i ==> notices[j] == NoticeOf(pending[j], false)
      {
        notices := notices + [NoticeOf(pending[i], false)];
        i := i + 1;
      }
      changes := MarkSeen(changes);
    }
  }
}
