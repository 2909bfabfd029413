/**
 * The modification log of an ObjectModifier and the changes tree it is
 * regrouped into by `compact` and `compress`
 * (src/utils/objectModifier.js:212-335).
 *
 * The log is a list of changes in the order they were made. To compact or
 * compress it, the changes are sorted into a tree whose nodes correspond to
 * keypaths (each node keeping its own changes in log order), every node is
 * rewritten, and the tree is flattened back into a list: a node's own
 * changes first, then its children's.
 */
module ChangeLogs {
  import opened Values
  import opened Heaps

  /** One log entry: the value at `keypath` went from `oldVal` to `newVal`; `seen` says whether it was reported. */
  datatype Change = Change(keypath: Path, oldVal: Value, newVal: Value, seen: bool)

  /** A change as kept in a node of the changes tree, whose position gives the keypath. */
  datatype Entry = Entry(oldVal: Value, newVal: Value, seen: bool)

  function EntryOf(c: Change): Entry
  {
    Entry(c.oldVal, c.newVal, c.seen)
  }

  /** The changes recorded for exactly the keypath `p`, in log order. */
  function Filter(cs: seq<Change>, p: Path): (es: seq<Entry>)
    ensures |es| <= |cs|
  {
    if cs == [] then []
    else Filter(cs[..|cs| - 1], p) + (if cs[|cs| - 1].keypath == p then [EntryOf(cs[|cs| - 1])] else [])
  }

  lemma {:induction false} FilterConcat(a: seq<Change>, b: seq<Change>, p: Path)
    ensures Filter(a + b, p) == Filter(a, p) + Filter(b, p)
    decreases |b|
  {
    if b == [] {
      assert a + b == a;
    } else {
      var ab := a + b;
      assert ab[..|ab| - 1] == a + b[..|b| - 1];
      assert ab[|ab| - 1] == b[|b| - 1];
      FilterConcat(a, b[..|b| - 1], p);
    }
  }

  lemma {:induction false} FilterHas(cs: seq<Change>, i: nat, p: Path)
    requires i < |cs| && cs[i].keypath == p
    ensures Filter(cs, p) != []
    decreases |cs|
  {
    if i < |cs| - 1 {
      FilterHas(cs[..|cs| - 1], i, p);
    }
  }

  /** An entry is filed under `p` exactly when some change of the log at keypath `p` gave it. */
  lemma {:induction false} FilterMember(cs: seq<Change>, p: Path, e: Entry)
    ensures e in Filter(cs, p) <==> exists i :: 0 <= i < |cs| && cs[i].keypath == p && EntryOf(cs[i]) == e
    decreases |cs|
  {
    if cs != [] {
      var n := |cs|;
      var init := cs[..n - 1];
      FilterMember(init, p, e);
      if e in Filter(cs, p) && e !in Filter(init, p) {
        assert cs[n - 1].keypath == p && EntryOf(cs[n - 1]) == e;
      }
      if exists i :: 0 <= i < n && cs[i].keypath == p && EntryOf(cs[i]) == e {
        var i :| 0 <= i < n && cs[i].keypath == p && EntryOf(cs[i]) == e;
        if i < n - 1 {
          assert init[i] == cs[i];
        }
      }
      if e in Filter(init, p) {
        var i :| 0 <= i < n - 1 && init[i].keypath == p && EntryOf(init[i]) == e;
        assert cs[i] == init[i];
      }
    }
  }

  lemma {:induction false} FilterHasTwo(cs: seq<Change>, i: nat, j: nat, p: Path)
    requires i < j < |cs| && cs[i].keypath == p && cs[j].keypath == p
    ensures |Filter(cs, p)| >= 2
    decreases |cs|
  {
    if j < |cs| - 1 {
      FilterHasTwo(cs[..|cs| - 1], i, j, p);
    } else {
      FilterHas(cs[..|cs| - 1], i, p);
    }
  }

  // ---------------------------------------------------------------------------
  // The changes tree

  datatype ChangesTree = ChangesTree(changes: seq<Entry>, children: map<Key, ChangesTree>)

  const EmptyTree := ChangesTree([], map[])

  /** The changes held by the node at `p` (none when there is no such node). */
  function At(t: ChangesTree, p: Path): seq<Entry>
    decreases |p|
  {
    if p == [] then t.changes
    else if p[0] in t.children then At(t.children[p[0]], p[1..])
    else []
  }

  /** Walk down `p`, creating missing nodes, and append `e` to the node reached. */
  function Insert(t: ChangesTree, p: Path, e: Entry): ChangesTree
    decreases |p|
  {
    if p == [] then t.(changes := t.changes + [e])
    else
      var c := if p[0] in t.children then t.children[p[0]] else EmptyTree;
      t.(children := t.children[p[0] := Insert(c, p[1..], e)])
  }

  lemma {:induction false} InsertAt(t: ChangesTree, p: Path, e: Entry, q: Path)
    ensures At(Insert(t, p, e), q) == if q == p then At(t, q) + [e] else At(t, q)
    decreases |p|
  {
    if p != [] && q != [] && q[0] == p[0] {
      var c := if p[0] in t.children then t.children[p[0]] else EmptyTree;
      InsertAt(c, p[1..], e, q[1..]);
      assert q == p <==> q[1..] == p[1..] by {
        assert q == [q[0]] + q[1..] && p == [p[0]] + p[1..];
      }
    }
  }

  /** `_generateChangesTree` (src/utils/objectModifier.js:212-229): the changes sorted by keypath. */
  function Generate(cs: seq<Change>): ChangesTree
  {
    if cs == [] then EmptyTree
    else Insert(Generate(cs[..|cs| - 1]), cs[|cs| - 1].keypath, EntryOf(cs[|cs| - 1]))
  }

  /** Each node of the changes tree holds exactly the changes of its keypath, in log order. */
  lemma {:induction false} GenerateAt(cs: seq<Change>, p: Path)
    ensures At(Generate(cs), p) == Filter(cs, p)
  {
    if cs != [] {
      GenerateAt(cs[..|cs| - 1], p);
      InsertAt(Generate(cs[..|cs| - 1]), cs[|cs| - 1].keypath, EntryOf(cs[|cs| - 1]), p);
    }
  }

  // ---------------------------------------------------------------------------
  // Flattening (`_zipChangesTree`, src/utils/objectModifier.js:263-284)

  /** A node's own changes, at the empty keypath. */
  function Own(es: seq<Entry>): (cs: seq<Change>)
    ensures |cs| == |es|
    ensures forall i :: 0 <= i < |es| ==> cs[i].keypath == [] && EntryOf(cs[i]) == es[i]
  {
    seq(|es|, i requires 0 <= i < |es| => Change([], es[i].oldVal, es[i].newVal, es[i].seen))
  }

  /** A child's changes, with the child's key put in front of each keypath. */
  function Under(k: Key, cs: seq<Change>): (r: seq<Change>)
    ensures |r| == |cs|
    ensures forall i :: 0 <= i < |cs| ==> r[i].keypath == [k] + cs[i].keypath && EntryOf(r[i]) == EntryOf(cs[i])
  {
    seq(|cs|, i requires 0 <= i < |cs| => cs[i].(keypath := [k] + cs[i].keypath))
  }

  /** The tree as a list: the node's own changes, then each child's in key order. */
  function Zip(t: ChangesTree): seq<Change>
    decreases t, 1
  {
    Own(t.changes) + ZipChildren(t, SortedKeys(t.children.Keys))
  }

  function ZipChildren(t: ChangesTree, ks: seq<Key>): seq<Change>
    requires forall k :: k in ks ==> k in t.children
    decreases t, 0, |ks|
  {
    if ks == [] then [] else Under(ks[0], Zip(t.children[ks[0]])) + ZipChildren(t, ks[1..])
  }

  lemma {:induction false} FilterOwn(es: seq<Entry>, p: Path)
    ensures Filter(Own(es), p) == if p == [] then es else []
  {
    if es != [] {
      var n := |es|;
      var o := Own(es);
      assert o[..n - 1] == Own(es[..n - 1]);
      FilterOwn(es[..n - 1], p);
      assert Filter(o, p) == Filter(o[..n - 1], p) + (if [] == p then [es[n - 1]] else []);
      assert es == es[..n - 1] + [es[n - 1]];
    }
  }

  lemma {:induction false} FilterUnder(k: Key, cs: seq<Change>, p: Path)
    ensures Filter(Under(k, cs), p) == if p != [] && p[0] == k then Filter(cs, p[1..]) else []
  {
    if cs != [] {
      var n := |cs|;
      var u := Under(k, cs);
      assert u[..n - 1] == Under(k, cs[..n - 1]);
      FilterUnder(k, cs[..n - 1], p);
      var q := cs[n - 1].keypath;
      assert [k] + q == p <==> p != [] && p[0] == k && q == p[1..] by {
        if p != [] && p[0] == k && q == p[1..] { assert p == [p[0]] + p[1..]; }
      }
      assert Filter(u, p) == Filter(u[..n - 1], p) + (if [k] + q == p then [EntryOf(cs[n - 1])] else []);
      if p != [] && p[0] == k {
        assert Filter(cs, p[1..]) == Filter(cs[..n - 1], p[1..]) + (if q == p[1..] then [EntryOf(cs[n - 1])] else []);
      }
    }
  }

  predicate Distinct(ks: seq<Key>)
  {
    forall i, j :: 0 <= i < j < |ks| ==> ks[i] != ks[j]
  }

  lemma SortedKeysDistinct(s: set<Key>)
    ensures Distinct(SortedKeys(s))
  {
    KeyLessIsStrictTotalOrder();
  }

  /** The flattened tree lists, for each keypath, exactly the changes of its node, in order. */
  lemma {:induction false} ZipAt(t: ChangesTree, p: Path)
    ensures Filter(Zip(t), p) == At(t, p)
    decreases t, 1
  {
    var ks := SortedKeys(t.children.Keys);
    var own, kids := Own(t.changes), ZipChildren(t, ks);
    assert Zip(t) == own + kids;
    SortedKeysDistinct(t.children.Keys);
    FilterConcat(own, kids, p);
    FilterOwn(t.changes, p);
    ZipChildrenAt(t, ks, p);
    if p == [] {
      assert Filter(own, p) + Filter(kids, p) == t.changes + [];
    } else {
      assert p[0] in ks <==> p[0] in t.children;
      assert Filter(own, p) + Filter(kids, p) == [] + Filter(kids, p);
    }
  }

  lemma {:induction false} ZipChildrenAt(t: ChangesTree, ks: seq<Key>, p: Path)
    requires forall k :: k in ks ==> k in t.children
    requires Distinct(ks)
    ensures Filter(ZipChildren(t, ks), p) ==
      if p != [] && p[0] in ks then At(t.children[p[0]], p[1..]) else []
    decreases t, 0, |ks|
  {
    if ks != [] {
      var c := t.children[ks[0]];
      var a, b := Under(ks[0], Zip(c)), ZipChildren(t, ks[1..]);
      assert ZipChildren(t, ks) == a + b;
      FilterConcat(a, b, p);
      FilterUnder(ks[0], Zip(c), p);
      assert Distinct(ks[1..]);
      ZipChildrenAt(t, ks[1..], p);
      if p != [] && p[0] == ks[0] {
        ZipAt(c, p[1..]);
        assert p[0] !in ks[1..];
      } else if p != [] && p[0] in ks {
        assert p[0] in ks[1..];
      }
    }
  }

  /** `p` lies strictly below `q`: `q` is a proper prefix of `p`. */
  predicate Below(p: Path, q: Path)
  {
    |q| < |p| && p[..|q|] == q
  }

  /** No change is listed before a change at one of its ancestors. */
  predicate AncestorsFirst(cs: seq<Change>)
  {
    forall i, j :: 0 <= i < j < |cs| ==> !Below(cs[i].keypath, cs[j].keypath)
  }

  lemma {:induction false} AncestorsFirstConcat(a: seq<Change>, b: seq<Change>)
    requires AncestorsFirst(a) && AncestorsFirst(b)
    requires forall x, y :: x in a && y in b ==> !Below(x.keypath, y.keypath)
    ensures AncestorsFirst(a + b)
  {
    var ab := a + b;
    forall i, j | 0 <= i < j < |ab| ensures !Below(ab[i].keypath, ab[j].keypath) {
      if j < |a| {
        assert ab[i] == a[i] && ab[j] == a[j];
      } else if i >= |a| {
        assert ab[i] == b[i - |a|] && ab[j] == b[j - |a|];
      } else {
        assert ab[i] in a && ab[j] in b;
      }
    }
  }

  lemma BelowCons(k: Key, p: Path, q: Path)
    ensures Below([k] + p, [k] + q) <==> Below(p, q)
  {
    if |q| < |p| {
      assert ([k] + p)[..|q| + 1] == [k] + p[..|q|];
      if [k] + p[..|q|] == [k] + q {
        assert ([k] + p[..|q|])[1..] == p[..|q|] && ([k] + q)[1..] == q;
      }
    }
  }

  lemma BelowHead(p: Path, q: Path)
    requires q != [] && Below(p, q)
    ensures p[0] == q[0]
  {
    assert p[..|q|][0] == p[0];
  }

  lemma {:induction false} AncestorsFirstUnder(k: Key, cs: seq<Change>)
    requires AncestorsFirst(cs)
    ensures AncestorsFirst(Under(k, cs))
  {
    var r := Under(k, cs);
    forall i, j | 0 <= i < j < |r| ensures !Below(r[i].keypath, r[j].keypath) {
      BelowCons(k, cs[i].keypath, cs[j].keypath);
    }
  }

  /** Every change of the children's part sits under one of the listed keys. */
  lemma {:induction false} ZipChildrenKeys(t: ChangesTree, ks: seq<Key>)
    requires forall k :: k in ks ==> k in t.children
    ensures forall c :: c in ZipChildren(t, ks) ==> c.keypath != [] && c.keypath[0] in ks
    decreases |ks|
  {
    if ks != [] {
      var u := Under(ks[0], Zip(t.children[ks[0]]));
      ZipChildrenKeys(t, ks[1..]);
      forall c | c in u ensures c.keypath != [] && c.keypath[0] == ks[0] {
        var i :| 0 <= i < |u| && u[i] == c;
        assert c.keypath == [ks[0]] + Zip(t.children[ks[0]])[i].keypath;
      }
    }
  }

  /** In the flattened tree a node's changes precede its descendants' (preorder). */
  lemma {:induction false} ZipAncestorsFirst(t: ChangesTree)
    ensures AncestorsFirst(Zip(t))
    decreases t, 1
  {
    var ks := SortedKeys(t.children.Keys);
    SortedKeysDistinct(t.children.Keys);
    ZipChildrenAncestorsFirst(t, ks);
    var own := Own(t.changes);
    forall x | x in own ensures x.keypath == [] {
      var i :| 0 <= i < |own| && own[i] == x;
    }
    AncestorsFirstConcat(own, ZipChildren(t, ks));
  }

  lemma {:induction false} ZipChildrenAncestorsFirst(t: ChangesTree, ks: seq<Key>)
    requires forall k :: k in ks ==> k in t.children
    requires Distinct(ks)
    ensures AncestorsFirst(ZipChildren(t, ks))
    decreases t, 0, |ks|
  {
    if ks != [] {
      var c := t.children[ks[0]];
      var u := Under(ks[0], Zip(c));
      var rest := ZipChildren(t, ks[1..]);
      ZipAncestorsFirst(c);
      AncestorsFirstUnder(ks[0], Zip(c));
      assert Distinct(ks[1..]);
      ZipChildrenAncestorsFirst(t, ks[1..]);
      ZipChildrenKeys(t, ks[1..]);
      forall x, y | x in u && y in rest ensures !Below(x.keypath, y.keypath) {
        var i :| 0 <= i < |u| && u[i] == x;
        assert x.keypath[0] == ks[0];
        assert y.keypath[0] in ks[1..] && ks[0] !in ks[1..];
        if Below(x.keypath, y.keypath) {
          BelowHead(x.keypath, y.keypath);
        }
      }
      AncestorsFirstConcat(u, rest);
    }
  }

  // ---------------------------------------------------------------------------
  // Compaction of one node (`_compactChangesTree`, src/utils/objectModifier.js:296-317)

  /**
   * The node's list after the compaction loop has reached index `i`, walking
   * down from the end: a pair (prev, cur) where cur starts from prev's new
   * value is cut out; unless cur returns to prev's old value, the merged
   * change is appended at the end of the list.
   */
  function CompactFrom(es: seq<Entry>, i: int): seq<Entry>
    requires i < |es|
    decreases i + 1
  {
    if i <= 0 then es
    else
      var cur, prev := es[i], es[i - 1];
      if cur.oldVal == prev.newVal then
        var rest := es[..i - 1] + es[i + 1..];
        if prev.oldVal != cur.newVal then CompactFrom(rest + [Entry(prev.oldVal, cur.newVal, cur.seen)], i - 1)
        else CompactFrom(rest, i - 2)
      else CompactFrom(es, i - 1)
  }

  function CompactList(es: seq<Entry>): seq<Entry>
  {
    CompactFrom(es, |es| - 1)
  }

  /** The compaction loop of one node, splicing the list in place. */
  method CompactEntries(es: seq<Entry>) returns (r: seq<Entry>)
    ensures r == CompactList(es)
  {
    r := es;
    var i := |r| - 1;
    while i > 0
      invariant i < |r|
      invariant CompactFrom(r, i) == CompactList(es)
      decreases i + 1
    {
      var cur, prev := r[i], r[i - 1];
      if cur.oldVal == prev.newVal {
        r := r[..i - 1] + r[i + 1..];
        if prev.oldVal != cur.newVal {
          r := r + [Entry(prev.oldVal, cur.newVal, cur.seen)];
        } else {
          i := i - 1;
        }
      }
      i := i - 1;
    }
  }

  /** Each change starts from the value the previous one left. */
  predicate IsChain(es: seq<Entry>)
  {
    forall j :: 0 < j < |es| ==> es[j].oldVal == es[j - 1].newVal
  }

  /** Every entry's old value is an old value of `es` and its new value a new value of `es`. */
  predicate DrawnFrom(r: seq<Entry>, es: seq<Entry>)
  {
    forall e :: e in r ==>
      (exists x :: x in es && x.oldVal == e.oldVal) && (exists y :: y in es && y.newVal == e.newVal)
  }

  lemma DrawnFromTrans(a: seq<Entry>, b: seq<Entry>, c: seq<Entry>)
    requires DrawnFrom(a, b) && DrawnFrom(b, c)
    ensures DrawnFrom(a, c)
  {
    forall e | e in a
      ensures (exists x :: x in c && x.oldVal == e.oldVal) && (exists y :: y in c && y.newVal == e.newVal)
    {
      var x :| x in b && x.oldVal == e.oldVal;
      var y :| y in b && y.newVal == e.newVal;
      var x' :| x' in c && x'.oldVal == x.oldVal;
      var y' :| y' in c && y'.newVal == y.newVal;
    }
  }

  lemma {:induction false} CompactFromShrinks(es: seq<Entry>, i: int)
    requires i < |es|
    ensures |CompactFrom(es, i)| <= |es|
    ensures DrawnFrom(CompactFrom(es, i), es)
    decreases i + 1
  {
    if i > 0 {
      var cur, prev := es[i], es[i - 1];
      if cur.oldVal == prev.newVal {
        var rest := es[..i - 1] + es[i + 1..];
        assert forall e :: e in rest ==> e in es;
        if prev.oldVal != cur.newVal {
          var m := rest + [Entry(prev.oldVal, cur.newVal, cur.seen)];
          assert CompactFrom(es, i) == CompactFrom(m, i - 1);
          CompactFromShrinks(m, i - 1);
          assert DrawnFrom(m, es);
          DrawnFromTrans(CompactFrom(m, i - 1), m, es);
        } else {
          assert CompactFrom(es, i) == CompactFrom(rest, i - 2);
          CompactFromShrinks(rest, i - 2);
          assert DrawnFrom(rest, es);
          DrawnFromTrans(CompactFrom(rest, i - 2), rest, es);
        }
      } else {
        assert CompactFrom(es, i) == CompactFrom(es, i - 1);
        CompactFromShrinks(es, i - 1);
      }
    } else {
      assert DrawnFrom(es, es);
    }
  }

  /** Compaction never lengthens a list and never invents a value. */
  lemma CompactShrinks(es: seq<Entry>)
    ensures |CompactList(es)| <= |es|
    ensures DrawnFrom(CompactList(es), es)
  {
    CompactFromShrinks(es, |es| - 1);
  }

  lemma {:induction false} CompactFromUnmatched(es: seq<Entry>, i: int)
    requires i < |es|
    requires forall j :: 0 < j <= i ==> es[j].oldVal != es[j - 1].newVal
    ensures CompactFrom(es, i) == es
    decreases i + 1
  {
    if i > 0 {
      CompactFromUnmatched(es, i - 1);
    }
  }

  /**
   * A list where no change starts from the value its predecessor left is kept
   * as it is; in particular a single change is kept even when its old and new
   * values are equal.
   */
  lemma CompactUnmatched(es: seq<Entry>)
    requires forall j :: 0 < j < |es| ==> es[j].oldVal != es[j - 1].newVal
    ensures CompactList(es) == es
  {
    CompactFromUnmatched(es, |es| - 1);
  }

  lemma {:induction false} CompactFromChain(es: seq<Entry>)
    requires IsChain(es) && |es| >= 1
    ensures var r := CompactFrom(es, |es| - 1);
      && |r| <= 1
      && (r == [] ==> es[0].oldVal == es[|es| - 1].newVal)
      && (r != [] ==> r[0].oldVal == es[0].oldVal && r[0].newVal == es[|es| - 1].newVal)
    decreases |es|
  {
    if |es| >= 2 {
      var i := |es| - 1;
      var cur, prev := es[i], es[i - 1];
      var rest := es[..i - 1];
      assert es[..i - 1] + es[i + 1..] == rest;
      if prev.oldVal != cur.newVal {
        var m := rest + [Entry(prev.oldVal, cur.newVal, cur.seen)];
        assert IsChain(m) by {
          forall j | 0 < j < |m| ensures m[j].oldVal == m[j - 1].newVal {
            if j < |m| - 1 { assert m[j] == es[j] && m[j - 1] == es[j - 1]; }
          }
        }
        CompactFromChain(m);
      } else if rest != [] {
        assert IsChain(rest);
        assert rest[|rest| - 1].newVal == es[i].newVal by {
          assert rest[|rest| - 1] == es[i - 2];
        }
        CompactFromChain(rest);
      }
    }
  }

  /**
   * Compacting a node whose changes form a chain (each starting where the
   * previous one ended) leaves at most one change, from the first old value
   * to the last new value; it leaves nothing only when those are equal.
   */
  lemma CompactChain(es: seq<Entry>)
    requires IsChain(es) && es != []
    ensures |CompactList(es)| <= 1
    ensures es[0].oldVal != es[|es| - 1].newVal ==> CompactList(es) != []
    ensures CompactList(es) != [] ==>
      CompactList(es)[0].oldVal == es[0].oldVal && CompactList(es)[0].newVal == es[|es| - 1].newVal
  {
    CompactFromChain(es);
  }

  // ---------------------------------------------------------------------------
  // Compaction and compression of the whole tree

  /** Every node compacted (`_compactChangesTree` recursing into the children). */
  function CompactTree(t: ChangesTree): ChangesTree
    decreases t
  {
    ChangesTree(CompactList(t.changes), map k | k in t.children :: CompactTree(t.children[k]))
  }

  lemma CompactedChildren(t: ChangesTree, kids: map<Key, ChangesTree>)
    requires kids.Keys <= t.children.Keys && !(kids.Keys < t.children.Keys)
    requires forall k :: k in kids ==> kids[k] == CompactTree(t.children[k])
    ensures kids == CompactTree(t).children
  {
    assert kids.Keys == t.children.Keys;
  }

  method CompactNodes(t: ChangesTree) returns (r: ChangesTree)
    ensures r == CompactTree(t)
    decreases t
  {
    var es := CompactEntries(t.changes);
    var kids: map<Key, ChangesTree> := map[];
    while kids.Keys < t.children.Keys
      invariant kids.Keys <= t.children.Keys
      invariant forall k :: k in kids ==> kids[k] == CompactTree(t.children[k])
      decreases |t.children.Keys - kids.Keys|
    {
      var k :| k in t.children.Keys - kids.Keys;
      var c := CompactNodes(t.children[k]);
      kids := kids[k := c];
    }
    CompactedChildren(t, kids);
    r := ChangesTree(es, kids);
  }

  lemma {:induction false} CompactTreeAt(t: ChangesTree, p: Path)
    ensures At(CompactTree(t), p) == CompactList(At(t, p))
    decreases |p|
  {
    if p != [] && p[0] in t.children {
      CompactTreeAt(t.children[p[0]], p[1..]);
    }
  }

  /** The first old value and the last new value of a non-empty list of changes. */
  function Squash(es: seq<Entry>): Entry
    requires es != []
  {
    Entry(es[0].oldVal, es[|es| - 1].newVal, false)
  }

  /**
   * `_compressChangesTree` (src/utils/objectModifier.js:325-335): a node with
   * changes keeps one change and loses its children; a node without changes
   * has its children compressed.
   */
  function CompressTree(t: ChangesTree): ChangesTree
    decreases t
  {
    if t.changes != [] then ChangesTree([Squash(t.changes)], map[])
    else ChangesTree([], map k | k in t.children :: CompressTree(t.children[k]))
  }

  /** Some node strictly above `p` holds a change. */
  predicate Shadowed(t: ChangesTree, p: Path)
    decreases |p|
  {
    p != [] && (t.changes != [] || (p[0] in t.children && Shadowed(t.children[p[0]], p[1..])))
  }

  lemma {:induction false} ShadowedMeaning(t: ChangesTree, p: Path)
    ensures Shadowed(t, p) <==> exists j :: 0 <= j < |p| && At(t, p[..j]) != []
    decreases |p|
  {
    if p != [] {
      assert p[..0] == [];
      if p[0] in t.children {
        var c := t.children[p[0]];
        ShadowedMeaning(c, p[1..]);
        forall j | 1 <= j <= |p| ensures At(t, p[..j]) == At(c, p[1..][..j - 1]) {
          PrefixCons(p, j);
        }
        if Shadowed(c, p[1..]) {
          var j :| 0 <= j < |p| - 1 && At(c, p[1..][..j]) != [];
          assert At(t, p[..j + 1]) != [];
        }
        if t.changes == [] && exists j :: 0 <= j < |p| && At(t, p[..j]) != [] {
          var j :| 0 <= j < |p| && At(t, p[..j]) != [];
          assert j >= 1;
          assert At(c, p[1..][..j - 1]) != [];
        }
      } else {
        forall j | 1 <= j < |p| ensures At(t, p[..j]) == [] {
          assert p[..j][0] == p[0];
        }
      }
    }
  }

  lemma {:induction false} CompressTreeAt(t: ChangesTree, p: Path)
    ensures At(CompressTree(t), p) ==
      if Shadowed(t, p) || At(t, p) == [] then [] else [Squash(At(t, p))]
    decreases |p|
  {
    if p != [] && t.changes == [] && p[0] in t.children {
      CompressTreeAt(t.children[p[0]], p[1..]);
    }
  }

  // ---------------------------------------------------------------------------
  // The log after `compact` and after `compress`

  /** `compact` (src/utils/objectModifier.js:149-153) on a log. */
  function CompactLog(cs: seq<Change>): seq<Change>
  {
    Zip(CompactTree(Generate(cs)))
  }

  /** `compress` (src/utils/objectModifier.js:160-164) on a log. */
  function CompressLog(cs: seq<Change>): seq<Change>
  {
    Zip(CompressTree(Generate(cs)))
  }

  /** Compaction works on each keypath's changes separately: it never merges changes of different keypaths. */
  lemma CompactLogAt(cs: seq<Change>, p: Path)
    ensures Filter(CompactLog(cs), p) == CompactList(Filter(cs, p))
  {
    ZipAt(CompactTree(Generate(cs)), p);
    CompactTreeAt(Generate(cs), p);
    GenerateAt(cs, p);
  }

  /**
   * After compression a keypath keeps one change, from its first old value to
   * its last new value, unless a keypath above it changed, in which case it
   * keeps nothing.
   */
  lemma CompressLogAt(cs: seq<Change>, p: Path)
    ensures (Filter(cs, p) == [] || exists j :: 0 <= j < |p| && Filter(cs, p[..j]) != []) ==>
      Filter(CompressLog(cs), p) == []
    ensures Filter(cs, p) != [] && (forall j :: 0 <= j < |p| ==> Filter(cs, p[..j]) == []) ==>
      Filter(CompressLog(cs), p) == [Entry(Filter(cs, p)[0].oldVal, Filter(cs, p)[|Filter(cs, p)| - 1].newVal, false)]
  {
    var t := Generate(cs);
    ZipAt(CompressTree(t), p);
    CompressTreeAt(t, p);
    GenerateAt(cs, p);
    ShadowedMeaning(t, p);
    forall j | 0 <= j < |p| ensures At(t, p[..j]) == Filter(cs, p[..j]) {
      GenerateAt(cs, p[..j]);
    }
  }

  /**
   * A compressed log is an antichain of keypaths: no two changes share a
   * keypath and none lies below another's.
   */
  lemma CompressLogAntichain(cs: seq<Change>)
    ensures var r := CompressLog(cs);
      forall i, j :: 0 <= i < |r| && 0 <= j < |r| && i != j ==>
        r[i].keypath != r[j].keypath && !Below(r[i].keypath, r[j].keypath)
  {
    var r := CompressLog(cs);
    forall i, j | 0 <= i < |r| && 0 <= j < |r| && i != j
      ensures r[i].keypath != r[j].keypath && !Below(r[i].keypath, r[j].keypath)
    {
      var p, q := r[i].keypath, r[j].keypath;
      CompressLogAt(cs, p);
      CompressLogAt(cs, q);
      FilterHas(r, i, p);
      FilterHas(r, j, q);
      if p == q {
        if i < j { FilterHasTwo(r, i, j, p); } else { FilterHasTwo(r, j, i, p); }
      }
    }
  }

  /** Both rewrites list a keypath's changes before those of the keypaths below it. */
  lemma LogsAncestorsFirst(cs: seq<Change>)
    ensures AncestorsFirst(CompactLog(cs))
    ensures AncestorsFirst(CompressLog(cs))
  {
    ZipAncestorsFirst(CompactTree(Generate(cs)));
    ZipAncestorsFirst(CompressTree(Generate(cs)));
  }
}
