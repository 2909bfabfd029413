/**
 * The values a keypath addresses and the values that travel between trees.
 *
 * A tree held in memory is a graph of container objects (see Heaps); a value
 * that leaves a tree (a diff or patch entry, an initial state, the argument of
 * a `set`) is a snapshot, `Json`.
 */
module Values {

  datatype Option<T> = None | Some(value: T)

  datatype Primitive = Null | Bool(b: bool) | Num(n: int) | Str(s: string)

  /**
   * One keypath component. JavaScript converts every property key to a
   * string; a key that is a non-negative integer (the number 3 or the string
   * "3") is kept as `Index`, every other key (-8, 1.1, "foo") as `Name`.
   */
  datatype Key = Index(i: nat) | Name(s: string)

  type Path = seq<Key>

  /** A snapshot of a tree: `Undef` is JavaScript's `undefined` (and an array hole). */
  datatype Json =
    | Undef
    | JPrim(p: Primitive)
    | JObj(fields: map<Key, Json>)
    | JArr(items: seq<Json>)

  // ---------------------------------------------------------------------------
  // A fixed enumeration order on keys: indices ascending, then names in
  // lexicographic order.

  predicate StrLess(a: string, b: string)
  {
    if a == [] then b != []
    else if b == [] then false
    else if a[0] != b[0] then a[0] < b[0]
    else StrLess(a[1..], b[1..])
  }

  predicate KeyLess(a: Key, b: Key)
  {
    match (a, b)
    case (Index(i), Index(j)) => i < j
    case (Index(_), Name(_)) => true
    case (Name(_), Index(_)) => false
    case (Name(s), Name(t)) => StrLess(s, t)
  }

  lemma {:induction false} StrLessIrreflexive(a: string)
    ensures !StrLess(a, a)
  {
    if a != [] { StrLessIrreflexive(a[1..]); }
  }

  lemma {:induction false} StrLessTransitive(a: string, b: string, c: string)
    requires StrLess(a, b) && StrLess(b, c)
    ensures StrLess(a, c)
  {
    if a != [] && b != [] && c != [] && a[0] == b[0] && b[0] == c[0] {
      StrLessTransitive(a[1..], b[1..], c[1..]);
    }
  }

  lemma {:induction false} StrLessTotal(a: string, b: string)
    requires a != b
    ensures StrLess(a, b) || StrLess(b, a)
  {
    if a != [] && b != [] && a[0] == b[0] {
      assert a == [a[0]] + a[1..] && b == [b[0]] + b[1..];
      StrLessTotal(a[1..], b[1..]);
    }
  }

  lemma KeyLessIsStrictTotalOrder()
    ensures forall a :: !KeyLess(a, a)
    ensures forall a, b, c :: KeyLess(a, b) && KeyLess(b, c) ==> KeyLess(a, c)
    ensures forall a, b :: a != b ==> KeyLess(a, b) || KeyLess(b, a)
  {
    forall a ensures !KeyLess(a, a) {
      if a.Name? { StrLessIrreflexive(a.s); }
    }
    forall a, b, c | KeyLess(a, b) && KeyLess(b, c) ensures KeyLess(a, c) {
      if a.Name? && b.Name? && c.Name? { StrLessTransitive(a.s, b.s, c.s); }
    }
    forall a, b | a != b ensures KeyLess(a, b) || KeyLess(b, a) {
      if a.Name? && b.Name? { StrLessTotal(a.s, b.s); }
    }
  }

  predicate IsLeast(m: Key, s: set<Key>)
  {
    m in s && forall k :: k in s && k != m ==> KeyLess(m, k)
  }

  lemma {:induction false} LeastExists(s: set<Key>)
    requires s != {}
    ensures exists m :: IsLeast(m, s)
    decreases |s|
  {
    KeyLessIsStrictTotalOrder();
    var x :| x in s;
    if s - {x} == {} {
      assert s == {x};
      assert IsLeast(x, s);
    } else {
      LeastExists(s - {x});
      var m :| IsLeast(m, s - {x});
      if KeyLess(x, m) {
        forall k | k in s && k != x ensures KeyLess(x, k) {
          if k != m { assert KeyLess(m, k); }
        }
        assert IsLeast(x, s);
      } else {
        assert IsLeast(m, s);
      }
    }
  }

  function Least(s: set<Key>): (m: Key)
    requires s != {}
    ensures IsLeast(m, s)
  {
    LeastExists(s);
    KeyLessIsStrictTotalOrder();
    var m :| IsLeast(m, s);
    m
  }

  predicate StrictlySorted(ks: seq<Key>)
  {
    forall i, j :: 0 <= i < j < |ks| ==> KeyLess(ks[i], ks[j])
  }

  /** The keys of `s` in enumeration order. */
  function SortedKeys(s: set<Key>): (ks: seq<Key>)
    ensures StrictlySorted(ks)
    ensures forall k :: k in ks <==> k in s
    ensures |ks| == |s|
    decreases |s|
  {
    if s == {} then []
    else
      var m := Least(s);
      var rest := SortedKeys(s - {m});
      assert forall i :: 0 <= i < |rest| ==> KeyLess(m, rest[i]) by {
        forall i | 0 <= i < |rest| ensures KeyLess(m, rest[i]) {
          assert rest[i] in s - {m};
        }
      }
      [m] + rest
  }

  /** 0, 1, ..., n - 1 as keys. */
  function Indices(n: nat): (ks: seq<Key>)
    ensures |ks| == n && forall i :: 0 <= i < n ==> ks[i] == Index(i)
  {
    seq(n, i requires 0 <= i < n => Index(i))
  }

  /** A non-empty path is its first key followed by the rest. */
  lemma ConsTail(path: Path)
    requires path != []
    ensures [path[0]] + path[1..] == path
  {
  }

  /** A non-empty prefix of a path is its first key followed by a prefix of the rest. */
  lemma PrefixCons(path: Path, i: nat)
    requires 1 <= i <= |path|
    ensures path[..i] == [path[0]] + path[1..][..i - 1]
  {
  }

  // ---------------------------------------------------------------------------
  // Snapshots

  /**
   * A value that `set` writes key by key: a non-empty map or array. Strings,
   * other primitives, `undefined` and empty containers are written whole
   * (lodash `!isEmpty(v) && !isString(v)`).
   */
  predicate IsComposite(v: Json)
  {
    (v.JObj? && v.fields != map[]) || (v.JArr? && v.items != [])
  }

  predicate IsContainerJson(v: Json)
  {
    v.JObj? || v.JArr?
  }

  /** The keys lodash `keys` enumerates: every index of an array, holes included. */
  function JsonKeys(v: Json): (ks: seq<Key>)
    ensures v.JObj? ==> forall k :: k in ks <==> k in v.fields
    ensures v.JArr? ==> ks == Indices(|v.items|)
    ensures !IsContainerJson(v) ==> ks == []
  {
    match v
    case JObj(f) => SortedKeys(f.Keys)
    case JArr(items) => Indices(|items|)
    case _ => []
  }

  /** `v[k]`, reading `undefined` where there is nothing. */
  function JsonChild(v: Json, k: Key): (c: Json)
    ensures c != Undef ==> c < v
  {
    match v
    case JObj(f) => if k in f then f[k] else Undef
    case JArr(items) => if k.Index? && k.i < |items| then items[k.i] else Undef
    case _ => Undef
  }

  /** The value at a path of a snapshot; `undefined` once the path leaves the containers. */
  function JsonGet(v: Json, path: Path): Json
    decreases |path|
  {
    if path == [] then v else JsonGet(JsonChild(v, path[0]), path[1..])
  }

  /** No array anywhere in the snapshot. */
  predicate ArrayFree(v: Json)
  {
    match v
    case JArr(_) => false
    case JObj(f) => forall k :: k in f ==> ArrayFree(f[k])
    case _ => true
  }
}
