/**
 * The bone-name correspondence tables of the add-on and the one function that
 * changes them, `update_mlab_bone_names`.
 *
 * A Python dict is modelled as its entries in insertion order, which is the
 * order in which the add-on's `for ... in d.items()` loops visit them.
 * `d[k] = v` keeps the position of an existing key and appends a new one.
 */
module NameTables {
  import opened Options

  /** One `key: value` pair of a dict. */
  datatype Entry = Entry(key: string, value: string)

  /** A string-to-string dict, entries in insertion order. */
  type Table = seq<Entry>

  /** The prefix Rigify gives to its deforming bones. */
  const DefPrefix: string := "DEF-"

  predicate HasDefPrefix(s: string) {
    |s| >= |DefPrefix| && s[..|DefPrefix|] == DefPrefix
  }

  predicate KeysDistinct(t: Table) {
    forall i, j | 0 <= i < j < |t| :: t[i].key != t[j].key
  }

  predicate ValuesDistinct(t: Table) {
    forall i, j | 0 <= i < j < |t| :: t[i].value != t[j].value
  }

  predicate HasKey(t: Table, k: string) {
    exists i | 0 <= i < |t| :: t[i].key == k
  }

  predicate HasValue(t: Table, v: string) {
    exists i | 0 <= i < |t| :: t[i].value == v
  }

  /** Position of the entry for key `k`, if there is one. */
  function Find(t: Table, k: string): (r: Option<nat>)
    ensures r.Some? ==> r.value < |t| && t[r.value].key == k
    ensures r.Some? ==> forall j | 0 <= j < r.value :: t[j].key != k
    ensures r.None? <==> !HasKey(t, k)
    decreases |t|
  {
    if |t| == 0 then None
    else if t[0].key == k then Some(0)
    else match Find(t[1..], k)
      case Some(i) => Some(i + 1)
      case None => None
  }

  /** `d.get(k)`: the value stored under `k`. */
  function Get(t: Table, k: string): (r: Option<string>)
    ensures r.None? <==> !HasKey(t, k)
    ensures KeysDistinct(t) ==>
      forall i | 0 <= i < |t| && t[i].key == k :: r == Some(t[i].value)
  {
    match Find(t, k)
    case Some(i) => Some(t[i].value)
    case None => None
  }

  /** `d[k] = v`. */
  function Put(t: Table, k: string, v: string): (r: Table)
    ensures Get(r, k) == Some(v)
    ensures forall k' | k' != k :: Get(r, k') == Get(t, k')
    ensures |t| <= |r| && forall i | 0 <= i < |t| :: r[i].key == t[i].key
    ensures forall i | 0 <= i < |t| && t[i].key != k :: r[i] == t[i]
    ensures HasKey(t, k) ==> |r| == |t|
    ensures !HasKey(t, k) ==> r == t + [Entry(k, v)]
    ensures Get(t, k) == Some(v) ==> r == t
    ensures KeysDistinct(t) ==> KeysDistinct(r)
  {
    match Find(t, k)
    case Some(i) =>
      var r := t[i := Entry(k, v)];
      assert forall k' :: Find(r, k') == Find(t, k') by {
        forall k' ensures Find(r, k') == Find(t, k') {
          FindRespectsKeys(r, t, k');
        }
      }
      r
    case None =>
      var r := t + [Entry(k, v)];
      assert Find(r, k) == Some(|t|) by {
        assert r[|t|] == Entry(k, v);
        assert forall j | 0 <= j < |t| :: r[j] == t[j];
      }
      assert forall k' | k' != k :: Find(r, k') == Find(t, k') by {
        forall k' | k' != k ensures Find(r, k') == Find(t, k') {
          FindInExtension(t, [Entry(k, v)], k');
        }
      }
      r
  }

  /** Find only looks at keys. */
  lemma FindRespectsKeys(a: Table, b: Table, k: string)
    requires |a| == |b|
    requires forall i | 0 <= i < |a| :: (a[i].key == k) == (b[i].key == k)
    ensures Find(a, k) == Find(b, k)
  {
    match Find(a, k)
    case Some(i) =>
    case None =>
  }

  /** A key found in a table is found at the same place after appending. */
  lemma FindInExtension(a: Table, b: Table, k: string)
    requires HasKey(a, k) || !HasKey(b, k)
    ensures Find(a + b, k) == Find(a, k)
  {
    var ab := a + b;
    assert forall j | 0 <= j < |a| :: ab[j] == a[j];
  }

  /** The entries `update_mlab_bone_names` adds: MLAB bone -> "DEF-" + metarig bone. */
  function Renamed(metarig: Table): (r: Table)
    ensures |r| == |metarig|
    ensures forall i | 0 <= i < |metarig| :: r[i] == Entry(metarig[i].value, DefPrefix + metarig[i].key)
  {
    seq(|metarig|, i requires 0 <= i < |metarig| => Entry(metarig[i].value, DefPrefix + metarig[i].key))
  }

  /**
   * `update_mlab_bone_names`: for every `metarig_bone: mlab_bone` pair, in
   * order, `mlab_bone_names[mlab_bone] = "DEF-" + metarig_bone`.
   */
  function AddRenamed(names: Table, metarig: Table): (r: Table)
    ensures |names| <= |r| && forall i | 0 <= i < |names| :: r[i].key == names[i].key
    ensures forall k | !HasValue(metarig, k) :: Get(r, k) == Get(names, k)
    ensures KeysDistinct(names) ==> KeysDistinct(r)
    decreases |metarig|
  {
    if |metarig| == 0 then names
    else
      var next := Put(names, metarig[0].value, DefPrefix + metarig[0].key);
      AddRenamed(next, metarig[1..])
  }

  /** After the update, every metarig bone's MLAB name looks up its "DEF-" name. */
  lemma {:induction false} AddRenamedSetsEveryPair(names: Table, metarig: Table)
    requires ValuesDistinct(metarig)
    ensures forall i | 0 <= i < |metarig| ::
      Get(AddRenamed(names, metarig), metarig[i].value) == Some(DefPrefix + metarig[i].key)
    decreases |metarig|
  {
    if |metarig| > 0 {
      var next := Put(names, metarig[0].value, DefPrefix + metarig[0].key);
      var rest := metarig[1..];
      assert AddRenamed(names, metarig) == AddRenamed(next, rest);
      AddRenamedSetsEveryPair(next, rest);
      forall i | 0 <= i < |metarig|
        ensures Get(AddRenamed(names, metarig), metarig[i].value) == Some(DefPrefix + metarig[i].key)
      {
        if i > 0 {
          assert metarig[i] == rest[i - 1];
        }
      }
    }
  }

  /** Updating a table that already holds every "DEF-" pair changes nothing. */
  lemma {:induction false} AddRenamedNoOp(names: Table, metarig: Table)
    requires forall i | 0 <= i < |metarig| ::
      Get(names, metarig[i].value) == Some(DefPrefix + metarig[i].key)
    ensures AddRenamed(names, metarig) == names
    decreases |metarig|
  {
    if |metarig| > 0 {
      assert Put(names, metarig[0].value, DefPrefix + metarig[0].key) == names;
      assert forall i | 0 <= i < |metarig[1..]| :: metarig[1..][i] == metarig[i + 1];
      AddRenamedNoOp(names, metarig[1..]);
    }
  }

  /** `update_mlab_bone_names` is idempotent: a second call leaves the table identical. */
  lemma AddRenamedIdempotent(names: Table, metarig: Table)
    requires ValuesDistinct(metarig)
    ensures AddRenamed(AddRenamed(names, metarig), metarig) == AddRenamed(names, metarig)
  {
    AddRenamedSetsEveryPair(names, metarig);
    AddRenamedNoOp(AddRenamed(names, metarig), metarig);
  }

  /**
   * When no MLAB name of the metarig table is already a key, the update keeps
   * the old entries in place and appends the renamed ones in metarig order.
   */
  lemma {:induction false} AddRenamedAppends(names: Table, metarig: Table)
    requires ValuesDistinct(metarig)
    requires forall i, j | 0 <= i < |names| && 0 <= j < |metarig| :: names[i].key != metarig[j].value
    ensures AddRenamed(names, metarig) == names + Renamed(metarig)
    decreases |metarig|
  {
    if |metarig| > 0 {
      var e := Entry(metarig[0].value, DefPrefix + metarig[0].key);
      var rest := metarig[1..];
      var next := names + [e];
      assert !HasKey(names, metarig[0].value) by {
        forall i | 0 <= i < |names| ensures names[i].key != metarig[0].value {
        }
      }
      forall i, j | 0 <= i < |next| && 0 <= j < |rest| ensures next[i].key != rest[j].value {
        assert rest[j] == metarig[j + 1];
      }
      ValuesDistinctTail(metarig);
      AddRenamedAppends(next, rest);
      AddRenamedFresh(names, metarig);
    }
  }

  /**
   * A first MLAB name that is not yet a key is appended, and when the rest
   * of the update appends too, so does the whole of it.
   */
  lemma AddRenamedFresh(names: Table, metarig: Table)
    requires |metarig| > 0 && !HasKey(names, metarig[0].value)
    requires var next := names + [Entry(metarig[0].value, DefPrefix + metarig[0].key)];
      AddRenamed(next, metarig[1..]) == next + Renamed(metarig[1..])
    ensures AddRenamed(names, metarig) == names + Renamed(metarig)
  {
    var e := Entry(metarig[0].value, DefPrefix + metarig[0].key);
    var tail := Renamed(metarig[1..]);
    assert AddRenamed(names, metarig) == AddRenamed(names + [e], metarig[1..]);
    SeqAssoc(names, [e], tail);
    RenamedCons(metarig);
  }

  lemma SeqAssoc<T>(a: seq<T>, b: seq<T>, c: seq<T>)
    ensures (a + b) + c == a + (b + c)
  {
  }

  lemma RenamedCons(metarig: Table)
    requires |metarig| > 0
    ensures Renamed(metarig) == [Entry(metarig[0].value, DefPrefix + metarig[0].key)] + Renamed(metarig[1..])
  {
  }

  lemma ValuesDistinctTail(t: Table)
    requires |t| > 0 && ValuesDistinct(t)
    ensures ValuesDistinct(t[1..])
  {
    forall i, j | 0 <= i < j < |t| - 1 ensures t[1..][i].value != t[1..][j].value {
      assert t[1..][i] == t[i + 1] && t[1..][j] == t[j + 1];
    }
  }

  lemma KeysDistinctConcat(a: Table, b: Table)
    requires KeysDistinct(a) && KeysDistinct(b)
    requires forall i, j | 0 <= i < |a| && 0 <= j < |b| :: a[i].key != b[j].key
    ensures KeysDistinct(a + b)
  {
    var ab := a + b;
    forall i, j | 0 <= i < j < |ab| ensures ab[i].key != ab[j].key {
      if j < |a| {
        assert ab[i] == a[i] && ab[j] == a[j];
      } else if i < |a| {
        assert ab[i] == a[i] && ab[j] == b[j - |a|];
      } else {
        assert ab[i] == b[i - |a|] && ab[j] == b[j - |a|];
      }
    }
  }

  lemma ValuesDistinctConcat(a: Table, b: Table)
    requires ValuesDistinct(a) && ValuesDistinct(b)
    requires forall i, j | 0 <= i < |a| && 0 <= j < |b| :: a[i].value != b[j].value
    ensures ValuesDistinct(a + b)
  {
    var ab := a + b;
    forall i, j | 0 <= i < j < |ab| ensures ab[i].value != ab[j].value {
      if j < |a| {
        assert ab[i] == a[i] && ab[j] == a[j];
      } else if i < |a| {
        assert ab[i] == a[i] && ab[j] == b[j - |a|];
      } else {
        assert ab[i] == b[i - |a|] && ab[j] == b[j - |a|];
      }
    }
  }

  /** Prefixing with "DEF-" always yields a "DEF-" name. */
  lemma DefPrefixed(a: string)
    ensures HasDefPrefix(DefPrefix + a)
  {
    assert (DefPrefix + a)[..|DefPrefix|] == DefPrefix;
  }

  /** Prefixing with "DEF-" never maps two names to one. */
  lemma DefPrefixInjective(a: string, b: string)
    ensures DefPrefix + a == DefPrefix + b ==> a == b
  {
    if DefPrefix + a == DefPrefix + b {
      assert a == (DefPrefix + a)[|DefPrefix|..];
      assert b == (DefPrefix + b)[|DefPrefix|..];
    }
  }

  /** A "DEF-" name is "DEF-" followed by the rest of it. */
  lemma DefPrefixSplit(s: string)
    requires HasDefPrefix(s)
    ensures s == DefPrefix + s[|DefPrefix|..]
  {
    assert s == s[..|DefPrefix|] + s[|DefPrefix|..];
  }
}
