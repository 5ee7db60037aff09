/** The `Cache` class of `darktable/util.py`: a view, selected by a key
    prefix, onto one physical key/value store file shared by several views.
    The store file is read whole and written whole by every operation, so it
    is modelled as one immutable map from physical key to `(expiry, value)`,
    and every mutating operation returns the new map. */
module PrefixCache {
  import opened Text

  /** `sys.maxsize` on a 64-bit interpreter: the expiry every entry written
      through a view gets, i.e. never. */
  const MaxSize: int := 0x7FFF_FFFF_FFFF_FFFF

  /** The values the exporter stores: `None`, `True`/`False` and strings. */
  datatype Value = Null | Flag(b: bool) | Str(s: string)

  datatype Entry = Entry(expiry: int, value: Value)

  /** The whole physical store, keyed by prefixed key. */
  type Table = map<string, Entry>

  /** One view: every logical key `k` lives at physical key `prefix + k`. */
  datatype Cache = Cache(prefix: string)

  /** The physical key of logical key `key`. */
  function Physical(c: Cache, key: string): string {
    c.prefix + key
  }

  lemma PhysicalInjective(c: Cache, k1: string, k2: string)
    requires Physical(c, k1) == Physical(c, k2)
    ensures k1 == k2
  {
    assert k1 == Physical(c, k1)[|c.prefix|..];
  }

  /** `load`: the stored value, `None` when the key is absent. */
  function Load(c: Cache, t: Table, key: string): (v: Value)
    ensures Physical(c, key) !in t ==> v == Null
  {
    if Physical(c, key) in t then t[Physical(c, key)].value else Null
  }

  /** `save`: writes `value` under the prefixed key with expiry
      `sys.maxsize`, replacing any earlier entry and nothing else. */
  function Save(c: Cache, t: Table, key: string, value: Value): (r: Table)
    ensures Physical(c, key) in r && r[Physical(c, key)] == Entry(MaxSize, value)
    ensures r.Keys == t.Keys + {Physical(c, key)}
    ensures forall pk :: pk in t && pk != Physical(c, key) ==> r[pk] == t[pk]
  {
    t[Physical(c, key) := Entry(MaxSize, value)]
  }

  /** `store`: saves `True`. */
  function Store(c: Cache, t: Table, key: string): (r: Table)
    ensures Contains(c, r, key)
    ensures r.Keys == t.Keys + {Physical(c, key)}
    ensures forall pk :: pk in t && pk != Physical(c, key) ==> r[pk] == t[pk]
  {
    Save(c, t, key, Flag(true))
  }

  /** `contains`: the loaded value is not `None`. */
  function Contains(c: Cache, t: Table, key: string): (b: bool)
    ensures b <==> Physical(c, key) in t && t[Physical(c, key)].value != Null
  {
    Load(c, t, key) != Null
  }

  /** `delete`: removes the prefixed key if present; nothing else changes. */
  function Delete(c: Cache, t: Table, key: string): (r: Table)
    ensures r.Keys == t.Keys - {Physical(c, key)}
    ensures forall pk :: pk in r ==> r[pk] == t[pk]
    ensures Physical(c, key) !in t ==> r == t
  {
    if Physical(c, key) in t then t - {Physical(c, key)} else t
  }

  /** `prune`: removes every entry whose physical key starts with the prefix
      and keeps every other entry as it was. */
  function Prune(c: Cache, t: Table): (r: Table)
    ensures forall pk :: pk in r <==> pk in t && !StartsWith(pk, c.prefix)
    ensures forall pk :: pk in r ==> r[pk] == t[pk]
  {
    map pk | pk in t && !StartsWith(pk, c.prefix) :: t[pk]
  }

  /** The entries `update(d)` writes: `prefix + k` to `(sys.maxsize, d[k])`. */
  function Lift(c: Cache, d: map<string, Value>): map<string, Entry> {
    assert forall k1, k2 :: Physical(c, k1) == Physical(c, k2) ==> k1 == k2 by {
      forall k1, k2 | Physical(c, k1) == Physical(c, k2)
        ensures k1 == k2
      {
        PhysicalInjective(c, k1, k2);
      }
    }
    map k | k in d :: Physical(c, k) := Entry(MaxSize, d[k])
  }

  /** `update(d)`: writes every pair of `d` under the prefix with expiry
      `sys.maxsize`; every physical key not of the form `prefix + k` for a
      key `k` of `d` keeps its entry. */
  function Update(c: Cache, t: Table, d: map<string, Value>): (r: Table)
    ensures forall k :: k in d ==> Physical(c, k) in r && r[Physical(c, k)] == Entry(MaxSize, d[k])
    ensures forall pk :: pk in r <==> pk in t || (StartsWith(pk, c.prefix) && pk[|c.prefix|..] in d)
    ensures forall pk :: pk in t && !(StartsWith(pk, c.prefix) && pk[|c.prefix|..] in d) ==> r[pk] == t[pk]
  {
    var l := Lift(c, d);
    assert forall pk :: pk in l <==> StartsWith(pk, c.prefix) && pk[|c.prefix|..] in d by {
      forall pk
        ensures pk in l <==> StartsWith(pk, c.prefix) && pk[|c.prefix|..] in d
      {
        if StartsWith(pk, c.prefix) && pk[|c.prefix|..] in d {
          assert pk == Physical(c, pk[|c.prefix|..]);
        }
      }
    }
    t + l
  }

  /** `replace(d)`: `prune` followed by `update(d)`. */
  function Replace(c: Cache, t: Table, d: map<string, Value>): Table {
    Update(c, Prune(c, t), d)
  }

  /** Whether an entry passes the `has_value` filter (`None` means no filter). */
  predicate Matches(v: Value, hasValue: Value) {
    hasValue == Null || v == hasValue
  }

  /** `items(has_value=...)`: the entries under the prefix that pass the
      filter, with the prefix stripped from their keys. */
  function Items(c: Cache, t: Table, hasValue: Value): (r: map<string, Value>)
    ensures forall k :: k in r <==> Physical(c, k) in t && Matches(t[Physical(c, k)].value, hasValue)
    ensures forall k :: k in r ==> r[k] == t[Physical(c, k)].value
  {
    var under := set pk | pk in t && StartsWith(pk, c.prefix) :: pk[|c.prefix|..];
    var r := map k | k in under && Physical(c, k) in t && Matches(t[Physical(c, k)].value, hasValue)
               :: t[Physical(c, k)].value;
    assert forall k :: Physical(c, k) in t ==> k in under by {
      forall k | Physical(c, k) in t
        ensures k in under
      {
        assert Physical(c, k)[|c.prefix|..] == k;
      }
    }
    r
  }

  /** `keys(has_value=...)`: the first projection of `items`. */
  function Keys(c: Cache, t: Table, hasValue: Value): (r: set<string>)
    ensures forall k :: k in r <==> Physical(c, k) in t && Matches(t[Physical(c, k)].value, hasValue)
  {
    Items(c, t, hasValue).Keys
  }

  /** No string starts with two prefixes neither of which starts with the
      other: they differ at some position both cover. */
  lemma PrefixesDiverge(a: string, b: string, s: string)
    requires !StartsWith(a, b) && !StartsWith(b, a)
    ensures !(StartsWith(s, a) && StartsWith(s, b))
  {
    var n := if |a| <= |b| then |a| else |b|;
    assert a[..n] != b[..n];
    var i :| 0 <= i < n && a[i] != b[i];
    assert StartsWith(s, a) ==> s[i] == a[i];
    assert StartsWith(s, b) ==> s[i] == b[i];
  }

  /** After `save(k, v)`, `load(k)` gives `v` back. */
  lemma LoadSave(c: Cache, t: Table, key: string, v: Value)
    ensures Load(c, Save(c, t, key, v), key) == v
  {
  }

  /** A view does not see a save made through another view whose prefix is
      not related to its own by the prefix order. */
  lemma LoadSaveOther(a: Cache, b: Cache, t: Table, ka: string, kb: string, v: Value)
    requires !StartsWith(a.prefix, b.prefix) && !StartsWith(b.prefix, a.prefix)
    ensures Load(b, Save(a, t, ka, v), kb) == Load(b, t, kb)
  {
    PrefixesDiverge(a.prefix, b.prefix, Physical(a, ka));
  }

  /** `contains` is false for an absent key and for a stored `None`, and
      true after `store`. */
  lemma ContainsCases(c: Cache, t: Table, key: string)
    ensures Physical(c, key) !in t ==> !Contains(c, t, key)
    ensures !Contains(c, Save(c, t, key, Null), key)
    ensures Contains(c, Store(c, t, key), key)
  {
  }

  /** After `replace(d)`, `items()` of the same view lists exactly `d`. */
  lemma ReplaceThenItems(c: Cache, t: Table, d: map<string, Value>)
    ensures Items(c, Replace(c, t, d), Null) == d
  {
    var p := Prune(c, t);
    var r := Replace(c, t, d);
    var items := Items(c, r, Null);
    forall k
      ensures k in items <==> k in d
    {
      assert Physical(c, k)[|c.prefix|..] == k;
      assert StartsWith(Physical(c, k), c.prefix);
    }
    forall k | k in d
      ensures items[k] == d[k]
    {
    }
  }

  /** `prune` empties the view it is called on. */
  lemma PruneEmptiesView(c: Cache, t: Table, hasValue: Value)
    ensures Items(c, Prune(c, t), hasValue) == map[]
  {
    var items := Items(c, Prune(c, t), hasValue);
    forall k
      ensures k !in items
    {
      assert StartsWith(Physical(c, k), c.prefix);
    }
  }

  /** Pruning one view leaves a view whose prefix is unrelated to it by the
      prefix order exactly as it was. */
  lemma PruneOtherView(a: Cache, b: Cache, t: Table, hasValue: Value)
    requires !StartsWith(a.prefix, b.prefix) && !StartsWith(b.prefix, a.prefix)
    ensures Items(b, Prune(a, t), hasValue) == Items(b, t, hasValue)
  {
    forall k | Physical(b, k) in t
      ensures !StartsWith(Physical(b, k), a.prefix)
    {
      PrefixesDiverge(a.prefix, b.prefix, Physical(b, k));
    }
  }

  /** Deleting a key through one view leaves an unrelated view unchanged. */
  lemma DeleteOtherView(a: Cache, b: Cache, t: Table, key: string, hasValue: Value)
    requires !StartsWith(a.prefix, b.prefix) && !StartsWith(b.prefix, a.prefix)
    ensures Items(b, Delete(a, t, key), hasValue) == Items(b, t, hasValue)
  {
    var d := Delete(a, t, key);
    PrefixesDiverge(a.prefix, b.prefix, Physical(a, key));
    assert forall k :: Physical(b, k) != Physical(a, key);
    assert forall k :: Physical(b, k) in d <==> Physical(b, k) in t;
    assert forall k :: Physical(b, k) in d ==> d[Physical(b, k)] == t[Physical(b, k)];
  }
}
