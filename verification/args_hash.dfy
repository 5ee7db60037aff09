/** `args_hash` of `darktable/args_hash.py`: a canonical serialisation of
    positional and keyword arguments, fed to SHA-1. The serialisation is the
    positionals in order, then key and value of every keyword argument in
    ascending key order; `None` becomes a sentinel token; the items are
    joined by `|`. SHA-1 itself is a parameter: any deterministic function
    from the joined string to a digest. */
module ArgsHash {
  import opened Wrappers
  import opened Text

  /** The token that stands for `None` in the serialisation. */
  const NoneToken: string := "__NoneType__"

  /** One argument value: a string or `None`. */
  type Item = Option<string>

  /** One keyword argument: its name and its value. */
  type Keyword = (string, Item)

  /** Python's `<` on `str`: lexicographic by code point, a proper prefix
      being smaller. */
  predicate Below(a: string, b: string)
    decreases |a|
  {
    if a == [] then b != []
    else if b == [] then false
    else if a[0] != b[0] then a[0] < b[0]
    else Below(a[1..], b[1..])
  }

  lemma {:induction false} BelowIrreflexive(a: string)
    ensures !Below(a, a)
    decreases |a|
  {
    if a != [] {
      BelowIrreflexive(a[1..]);
    }
  }

  lemma {:induction false} BelowTransitive(a: string, b: string, c: string)
    requires Below(a, b) && Below(b, c)
    ensures Below(a, c)
    decreases |a|
  {
    if a != [] && a[0] == b[0] && b[0] == c[0] {
      BelowTransitive(a[1..], b[1..], c[1..]);
    }
  }

  lemma {:induction false} BelowTotal(a: string, b: string)
    requires a != b
    ensures Below(a, b) || Below(b, a)
    decreases |a|
  {
    if a != [] && b != [] && a[0] == b[0] {
      assert a[1..] != b[1..] by {
        assert a == [a[0]] + a[1..] && b == [b[0]] + b[1..];
      }
      BelowTotal(a[1..], b[1..]);
    }
  }

  lemma {:induction false} BelowAsymmetric(a: string, b: string)
    requires Below(a, b)
    ensures !Below(b, a)
    decreases |a|
  {
    if a != [] && b != [] && a[0] == b[0] {
      BelowAsymmetric(a[1..], b[1..]);
    }
  }

  /** Keys strictly ascending. */
  predicate Sorted(s: seq<Keyword>) {
    forall i, j :: 0 <= i < j < |s| ==> Below(s[i].0, s[j].0)
  }

  /** No key twice: what a Python `dict` of keyword arguments guarantees. */
  predicate DistinctKeys(s: seq<Keyword>) {
    forall i, j :: 0 <= i < j < |s| ==> s[i].0 != s[j].0
  }

  /** Every key of `s` is above `k`. */
  predicate AllAbove(k: string, s: seq<Keyword>) {
    forall i :: 0 <= i < |s| ==> Below(k, s[i].0)
  }

  lemma AllAboveFromMultiset(k: string, s: seq<Keyword>, t: seq<Keyword>)
    requires multiset(s) <= multiset(t)
    requires AllAbove(k, t)
    ensures AllAbove(k, s)
  {
    forall i | 0 <= i < |s|
      ensures Below(k, s[i].0)
    {
      assert s[i] in multiset(s);
      assert s[i] in multiset(t);
      var j :| 0 <= j < |t| && t[j] == s[i];
    }
  }

  /** Inserts a pair with a new key into a sorted list. */
  function Insert(x: Keyword, s: seq<Keyword>): (r: seq<Keyword>)
    requires Sorted(s)
    requires forall i :: 0 <= i < |s| ==> s[i].0 != x.0
    ensures Sorted(r)
    ensures multiset(r) == multiset(s) + multiset{x}
    decreases |s|
  {
    if s == [] then [x]
    else if Below(x.0, s[0].0) then
      BelowHead(x.0, s);
      ConsSorted(x, s);
      [x] + s
    else
      SortedTail(s);
      var rest := Insert(x, s[1..]);
      BelowTotal(x.0, s[0].0);
      assert AllAbove(s[0].0, s[1..] + [x]);
      assert multiset(rest) == multiset(s[1..] + [x]);
      AllAboveFromMultiset(s[0].0, rest, s[1..] + [x]);
      ConsSorted(s[0], rest);
      assert s == [s[0]] + s[1..];
      [s[0]] + rest
  }

  /** A key below the first key of a sorted list is below all of them. */
  lemma BelowHead(k: string, s: seq<Keyword>)
    requires Sorted(s) && s != [] && Below(k, s[0].0)
    ensures AllAbove(k, s)
  {
    forall i | 0 < i < |s|
      ensures Below(k, s[i].0)
    {
      BelowTransitive(k, s[0].0, s[i].0);
    }
  }

  lemma ConsSorted(x: Keyword, s: seq<Keyword>)
    requires Sorted(s) && AllAbove(x.0, s)
    ensures Sorted([x] + s)
  {
    var r := [x] + s;
    forall i, j | 0 <= i < j < |r|
      ensures Below(r[i].0, r[j].0)
    {
      assert r[j] == s[j - 1];
      if i > 0 {
        assert r[i] == s[i - 1];
      }
    }
  }

  lemma SortedTail(s: seq<Keyword>)
    requires Sorted(s) && s != []
    ensures Sorted(s[1..])
  {
    forall x, y | 0 <= x < y < |s[1..]|
      ensures Below(s[1..][x].0, s[1..][y].0)
    {
      assert s[1..][x] == s[x + 1] && s[1..][y] == s[y + 1];
    }
  }

  /** `sorted(kw.items())`: the keyword arguments in ascending key order. */
  function SortByKey(kw: seq<Keyword>): (r: seq<Keyword>)
    requires DistinctKeys(kw)
    ensures Sorted(r)
    ensures multiset(r) == multiset(kw)
    decreases |kw|
  {
    if kw == [] then []
    else
      DistinctTail(kw);
      var rest := SortByKey(kw[1..]);
      HeadKeyFresh(kw, rest);
      assert kw == [kw[0]] + kw[1..];
      Insert(kw[0], rest)
  }

  lemma DistinctTail(kw: seq<Keyword>)
    requires DistinctKeys(kw) && kw != []
    ensures DistinctKeys(kw[1..])
  {
    forall i, j | 0 <= i < j < |kw[1..]|
      ensures kw[1..][i].0 != kw[1..][j].0
    {
      assert kw[1..][i] == kw[i + 1] && kw[1..][j] == kw[j + 1];
    }
  }

  /** The first key does not occur in any rearrangement of the rest. */
  lemma HeadKeyFresh(kw: seq<Keyword>, rest: seq<Keyword>)
    requires DistinctKeys(kw) && kw != []
    requires multiset(rest) == multiset(kw[1..])
    ensures forall i :: 0 <= i < |rest| ==> rest[i].0 != kw[0].0
  {
    forall i | 0 <= i < |rest|
      ensures rest[i].0 != kw[0].0
    {
      assert rest[i] in multiset(kw[1..]);
      var j :| 0 <= j < |kw[1..]| && kw[1..][j] == rest[i];
      assert kw[j + 1] == rest[i];
    }
  }

  lemma BelowNotBoth(a: string, b: string)
    ensures !(Below(a, b) && Below(b, a))
  {
    if Below(a, b) {
      BelowAsymmetric(a, b);
    }
  }

  /** Two sorted lists with the same elements start with the same element. */
  lemma SortedSameHead(a: seq<Keyword>, b: seq<Keyword>)
    requires Sorted(a) && Sorted(b)
    requires multiset(a) == multiset(b) && a != []
    ensures b != [] && a[0] == b[0]
  {
    assert a[0] in multiset(b);
    var j :| 0 <= j < |b| && b[j] == a[0];
    assert b[0] in multiset(a);
    var i :| 0 <= i < |a| && a[i] == b[0];
    assert i == 0 || Below(a[0].0, b[0].0);
    assert j == 0 || Below(b[0].0, a[0].0);
    BelowNotBoth(a[0].0, b[0].0);
  }

  /** Removing the same first element leaves the same elements. */
  lemma SameTails(a: seq<Keyword>, b: seq<Keyword>)
    requires a != [] && b != [] && a[0] == b[0]
    requires multiset(a) == multiset(b)
    ensures multiset(a[1..]) == multiset(b[1..])
  {
    assert a == [a[0]] + a[1..] && b == [b[0]] + b[1..];
    assert multiset(a[1..]) == multiset(a) - multiset([a[0]]);
    assert multiset(b[1..]) == multiset(b) - multiset([b[0]]);
  }

  /** Two sorted lists with the same elements are the same list: the sorted
      order is canonical. */
  lemma {:induction false} SortedUnique(a: seq<Keyword>, b: seq<Keyword>)
    requires Sorted(a) && Sorted(b)
    requires multiset(a) == multiset(b)
    ensures a == b
    decreases |a|
  {
    if a == [] {
      assert |b| == 0 by { assert |multiset(b)| == 0; }
    } else {
      SortedSameHead(a, b);
      SameTails(a, b);
      SortedTail(a);
      SortedTail(b);
      SortedUnique(a[1..], b[1..]);
      assert a == [a[0]] + a[1..] && b == [b[0]] + b[1..];
    }
  }

  /** `[i for t in pairs for i in t]`. */
  function Pairs(s: seq<Keyword>): (r: seq<Item>)
    ensures |r| == 2 * |s|
    ensures forall i :: 0 <= i < |s| ==> r[2 * i] == Some(s[i].0) && r[2 * i + 1] == s[i].1
    decreases |s|
  {
    if s == [] then [] else [Some(s[0].0), s[0].1] + Pairs(s[1..])
  }

  /** The item list: the positionals in order, then, for every keyword
      argument, its key followed by its value, the keys ascending. */
  function ItemList(args: seq<Item>, kw: seq<Keyword>): (r: seq<Item>)
    requires DistinctKeys(kw)
    ensures |r| == |args| + 2 * |kw|
    ensures r[..|args|] == args
    ensures forall i :: 0 <= i < |kw| ==>
      r[|args| + 2 * i].Some? && (r[|args| + 2 * i].value, r[|args| + 2 * i + 1]) in multiset(kw)
    ensures forall i, j :: 0 <= i < j < |kw| ==> Below(r[|args| + 2 * i].value, r[|args| + 2 * j].value)
  {
    var s := SortByKey(kw);
    assert |s| == |kw| by { assert |multiset(s)| == |multiset(kw)|; }
    var r := args + Pairs(s);
    ItemListPairs(args, s, kw, r);
    ItemListAscending(args, s, r);
    r
  }

  lemma ItemListPairs(args: seq<Item>, s: seq<Keyword>, kw: seq<Keyword>, r: seq<Item>)
    requires multiset(s) == multiset(kw) && |s| == |kw| && r == args + Pairs(s)
    ensures forall i :: 0 <= i < |kw| ==>
      r[|args| + 2 * i].Some? && (r[|args| + 2 * i].value, r[|args| + 2 * i + 1]) in multiset(kw)
  {
    forall i | 0 <= i < |kw|
      ensures r[|args| + 2 * i].Some? && (r[|args| + 2 * i].value, r[|args| + 2 * i + 1]) in multiset(kw)
    {
      PairAt(args, s, i);
      assert s[i] in multiset(s);
    }
  }

  lemma ItemListAscending(args: seq<Item>, s: seq<Keyword>, r: seq<Item>)
    requires Sorted(s) && r == args + Pairs(s)
    ensures forall i, j :: 0 <= i < j < |s| ==> Below(r[|args| + 2 * i].value, r[|args| + 2 * j].value)
  {
    forall i | 0 <= i < |s|
      ensures r[|args| + 2 * i] == Some(s[i].0)
    {
      PairAt(args, s, i);
    }
  }

  lemma PairAt(args: seq<Item>, s: seq<Keyword>, i: nat)
    requires i < |s|
    ensures (args + Pairs(s))[|args| + 2 * i] == Some(s[i].0) && (args + Pairs(s))[|args| + 2 * i + 1] == s[i].1
  {
    var p := Pairs(s);
    assert (args + p)[|args| + 2 * i] == p[2 * i];
    assert (args + p)[|args| + 2 * i + 1] == p[2 * i + 1];
  }

  /** An item as it enters the join: `None` becomes the sentinel. */
  function Token(x: Item): string {
    match x
    case None => NoneToken
    case Some(s) => s
  }

  function Tokens(items: seq<Item>): (r: seq<string>)
    ensures |r| == |items|
  {
    seq(|items|, i requires 0 <= i < |items| => Token(items[i]))
  }

  /** The string the digest is computed over. */
  function Serialize(args: seq<Item>, kw: seq<Keyword>): string
    requires DistinctKeys(kw)
  {
    Join(Tokens(ItemList(args, kw)), "|")
  }

  /** `args_hash(*args, **kw)`, with SHA-1 given as `sha1`. */
  function Digest(sha1: string -> string, args: seq<Item>, kw: seq<Keyword>): string
    requires DistinctKeys(kw)
  {
    sha1(Serialize(args, kw))
  }

  /** The order in which keyword arguments are passed does not matter: any
      permutation serialises, and so hashes, the same. */
  lemma KeywordOrderIrrelevant(sha1: string -> string, args: seq<Item>, kw1: seq<Keyword>, kw2: seq<Keyword>)
    requires DistinctKeys(kw1) && DistinctKeys(kw2)
    requires multiset(kw1) == multiset(kw2)
    ensures ItemList(args, kw1) == ItemList(args, kw2)
    ensures Serialize(args, kw1) == Serialize(args, kw2)
    ensures Digest(sha1, args, kw1) == Digest(sha1, args, kw2)
  {
    SortedUnique(SortByKey(kw1), SortByKey(kw2));
  }

  predicate IsPipe(c: char) {
    c == '|'
  }

  /** An item that does not contain the separator. */
  predicate PipeFree(x: Item) {
    x.None? || Free(x.value, IsPipe)
  }

  /** When no argument, key or value contains the separator, splitting the
      serialisation at the separator gives back the token of every item, in
      order: nothing is lost between the item list and the digest input. */
  lemma SerializeSplits(args: seq<Item>, kw: seq<Keyword>)
    requires DistinctKeys(kw) && |args| + |kw| > 0
    requires forall i :: 0 <= i < |args| ==> PipeFree(args[i])
    requires forall i :: 0 <= i < |kw| ==> Free(kw[i].0, IsPipe) && PipeFree(kw[i].1)
    ensures Split(Serialize(args, kw), IsPipe) == Tokens(ItemList(args, kw))
  {
    var items := ItemList(args, kw);
    forall j | 0 <= j < |items|
      ensures PipeFree(items[j])
    {
      ItemPipeFree(args, kw, j);
    }
    TokensPipeFree(items);
    SplitJoin(Tokens(items), '|', IsPipe);
  }

  /** Every item of the item list comes from an argument, a key or a
      value. */
  lemma ItemPipeFree(args: seq<Item>, kw: seq<Keyword>, j: nat)
    requires DistinctKeys(kw) && j < |args| + 2 * |kw|
    requires forall i :: 0 <= i < |args| ==> PipeFree(args[i])
    requires forall i :: 0 <= i < |kw| ==> Free(kw[i].0, IsPipe) && PipeFree(kw[i].1)
    ensures PipeFree(ItemList(args, kw)[j])
  {
    var s := SortByKey(kw);
    assert |s| == |kw| by { assert |multiset(s)| == |multiset(kw)|; }
    forall i | 0 <= i < |s|
      ensures Free(s[i].0, IsPipe) && PipeFree(s[i].1)
    {
      SortedPairPipeFree(kw, i);
    }
    PairsPipeFree(args, s, j);
  }

  lemma PairsPipeFree(args: seq<Item>, s: seq<Keyword>, j: nat)
    requires j < |args| + 2 * |s|
    requires forall i :: 0 <= i < |args| ==> PipeFree(args[i])
    requires forall i :: 0 <= i < |s| ==> Free(s[i].0, IsPipe) && PipeFree(s[i].1)
    ensures PipeFree((args + Pairs(s))[j])
  {
    if j < |args| {
      assert (args + Pairs(s))[j] == args[j];
    } else {
      var i := (j - |args|) / 2;
      assert j == |args| + 2 * i || j == |args| + 2 * i + 1;
      PairAt(args, s, i);
    }
  }

  /** Sorting keeps the pairs, so it keeps them separator-free. */
  lemma SortedPairPipeFree(kw: seq<Keyword>, i: nat)
    requires DistinctKeys(kw) && i < |SortByKey(kw)|
    requires forall m :: 0 <= m < |kw| ==> Free(kw[m].0, IsPipe) && PipeFree(kw[m].1)
    ensures Free(SortByKey(kw)[i].0, IsPipe) && PipeFree(SortByKey(kw)[i].1)
  {
    var s := SortByKey(kw);
    assert s[i] in multiset(kw) by { assert s[i] in multiset(s); }
    var m :| 0 <= m < |kw| && kw[m] == s[i];
  }

  /** The tokens of separator-free items are separator-free. */
  lemma TokensPipeFree(items: seq<Item>)
    requires forall j :: 0 <= j < |items| ==> PipeFree(items[j])
    ensures forall j :: 0 <= j < |items| ==> Free(Tokens(items)[j], IsPipe)
  {
    assert Free(NoneToken, IsPipe) by {
      assert forall k :: 0 <= k < |NoneToken| ==> NoneToken[k] != '|';
    }
  }

  /** Items that contain the separator are not kept apart: two different
      item lists can serialise, and so hash, the same. */
  lemma SeparatorCollision(sha1: string -> string)
    ensures ItemList([Some("a|b")], []) != ItemList([Some("a"), Some("b")], [])
    ensures Digest(sha1, [Some("a|b")], []) == Digest(sha1, [Some("a"), Some("b")], [])
  {
    assert SortByKey([]) == [] && Pairs([]) == [];
    assert ItemList([Some("a|b")], []) == [Some("a|b")];
    assert ItemList([Some("a"), Some("b")], []) == [Some("a"), Some("b")];
    var t1 := Tokens(ItemList([Some("a|b")], []));
    var t2 := Tokens(ItemList([Some("a"), Some("b")], []));
    assert t1 == ["a|b"];
    assert t2 == ["a", "b"];
    assert t2[1..] == ["b"];
    assert Join(t2, "|") == "a" + "|" + "b" == "a|b";
    assert Join(t1, "|") == "a|b";
    assert Serialize([Some("a|b")], []) == Serialize([Some("a"), Some("b")], []);
  }
}
