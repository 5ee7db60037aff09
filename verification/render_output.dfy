/** Reading the exported file's path out of the renderer's standard output:
    the first match of the pattern ``exported to `([^']+)'``, whose group
    is the text after the backtick up to the next apostrophe. */
module RenderOutput {
  import opened Wrappers
  import opened Text

  /** The literal text in front of the group. */
  const Marker: string := "exported to `"

  predicate IsQuote(c: char) {
    c == '\''
  }

  predicate IsBacktick(c: char) {
    c == '`'
  }

  /** The reference meaning of a match: at position `i` the output reads the
      marker, then the non-empty apostrophe-free group `q`, then an
      apostrophe. */
  predicate MatchAt(s: string, i: int, q: string) {
    && 0 <= i
    && i + |Marker| + |q| < |s|
    && s[i..i + |Marker|] == Marker
    && q != [] && Free(q, IsQuote)
    && s[i + |Marker|..i + |Marker| + |q|] == q
    && s[i + |Marker| + |q|] == '\''
  }

  /** Length of the run of non-apostrophes starting at `j`: what the greedy
      `[^']+` consumes. */
  function RunLength(s: string, j: nat): (n: nat)
    requires j <= |s|
    ensures j + n <= |s|
    ensures Free(s[j..j + n], IsQuote)
    ensures j + n == |s| || s[j + n] == '\''
    decreases |s| - j
  {
    if j == |s| || s[j] == '\'' then 0
    else
      var n := RunLength(s, j + 1);
      assert s[j..j + 1 + n] == [s[j]] + s[j + 1..j + 1 + n];
      1 + n
  }

  /** Whether the pattern matches at `i`, computed: the marker is there and
      the greedy run after it is non-empty and stopped by an apostrophe. */
  predicate HasMatchAt(s: string, i: nat) {
    && i + |Marker| <= |s|
    && s[i..i + |Marker|] == Marker
    && RunLength(s, i + |Marker|) > 0
    && i + |Marker| + RunLength(s, i + |Marker|) < |s|
  }

  /** The group of the match at `i`. */
  function GroupAt(s: string, i: nat): string
    requires i + |Marker| <= |s|
  {
    var j := i + |Marker|;
    s[j..j + RunLength(s, j)]
  }

  /** The computed test agrees with the reference meaning, and the group of
      a match is determined by where it starts. */
  lemma MatchAtIff(s: string, i: nat, q: string)
    ensures MatchAt(s, i, q) <==> HasMatchAt(s, i) && q == GroupAt(s, i)
  {
    var j := i + |Marker|;
    if MatchAt(s, i, q) {
      RunCoversGroup(s, j, q);
    }
  }

  /** A non-empty apostrophe-free text followed by an apostrophe is exactly
      the greedy run. */
  lemma {:induction false} RunCoversGroup(s: string, j: nat, q: string)
    requires j + |q| < |s| && s[j..j + |q|] == q && Free(q, IsQuote) && s[j + |q|] == '\''
    ensures RunLength(s, j) == |q|
    decreases |q|
  {
    if q != [] {
      assert s[j] == q[0];
      assert s[j + 1..j + 1 + |q[1..]|] == q[1..];
      RunCoversGroup(s, j + 1, q[1..]);
    }
  }

  /** The first position at or after `from` where the pattern matches. */
  function FirstMatch(s: string, from: nat): (r: Option<nat>)
    ensures r.Some? ==> from <= r.value && HasMatchAt(s, r.value)
    ensures r.Some? ==> forall k :: from <= k < r.value ==> !HasMatchAt(s, k)
    ensures r.None? ==> forall k :: from <= k ==> !HasMatchAt(s, k)
    decreases |s| - from
  {
    if from + |Marker| > |s| then None
    else if HasMatchAt(s, from) then Some(from)
    else FirstMatch(s, from + 1)
  }

  /** `re.search(...)` and `match.groups()[0]`: the group of the leftmost
      match, or nothing when the output never matches. */
  function ExtractExportPath(s: string): (r: Option<string>)
    ensures r.Some? ==> exists i :: MatchAt(s, i, r.value) && NoMatchBefore(s, i)
    ensures r.None? ==> forall i: nat, q :: !MatchAt(s, i, q)
  {
    match FirstMatch(s, 0)
    case None =>
      forall i: nat, q
        ensures !MatchAt(s, i, q)
      {
        MatchAtIff(s, i, q);
      }
      None
    case Some(i) =>
      var q := GroupAt(s, i);
      MatchAtIff(s, i, q);
      forall k: nat, p | k < i
        ensures !MatchAt(s, k, p)
      {
        MatchAtIff(s, k, p);
      }
      Some(q)
  }

  /** No match of any group starts before `i`. */
  ghost predicate NoMatchBefore(s: string, i: int) {
    forall k: nat, p :: k < i ==> !MatchAt(s, k, p)
  }

  /** Text without a backtick never matches. */
  lemma NoBacktickNoPath(s: string)
    requires Free(s, IsBacktick)
    ensures ExtractExportPath(s) == None
  {
    forall i: nat | i + |Marker| <= |s|
      ensures !HasMatchAt(s, i)
    {
      assert s[i + 12] == s[i..i + |Marker|][12];
    }
  }

  /** The renderer's report line, after any backtick-free preamble, yields
      exactly the path it reports. */
  lemma ReportedPathExtracted(pre: string, q: string, rest: string)
    requires Free(pre, IsBacktick)
    requires q != [] && Free(q, IsQuote)
    ensures ExtractExportPath(pre + Marker + q + "'" + rest) == Some(q)
  {
    var s := pre + Marker + q + "'" + rest;
    var i := |pre|;
    assert StartsWith(s, pre + Marker) by { assert s[..|pre + Marker|] == pre + Marker; }
    assert s[i..i + |Marker|] == Marker;
    assert s[i + |Marker|..i + |Marker| + |q|] == q;
    assert s[i + |Marker| + |q|] == '\'';
    assert MatchAt(s, i, q);
    MatchAtIff(s, i, q);
    forall k: nat | k < i
      ensures !HasMatchAt(s, k)
    {
      NoBacktickBefore(pre, s, k + 12);
      if k + |Marker| <= |s| {
        assert s[k..k + |Marker|][12] == s[k + 12];
      }
    }
    assert FirstMatch(s, 0) == Some(i) by {
      FirstMatchSkips(s, 0, i);
    }
  }

  /** Before the end of the marker that follows a backtick-free preamble
      there is no backtick. */
  lemma NoBacktickBefore(pre: string, s: string, p: nat)
    requires Free(pre, IsBacktick) && StartsWith(s, pre + Marker)
    requires p < |pre| + 12
    ensures s[p] != '`'
  {
    assert s[p] == (pre + Marker)[p];
    if p >= |pre| {
      assert (pre + Marker)[p] == Marker[p - |pre|];
    }
  }

  lemma {:induction false} FirstMatchSkips(s: string, from: nat, i: nat)
    requires from <= i && HasMatchAt(s, i)
    requires forall k: nat :: from <= k < i ==> !HasMatchAt(s, k)
    ensures FirstMatch(s, from) == Some(i)
    decreases i - from
  {
    if from < i {
      FirstMatchSkips(s, from + 1, i);
    }
  }
}
