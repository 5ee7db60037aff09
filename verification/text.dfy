/** String helpers with Python's meaning: prefix tests, `str.join`,
    `str.split`/`re.split` on a one-character class, `str.strip`,
    `str.lower`, the decimal rendering of `str(int)` and `f'{n:02}'` and
    reading an integer back. */
module Text {
  import opened Wrappers

  predicate StartsWith(s: string, prefix: string) {
    |prefix| <= |s| && s[..|prefix|] == prefix
  }

  predicate EndsWith(s: string, suffix: string) {
    |suffix| <= |s| && s[|s| - |suffix|..] == suffix
  }

  /** No character of `s` satisfies `isSep`. */
  predicate Free(s: string, isSep: char -> bool) {
    forall i :: 0 <= i < |s| ==> !isSep(s[i])
  }

  /** `sep.join(parts)`. */
  function Join(parts: seq<string>, sep: string): string
    decreases |parts|
  {
    if |parts| == 0 then ""
    else if |parts| == 1 then parts[0]
    else parts[0] + sep + Join(parts[1..], sep)
  }

  function Flatten(parts: seq<string>): string
    decreases |parts|
  {
    if |parts| == 0 then "" else parts[0] + Flatten(parts[1..])
  }

  /** The characters of `s` that are not separators, in order. */
  function Keep(s: string, isSep: char -> bool): (r: string)
    ensures Free(r, isSep)
    ensures |r| <= |s|
    decreases |s|
  {
    if s == [] then "" else if isSep(s[0]) then Keep(s[1..], isSep) else [s[0]] + Keep(s[1..], isSep)
  }

  /** Number of separator characters in `s`. */
  function Count(s: string, isSep: char -> bool): nat
    decreases |s|
  {
    if s == [] then 0 else (if isSep(s[0]) then 1 else 0) + Count(s[1..], isSep)
  }

  /** The pieces between separator characters, empty pieces included:
      `s.split(c)` for one separator, `re.split('[...]', s)` for a class. */
  function Split(s: string, isSep: char -> bool): (r: seq<string>)
    ensures |r| == Count(s, isSep) + 1
    ensures forall i :: 0 <= i < |r| ==> Free(r[i], isSep)
    decreases |s|
  {
    if s == [] then [""]
    else
      var rest := Split(s[1..], isSep);
      if isSep(s[0]) then [""] + rest
      else [[s[0]] + rest[0]] + rest[1..]
  }

  lemma {:induction false} SplitFree(x: string, isSep: char -> bool)
    requires Free(x, isSep)
    ensures Split(x, isSep) == [x]
    decreases |x|
  {
    if x != [] {
      SplitFree(x[1..], isSep);
      assert [x[0]] + x[1..] == x;
    }
  }

  lemma {:induction false} SplitAfterFreePrefix(x: string, c: char, y: string, isSep: char -> bool)
    requires Free(x, isSep) && isSep(c)
    ensures Split(x + [c] + y, isSep) == [x] + Split(y, isSep)
    decreases |x|
  {
    if x == [] {
      assert (x + [c] + y)[1..] == y;
    } else {
      assert (x + [c] + y)[1..] == x[1..] + [c] + y;
      SplitAfterFreePrefix(x[1..], c, y, isSep);
      assert [x[0]] + x[1..] == x;
    }
  }

  /** Joining separator-free pieces with one separator character and splitting
      the result again gives back the pieces. */
  lemma {:induction false} SplitJoin(parts: seq<string>, c: char, isSep: char -> bool)
    requires |parts| >= 1 && isSep(c)
    requires forall i :: 0 <= i < |parts| ==> Free(parts[i], isSep)
    ensures Split(Join(parts, [c]), isSep) == parts
    decreases |parts|
  {
    if |parts| == 1 {
      SplitFree(parts[0], isSep);
    } else {
      SplitJoin(parts[1..], c, isSep);
      SplitAfterFreePrefix(parts[0], c, Join(parts[1..], [c]), isSep);
      assert parts[0] + [c] + Join(parts[1..], [c]) == Join(parts, [c]);
      assert [parts[0]] + parts[1..] == parts;
    }
  }

  /** A separator between two texts separates their pieces. */
  lemma {:induction false} SplitAround(x: string, c: char, y: string, isSep: char -> bool)
    requires isSep(c)
    ensures Split(x + [c] + y, isSep) == Split(x, isSep) + Split(y, isSep)
    decreases |x|
  {
    if x == [] {
      assert (x + [c] + y)[1..] == y;
    } else {
      assert (x + [c] + y)[1..] == x[1..] + [c] + y;
      SplitAround(x[1..], c, y, isSep);
    }
  }

  /** Joining two non-empty lists of pieces is joining their joins. */
  lemma {:induction false} JoinAppend(a: seq<string>, b: seq<string>, sep: string)
    requires a != [] && b != []
    ensures Join(a + b, sep) == Join(a, sep) + sep + Join(b, sep)
    decreases |a|
  {
    if |a| > 1 {
      JoinAppend(a[1..], b, sep);
      assert (a + b)[1..] == a[1..] + b;
    }
  }

  /** Joining the pieces with the one separator character gives the text
      back. */
  lemma {:induction false} JoinSplit(s: string, c: char, isSep: char -> bool)
    requires forall x :: isSep(x) <==> x == c
    ensures Join(Split(s, isSep), [c]) == s
    decreases |s|
  {
    if s != [] {
      var r := Split(s[1..], isSep);
      JoinSplit(s[1..], c, isSep);
      if !isSep(s[0]) {
        var r0 := [[s[0]] + r[0]] + r[1..];
        assert Split(s, isSep) == r0;
        if |r| > 1 {
          assert r0[1..] == r[1..];
        }
      }
    }
  }

  /** Splitting loses exactly the separator characters. */
  lemma {:induction false} FlattenSplit(s: string, isSep: char -> bool)
    ensures Flatten(Split(s, isSep)) == Keep(s, isSep)
    decreases |s|
  {
    if s != [] {
      FlattenSplit(s[1..], isSep);
      var rest := Split(s[1..], isSep);
      if !isSep(s[0]) {
        assert Flatten(rest) == rest[0] + Flatten(rest[1..]);
        assert Split(s, isSep)[1..] == rest[1..];
      }
    }
  }

  /** Python's `str.isspace`, which is also what `\s` matches in a `str`
      regular expression. */
  predicate IsSpace(c: char) {
    || ('\t' <= c <= '\r')
    || ('\U{1C}' <= c <= '\U{1F}')
    || c == ' '
    || c == '\U{85}'
    || c == '\U{A0}'
    || c == '\U{1680}'
    || ('\U{2000}' <= c <= '\U{200A}')
    || c == '\U{2028}'
    || c == '\U{2029}'
    || c == '\U{202F}'
    || c == '\U{205F}'
    || c == '\U{3000}'
  }

  /** `s.lstrip(chars)`, with the stripped characters given as a predicate. */
  function TrimStart(s: string, drop: char -> bool): (r: string)
    ensures |r| <= |s| && r == s[|s| - |r|..]
    ensures r == [] || !drop(r[0])
    ensures forall i :: 0 <= i < |s| - |r| ==> drop(s[i])
    decreases |s|
  {
    if s != [] && drop(s[0]) then TrimStart(s[1..], drop) else s
  }

  /** `s.rstrip(chars)`, with the stripped characters given as a predicate. */
  function TrimEnd(s: string, drop: char -> bool): (r: string)
    ensures |r| <= |s| && r == s[..|r|]
    ensures r == [] || !drop(r[|r| - 1])
    ensures forall i :: |r| <= i < |s| ==> drop(s[i])
    decreases |s|
  {
    if s != [] && drop(s[|s| - 1]) then TrimEnd(s[..|s| - 1], drop) else s
  }

  /** `s.strip()`. */
  function Strip(s: string): string {
    TrimEnd(TrimStart(s, IsSpace), IsSpace)
  }

  /** `c.lower()` for the characters whose lower case is an ASCII character:
      `A`-`Z` and the Kelvin sign. Every other character is kept as it is. */
  function LowerChar(c: char): char {
    if 'A' <= c <= 'Z' then (c as int + 32) as char
    else if c == '\U{212A}' then 'k'
    else c
  }

  function Lower(s: string): (r: string)
    ensures |r| == |s|
  {
    seq(|s|, i requires 0 <= i < |s| => LowerChar(s[i]))
  }

  function UpperChar(c: char): char {
    if 'a' <= c <= 'z' then (c as int - 32) as char else c
  }

  function Upper(s: string): (r: string)
    ensures |r| == |s|
  {
    seq(|s|, i requires 0 <= i < |s| => UpperChar(s[i]))
  }

  predicate IsDigit(c: char) {
    '0' <= c <= '9'
  }

  predicate IsDigits(s: string) {
    forall i :: 0 <= i < |s| ==> IsDigit(s[i])
  }

  function DigitChar(d: nat): (c: char)
    requires d < 10
    ensures IsDigit(c)
  {
    ('0' as int + d) as char
  }

  /** The number written by a string of decimal digits (the empty string is 0). */
  function DigitsValue(s: string): nat
    requires IsDigits(s)
    decreases |s|
  {
    if s == [] then 0 else DigitsValue(s[..|s| - 1]) * 10 + (s[|s| - 1] as int - '0' as int)
  }

  /** `str(n)` for a natural number. */
  function NatStr(n: nat): (r: string)
    ensures |r| >= 1 && IsDigits(r)
    ensures r[0] == '0' <==> n == 0
    decreases n
  {
    if n < 10 then [DigitChar(n)] else NatStr(n / 10) + [DigitChar(n % 10)]
  }

  /** Reading back the decimal rendering gives the number. */
  lemma {:induction false} NatStrRoundTrip(n: nat)
    ensures DigitsValue(NatStr(n)) == n
    decreases n
  {
    if n >= 10 {
      NatStrRoundTrip(n / 10);
      var s := NatStr(n);
      assert s[..|s| - 1] == NatStr(n / 10);
    }
  }

  /** `str(i)` for any integer. */
  function IntStr(i: int): (r: string)
    ensures i < 0 <==> (r != [] && r[0] == '-')
  {
    if i < 0 then "-" + NatStr(-i) else NatStr(i)
  }

  lemma IntStrInjective(a: int, b: int)
    requires IntStr(a) == IntStr(b)
    ensures a == b
  {
    if a < 0 && b < 0 {
      NegStrValue(a);
      NegStrValue(b);
    } else if a >= 0 && b >= 0 {
      NatStrRoundTrip(a);
      NatStrRoundTrip(b);
    }
  }

  /** The digits after the minus sign of a negative number's rendering
      read back as its absolute value. */
  lemma NegStrValue(i: int)
    requires i < 0
    ensures IsDigits(IntStr(i)[1..]) && DigitsValue(IntStr(i)[1..]) == -i
  {
    var n := NatStr(-i);
    assert IntStr(i) == "-" + n;
    assert ("-" + n)[1..] == n;
    NatStrRoundTrip(-i);
  }

  /** Digits as `str` writes a natural number: at least one, and no
      leading `0` unless the number is zero. */
  predicate Canonical(s: string) {
    s != [] && IsDigits(s) && (s[0] == '0' ==> s == "0")
  }

  /** `int(s)` restricted to what `str(i)` produces: an optional minus sign
      followed by canonical digits, and no `-0`; anything else is rejected. */
  function ParseInt(s: string): Option<int> {
    if |s| >= 2 && s[0] == '-' && Canonical(s[1..]) && s[1] != '0' then Some(-(DigitsValue(s[1..]) as int))
    else if Canonical(s) then Some(DigitsValue(s))
    else None
  }

  /** Reading back the rendering of an integer gives the integer. */
  lemma IntStrParses(i: int)
    ensures ParseInt(IntStr(i)) == Some(i)
  {
    if i < 0 {
      NegStrValue(i);
      assert IntStr(i)[1..] == NatStr(-i);
    } else {
      NatStrRoundTrip(i);
    }
  }

  /** Digits without a leading `0` write a positive number. */
  lemma {:induction false} LeadingDigitPositive(s: string)
    requires s != [] && IsDigits(s) && s[0] != '0'
    ensures DigitsValue(s) >= 1
    decreases |s|
  {
    if |s| > 1 {
      LeadingDigitPositive(s[..|s| - 1]);
    }
  }

  /** Canonical digits are the rendering of the number they write. */
  lemma {:induction false} CanonicalIsNatStr(s: string)
    requires Canonical(s)
    ensures NatStr(DigitsValue(s)) == s
    decreases |s|
  {
    var n := DigitsValue(s);
    if |s| == 1 {
      assert s[..0] == [];
      assert n == s[0] as int - '0' as int;
    } else {
      var init := s[..|s| - 1];
      LeadingDigitPositive(init);
      CanonicalIsNatStr(init);
      assert n / 10 == DigitsValue(init) && n % 10 == s[|s| - 1] as int - '0' as int;
      assert s == init + [s[|s| - 1]];
    }
  }

  /** The only string that parses to an integer is that integer's
      rendering: parsing inverts `str` in both directions. */
  lemma ParseIntCanonical(s: string, i: int)
    requires ParseInt(s) == Some(i)
    ensures s == IntStr(i)
  {
    if |s| >= 2 && s[0] == '-' && Canonical(s[1..]) && s[1] != '0' {
      LeadingDigitPositive(s[1..]);
      CanonicalIsNatStr(s[1..]);
      assert s == "-" + s[1..];
    } else {
      CanonicalIsNatStr(s);
    }
  }

  /** `f'{n:02}'`: the decimal rendering, left-padded with `0` to width two. */
  function Pad2(n: nat): (r: string)
    ensures IsDigits(r) && DigitsValue(r) == n
    ensures |r| >= 2
    ensures n < 100 ==> |r| == 2
  {
    NatStrRoundTrip(n);
    if n < 10 then
      var r := "0" + NatStr(n);
      assert r[..|r| - 1] == "0";
      r
    else
      NatStr(n)
  }
}
