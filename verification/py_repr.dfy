/** Python's `str` of a list of strings, which the exporter feeds into its
    configuration fingerprint: every element is written as `repr` writes a
    string (quote choice and escapes), the elements separated by `, `
    inside brackets. A reader for that text shows that no two lists print
    the same. */
module PyRepr {
  import opened Wrappers

  const Single: char := '\''
  const Double: char := '"'

  /** `repr` quotes with `"` only when the text holds `'` and no `"`. */
  function QuoteFor(s: string): (q: char)
    ensures q == Single || q == Double
    ensures q == Double <==> Single in s && Double !in s
  {
    if Single in s && Double !in s then Double else Single
  }

  /** Whether `repr` writes the character as it is (when it is not a quote
      or a backslash): everything but the C0 controls, DEL, the C1
      controls, the no-break space and the soft hyphen, as far as the first
      256 code points go. */
  predicate Printable(c: char) {
    ' ' <= c && c != '\U{7F}' && !('\U{80}' <= c <= '\U{A0}') && c != '\U{AD}'
  }

  const HexDigits: string := "0123456789abcdef"

  function HexValue(c: char): (r: Option<nat>)
    ensures r.Some? ==> r.value < 16
  {
    if '0' <= c <= '9' then Some(c as nat - '0' as nat)
    else if 'a' <= c <= 'f' then Some(c as nat - 'a' as nat + 10)
    else None
  }

  lemma HexValueOfDigit(n: nat)
    requires n < 16
    ensures HexValue(HexDigits[n]) == Some(n)
  {
  }

  /** One character inside quotes `q`: backslash and the quote are escaped
      with a backslash, tab, newline and carriage return get their letter
      escapes, other characters that are not printable become `\xhh`, and
      everything else stands for itself. */
  function EscapeChar(c: char, q: char): (r: string)
    ensures r != []
  {
    if c == '\\' then "\\\\"
    else if c == q then ['\\', q]
    else if c == '\t' then "\\t"
    else if c == '\n' then "\\n"
    else if c == '\r' then "\\r"
    else if !Printable(c) then ['\\', 'x', HexDigits[c as nat / 16], HexDigits[c as nat % 16]]
    else [c]
  }

  function Escape(s: string, q: char): string
    decreases |s|
  {
    if s == [] then [] else EscapeChar(s[0], q) + Escape(s[1..], q)
  }

  /** `repr(s)`. */
  function Repr(s: string): (r: string)
    ensures |r| >= 2 && (r[0] == Single || r[0] == Double)
  {
    var q := QuoteFor(s);
    [q] + Escape(s, q) + [q]
  }

  /** `str(xs)` for a list of strings. */
  function ListRepr(xs: seq<string>): (r: string)
    ensures |r| >= 2 && r[0] == '[' && r[|r| - 1] == ']'
  {
    "[" + JoinReprs(xs) + "]"
  }

  /** The element reprs separated by `, `. */
  function JoinReprs(xs: seq<string>): string
    decreases |xs|
  {
    if xs == [] then []
    else if |xs| == 1 then Repr(xs[0])
    else Repr(xs[0]) + ", " + JoinReprs(xs[1..])
  }

  /** Puts one decoded character in front of a decoded body. */
  function Prepend(c: char, r: Option<(string, string)>): Option<(string, string)> {
    match r
    case None => None
    case Some(p) => Some(([c] + p.0, p.1))
  }

  /** Reads one escape after a backslash: the character it stands for and
      how many characters it spans. */
  function Unescape(w: string, q: char): (r: Option<(char, nat)>)
    ensures r.Some? ==> 1 <= r.value.1 <= |w|
  {
    if w == [] then None
    else if w[0] == '\\' || w[0] == q then Some((w[0], 1))
    else if w[0] == 't' then Some(('\t', 1))
    else if w[0] == 'n' then Some(('\n', 1))
    else if w[0] == 'r' then Some(('\r', 1))
    else if w[0] == 'x' && |w| >= 3 && HexValue(w[1]).Some? && HexValue(w[2]).Some? then
      Some(((HexValue(w[1]).value * 16 + HexValue(w[2]).value) as char, 3))
    else None
  }

  /** Reads a quoted body up to the closing quote `q`: the text it stands
      for and what follows the quote. */
  function ReadBody(t: string, q: char): (r: Option<(string, string)>)
    ensures r.Some? ==> |r.value.1| < |t|
    decreases |t|
  {
    if t == [] then None
    else if t[0] == q then Some(([], t[1..]))
    else if t[0] != '\\' then Prepend(t[0], ReadBody(t[1..], q))
    else
      match Unescape(t[1..], q)
      case None => None
      case Some(d) => Prepend(d.0, ReadBody(t[1 + d.1..], q))
  }

  /** Reads the elements of a list text after its `[`. */
  function ReadElements(t: string): Option<seq<string>>
    decreases |t|
  {
    if t == [] || (t[0] != Single && t[0] != Double) then None
    else
      match ReadBody(t[1..], t[0])
      case None => None
      case Some(p) =>
        if p.1 == "]" then Some([p.0])
        else if |p.1| >= 2 && p.1[..2] == ", " then
          match ReadElements(p.1[2..])
          case None => None
          case Some(rest) => Some([p.0] + rest)
        else None
  }

  /** Reads a list text back. */
  function ReadList(t: string): Option<seq<string>> {
    if t == "[]" then Some([])
    else if |t| >= 1 && t[0] == '[' then ReadElements(t[1..])
    else None
  }

  /** Reading undoes one escaped character. */
  lemma ReadEscapedChar(c: char, q: char, u: string)
    requires q == Single || q == Double
    ensures ReadBody(EscapeChar(c, q) + u, q) == Prepend(c, ReadBody(u, q))
  {
    var e := EscapeChar(c, q);
    var t := e + u;
    if e == [c] {
      assert c != q && c != '\\';
      assert t[0] == c && t[1..] == u;
    } else {
      var w := e[1..];
      assert e[0] == '\\' && e == ['\\'] + w;
      assert Unescape(w + u, q) == Some((c, |w|)) by { UnescapeOfEscape(c, q, u); }
      assert t[0] == '\\' && t[1..] == w + u && t[1 + |w|..] == u;
    }
  }

  /** What follows the backslash of an escape reads back as the escaped
      character. */
  lemma UnescapeOfEscape(c: char, q: char, u: string)
    requires q == Single || q == Double
    requires EscapeChar(c, q) != [c]
    ensures EscapeChar(c, q)[0] == '\\'
    ensures Unescape(EscapeChar(c, q)[1..] + u, q) == Some((c, |EscapeChar(c, q)| - 1))
  {
    if c == '\\' || c == q || c == '\t' || c == '\n' || c == '\r' {
      UnescapeLetter(c, q, u);
    } else {
      UnescapeHex(c, q, u);
    }
  }

  lemma UnescapeLetter(c: char, q: char, u: string)
    requires q == Single || q == Double
    requires c == '\\' || c == q || c == '\t' || c == '\n' || c == '\r'
    ensures EscapeChar(c, q)[0] == '\\'
    ensures Unescape(EscapeChar(c, q)[1..] + u, q) == Some((c, |EscapeChar(c, q)| - 1))
  {
    var l := if c == '\\' || c == q then c else if c == '\t' then 't' else if c == '\n' then 'n' else 'r';
    assert EscapeChar(c, q) == ['\\', l];
    var w := [l] + u;
    assert EscapeChar(c, q)[1..] + u == w;
    assert w[0] == l;
  }

  lemma UnescapeHex(c: char, q: char, u: string)
    requires q == Single || q == Double
    requires c != '\\' && c != q && c != '\t' && c != '\n' && c != '\r' && !Printable(c)
    ensures EscapeChar(c, q)[0] == '\\'
    ensures Unescape(EscapeChar(c, q)[1..] + u, q) == Some((c, |EscapeChar(c, q)| - 1))
  {
    var n := c as nat;
    assert n < 256;
    var h1, h2 := HexDigits[n / 16], HexDigits[n % 16];
    assert EscapeChar(c, q) == ['\\', 'x', h1, h2];
    var w := ['x', h1, h2] + u;
    assert EscapeChar(c, q)[1..] + u == w;
    assert HexValue(h1) == Some(n / 16) by { HexValueOfDigit(n / 16); }
    assert HexValue(h2) == Some(n % 16) by { HexValueOfDigit(n % 16); }
    assert w[0] == 'x' && w[1] == h1 && w[2] == h2;
  }

  /** Reading undoes the escaping of a whole text, stopping at the closing
      quote. */
  lemma {:induction false} ReadEscaped(s: string, q: char, u: string)
    requires q == Single || q == Double
    ensures ReadBody(Escape(s, q) + [q] + u, q) == Some((s, u))
    decreases |s|
  {
    if s == [] {
      assert Escape(s, q) + [q] + u == [q] + u;
      assert ([q] + u)[1..] == u;
    } else {
      var e, r := EscapeChar(s[0], q), Escape(s[1..], q);
      var v := r + [q] + u;
      assert Escape(s, q) + [q] + u == e + v by {
        assert Escape(s, q) == e + r;
        RegroupFront(e, r, [q], u);
      }
      assert ReadBody(v, q) == Some((s[1..], u)) by { ReadEscaped(s[1..], q, u); }
      assert ReadBody(e + v, q) == Prepend(s[0], ReadBody(v, q)) by { ReadEscapedChar(s[0], q, v); }
      assert [s[0]] + s[1..] == s;
    }
  }

  /** Reading one repr gives the text back and stops right after it. */
  lemma ReadRepr(s: string, u: string)
    ensures var t := Repr(s) + u;
            ReadBody(t[1..], t[0]) == Some((s, u))
  {
    var q := QuoteFor(s);
    var t := Repr(s) + u;
    assert t[0] == q;
    assert t[1..] == Escape(s, q) + [q] + u;
    ReadEscaped(s, q, u);
  }

  lemma {:induction false} ReadJoined(xs: seq<string>)
    requires xs != []
    ensures ReadElements(JoinReprs(xs) + "]") == Some(xs)
    decreases |xs|
  {
    if |xs| == 1 {
      assert JoinReprs(xs) == Repr(xs[0]);
      ReadLastElement(xs[0]);
      assert [xs[0]] == xs;
    } else {
      var a, j := Repr(xs[0]), JoinReprs(xs[1..]);
      var tail := j + "]";
      assert JoinReprs(xs) == a + ", " + j;
      assert JoinReprs(xs) + "]" == a + (", " + tail) by { Regroup(a, ", ", j, "]"); }
      assert ReadElements(tail) == Some(xs[1..]) by { ReadJoined(xs[1..]); }
      assert ReadElements(a + (", " + tail)) == Some([xs[0]] + xs[1..]) by {
        ReadNextElement(xs[0], tail);
      }
      assert [xs[0]] + xs[1..] == xs;
    }
  }

  lemma Regroup(a: string, b: string, c: string, d: string)
    ensures (a + b + c) + d == a + (b + (c + d))
  {
  }

  lemma RegroupFront(a: string, b: string, c: string, d: string)
    ensures a + b + c + d == a + (b + c + d)
  {
  }

  lemma ReadLastElement(x: string)
    ensures ReadElements(Repr(x) + "]") == Some([x])
  {
    ReadRepr(x, "]");
  }

  lemma ReadNextElement(x: string, tail: string)
    ensures ReadElements(Repr(x) + (", " + tail)) ==
      if ReadElements(tail).Some? then Some([x] + ReadElements(tail).value) else None
  {
    var rest := ", " + tail;
    ReadRepr(x, rest);
    assert rest != "]";
    assert rest[..2] == ", " && rest[2..] == tail;
  }

  /** Reading the printed list gives the list back. */
  lemma ListReprRoundTrip(xs: seq<string>)
    ensures ReadList(ListRepr(xs)) == Some(xs)
  {
    if xs == [] {
      assert ListRepr(xs) == "[]";
    } else {
      var t := ListRepr(xs);
      ReadJoined(xs);
      assert t != "[]" by { assert t[1] == Repr(xs[0])[0]; }
      assert t[1..] == JoinReprs(xs) + "]";
    }
  }

  /** No two lists of strings print the same. */
  lemma ListReprInjective(xs: seq<string>, ys: seq<string>)
    ensures ListRepr(xs) == ListRepr(ys) ==> xs == ys
  {
    ListReprRoundTrip(xs);
    ListReprRoundTrip(ys);
  }
}
