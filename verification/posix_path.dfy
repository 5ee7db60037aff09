/** The parts of Python's `posixpath` and `PurePosixPath` the exporter relies
    on: `basename`, `dirname`, `splitext`, `join` and the normalised string
    form of a pure path. */
module PosixPath {
  import opened Text

  predicate IsSlash(c: char) {
    c == '/'
  }

  predicate AllSlashes(s: string) {
    forall i :: 0 <= i < |s| ==> s[i] == '/'
  }

  /** `p.rfind(c)`: the last index holding `c`, or -1. */
  function LastIndex(p: string, c: char): (r: int)
    ensures -1 <= r < |p|
    ensures r >= 0 ==> p[r] == c
    ensures forall i :: r < i < |p| ==> p[i] != c
    decreases |p|
  {
    if p == [] then -1
    else if p[|p| - 1] == c then |p| - 1
    else LastIndex(p[..|p| - 1], c)
  }

  /** Any index with the three properties of `LastIndex` is `LastIndex`. */
  lemma LastIndexUnique(p: string, c: char, r: int)
    requires -1 <= r < |p|
    requires r >= 0 ==> p[r] == c
    requires forall i :: r < i < |p| ==> p[i] != c
    ensures LastIndex(p, c) == r
  {
  }

  /** Appending text without `c` does not move the last `c`. */
  lemma LastIndexAppend(a: string, x: string, c: char)
    requires forall i :: 0 <= i < |x| ==> x[i] != c
    ensures LastIndex(a + x, c) == LastIndex(a, c)
  {
    var r := LastIndex(a, c);
    forall i | r < i < |a + x|
      ensures (a + x)[i] != c
    {
      if i >= |a| {
        assert (a + x)[i] == x[i - |a|];
      }
    }
    LastIndexUnique(a + x, c, r);
  }

  /** `posixpath.basename(p)`: the text after the last slash, so a
      slash-free suffix of `p` (stated index by index). */
  function Basename(p: string): (r: string)
    ensures Free(r, IsSlash)
  {
    var k := LastIndex(p, '/') + 1;
    var r := p[k..];
    assert forall i :: 0 <= i < |r| ==> r[i] == p[k + i];
    r
  }

  /** The base name is a suffix of the path. */
  lemma BasenameSuffix(p: string)
    ensures EndsWith(p, Basename(p))
  {
  }

  /** `posixpath.dirname(p)`: the text up to the last slash, with trailing
      slashes removed unless it consists of slashes only. */
  function Dirname(p: string): (r: string)
    ensures StartsWith(p, r)
    ensures DirShape(r)
  {
    var head := p[..LastIndex(p, '/') + 1];
    if head != [] && !AllSlashes(head) then TrimEnd(head, IsSlash) else head
  }

  /** What a `dirname` result looks like: empty, only slashes, or ending in
      something other than a slash. */
  predicate DirShape(d: string) {
    d == [] || AllSlashes(d) || d[|d| - 1] != '/'
  }

  /** `posixpath.join(a, b)` for two arguments. */
  function JoinPath(a: string, b: string): string {
    if StartsWith(b, "/") then b
    else if a == [] || EndsWith(a, "/") then a + b
    else a + "/" + b
  }

  /** Joining a directory with a plain file name puts the file in that
      directory: `dirname` and `basename` take the join apart again. */
  lemma JoinPathSplits(d: string, x: string)
    requires DirShape(d)
    requires x != [] && Free(x, IsSlash)
    ensures Dirname(JoinPath(d, x)) == d
    ensures Basename(JoinPath(d, x)) == x
  {
    assert !StartsWith(x, "/") by { assert !IsSlash(x[0]); }
    if d == [] || EndsWith(d, "/") {
      assert JoinPath(d, x) == d + x;
      JoinOntoRoot(d, x);
    } else {
      assert JoinPath(d, x) == d + "/" + x;
      JoinBelowName(d, x);
    }
  }

  /** The join onto an empty or all-slash directory. */
  lemma JoinOntoRoot(d: string, x: string)
    requires d == [] || AllSlashes(d)
    requires Free(x, IsSlash)
    ensures Dirname(d + x) == d && Basename(d + x) == x
  {
    LastIndexAppend(d, x, '/');
    if d != [] {
      LastIndexUnique(d, '/', |d| - 1);
    }
    assert (d + x)[..|d|] == d;
    assert (d + x)[|d|..] == x;
  }

  /** The join onto a directory ending in something other than a slash. */
  lemma JoinBelowName(d: string, x: string)
    requires d != [] && d[|d| - 1] != '/'
    requires Free(x, IsSlash)
    ensures Dirname(d + "/" + x) == d && Basename(d + "/" + x) == x
  {
    var a := d + "/";
    assert d + "/" + x == a + x;
    LastIndexUnique(a, '/', |d|);
    LastIndexAppend(a, x, '/');
    assert (a + x)[..|a|] == a;
    assert (a + x)[|a|..] == x;
    assert !AllSlashes(a) by { assert a[|d| - 1] != '/'; }
    TrimOneSlash(d);
  }

  /** Trimming the trailing slashes of `d + "/"` gives `d` back when `d`
      does not end in a slash. */
  lemma TrimOneSlash(d: string)
    requires d != [] && d[|d| - 1] != '/'
    ensures TrimEnd(d + "/", IsSlash) == d
  {
    var a := d + "/";
    assert a[..|a| - 1] == d;
    assert TrimEnd(a, IsSlash) == TrimEnd(d, IsSlash);
  }

  predicate AllDots(s: string) {
    forall i :: 0 <= i < |s| ==> s[i] == '.'
  }

  /** Where the extension starts in `posixpath.splitext(p)`: at the last dot
      after the last slash, unless everything between that slash and that
      dot is a dot (a leading-dot name such as `.profile` has no extension);
      `|p|` when there is no extension. */
  function ExtStart(p: string): (k: nat)
    ensures k <= |p|
  {
    var s := LastIndex(p, '/');
    var d := LastIndex(p, '.');
    if d > s && !AllDots(p[s + 1..d]) then d else |p|
  }

  /** Some dot after the last slash has a character other than a dot
      between that slash and it. */
  predicate HasExtension(p: string) {
    exists j, i :: LastIndex(p, '/') < i < j < |p| && p[j] == '.' && p[i] != '.'
  }

  /** `posixpath.splitext(p)`: root and extension. */
  function Splitext(p: string): (r: (string, string))
    ensures r.0 + r.1 == p
    ensures r.1 == [] || (r.1[0] == '.' && Free(r.1, IsSlash) && Free(r.1[1..], c => c == '.'))
    ensures r.1 != [] ==> r.0 != [] && !AllDots(Basename(r.0))
    ensures r.1 != [] <==> HasExtension(p)
  {
    var k := ExtStart(p);
    assert p[..k] + p[k..] == p;
    if k < |p| then
      ExtentOfExtension(p);
      StemOfExtension(p);
      ExtensionFound(p);
      (p[..k], p[k..])
    else
      NoExtension(p);
      (p[..k], p[k..])
  }

  /** The dot where the extension starts qualifies. */
  lemma ExtensionFound(p: string)
    requires ExtStart(p) < |p|
    ensures HasExtension(p)
  {
    var s := LastIndex(p, '/');
    var d := LastIndex(p, '.');
    assert d > s && !AllDots(p[s + 1..d]);
    var n :| 0 <= n < d - s - 1 && p[s + 1..d][n] != '.';
    assert p[s + 1 + n] != '.';
  }

  /** `splitext("out/x.NEF")` is `("out/x", ".NEF")`. */
  lemma SplitextNef()
    ensures Splitext("out/x.NEF") == ("out/x", ".NEF")
  {
    var p := "out/x.NEF";
    assert LastIndex(p, '/') == 3 by { LastIndexUnique(p, '/', 3); }
    assert LastIndex(p, '.') == 5 by { LastIndexUnique(p, '.', 5); }
    assert !AllDots(p[4..5]) by { assert p[4..5][0] == 'x'; }
    assert ExtStart(p) == 5;
    assert p[..5] == "out/x" && p[5..] == ".NEF";
  }

  /** Without an extension start, no dot qualifies. */
  lemma NoExtension(p: string)
    requires ExtStart(p) == |p|
    ensures !HasExtension(p)
  {
    var s := LastIndex(p, '/');
    var d := LastIndex(p, '.');
    forall j, i | s < i < j < |p| && p[j] == '.'
      ensures p[i] == '.'
    {
      assert j <= d && AllDots(p[s + 1..d]);
      assert p[i] == p[s + 1..d][i - s - 1];
    }
  }

  /** The extension runs from its dot to the end without another dot or a
      slash. */
  lemma ExtentOfExtension(p: string)
    requires ExtStart(p) < |p|
    ensures var k := ExtStart(p);
      p[k] == '.' && Free(p[k..], IsSlash) && Free(p[k + 1..], c => c == '.')
  {
    var s := LastIndex(p, '/');
    var k := LastIndex(p, '.');
    assert ExtStart(p) == k && s < k;
    var ext := p[k..];
    forall i | 0 <= i < |ext|
      ensures !IsSlash(ext[i])
    {
      assert ext[i] == p[k + i];
    }
    var tail := p[k + 1..];
    forall i | 0 <= i < |tail|
      ensures tail[i] != '.'
    {
      assert tail[i] == p[k + 1 + i];
    }
  }

  /** What precedes the extension is a non-empty path whose file name is not
      all dots. */
  lemma StemOfExtension(p: string)
    requires ExtStart(p) < |p|
    ensures var k := ExtStart(p);
      p[..k] != [] && !AllDots(Basename(p[..k]))
  {
    var s := LastIndex(p, '/');
    var k := LastIndex(p, '.');
    assert ExtStart(p) == k && k > s && !AllDots(p[s + 1..k]);
    var q := p[..k];
    assert Basename(q) == p[s + 1..k] by {
      LastIndexUnique(q, '/', s);
      assert q[s + 1..] == p[s + 1..k];
    }
  }

  /** Drops the empty and `.` components, as `PurePosixPath` does. */
  function Components(pieces: seq<string>): (r: seq<string>)
    ensures forall i :: 0 <= i < |r| ==> r[i] != "" && r[i] != "."
    decreases |pieces|
  {
    if pieces == [] then []
    else if pieces[0] == "" || pieces[0] == "." then Components(pieces[1..])
    else [pieces[0]] + Components(pieces[1..])
  }

  /** The root `PurePosixPath` keeps: exactly two leading slashes are kept,
      one or three and more become one. */
  function Root(p: string): string {
    if StartsWith(p, "//") && !StartsWith(p, "///") then "//"
    else if StartsWith(p, "/") then "/"
    else ""
  }

  /** `str(PurePosixPath(p))`: root, then the remaining components joined by
      single slashes, or `.` when nothing is left. */
  function PurePathStr(p: string): (r: string)
    ensures r != []
  {
    var s := Root(p) + Join(Components(Split(p, IsSlash)), "/");
    if s == [] then "." else s
  }

  /** `str(PurePosixPath(a, b))`. */
  function PurePathJoin(a: string, b: string): string {
    PurePathStr(JoinPath(a, b))
  }

  lemma {:induction false} ComponentsClean(parts: seq<string>)
    requires forall i :: 0 <= i < |parts| ==> parts[i] != "" && parts[i] != "."
    ensures Components(parts) == parts
    decreases |parts|
  {
    if parts != [] {
      ComponentsClean(parts[1..]);
      assert [parts[0]] + parts[1..] == parts;
    }
  }

  lemma JoinStartsWithFirst(parts: seq<string>, sep: string)
    requires |parts| >= 1
    ensures StartsWith(Join(parts, sep), parts[0])
  {
    if |parts| > 1 {
      assert Join(parts, sep)[..|parts[0]|] == parts[0];
    }
  }

  lemma SplitAfterSlash(x: string)
    ensures Split("/" + x, IsSlash) == [""] + Split(x, IsSlash)
  {
    assert ("/" + x)[1..] == x;
  }

  lemma ComponentsSkipsEmpty(parts: seq<string>)
    ensures Components([""] + parts) == Components(parts)
  {
    assert ([""] + parts)[1..] == parts;
  }

  /** A path made of a root alone normalises to itself. */
  lemma RootAloneFixed(root: string)
    requires root == "/" || root == "//"
    ensures PurePathStr(root) == root
  {
    SplitAfterSlash("");
    ComponentsSkipsEmpty([""]);
    ComponentsSkipsEmpty([]);
    if root == "//" {
      SplitAfterSlash("/");
      assert "/" + "/" == root;
      ComponentsSkipsEmpty(["", ""]);
      assert Root("//") == "//" by { assert !StartsWith("//", "///"); }
    }
  }

  /** A path already made of a root and clean components normalises to
      itself. */
  lemma NormalFormFixed(root: string, parts: seq<string>)
    requires root == "" || root == "/" || root == "//"
    requires forall i :: 0 <= i < |parts| ==> parts[i] != "" && parts[i] != "."
    requires forall i :: 0 <= i < |parts| ==> Free(parts[i], IsSlash)
    requires root + Join(parts, "/") != []
    ensures PurePathStr(root + Join(parts, "/")) == root + Join(parts, "/")
  {
    var j := Join(parts, "/");
    if parts == [] {
      assert root + j == root;
      RootAloneFixed(root);
    } else {
      CleanComponents(root, parts);
      JoinStartsWithFirst(parts, "/");
      assert j[0] != '/' by { assert parts[0][0] == j[0]; assert !IsSlash(parts[0][0]); }
      RootOfClean(root, j);
    }
  }

  lemma CleanComponents(root: string, parts: seq<string>)
    requires root == "" || root == "/" || root == "//"
    requires parts != []
    requires forall i :: 0 <= i < |parts| ==> parts[i] != "" && parts[i] != "."
    requires forall i :: 0 <= i < |parts| ==> Free(parts[i], IsSlash)
    ensures Components(Split(root + Join(parts, "/"), IsSlash)) == parts
  {
    var j := Join(parts, "/");
    SplitJoin(parts, '/', IsSlash);
    ComponentsClean(parts);
    if root == "" {
      assert root + j == j;
    } else {
      SlashesSkipped(root, j);
    }
  }

  /** A root of one or two slashes adds only empty pieces, which
      `Components` drops. */
  lemma SlashesSkipped(root: string, j: string)
    requires root == "/" || root == "//"
    ensures Components(Split(root + j, IsSlash)) == Components(Split(j, IsSlash))
  {
    if root == "/" {
      SlashSkipped(j);
    } else {
      var k := "/" + j;
      assert root + j == "/" + k by { DoubleSlash(j); }
      assert Components(Split("/" + k, IsSlash)) == Components(Split(k, IsSlash)) by {
        SlashSkipped(k);
      }
      SlashSkipped(j);
    }
  }

  lemma DoubleSlash(j: string)
    ensures "//" + j == "/" + ("/" + j)
  {
  }

  lemma SlashSkipped(j: string)
    ensures Components(Split("/" + j, IsSlash)) == Components(Split(j, IsSlash))
  {
    SplitAfterSlash(j);
    ComponentsSkipsEmpty(Split(j, IsSlash));
  }

  lemma RootOfClean(root: string, j: string)
    requires root == "" || root == "/" || root == "//"
    requires j != [] && j[0] != '/'
    ensures Root(root + j) == root
  {
    var q := root + j;
    if root == "//" {
      assert q[..2] == "//" && q[2] == j[0];
    } else if root == "/" {
      assert q[0] == '/' && q[1] == j[0];
    } else {
      assert q[0] == j[0];
    }
  }

  /** The normalised form is a fixed point: normalising it again changes
      nothing. */
  lemma PurePathStrIdempotent(p: string)
    ensures PurePathStr(PurePathStr(p)) == PurePathStr(p)
  {
    var parts := Components(Split(p, IsSlash));
    forall i | 0 <= i < |parts|
      ensures Free(parts[i], IsSlash)
    {
      ComponentsFree(Split(p, IsSlash), i);
    }
    if Root(p) + Join(parts, "/") == [] {
      SplitFree(".", IsSlash);
      assert Components(["."]) == [] by { assert ["."][1..] == []; }
      assert Root(".") == "";
    } else {
      NormalFormFixed(Root(p), parts);
    }
  }

  lemma {:induction false} ComponentsFree(pieces: seq<string>, i: nat)
    requires forall k :: 0 <= k < |pieces| ==> Free(pieces[k], IsSlash)
    requires i < |Components(pieces)|
    ensures Free(Components(pieces)[i], IsSlash)
    decreases |pieces|
  {
    if pieces[0] == "" || pieces[0] == "." {
      ComponentsFree(pieces[1..], i);
    } else if i > 0 {
      ComponentsFree(pieces[1..], i - 1);
    }
  }

  /** `Components` works piece by piece. */
  lemma {:induction false} ComponentsAppend(a: seq<string>, b: seq<string>)
    ensures Components(a + b) == Components(a) + Components(b)
    decreases |a|
  {
    if a == [] {
      assert a + b == b;
    } else {
      assert (a + b)[1..] == a[1..] + b;
      ComponentsAppend(a[1..], b);
    }
  }

  lemma {:induction false} JoinEndsWithLast(parts: seq<string>, sep: string)
    requires parts != []
    ensures EndsWith(Join(parts, sep), parts[|parts| - 1])
    decreases |parts|
  {
    if |parts| > 1 {
      JoinEndsWithLast(parts[1..], sep);
      var a := parts[0] + sep;
      var j := Join(parts[1..], sep);
      assert Join(parts, sep) == a + j;
      var x := parts[|parts| - 1];
      assert (a + j)[|a + j| - |x|..] == j[|j| - |x|..];
    }
  }

  /** Appending text that does not open with a slash keeps the root, unless
      the directory itself ends in one. */
  lemma RootExtends(d: string, x: string)
    requires d != []
    requires x == [] || x[0] != '/' || d[|d| - 1] != '/'
    ensures Root(d + x) == Root(d)
  {
    var q := d + x;
    if |d| >= 3 {
      assert q[..3] == d[..3];
      assert q[..2] == d[..2];
      assert q[..1] == d[..1];
    } else if x != [] {
      assert q[0] == d[0];
      if |d| == 2 {
        assert q[..2] == d;
        assert q[2] == x[0];
      } else {
        assert q[1] == x[0];
      }
    } else {
      assert q == d;
    }
  }

  /** The pieces of a name the recursive glob `**` finds below a directory: at least
      one, none empty, none `.` or `..`. */
  predicate CleanRelative(rel: string) {
    rel != [] &&
    forall i :: 0 <= i < |Split(rel, IsSlash)| ==>
      Split(rel, IsSlash)[i] != "" && Split(rel, IsSlash)[i] != "." && Split(rel, IsSlash)[i] != ".."
  }

  /** What a name below the normalised directory `root` starts with: nothing
      below `.`, the root itself when it is all slashes, else `root/`. */
  function Under(root: string): string {
    if root == "." then ""
    else if EndsWith(root, "/") then root
    else root + "/"
  }

  /** `f` is a name the recursive glob below `dir` spells: the normalised
      directory followed by a clean relative name. */
  predicate Walked(dir: string, f: string) {
    var u := Under(PurePathStr(dir));
    StartsWith(f, u) && CleanRelative(f[|u|..])
  }

  /** A clean relative name opens with a component, and normalising leaves
      its pieces alone. */
  lemma CleanRelativeShape(rel: string)
    requires CleanRelative(rel)
    ensures rel[0] != '/'
    ensures Components(Split(rel, IsSlash)) == Split(rel, IsSlash)
    ensures Join(Split(rel, IsSlash), "/") == rel
  {
    var parts := Split(rel, IsSlash);
    LeadingSlashEmpty(rel);
    ComponentsClean(parts);
    JoinSplit(rel, '/', IsSlash);
  }

  lemma LeadingSlashEmpty(s: string)
    ensures s != [] && s[0] == '/' ==> Split(s, IsSlash)[0] == ""
  {
  }

  /** Joining below a non-empty directory keeps its root and appends the
      name's components to its own. */
  lemma JoinedComponents(dir: string, rel: string)
    requires dir != [] && rel != [] && rel[0] != '/'
    ensures Root(JoinPath(dir, rel)) == Root(dir)
    ensures Components(Split(JoinPath(dir, rel), IsSlash))
         == Components(Split(dir, IsSlash)) + Components(Split(rel, IsSlash))
  {
    assert !StartsWith(rel, "/");
    if EndsWith(dir, "/") {
      var d := dir[..|dir| - 1];
      assert JoinPath(dir, rel) == dir + rel;
      JoinedBelowSlash(d, rel);
      assert d + "/" == dir;
    } else {
      assert JoinPath(dir, rel) == dir + "/" + rel;
      JoinedBelowName(dir, rel);
    }
  }

  lemma JoinedBelowSlash(d: string, rel: string)
    requires rel != [] && rel[0] != '/'
    ensures Root(d + "/" + rel) == Root(d + "/")
    ensures Components(Split(d + "/" + rel, IsSlash))
         == Components(Split(d + "/", IsSlash)) + Components(Split(rel, IsSlash))
  {
    var ds := d + "/";
    assert Root(ds + rel) == Root(ds) by { RootExtends(ds, rel); }
    assert Components(Split(ds, IsSlash)) == Components(Split(d, IsSlash)) by {
      TrailingSlashSkipped(d);
    }
    assert Split(d + "/" + rel, IsSlash) == Split(d, IsSlash) + Split(rel, IsSlash) by {
      SplitAround(d, '/', rel, IsSlash);
    }
    ComponentsAppend(Split(d, IsSlash), Split(rel, IsSlash));
  }

  /** A trailing slash adds only an empty piece, which `Components` drops. */
  lemma TrailingSlashSkipped(d: string)
    ensures Components(Split(d + "/", IsSlash)) == Components(Split(d, IsSlash))
  {
    assert d + "/" == d + "/" + "";
    SplitAround(d, '/', "", IsSlash);
    assert Split("", IsSlash) == [""];
    ComponentsAppend(Split(d, IsSlash), [""]);
    assert Components([""]) == [] by { assert [""][1..] == []; }
  }

  lemma JoinedBelowName(d: string, rel: string)
    requires d != [] && d[|d| - 1] != '/'
    ensures Root(d + "/" + rel) == Root(d)
    ensures Components(Split(d + "/" + rel, IsSlash))
         == Components(Split(d, IsSlash)) + Components(Split(rel, IsSlash))
  {
    assert d + "/" + rel == d + ("/" + rel);
    RootExtends(d, "/" + rel);
    SplitAround(d, '/', rel, IsSlash);
    ComponentsAppend(Split(d, IsSlash), Split(rel, IsSlash));
  }

  /** A normalised path with at least one component neither is `.` nor ends
      in a slash. */
  lemma NormalisedEnding(dir: string)
    requires Components(Split(dir, IsSlash)) != []
    ensures PurePathStr(dir) == Root(dir) + Join(Components(Split(dir, IsSlash)), "/")
    ensures PurePathStr(dir) != "." && !EndsWith(PurePathStr(dir), "/")
  {
    var pieces := Split(dir, IsSlash);
    var cd := Components(pieces);
    var jn := Join(cd, "/");
    var last := cd[|cd| - 1];
    assert last != "" && last != ".";
    assert forall k :: 0 <= k < |pieces| ==> Free(pieces[k], IsSlash);
    assert Free(last, IsSlash) by { ComponentsFree(pieces, |cd| - 1); }
    assert EndsWith(jn, last) by { JoinEndsWithLast(cd, "/"); }
    EndsInName(Root(dir), jn, last);
    PurePathStrIs(dir, Root(dir) + jn);
  }

  /** Text ending in a slash-free name other than `.` neither is `.` nor
      ends in a slash. */
  lemma EndsInName(r: string, jn: string, last: string)
    requires last != "" && last != "." && Free(last, IsSlash) && EndsWith(jn, last)
    ensures r + jn != [] && r + jn != "." && !EndsWith(r + jn, "/")
  {
    var p := r + jn;
    assert p[|p| - 1] == last[|last| - 1] by {
      assert p[|p| - 1] == jn[|jn| - 1];
      assert jn[|jn| - |last|..][|last| - 1] == last[|last| - 1];
    }
    assert !IsSlash(last[|last| - 1]);
    if |p| == 1 {
      assert jn[|jn| - |last|..] == jn;
      assert p == last;
    }
  }

  /** `str(PurePosixPath(dir, rel))` for a clean relative name is the
      normalised directory followed by the name as it is. */
  lemma WalkJoin(dir: string, rel: string)
    requires CleanRelative(rel)
    ensures PurePathJoin(dir, rel) == Under(PurePathStr(dir)) + rel
  {
    CleanRelativeShape(rel);
    if dir == [] {
      WalkJoinEmpty(rel);
    } else {
      var j := JoinPath(dir, rel);
      var cd := Components(Split(dir, IsSlash));
      var parts := Split(rel, IsSlash);
      JoinedComponents(dir, rel);
      assert Components(Split(j, IsSlash)) == cd + parts;
      if cd == [] {
        assert cd + parts == parts;
        WalkJoinRootOnly(dir, j, rel);
      } else {
        assert Join(cd + parts, "/") == Join(cd, "/") + "/" + rel by {
          JoinAppend(cd, parts, "/");
        }
        WalkJoinBelow(dir, j, rel);
      }
    }
  }

  lemma WalkJoinBelow(dir: string, j: string, rel: string)
    requires Components(Split(dir, IsSlash)) != []
    requires Root(j) == Root(dir)
    requires Join(Components(Split(j, IsSlash)), "/")
          == Join(Components(Split(dir, IsSlash)), "/") + "/" + rel
    ensures PurePathStr(j) == Under(PurePathStr(dir)) + rel
  {
    var p := PurePathStr(dir);
    var a := Join(Components(Split(dir, IsSlash)), "/");
    assert Under(p) == p + "/" && p == Root(dir) + a by {
      NormalisedEnding(dir);
    }
    var cj := Join(Components(Split(j, IsSlash)), "/");
    assert Root(j) + cj == p + "/" + rel by {
      BelowAssoc(Root(j), a, cj, rel);
    }
    PurePathStrIs(j, p + "/" + rel);
  }

  lemma BelowAssoc(r: string, a: string, c: string, rel: string)
    requires c == a + "/" + rel
    ensures r + c == (r + a) + "/" + rel
  {
  }

  lemma PurePathStrIs(p: string, s: string)
    requires s != [] && Root(p) + Join(Components(Split(p, IsSlash)), "/") == s
    ensures PurePathStr(p) == s
  {
  }

  lemma WalkJoinEmpty(rel: string)
    requires CleanRelative(rel)
    ensures PurePathJoin([], rel) == Under(PurePathStr([])) + rel
  {
    assert Under(PurePathStr([])) == "" by { EmptyPathIsDot(); }
    assert JoinPath([], rel) == rel by { CleanRelativeShape(rel); }
    assert PurePathStr(rel) == rel by { CleanIsNormal(rel); }
  }

  /** A clean relative name is already in normal form. */
  lemma CleanIsNormal(rel: string)
    requires CleanRelative(rel)
    ensures PurePathStr(rel) == rel
  {
    var parts := Split(rel, IsSlash);
    CleanRelativeShape(rel);
    NormalFormFixed("", parts);
    assert "" + Join(parts, "/") == rel;
  }

  lemma EmptyPathIsDot()
    ensures PurePathStr([]) == "."
  {
    assert Split([], IsSlash) == [""];
    assert Components([""]) == [] by { assert [""][1..] == []; }
  }

  lemma WalkJoinRootOnly(dir: string, j: string, rel: string)
    requires rel != []
    requires Components(Split(dir, IsSlash)) == []
    requires Root(j) == Root(dir)
    requires Join(Components(Split(j, IsSlash)), "/") == rel
    ensures PurePathStr(j) == Under(PurePathStr(dir)) + rel
  {
    var r := Root(dir);
    assert Join([], "/") == "";
    assert PurePathStr(dir) == if r == "" then "." else r;
    var q := Root(j) + Join(Components(Split(j, IsSlash)), "/");
    assert q == r + rel;
    assert PurePathStr(j) == r + rel;
    if r == "/" {
      assert EndsWith(r, "/");
    } else if r == "//" {
      assert EndsWith(r, "/");
    }
  }

  /** The walked names are exactly the joins of the directory with clean
      relative names. */
  lemma WalkedIff(dir: string, f: string)
    ensures Walked(dir, f) <==> exists rel :: CleanRelative(rel) && f == PurePathJoin(dir, rel)
  {
    if Walked(dir, f) {
      var rel := WalkedSpelt(dir, f);
    }
    if exists rel :: CleanRelative(rel) && f == PurePathJoin(dir, rel) {
      var rel :| CleanRelative(rel) && f == PurePathJoin(dir, rel);
      JoinWalked(dir, rel);
    }
  }

  /** A walked name is the join of the directory with the rest of it. */
  lemma WalkedSpelt(dir: string, f: string) returns (rel: string)
    requires Walked(dir, f)
    ensures CleanRelative(rel) && f == PurePathJoin(dir, rel)
  {
    var u := Under(PurePathStr(dir));
    rel := f[|u|..];
    WalkJoin(dir, rel);
    PrefixThenRest(f, u);
  }

  /** Every join of the directory with a clean relative name is walked. */
  lemma JoinWalked(dir: string, rel: string)
    requires CleanRelative(rel)
    ensures Walked(dir, PurePathJoin(dir, rel))
  {
    var u := Under(PurePathStr(dir));
    var f := PurePathJoin(dir, rel);
    WalkJoin(dir, rel);
    assert f[..|u|] == u && f[|u|..] == rel;
  }

  lemma PrefixThenRest(f: string, u: string)
    requires StartsWith(f, u)
    ensures f == u + f[|u|..]
  {
  }
}
