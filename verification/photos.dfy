/** The pure helpers of `darktable/darktable.py` the exporter uses: the
    sidecar path of a photo version, the raw-extension test that protects
    source files from `sync`, and the splitting of format options. */
module Photos {
  import opened Text
  import opened PosixPath

  /** A catalogue photo, reduced to what the export cache uses: its
      normalised source path and its version number. */
  datatype Photo = Photo(filepath: string, version: int)

  /** The file name of the sidecar: the source name, with `_` and the
      two-digit version inserted before the extension when the version is
      positive, then `.xmp`. */
  function XmpName(p: Photo): (r: string)
    ensures EndsWith(r, ".xmp")
    ensures Free(r, IsSlash)
  {
    var parts := Splitext(Basename(p.filepath));
    XmpNameFree(parts.0, parts.1, p.version);
    Versioned(parts.0, parts.1, p.version)
  }

  /** `<stem>[_<vv>]<ext>.xmp`. */
  function Versioned(stem: string, ext: string, v: int): (r: string)
    ensures EndsWith(r, ".xmp")
  {
    var r := (if v > 0 then stem + "_" + Pad2(v) else stem) + ext + ".xmp";
    assert r[|r| - 4..] == ".xmp";
    r
  }

  /** Different versions at or above 0 give different names. */
  lemma VersionedDiffer(stem: string, ext: string, v: int, w: int)
    requires 0 <= v < w
    ensures Versioned(stem, ext, v) != Versioned(stem, ext, w)
  {
    if v == 0 {
      VersionedLength(stem, ext, v);
      VersionedLength(stem, ext, w);
    } else {
      Pad2Injective(v, w);
      MiddleDiffers(stem + "_", Pad2(v), Pad2(w), ext + ".xmp");
      VersionedSplits(stem, ext, v);
      VersionedSplits(stem, ext, w);
    }
  }

  lemma VersionedLength(stem: string, ext: string, v: int)
    ensures v <= 0 ==> |Versioned(stem, ext, v)| == |stem| + |ext| + 4
    ensures v > 0 ==> |Versioned(stem, ext, v)| >= |stem| + |ext| + 7
  {
  }

  lemma VersionedSplits(stem: string, ext: string, v: int)
    requires v > 0
    ensures Versioned(stem, ext, v) == (stem + "_") + Pad2(v) + (ext + ".xmp")
  {
  }

  lemma Pad2Injective(v: nat, w: nat)
    requires v != w
    ensures Pad2(v) != Pad2(w)
  {
    assert DigitsValue(Pad2(v)) != DigitsValue(Pad2(w));
  }

  lemma FreeConcat(a: string, b: string, isSep: char -> bool)
    requires Free(a, isSep) && Free(b, isSep)
    ensures Free(a + b, isSep)
  {
  }

  lemma FreeSplit(a: string, b: string, isSep: char -> bool)
    requires Free(a + b, isSep)
    ensures Free(a, isSep) && Free(b, isSep)
  {
    assert forall i :: 0 <= i < |a| ==> a[i] == (a + b)[i];
    assert forall i :: 0 <= i < |b| ==> b[i] == (a + b)[|a| + i];
  }

  lemma XmpNameFree(stem: string, ext: string, v: int)
    requires Free(stem + ext, IsSlash)
    ensures Free(Versioned(stem, ext, v), IsSlash)
  {
    FreeSplit(stem, ext, IsSlash);
    var s := if v > 0 then stem + "_" + Pad2(v) else stem;
    if v > 0 {
      assert IsDigits(Pad2(v));
      assert Free(Pad2(v), IsSlash);
      FreeConcat(stem, "_", IsSlash);
      FreeConcat(stem + "_", Pad2(v), IsSlash);
    }
    FreeConcat(s, ext, IsSlash);
    FreeConcat(s + ext, ".xmp", IsSlash);
  }

  /** `Photo.xmp_path`: the sidecar of this version, in the photo's own
      directory. */
  function XmpPath(p: Photo): (r: string)
    ensures EndsWith(r, ".xmp")
    ensures Dirname(r) == Dirname(p.filepath)
    ensures Basename(r) == XmpName(p)
  {
    var d := Dirname(p.filepath);
    var x := XmpName(p);
    JoinPathSplits(d, x);
    JoinKeepsSuffix(d, x, ".xmp");
    JoinPath(d, x)
  }

  /** Joining a plain file name onto a directory keeps the file name's
      suffix. */
  lemma JoinKeepsSuffix(d: string, x: string, suffix: string)
    requires x != [] && Free(x, IsSlash) && EndsWith(x, suffix)
    ensures EndsWith(JoinPath(d, x), suffix)
  {
    assert !StartsWith(x, "/") by { assert !IsSlash(x[0]); }
    var r := JoinPath(d, x);
    assert r[|r| - |x|..] == x;
    assert r[|r| - |suffix|..] == x[|x| - |suffix|..];
  }

  /** The sidecar name of version 0 (and below) is `<name><ext>.xmp`; that
      of a positive version `v` is `<name>_<vv><ext>.xmp`, where `<vv>` is
      the version written with at least two digits and the extension is the
      one `splitext` finds. For the versions below 100 the suffix added to
      the source name is exactly seven characters long. */
  lemma XmpNameShape(p: Photo)
    ensures p.version <= 0 ==> XmpName(p) == Basename(p.filepath) + ".xmp"
    ensures p.version > 0 ==>
      var parts := Splitext(Basename(p.filepath));
      && parts.0 + parts.1 == Basename(p.filepath)
      && XmpName(p) == parts.0 + "_" + Pad2(p.version) + parts.1 + ".xmp"
      && IsDigits(Pad2(p.version)) && DigitsValue(Pad2(p.version)) == p.version
    ensures 0 < p.version < 100 ==> |XmpName(p)| == |Basename(p.filepath)| + 7
  {
  }

  /** Different middles make different strings around a common prefix and
      suffix. */
  lemma MiddleDiffers(u: string, a: string, b: string, w: string)
    requires a != b
    ensures u + a + w != u + b + w
  {
    if |a| == |b| {
      assert (u + a + w)[|u|..|u| + |a|] == a;
      assert (u + b + w)[|u|..|u| + |b|] == b;
    } else {
      assert |u + a + w| != |u + b + w|;
    }
  }

  /** Two different versions of one source file never share a sidecar
      name (every version at or below 0 is version 0). */
  lemma XmpNameDistinctVersions(p: Photo, q: Photo)
    requires p.filepath == q.filepath
    requires 0 <= p.version < q.version
    ensures XmpName(p) != XmpName(q)
  {
    var parts := Splitext(Basename(p.filepath));
    VersionedDiffer(parts.0, parts.1, p.version, q.version);
  }

  /** Hence two different versions of one source file never share a
      sidecar file. */
  lemma XmpPathDistinctVersions(p: Photo, q: Photo)
    requires p.filepath == q.filepath
    requires 0 <= p.version < q.version
    ensures XmpPath(p) != XmpPath(q)
  {
    XmpNameDistinctVersions(p, q);
  }

  /** Every file-name extension of a raw camera format the exporter knows,
      in the order the exporter lists them. */
  const RawExtensionList: seq<string> := [
    "3fr", "ari", "arw", "bay", "braw", "crw", "cr2", "cr3",
    "cap", "data", "dcs", "dcr", "dng", "drf", "eip", "erf",
    "fff", "gpr", "iiq", "k25", "kdc", "mdc", "mef", "mos",
    "mrw", "nef", "nrw", "obm", "orf", "pef", "ptx", "pxn",
    "r3d", "raf", "raw", "rwl", "rw2", "rwz", "sr2", "srf",
    "srw", "tif", "x3f"
  ]

  /** The list as a set. */
  const RawExtensionSet: set<string> := set x | x in RawExtensionList

  /** A raw extension: listed, and not `tif`, which is also an export
      format. */
  predicate IsRawName(name: string) {
    name in RawExtensionSet && name != "tif"
  }

  predicate IsDot(c: char) {
    c == '.'
  }

  /** `ext.strip().lstrip('.').lower()`. */
  function NormalizeExt(ext: string): string {
    Lower(TrimStart(Strip(ext), IsDot))
  }

  /** `is_raw_photo_ext(ext)`. */
  predicate IsRawPhotoExt(ext: string) {
    IsRawName(NormalizeExt(ext))
  }

  predicate AllSpace(s: string) {
    forall i :: 0 <= i < |s| ==> IsSpace(s[i])
  }

  lemma {:induction false} TrimStartPast(a: string, x: string, drop: char -> bool)
    requires forall i :: 0 <= i < |a| ==> drop(a[i])
    requires x == [] || !drop(x[0])
    ensures TrimStart(a + x, drop) == x
    decreases |a|
  {
    if a == [] {
      assert a + x == x;
    } else {
      assert (a + x)[1..] == a[1..] + x;
      TrimStartPast(a[1..], x, drop);
    }
  }

  lemma {:induction false} TrimEndPast(x: string, b: string, drop: char -> bool)
    requires forall i :: 0 <= i < |b| ==> drop(b[i])
    requires x == [] || !drop(x[|x| - 1])
    ensures TrimEnd(x + b, drop) == x
    decreases |b|
  {
    if b == [] {
      assert x + b == x;
    } else {
      var b' := b[..|b| - 1];
      assert (x + b)[..|x + b| - 1] == x + b';
      TrimEndPast(x, b', drop);
    }
  }

  /** The extension test ignores whitespace around the extension and the
      dots in front of it: `ext` wrapped in whitespace `a`, `b` and preceded
      by dots `d` normalises to the lower-case form of `ext`. */
  lemma NormalizeIgnoresSurroundings(a: string, d: string, e: string, b: string)
    requires AllSpace(a) && AllSpace(b) && AllDots(d)
    requires e == [] || (!IsSpace(e[0]) && !IsSpace(e[|e| - 1]) && e[0] != '.')
    ensures NormalizeExt(a + d + e + b) == Lower(e)
  {
    var x := d + e;
    if x == [] {
      assert a + d + e + b == (a + b) + [];
      TrimStartPast(a + b, [], IsSpace);
      TrimEndPast([], [], IsSpace);
      assert e == [];
    } else {
      assert !IsSpace(x[0]) by { assert x[0] == '.' || x[0] == e[0]; }
      assert !IsSpace(x[|x| - 1]) by { assert x[|x| - 1] == '.' || x[|x| - 1] == e[|e| - 1]; }
      assert a + d + e + b == a + (x + b);
      TrimStartPast(a, x + b, IsSpace);
      TrimEndPast(x, b, IsSpace);
      assert Strip(a + d + e + b) == x;
    }
    TrimStartPast(d, e, IsDot);
  }

  lemma SurroundingsSameNormal(a: string, d: string, e: string, b: string)
    requires AllSpace(a) && AllSpace(b) && AllDots(d)
    requires e == [] || (!IsSpace(e[0]) && !IsSpace(e[|e| - 1]) && e[0] != '.')
    ensures NormalizeExt(a + d + e + b) == NormalizeExt(e)
  {
    NormalizeIgnoresSurroundings(a, d, e, b);
    NormalizeBare(e);
  }

  /** Two extensions with the same normal form are both raw or both not. */
  lemma RawBySameNormal(x: string, y: string)
    requires NormalizeExt(x) == NormalizeExt(y)
    ensures IsRawPhotoExt(x) == IsRawPhotoExt(y)
  {
  }

  /** A bare extension with nothing around it normalises to its lower case. */
  lemma NormalizeBare(e: string)
    requires e == [] || (!IsSpace(e[0]) && !IsSpace(e[|e| - 1]) && e[0] != '.')
    ensures NormalizeExt(e) == Lower(e)
  {
    NormalizeIgnoresSurroundings("", "", e, "");
    assert "" + "" + e + "" == e;
  }

  /** Upper-casing commutes with the stripping steps. */
  lemma TrimStartUpper(s: string, drop: char -> bool)
    requires forall c :: drop(UpperChar(c)) == drop(c)
    ensures TrimStart(Upper(s), drop) == Upper(TrimStart(s, drop))
    decreases |s|
  {
    if s != [] && drop(s[0]) {
      assert Upper(s)[1..] == Upper(s[1..]);
      TrimStartUpper(s[1..], drop);
    }
  }

  lemma TrimEndUpper(s: string, drop: char -> bool)
    requires forall c :: drop(UpperChar(c)) == drop(c)
    ensures TrimEnd(Upper(s), drop) == Upper(TrimEnd(s, drop))
    decreases |s|
  {
    if s != [] && drop(s[|s| - 1]) {
      assert Upper(s)[..|s| - 1] == Upper(s[..|s| - 1]);
      TrimEndUpper(s[..|s| - 1], drop);
    }
  }

  lemma UpperKeepsSpace()
    ensures forall c :: IsSpace(UpperChar(c)) == IsSpace(c)
  {
  }

  lemma UpperKeepsDot()
    ensures forall c :: IsDot(UpperChar(c)) == IsDot(c)
  {
  }

  lemma StripUpper(ext: string)
    ensures Strip(Upper(ext)) == Upper(Strip(ext))
  {
    UpperKeepsSpace();
    TrimStartUpper(ext, IsSpace);
    TrimEndUpper(TrimStart(ext, IsSpace), IsSpace);
  }

  lemma LowerUpper(t: string)
    ensures Lower(Upper(t)) == Lower(t)
  {
  }

  /** Normalisation does not depend on letter case. */
  lemma NormalizeIgnoresCase(ext: string)
    ensures NormalizeExt(Upper(ext)) == NormalizeExt(ext)
  {
    StripUpper(ext);
    UpperKeepsDot();
    TrimStartUpper(Strip(ext), IsDot);
    LowerUpper(TrimStart(Strip(ext), IsDot));
  }

  /** A raw source such as `out/x.NEF` has a raw extension, so `sync`
      never deletes it. */
  lemma RawSourceSpared()
    ensures IsRawPhotoExt(Splitext("out/x.NEF").1)
  {
    SplitextNef();
    NefRaw(Splitext("out/x.NEF").1);
  }

  /** `.NEF` is a raw extension. */
  lemma NefRaw(e: string)
    requires |e| == 4 && e[0] == '.' && e[1] == 'N' && e[2] == 'E' && e[3] == 'F'
    ensures IsRawPhotoExt(e)
  {
    NefNormal(e);
    NefListed();
  }

  lemma NefListed()
    ensures IsRawName("nef")
  {
    assert RawExtensionList[25] == "nef";
  }

  /** `.NEF` normalises to `nef`. */
  lemma NefNormal(e: string)
    requires |e| == 4 && e[0] == '.' && e[1] == 'N' && e[2] == 'E' && e[3] == 'F'
    ensures NormalizeExt(e) == "nef"
  {
    var x := e[1..];
    assert e == "" + e[..1] + x + "";
    NormalizeIgnoresSurroundings("", e[..1], x, "");
    LowerNef(x);
  }

  lemma LowerNef(x: string)
    requires |x| == 3 && x[0] == 'N' && x[1] == 'E' && x[2] == 'F'
    ensures Lower(x) == "nef"
  {
    var l := Lower(x);
    assert l[0] == 'n' && l[1] == 'e' && l[2] == 'f';
  }

  /** An extension that normalises to a name on the list other than `tif`
      is raw. */
  lemma RawByName(ext: string, i: nat)
    requires i < |RawExtensionList| && NormalizeExt(ext) == RawExtensionList[i]
    requires RawExtensionList[i] != "tif"
    ensures IsRawPhotoExt(ext)
  {
  }

  /** `jpg` is on no position of the list. */
  lemma JpgUnlisted()
    ensures "jpg" !in RawExtensionSet
  {
    assert "jpg" !in RawExtensionList;
  }

  /** `tif` and `jpg`, written in any way that normalises to them, are not
      raw: `tif` is listed but excluded as an export format, `jpg` is not
      listed. */
  lemma ExportFormatsNotRaw(ext: string)
    requires NormalizeExt(ext) == "tif" || NormalizeExt(ext) == "jpg"
    ensures !IsRawPhotoExt(ext)
  {
    if NormalizeExt(ext) == "jpg" {
      JpgUnlisted();
    }
  }

  /** A blank extension normalises to the empty name, which is not raw. */
  lemma BlankNotRaw(ext: string)
    requires Strip(ext) == ""
    ensures !IsRawPhotoExt(ext)
  {
    assert NormalizeExt(ext) == "";
    EmptyNameNotRaw();
  }

  lemma EmptyNameNotRaw()
    ensures !IsRawName("")
  {
    assert forall k :: 0 <= k < |RawExtensionList| ==> |RawExtensionList[k]| >= 3;
  }

  /** The separators of the format option list: `,`, `;` and whitespace. */
  predicate IsOptionSep(c: char) {
    c == ',' || c == ';' || IsSpace(c)
  }

  /** `filter(None, pieces)`: drops the empty pieces. */
  function NonEmpty(pieces: seq<string>): (r: seq<string>)
    ensures forall i :: 0 <= i < |r| ==> r[i] != "" && r[i] in pieces
    decreases |pieces|
  {
    if pieces == [] then []
    else if pieces[0] == "" then NonEmpty(pieces[1..])
    else [pieces[0]] + NonEmpty(pieces[1..])
  }

  /** `parse_format_options(s)`: the non-empty runs between separators, in
      order. */
  function ParseFormatOptions(s: string): (r: seq<string>)
    ensures forall i :: 0 <= i < |r| ==> r[i] != "" && Free(r[i], IsOptionSep)
  {
    NonEmpty(Split(s, IsOptionSep))
  }

  lemma {:induction false} NonEmptyKeeps(pieces: seq<string>)
    requires forall i :: 0 <= i < |pieces| ==> pieces[i] != ""
    ensures NonEmpty(pieces) == pieces
    decreases |pieces|
  {
    if pieces != [] {
      NonEmptyKeeps(pieces[1..]);
      assert [pieces[0]] + pieces[1..] == pieces;
    }
  }

  lemma {:induction false} FlattenNonEmpty(pieces: seq<string>)
    ensures Flatten(NonEmpty(pieces)) == Flatten(pieces)
    decreases |pieces|
  {
    if pieces != [] {
      FlattenNonEmpty(pieces[1..]);
      if pieces[0] == "" {
        assert Flatten(pieces) == "" + Flatten(pieces[1..]) == Flatten(pieces[1..]);
      } else {
        var r := NonEmpty(pieces);
        assert r[0] == pieces[0] && r[1..] == NonEmpty(pieces[1..]);
      }
    }
  }

  /** Options written out with any one separator character between them
      parse back to the same options. */
  lemma FormatOptionsRoundTrip(options: seq<string>, c: char)
    requires IsOptionSep(c)
    requires forall i :: 0 <= i < |options| ==> options[i] != "" && Free(options[i], IsOptionSep)
    ensures ParseFormatOptions(Join(options, [c])) == options
  {
    if options == [] {
      assert Split("", IsOptionSep) == [""];
    } else {
      SplitJoin(options, c, IsOptionSep);
      NonEmptyKeeps(options);
    }
  }

  /** Parsing loses nothing but the separators: the options, concatenated,
      are the input with every separator removed. */
  lemma FormatOptionsKeepText(s: string)
    ensures Flatten(ParseFormatOptions(s)) == Keep(s, IsOptionSep)
  {
    FlattenNonEmpty(Split(s, IsOptionSep));
    FlattenSplit(s, IsOptionSep);
  }

  /** A run of separator characters. */
  predicate AllSeps(s: string) {
    forall i :: 0 <= i < |s| ==> IsOptionSep(s[i])
  }

  /** The options written out with the runs `seps` before, between and
      after them. */
  function Layout(options: seq<string>, seps: seq<string>): string
    requires |seps| == |options| + 1
    decreases |options|
  {
    if options == [] then seps[0]
    else seps[0] + options[0] + Layout(options[1..], seps[1..])
  }

  /** Options written out with any runs of separators between them, and
      any runs, empty or not, before the first and after the last, parse
      back to the same options. */
  lemma {:induction false} FormatOptionsLayout(options: seq<string>, seps: seq<string>)
    requires |seps| == |options| + 1
    requires forall i :: 0 <= i < |seps| ==> AllSeps(seps[i])
    requires forall i :: 0 < i < |options| ==> seps[i] != []
    requires forall i :: 0 <= i < |options| ==> options[i] != "" && Free(options[i], IsOptionSep)
    ensures ParseFormatOptions(Layout(options, seps)) == options
    decreases |options|
  {
    if options == [] {
      assert seps[0] + "" == seps[0];
      ParseSkipsRun(seps[0], "");
      NothingParsed();
    } else {
      var rest := Layout(options[1..], seps[1..]);
      FormatOptionsLayout(options[1..], seps[1..]);
      assert Layout(options, seps) == seps[0] + (options[0] + rest);
      ParseSkipsRun(seps[0], options[0] + rest);
      if |options| > 1 {
        assert rest[0] == seps[1][0];
      } else {
        assert rest == seps[1];
      }
      ParseTakesOption(options[0], rest);
    }
  }

  /** Leading separators produce no option. */
  lemma {:induction false} ParseSkipsRun(run: string, s: string)
    requires AllSeps(run)
    ensures ParseFormatOptions(run + s) == ParseFormatOptions(s)
    decreases |run|
  {
    if run == [] {
      assert run + s == s;
    } else {
      var t := run + s;
      assert t[0] == run[0] && t[1..] == run[1..] + s;
      assert Split(t, IsOptionSep) == [""] + Split(run[1..] + s, IsOptionSep);
      NonEmptyCons("", Split(run[1..] + s, IsOptionSep));
      ParseSkipsRun(run[1..], s);
    }
  }

  /** An option followed by a separator or by nothing is parsed first. */
  lemma ParseTakesOption(x: string, s: string)
    requires x != [] && Free(x, IsOptionSep)
    requires s == [] || IsOptionSep(s[0])
    ensures ParseFormatOptions(x + s) == [x] + ParseFormatOptions(s)
  {
    if s == [] {
      assert x + s == x;
      SplitFree(x, IsOptionSep);
      NonEmptyCons(x, []);
      NothingParsed();
    } else {
      var rest := Split(s[1..], IsOptionSep);
      assert x + s == x + [s[0]] + s[1..];
      SplitAfterFreePrefix(x, s[0], s[1..], IsOptionSep);
      NonEmptyCons(x, rest);
      assert Split(s, IsOptionSep) == [""] + rest;
      NonEmptyCons("", rest);
    }
  }

  lemma NothingParsed()
    ensures ParseFormatOptions("") == []
  {
    assert Split("", IsOptionSep) == [""] == [""] + [];
    NonEmptyCons("", []);
    assert NonEmpty([]) == [];
  }

  lemma NonEmptyCons(x: string, rest: seq<string>)
    ensures NonEmpty([x] + rest) == if x == "" then NonEmpty(rest) else [x] + NonEmpty(rest)
  {
    assert ([x] + rest)[1..] == rest;
  }
}
