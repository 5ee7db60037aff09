/** The `Exporter` of `darktable/darktable.py`: renders catalogue photos
    through the darktable command line, remembers in a shared store which
    output belongs to which photo version and which sidecar hash it was
    rendered from, and reconciles an output directory with the outputs of
    the current session.

    Everything outside the process is a value or a parameter: the store is
    a `Table`, the filesystem the set of existing file paths, SHA-1 and the
    sidecar hash are functions, and the renderer is a function from the
    command line to what it prints and the files it writes. */
module Exporting {
  import opened Wrappers
  import opened Text
  import opened PosixPath
  import opened PrefixCache
  import AH = ArgsHash
  import opened Photos
  import opened RenderOutput
  import opened PyRepr

  /** The constructor's arguments. `xmpChanges` holds the qualified names
      of the sidecar edit functions, which is all the exporter uses of them
      besides applying them. */
  datatype Config = Config(
    cacheKey: string,
    cliBin: string,
    configDir: string,
    filenameFormat: string,
    outExt: string,
    formatOptions: seq<string>,
    hqResampling: string,
    width: int,
    height: int,
    exifArtist: Option<string>,
    exifCopyright: Option<string>,
    debug: bool,
    xmpChanges: seq<string>)

  /** An exporter: its configuration, the temporary sidecar it renders from
      when sidecar edits are configured, the fingerprint of its
      configuration and the outputs of the current session. */
  datatype Exporter = Exporter(config: Config, tmpXmp: string, argsHash: string, session: set<string>)

  /** The three views of the shared store one exporter uses. */
  function MainView(c: Config): Cache {
    Cache(c.cacheKey + ":main:")
  }

  function XmpView(c: Config): Cache {
    Cache(c.cacheKey + ":xmp:")
  }

  function ExportView(c: Config): Cache {
    Cache(c.cacheKey + ":export:")
  }

  /** Neither of two views is a prefix of the other: they see disjoint
      parts of the store. */
  predicate Unrelated(a: Cache, b: Cache) {
    !StartsWith(a.prefix, b.prefix) && !StartsWith(b.prefix, a.prefix)
  }

  lemma DifferAfterKey(key: string, x: string, y: string)
    requires x != [] && y != [] && x[0] != y[0]
    ensures !StartsWith(key + x, key + y) && !StartsWith(key + y, key + x)
  {
    assert (key + x)[|key|] == x[0];
    assert (key + y)[|key|] == y[0];
  }

  /** The three views of one exporter are pairwise unrelated. */
  lemma ViewsUnrelated(c: Config)
    ensures Unrelated(MainView(c), XmpView(c))
    ensures Unrelated(MainView(c), ExportView(c))
    ensures Unrelated(XmpView(c), ExportView(c))
  {
    DifferAfterKey(c.cacheKey + ":", "main:", "xmp:");
    DifferAfterKey(c.cacheKey + ":", "main:", "export:");
    DifferAfterKey(c.cacheKey + ":", "xmp:", "export:");
    assert c.cacheKey + ":main:" == (c.cacheKey + ":") + "main:";
    assert c.cacheKey + ":xmp:" == (c.cacheKey + ":") + "xmp:";
    assert c.cacheKey + ":export:" == (c.cacheKey + ":") + "export:";
  }

  /** The keyword arguments of the fingerprint, as the constructor passes
      them: every rendering input, each turned into a string. */
  function FingerprintArgs(c: Config): (kw: seq<AH.Keyword>)
    ensures AH.DistinctKeys(kw)
  {
    var kw := [
      ("cli_bin", Some(c.cliBin)),
      ("config_dir", Some(c.configDir)),
      ("filename_format", Some(c.filenameFormat)),
      ("out_ext", Some(c.outExt)),
      ("format_options", Some(ListRepr(c.formatOptions))),
      ("hq_resampling", Some(c.hqResampling)),
      ("width", Some(IntStr(c.width))),
      ("height", Some(IntStr(c.height))),
      ("xmp_changes", Some(ListRepr(c.xmpChanges)))
    ];
    FingerprintKeysDistinct(kw);
    kw
  }

  /** The names the constructor passes its keyword arguments under. */
  const FingerprintKeys: seq<string> := [
    "cli_bin", "config_dir", "filename_format", "out_ext", "format_options",
    "hq_resampling", "width", "height", "xmp_changes"
  ]

  lemma FingerprintKeysDistinct(kw: seq<AH.Keyword>)
    requires |kw| == |FingerprintKeys|
    requires forall i :: 0 <= i < |kw| ==> kw[i].0 == FingerprintKeys[i]
    ensures AH.DistinctKeys(kw)
  {
    forall i, j | 0 <= i < j < |kw|
      ensures kw[i].0 != kw[j].0
    {
      var a, b := FingerprintKeys[i], FingerprintKeys[j];
      assert a != b;
    }
  }

  /** Two configurations give the same fingerprint arguments exactly when
      they agree on every rendering input. */
  lemma FingerprintArgsExact(c1: Config, c2: Config)
    ensures FingerprintArgs(c1) == FingerprintArgs(c2) <==>
      && c1.cliBin == c2.cliBin && c1.configDir == c2.configDir
      && c1.filenameFormat == c2.filenameFormat && c1.outExt == c2.outExt
      && c1.formatOptions == c2.formatOptions && c1.hqResampling == c2.hqResampling
      && c1.width == c2.width && c1.height == c2.height && c1.xmpChanges == c2.xmpChanges
  {
    if FingerprintArgs(c1) == FingerprintArgs(c2) {
      var a, b := FingerprintArgs(c1), FingerprintArgs(c2);
      assert a[4] == b[4] && a[6] == b[6] && a[7] == b[7] && a[8] == b[8];
      ListReprInjective(c1.formatOptions, c2.formatOptions);
      ListReprInjective(c1.xmpChanges, c2.xmpChanges);
      IntStrInjective(c1.width, c2.width);
      IntStrInjective(c1.height, c2.height);
    }
  }

  /** `args_hash(...)` of the constructor, with SHA-1 given as `sha1`. */
  function Fingerprint(sha1: string -> string, c: Config): string {
    AH.Digest(sha1, [], FingerprintArgs(c))
  }

  /** The personal details and the debug switch are not part of the
      fingerprint: changing them keeps the cached outputs. */
  lemma FingerprintIgnoresPersonalDetails(sha1: string -> string, c: Config, artist: Option<string>, copyright: Option<string>, debug: bool)
    ensures Fingerprint(sha1, c.(exifArtist := artist, exifCopyright := copyright, debug := debug)) == Fingerprint(sha1, c)
  {
    var d := c.(exifArtist := artist, exifCopyright := copyright, debug := debug);
    assert FingerprintArgs(d) == FingerprintArgs(c);
  }

  /** The logical key, in the main view, under which the fingerprint of the
      last configuration is kept. */
  const HashKey: string := "args_hash"

  /** An exporter together with the store it left behind. */
  datatype Started = Started(exporter: Exporter, table: Table)

  /** The constructor: fingerprints the configuration and records it over
      the store as `Record` does. The session starts empty. */
  function NewExporter(c: Config, tmpXmp: string, sha1: string -> string, t: Table): Started {
    var h := Fingerprint(sha1, c);
    Started(Exporter(c, tmpXmp, h, {}), Record(c, h, t))
  }

  /** The store part of the constructor: when the fingerprint `h` differs
      from the one last recorded under the same cache key, every recorded
      output and sidecar hash is forgotten; then `h` is recorded. Nothing
      outside the three views changes. */
  function Record(c: Config, h: string, t: Table): (r: Table)
    ensures Load(MainView(c), r, HashKey) == Str(h)
    ensures forall k :: k != HashKey ==> Load(MainView(c), r, k) == Load(MainView(c), t, k)
    ensures Load(MainView(c), t, HashKey) != Str(h) ==>
      forall k :: Load(ExportView(c), r, k) == Null && Load(XmpView(c), r, k) == Null
    ensures Load(MainView(c), t, HashKey) == Str(h) ==>
      forall k :: Load(ExportView(c), r, k) == Load(ExportView(c), t, k)
              && Load(XmpView(c), r, k) == Load(XmpView(c), t, k)
    ensures forall pk :: pk in t && !StartsWith(pk, c.cacheKey + ":") ==> pk in r && r[pk] == t[pk]
    ensures forall pk :: pk in t && pk != Physical(MainView(c), HashKey)
                         && !StartsWith(pk, ExportView(c).prefix) && !StartsWith(pk, XmpView(c).prefix)
                         ==> pk in r && r[pk] == t[pk]
    ensures forall pk :: pk in r ==> pk in t || pk == Physical(MainView(c), HashKey)
    ensures Load(MainView(c), t, HashKey) != Str(h) ==>
      forall pk :: pk in r ==> !StartsWith(pk, ExportView(c).prefix) && !StartsWith(pk, XmpView(c).prefix)
    ensures Load(MainView(c), t, HashKey) == Str(h) ==>
      forall pk :: pk in t ==> pk in r && (pk != Physical(MainView(c), HashKey) ==> r[pk] == t[pk])
  {
    var drift := Load(MainView(c), t, HashKey) != Str(h);
    var pruned := if drift then Prune(XmpView(c), Prune(ExportView(c), t)) else t;
    var r := Save(MainView(c), pruned, HashKey, Str(h));
    forall k
      ensures k != HashKey ==> Load(MainView(c), r, k) == Load(MainView(c), t, k)
      ensures Load(ExportView(c), r, k) == Load(ExportView(c), pruned, k)
      ensures Load(XmpView(c), r, k) == Load(XmpView(c), pruned, k)
      ensures drift ==> Load(ExportView(c), r, k) == Null && Load(XmpView(c), r, k) == Null
    {
      RecordLoads(c, h, t, drift, pruned, k);
    }
    forall pk | pk in t && !StartsWith(pk, c.cacheKey + ":")
      ensures pk in r && r[pk] == t[pk]
    {
      RecordKeepsOthers(c, h, t, drift, pruned, pk);
    }
    RecordFrame(c, h, t, drift, pruned);
    r
  }

  /** Which physical keys `Record` keeps, adds and drops: only the main
      key is added, and on drift nothing is left under the export and
      sidecar hash prefixes. */
  lemma RecordFrame(c: Config, h: string, t: Table, drift: bool, pruned: Table)
    requires pruned == if drift then Prune(XmpView(c), Prune(ExportView(c), t)) else t
    ensures var r := Save(MainView(c), pruned, HashKey, Str(h));
            var mk := Physical(MainView(c), HashKey);
            && (forall pk :: (pk in t && pk != mk && !StartsWith(pk, ExportView(c).prefix)
                              && !StartsWith(pk, XmpView(c).prefix)) ==> pk in r && r[pk] == t[pk])
            && (forall pk :: pk in r ==> pk in t || pk == mk)
            && (drift ==> forall pk :: pk in r ==>
                  !StartsWith(pk, ExportView(c).prefix) && !StartsWith(pk, XmpView(c).prefix))
            && (!drift ==> forall pk :: pk in t ==> pk in r && (pk != mk ==> r[pk] == t[pk]))
  {
    var mk := Physical(MainView(c), HashKey);
    ViewsUnrelated(c);
    assert StartsWith(mk, MainView(c).prefix);
    PrefixesDiverge(MainView(c).prefix, ExportView(c).prefix, mk);
    PrefixesDiverge(MainView(c).prefix, XmpView(c).prefix, mk);
  }

  /** What one key loads through each view after `Record`. */
  lemma RecordLoads(c: Config, h: string, t: Table, drift: bool, pruned: Table, k: string)
    requires pruned == if drift then Prune(XmpView(c), Prune(ExportView(c), t)) else t
    ensures var r := Save(MainView(c), pruned, HashKey, Str(h));
            && (k != HashKey ==> Load(MainView(c), r, k) == Load(MainView(c), t, k))
            && Load(ExportView(c), r, k) == Load(ExportView(c), pruned, k)
            && Load(XmpView(c), r, k) == Load(XmpView(c), pruned, k)
            && (drift ==> Load(ExportView(c), pruned, k) == Null && Load(XmpView(c), pruned, k) == Null)
  {
    ViewsUnrelated(c);
    PrefixesDiverge(MainView(c).prefix, ExportView(c).prefix, Physical(MainView(c), k));
    PrefixesDiverge(MainView(c).prefix, XmpView(c).prefix, Physical(MainView(c), k));
    LoadSaveOther(MainView(c), ExportView(c), pruned, HashKey, k, Str(h));
    LoadSaveOther(MainView(c), XmpView(c), pruned, HashKey, k, Str(h));
    if k != HashKey && Physical(MainView(c), k) == Physical(MainView(c), HashKey) {
      PhysicalInjective(MainView(c), k, HashKey);
    }
    assert StartsWith(Physical(ExportView(c), k), ExportView(c).prefix);
    assert StartsWith(Physical(XmpView(c), k), XmpView(c).prefix);
  }

  /** `Record` leaves entries outside `key + ":"` alone. */
  lemma RecordKeepsOthers(c: Config, h: string, t: Table, drift: bool, pruned: Table, pk: string)
    requires pruned == if drift then Prune(XmpView(c), Prune(ExportView(c), t)) else t
    requires pk in t && !StartsWith(pk, c.cacheKey + ":")
    ensures var r := Save(MainView(c), pruned, HashKey, Str(h));
            pk in r && r[pk] == t[pk]
  {
    KeyPrefixCovers(c.cacheKey, "export:", pk);
    KeyPrefixCovers(c.cacheKey, "xmp:", pk);
    KeyPrefixCovers(c.cacheKey, "main:" + HashKey, pk);
    assert Physical(MainView(c), HashKey) == c.cacheKey + ":" + ("main:" + HashKey);
    assert ExportView(c).prefix == c.cacheKey + ":" + "export:";
    assert XmpView(c).prefix == c.cacheKey + ":" + "xmp:";
  }

  /** What starts with `key + ":" + x` starts with `key + ":"`. */
  lemma KeyPrefixCovers(key: string, x: string, pk: string)
    ensures StartsWith(pk, key + ":" + x) ==> StartsWith(pk, key + ":")
  {
    if StartsWith(pk, key + ":" + x) {
      assert (key + ":" + x)[..|key + ":"|] == key + ":";
      assert pk[..|key + ":"|] == (key + ":" + x)[..|key + ":"|];
    }
  }

  /** Constructing a second exporter with the same configuration over the
      store the first one left behind forgets nothing and leaves the store
      exactly as it was. */
  lemma NewExporterIdempotent(c: Config, tmp1: string, tmp2: string, sha1: string -> string, t: Table)
    ensures var t1 := NewExporter(c, tmp1, sha1, t).table;
            NewExporter(c, tmp2, sha1, t1).table == t1
  {
    RecordIdempotent(c, Fingerprint(sha1, c), t);
  }

  lemma RecordIdempotent(c: Config, h: string, t: Table)
    ensures Record(c, h, Record(c, h, t)) == Record(c, h, t)
  {
    var t1 := Record(c, h, t);
    var mainKey := Physical(MainView(c), HashKey);
    assert mainKey in t1 && t1[mainKey] == Entry(MaxSize, Str(h));
    assert Record(c, h, t1) == t1[mainKey := Entry(MaxSize, Str(h))];
  }

  /** The darktable format-plugin configuration namespace the format
      options are passed under. */
  const ConfPrefix: string := "plugins/imageio/format/"

  /** `--conf plugins/imageio/format/<option>` for each format option, in
      order. */
  function ConfArgs(options: seq<string>): (r: seq<string>)
    ensures |r| == 2 * |options|
  {
    if options == [] then [] else ["--conf", ConfPrefix + options[0]] + ConfArgs(options[1..])
  }

  /** Reads format options back from the tail of a command line: pairs of
      `--conf` and a setting in the format namespace, nothing else. */
  function ConfOptions(args: seq<string>): Option<seq<string>>
    decreases |args|
  {
    if args == [] then Some([])
    else if |args| >= 2 && args[0] == "--conf" && StartsWith(args[1], ConfPrefix) then
      match ConfOptions(args[2..])
      case None => None
      case Some(rest) => Some([args[1][|ConfPrefix|..]] + rest)
    else None
  }

  /** The tail of the command line gives back the format options. */
  lemma {:induction false} ConfOptionsRoundTrip(options: seq<string>)
    ensures ConfOptions(ConfArgs(options)) == Some(options)
    decreases |options|
  {
    if options != [] {
      var args := ConfArgs(options);
      assert args[2..] == ConfArgs(options[1..]);
      assert StartsWith(args[1], ConfPrefix) && args[1][|ConfPrefix|..] == options[0];
      ConfOptionsRoundTrip(options[1..]);
      assert options == [options[0]] + options[1..];
    }
  }

  /** The reading is exact: the only words that read back to some options
      are those options' `--conf` pairs. */
  lemma {:induction false} ConfOptionsExact(args: seq<string>, options: seq<string>)
    requires ConfOptions(args) == Some(options)
    ensures args == ConfArgs(options)
    decreases |args|
  {
    if args != [] {
      var rest := ConfOptions(args[2..]).value;
      ConfOptionsExact(args[2..], rest);
      assert options == [args[1][|ConfPrefix|..]] + rest;
      assert ConfPrefix + args[1][|ConfPrefix|..] == args[1];
      assert args == ["--conf", args[1]] + args[2..];
    }
  }

  /** What one darktable-cli call is asked to do. */
  datatype Invocation = Invocation(
    cliBin: string,
    source: string,
    sidecar: string,
    outPath: string,
    width: int,
    height: int,
    outExt: string,
    hq: string,
    configDir: string,
    formatOptions: seq<string>)

  /** Reads a command line of the shape the exporter builds: four
      positional words, the fixed-order switches (no upscaling, no custom
      presets, the core switch, the configuration directory) and the format
      options. */
  function ParseCommand(args: seq<string>): Option<Invocation> {
    if |args| < 19 then None
    else
      match (ParseHead(args[..19]), ConfOptions(args[19..]))
      case (Some(inv), Some(options)) => Some(inv.(formatOptions := options))
      case _ => None
  }

  /** The switch words sit where the exporter puts them. */
  predicate Switches(args: seq<string>)
    requires |args| == 19
  {
    && args[4] == "--width" && args[6] == "--height" && args[8] == "--out-ext" && args[10] == "--hq"
    && args[12] == "--upscale" && args[13] == "false"
    && args[14] == "--apply-custom-presets" && args[15] == "false"
    && args[16] == "--core" && args[17] == "--configdir"
  }

  /** Reads the first nineteen words, before the format options. */
  function ParseHead(args: seq<string>): Option<Invocation>
    requires |args| == 19
  {
    if !Switches(args) then None
    else
      match (ParseInt(args[5]), ParseInt(args[7]))
      case (Some(w), Some(h)) =>
        Some(Invocation(args[0], args[1], args[2], args[3], w, h, args[9], args[11], args[18], []))
      case _ => None
  }

  /** The words before the format options. */
  function Head(c: Config, source: string, sidecar: string, outPath: string): (r: seq<string>)
    ensures |r| == 19
    ensures ParseHead(r) == Some(Invocation(c.cliBin, source, sidecar, outPath,
                                            c.width, c.height, c.outExt, c.hqResampling, c.configDir, []))
  {
    var r := [c.cliBin, source, sidecar, outPath,
              "--width", IntStr(c.width),
              "--height", IntStr(c.height),
              "--out-ext", c.outExt,
              "--hq", c.hqResampling,
              "--upscale", "false",
              "--apply-custom-presets", "false",
              "--core",
              "--configdir", c.configDir];
    assert Switches(r);
    assert ParseInt(r[5]) == Some(c.width) by { IntStrParses(c.width); }
    assert ParseInt(r[7]) == Some(c.height) by { IntStrParses(c.height); }
    r
  }

  /** The reading is exact: the only nineteen words that read back like
      `Head`'s are `Head`'s own, so the size words are `str(width)` and
      `str(height)` and nothing that merely parses to the same numbers. */
  lemma HeadUnique(c: Config, source: string, sidecar: string, outPath: string, args: seq<string>)
    requires |args| == 19
    requires ParseHead(args) == ParseHead(Head(c, source, sidecar, outPath))
    ensures args == Head(c, source, sidecar, outPath)
  {
    var r := Head(c, source, sidecar, outPath);
    assert Switches(args);
    ParseIntCanonical(args[5], c.width);
    ParseIntCanonical(args[7], c.height);
    assert forall i :: 0 <= i < 19 ==> args[i] == r[i];
  }

  /** The darktable-cli command line for one photo: the binary, the source
      image, the sidecar to apply, the output path (the output directory
      joined with the file name pattern), the size, format and resampling
      switches, the core configuration directory and the format options.
      Reading it back gives exactly these settings. */
  function Command(c: Config, photo: Photo, sidecar: string, outDir: string): (r: seq<string>)
    ensures |r| == 19 + 2 * |c.formatOptions|
    ensures ParseCommand(r) == Some(Invocation(c.cliBin, photo.filepath, sidecar, PurePathJoin(outDir, c.filenameFormat),
                                              c.width, c.height, c.outExt, c.hqResampling, c.configDir, c.formatOptions))
  {
    var head := Head(c, photo.filepath, sidecar, PurePathJoin(outDir, c.filenameFormat));
    var r := head + ConfArgs(c.formatOptions);
    ConfOptionsRoundTrip(c.formatOptions);
    assert r[..19] == head && r[19..] == ConfArgs(c.formatOptions);
    r
  }

  /** The whole command line is pinned by what it reads back to: no other
      words give the same invocation. */
  lemma CommandUnique(c: Config, photo: Photo, sidecar: string, outDir: string, args: seq<string>)
    requires ParseCommand(args) == ParseCommand(Command(c, photo, sidecar, outDir))
    ensures args == Command(c, photo, sidecar, outDir)
  {
    var outPath := PurePathJoin(outDir, c.filenameFormat);
    var head := Head(c, photo.filepath, sidecar, outPath);
    var r := Command(c, photo, sidecar, outDir);
    assert r == head + ConfArgs(c.formatOptions);
    assert |args| >= 19;
    var inv := ParseHead(args[..19]).value;
    assert ParseHead(args[..19]) == ParseHead(head) by {
      assert inv.(formatOptions := []) == inv;
    }
    HeadUnique(c, photo.filepath, sidecar, outPath, args[..19]);
    ConfOptionsExact(args[19..], c.formatOptions);
    assert args == args[..19] + args[19..];
  }

  /** What one darktable-cli run prints on its standard output and which
      files it writes. */
  datatype Rendered = Rendered(stdout: string, written: set<string>)

  /** The renderer, as seen from the exporter: the command line and the
      files that exist decide what the run prints and writes. */
  type Renderer = (seq<string>, set<string>) -> Rendered

  /** The world outside the exporter object: the shared store, the paths of
      the existing files, and the command lines run so far. */
  datatype World = World(table: Table, files: set<string>, log: seq<seq<string>>)

  /** The ways an export raises. */
  datatype Failure =
    | MissingSidecar(path: string)        // the sidecar cannot be opened
    | NoExportedFilename(stdout: string)  // the renderer did not report a file
    | ExportMissing(path: string)         // the reported file cannot be opened

  /** The exporter and the world after a call, and what the call returned
      or raised. */
  datatype Outcome = Outcome(exporter: Exporter, world: World, result: Result<string, Failure>)

  /** The sidecar the renderer is given: the temporary copy when sidecar
      edits are configured, the photo's own sidecar otherwise. */
  function Sidecar(e: Exporter, photo: Photo): string {
    if |e.config.xmpChanges| > 0 then e.tmpXmp else XmpPath(photo)
  }

  /** `export`: runs the renderer once and returns the path it reports.
      Editing the sidecar needs the photo's sidecar to exist. */
  function Export(e: Exporter, photo: Photo, outDir: string, render: Renderer, w: World): (r: Outcome)
    ensures r.world.table == w.table
    ensures r.exporter == e.(session := r.exporter.session) && e.session <= r.exporter.session
    ensures r.result.Err? && r.result.error.MissingSidecar? <==> |e.config.xmpChanges| > 0 && XmpPath(photo) !in w.files
    ensures r.result.Err? && r.result.error.MissingSidecar? ==> r.exporter == e && r.world == w
    ensures !(r.result.Err? && r.result.error.MissingSidecar?) ==>
      r == Run(e, Command(e.config, photo, Sidecar(e, photo), outDir), render, w)
  {
    if |e.config.xmpChanges| > 0 && XmpPath(photo) !in w.files then
      Outcome(e, w, Err(MissingSidecar(XmpPath(photo))))
    else
      Run(e, Command(e.config, photo, Sidecar(e, photo), outDir), render, w)
  }

  /** Running one command line: the run is logged, what it writes is added
      to the files, the path it reports joins the session before it is
      opened, and opening it fails when the file does not exist. */
  function Run(e: Exporter, cmd: seq<string>, render: Renderer, w: World): (r: Outcome)
    ensures r.world == w.(files := w.files + render(cmd, w.files).written, log := w.log + [cmd])
    ensures r.exporter == e.(session := r.exporter.session) && e.session <= r.exporter.session
    ensures r.result.Err? ==> !r.result.error.MissingSidecar?
    ensures r.result.Err? && r.result.error.NoExportedFilename? <==>
      forall i: nat, q :: !MatchAt(render(cmd, w.files).stdout, i, q)
    ensures r.result.Err? && r.result.error.NoExportedFilename? ==> r.exporter == e
    ensures r.result.Ok? ==> r.exporter.session == e.session + {r.result.value} && r.result.value in r.world.files
    ensures r.result.Ok? ==> exists i :: MatchAt(render(cmd, w.files).stdout, i, r.result.value)
                                     && NoMatchBefore(render(cmd, w.files).stdout, i)
    ensures r.result.Err? && r.result.error.ExportMissing? ==>
      r.exporter.session == e.session + {r.result.error.path} && r.result.error.path !in r.world.files
    ensures var m := ExtractExportPath(render(cmd, w.files).stdout);
      m.Some? ==>
        && r.exporter.session == e.session + {m.value}
        && (r.result.Ok? <==> m.value in r.world.files)
        && (r.result.Ok? ==> r.result.value == m.value)
        && (r.result.Err? ==> r.result.error == ExportMissing(m.value))
  {
    var out := render(cmd, w.files);
    var w1 := w.(files := w.files + out.written, log := w.log + [cmd]);
    match ExtractExportPath(out.stdout)
    case None => Outcome(e, w1, Err(NoExportedFilename(out.stdout)))
    case Some(p) =>
      var e1 := e.(session := e.session + {p});
      if p in w1.files then Outcome(e1, w1, Ok(p)) else Outcome(e1, w1, Err(ExportMissing(p)))
  }

  /** When the renderer prints its report line after a backtick-free
      preamble and the reported file exists afterwards, the export returns
      that file and adds it to the session. */
  lemma ExportReturnsReported(e: Exporter, photo: Photo, outDir: string, render: Renderer, w: World,
                              pre: string, q: string, rest: string)
    requires |e.config.xmpChanges| == 0 || XmpPath(photo) in w.files
    requires var out := render(Command(e.config, photo, Sidecar(e, photo), outDir), w.files);
             out.stdout == pre + Marker + q + "'" + rest && q in w.files + out.written
    requires Free(pre, IsBacktick) && q != [] && Free(q, IsQuote)
    ensures Export(e, photo, outDir, render, w).result == Ok(q)
    ensures Export(e, photo, outDir, render, w).exporter.session == e.session + {q}
  {
    ReportedPathExtracted(pre, q, rest);
  }

  /** The key a photo version is recorded under in the export and sidecar
      hash views: its source path and its version. */
  function CacheKey(photo: Photo): string {
    photo.filepath + ":" + IntStr(photo.version)
  }

  /** Whether the recorded output of `key` still exists and was rendered
      from a sidecar with hash `h`: the cache hit. */
  predicate Fresh(c: Config, w: World, key: string, h: string) {
    var cached := Load(ExportView(c), w.table, key);
    cached.Str? && cached.s in w.files && Load(XmpView(c), w.table, key) == Str(h)
  }

  /** The recorded output of `key` when that file still exists: the path
      `export_cached` adds to the session before it compares sidecar
      hashes. */
  function KeptOutput(c: Config, w: World, key: string): (r: set<string>)
    ensures r == {} || exists p :: r == {p} && Load(ExportView(c), w.table, key) == Str(p) && p in w.files
    ensures forall p :: Load(ExportView(c), w.table, key) == Str(p) && p in w.files ==> r == {p}
  {
    var cached := Load(ExportView(c), w.table, key);
    if cached.Str? && cached.s in w.files then {cached.s} else {}
  }

  /** `export_cached`: hashes the photo's sidecar (`sidecarHash` is the
      hash of the current content of a file), keeps a recorded output that
      still exists in the session, returns it when it was rendered from the
      same sidecar content, and otherwise exports again and records the
      new output and the sidecar hash under the photo version's key. */
  function ExportCached(e: Exporter, photo: Photo, outDir: string, render: Renderer,
                        sidecarHash: string -> string, w: World): (r: Outcome)
    ensures XmpPath(photo) !in w.files ==> r == Outcome(e, w, Err(MissingSidecar(XmpPath(photo))))
    ensures r.exporter == e.(session := r.exporter.session) && e.session <= r.exporter.session
    ensures w.files <= r.world.files
    ensures r.result.Ok? ==> XmpPath(photo) in w.files && r.result.value in r.exporter.session && r.result.value in r.world.files
    ensures r.result.Ok? ==> Fresh(e.config, r.world, CacheKey(photo), sidecarHash(XmpPath(photo)))
    ensures r.result.Ok? ==> Load(ExportView(e.config), r.world.table, CacheKey(photo)) == Str(r.result.value)
    ensures r.result.Err? ==> r.world.table == w.table
    ensures forall k :: Load(MainView(e.config), r.world.table, k) == Load(MainView(e.config), w.table, k)
    ensures forall k :: k != CacheKey(photo) ==>
      Load(ExportView(e.config), r.world.table, k) == Load(ExportView(e.config), w.table, k)
      && Load(XmpView(e.config), r.world.table, k) == Load(XmpView(e.config), w.table, k)
    ensures forall pk :: pk != Physical(ExportView(e.config), CacheKey(photo))
                         && pk != Physical(XmpView(e.config), CacheKey(photo)) ==>
      (pk in r.world.table <==> pk in w.table) && (pk in w.table ==> r.world.table[pk] == w.table[pk])
    ensures XmpPath(photo) in w.files && Fresh(e.config, w, CacheKey(photo), sidecarHash(XmpPath(photo))) ==>
      r.exporter.session == e.session + KeptOutput(e.config, w, CacheKey(photo))
    ensures XmpPath(photo) in w.files && !Fresh(e.config, w, CacheKey(photo), sidecarHash(XmpPath(photo))) ==>
      r.exporter.session == KeptOutput(e.config, w, CacheKey(photo)) + Export(e, photo, outDir, render, w).exporter.session
  {
    var c := e.config;
    var key := CacheKey(photo);
    var xmp := XmpPath(photo);
    if xmp !in w.files then Outcome(e, w, Err(MissingSidecar(xmp)))
    else
      var h := sidecarHash(xmp);
      var cached := Load(ExportView(c), w.table, key);
      var e1 := e.(session := e.session + KeptOutput(c, w, key));
      if Fresh(c, w, key, h) then Outcome(e1, w, Ok(cached.s))
      else
        var r := Rerender(e1, photo, outDir, render, key, h, w);
        MissSession(e, e1, KeptOutput(c, w, key), photo, outDir, render, w, r);
        r
  }

  /** On a miss the session gains the kept output and what the export
      adds, nothing more. */
  lemma MissSession(e: Exporter, e1: Exporter, kept: set<string>, photo: Photo, outDir: string,
                    render: Renderer, w: World, r: Outcome)
    requires e1 == e.(session := e.session + kept)
    requires r.exporter == Export(e1, photo, outDir, render, w).exporter
    ensures r.exporter.session == kept + Export(e, photo, outDir, render, w).exporter.session
  {
    ExportIgnoresSession(e, e1.session, photo, outDir, render, w);
  }

  /** The cache miss: exports, and when that succeeds records the sidecar
      hash `h` and then the new output under `key`. */
  function Rerender(e: Exporter, photo: Photo, outDir: string, render: Renderer,
                    key: string, h: string, w: World): (r: Outcome)
    requires |e.config.xmpChanges| == 0 || XmpPath(photo) in w.files
    ensures r.exporter == e.(session := r.exporter.session) && e.session <= r.exporter.session
    ensures r.world.files == Export(e, photo, outDir, render, w).world.files
    ensures r.world.log == w.log + [Command(e.config, photo, Sidecar(e, photo), outDir)]
    ensures r.result == Export(e, photo, outDir, render, w).result
    ensures r.result.Ok? ==> r.result.value in r.exporter.session && r.result.value in r.world.files
    ensures r.result.Ok? ==> Load(ExportView(e.config), r.world.table, key) == Str(r.result.value)
    ensures r.result.Ok? ==> Load(XmpView(e.config), r.world.table, key) == Str(h)
    ensures r.result.Err? ==> r.world.table == w.table
    ensures forall k :: Load(MainView(e.config), r.world.table, k) == Load(MainView(e.config), w.table, k)
    ensures forall k :: k != key ==>
      Load(ExportView(e.config), r.world.table, k) == Load(ExportView(e.config), w.table, k)
      && Load(XmpView(e.config), r.world.table, k) == Load(XmpView(e.config), w.table, k)
    ensures r.exporter == Export(e, photo, outDir, render, w).exporter
    ensures forall pk :: pk != Physical(ExportView(e.config), key) && pk != Physical(XmpView(e.config), key) ==>
      (pk in r.world.table <==> pk in w.table) && (pk in w.table ==> r.world.table[pk] == w.table[pk])
  {
    var c := e.config;
    var o := Export(e, photo, outDir, render, w);
    if o.result.Err? then o
    else
      var t := Save(ExportView(c), Save(XmpView(c), o.world.table, key, Str(h)), key, Str(o.result.value));
      RecordOutput(c, o.world.table, key, h, o.result.value);
      Outcome(o.exporter, o.world.(table := t), o.result)
  }

  /** Saving a sidecar hash and then an output under `key` is seen by both
      views under `key` and by nothing else. */
  lemma RecordOutput(c: Config, t: Table, key: string, h: string, p: string)
    ensures var r := Save(ExportView(c), Save(XmpView(c), t, key, Str(h)), key, Str(p));
            && Load(ExportView(c), r, key) == Str(p) && Load(XmpView(c), r, key) == Str(h)
            && (forall k :: Load(MainView(c), r, k) == Load(MainView(c), t, k))
            && (forall k :: k != key ==>
                  Load(ExportView(c), r, k) == Load(ExportView(c), t, k) && Load(XmpView(c), r, k) == Load(XmpView(c), t, k))
            && (forall pk :: pk != Physical(ExportView(c), key) && pk != Physical(XmpView(c), key) ==>
                  (pk in r <==> pk in t) && (pk in t ==> r[pk] == t[pk]))
  {
    var t1 := Save(XmpView(c), t, key, Str(h));
    ViewsUnrelated(c);
    LoadSaveOther(ExportView(c), XmpView(c), t1, key, key, Str(p));
    forall k
      ensures Load(MainView(c), Save(ExportView(c), t1, key, Str(p)), k) == Load(MainView(c), t, k)
    {
      LoadSaveOther(XmpView(c), MainView(c), t, key, k, Str(h));
      LoadSaveOther(ExportView(c), MainView(c), t1, key, k, Str(p));
    }
    forall k | k != key
      ensures Load(ExportView(c), Save(ExportView(c), t1, key, Str(p)), k) == Load(ExportView(c), t, k)
      ensures Load(XmpView(c), Save(ExportView(c), t1, key, Str(p)), k) == Load(XmpView(c), t, k)
    {
      LoadSaveOther(XmpView(c), ExportView(c), t, key, k, Str(h));
      LoadSaveOther(ExportView(c), XmpView(c), t1, key, k, Str(p));
      if Physical(ExportView(c), k) == Physical(ExportView(c), key) {
        PhysicalInjective(ExportView(c), k, key);
      }
      if Physical(XmpView(c), k) == Physical(XmpView(c), key) {
        PhysicalInjective(XmpView(c), k, key);
      }
    }
  }

  /** A recorded output that still exists and was rendered from the current
      sidecar content is returned as it is: nothing is rendered and the
      store and the files do not change. */
  lemma CachedOutputReused(e: Exporter, photo: Photo, outDir: string, render: Renderer,
                           sidecarHash: string -> string, w: World, p: string)
    requires XmpPath(photo) in w.files
    requires Load(ExportView(e.config), w.table, CacheKey(photo)) == Str(p) && p in w.files
    requires Load(XmpView(e.config), w.table, CacheKey(photo)) == Str(sidecarHash(XmpPath(photo)))
    ensures ExportCached(e, photo, outDir, render, sidecarHash, w) == Outcome(e.(session := e.session + {p}), w, Ok(p))
  {
  }

  /** When nothing was recorded, the recorded output no longer exists, or
      the sidecar content changed since it was rendered, the photo is
      rendered again with the command line of `export`. */
  lemma ChangedSidecarRenders(e: Exporter, photo: Photo, outDir: string, render: Renderer,
                              sidecarHash: string -> string, w: World)
    requires XmpPath(photo) in w.files
    requires !Fresh(e.config, w, CacheKey(photo), sidecarHash(XmpPath(photo)))
    ensures var r := ExportCached(e, photo, outDir, render, sidecarHash, w);
            && r.world.log == w.log + [Command(e.config, photo, Sidecar(e, photo), outDir)]
            && r.result == Export(e, photo, outDir, render, w).result
            && r.world.files == Export(e, photo, outDir, render, w).world.files
            && r.exporter.session == KeptOutput(e.config, w, CacheKey(photo))
                                     + Export(e, photo, outDir, render, w).exporter.session
  {
    var c := e.config;
    var cached := Load(ExportView(c), w.table, CacheKey(photo));
    if cached.Str? && cached.s in w.files {
      ExportIgnoresSession(e, e.session + {cached.s}, photo, outDir, render, w);
    }
  }

  /** What an export returns and writes does not depend on the session. */
  lemma ExportIgnoresSession(e: Exporter, session: set<string>, photo: Photo, outDir: string,
                             render: Renderer, w: World)
    ensures var a := Export(e.(session := session), photo, outDir, render, w);
            var b := Export(e, photo, outDir, render, w);
            && a.result == b.result && a.world == b.world
            && (e.session <= session ==> a.exporter.session == session + b.exporter.session)
  {
    if !(|e.config.xmpChanges| > 0 && XmpPath(photo) !in w.files) {
      RunIgnoresSession(e, session, Command(e.config, photo, Sidecar(e, photo), outDir), render, w);
    }
  }

  lemma RunIgnoresSession(e: Exporter, session: set<string>, cmd: seq<string>, render: Renderer, w: World)
    ensures var a := Run(e.(session := session), cmd, render, w);
            var b := Run(e, cmd, render, w);
            && a.result == b.result && a.world == b.world
            && (e.session <= session ==> a.exporter.session == session + b.exporter.session)
  {
  }

  /** The renderer runs exactly on a miss: with the sidecar present, the
      log is unchanged if and only if the recorded output is fresh. */
  lemma RendersIffStale(e: Exporter, photo: Photo, outDir: string, render: Renderer,
                        sidecarHash: string -> string, w: World)
    requires XmpPath(photo) in w.files
    ensures ExportCached(e, photo, outDir, render, sidecarHash, w).world.log == w.log
        <==> Fresh(e.config, w, CacheKey(photo), sidecarHash(XmpPath(photo)))
  {
    if !Fresh(e.config, w, CacheKey(photo), sidecarHash(XmpPath(photo))) {
      ChangedSidecarRenders(e, photo, outDir, render, sidecarHash, w);
      var cmd := Command(e.config, photo, Sidecar(e, photo), outDir);
      assert |w.log + [cmd]| != |w.log|;
    }
  }

  /** A recorded output that still exists joins the session on every call
      with the sidecar present, hit or miss, even when rendering again
      fails. */
  lemma ExistingOutputJoinsSession(e: Exporter, photo: Photo, outDir: string, render: Renderer,
                                   sidecarHash: string -> string, w: World, p: string)
    requires XmpPath(photo) in w.files
    requires Load(ExportView(e.config), w.table, CacheKey(photo)) == Str(p) && p in w.files
    ensures var r := ExportCached(e, photo, outDir, render, sidecarHash, w);
            p in r.exporter.session && p in r.world.files
  {
  }

  /** So the next sync keeps such an output, whatever the outcome of the
      call. */
  lemma ExistingOutputSurvivesSync(e: Exporter, photo: Photo, outDir: string, render: Renderer,
                                   sidecarHash: string -> string, w: World, p: string,
                                   dir: string, canRemove: string -> bool)
    requires XmpPath(photo) in w.files
    requires Load(ExportView(e.config), w.table, CacheKey(photo)) == Str(p) && p in w.files
    ensures var r := ExportCached(e, photo, outDir, render, sidecarHash, w);
            p in SyncSpec(r.exporter, dir, r.world, canRemove).files
  {
    var r := ExportCached(e, photo, outDir, render, sidecarHash, w);
    ExistingOutputJoinsSession(e, photo, outDir, render, sidecarHash, w, p);
    SyncDeletes(r.exporter, dir, r.world, canRemove, p);
  }

  /** Exporting the same photo again after a successful export, with the
      sidecar unchanged, is a cache hit that returns the same output and
      changes nothing. */
  lemma ExportCachedIdempotent(e: Exporter, photo: Photo, outDir: string, render: Renderer,
                               sidecarHash: string -> string, w: World)
    requires ExportCached(e, photo, outDir, render, sidecarHash, w).result.Ok?
    ensures var r := ExportCached(e, photo, outDir, render, sidecarHash, w);
            ExportCached(r.exporter, photo, outDir, render, sidecarHash, r.world) == r
  {
    var r := ExportCached(e, photo, outDir, render, sidecarHash, w);
    var p := r.result.value;
    CachedOutputReused(r.exporter, photo, outDir, render, sidecarHash, r.world, p);
    assert r.exporter.(session := r.exporter.session + {p}) == r.exporter;
  }

  /** Whether physical key `pk` is the entry of one of the logical keys `K`
      in view `v`. */
  predicate Owned(v: Cache, pk: string, K: set<string>) {
    StartsWith(pk, v.prefix) && pk[|v.prefix|..] in K
  }

  lemma OwnedOne(v: Cache, pk: string, K: set<string>, k: string)
    ensures Owned(v, pk, K + {k}) <==> Owned(v, pk, K) || pk == Physical(v, k)
  {
    if pk == Physical(v, k) {
      assert pk[|v.prefix|..] == k;
    }
    if StartsWith(pk, v.prefix) && pk[|v.prefix|..] == k {
      assert pk == v.prefix + pk[|v.prefix|..];
    }
  }

  /** The store without the output and sidecar-hash entries of the keys
      `K`. */
  function Forget(c: Config, t: Table, K: set<string>): (r: Table) {
    map pk | pk in t && !Owned(ExportView(c), pk, K) && !Owned(XmpView(c), pk, K) :: t[pk]
  }

  /** Deleting one more key through the output view and then the sidecar
      hash view, as the walk does, forgets it as well. */
  lemma ForgetOneMore(c: Config, t: Table, K: set<string>, k: string)
    ensures Delete(XmpView(c), Delete(ExportView(c), Forget(c, t, K), k), k) == Forget(c, t, K + {k})
  {
    var a := Delete(XmpView(c), Delete(ExportView(c), Forget(c, t, K), k), k);
    var b := Forget(c, t, K + {k});
    forall pk
      ensures pk in a <==> pk in b
    {
      OwnedOne(ExportView(c), pk, K, k);
      OwnedOne(XmpView(c), pk, K, k);
    }
  }

  /** Which files a sync may delete: named as the walk below the directory
      names them, not part of the session, and not a raw source image. */
  predicate Removable(e: Exporter, dir: string, f: string) {
    Walked(dir, f) && f !in e.session && !IsRawPhotoExt(Splitext(f).1)
  }

  /** The files of `files` that `keep` selects. */
  function Filter(files: set<string>, keep: string -> bool): (r: set<string>)
    ensures forall f :: f in r <==> f in files && keep(f)
  {
    set f | f in files && keep(f)
  }

  lemma FilterOneMore(files: set<string>, keep: string -> bool, f: string)
    ensures Filter(files + {f}, keep) == Filter(files, keep) + (if keep(f) then {f} else {})
  {
  }

  lemma FilterNarrower(files: set<string>, wide: string -> bool, narrow: string -> bool)
    requires forall f :: narrow(f) ==> wide(f)
    ensures Filter(Filter(files, wide), narrow) == Filter(files, narrow)
  {
  }

  function Stale(e: Exporter, dir: string, files: set<string>): set<string> {
    Filter(files, f => Removable(e, dir, f))
  }

  /** The keys whose recorded output is one of the files `stale`. */
  function StaleKeys(c: Config, t: Table, stale: set<string>): set<string> {
    set k | k in Keys(ExportView(c), t, Null) && Load(ExportView(c), t, k).Str? && Load(ExportView(c), t, k).s in stale
  }

  /** The reference meaning of a sync: every removable file of the
      directory is forgotten by the store and deleted when deleting it
      succeeds (`canRemove`); the log does not change. */
  function SyncSpec(e: Exporter, dir: string, w: World, canRemove: string -> bool): World {
    Swept(e.config, w, Stale(e, dir, w.files), canRemove)
  }

  /** The world after the files `stale` are forgotten and, where deleting
      succeeds, deleted. */
  function Swept(c: Config, w: World, stale: set<string>, canRemove: string -> bool): World {
    World(Forget(c, w.table, StaleKeys(c, w.table, stale)), w.files - Filter(stale, canRemove), w.log)
  }

  /** The files a walk of `dir` visits, each named as the join of the
      directory with its relative name. */
  function Listing(dir: string, files: set<string>): (r: set<string>)
    ensures r <= files
    ensures forall f :: f in r <==> f in files && Walked(dir, f)
  {
    Filter(files, f => Walked(dir, f))
  }

  /** The walk lists an existing file exactly when it is `dir` joined with
      a clean relative name, the way the recursive glob of `Path(dir)`
      spells it. */
  lemma ListingJoins(dir: string, files: set<string>)
    ensures forall rel :: CleanRelative(rel) ==>
      (PurePathJoin(dir, rel) in Listing(dir, files) <==> PurePathJoin(dir, rel) in files)
    ensures forall f :: f in Listing(dir, files) ==>
      f in files && exists rel :: CleanRelative(rel) && f == PurePathJoin(dir, rel)
  {
    forall rel | CleanRelative(rel)
      ensures PurePathJoin(dir, rel) in Listing(dir, files) <==> PurePathJoin(dir, rel) in files
    {
      WalkedIff(dir, PurePathJoin(dir, rel));
    }
    forall f | f in Listing(dir, files)
      ensures exists rel :: CleanRelative(rel) && f == PurePathJoin(dir, rel)
    {
      WalkedIff(dir, f);
    }
  }

  /** The keys recording `f` as their output are those of the untouched
      store when no forgotten key recorded `f`. */
  lemma KeysAfterForget(c: Config, t: Table, K: set<string>, f: string)
    requires forall k :: k in K ==> Load(ExportView(c), t, k) != Str(f)
    ensures Keys(ExportView(c), Forget(c, t, K), Str(f)) == Keys(ExportView(c), t, Str(f))
  {
    ViewsUnrelated(c);
    var a := Keys(ExportView(c), Forget(c, t, K), Str(f));
    var b := Keys(ExportView(c), t, Str(f));
    forall k
      ensures k in a <==> k in b
    {
      var pk := Physical(ExportView(c), k);
      PrefixesDiverge(ExportView(c).prefix, XmpView(c).prefix, pk);
      assert pk[|ExportView(c).prefix|..] == k;
    }
  }

  /** Adding one stale file adds exactly the keys recording it. */
  lemma StaleKeysOneMore(c: Config, t: Table, S: set<string>, f: string)
    ensures StaleKeys(c, t, S + {f}) == StaleKeys(c, t, S) + Keys(ExportView(c), t, Str(f))
  {
  }

  /** Sweeping one more stale file: the keys recording it are the same
      before and after the earlier sweep, and they are forgotten too. */
  lemma SweepOneMore(c: Config, w: World, swept: set<string>, canRemove: string -> bool, f: string)
    requires f !in swept
    ensures Keys(ExportView(c), Forget(c, w.table, StaleKeys(c, w.table, swept)), Str(f)) == Keys(ExportView(c), w.table, Str(f))
    ensures StaleKeys(c, w.table, swept + {f}) == StaleKeys(c, w.table, swept) + Keys(ExportView(c), w.table, Str(f))
    ensures w.files - Filter(swept + {f}, canRemove) == if canRemove(f) then (w.files - Filter(swept, canRemove)) - {f} else w.files - Filter(swept, canRemove)
  {
    StaleKeysOneMore(c, w.table, swept, f);
    NotRecordedYet(c, w.table, swept, f);
    KeysAfterForget(c, w.table, StaleKeys(c, w.table, swept), f);
    FilterOneMore(swept, canRemove, f);
  }

  /** No key recorded as its output a file not yet found stale. */
  lemma NotRecordedYet(c: Config, t: Table, stale: set<string>, f: string)
    requires f !in stale
    ensures forall k :: k in StaleKeys(c, t, stale) ==> Load(ExportView(c), t, k) != Str(f)
  {
  }

  /** Forgets the keys `keys` one by one, deleting each from the output
      view and then from the sidecar hash view. */
  method ForgetKeys(c: Config, table: Table, keys: set<string>, ghost t: Table, ghost done: set<string>) returns (r: Table)
    requires table == Forget(c, t, done)
    ensures r == Forget(c, t, done + keys)
  {
    r := table;
    var left := keys;
    while left != {}
      invariant left <= keys
      invariant r == Forget(c, t, done + (keys - left))
      decreases |left|
    {
      var k :| k in left;
      ForgetOneMore(c, t, done + (keys - left), k);
      r := Delete(XmpView(c), Delete(ExportView(c), r, k), k);
      assert done + (keys - left) + {k} == done + (keys - (left - {k}));
      left := left - {k};
    }
    assert keys - left == keys;
  }

  /** `sync`: walks the files under `dir`; for each removable one, deletes
      from the output view and the sidecar hash view every key whose
      recorded output it is, then deletes the file when that succeeds.
      The session is cleared. */
  method Sync(e: Exporter, dir: string, w: World, canRemove: string -> bool) returns (e2: Exporter, w2: World)
    ensures e2 == e.(session := {})
    ensures w2 == SyncSpec(e, dir, w, canRemove)
  {
    var walk := Listing(dir, w.files);
    // the walk only yields files under `dir`, so `Removable` is the test
    // of the session and of the raw extension
    w2 := Sweep(e.config, w, walk, f => Removable(e, dir, f), canRemove);
    FilterNarrower(w.files, f => Walked(dir, f), f => Removable(e, dir, f));
    e2 := e.(session := {});
  }

  /** The walk of `sync` over the files `walk`, sweeping those `stale`
      selects. */
  method Sweep(c: Config, w: World, walk: set<string>, stale: string -> bool, canRemove: string -> bool) returns (r: World)
    ensures r == Swept(c, w, Filter(walk, stale), canRemove)
  {
    var todo := walk;
    ghost var swept: set<string> := {};
    var table := w.table;
    var files := w.files;
    while todo != {}
      invariant todo <= walk
      invariant swept == Filter(walk - todo, stale)
      invariant table == Forget(c, w.table, StaleKeys(c, w.table, swept))
      invariant files == w.files - Filter(swept, canRemove)
      decreases |todo|
    {
      var f :| f in todo;
      WalkStep(walk, todo, stale, f);
      if stale(f) {
        table, files := SweepFile(c, w, table, files, f, canRemove, swept);
        swept := swept + {f};
      }
      todo := todo - {f};
    }
    assert walk - todo == walk;
    r := World(table, files, w.log);
  }

  lemma WalkStep(walk: set<string>, todo: set<string>, stale: string -> bool, f: string)
    requires f in todo && todo <= walk
    ensures f !in Filter(walk - todo, stale)
    ensures Filter(walk - (todo - {f}), stale) == Filter(walk - todo, stale) + (if stale(f) then {f} else {})
  {
    assert walk - (todo - {f}) == (walk - todo) + {f};
    FilterOneMore(walk - todo, stale, f);
  }

  /** One removable file of the walk: forgets every key recording it, then
      deletes it when that succeeds. */
  method SweepFile(c: Config, w: World, table: Table, files: set<string>, f: string, canRemove: string -> bool,
                   ghost swept: set<string>) returns (table2: Table, files2: set<string>)
    requires f !in swept
    requires table == Forget(c, w.table, StaleKeys(c, w.table, swept))
    requires files == w.files - Filter(swept, canRemove)
    ensures table2 == Forget(c, w.table, StaleKeys(c, w.table, swept + {f}))
    ensures files2 == w.files - Filter(swept + {f}, canRemove)
  {
    SweepOneMore(c, w, swept, canRemove, f);
    var keys := Keys(ExportView(c), table, Str(f));
    table2 := ForgetKeys(c, table, keys, w.table, StaleKeys(c, w.table, swept));
    files2 := if canRemove(f) then files - {f} else files;
  }

  /** A sync deletes exactly the removable files of the directory whose
      deletion succeeds, and keeps every other file: the session's outputs,
      raw source images, and everything outside the directory. */
  lemma SyncDeletes(e: Exporter, dir: string, w: World, canRemove: string -> bool, f: string)
    ensures f in SyncSpec(e, dir, w, canRemove).files <==> f in w.files && !(Removable(e, dir, f) && canRemove(f))
  {
  }

  /** After a sync the store records no output that the sync found
      removable, and every other recorded output, with its sidecar hash, is
      kept; the main view is untouched. */
  lemma SyncForgets(e: Exporter, dir: string, w: World, canRemove: string -> bool, k: string)
    ensures var c := e.config;
            var t := SyncSpec(e, dir, w, canRemove).table;
            var out := Load(ExportView(c), w.table, k);
            && Load(MainView(c), t, k) == Load(MainView(c), w.table, k)
            && (out.Str? && out.s in w.files && Removable(e, dir, out.s) ==>
                  Load(ExportView(c), t, k) == Null && Load(XmpView(c), t, k) == Null)
            && (!(out.Str? && out.s in w.files && Removable(e, dir, out.s)) ==>
                  Load(ExportView(c), t, k) == out && Load(XmpView(c), t, k) == Load(XmpView(c), w.table, k))
  {
    var c := e.config;
    var K := StaleKeys(c, w.table, Stale(e, dir, w.files));
    ForgetLoads(c, w.table, K, k);
    assert k in K <==> Load(ExportView(c), w.table, k).Str? && Load(ExportView(c), w.table, k).s in Stale(e, dir, w.files);
  }

  /** What the three views load after forgetting the keys `K`. */
  lemma ForgetLoads(c: Config, t: Table, K: set<string>, k: string)
    ensures var r := Forget(c, t, K);
            && Load(MainView(c), r, k) == Load(MainView(c), t, k)
            && (k in K ==> Load(ExportView(c), r, k) == Null && Load(XmpView(c), r, k) == Null)
            && (k !in K ==> Load(ExportView(c), r, k) == Load(ExportView(c), t, k) && Load(XmpView(c), r, k) == Load(XmpView(c), t, k))
  {
    ViewsUnrelated(c);
    var pm, pe, px := Physical(MainView(c), k), Physical(ExportView(c), k), Physical(XmpView(c), k);
    PrefixesDiverge(ExportView(c).prefix, MainView(c).prefix, pm);
    PrefixesDiverge(XmpView(c).prefix, MainView(c).prefix, pm);
    PrefixesDiverge(ExportView(c).prefix, XmpView(c).prefix, pe);
    PrefixesDiverge(ExportView(c).prefix, XmpView(c).prefix, px);
    assert pe[|ExportView(c).prefix|..] == k;
    assert px[|XmpView(c).prefix|..] == k;
  }

  /** The session is cleared by a sync, so a second sync no longer keeps
      the outputs of the first session: an output exported before the
      first sync survives it and is deleted by the second. */
  lemma SyncTwice(e: Exporter, dir: string, w: World, canRemove: string -> bool, p: string)
    requires p in e.session && p in w.files && Walked(dir, p) && !IsRawPhotoExt(Splitext(p).1)
    requires canRemove(p)
    ensures var after1 := SyncSpec(e, dir, w, canRemove);
            p in after1.files && p !in SyncSpec(e.(session := {}), dir, after1, canRemove).files
  {
    var after1 := SyncSpec(e, dir, w, canRemove);
    SyncDeletes(e, dir, w, canRemove, p);
    assert Removable(e.(session := {}), dir, p);
    SyncDeletes(e.(session := {}), dir, after1, canRemove, p);
  }

  /** An output returned by `export_cached` survives the next sync, and so
      does its record in the store. */
  lemma ExportedSurvivesSync(e: Exporter, photo: Photo, outDir: string, render: Renderer,
                             sidecarHash: string -> string, w: World, dir: string, canRemove: string -> bool)
    requires ExportCached(e, photo, outDir, render, sidecarHash, w).result.Ok?
    ensures var r := ExportCached(e, photo, outDir, render, sidecarHash, w);
            var s := SyncSpec(r.exporter, dir, r.world, canRemove);
            && r.result.value in s.files
            && Load(ExportView(e.config), s.table, CacheKey(photo)) == Str(r.result.value)
            && Load(XmpView(e.config), s.table, CacheKey(photo)) == Str(sidecarHash(XmpPath(photo)))
  {
    var r := ExportCached(e, photo, outDir, render, sidecarHash, w);
    SyncDeletes(r.exporter, dir, r.world, canRemove, r.result.value);
    SyncForgets(r.exporter, dir, r.world, canRemove, CacheKey(photo));
  }
}
