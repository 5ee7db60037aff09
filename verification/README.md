# darktable export cache, modelled in Dafny

This project models the export cache of `darktable-python`. The library renders photos from a darktable catalogue with the `darktable-cli` program into an output directory. It remembers which output file belongs to which photo version, and which sidecar (`.xmp`) content that output was rendered from. A photo is rendered again only when its sidecar changed or its output disappeared. At the end of a run, `sync` deletes every file in the output directory that the current session did not produce. Raw source images are never deleted.

The model follows the program's structure:

- `PrefixCache` (`prefix_cache.dfy`) models the `Cache` class. It is a view, selected by a key prefix, onto one shared key/value store. The whole store is an immutable map from physical key to `(expiry, value)`, and every mutating operation returns the new map.
- `ArgsHash` (`args_hash.dfy`) models `args_hash`. It covers the item list (positionals, then the keyword pairs in ascending key order), the `|`-joined serialisation and the digest. SHA-1 is a function parameter.
- `PyRepr` (`py_repr.dfy`) models Python's `str` of a list of strings, with `repr`'s quote choice and escapes. The exporter puts that text into its configuration fingerprint. A reader for the text shows that no two lists print the same.
- `PosixPath` (`posix_path.dfy`) models what the exporter uses of `posixpath` and `PurePosixPath`:
  - `basename`, `dirname`, `splitext` and `join`;
  - the normalised string of a pure path;
  - the names the recursive glob `**/*` yields below a directory.
- `Photos` (`photos.dfy`) models:
  - `Photo.xmp_path`;
  - `is_raw_photo_ext`, which guards source images against `sync`;
  - `parse_format_options`.
- `RenderOutput` (`render_output.dfy`) models the regular-expression search that finds the exported file name in the renderer's output.
- `Exporting` (`exporter.dfy`) models the `Exporter`:
  - the constructor's fingerprint and store reset;
  - `export`, with its command line and output parsing;
  - `export_cached`;
  - `sync`.
- `Text` (`text.dfy`) and `Wrappers` (`wrappers.dfy`) hold the shared string helpers and `Option`/`Result`.

Everything outside the process is a value or a parameter:

- The shared store is a `Table`.
- The filesystem is the set of paths of existing regular files.
- SHA-1 and the sidecar file hash are functions.
- The renderer is a function from the command line and the existing files to what it prints and which files it writes.
- Whether `os.remove` succeeds on a file is a predicate.
- The commands run so far are recorded in a log, so that "rendered again" and "not rendered" are observable.

One consequence of the code is worth stating. `sync` clears the session at its end (darktable/darktable.py:358), as its docstring says. A second `sync` with no exports in between is therefore not a no-op: it deletes the outputs the first one kept, because no export has claimed them since. `Exporting.SyncTwice` states this.

## Model

| member | source | states |
|---|---|---|
| PrefixCache.Save | darktable/util.py:35-36 | the prefixed key holds `(sys.maxsize, value)` afterwards; no other key is added, and every other entry is unchanged |
| PrefixCache.LoadSave | darktable/util.py:35-39 | `load(k)` after `save(k, v)` gives `v` back |
| PrefixCache.LoadSaveOther | darktable/util.py:35-39 | a view does not see a save made through a view whose prefix is unrelated to its own |
| PrefixCache.Load | darktable/util.py:38-39 | an absent key loads `None` |
| PrefixCache.Store | darktable/util.py:41-42 | after `store(k)`, `contains(k)` holds; no other entry changes |
| PrefixCache.Contains | darktable/util.py:44-45 | true exactly when the prefixed key is present with a value other than `None` |
| PrefixCache.ContainsCases | darktable/util.py:41-45 | `contains` is false for an absent key and after saving `None`, and true after `store` |
| PrefixCache.Delete | darktable/util.py:47-52 | removes only the prefixed key; it is a no-op when the key is absent; every remaining entry is unchanged |
| PrefixCache.DeleteOtherView | darktable/util.py:47-52 | deleting through one view leaves the items of an unrelated view unchanged |
| PrefixCache.Prune | darktable/util.py:54-59 | removes exactly the entries whose physical key starts with the prefix; every other entry is kept as it was |
| PrefixCache.PruneEmptiesView | darktable/util.py:54-59 | after `prune`, the view lists no items, whatever the filter |
| PrefixCache.PruneOtherView | darktable/util.py:54-59 | pruning one view leaves the items of an unrelated view unchanged |
| PrefixCache.Update | darktable/util.py:61-65 | every pair of the dictionary is stored under the prefix with expiry `sys.maxsize`; a key is present afterwards exactly when it was before or it is the prefixed form of a dictionary key; every other entry is unchanged |
| PrefixCache.Items | darktable/util.py:71-78 | a logical key is listed exactly when its prefixed key is stored with a value passing the `has_value` filter, and it is listed with that stored value |
| PrefixCache.Keys | darktable/util.py:80-81 | a key is listed exactly when `items` lists it |
| PrefixCache.ReplaceThenItems | darktable/util.py:67-78 | after `replace(d)`, the unfiltered `items` of the same view are exactly `d` |
| ArgsHash.BelowTotal | darktable/args_hash.py:19 | Python's string `<` orders any two distinct strings one way or the other; `BelowIrreflexive`, `BelowTransitive` and `BelowAsymmetric` give the rest of a strict total order |
| ArgsHash.SortByKey | darktable/args_hash.py:19 | `sorted(kw.items())` is ascending by key and a permutation of the keyword arguments |
| ArgsHash.SortedUnique | darktable/args_hash.py:19 | two key-ascending permutations of the same keyword arguments are equal, so the sorted order is determined by the arguments alone |
| ArgsHash.ItemList | darktable/args_hash.py:19 | the positionals come first, unchanged; then, for each keyword argument, its key followed by its value, each such pair taken from the arguments, with the keys ascending |
| ArgsHash.KeywordOrderIrrelevant | darktable/args_hash.py:13-24 | keyword arguments given in any order produce the same item list, the same serialisation and the same digest |
| ArgsHash.SerializeSplits | darktable/args_hash.py:20-23 | when no argument, key or value contains the pipe separator, splitting the serialisation at that separator gives back every item's token in order (`None` becomes `__NoneType__`) |
| ArgsHash.SeparatorCollision | darktable/args_hash.py:23-24 | an item that contains the pipe separator is not kept apart: the single positional `a`, pipe, `b` and the two positionals `a` and `b` have different item lists but the same digest |
| PyRepr.QuoteFor | darktable/darktable.py:217 | `repr` quotes with `"` exactly when the text holds `'` and no `"`, and otherwise with `'` |
| PyRepr.ListReprRoundTrip | darktable/darktable.py:217 | reading `str(options)` back gives the list of format options back |
| PyRepr.ListReprInjective | darktable/darktable.py:221 | two lists of strings with the same `str` are equal, so every change to the format options or to the sidecar edit names changes the fingerprint input |
| Exporting.FingerprintArgsExact | darktable/darktable.py:212-222 | two configurations give the same fingerprint arguments exactly when they agree on the binary, the configuration directory, the file name pattern, the output extension, the format options, the resampling switch, the width, the height and the names of the sidecar edits |
| Exporting.FingerprintIgnoresPersonalDetails | darktable/darktable.py:212-222 | the EXIF artist, the EXIF copyright and the debug switch do not change the fingerprint |
| Text.IntStrInjective | darktable/darktable.py:219-220 | different integers print differently |
| Exporting.ViewsUnrelated | darktable/darktable.py:223-225 | the `main`, `xmp` and `export` views of one cache key are pairwise unrelated by the prefix order, so they see disjoint parts of the store |
| Exporting.Record | darktable/darktable.py:226-229 | the main view then holds the new fingerprint, and its other keys are unchanged; the only key that can be added is the main view's fingerprint key; on a fingerprint change, no key under the export or sidecar-hash prefix is left; without one, every entry is kept and only the fingerprint entry is rewritten; every entry outside the export and sidecar-hash prefixes, other than the fingerprint key, is kept |
| Exporting.NewExporterIdempotent | darktable/darktable.py:193-231 | constructing a second exporter with the same configuration over the store the first one left leaves the store exactly as it was |
| Photos.XmpName | darktable/darktable.py:85-89 | the sidecar file name ends in `.xmp` and contains no slash |
| Photos.XmpNameShape | darktable/darktable.py:85-89 | the name is `<basename>.xmp` for version 0 or below; for a positive version it is `<stem>_<vv><ext>.xmp`, where `<stem><ext>` is the basename and `<vv>` spells the version, with at least two digits |
| Photos.XmpPath | darktable/darktable.py:84-90 | the sidecar path ends in `.xmp`, lies in the photo's directory, and has the sidecar name as its basename |
| Photos.XmpPathDistinctVersions | darktable/darktable.py:84-90 | two non-negative versions of one source file have different sidecar paths |
| PosixPath.Splitext | darktable/darktable.py:86 | stem and extension put together give the name back; the extension is empty, or a dot followed by text with no slash and no further dot; it is non-empty exactly when some dot after the last slash has a character other than a dot between that slash and it; a non-empty extension follows a stem whose file name is not all dots |
| PosixPath.SplitextNef | darktable/darktable.py:346 | `splitext("out/x.NEF")` is `("out/x", ".NEF")` |
| PosixPath.JoinPathSplits | darktable/darktable.py:90 | joining a directory with a plain file name is undone by `dirname` and `basename` |
| Photos.NormalizeIgnoresSurroundings | darktable/darktable.py:570 | surrounding whitespace and leading dots do not change the normalised extension, which is the lower-case core |
| Photos.NormalizeIgnoresCase | darktable/darktable.py:570 | upper-casing an extension does not change its normalised form |
| Photos.RawBySameNormal | darktable/darktable.py:570-577 | two extensions with the same normalised form are both raw or both not |
| Photos.RawByName | darktable/darktable.py:570-577 | every extension whose normalised form is a listed name other than `tif` is raw |
| Photos.ExportFormatsNotRaw | darktable/darktable.py:570-577 | an extension normalising to `tif` or `jpg` is not raw, so `sync` may delete exported images |
| Photos.BlankNotRaw | darktable/darktable.py:570-577 | a blank extension is not raw |
| Photos.RawSourceSpared | darktable/darktable.py:345-346 | the extension `sync` computes for `out/x.NEF` is raw, so that file is never deleted |
| Photos.ParseFormatOptions | darktable/darktable.py:105-106 | every parsed option is non-empty and free of `,`, `;` and whitespace |
| Photos.FormatOptionsLayout | darktable/darktable.py:105-106 | options written with any separator runs between them (non-empty), before them and after them (possibly empty) parse back to exactly those options, in order |
| Photos.FormatOptionsRoundTrip | darktable/darktable.py:105-106 | options joined by any one separator character parse back to the same options |
| Photos.FormatOptionsKeepText | darktable/darktable.py:105-106 | the parsed options, put together, are the input with every separator removed |
| Exporting.ConfOptionsRoundTrip | darktable/darktable.py:291-293 | the `--conf plugins/imageio/format/<option>` pairs read back to the format options in order |
| Exporting.ConfOptionsExact | darktable/darktable.py:291-293 | conversely, words that read back to some options are exactly those options' `--conf` pairs |
| Text.IntStrParses | darktable/darktable.py:282-283 | the printed width and height parse back to the same integers |
| Text.ParseIntCanonical | darktable/darktable.py:282-283 | the only text that parses to an integer is its `str`: no leading zeros and no `-0` |
| Exporting.Head | darktable/darktable.py:275-290 | the nineteen words before the format options read back to the binary, source, sidecar, output path, size, extension, resampling switch and configuration directory |
| Exporting.HeadUnique | darktable/darktable.py:275-290 | the reading is exact: any nineteen words that read back to the same invocation are the words `Head` builds, so the size words are `str(width)` and `str(height)` |
| Exporting.Command | darktable/darktable.py:272-293 | the command line has 19 words plus two per format option, and it reads back to exactly the configured invocation; the output path is `str(PurePosixPath(out_dir, filename_format))` and the format options are in order |
| Exporting.CommandUnique | darktable/darktable.py:272-293 | the reading is exact: any words that read back to the same invocation are the command line itself, so the numbers are written as `str` writes them |
| PosixPath.PurePathStrIdempotent | darktable/darktable.py:272 | normalising a pure path string again changes nothing |
| RenderOutput.MatchAtIff | darktable/darktable.py:304 | the reference reading of a match (marker, then a non-empty group without `'`, then `'`) holds exactly when the greedy `[^']+` run after the marker is non-empty and ends before the end of the output, and the group is that run |
| RenderOutput.FirstMatch | darktable/darktable.py:304 | the search returns the leftmost position at which the pattern matches, or nothing when it matches nowhere |
| RenderOutput.ExtractExportPath | darktable/darktable.py:304-308 | the result is the group of a match with no match before it; there is no result exactly when the pattern matches nowhere |
| RenderOutput.ReportedPathExtracted | darktable/darktable.py:304-308 | a report line after a backtick-free preamble yields the reported path |
| RenderOutput.NoBacktickNoPath | darktable/darktable.py:304-306 | output without a backtick yields no path |
| Exporting.Run | darktable/darktable.py:299-312 | the run is logged, and what it writes is added to the files; the session only grows; the call raises "no filename" exactly when the output matches nowhere; otherwise the path of the leftmost match, as `re.search` finds it, joins the session before it is opened; the call returns that path when the file exists and raises "missing" for that same path when it does not |
| Exporting.Export | darktable/darktable.py:265-312 | with sidecar edits configured, a missing photo sidecar raises before anything runs and changes nothing; otherwise the call is one run of the command line built for the photo; the store is never touched and the session only grows |
| Exporting.ExportIgnoresSession | darktable/darktable.py:265-312 | what an export returns and does to the files, the store and the log does not depend on the session |
| Exporting.ExportReturnsReported | darktable/darktable.py:299-309 | when the renderer reports an existing file, the export returns it and adds it to the session |
| Exporting.ExportCached | darktable/darktable.py:236-258 | a missing sidecar raises and changes nothing; the session only grows; a returned output exists, is in the session, and is recorded with the current sidecar hash, so the next call is a hit; keys of other photo versions and the main view are untouched; no physical key of the shared store other than the photo version's export and sidecar-hash keys is added, removed or changed; a failed call leaves the store as it was; with the sidecar present, the session gains exactly the recorded output if that file still exists, plus, on a miss, what the export adds |
| Exporting.Rerender | darktable/darktable.py:253-256 | the miss runs `export` once, with its result; on success, the sidecar hash and the new output are recorded under the photo version's key; no other physical key of the shared store is added, removed or changed; the exporter, session included, is the one `export` leaves |
| Exporting.CachedOutputReused | darktable/darktable.py:247-251 | an existing recorded output rendered from the current sidecar content is returned as it is and joins the session; nothing is rendered and neither the store nor the files change |
| Exporting.ChangedSidecarRenders | darktable/darktable.py:247-253 | when nothing is recorded, the recorded output is gone, or the sidecar content changed, the photo is rendered exactly once with the `export` command line, and the call returns and writes exactly what that export returns and writes, so a miss returns the path the new export reports; the session is what that export leaves plus the recorded output if that file still exists |
| Exporting.RendersIffStale | darktable/darktable.py:246-253 | with the sidecar present, the renderer runs if and only if the recorded output is not fresh |
| Exporting.ExistingOutputJoinsSession | darktable/darktable.py:247-249 | a recorded output that still exists joins the session on every call with the sidecar present, hit or miss, even when rendering again fails |
| Exporting.ExistingOutputSurvivesSync | darktable/darktable.py:247-249 | such an output therefore survives the next `sync`, whatever the outcome of the call |
| Exporting.ExportCachedIdempotent | darktable/darktable.py:244-258 | repeating a successful call with the sidecar unchanged is a hit that returns the same output and changes nothing |
| PosixPath.WalkJoin | darktable/darktable.py:343-344 | the string of `Path(dir) / rel`, for a clean relative name, is the normalised directory followed by the name as it is (a bare name below `.`) |
| PosixPath.WalkedIff | darktable/darktable.py:343-344 | a name is one the walk spells exactly when it is the normalised join of the directory with a clean relative name |
| Exporting.ListingJoins | darktable/darktable.py:343-345 | the walk lists every existing file spelt as the directory joined with a clean relative name, as `str(PurePosixPath(dir, rel))`, and lists nothing else |
| Exporting.ForgetKeys | darktable/darktable.py:349-352 | deleting the keys one by one from the output view and then the sidecar hash view forgets exactly those keys in both views |
| Exporting.Sweep | darktable/darktable.py:343-356 | visiting the walked files in any order and sweeping the stale ones gives the reference result: every key recording a stale file is forgotten, and every stale file whose removal succeeds is deleted |
| Exporting.Sync | darktable/darktable.py:336-358 | the result is the reference sync, and the session is cleared |
| Exporting.SyncDeletes | darktable/darktable.py:343-356 | a file is gone after `sync` exactly when it is walked, not in the session, not raw, and its removal succeeds; everything else is kept |
| Exporting.SyncForgets | darktable/darktable.py:349-352 | a key whose recorded output is a removable file is forgotten in both views; every other key keeps its output and sidecar hash; the main view is untouched |
| Exporting.ExportedSurvivesSync | darktable/darktable.py:345 | an output returned by `export_cached` survives the next `sync`, and so do its output and sidecar-hash records |
| Exporting.SyncTwice | darktable/darktable.py:358 | an output of the session survives the first `sync`; because the session is cleared, a second `sync` with no exports in between deletes it |

## Left out

- PrefixCache.Items returns a map from key to value, not the list `items()` builds. The list's order (the order of the store's dictionary) is dropped. Its contents are exact, since a key occurs at most once.
- PrefixCache.Keys returns a set, for the same reason.
- PrefixCache.Load ignores the entry's expiry. Every entry this code writes has expiry `sys.maxsize`, and the expiry handling of the `simple_cache` library is not part of this model.
- Reading and writing the store file (`simple_cache.read_cache`, `write_cache`, pickling), its I/O errors, and concurrent writers are not modelled. Every operation acts on the whole store at once.
- `os.path.normpath` on the photo's path (darktable/darktable.py:74) is not modelled. `Photo.filepath` is taken as already normalised, and both the cache key and the sidecar path are computed from it as given.
- The other fields of `Photo` (id, date, tags, film roll, position, rating, colour labels) are not modelled, because the export cache does not use them.
- The width and height are integers. Python would also accept `None`, which prints as `None` in the fingerprint and on the command line (darktable/darktable.py:219-220, 282-283); that case is not modelled.
- `mkstemp`, the temporary sidecar file and its removal in `__del__` are not modelled (darktable/darktable.py:209-210, 233-234). The temporary sidecar's name is part of the exporter.
- Applying the sidecar edits (`modify_xmp`, darktable/darktable.py:267-270) is not modelled. Only its precondition is: the photo's sidecar must exist. Each edit is represented by its qualified name, which is all the fingerprint uses.
- Removing and rewriting the EXIF data of the exported image (darktable/darktable.py:311-332) is not modelled, and neither are its failures on files that are not images. In the model, the export succeeds when the reported file exists.
- The `print` calls in debug mode and in `sync` (darktable/darktable.py:295-301, 350) are not modelled.
- `path.exists` in `export_cached` is also true for directories. The model's file set holds regular files only, so a recorded output that is now a directory counts as gone in the model.
- Every file has exactly one spelling. Symbolic links, the working directory, case-insensitive filesystems, and a relative and an absolute name for the same file are not modelled.
- The walk of `sync` is modelled by the names it yields; the enumeration order is not modelled. `Exporting.Sweep` shows that the order does not change the result. Symbolic-link loops and errors while walking are not modelled.
- A failing `os.remove` is a predicate (`canRemove`). Its exception is swallowed, as the code does.
- PyRepr.Printable follows Python's printable test for the first 256 code points only. Above U+00FF, every character counts as printable, whereas Python escapes the non-printable ones there as `\u` or `\U` escapes. The round trip and injectivity hold for the model's escaping.
- SHA-1 and the sidecar file hash (`filehash`, darktable/util.py:17-21) are function parameters. Collisions are not modelled, so equal digests are not taken to mean equal inputs.
- Text.Lower lowers only ASCII letters and the Kelvin sign, and leaves every other character as it is. Python's `lower` changes more characters; a few of them give results that contain an ASCII letter, for example U+0130 lowers to `i` followed by U+0307. Each such result still contains a non-ASCII character, as the unlowered character does, so neither matches a listed raw extension and the raw-extension test gives the same answer.
- `FilenameFormat` and its `render` (darktable/darktable.py:148-188) are not modelled. The exporter uses the filename format only through `str(filename_format)`, and the model takes that text as a configuration field.
- Running `darktable-cli` is a function parameter, the renderer. Its behaviour, including hangs, is not modelled.
