# fontconfig-lab: a Dafny model of the cascade resolver and the reconciler

fontconfig-lab compares two lists of font directories. The first comes from the
native fontconfig library (`FcConfigGetFontDirs`). The second is rebuilt by
parsing the `fonts.conf` cascade directly. The program line-diffs the two lists
and prints one signed row per change. A removed directory is meant to be
marked as still existing on disk (`-`) or as gone (`x`). As written, the
program checks the change's display text, which ends in a newline, so it marks
an existing removed directory `x` as well (see "## Findings").

This project models the logic of `src/main.rs` around those calls:

- `cascade.dfy` (module `Cascade`) covers `get_config_home` and `load_config`.
  They decide which configuration files are merged and in what order.
  - `FONTCONFIG_FILE` replaces the whole cascade.
  - Otherwise `/etc/fonts/fonts.conf` is merged, then `<config home>/fonts.conf`.
    Each file is merged only if it exists.
  - The config home is `$XDG_CONFIG_HOME/fontconfig`, falling back to
    `$HOME/.config/fontconfig`.
  - A merge error aborts the load.
- `parser_dirs.dfy` (module `ParserDirs`) covers `with_parser::dirs`.
  - It expands a leading `~` to `$HOME`.
  - It removes duplicates with `retain` and a seen set, which keeps the first
    occurrence of each path. This is modelled as an in-place pass over an array.
- `ffi_dirs.dfy` (module `FfiDirs`) covers `StrList::next` and the collect in
  `ffi::dirs`. Iteration skips entries that are not valid UTF-8 and stops at the
  first null.
- `reconciler.dfy` (module `Reconciler`) covers `main`.
  - It joins each list with `"\n"` and splits the result into line tokens the
    way `TextDiff::from_lines` does. Each token keeps its terminator.
  - It classifies each change of the edit script and builds the report rows in
    script order. `Reconciler.Rows` takes the existence check as a parameter.
    With `OnDisplayText`, the check runs on the change's display text, as the
    program does; `Reconcile` and `Compare` build these rows. With
    `OnDirectory`, it runs on the directory itself, which is the intended
    report. `Reconciler.RowsDifferOnlyOnExistingDeletions` relates the two.
- `wrappers.dfy` (module `Wrappers`) holds `Option` and `Result`. `Result` is
  failure-compatible, so `:-` plays the part of Rust's `?`.

External inputs become explicit parameters:

- The environment is a snapshot `map<string, string>`. A variable is a key of
  the map exactly when `std::env::var` returns `Ok` for it.
- `Path::exists` is a predicate over path strings.
- `merge_config` is an opaque, fallible function over an opaque configuration
  type.
- The directories a merged configuration declares are an opaque function of
  that configuration.
- The native directory list is a sequence of raw entries.
- The line diff is an edit script that is required to be well formed: its equal
  and deleted tokens spell the first text, and its equal and inserted tokens
  spell the second.
- In `with_parser::dirs`, the two `unwrap`s that can panic (a failed load at
  src/main.rs:213, and `HOME` unset for a `~` path at src/main.rs:225) become a
  `None` result. The other `unwrap`s are listed under "## Left out".

Where the code and its documentation disagree, the model follows the code:

- The documentation comment of `get_config_home` (src/main.rs:171) says an
  empty `XDG_CONFIG_HOME` falls back to `$HOME/.config`. The code uses
  `std::env::var(..).or(..)`, so a variable that is set but empty is used as
  it is. The config home is then the relative path `fontconfig`
  (`Cascade.EmptyXdgConfigHomeIsUsedAsIs`).
- A config home that cannot be resolved only skips the user file. It is not an
  error (src/main.rs:201).

## Model

| member | source | states |
|---|---|---|
| Cascade.Var | src/main.rs:165-167 | `std::env::var(name)` succeeds exactly when the variable is in the environment snapshot, and then gives its value |
| Cascade.JoinPath | src/main.rs:175 | `Path::join` with a relative component: the base is a prefix, the component is a suffix, and exactly one `/` separator is inserted unless the base is empty or already ends in `/` |
| Cascade.ConfigHome | src/main.rs:172-176 | config home fails only when both `XDG_CONFIG_HOME` and `HOME` are unset; a set `XDG_CONFIG_HOME` (even empty, giving `fontconfig`) wins over `HOME`; otherwise it is `$HOME/.config/fontconfig`; it always ends in `fontconfig` |
| Cascade.UserConfigFile | src/main.rs:199-202 | the user file exists exactly when a config home resolves, is `<config home>/fonts.conf`, and is never the system file |
| Cascade.ConfigSources | src/main.rs:186-206 | with `FONTCONFIG_FILE` set, exactly that file; otherwise only existing files, the system file exactly when it exists and always first, the user file exactly when it resolves and exists, nothing when neither exists; one entry per existing file and no file twice |
| Cascade.MergeAll | src/main.rs:188-204 | the chain of `merge_config(..)?` calls: no file leaves the configuration unchanged, one file is exactly one merge, and a failing first merge is the error of the whole chain |
| Cascade.MergeAllFailsAtFirstError | src/main.rs:188-204 | if the merges before file `k` succeed and merging file `k` fails, the whole load fails with that error |
| Cascade.MergeAllErrorHasCause | src/main.rs:188-204 | a failed load is always the error of one merge reached after all earlier merges succeeded |
| Cascade.LoadConfig | src/main.rs:183-209 | the load (early return on override, `?` on every merge) equals merging the chosen sources in order into the default configuration |
| Cascade.OverrideIgnoresEverythingElse | src/main.rs:186-190 | with `FONTCONFIG_FILE` set, the loaded configuration is the same whatever else the environment holds and whatever exists on disk |
| Cascade.NoConfigFilesGivesDefault | src/main.rs:184-208 | no override and neither file on disk: the load succeeds with the default configuration |
| Cascade.EmptyXdgConfigHomeIsUsedAsIs | src/main.rs:169-176 | an empty `XDG_CONFIG_HOME` gives the config home `fontconfig`, not `$HOME/.config/fontconfig`, contrary to the doc comment |
| ParserDirs.ExpandTilde | src/main.rs:218-230 | fails exactly for a `~` path without `HOME`; a non-`~` path is unchanged; a `~` path becomes `HOME` followed by the rest, and putting `~` back in place of `HOME` gives the declared path again |
| ParserDirs.ExpandAll | src/main.rs:214-231 | the expansion `map` fails exactly when some path starts with `~` and `HOME` is unset; otherwise it keeps length and order and expands each entry independently |
| ParserDirs.ExpandTildeInjectiveWithinKind | src/main.rs:218-230 | expansion is one-to-one among `~` paths and among other paths: equal expansions of two paths of the same kind mean equal paths |
| ParserDirs.TildeExamples | src/main.rs:219-227 | `~/fonts` with HOME `/home/alice` is `/home/alice/fonts`; `~bob/fonts` is `/home/alicebob/fonts` |
| ParserDirs.Distinct | src/main.rs:233-235 | deduplication never lengthens the list and keeps exactly the same set of paths |
| ParserDirs.DistinctHasNoDuplicates | src/main.rs:233-235 | the deduplicated list holds no two equal paths |
| ParserDirs.DistinctKeepsDuplicateFree | src/main.rs:233-235 | a list without duplicates is unchanged |
| ParserDirs.DistinctIsIdempotent | src/main.rs:233-235 | deduplicating twice equals deduplicating once |
| ParserDirs.DistinctKeepsFirstOccurrences | src/main.rs:233-235 | the result is the input at strictly increasing positions, each the first occurrence of its path, and every first occurrence is kept |
| ParserDirs.DistinctExample | src/main.rs:233-235 | `[/a,/b,/a,/c,/b]` becomes `[/a,/b,/c]` |
| ParserDirs.RetainFirstOccurrences | src/main.rs:233-235 | the in-place `retain` against a seen set leaves the deduplicated input in the vector's first `len` slots |
| ParserDirs.ResolvedDirs | src/main.rs:212-237 | `with_parser::dirs` returns nothing (panics) exactly when the load fails or a declared `~` path meets an unset `HOME` |
| ParserDirs.Dirs | src/main.rs:212-237 | the directory list is load, then expand, then deduplicate; either panic yields `None` |
| ParserDirs.ResolvedDirsAreDistinct | src/main.rs:212-237 | the resolved list has no duplicates and holds exactly the expanded declared paths |
| ParserDirs.OverrideDirsIgnoreDisk | src/main.rs:186-190 | with `FONTCONFIG_FILE` set, the directory list depends only on that file and on `HOME`, not on what exists on disk |
| ParserDirs.NoConfigFilesGiveNoDirs | src/main.rs:183-213 | no override and no configuration file: an empty list, without error |
| ParserDirs.TildeAndAbsoluteMerge | src/main.rs:218-235 | `~/fonts` and `/home/alice/fonts` expand to the same path, and deduplication keeps one |
| FfiDirs.UpToNull | src/main.rs:98-103 | the reachable entries are exactly the C strings before the first null |
| FfiDirs.Next | src/main.rs:98-109 | `next` yields `None` exactly when nothing decodable remains before a null; otherwise it yields the first decodable string, and the iterator's new state is a strictly shorter suffix of the list |
| FfiDirs.Collect | src/main.rs:147-150 | collecting the iterator gives exactly the decodable strings before the first null, in order |
| FfiDirs.StopsAtFirstNull | src/main.rs:99-102 | nothing after the first null is ever yielded |
| FfiDirs.YieldsExactlyTheDecodable | src/main.rs:104-107 | every yielded string decodes some reachable entry, and every decodable reachable entry is yielded |
| FfiDirs.AllDecodableYieldsAll | src/main.rs:104-106 | when every entry decodes, the strings come out one for one, in order |
| Reconciler.JoinLines | src/main.rs:11-12 | `join("\n")`: no entries give the empty text; the first entry begins the text, and a `\n` follows it when more entries come |
| Reconciler.Lines | src/main.rs:16 | line tokens spell the text again; each token is non-empty with `\n` only at its end; every token but the last ends in `\n` |
| Reconciler.LinesOfJoined | src/main.rs:11-16 | joining newline-free paths (last non-empty) and splitting gives one token per path: each path with `\n`, the last without |
| Reconciler.StripTerminated | src/main.rs:11-16 | removing the terminator from each of those tokens gives the paths back |
| Reconciler.TokenEdgeCases | src/main.rs:11-16 | a final `/x` and a non-final `/x\n` differ; a trailing empty path leaves no token |
| Reconciler.Marker | src/main.rs:18-23 | each sign prints as one character |
| Reconciler.MarkersAreDistinct | src/main.rs:18-23 | the four markers are pairwise different |
| Reconciler.DisplayText | src/main.rs:19 | `change.to_string()` always ends in `\n` and names the same line as the token |
| Reconciler.ClassifyAsWritten | src/main.rs:18-23 | as written: `Equal` iff " ", `Insert` iff "+", a deletion is "-" iff its display text exists and "x" otherwise |
| Reconciler.Classify | src/main.rs:18-23 | as intended: `Equal` iff " ", `Insert` iff "+", a deletion is "-" iff the deleted directory exists and "x" otherwise |
| Reconciler.AsWrittenNeverReportsExisting | src/main.rs:19 | unless a path whose name ends in a newline exists, no deletion is ever reported as "-" |
| Reconciler.ClassificationsAgreeElsewhere | src/main.rs:18-23 | the as-written and intended signs differ exactly on deletions of existing directories |
| Reconciler.ExistingDirectoryReportedStale | src/main.rs:19 | for the lists `[/b,/a]` and `[/a]` with `/b` on disk, the well-formed script deletes `/b\n`, which is "x" as written and "-" as intended |
| Reconciler.SignOf | src/main.rs:18-23 | under either existence check, a change is " " exactly when it is equal and "+" exactly when it is inserted |
| Reconciler.Rows | src/main.rs:17-25 | the report has exactly one row per change |
| Reconciler.RowsFollowScript | src/main.rs:17-25 | row `i` carries change `i`'s text and its sign, under either existence check |
| Reconciler.RowsKeepBothSides | src/main.rs:16-25 | under either existence check, the " ", "-" and "x" rows spell the first text's lines, and the " " and "+" rows spell the second's |
| Reconciler.RowsDifferOnlyOnExistingDeletions | src/main.rs:17-25 | the printed and the intended report list the same texts in the same order; their signs differ exactly on deletions of directories that exist |
| Reconciler.Reconcile | src/main.rs:17-25 | the loop over the changes, checking existence on the display text as written, builds exactly the printed rows |
| Reconciler.Compare | src/main.rs:11-25 | `main` as written: with a well-formed diff of the joined lists, the rows are the printed ones; every authoritative directory is exactly one " ", "-" or "x" row and every parser directory is exactly one " " or "+" row, in list order (for newline-free paths whose last is non-empty) |
| Reconciler.ReportExample | src/main.rs:11-25 | `[/a,/b]` against `[/a,/c]` with `/c` on disk is printed " /a", "x /b", "+ /c", whether or not `/b` exists; the intended report has "- /b" when `/b` exists |

## Left out

- `Fontconfig::new` and `font_dirs` (src/main.rs:121-138), the `Drop` implementations (src/main.rs:89-93 and :141-145) and the `dlopen` gate (src/main.rs:53-54 and :122-125) are foreign calls and raw handles. The native directory list is an input to `FfiDirs`, and the `unwrap` on a failed initialisation (src/main.rs:148) is not modelled.
- `CStr::to_str`, which checks UTF-8 validity, is a parameter of `FfiDirs` rather than a UTF-8 decoder.
- The `fontconfig_parser` crate is library code: its XML grammar, `include` resolution and the semantics of `merge_config`. The merge is an opaque, fallible function. A configuration's `dirs` list is an opaque function of the configuration.
- `d.path.to_str().unwrap()` (src/main.rs:217) panics on a path that is not valid Unicode. Paths here are Dafny strings, so this case does not arise.
- The `similar` crate's longest-common-subsequence diff is library code. The edit script is an input constrained by `Reconciler.IsEditScript`, so no particular minimal diff is chosen.
- The `similar` crate also treats a lone `\r` and `\r\n` as line terminators. `Reconciler.Lines` and `Reconciler.DisplayText` handle only `\n`, so paths containing `\r` are not modelled.
- Printing is left out: the header line (src/main.rs:14) and the `print!` formatting of each row (src/main.rs:24). `Reconciler.Marker` gives only each row's sign.
- Reading the real environment and the real filesystem is left out. The environment is a snapshot, and a variable whose value is not Unicode counts as unset, as `std::env::var` reports it. `Path::exists` is a predicate, and an I/O error during the check counts as "does not exist".
- `Cascade.JoinPath` models Unix `Path::join` with a relative component only. Absolute components and Windows path prefixes are not modelled.
- Tilde expansion is one-to-one only within each kind of path (`ParserDirs.ExpandTildeInjectiveWithinKind`). A `~` path and an absolute path can expand to the same string (`ParserDirs.TildeAndAbsoluteMerge`), so no injectivity across kinds is stated.
- `Vec::retain` shortens the vector after compacting. `ParserDirs.RetainFirstOccurrences` returns the new length instead of truncating the array.

## Findings

| source | as written | input that shows it | evidently intended | confidence | as-written member | corrected member |
|---|---|---|---|---|---|---|
| src/main.rs:19 | the existence check runs on `change.to_string()`. That is the line token, which keeps its `\n`, and the `similar` crate's `Display` appends a `\n` when the token has none. So the checked text always ends in a newline, and a deleted directory that exists is reported as `x` | authoritative `[/b, /a]`, parser `[/a]`, `/b` exists on disk: the diff deletes `/b\n`, `/b\n` does not exist, and the row is `x /b` | check the directory itself (the token without its terminator), giving `- /b` | medium; not executed; the `Display` behaviour belongs to the `similar` crate, which is not part of this model, but the input shown does not depend on it because the deleted token is not the last | Reconciler.ExistingDirectoryReportedStale | Reconciler.Classify |
