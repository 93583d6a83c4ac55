/** The directory list of the parser-side resolver (`with_parser::dirs`):
    load the configuration cascade, take its directory entries, expand a
    leading `~` to `$HOME`, and drop every repeat of a path already seen.

    The `fontconfig_parser` crate's `FontConfig` is the opaque type `C`; the
    list of paths it declares (`config.dirs`) is the function `dirsOf`. */
module ParserDirs {
  import opened Wrappers
  import opened Cascade

  // ---------------------------------------------------------------------
  // Tilde expansion
  // ---------------------------------------------------------------------

  predicate StartsWithTilde(d: string) {
    d != [] && d[0] == '~'
  }

  /** One entry's expansion. `home` is `std::env::var("HOME").ok()`; a path
      that needs it when it is unset is the `unwrap` panic, here `None`. Only
      the one leading `~` is replaced, so `~user/x` becomes `$HOMEuser/x`. */
  function ExpandTilde(d: string, home: Option<string>): (r: Option<string>)
    ensures r.None? <==> StartsWithTilde(d) && home.None?
    ensures !StartsWithTilde(d) ==> r == Some(d)
    // A tilde path becomes HOME followed by the rest; putting the `~` back
    // in place of HOME gives the declared path again.
    ensures StartsWithTilde(d) && home.Some? ==>
              home.value <= r.value && "~" + r.value[|home.value|..] == d
  {
    if StartsWithTilde(d) then
      match home
      case None => None
      case Some(h) =>
        assert "~" + (h + d[1..])[|h|..] == [d[0]] + d[1..] == d;
        Some(h + d[1..])
    else
      Some(d)
  }

  /** The `map` over all declared paths, collected: it fails exactly when some
      path starts with `~` and `HOME` is unset, and otherwise keeps the list's
      length and order, expanding each entry on its own. */
  function ExpandAll(dirs: seq<string>, home: Option<string>): (r: Option<seq<string>>)
    ensures r.Some? <==> home.Some? || forall i :: 0 <= i < |dirs| ==> !StartsWithTilde(dirs[i])
    ensures r.Some? ==> |r.value| == |dirs|
    ensures r.Some? ==> forall i :: 0 <= i < |dirs| ==> ExpandTilde(dirs[i], home) == Some(r.value[i])
    decreases |dirs|
  {
    if dirs == [] then Some([])
    else
      match ExpandTilde(dirs[0], home)
      case None => None
      case Some(d) =>
        match ExpandAll(dirs[1..], home)
        case None => None
        case Some(rest) =>
          assert forall i :: 1 <= i < |dirs| ==> dirs[i] == dirs[1..][i - 1];
          Some([d] + rest)
  }

  /** `~/fonts` with `HOME=/home/alice` is `/home/alice/fonts`; `~bob/fonts`
      is `/home/alicebob/fonts`, not Bob's home. */
  lemma TildeExamples()
    ensures ExpandTilde("~/fonts", Some("/home/alice")) == Some("/home/alice/fonts")
    ensures ExpandTilde("~bob/fonts", Some("/home/alice")) == Some("/home/alicebob/fonts")
    ensures ExpandTilde("/usr/share/fonts", None) == Some("/usr/share/fonts")
    ensures ExpandTilde("~/fonts", None) == None
  {
    assert "~/fonts"[1..] == "/fonts";
    assert "/home/alice" + "/fonts" == "/home/alice/fonts";
    assert "~bob/fonts"[1..] == "bob/fonts";
    assert "/home/alice" + "bob/fonts" == "/home/alicebob/fonts";
  }

  /** Expansion is one-to-one among paths of the same kind: two `~` paths, or
      two other paths, that expand to the same path were the same path. */
  lemma ExpandTildeInjectiveWithinKind(d1: string, d2: string, home: Option<string>)
    requires StartsWithTilde(d1) == StartsWithTilde(d2)
    requires ExpandTilde(d1, home).Some? && ExpandTilde(d1, home) == ExpandTilde(d2, home)
    ensures d1 == d2
  {
    if StartsWithTilde(d1) {
      var e := ExpandTilde(d1, home).value;
      assert d1 == "~" + e[|home.value|..] == d2;
    }
  }

  // ---------------------------------------------------------------------
  // First-occurrence deduplication
  // ---------------------------------------------------------------------

  predicate NoDuplicates(s: seq<string>) {
    forall i, j :: 0 <= i < j < |s| ==> s[i] != s[j]
  }

  /** `xs` with every repeat of an earlier element dropped: the value of the
      `retain` against the set `uniques`. It keeps the same elements and never
      grows the list. */
  function Distinct(xs: seq<string>): (r: seq<string>)
    ensures |r| <= |xs|
    ensures forall x :: x in r <==> x in xs
    decreases |xs|
  {
    if xs == [] then []
    else
      var prefix := xs[..|xs| - 1];
      var kept := Distinct(prefix);
      assert forall x :: x in xs <==> x in prefix || x == xs[|xs| - 1] by {
        assert xs == prefix + [xs[|xs| - 1]];
      }
      if xs[|xs| - 1] in kept then kept else kept + [xs[|xs| - 1]]
  }

  /** The result of deduplication never holds two equal paths. */
  lemma {:induction false} DistinctHasNoDuplicates(xs: seq<string>)
    ensures NoDuplicates(Distinct(xs))
  {
    if xs != [] {
      DistinctHasNoDuplicates(xs[..|xs| - 1]);
    }
  }

  /** A list without duplicates is left as it is. */
  lemma {:induction false} DistinctKeepsDuplicateFree(xs: seq<string>)
    requires NoDuplicates(xs)
    ensures Distinct(xs) == xs
  {
    if xs != [] {
      var prefix := xs[..|xs| - 1];
      assert NoDuplicates(prefix);
      DistinctKeepsDuplicateFree(prefix);
      assert xs[|xs| - 1] !in prefix;
      assert xs == prefix + [xs[|xs| - 1]];
    }
  }

  /** Deduplicating twice is deduplicating once. */
  lemma DistinctIsIdempotent(xs: seq<string>)
    ensures Distinct(Distinct(xs)) == Distinct(xs)
  {
    DistinctHasNoDuplicates(xs);
    DistinctKeepsDuplicateFree(Distinct(xs));
  }

  /** Position `i` holds the first occurrence of its value. */
  predicate IsFirstOccurrence(xs: seq<string>, i: nat)
    requires i < |xs|
  {
    xs[i] !in xs[..i]
  }

  /** `r` is the subsequence of `xs` at the strictly increasing positions `idx`. */
  ghost predicate IsSubsequenceAt(r: seq<string>, xs: seq<string>, idx: seq<nat>) {
    && |idx| == |r|
    && (forall j :: 0 <= j < |idx| ==> idx[j] < |xs| && r[j] == xs[idx[j]])
    && (forall j, k :: 0 <= j < k < |idx| ==> idx[j] < idx[k])
  }

  /** The positions of `xs` that `Distinct` keeps. */
  function KeptPositions(xs: seq<string>): seq<nat>
    decreases |xs|
  {
    if xs == [] then []
    else
      var prefix := xs[..|xs| - 1];
      if xs[|xs| - 1] in Distinct(prefix) then KeptPositions(prefix)
      else KeptPositions(prefix) + [|xs| - 1]
  }

  /** Deduplication is the subsequence of first occurrences: it is `xs` at
      increasing positions, each of them the first occurrence of its value,
      and every first occurrence is among them. So `[/a,/b,/a,/c,/b]` gives
      `[/a,/b,/c]`: the order of the kept entries is the order of the input. */
  lemma {:induction false} DistinctKeepsFirstOccurrences(xs: seq<string>)
    ensures IsSubsequenceAt(Distinct(xs), xs, KeptPositions(xs))
    ensures forall j :: 0 <= j < |KeptPositions(xs)| ==> IsFirstOccurrence(xs, KeptPositions(xs)[j])
    ensures forall i :: 0 <= i < |xs| && IsFirstOccurrence(xs, i) ==> i in KeptPositions(xs)
  {
    if xs != [] {
      var n := |xs| - 1;
      var prefix := xs[..n];
      DistinctKeepsFirstOccurrences(prefix);
      FirstOccurrencesOfPrefix(xs, n);
      var idx := KeptPositions(prefix);
      if xs[n] in Distinct(prefix) {
        assert !IsFirstOccurrence(xs, n);
      } else {
        assert IsFirstOccurrence(xs, n);
        var idx' := idx + [n];
        assert KeptPositions(xs) == idx';
        assert Distinct(xs) == Distinct(prefix) + [xs[n]];
        forall j | 0 <= j < |idx'|
          ensures idx'[j] <= n && Distinct(xs)[j] == xs[idx'[j]] && IsFirstOccurrence(xs, idx'[j])
        {
          if j < |idx| {
            assert idx'[j] == idx[j] < n;
          }
        }
      }
    }
  }

  /** Below `n`, the first `n` entries of `xs` agree with `xs`, also on which
      positions are first occurrences. */
  lemma FirstOccurrencesOfPrefix(xs: seq<string>, n: nat)
    requires n <= |xs|
    ensures forall k :: 0 <= k < n ==> xs[..n][k] == xs[k]
    ensures forall k :: 0 <= k < n ==> (IsFirstOccurrence(xs[..n], k) <==> IsFirstOccurrence(xs, k))
  {
    forall k | 0 <= k < n
      ensures IsFirstOccurrence(xs[..n], k) <==> IsFirstOccurrence(xs, k)
    {
      assert xs[..n][..k] == xs[..k];
    }
  }

  /** The example of deduplication on five declared paths. */
  lemma DistinctExample()
    ensures Distinct(["/a", "/b", "/a", "/c", "/b"]) == ["/a", "/b", "/c"]
  {
    var xs := ["/a", "/b", "/a", "/c", "/b"];
    assert xs[..1] == ["/a"];
    assert xs[..2] == ["/a", "/b"];
    assert xs[..3] == ["/a", "/b", "/a"];
    assert xs[..4] == ["/a", "/b", "/a", "/c"];
    assert Distinct(xs[..1]) == ["/a"];
    assert Distinct(xs[..2]) == ["/a", "/b"];
    assert Distinct(xs[..3]) == ["/a", "/b"];
    assert "/c"[1] != "/a"[1] && "/c"[1] != "/b"[1];
    assert xs[..4][..3] == xs[..3];
    assert xs[..4][3] == "/c";
    assert Distinct(xs[..4]) == ["/a", "/b", "/c"];
  }

  /** `result.retain(|d| uniques.insert(d.to_string()))`: one pass over the
      vector, compacting in place the entries whose insertion into the seen
      set succeeds (their first occurrence); the vector's new length is `len`. */
  method RetainFirstOccurrences(a: array<string>) returns (len: nat)
    modifies a
    ensures len <= a.Length
    ensures a[..len] == Distinct(old(a[..]))
  {
    ghost var input := a[..];
    var uniques: set<string> := {};
    len := 0;
    var i := 0;
    while i < a.Length
      invariant len <= i <= a.Length
      invariant a[..len] == Distinct(input[..i])
      invariant forall k :: i <= k < a.Length ==> a[k] == input[k]
      invariant forall x :: x in uniques <==> x in a[..len]
    {
      var d := a[i];
      assert d == input[i];
      assert input[..i + 1][..i] == input[..i];
      if d !in uniques {
        uniques := uniques + {d};
        a[len] := d;
        len := len + 1;
      }
      i := i + 1;
    }
    assert input[..a.Length] == input;
  }

  // ---------------------------------------------------------------------
  // The whole parser-side directory list
  // ---------------------------------------------------------------------

  /** What `with_parser::dirs` returns: `None` for the two panics (a load that
      fails, a `~` path without `HOME`), otherwise the expanded, deduplicated
      directory list of the merged configuration. */
  function ResolvedDirs<C, E>(
    env: Env, fileExists: string -> bool, merge: (C, string) -> Result<C, E>, default: C,
    dirsOf: C -> seq<string>): (r: Option<seq<string>>)
    // The two panics: the load fails, or a declared `~` path meets an unset `HOME`.
    ensures var loaded := MergeAll(merge, default, ConfigSources(env, fileExists));
            r.None? <==> loaded.Err?
                         || (HomeVar !in env && exists i :: 0 <= i < |dirsOf(loaded.value)| && StartsWithTilde(dirsOf(loaded.value)[i]))
  {
    match MergeAll(merge, default, ConfigSources(env, fileExists))
    case Err(_) => None
    case Ok(config) =>
      match ExpandAll(dirsOf(config), Var(env, HomeVar))
      case None => None
      case Some(expanded) => Some(Distinct(expanded))
  }

  /** `with_parser::dirs`: load, expand, collect into a vector, retain. */
  method Dirs<C, E>(
    env: Env, fileExists: string -> bool, merge: (C, string) -> Result<C, E>, default: C,
    dirsOf: C -> seq<string>)
    returns (r: Option<seq<string>>)
    ensures r == ResolvedDirs(env, fileExists, merge, default, dirsOf)
  {
    var loaded := LoadConfig(env, fileExists, merge, default);
    if loaded.Err? {
      return None;
    }
    var expanded := ExpandAll(dirsOf(loaded.value), Var(env, HomeVar));
    if expanded.None? {
      return None;
    }
    var paths := expanded.value;
    var result := new string[|paths|](i requires 0 <= i < |paths| => paths[i]);
    assert result[..] == paths;
    var len := RetainFirstOccurrences(result);
    return Some(result[..len]);
  }

  /** The resolved list holds each expanded declared path exactly once, and
      nothing else. */
  lemma ResolvedDirsAreDistinct<C, E>(
    env: Env, fileExists: string -> bool, merge: (C, string) -> Result<C, E>, default: C,
    dirsOf: C -> seq<string>)
    requires ResolvedDirs(env, fileExists, merge, default, dirsOf).Some?
    ensures var loaded := MergeAll(merge, default, ConfigSources(env, fileExists)).value;
            var expanded := ExpandAll(dirsOf(loaded), Var(env, HomeVar)).value;
            var dirs := ResolvedDirs(env, fileExists, merge, default, dirsOf).value;
            NoDuplicates(dirs) && forall d :: d in dirs <==> d in expanded
  {
    var loaded := MergeAll(merge, default, ConfigSources(env, fileExists)).value;
    DistinctHasNoDuplicates(ExpandAll(dirsOf(loaded), Var(env, HomeVar)).value);
  }

  /** With `FONTCONFIG_FILE` set, the directory list depends only on that file
      and on `HOME` (which tilde expansion still reads), not on what exists on
      disk or on `XDG_CONFIG_HOME`. */
  lemma OverrideDirsIgnoreDisk<C, E>(
    env1: Env, exists1: string -> bool, env2: Env, exists2: string -> bool,
    merge: (C, string) -> Result<C, E>, default: C, dirsOf: C -> seq<string>)
    requires FontconfigFileVar in env1 && FontconfigFileVar in env2
    requires env1[FontconfigFileVar] == env2[FontconfigFileVar]
    requires Var(env1, HomeVar) == Var(env2, HomeVar)
    ensures ResolvedDirs(env1, exists1, merge, default, dirsOf) == ResolvedDirs(env2, exists2, merge, default, dirsOf)
  {
    OverrideIgnoresEverythingElse(env1, exists1, env2, exists2, merge, default);
  }

  /** With no override and neither configuration file on disk, the list is
      that of the default configuration, which declares no directory: empty,
      and no error. */
  lemma NoConfigFilesGiveNoDirs<C, E>(
    env: Env, fileExists: string -> bool, merge: (C, string) -> Result<C, E>, default: C,
    dirsOf: C -> seq<string>)
    requires FontconfigFileVar !in env
    requires !fileExists(SystemConfigFile)
    requires UserConfigFile(env).None? || !fileExists(UserConfigFile(env).value)
    requires dirsOf(default) == []
    ensures ResolvedDirs(env, fileExists, merge, default, dirsOf) == Some([])
  {
    NoConfigFilesGivesDefault(env, fileExists, merge, default);
  }

  /** Expansion is not one-to-one across the two kinds of path: `~/fonts` and
      `/home/alice/fonts` expand to the same path, and deduplication then
      keeps only the first of them. */
  lemma TildeAndAbsoluteMerge()
    ensures ExpandAll(["~/fonts", "/home/alice/fonts"], Some("/home/alice"))
            == Some(["/home/alice/fonts", "/home/alice/fonts"])
    ensures Distinct(["/home/alice/fonts", "/home/alice/fonts"]) == ["/home/alice/fonts"]
  {
    TildeExamples();
    var declared := ["~/fonts", "/home/alice/fonts"];
    var expanded := ExpandAll(declared, Some("/home/alice")).value;
    assert ExpandTilde(declared[0], Some("/home/alice")) == Some(expanded[0]);
    assert ExpandTilde(declared[1], Some("/home/alice")) == Some(expanded[1]);
    assert expanded == ["/home/alice/fonts", "/home/alice/fonts"];
    var xs := ["/home/alice/fonts", "/home/alice/fonts"];
    assert xs[..1] == ["/home/alice/fonts"];
  }
}
