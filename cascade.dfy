/** Which `fonts.conf` files the parser-side resolver merges, and in what
    order (`with_parser::get_config_home` and `with_parser::load_config`).

    The process environment is an explicit snapshot: a variable is a key of
    the map exactly when `std::env::var` would return `Ok` for it (a variable
    that is unset, or whose value is not Unicode, is absent). `Path::exists`
    is a predicate over path strings, and the `fontconfig_parser` crate's
    `merge_config` is an opaque, fallible step over an opaque configuration
    type `C`. */
module Cascade {
  import opened Wrappers

  type Env = map<string, string>

  const HomeVar: string := "HOME"
  const XdgConfigHomeVar: string := "XDG_CONFIG_HOME"
  const FontconfigFileVar: string := "FONTCONFIG_FILE"

  /** The fixed system configuration file. */
  const SystemConfigFile: string := "/etc/fonts/fonts.conf"

  /** `std::env::var(name).ok()` on the snapshot. */
  function Var(env: Env, name: string): (r: Option<string>)
    ensures r.Some? <==> name in env
    ensures r.Some? ==> r.value == env[name]
  {
    if name in env then Some(env[name]) else None
  }

  /** A path component that `Path::join` appends rather than substitutes:
      non-empty and not absolute. */
  predicate IsRelativeComponent(component: string) {
    component != [] && component[0] != '/'
  }

  /** `Path::join` inserts a separator exactly when the base path is non-empty
      and does not already end in one. */
  predicate NeedsSeparator(base: string) {
    base != [] && base[|base| - 1] != '/'
  }

  /** `Path::new(base).join(component)` for a relative component, as Rust's
      `PathBuf::push` does it on Unix. */
  function JoinPath(base: string, component: string): (p: string)
    requires IsRelativeComponent(component)
    ensures base <= p
    ensures |p| == |base| + |component| + (if NeedsSeparator(base) then 1 else 0)
    ensures p[|p| - |component|..] == component
    ensures NeedsSeparator(base) ==> p[|base|] == '/'
  {
    if NeedsSeparator(base) then base + "/" + component else base + component
  }

  /** `get_config_home`: `$XDG_CONFIG_HOME/fontconfig` when the variable is set
      (even to the empty string, which yields the relative path `fontconfig`),
      otherwise `$HOME/.config/fontconfig`, and an error when both are unset. */
  function ConfigHome(env: Env): (r: Option<string>)
    ensures r.None? <==> XdgConfigHomeVar !in env && HomeVar !in env
    ensures XdgConfigHomeVar in env && env[XdgConfigHomeVar] == "" ==> r == Some("fontconfig")
    ensures XdgConfigHomeVar in env && NeedsSeparator(env[XdgConfigHomeVar]) ==>
              r == Some(env[XdgConfigHomeVar] + "/fontconfig")
    ensures XdgConfigHomeVar in env && env[XdgConfigHomeVar] != "" && !NeedsSeparator(env[XdgConfigHomeVar]) ==>
              r == Some(env[XdgConfigHomeVar] + "fontconfig")
    ensures XdgConfigHomeVar !in env && HomeVar in env ==>
              r == Some(env[HomeVar] + "/.config/fontconfig")
    ensures r.Some? ==> |r.value| >= 10 && r.value[|r.value| - 10..] == "fontconfig"
  {
    var root :=
      if XdgConfigHomeVar in env then Some(env[XdgConfigHomeVar])
      else if HomeVar in env then Some(env[HomeVar] + "/.config")
      else None;
    match root
    case None => None
    case Some(dir) =>
      assert dir + "/" + "fontconfig" == dir + "/fontconfig";
      assert HomeVar in env ==> env[HomeVar] + "/.config" + "/fontconfig" == env[HomeVar] + "/.config/fontconfig";
      Some(JoinPath(dir, "fontconfig"))
  }

  /** `<config home>/fonts.conf`, when a config home resolves. */
  function UserConfigFile(env: Env): (r: Option<string>)
    ensures r.Some? <==> ConfigHome(env).Some?
    ensures r.Some? ==> r.value == ConfigHome(env).value + "/fonts.conf"
    ensures r.Some? ==> r.value != SystemConfigFile
  {
    match ConfigHome(env)
    case None => None
    case Some(home) =>
      var file := JoinPath(home, "fonts.conf");
      assert file[|file| - 12] == home[|home| - 1] == 'g';
      assert SystemConfigFile[|SystemConfigFile| - 12] == 's';
      Some(file)
  }

  /** The files `load_config` merges, in merge order. */
  function ConfigSources(env: Env, fileExists: string -> bool): (r: seq<string>)
    ensures |r| <= 2
    // FONTCONFIG_FILE overrides everything: only that file, whatever exists on disk.
    ensures FontconfigFileVar in env ==> r == [env[FontconfigFileVar]]
    // Otherwise a file is merged only if it exists ...
    ensures FontconfigFileVar !in env ==> forall f :: f in r ==> fileExists(f)
    // ... the system file is merged exactly when it exists, and always first ...
    ensures FontconfigFileVar !in env ==> (SystemConfigFile in r <==> fileExists(SystemConfigFile))
    ensures FontconfigFileVar !in env && fileExists(SystemConfigFile) ==> r[0] == SystemConfigFile
    // ... the user file is merged exactly when a config home resolves and the file exists ...
    ensures FontconfigFileVar !in env ==>
              forall f :: f in r && f != SystemConfigFile <==> UserConfigFile(env) == Some(f) && fileExists(f)
    // ... and when neither exists nothing is merged.
    ensures (FontconfigFileVar !in env && !fileExists(SystemConfigFile)
             && (UserConfigFile(env).None? || !fileExists(UserConfigFile(env).value))) ==> r == []
    // No file is merged twice: one merge per existing file, no more.
    ensures FontconfigFileVar !in env ==>
              |r| == (if fileExists(SystemConfigFile) then 1 else 0)
                     + (if UserConfigFile(env).Some? && fileExists(UserConfigFile(env).value) then 1 else 0)
    ensures forall i, j :: 0 <= i < j < |r| ==> r[i] != r[j]
  {
    if FontconfigFileVar in env then
      [env[FontconfigFileVar]]
    else
      var system := if fileExists(SystemConfigFile) then [SystemConfigFile] else [];
      var user :=
        match UserConfigFile(env)
        case Some(file) => if fileExists(file) then [file] else []
        case None => [];
      system + user
  }

  /** Merging the files in order into `config`, stopping at the first error
      (the successive `config.merge_config(..)?` calls). */
  function MergeAll<C, E>(merge: (C, string) -> Result<C, E>, config: C, files: seq<string>): (r: Result<C, E>)
    // Nothing to merge leaves the configuration as it is ...
    ensures files == [] ==> r == Ok(config)
    // ... a single file is exactly one merge ...
    ensures |files| == 1 ==> r == merge(config, files[0])
    // ... and a failing first merge is the error of the whole chain.
    ensures files != [] && merge(config, files[0]).Err? ==> r == Err(merge(config, files[0]).error)
    decreases |files|
  {
    if files == [] then Ok(config)
    else
      match merge(config, files[0])
      case Err(e) => Err(e)
      case Ok(next) => MergeAll(merge, next, files[1..])
  }

  /** If the first `k` merges succeed and the next one fails, the whole load
      fails with that error, whatever the remaining files are. */
  lemma {:induction false} MergeAllFailsAtFirstError<C, E>(
    merge: (C, string) -> Result<C, E>, config: C, files: seq<string>, k: nat)
    requires k < |files|
    requires MergeAll(merge, config, files[..k]).Ok?
    requires merge(MergeAll(merge, config, files[..k]).value, files[k]).Err?
    ensures MergeAll(merge, config, files) == Err(merge(MergeAll(merge, config, files[..k]).value, files[k]).error)
  {
    if k > 0 {
      var next := merge(config, files[0]);
      assert files[..k][0] == files[0];
      assert files[..k][1..] == files[1..][..k - 1];
      MergeAllFailsAtFirstError(merge, next.value, files[1..], k - 1);
    }
  }

  /** Conversely, a failed load is always the error of one merge that was
      reached after all earlier merges succeeded. */
  lemma {:induction false} MergeAllErrorHasCause<C, E>(
    merge: (C, string) -> Result<C, E>, config: C, files: seq<string>)
    requires MergeAll(merge, config, files).Err?
    ensures exists k :: 0 <= k < |files| && MergeAll(merge, config, files[..k]).Ok?
              && merge(MergeAll(merge, config, files[..k]).value, files[k]) == Err(MergeAll(merge, config, files).error)
  {
    assert files != [];
    assert files[..0] == [];
    match merge(config, files[0])
    case Err(e) =>
      assert MergeAll(merge, config, files[..0]) == Ok(config);
    case Ok(next) =>
      MergeAllErrorHasCause(merge, next, files[1..]);
      var k :| 0 <= k < |files[1..]| && MergeAll(merge, next, files[1..][..k]).Ok?
                && merge(MergeAll(merge, next, files[1..][..k]).value, files[1..][k])
                   == Err(MergeAll(merge, next, files[1..]).error);
      assert files[..k + 1][0] == files[0];
      assert files[..k + 1][1..] == files[1..][..k];
      assert MergeAll(merge, config, files[..k + 1]) == MergeAll(merge, next, files[1..][..k]);
  }

  /** `load_config`: start from the default configuration and merge the
      sources in order; the `?` after each merge returns its error at once. */
  method LoadConfig<C, E>(env: Env, fileExists: string -> bool, merge: (C, string) -> Result<C, E>, default: C)
    returns (r: Result<C, E>)
    ensures r == MergeAll(merge, default, ConfigSources(env, fileExists))
  {
    ghost var sources := ConfigSources(env, fileExists);
    var config := default;

    var overrideFile := Var(env, FontconfigFileVar);
    if overrideFile.Some? {
      assert sources[1..] == [];
      config :- merge(config, overrideFile.value);
      return Ok(config);
    }

    // `merged` is the prefix of `sources` already merged into `config`.
    ghost var merged: seq<string> := [];
    if fileExists(SystemConfigFile) {
      config :- merge(config, SystemConfigFile);
      merged := [SystemConfigFile];
    }
    assert MergeAll(merge, default, sources) == MergeAll(merge, config, sources[|merged|..]);

    var configDir := ConfigHome(env);
    if configDir.Some? {
      var userFile := JoinPath(configDir.value, "fonts.conf");
      if fileExists(userFile) {
        assert sources[|merged|..] == [userFile];
        ghost var before := config;
        config :- merge(config, userFile);
        assert merge(before, userFile) == Ok(config);
        assert MergeAll(merge, config, sources[|merged|..][1..]) == Ok(config);
        return Ok(config);
      }
    }

    assert sources[|merged|..] == [];
    return Ok(config);
  }

  /** With `FONTCONFIG_FILE` set, the loaded configuration depends only on
      that file: neither the rest of the environment nor what exists on disk
      matters. */
  lemma OverrideIgnoresEverythingElse<C, E>(
    env1: Env, exists1: string -> bool, env2: Env, exists2: string -> bool,
    merge: (C, string) -> Result<C, E>, default: C)
    requires FontconfigFileVar in env1 && FontconfigFileVar in env2
    requires env1[FontconfigFileVar] == env2[FontconfigFileVar]
    ensures MergeAll(merge, default, ConfigSources(env1, exists1))
         == MergeAll(merge, default, ConfigSources(env2, exists2))
  {
  }

  /** With no override and neither the system nor the user file on disk, the
      load succeeds with the default configuration. */
  lemma NoConfigFilesGivesDefault<C, E>(
    env: Env, fileExists: string -> bool, merge: (C, string) -> Result<C, E>, default: C)
    requires FontconfigFileVar !in env
    requires !fileExists(SystemConfigFile)
    requires UserConfigFile(env).None? || !fileExists(UserConfigFile(env).value)
    ensures MergeAll(merge, default, ConfigSources(env, fileExists)) == Ok(default)
  {
  }

  /** The documentation of `get_config_home` says an empty `XDG_CONFIG_HOME`
      falls back to `$HOME/.config`; the code does not: a set but empty
      variable yields the relative path `fontconfig`, whatever `HOME` is. */
  lemma EmptyXdgConfigHomeIsUsedAsIs(env: Env)
    requires XdgConfigHomeVar in env && env[XdgConfigHomeVar] == ""
    requires HomeVar in env && env[HomeVar] == "/home/alice"
    ensures ConfigHome(env) == Some("fontconfig")
    ensures ConfigHome(env) != Some("/home/alice/.config/fontconfig")
  {
  }
}
