/** The command-line layer: where the configuration, the profiles and the
    desktop entries live, how lower-level errors become user-facing ones,
    and the `config create` and `config check` commands.

    A command's printed lines are kept, unformatted, in its outcome. */
module Cli {
  import opened Wrappers
  import opened Errors
  import opened Strings
  import opened FileSystem
  import opened Host
  import Paths
  import Xdg
  import Profile
  import Desktop
  import Cfg = Config
  import Tg

  /** What a command leaves behind: the file system, the lines it printed,
      and its result. */
  datatype Outcome<T> = Outcome(fs: FS, out: seq<Message>, result: Result<T, Error>)

  /** The two halves of TOML handling, which the model takes as given. */
  datatype Codec = Codec(
    encode: (string, string) -> string,
    decode: string -> Result<Cfg.Document, Error>)

  /** String formatting arguments. */
  function Strs(args: seq<string>): (r: seq<Arg>)
    ensures |r| == |args| && forall i :: 0 <= i < |args| ==> r[i] == Str(args[i])
  {
    seq(|args|, i requires 0 <= i < |args| => Str(args[i]))
  }

  /** A printed line, before formatting. */
  function Line(format: string, args: seq<string>): Message {
    Formatted(format, Strs(args))
  }

  /** `newError(format, args...)` with string arguments only: no cause. */
  function Message(format: string, args: seq<string>): (e: Error)
    ensures e == CliError(Line(format, args), None)
  {
    NewError(format, Strs(args))
  }

  /** `newError(format, args..., cause)`: the trailing error is the cause. */
  function Wrap(format: string, args: seq<string>, cause: Error): (e: Error)
    ensures e == CliError(Line(format, args), Some(cause))
  {
    NewErrorInspectsOnlyLastArgument(format, Strs(args), cause, "");
    NewError(format, Strs(args) + [ErrArg(cause)])
  }

  // -----------------------------------------------------------------------
  // Locations

  /** `getDefaultProfileDir`. */
  function DefaultProfileDir(dataDir: string): string {
    Paths.JoinPath([dataDir, "manygram", "profiles"])
  }

  /** `getDesktopEntriesDir`. */
  function DesktopEntriesDir(env: map<string, string>): string {
    Paths.JoinPath([Xdg.DataHome(env), "applications"])
  }

  /** `getConfigPath`. */
  function ConfigPath(env: map<string, string>): string {
    Paths.JoinPath([Xdg.ConfigHome(env), "manygram", "config.toml"])
  }

  /** The configuration file is `config.toml` in the directory `manygram`
      of the cleaned configuration base directory. */
  lemma ConfigPathIsBelowConfigHome(env: map<string, string>)
    ensures Paths.Base(ConfigPath(env)) == "config.toml"
    ensures Paths.Dir(ConfigPath(env)) == Paths.Child(Paths.Clean(Xdg.ConfigHome(env)), "manygram")
  {
    Paths.JoinThreeIsDirectChild(Xdg.ConfigHome(env), "manygram", "config.toml");
  }

  /** The default profile directory is `profiles` in the directory
      `manygram` of the cleaned data directory. */
  lemma DefaultProfileDirIsBelowDataDir(dataDir: string)
    ensures Paths.Base(DefaultProfileDir(dataDir)) == "profiles"
    ensures Paths.Dir(DefaultProfileDir(dataDir)) == Paths.Child(Paths.Clean(dataDir), "manygram")
  {
    Paths.JoinThreeIsDirectChild(dataDir, "manygram", "profiles");
  }

  /** Desktop entries go in `applications` of the cleaned data home. */
  lemma DesktopEntriesDirIsBelowDataHome(env: map<string, string>)
    ensures Paths.Base(DesktopEntriesDir(env)) == "applications"
    ensures Paths.Dir(DesktopEntriesDir(env)) == Paths.Clean(Xdg.DataHome(env))
  {
    Paths.JoinIsDirectChild(Xdg.DataHome(env), "applications");
  }

  // -----------------------------------------------------------------------
  // Reading what the commands need

  const ConfigNotFound := "Config %s not found. Run `manygram config create` to create a new one."

  /** `readConfig`: a missing file and any other failure get different
      messages; both keep the original error as the cause. */
  function ReadConfig(h: Host, codec: Codec): (r: Result<Cfg.Config, Error>)
    ensures var path := ConfigPath(h.env);
            var read := Cfg.Read(h.fs, path, codec.decode);
            && (read.Success? ==> r == read)
            && (read.Failure? && Is(read.error, ErrNotExist) ==>
                  r == Failure(CliError(Line(ConfigNotFound, [path]), Some(read.error))))
            && (read.Failure? && !Is(read.error, ErrNotExist) ==>
                  r == Failure(CliError(Line("Failed to read config %s", [path]), Some(read.error))))
  {
    var path := ConfigPath(h.env);
    match Cfg.Read(h.fs, path, codec.decode)
    case Success(conf) => Success(conf)
    case Failure(err) =>
      if Is(err, ErrNotExist) then
        Failure(Wrap(ConfigNotFound, [path], err))
      else
        Failure(Wrap("Failed to read config %s", [path], err))
  }

  const ProfileMissing := "Profile '%s' does not exist. Use `manygram create %[1]s` to create a new one."

  /** `readConfig` only dresses up `config.Read`: it succeeds exactly when
      the read does, with the same configuration, and on failure the read's
      error is the cause, so `errors.Is` sees the same sentinels through it. */
  lemma ReadConfigWrapsRead(h: Host, codec: Codec, target: Sentinel)
    ensures var read := Cfg.Read(h.fs, ConfigPath(h.env), codec.decode);
            && (ReadConfig(h, codec).Success? <==> read.Success?)
            && (read.Success? ==> ReadConfig(h, codec).value == read.value)
            && (read.Failure? ==>
                  && Unwrap(ReadConfig(h, codec).error) == Some(read.error)
                  && (Is(ReadConfig(h, codec).error, target) <==> Is(read.error, target)))
  {
  }

  /** `profileNameError`, whose wording is defined outside the modelled
      files: it carries the name and no cause. */
  function ProfileNameError(name: string): Error {
    CliError(NameMessage(name), None)
  }

  /** `readProfile`. */
  function ReadProfile(fs: FS, dir: string, name: string): (r: Result<Profile.Profile, Error>)
    ensures !Profile.IsValidName(name) ==> r == Failure(ProfileNameError(name))
    ensures Profile.IsValidName(name) && Profile.Path(dir, name) !in fs ==>
      r == Failure(CliError(Line(ProfileMissing, [name]), None))
    ensures r.Success? <==> Profile.Read(fs, dir, name).Success?
    ensures r.Success? ==> r == Profile.Read(fs, dir, name)
    ensures Profile.IsValidName(name) && Profile.Path(dir, name) in fs && !(fs[Profile.Path(dir, name)] == Dir) ==>
      r == Failure(CliError(Line("Failed to read profile '%s'.", [name]),
                            Some(Profile.Read(fs, dir, name).error)))
  {
    match Profile.Read(fs, dir, name)
    case Success(p) => Success(p)
    case Failure(err) =>
      if Is(err, ErrInvalidName) then Failure(ProfileNameError(name))
      else if Is(err, ErrNotExist) then Failure(Message(ProfileMissing, [name]))
      else Failure(Wrap("Failed to read profile '%s'.", [name], err))
  }

  // -----------------------------------------------------------------------
  // Desktop entries

  /** The `TryExec` and `Exec` values of a profile's desktop entry. */
  const TryExec := "manygram"

  function ExecLine(name: string): string {
    "manygram run " + name
  }

  /** The configuration `createDesktopEntry` works with: the caller's, or
      else the one `readConfig` finds. */
  function ConfigInUse(h: Host, codec: Codec, conf: Option<Cfg.Config>): Result<Cfg.Config, Error> {
    if conf.Some? then Success(conf.value) else ReadConfig(h, codec)
  }

  /** `createDesktopEntry`; `conf` is the configuration the caller already
      holds, if any. */
  function CreateDesktopEntry(h: Host, codec: Codec, conf: Option<Cfg.Config>, name: string): (r: Effect<()>)
    // A failed `stat` of the entry is returned as it is.
    ensures var entry := Desktop.Path(DesktopEntriesDir(h.env), name);
            entry in h.fs && h.fs[entry].Inaccessible? ==>
              r == Effect(h.fs, Failure(Stat(h.fs, entry).error))
    // So are the errors of `readConfig` and `readProfile`.
    ensures var entry := Desktop.Path(DesktopEntriesDir(h.env), name);
            entry !in h.fs && ConfigInUse(h, codec, conf).Failure? ==>
              r == Effect(h.fs, Failure(ReadConfig(h, codec).error))
    ensures var entry := Desktop.Path(DesktopEntriesDir(h.env), name);
            var cfg := ConfigInUse(h, codec, conf);
            entry !in h.fs && cfg.Success? && ReadProfile(h.fs, cfg.value.profileDir, name).Failure? ==>
              r == Effect(h.fs, Failure(ReadProfile(h.fs, cfg.value.profileDir, name).error))
    // A missing entry of an existing profile is written whenever its
    // directory exists; otherwise the write's error is wrapped.
    ensures var dir := DesktopEntriesDir(h.env);
            var entry := Desktop.Path(dir, name);
            var cfg := ConfigInUse(h, codec, conf);
            entry !in h.fs && cfg.Success? && Profile.Read(h.fs, cfg.value.profileDir, name).Success? ==>
              && (r.result.Success? <==> DirectoryOfExists(h.fs, entry))
              && (!DirectoryOfExists(h.fs, entry) ==>
                    r.result == Failure(Wrap("Failed to create desktop entry for profile '%s'", [name],
                                             Desktop.Create(h.fs, dir, name, TryExec, ExecLine(name)).result.error)))
    ensures var dir := DesktopEntriesDir(h.env);
            var entry := Desktop.Path(dir, name);
            && (entry in h.fs ==> r.fs == h.fs && r.result.Failure?)
            && (entry in h.fs && !h.fs[entry].Inaccessible? ==>
                  r.result == Failure(Message("Desktop entry for profile '%s' already exists.", [name])))
            && (r.result.Success? ==>
                  && entry !in h.fs
                  && Profile.IsValidName(name)
                  && r.fs == h.fs[entry := File(Desktop.EntryText(name, TryExec, ExecLine(name)))])
            && (r.result.Success? && conf.Some? ==> Profile.Read(h.fs, conf.value.profileDir, name).Success?)
            && (r.result.Success? && conf.None? ==>
                  && ReadConfig(h, codec).Success?
                  && Profile.Read(h.fs, ReadConfig(h, codec).value.profileDir, name).Success?)
            && (r.result.Failure? ==> r.fs == h.fs)
  {
    var dir := DesktopEntriesDir(h.env);
    match Desktop.Exist(h.fs, dir, name)
    case Failure(err) => Effect(h.fs, Failure(err))
    case Success(exist) =>
      if exist then
        Effect(h.fs, Failure(Message("Desktop entry for profile '%s' already exists.", [name])))
      else
        var confResult := ConfigInUse(h, codec, conf);
        if confResult.Failure? then Effect(h.fs, Failure(confResult.error))
        else
          var prof := ReadProfile(h.fs, confResult.value.profileDir, name);
          if prof.Failure? then Effect(h.fs, Failure(prof.error))
          else
            var made := Desktop.Create(h.fs, dir, name, TryExec, ExecLine(name));
            if made.result.Failure? then
              Effect(made.fs, Failure(Wrap("Failed to create desktop entry for profile '%s'", [name], made.result.error)))
            else made
  }

  /** A desktop entry is only ever written for an existing profile, and it
      starts `manygram run` with that profile's name, which reads back
      intact from the file. */
  lemma CreatedEntryRunsTheProfile(h: Host, codec: Codec, conf: Option<Cfg.Config>, name: string)
    requires CreateDesktopEntry(h, codec, conf, name).result.Success?
    ensures var dir := DesktopEntriesDir(h.env);
            var fs1 := CreateDesktopEntry(h, codec, conf, name).fs;
            var text := ReadFile(fs1, Desktop.Path(dir, name));
            && text.Success?
            && Desktop.Parse(text.value) == Some(Desktop.EntryFields(name, "manygram", "manygram run " + name))
  {
    var fs1 := CreateDesktopEntry(h, codec, conf, name).fs;
    var entry := Desktop.Path(DesktopEntriesDir(h.env), name);
    assert fs1 == h.fs[entry := File(Desktop.EntryText(name, TryExec, ExecLine(name)))];
    EntryOfValidNameReadsBack(name);
  }

  /** The entry of a validly named profile reads back field for field. */
  lemma EntryOfValidNameReadsBack(name: string)
    requires Profile.IsValidName(name)
    ensures Desktop.Parse(Desktop.EntryText(name, TryExec, ExecLine(name)))
      == Some(Desktop.EntryFields(name, TryExec, ExecLine(name)))
  {
    Profile.ValidNameCharacterization(name);
    assert '\n' !in name;
    var e := ExecLine(name);
    assert '\n' !in e by {
      forall k | 0 <= k < |e| ensures e[k] != '\n' {
        if k >= 13 { assert e[k] == name[k - 13]; }
      }
    }
    Desktop.EntryRoundTrip(name, TryExec, e);
  }

  /** `removeDesktopEntry`. The name is not checked here. */
  function RemoveDesktopEntry(h: Host, name: string): (r: Effect<()>)
    ensures var entry := Desktop.Path(DesktopEntriesDir(h.env), name);
            && (entry !in h.fs ==>
                  r == Effect(h.fs, Failure(Message("Desktop entry for profile '%s' does not exist.", [name]))))
            && (entry in h.fs && h.fs[entry].Inaccessible? ==>
                  && r.fs == h.fs
                  && r.result == Failure(Wrap("Failed to remove desktop entry for profile '%s'.", [name],
                                              Stat(h.fs, entry).error)))
            && (entry in h.fs && !h.fs[entry].Inaccessible? ==>
                  && r.fs == RemoveAll(h.fs, entry).fs
                  && (r.result.Success? <==> forall i :: !Unreadable(h.fs, entry, i))
                  && (r.result.Failure? ==>
                        r.result == Failure(Wrap("Failed to remove desktop entry for profile '%s'.", [name],
                                                 RemoveAll(h.fs, entry).result.error))))
  {
    var removed := Desktop.Remove(h.fs, DesktopEntriesDir(h.env), name);
    if removed.result.Success? then removed
    else if Is(removed.result.error, ErrNotExist) then
      Effect(removed.fs, Failure(Message("Desktop entry for profile '%s' does not exist.", [name])))
    else
      Effect(removed.fs, Failure(Wrap("Failed to remove desktop entry for profile '%s'.", [name], removed.result.error)))
  }

  /** Creating an entry and removing it leaves the file system as it was,
      when the entry is a plain file name inside its directory. */
  lemma CreateThenRemoveDesktopEntry(h: Host, codec: Codec, conf: Option<Cfg.Config>, name: string)
    requires CreateDesktopEntry(h, codec, conf, name).result.Success?
    requires forall k :: k in h.fs ==> !Paths.IsWithin(k, Desktop.Path(DesktopEntriesDir(h.env), name))
    ensures var h1 := h.(fs := CreateDesktopEntry(h, codec, conf, name).fs);
            RemoveDesktopEntry(h1, name) == Effect(h.fs, Success(()))
  {
    var entry := Desktop.Path(DesktopEntriesDir(h.env), name);
    var fs1 := CreateDesktopEntry(h, codec, conf, name).fs;
    assert fs1 == h.fs[entry := File(Desktop.EntryText(name, TryExec, ExecLine(name)))];
    RemoveAllUndoesAdd(h.fs, entry, File(Desktop.EntryText(name, TryExec, ExecLine(name))));
  }

  // -----------------------------------------------------------------------
  // `manygram config create`

  /** The data directory `config create` settles on: the XDG one, unless
      Telegram Desktop is a snap, in which case the snap's own data
      directory, or `$HOME` when that is missing. */
  function CreateDataDir(h: Host, telegram: Result<Tg.TelegramDesktop, Error>): (d: string)
    ensures !(telegram.Success? && Tg.IsSnap(telegram.value)) ==> d == Xdg.DataHome(h.env)
    ensures telegram.Success? && Tg.IsSnap(telegram.value) && Tg.SnapDataHome(h).Success? ==>
      d == Getenv(h.env, "HOME") + "/" + Tg.SnapDataRel
    ensures telegram.Success? && Tg.IsSnap(telegram.value) && Tg.SnapDataHome(h).Failure? ==>
      d == Getenv(h.env, "HOME")
  {
    if telegram.Success? && Tg.IsSnap(telegram.value) then
      match Tg.SnapDataHome(h)
      case Success(snapHome) => snapHome
      case Failure(_) => Getenv(h.env, "HOME")
    else Xdg.DataHome(h.env)
  }

  /** With an absolute `$HOME` the data directory is absolute, and for a
      snap it lies within `$HOME`. */
  lemma CreateDataDirIsAbsolute(h: Host, telegram: Result<Tg.TelegramDesktop, Error>)
    ensures Paths.IsAbs(Getenv(h.env, "HOME")) ==> Paths.IsAbs(CreateDataDir(h, telegram))
    ensures telegram.Success? && Tg.IsSnap(telegram.value) ==>
      Paths.IsWithin(CreateDataDir(h, telegram), Getenv(h.env, "HOME"))
  {
    var home := Getenv(h.env, "HOME");
    var d := CreateDataDir(h, telegram);
    if telegram.Success? && Tg.IsSnap(telegram.value) {
      Tg.SnapDataHomeBelowHome(h);
      if Paths.IsAbs(home) && d != home {
        assert d[..|home| + 1] == home + "/";
        assert d[0] == home[0];
      }
    } else if Paths.IsAbs(home) {
      Xdg.DirectoryIsAbsolute(h.env, "XDG_DATA_HOME", "/.local/share");
    }
  }

  /** The configuration `config create` writes to `path`. */
  function DefaultConfig(h: Host, path: string): Cfg.Config {
    var dataDir := CreateDataDir(h, Tg.Executable(h, Tg.DefaultPath, []));
    Cfg.Config(path, Tg.DefaultPath, DefaultProfileDir(dataDir))
  }

  /** The lines `config create` prints before writing. */
  function CreateReport(h: Host, path: string, exist: bool): seq<Message> {
    var telegram := Tg.Executable(h, Tg.DefaultPath, []);
    var opening :=
      if !exist then Line("Config %s is not found. Creating a new one.", [path])
      else Line("Config %s has been found. Recreating.", [path]);
    var found :=
      if telegram.Failure? then Line("Telegram Desktop executable not found.", [])
      else Line("Telegram Desktop executable: %s -> %s", [telegram.value.path, telegram.value.fullPath]);
    var snap :=
      if telegram.Success? && Tg.IsSnap(telegram.value) then
        [Line("Telegram Desktop seems installed via snap.", [])]
        + (if Tg.SnapDataHome(h).Failure? then
             [Line("Cannot find snap data directory, use fallback data location.", [])]
           else [])
      else [];
    [opening, found] + snap + [Line("Profile directory: %s", [DefaultConfig(h, path).profileDir])]
  }

  /** `configCreateCmd.Execute`: an existing configuration is only
      replaced when forced; the new one names the default executable and a
      profile directory under the data directory chosen above. */
  function ConfigCreate(h: Host, codec: Codec, force: bool): (r: Outcome<()>)
    ensures var path := ConfigPath(h.env);
            && (path in h.fs && h.fs[path].Inaccessible? ==>
                  r == Outcome(h.fs, [], Failure(Stat(h.fs, path).error)))
            && (path in h.fs && !h.fs[path].Inaccessible? && !force ==>
                  r == Outcome(h.fs, [], Failure(Message("Config %s already exists.", [path]))))
            && ((path !in h.fs || (force && !h.fs[path].Inaccessible?)) ==>
                  var written := Cfg.Write(h.fs, DefaultConfig(h, path), codec.encode);
                  && r.fs == written.fs
                  && (r.result.Success? <==> written.result.Success?)
                  && (written.result.Failure? ==>
                        r.result == Failure(Wrap("Failed to write config.", [], written.result.error))))
    ensures r.result.Success? ==>
      var conf := DefaultConfig(h, ConfigPath(h.env));
      ReadFile(r.fs, ConfigPath(h.env)) == Success(codec.encode(conf.execPath, conf.profileDir))
  {
    var path := ConfigPath(h.env);
    match Cfg.Exist(h.fs, path)
    case Failure(err) => Outcome(h.fs, [], Failure(err))
    case Success(exist) =>
      if exist && !force then
        Outcome(h.fs, [], Failure(Message("Config %s already exists.", [path])))
      else
        var out := CreateReport(h, path, exist);
        var written := Cfg.Write(h.fs, DefaultConfig(h, path), codec.encode);
        if written.result.Failure? then
          Outcome(written.fs, out, Failure(Wrap("Failed to write config.", [], written.result.error)))
        else
          Outcome(written.fs, out + [Line("Done.", [])], Success(()))
  }

  /** `config create` succeeds on a fresh system, or when forced over a
      regular file, whenever everything on the way to the configuration
      directory is a directory. */
  lemma ConfigCreateSucceeds(h: Host, codec: Codec, force: bool)
    ensures var path := ConfigPath(h.env);
            (path !in h.fs || (force && h.fs[path].File?))
            && AncestorsAreDirs(h.fs, Paths.Dir(path))
            ==> ConfigCreate(h, codec, force).result.Success?
  {
    var path := ConfigPath(h.env);
    if (path !in h.fs || (force && h.fs[path].File?)) && AncestorsAreDirs(h.fs, Paths.Dir(path)) {
      ConfigDirIsShorter(h.env);
      Cfg.WriteSucceeds(h.fs, DefaultConfig(h, path), codec.encode);
      assert Cfg.Write(h.fs, DefaultConfig(h, path), codec.encode).result.Success?;
    }
  }

  lemma ConfigPathIsChild(env: map<string, string>)
    ensures ConfigPath(env) == Paths.Child(Paths.Child(Paths.Clean(Xdg.ConfigHome(env)), "manygram"), "config.toml")
  {
    Paths.JoinThree(Xdg.ConfigHome(env), "manygram", "config.toml");
  }

  lemma ConfigDirIsShorter(env: map<string, string>)
    ensures |Paths.Dir(ConfigPath(env))| < |ConfigPath(env)|
  {
    var home := Xdg.ConfigHome(env);
    var dir := Paths.Child(Paths.Clean(home), "manygram");
    ConfigPathIsBelowConfigHome(env);
    ConfigPathIsChild(env);
    Paths.ChildIsLonger(Paths.Clean(home), "manygram");
    Paths.ChildIsLonger(dir, "config.toml");
  }

  /** After a successful `config create`, reading the configuration gives
      the default executable and the chosen profile directory back, given
      a decoder that inverts the encoder and a profile directory without
      surrounding white space. */
  lemma ConfigCreateThenRead(h: Host, codec: Codec, force: bool)
    requires ConfigCreate(h, codec, force).result.Success?
    requires var profileDir := DefaultConfig(h, ConfigPath(h.env)).profileDir;
             && codec.decode(codec.encode(Tg.DefaultPath, profileDir))
                  == Success(Cfg.Document(Some(Tg.DefaultPath), Some(profileDir)))
             && TrimSpace(profileDir) == profileDir
    ensures ReadConfig(h.(fs := ConfigCreate(h, codec, force).fs), codec)
              == Success(DefaultConfig(h, ConfigPath(h.env)))
  {
    var path := ConfigPath(h.env);
    var conf := DefaultConfig(h, path);
    var dataDir := CreateDataDir(h, Tg.Executable(h, Tg.DefaultPath, []));
    DefaultProfileDirIsBelowDataDir(dataDir);
    assert conf.profileDir != "";
    DefaultPathIsTrimmed();
    Cfg.WriteThenRead(h.fs, conf, codec.encode, codec.decode);
  }

  lemma DefaultPathIsTrimmed()
    ensures TrimSpace(Tg.DefaultPath) == Tg.DefaultPath
  {
    TrimSpacePadded("", Tg.DefaultPath, "");
    assert "" + Tg.DefaultPath + "" == Tg.DefaultPath;
  }

  // -----------------------------------------------------------------------
  // `manygram config check`

  /** The executable as the user named it, then the full path when that
      differs, then the resolved path when that differs from the full one. */
  function ExecChain(t: Tg.TelegramDesktop): (chain: seq<string>)
    ensures 1 <= |chain| <= 3
    ensures chain[0] == t.path && chain[|chain| - 1] == t.realPath
    ensures forall i :: 0 <= i < |chain| - 1 ==> chain[i] != chain[i + 1]
    ensures t.fullPath in chain
  {
    [t.path]
    + (if t.fullPath != t.path then [t.fullPath] else [])
    + (if t.realPath != t.fullPath then [t.realPath] else [])
  }

  /** A sequence with each run of equal neighbours collapsed to one. */
  function CollapseRepeats(s: seq<string>): seq<string> {
    if |s| <= 1 then s
    else if s[0] == s[1] then CollapseRepeats(s[1..])
    else [s[0]] + CollapseRepeats(s[1..])
  }

  /** The chain is the three paths with repeated neighbours shown once: in
      particular it is the name alone exactly when all three agree, and a
      resolved path equal to the name but not to the full path is shown
      again. */
  lemma ExecChainCollapsesRepeats(t: Tg.TelegramDesktop)
    ensures ExecChain(t) == CollapseRepeats([t.path, t.fullPath, t.realPath])
    ensures |ExecChain(t)| == 1 <==> t.path == t.fullPath == t.realPath
  {
    var s := [t.path, t.fullPath, t.realPath];
    var tail := [t.fullPath, t.realPath];
    assert s[1..] == tail;
    assert tail[1..] == [t.realPath];
    assert CollapseRepeats([t.realPath]) == [t.realPath];
    assert CollapseRepeats(tail) == (if t.fullPath == t.realPath then [t.realPath] else [t.fullPath, t.realPath]);
  }

  /** The chain `config check` prints for an executable it finds is the
      name, what the `PATH` search found, and what symbolic-link
      resolution gave, with repeated neighbours shown once. */
  lemma ExecChainOfExecutable(h: Host, name: string)
    requires Tg.Executable(h, name, []).Success?
    ensures var full := LookPath(h, name).value;
            ExecChain(Tg.Executable(h, name, []).value)
              == CollapseRepeats([name, full, EvalSymlinks(h, full).value])
  {
    ExecChainCollapsesRepeats(Tg.Executable(h, name, []).value);
  }

  /** What `config check` does once the configuration is read: the
      executable is looked up with no fixed arguments, then the profile
      directory inspected; a missing profile directory passes. */
  function CheckConfig(h: Host, conf: Cfg.Config): (r: Outcome<()>)
    ensures r.fs == h.fs
    ensures r.result.Success? <==>
      Tg.Executable(h, conf.execPath, []).Success? && Profile.IsProfileDirExist(h.fs, conf.profileDir).Success?
    ensures Tg.Executable(h, conf.execPath, []).Failure? ==>
      r == Outcome(h.fs, [], Failure(Wrap("Check error: `exec-path`", [], Tg.Executable(h, conf.execPath, []).error)))
    ensures Tg.Executable(h, conf.execPath, []).Success? && Profile.IsProfileDirExist(h.fs, conf.profileDir).Failure? ==>
      r.result == Failure(Wrap("Check error: `profile-dir`", [], Profile.IsProfileDirExist(h.fs, conf.profileDir).error))
    ensures r.result.Success? ==>
      && Line("Telegram Desktop executable: %s", [Join(ExecChain(Tg.Executable(h, conf.execPath, []).value), " -> ")]) in r.out
      && (Line("Profile directory does not exist.", []) in r.out <==>
          Profile.IsProfileDirExist(h.fs, conf.profileDir) == Success(false))
  {
    match Tg.Executable(h, conf.execPath, [])
    case Failure(err) => Outcome(h.fs, [], Failure(Wrap("Check error: `exec-path`", [], err)))
    case Success(telegram) =>
      var chain := [Line("Telegram Desktop executable: %s", [Join(ExecChain(telegram), " -> ")])];
      match Profile.IsProfileDirExist(h.fs, conf.profileDir)
      case Failure(err) => Outcome(h.fs, chain, Failure(Wrap("Check error: `profile-dir`", [], err)))
      case Success(exist) =>
        var note := if !exist then [Line("Profile directory does not exist.", [])] else [];
        var out := chain + [Line("Profile directory: %s", [conf.profileDir])] + note + [Line("OK. Check passed.", [])];
        assert out[0] == chain[0];
        assert note != [] ==> out[2] == note[0];
        Outcome(h.fs, out, Success(()))
  }

  /** `configCheckCmd.Execute`. */
  function ConfigCheck(h: Host, codec: Codec): (r: Outcome<()>)
    ensures ReadConfig(h, codec).Failure? ==> r == Outcome(h.fs, [], Failure(ReadConfig(h, codec).error))
    ensures ReadConfig(h, codec).Success? ==>
      var checked := CheckConfig(h, ReadConfig(h, codec).value);
      && r.fs == h.fs && r.result == checked.result
      && r.out == [Line("Config %s found. Checking.", [ConfigPath(h.env)])] + checked.out
  {
    match ReadConfig(h, codec)
    case Failure(err) => Outcome(h.fs, [], Failure(err))
    case Success(conf) =>
      var checked := CheckConfig(h, conf);
      Outcome(h.fs, [Line("Config %s found. Checking.", [ConfigPath(h.env)])] + checked.out, checked.result)
  }

  /** A configuration `config create` wrote passes `config check` when
      Telegram Desktop can be found and the profile directory is not a
      file. */
  lemma CreatedConfigPassesCheck(h: Host, codec: Codec, force: bool)
    requires ConfigCreate(h, codec, force).result.Success?
    requires var profileDir := DefaultConfig(h, ConfigPath(h.env)).profileDir;
             && codec.decode(codec.encode(Tg.DefaultPath, profileDir))
                  == Success(Cfg.Document(Some(Tg.DefaultPath), Some(profileDir)))
             && TrimSpace(profileDir) == profileDir
    requires Tg.Executable(h, Tg.DefaultPath, []).Success?
    requires var profileDir := DefaultConfig(h, ConfigPath(h.env)).profileDir;
             var fs1 := ConfigCreate(h, codec, force).fs;
             profileDir !in fs1 || fs1[profileDir] == Dir
    ensures ConfigCheck(h.(fs := ConfigCreate(h, codec, force).fs), codec).result.Success?
  {
    var conf := DefaultConfig(h, ConfigPath(h.env));
    var h1 := h.(fs := ConfigCreate(h, codec, force).fs);
    ConfigCreateThenRead(h, codec, force);
    assert Tg.Executable(h1, conf.execPath, []) == Tg.Executable(h, Tg.DefaultPath, []);
    DefaultProfileDirIsBelowDataDir(CreateDataDir(h, Tg.Executable(h, Tg.DefaultPath, [])));
    ProfileDirUsable(h1.fs, conf.profileDir);
    CheckPasses(h1, codec, conf);
  }

  /** A profile directory setting without surrounding white space that
      names a directory or nothing at all passes its check. */
  lemma ProfileDirUsable(fs: FS, dir: string)
    requires dir != "" && TrimSpace(dir) == dir
    requires dir !in fs || fs[dir] == Dir
    ensures Profile.IsProfileDirExist(fs, dir).Success?
  {
  }

  /** `config check` passes once the configuration reads, the executable
      is found and the profile directory check passes. */
  lemma CheckPasses(h: Host, codec: Codec, conf: Cfg.Config)
    requires ReadConfig(h, codec) == Success(conf)
    requires Tg.Executable(h, conf.execPath, []).Success?
    requires Profile.IsProfileDirExist(h.fs, conf.profileDir).Success?
    ensures ConfigCheck(h, codec).result.Success?
  {
  }

  /** A profile directory that does not exist yet passes the check, with a
      note saying so; only a blank setting or a file in its place fails. */
  lemma MissingProfileDirPasses(h: Host, codec: Codec)
    requires ReadConfig(h, codec).Success?
    requires Tg.Executable(h, ReadConfig(h, codec).value.execPath, []).Success?
    requires var dir := ReadConfig(h, codec).value.profileDir;
             !AllSpace(dir) && TrimSpace(dir) !in h.fs
    ensures ConfigCheck(h, codec).result.Success?
    ensures Line("Profile directory does not exist.", []) in ConfigCheck(h, codec).out
  {
  }
}
