/** Telegram Desktop as the program finds and starts it: an executable
    looked up on `PATH`, its symbolic links resolved, with the fixed
    arguments it is always started with; or the Flatpak application. */
module Tg {
  import opened Wrappers
  import opened Errors
  import opened Strings
  import opened Host
  import FileSystem
  import Paths

  /** The executable name looked up when the configuration names none. */
  const DefaultPath := "telegram-desktop"
  const FlatpakExecName := "flatpak"
  const FlatpakAppId := "org.telegram.desktop"
  /** Where the snap and the Flatpak keep their data, relative to `$HOME`. */
  const SnapDataRel := "snap/telegram-desktop/current/.local/share"
  const FlatpakDataRel := ".var/app/" + FlatpakAppId + "/data"

  datatype TelegramDesktop = TelegramDesktop(
    path: string,        // as given
    fullPath: string,    // as found on PATH
    realPath: string,    // with symbolic links resolved
    args: seq<string>)   // always passed first

  /** `tg.Executable`. */
  function Executable(h: Host, path: string, args: seq<string>): (r: Result<TelegramDesktop, Error>)
    ensures r.Success? <==> path in h.onPath && h.onPath[path] in h.links
    ensures r.Success? ==>
      r.value == TelegramDesktop(path, h.onPath[path], h.links[h.onPath[path]], args)
    ensures path !in h.onPath ==> r.Failure? && Is(r.error, ErrExecNotFound)
    ensures path in h.onPath && h.onPath[path] !in h.links ==>
      r.Failure? && Is(r.error, ErrNotExist) && !Is(r.error, ErrExecNotFound)
  {
    var fullPath :- LookPath(h, path);
    var realPath :- EvalSymlinks(h, fullPath);
    Success(TelegramDesktop(path, fullPath, realPath, args))
  }

  /** The fixed arguments play no part in finding the executable: with
      other arguments the same lookup succeeds or fails alike and finds the
      same paths. */
  lemma ExecutableIgnoresArgs(h: Host, path: string, a: seq<string>, b: seq<string>)
    ensures Executable(h, path, a).Success? <==> Executable(h, path, b).Success?
    ensures Executable(h, path, a).Success? ==>
      Executable(h, path, a).value.(args := b) == Executable(h, path, b).value
    ensures Executable(h, path, a).Failure? ==> Executable(h, path, a).error == Executable(h, path, b).error
  {
  }

  // -----------------------------------------------------------------------
  // Starting the program

  /** The process `Run` starts: the executable as given, its arguments, and
      whether the caller waits for it with its output attached. */
  datatype Command = Command(name: string, argv: seq<string>, wait: bool)

  /** `n` empty strings. */
  function Blanks(n: nat): seq<string> {
    seq(n, _ => "")
  }

  /** The argument vector `Run` builds, as written: the slice is made with
      length (not capacity) `len(Args)+len(extraArgs)+3`, so the fixed
      arguments are followed by that many empty strings minus `len(Args)`
      before `-many -workdir <profile>` and the extra arguments are appended. */
  function RunArgs(t: TelegramDesktop, profilePath: string, extraArgs: seq<string>): seq<string> {
    var made := t.args + Blanks(|extraArgs| + 3);
    made + ["-many", "-workdir", profilePath] + extraArgs
  }

  /** `(*TelegramDesktop).Run`, as written. */
  function Run(t: TelegramDesktop, profilePath: string, extraArgs: seq<string>, wait: bool): (c: Command)
    ensures c.name == t.path && c.wait == wait
    ensures |c.argv| == |t.args| + 2 * |extraArgs| + 6
    ensures c.argv[..|t.args|] == t.args
    ensures forall i :: |t.args| <= i < |t.args| + |extraArgs| + 3 ==> c.argv[i] == ""
    ensures c.argv[|t.args| + |extraArgs| + 3..] == ["-many", "-workdir", profilePath] + extraArgs
  {
    var argv := RunArgs(t, profilePath, extraArgs);
    assert argv == t.args + (Blanks(|extraArgs| + 3) + (["-many", "-workdir", profilePath] + extraArgs));
    Command(t.path, argv, wait)
  }

  /** The argument vector `Run` is evidently meant to build: the fixed
      arguments, the profile switches, then the extra arguments. */
  function IntendedRunArgs(t: TelegramDesktop, profilePath: string, extraArgs: seq<string>): seq<string> {
    t.args + ["-many", "-workdir", profilePath] + extraArgs
  }

  /** `(*TelegramDesktop).Run` with the slice made with capacity, not length. */
  function IntendedRun(t: TelegramDesktop, profilePath: string, extraArgs: seq<string>, wait: bool): (c: Command)
    ensures c.name == t.path && c.wait == wait
    ensures |c.argv| == |t.args| + |extraArgs| + 3
    ensures c.argv[..|t.args|] == t.args
    ensures c.argv[|t.args|..|t.args| + 3] == ["-many", "-workdir", profilePath]
    ensures c.argv[|t.args| + 3..] == extraArgs
    ensures forall i :: 0 <= i < |c.argv| && c.argv[i] == "" ==>
      (i < |t.args| && t.args[i] == "") || (i == |t.args| + 2 && profilePath == "")
      || (|t.args| + 3 <= i && extraArgs[i - |t.args| - 3] == "")
  {
    var argv := IntendedRunArgs(t, profilePath, extraArgs);
    assert argv == t.args + (["-many", "-workdir", profilePath] + extraArgs);
    Command(t.path, argv, wait)
  }

  /** The arguments as written are the intended ones with `|extraArgs| + 3`
      empty strings inserted after the fixed arguments. */
  lemma RunInsertsBlanks(t: TelegramDesktop, profilePath: string, extraArgs: seq<string>)
    ensures var intended := IntendedRunArgs(t, profilePath, extraArgs);
            RunArgs(t, profilePath, extraArgs) ==
              intended[..|t.args|] + Blanks(|extraArgs| + 3) + intended[|t.args|..]
  {
    var m := ["-many", "-workdir", profilePath] + extraArgs;
    var b := Blanks(|extraArgs| + 3);
    var intended := IntendedRunArgs(t, profilePath, extraArgs);
    assert intended == t.args + m;
    assert intended[..|t.args|] == t.args;
    assert intended[|t.args|..] == m;
    assert RunArgs(t, profilePath, extraArgs) == t.args + b + m;
  }

  /** The smallest input that shows it: no fixed and no extra arguments
      still gives Telegram Desktop three empty arguments. */
  lemma RunPassesEmptyArguments()
    ensures Run(TelegramDesktop("telegram-desktop", "/usr/bin/telegram-desktop",
                                "/usr/bin/telegram-desktop", []), "/p", [], true).argv
            == ["", "", "", "-many", "-workdir", "/p"]
    ensures IntendedRun(TelegramDesktop("telegram-desktop", "/usr/bin/telegram-desktop",
                                        "/usr/bin/telegram-desktop", []), "/p", [], true).argv
            == ["-many", "-workdir", "/p"]
  {
    assert Blanks(3) == ["", "", ""];
  }

  // -----------------------------------------------------------------------
  // Snap and Flatpak

  /** `(*TelegramDesktop).IsSnap`: the resolved executable is called `snap`. */
  predicate IsSnap(t: TelegramDesktop) {
    Paths.Base(t.realPath) == "snap"
  }

  /** A resolved path names the snap launcher exactly when, trailing slashes
      ignored, it is `snap` or ends in `/snap`. */
  lemma IsSnapCharacterization(t: TelegramDesktop)
    ensures IsSnap(t) <==>
      var s := Paths.TrimTrailingSlashes(t.realPath);
      s == "snap" || HasSuffix(s, "/snap")
  {
    var s := Paths.TrimTrailingSlashes(t.realPath);
    if '/' in s {
      LastElementIsSnap(s);
      assert s != "snap" by { assert "snap"[0] != '/'; assert "snap"[1] != '/'; }
    } else {
      NoSlashNoSuffix(s);
    }
  }

  /** A string without a slash cannot end in `/snap`. */
  lemma NoSlashNoSuffix(s: string)
    requires '/' !in s
    ensures !HasSuffix(s, "/snap")
  {
    if |s| >= 5 {
      assert s[|s| - 5..][0] == s[|s| - 5];
    }
  }

  /** Past the last slash of `s` is `snap` exactly when `s` ends in `/snap`. */
  lemma LastElementIsSnap(s: string)
    requires '/' in s
    ensures s[Paths.LastIndexOf(s, '/') + 1..] == "snap" <==> HasSuffix(s, "/snap")
  {
    if HasSuffix(s, "/snap") {
      SuffixIsLastElement(s);
    }
    if s[Paths.LastIndexOf(s, '/') + 1..] == "snap" {
      LastElementIsSuffix(s);
    }
  }

  lemma SuffixIsLastElement(s: string)
    requires HasSuffix(s, "/snap")
    ensures '/' in s && s[Paths.LastIndexOf(s, '/') + 1..] == "snap"
  {
    var j := |s| - 5;
    var tail := s[j..];
    assert tail == "/snap";
    assert s[j] == tail[0];
    forall k | j < k < |s| ensures s[k] != '/' {
      assert s[k] == tail[k - j];
    }
    LastSlashAt(s, j);
    assert s[j + 1..] == tail[1..];
  }

  lemma LastElementIsSuffix(s: string)
    requires '/' in s && s[Paths.LastIndexOf(s, '/') + 1..] == "snap"
    ensures HasSuffix(s, "/snap")
  {
    var i := Paths.LastIndexOf(s, '/');
    assert i == |s| - 5;
    assert s[i..] == [s[i]] + s[i + 1..];
  }

  /** A slash with none after it is the last slash. */
  lemma LastSlashAt(s: string, j: nat)
    requires j < |s| && s[j] == '/'
    requires forall k :: j < k < |s| ==> s[k] != '/'
    ensures Paths.LastIndexOf(s, '/') == j
  {
  }

  /** `tg.GetSnapDataHome`. */
  function SnapDataHome(h: Host): (r: Result<string, Error>)
    ensures var d := Getenv(h.env, "HOME") + "/" + SnapDataRel;
            && (r.Success? <==> d in h.fs && !h.fs[d].Inaccessible?)
            && (r.Success? ==> r.value == d)
            && (r.Failure? ==> r.error == FileSystem.Stat(h.fs, d).error)
  {
    var d := Getenv(h.env, "HOME") + "/" + SnapDataRel;
    var _ :- FileSystem.Stat(h.fs, d);
    Success(d)
  }

  /** `tg.GetFlatpakDataHome`. */
  function FlatpakDataHome(h: Host): (r: Result<string, Error>)
    ensures var d := Getenv(h.env, "HOME") + "/" + FlatpakDataRel;
            && (r.Success? <==> d in h.fs && !h.fs[d].Inaccessible?)
            && (r.Success? ==> r.value == d)
            && (r.Failure? ==> r.error == FileSystem.Stat(h.fs, d).error)
  {
    var d := Getenv(h.env, "HOME") + "/" + FlatpakDataRel;
    var _ :- FileSystem.Stat(h.fs, d);
    Success(d)
  }

  /** The snap data home, when found, is an existing entry beneath
      `$HOME`, and so absolute whenever `$HOME` is; it is missing exactly
      when that entry does not exist. */
  lemma SnapDataHomeBelowHome(h: Host)
    ensures SnapDataHome(h).Success? ==>
      && Paths.IsWithin(SnapDataHome(h).value, Getenv(h.env, "HOME"))
      && FileSystem.Exist(h.fs, SnapDataHome(h).value) == Success(true)
    ensures SnapDataHome(h).Failure? <==>
      FileSystem.Exist(h.fs, Getenv(h.env, "HOME") + "/" + SnapDataRel) != Success(true)
  {
    BelowHome(Getenv(h.env, "HOME"), SnapDataRel);
  }

  /** Likewise the Flatpak data home. */
  lemma FlatpakDataHomeBelowHome(h: Host)
    ensures FlatpakDataHome(h).Success? ==>
      && Paths.IsWithin(FlatpakDataHome(h).value, Getenv(h.env, "HOME"))
      && FileSystem.Exist(h.fs, FlatpakDataHome(h).value) == Success(true)
    ensures FlatpakDataHome(h).Failure? <==>
      FileSystem.Exist(h.fs, Getenv(h.env, "HOME") + "/" + FlatpakDataRel) != Success(true)
  {
    BelowHome(Getenv(h.env, "HOME"), FlatpakDataRel);
  }

  lemma BelowHome(home: string, rel: string)
    ensures Paths.IsWithin(home + "/" + rel, home)
  {
    assert (home + "/" + rel)[..|home| + 1] == home + "/";
  }

  /** The command that asks `flatpak` whether the application is installed
      for the user (`--user`) or system-wide. */
  function FlatpakProbe(exe: string, user: bool): seq<string> {
    [exe] + (if user then ["--user"] else []) + ["info", FlatpakAppId]
  }

  /** `tg.Flatpak`: the per-user installation is probed before the
      system-wide one, and whichever answers is started through `flatpak run`. */
  function Flatpak(h: Host): (r: Result<TelegramDesktop, Error>)
    ensures FlatpakExecName !in h.onPath ==> r == Failure(Plain("flatpak executable not found"))
    ensures FlatpakExecName in h.onPath
            && !Succeeds(h, FlatpakProbe(h.onPath[FlatpakExecName], true))
            && !Succeeds(h, FlatpakProbe(h.onPath[FlatpakExecName], false)) ==>
      r == Failure(Plain(FlatpakAppId + " flatpak app not found"))
    ensures r.Success? <==>
      && FlatpakExecName in h.onPath
      && h.onPath[FlatpakExecName] in h.links
      && (Succeeds(h, FlatpakProbe(h.onPath[FlatpakExecName], true))
          || Succeeds(h, FlatpakProbe(h.onPath[FlatpakExecName], false)))
    ensures r.Success? ==>
      && r.value.path == FlatpakExecName
      && r.value.fullPath == h.onPath[FlatpakExecName]
      && r.value.realPath == h.links[h.onPath[FlatpakExecName]]
      && |r.value.args| >= 2 && r.value.args[0] == "run" && r.value.args[|r.value.args| - 1] == FlatpakAppId
      && (r.value.args == ["run", "--user", FlatpakAppId] <==>
            Succeeds(h, FlatpakProbe(h.onPath[FlatpakExecName], true)))
      && (r.value.args == ["run", FlatpakAppId] <==>
            !Succeeds(h, FlatpakProbe(h.onPath[FlatpakExecName], true)))
    ensures FlatpakExecName in h.onPath && h.onPath[FlatpakExecName] !in h.links
            && (Succeeds(h, FlatpakProbe(h.onPath[FlatpakExecName], true))
                || Succeeds(h, FlatpakProbe(h.onPath[FlatpakExecName], false))) ==>
      r.Failure? && Is(r.error, ErrNotExist)
  {
    match LookPath(h, FlatpakExecName)
    case Failure(_) => Failure(Plain("flatpak executable not found"))
    case Success(exe) =>
      if Succeeds(h, FlatpakProbe(exe, true)) then
        Executable(h, FlatpakExecName, ["run", "--user", FlatpakAppId])
      else if Succeeds(h, FlatpakProbe(exe, false)) then
        Executable(h, FlatpakExecName, ["run", FlatpakAppId])
      else
        Failure(Plain(FlatpakAppId + " flatpak app not found"))
  }

  /** Started, the Flatpak result runs `flatpak run [--user]
      org.telegram.desktop`; as written, `Run` then hands the application
      `len(extraArgs)+3` empty arguments before the profile switches. */
  lemma FlatpakRunsTheApp(h: Host, profilePath: string, extraArgs: seq<string>, wait: bool)
    requires Flatpak(h).Success?
    ensures var t := Flatpak(h).value;
            var c := Run(t, profilePath, extraArgs, wait);
            && c.name == "flatpak"
            && c.argv[0] == "run" && c.argv[|t.args| - 1] == "org.telegram.desktop"
            && (forall i :: |t.args| <= i < |t.args| + |extraArgs| + 3 ==> c.argv[i] == "")
            && IntendedRun(t, profilePath, extraArgs, wait).argv[..|t.args| + 3]
                 == t.args + ["-many", "-workdir", profilePath]
  {
    var t := Flatpak(h).value;
    var c := Run(t, profilePath, extraArgs, wait);
    assert c.argv[..|t.args|] == t.args;
    assert c.argv[0] == c.argv[..|t.args|][0];
    assert c.argv[|t.args| - 1] == c.argv[..|t.args|][|t.args| - 1];
    var d := IntendedRun(t, profilePath, extraArgs, wait);
    assert d.argv[..|t.args| + 3] == d.argv[..|t.args|] + d.argv[|t.args|..|t.args| + 3];
  }
}
