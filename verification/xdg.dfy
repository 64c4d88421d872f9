/** Base directories of the XDG Base Directory Specification, as the
    program resolves them: a variable that holds an absolute path wins,
    anything else falls back to a location under `$HOME`. */
module Xdg {
  import opened Host
  import Paths

  /** `xdg.getXDGDirectory`. The fallback is given without its leading
      `$HOME`, which `os.ExpandEnv` replaces with the variable's value. */
  function Directory(env: map<string, string>, name: string, homeRelative: string): (r: string)
    ensures name in env && env[name] != "" && Paths.IsAbs(env[name]) ==> r == env[name]
    ensures !(name in env && env[name] != "" && Paths.IsAbs(env[name])) ==>
      r == Getenv(env, "HOME") + homeRelative
  {
    var fromEnv := Getenv(env, name);
    if fromEnv != "" && Paths.IsAbs(fromEnv) then fromEnv
    else Getenv(env, "HOME") + homeRelative
  }

  /** `xdg.GetConfigHome`. */
  function ConfigHome(env: map<string, string>): string {
    Directory(env, "XDG_CONFIG_HOME", "/.config")
  }

  /** `xdg.GetDataHome`, which resolves `XDG_DATA_HOME` the same way with
      the fallback `$HOME/.local/share`. */
  function DataHome(env: map<string, string>): string {
    Directory(env, "XDG_DATA_HOME", "/.local/share")
  }

  /** With an absolute `$HOME` a base directory is always absolute, whatever
      the variable holds. */
  lemma DirectoryIsAbsolute(env: map<string, string>, name: string, homeRelative: string)
    requires Paths.IsAbs(Getenv(env, "HOME"))
    ensures Paths.IsAbs(Directory(env, name, homeRelative))
  {
    var home := Getenv(env, "HOME");
    assert (home + homeRelative)[0] == home[0];
  }

  /** Unset, empty and relative values all give the fallback; an absolute
      value is taken verbatim. */
  lemma ConfigHomeCases(env: map<string, string>)
    ensures "XDG_CONFIG_HOME" !in env ==> ConfigHome(env) == Getenv(env, "HOME") + "/.config"
    ensures ConfigHome(env["XDG_CONFIG_HOME" := ""]) == Getenv(env, "HOME") + "/.config"
    ensures ConfigHome(env["XDG_CONFIG_HOME" := "not/allowed"]) == Getenv(env, "HOME") + "/.config"
    ensures ConfigHome(env["XDG_CONFIG_HOME" := "/some/path"]) == "/some/path"
  {
  }

  lemma DataHomeCases(env: map<string, string>)
    ensures "XDG_DATA_HOME" !in env ==> DataHome(env) == Getenv(env, "HOME") + "/.local/share"
    ensures DataHome(env["XDG_DATA_HOME" := ""]) == Getenv(env, "HOME") + "/.local/share"
    ensures DataHome(env["XDG_DATA_HOME" := "not/allowed"]) == Getenv(env, "HOME") + "/.local/share"
    ensures DataHome(env["XDG_DATA_HOME" := "/some/path"]) == "/some/path"
  {
  }
}
