/** What the program asks of the machine besides the file system: the
    environment, the `PATH` search of `exec.LookPath`, symbolic link
    resolution, and the exit status of the helper commands it starts.
    Each is a table fixed for one run of the program. */
module Host {
  import opened Wrappers
  import opened Errors
  import FileSystem

  datatype Host = Host(
    fs: FileSystem.FS,
    env: map<string, string>,
    /** The full path `exec.LookPath` finds for a name. */
    onPath: map<string, string>,
    /** The target `filepath.EvalSymlinks` resolves a path to. */
    links: map<string, string>,
    /** The argument vectors of the commands that exit with status zero. */
    succeeding: set<seq<string>>
  )

  /** `os.Getenv`: an unset variable reads as empty. */
  function Getenv(env: map<string, string>, name: string): (r: string)
    ensures name in env ==> r == env[name]
    ensures name !in env ==> r == ""
  {
    if name in env then env[name] else ""
  }

  /** `exec.LookPath`. */
  function LookPath(h: Host, name: string): (r: Result<string, Error>)
    ensures r.Success? <==> name in h.onPath
    ensures r.Success? ==> r.value == h.onPath[name]
    ensures r.Failure? ==> Is(r.error, ErrExecNotFound)
  {
    if name in h.onPath then Success(h.onPath[name]) else Failure(ExecError(name))
  }

  /** `filepath.EvalSymlinks`. */
  function EvalSymlinks(h: Host, p: string): (r: Result<string, Error>)
    ensures r.Success? <==> p in h.links
    ensures r.Success? ==> r.value == h.links[p]
    ensures r.Failure? ==> Is(r.error, ErrNotExist)
  {
    if p in h.links then Success(h.links[p]) else Failure(PathError("lstat", p, ENOENT))
  }

  /** `exec.Command(argv[0], argv[1:]...).Run() == nil`. */
  predicate Succeeds(h: Host, argv: seq<string>) {
    argv in h.succeeding
  }
}
