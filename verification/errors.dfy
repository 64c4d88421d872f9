/** Go error values as the program produces and inspects them, and the
    wrapping error type of the command-line layer (`cli.Error`): a message
    with an optional cause. `errors.Is` is `Is`, `Error()` is `Text`.

    Message formatting (`fmt.Sprintf`) is not interpreted: a wrapped error
    keeps its format string and arguments, and the text of a message is
    whatever the `render` parameter makes of it. */
module Errors {
  import opened Wrappers

  /** The system error numbers the modelled file operations report. */
  datatype Errno = ENOENT | EACCES | ENOTDIR | EISDIR

  /** The sentinel errors the program asks `errors.Is` about. */
  datatype Sentinel =
    | ErrNotExist       // os.ErrNotExist, also profile.ErrNotExist
    | ErrPermission     // os.ErrPermission
    | ErrExecNotFound   // exec.ErrNotFound
    | ErrAlreadyExists  // profile.ErrAlreadyExists
    | ErrInvalidName    // profile.ErrInvalidName

  /** A message before formatting. `NameMessage` is the message of the
      command-line layer's `profileNameError`, whose wording is defined
      outside the modelled files. */
  datatype Message =
    | Formatted(format: string, args: seq<Arg>)
    | NameMessage(name: string)

  /** A formatting argument: a string, or an error value. */
  datatype Arg = Str(s: string) | ErrArg(err: Error)

  datatype Error =
    | PathError(op: string, path: string, errno: Errno)   // *fs.PathError
    | ExecError(name: string)                            // exec.LookPath: not on PATH
    | IsAFile(path: string)                              // "<path>: is a file"
    | AlreadyExists(path: string)                        // "<path>: %w" of ErrAlreadyExists
    | InvalidName                                        // profile.ErrInvalidName itself
    | EmptyPath(path: string)                            // "<path>: empty path"
    | Plain(text: string)                                // errors.New(text)
    | Foreign(text: string)                              // from code outside the model
    | CliError(message: Message, cause: Option<Error>)   // *cli.Error

  /** Go's `errors.Is(e, target)`: follows the wrapping chain. */
  predicate Is(e: Error, target: Sentinel) {
    match e
    case PathError(_, _, errno) =>
      (target == ErrNotExist && errno == ENOENT) || (target == ErrPermission && errno == EACCES)
    case ExecError(_) => target == ErrExecNotFound
    case AlreadyExists(_) => target == ErrAlreadyExists
    case InvalidName => target == ErrInvalidName
    case CliError(_, cause) => cause.Some? && Is(cause.value, target)
    case _ => false
  }

  function ErrnoText(n: Errno): string {
    match n
    case ENOENT => "no such file or directory"
    case EACCES => "permission denied"
    case ENOTDIR => "not a directory"
    case EISDIR => "is a directory"
  }

  /** A `cli.Error` with an empty message reads its cause's text, and Go
      dereferences a nil cause there: only errors without that combination,
      anywhere along the chain, have a text. */
  predicate Printable(e: Error, render: Message -> string) {
    match e
    case CliError(m, cause) =>
      && (render(m) != "" || cause.Some?)
      && (cause.Some? ==> Printable(cause.value, render))
    case _ => true
  }

  /** The text `Error()` returns. */
  function Text(e: Error, render: Message -> string): string
    requires Printable(e, render)
    decreases e, 1
  {
    match e
    case PathError(op, path, errno) => op + " " + path + ": " + ErrnoText(errno)
    case ExecError(name) => "exec: \"" + name + "\": executable file not found in $PATH"
    case IsAFile(path) => path + ": is a file"
    case AlreadyExists(path) => path + ": already exists"
    case InvalidName => "invalid profile name"
    case EmptyPath(path) => path + ": empty path"
    case Plain(text) => text
    case Foreign(text) => text
    case CliError(m, cause) => FormatError(render(m), cause, ": ", render)
  }

  /** `(*cli.Error).formatError`: the template joins message and cause with
      `sep` (": " for `Error()`, "\nError message: " for `NiceError()`). */
  function FormatError(message: string, cause: Option<Error>, sep: string, render: Message -> string): (r: string)
    requires message != "" || cause.Some?
    requires cause.Some? ==> Printable(cause.value, render)
    decreases cause, 0
    ensures message == "" ==> r == Text(cause.value, render)
    ensures message != "" ==> |r| >= |message| && r[..|message|] == message
    ensures message != "" && cause.None? ==> r == message
    ensures message != "" && cause.Some? ==> r[|message|..] == sep + Text(cause.value, render)
  {
    if message == "" then Text(cause.value, render)
    else if cause.None? then message
    else message + sep + Text(cause.value, render)
  }

  /** `(*cli.Error).Error()`. */
  function ErrorText(e: Error, render: Message -> string): (r: string)
    requires e.CliError? && Printable(e, render)
    ensures r == FormatError(render(e.message), e.cause, ": ", render)
  {
    Text(e, render)
  }

  /** `(*cli.Error).NiceError()`. */
  function NiceError(e: Error, render: Message -> string): (r: string)
    requires e.CliError? && Printable(e, render)
    ensures e.cause.None? ==> r == render(e.message)
    ensures render(e.message) == "" ==> r == Text(e.cause.value, render)
    ensures render(e.message) != "" && e.cause.Some? ==>
      r == render(e.message) + "\nError message: " + Text(e.cause.value, render)
  {
    FormatError(render(e.message), e.cause, "\nError message: ", render)
  }

  /** `(*cli.Error).Unwrap()`. */
  function Unwrap(e: Error): (r: Option<Error>)
    requires e.CliError?
    ensures r == e.cause
    ensures r.Some? ==> r.value < e
  {
    e.cause
  }

  /** `cli.newError(format, args...)`: when the last argument is an error it
      becomes the cause and is no longer a formatting argument. */
  function NewError(format: string, args: seq<Arg>): (e: Error)
    ensures e.CliError? && e.message.Formatted? && e.message.format == format
    ensures e.cause.Some? <==> |args| > 0 && args[|args| - 1].ErrArg?
    ensures e.message.args + (if e.cause.Some? then [ErrArg(e.cause.value)] else []) == args
  {
    if |args| > 0 && args[|args| - 1].ErrArg? then
      CliError(Formatted(format, args[..|args| - 1]), Some(args[|args| - 1].err))
    else
      CliError(Formatted(format, args), None)
  }

  /** `Error()` and `NiceError()` agree on the message and the cause's text
      and differ only in what separates them. */
  lemma ErrorAndNiceErrorDifferInSeparator(e: Error, render: Message -> string)
    requires e.CliError? && Printable(e, render)
    requires render(e.message) != "" && e.cause.Some?
    ensures var m := render(e.message);
            var c := Text(e.cause.value, render);
            && ErrorText(e, render) == m + ": " + c
            && NiceError(e, render) == m + "\nError message: " + c
  {
    var m := render(e.message);
    var c := Text(e.cause.value, render);
    var r := ErrorText(e, render);
    assert r == r[..|m|] + r[|m|..];
    var n := NiceError(e, render);
    assert n == n[..|m|] + n[|m|..];
  }

  /** Only the last argument is inspected: an error in an earlier position
      stays a formatting argument. */
  lemma NewErrorInspectsOnlyLastArgument(format: string, args: seq<Arg>, c: Error, last: string)
    ensures NewError(format, args + [ErrArg(c)]) == CliError(Formatted(format, args), Some(c))
    ensures NewError(format, args + [Str(last)]).cause == None
    ensures NewError(format, args + [Str(last)]).message.args == args + [Str(last)]
  {
    assert (args + [ErrArg(c)])[..|args|] == args;
  }

  /** The cause `newError` picked is what `Unwrap` returns, and `errors.Is`
      sees through the wrapper to it. */
  lemma NewErrorUnwrapsToCause(format: string, args: seq<Arg>, c: Error, target: Sentinel)
    ensures Unwrap(NewError(format, args + [ErrArg(c)])) == Some(c)
    ensures Is(NewError(format, args + [ErrArg(c)]), target) <==> Is(c, target)
  {
    NewErrorInspectsOnlyLastArgument(format, args, c, "");
  }
}
