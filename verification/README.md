# manygram, modelled in Dafny

manygram runs several Telegram Desktop instances side by side, each with a
profile of its own. A profile is a directory named after it under a
configured root. The program keeps a small TOML configuration holding the
Telegram Desktop executable (`exec-path`) and the profile root
(`profile-dir`). It can also write a freedesktop `.desktop` entry that
starts a profile.

This project models the core of the program:

- the profile store;
- how the Telegram Desktop executable is found, and the argument vector it
  is started with, including the Snap and Flatpak special cases;
- desktop entries;
- the XDG base directories;
- the configuration file;
- the command-line error type and its helpers;
- the `config create` and `config check` commands.

The model is a set of pure functions over immutable values:

| module | file | stands for |
|---|---|---|
| `Wrappers` | wrappers.dfy | `Option` and `Result` |
| `Strings` | strings.dfy | `strings.Split`, `Join`, `HasPrefix`, and `TrimSpace` with the white-space table of `unicode.IsSpace` |
| `Paths` | paths.dfy | Go's `path.Clean`, `Join`, `Base` and `Dir`, following Go's element-by-element algorithm |
| `Errors` | errors.dfy | the error values the program creates and inspects, `errors.Is`, and `cli.Error` |
| `FileSystem` | fs.dfy | the file system as a map from path to `File(content)`, `Dir` or `Inaccessible`; `os.Stat`, `MkdirAll`, `RemoveAll`, `WriteFile`, `ReadFile` |
| `Host` | host.dfy | the environment, the `PATH` lookup, symbolic-link resolution and the exit status of helper commands, as tables fixed for one run |
| `Profile` | profile.dfy | internal/profile/profile.go |
| `Tg` | tg.dfy | internal/tg/tg.go |
| `Desktop` | desktop.dfy | internal/desktop/desktop.go |
| `Xdg` | xdg.dfy | internal/xdg/xdg.go |
| `Config` | config.dfy | internal/config/config.go |
| `Cli` | cli.dfy | internal/cli/errors.go, helpers.go, cmd_config_create.go, cmd_config_check.go |

Operations that change the file system return an `Effect` holding the new
file system and the result. The commands return an `Outcome`, which also
keeps the lines they print, unformatted.

`fmt.Sprintf` is not interpreted. A message keeps its format string and
arguments, and turning a message into text is a parameter (`render`).

TOML is not modelled. Reading the configuration takes the decoder's verdict
as a parameter: for each key, whether it is defined and the string it
holds. Writing takes the encoder as a parameter.

Notes on the code as modelled:

- `config check` calls `tg.Executable` with a single argument, while the
  function takes two. The model passes an empty argument list, which is what
  a nil slice amounts to.
- `xdg.GetDataHome` and `util.Exist` are used but not defined in the
  modelled files. They are modelled after their tests:
  - `GetDataHome` resolves `XDG_DATA_HOME` like `GetConfigHome`, with the
    fallback `$HOME/.local/share`;
  - `util.Exist` behaves like `config.Exist`.
- `strings.TrimSpace` uses Go's concrete white-space table rather than an
  abstract predicate, so that trimming can be reasoned about.
- `desktop.Create` uses `os.Create`, which truncates an existing file. Only
  its caller, `createDesktopEntry`, checks for an existing entry first.
  `Desktop.Create` models the truncation, and `Cli.CreateDesktopEntry`
  models the caller's check.
- Creation is check-then-act, not exclusive. The code checks with `os.Stat`
  and then creates the profile directory with `os.MkdirAll` or the entry
  with `os.Create`, and the model follows that order.
- `os.RemoveAll` removes what it can. An entry beneath the path whose `stat`
  fails stays behind, with the directories leading to it and anything
  beneath it. The call then fails with a permission error, and
  `profile.Remove` and `desktop.Remove` return that error.

## Model

| member | source | states |
|---|---|---|
| Profile.ValidNameCharacterization | internal/profile/profile.go:28 | the name pattern accepts a string exactly when it is non-empty, starts with an ASCII letter, and every later character is an ASCII letter, digit or underscore |
| Profile.ValidNameAccepted | internal/profile/profile.go:85-87 | `username`, `alice_1` and `Foo9` are valid names |
| Profile.ValidNameRejected | internal/profile/profile.go:85-87 | the empty string, `1foobar`, `_x`, `foo/bar`, `..` and `foo` followed by a newline are rejected, since `$` matches only at the very end |
| Profile.RejectsAt | internal/profile/profile.go:28 | one character outside letters, digits and underscore anywhere in a name makes it invalid |
| Profile.ValidNameIsPlainElement | internal/profile/profile.go:28 | a valid name has no slash and is neither `.` nor `..` |
| Profile.PathIsDirectChild | internal/profile/profile.go:31-33 | a valid name's profile path has the name as its last element and the cleaned root as its parent |
| Profile.Create | internal/profile/profile.go:36-54 | invalid name: `ErrInvalidName` with nothing changed; a missing path is made, with its missing parents, whenever every existing entry on the way to it is a directory, and the profile is returned; existing directory: an error wrapping `ErrAlreadyExists`; regular file: an "is a file" error that does not wrap it; entries that were there are never changed |
| Profile.FirstRunCreate | internal/profile/profile.go:36-54 | with only `/` in place, creating any validly named profile succeeds and leaves its directory behind |
| Profile.Read | internal/profile/profile.go:57-70 | invalid name: `ErrInvalidName`; missing: not-exist; file: "is a file"; directory: the profile record; the file system is an input only |
| Profile.Remove | internal/profile/profile.go:73-82 | invalid name or missing path: an error and no change; otherwise the path and everything beneath it go, a regular file included; the removal succeeds exactly when nothing beneath the path is unreadable, and otherwise fails with a permission error leaving the path and the unreadable entries in place; nothing outside the path changes |
| Profile.IsProfileDirExist | internal/profile/profile.go:90-106 | the path is trimmed first; blank: "empty path" error; missing: false; file: "is a file" error; directory: true; a permission failure is passed on |
| Profile.IsProfileDirExistTrims | internal/profile/profile.go:90-106 | trimming the path first gives the same answer |
| Profile.ProfileDirExistMatchesRead | internal/profile/profile.go:90-106 | on a profile path without surrounding white space, the directory check says true exactly when `Read` succeeds and false exactly when `Read` fails with not-exist |
| Profile.CreateRemoveReadScenario | internal/profile/profile.go:36-82 | after a successful create, creating again fails with `ErrAlreadyExists`; removing succeeds exactly when nothing unreadable lay beneath the new path, and then reading fails with not-exist |
| Profile.CreateRemoveCreate | internal/profile/profile.go:36-82 | create, remove, create returns the same profile as the first create and leaves the directory back in place; if the removal fails part-way, the second create reports `ErrAlreadyExists` |
| Tg.Executable | internal/tg/tg.go:23-33 | success exactly when the name is on `PATH` and its full path resolves; the descriptor holds the name verbatim, the full path, the resolved path and the arguments; a lookup failure is `exec.ErrNotFound`, a resolution failure is not-exist |
| Tg.ExecutableIgnoresArgs | internal/tg/tg.go:23-33 | the fixed arguments play no part in the lookup: with other arguments it succeeds or fails alike, with the same paths or the same error |
| Tg.Run | internal/tg/tg.go:36-48 | as written: the program is the descriptor's path; the arguments are the fixed ones, then `len(extraArgs)+3` empty strings, then `-many -workdir <profile>` and the extra ones, for a length of `len(Args)+2*len(extraArgs)+6` |
| Tg.IntendedRun | internal/tg/tg.go:36-48 | corrected: the fixed arguments, `-many -workdir <profile>`, the extra ones, and no empty argument that the caller did not supply |
| Tg.RunInsertsBlanks | internal/tg/tg.go:37-40 | the vector as written is the intended one with `len(extraArgs)+3` empty strings inserted after the fixed arguments |
| Tg.RunPassesEmptyArguments | internal/tg/tg.go:37-40 | with no fixed and no extra arguments, the program receives three empty arguments before `-many -workdir /p` |
| Tg.IsSnapCharacterization | internal/tg/tg.go:51-53 | the executable counts as a snap exactly when its resolved path, trailing slashes dropped, is `snap` or ends in `/snap` |
| Tg.LastElementIsSnap | internal/tg/tg.go:52 | the text after the last slash is `snap` exactly when the path ends in `/snap` |
| Tg.SnapDataHome | internal/tg/tg.go:56-62 | `$HOME/snap/telegram-desktop/current/.local/share` when `stat` succeeds on it, else the `stat` error |
| Tg.FlatpakDataHome | internal/tg/tg.go:84-90 | `$HOME/.var/app/org.telegram.desktop/data` when `stat` succeeds on it, else the `stat` error |
| Tg.SnapDataHomeBelowHome | internal/tg/tg.go:56-62 | a found snap data home is an existing entry within `$HOME`; it is not found exactly when that entry does not exist |
| Tg.FlatpakDataHomeBelowHome | internal/tg/tg.go:84-90 | a found Flatpak data home is an existing entry within `$HOME`; it is not found exactly when that entry does not exist |
| Tg.Flatpak | internal/tg/tg.go:69-81 | no `flatpak` on `PATH`: "flatpak executable not found"; neither probe passing: "org.telegram.desktop flatpak app not found"; success exactly when `flatpak` is found and resolves and one probe passes; a success runs `flatpak` found on `PATH`, with arguments `run` … `org.telegram.desktop`, per user exactly when the per-user probe passed and system-wide only when it did not; a `flatpak` that does not resolve gives not-exist |
| Tg.FlatpakRunsTheApp | internal/tg/tg.go:36-81 | started, the Flatpak result runs `flatpak run [--user] org.telegram.desktop` and, as written, hands the application `len(extraArgs)+3` empty arguments; the corrected vector puts the profile switches right after the application id |
| Desktop.PathIsDirectChild | internal/desktop/desktop.go:33-35 | for a name without a slash, the entry is `telegramdesktop.<name>.desktop` directly in the cleaned directory |
| Desktop.Exist | internal/desktop/desktop.go:38-40 | true exactly when `stat` succeeds on the entry path, false exactly when nothing is there |
| Desktop.ExistAgreesWithRemove | internal/desktop/desktop.go:38-64 | the entry check is the shared existence check on the entry path, and says false exactly when removing the entry fails with not-exist |
| Desktop.ParseRender | internal/desktop/desktop.go:12-24 | a header followed by `key=value` lines parses back to the same fields whenever no key has `=` and nothing has a newline |
| Desktop.EntryFieldsWellFormed | internal/desktop/desktop.go:12-24 | every line of the template can be written as `key=value` when the name, `TryExec` and `Exec` values have no newline |
| Desktop.NameHasNoNewline | internal/desktop/desktop.go:51 | the `Name` value `Telegram Desktop – <name>` has a newline only if the name does |
| Desktop.EntryRoundTrip | internal/desktop/desktop.go:12-24 | the written entry reads back as exactly the eleven template fields, with the three substituted values verbatim |
| Desktop.EntryKeysFixedAndDistinct | internal/desktop/desktop.go:12-24 | the keys of an entry do not depend on the substituted values, and no key occurs twice |
| Desktop.Create | internal/desktop/desktop.go:43-55 | succeeds exactly when the path is a regular file (truncated and rewritten, with no existence check) or is missing with an existing parent directory; then the file holds the rendered template; on failure nothing changes |
| Desktop.Remove | internal/desktop/desktop.go:58-64 | missing: a not-exist error and no change; a `stat` failure: that error and no change; otherwise the entry and anything beneath it go, and the removal succeeds exactly when nothing beneath it is unreadable, otherwise failing with a permission error that is not not-exist; nothing outside the entry changes |
| Desktop.CreateReadRemove | internal/desktop/desktop.go:43-64 | after a create the entry exists and reads back field for field; removing it succeeds exactly when nothing unreadable lies beneath its path, and then leaves it missing |
| Xdg.Directory | internal/xdg/xdg.go:8-14 | a non-empty absolute value is returned verbatim and uncleaned; unset, empty or relative values give `$HOME` followed by the fallback |
| Xdg.DirectoryIsAbsolute | internal/xdg/xdg.go:8-14 | with an absolute `$HOME` the directory is absolute whatever the variable holds |
| Xdg.ConfigHomeCases | internal/xdg/xdg_test.go:44-76 | `XDG_CONFIG_HOME` unset, empty or `not/allowed` gives `$HOME/.config`; `/some/path` gives `/some/path` |
| Xdg.DataHomeCases | internal/xdg/xdg_test.go:78-86 | `XDG_DATA_HOME` unset, empty or `not/allowed` gives `$HOME/.local/share`; `/some/path` gives `/some/path` |
| Config.New | internal/config/config.go:46-48 | only the path is set; both values are empty |
| Config.NewIsIncomplete | internal/config/config.go:46-78 | a fresh configuration does not validate: its blank `exec-path` is rejected first |
| Config.Exist | internal/config/config.go:34-43 | true exactly when `stat` succeeds, false exactly when nothing is there, an error exactly when `stat` fails otherwise |
| Config.ExistAgreesWithRead | internal/config/config.go:34-82 | the configuration check is the shared existence check; a missing file reads as not-exist, and a configuration that reads comes from a file that exists |
| FileSystem.Exist | internal/util/util_test.go:30-51 | missing: false; a directory or a file: true |
| FileSystem.ExistTracksChanges | internal/util/util_test.go:30-51 | a written file or a made directory exists afterwards, and a path removed without error does not |
| FileSystem.MkdirAllSucceeds | internal/profile/profile.go:43 | `os.MkdirAll` succeeds whenever every existing entry on the way to the path, the path included, is a directory, however many are missing |
| FileSystem.RemoveAll | internal/profile/profile.go:81 | `os.RemoveAll` succeeds exactly when nothing beneath the path is unreadable; it fails with a permission error otherwise; exactly the entries outside the path, the unreadable ones, those beneath them and the directories leading to them remain, unchanged |
| FileSystem.RemoveAllOutcome | internal/desktop/desktop.go:63 | after a successful removal exactly the entries outside the path remain; after a failed one the path itself and every unreadable entry remain |
| Config.Validate | internal/config/config.go:62-78 | the checks run in order: undefined `exec-path`, blank `exec-path`, undefined `profile-dir`, blank `profile-dir`, each with its own message; success exactly when both are defined and not blank, with both values trimmed |
| Config.Read | internal/config/config.go:51-82 | a read error or a decoding error is returned unchanged, so not-exist stays recognisable; a decoded document succeeds exactly when it validates, returning its two values trimmed, and otherwise fails with the validation error; a success comes from a regular file and records the path it was read from |
| Config.Write | internal/config/config.go:21-31 | the parent directory is made first and a failure there is returned unchanged; the write succeeds exactly when that directory was made and the path is free or a regular file; the directories made stay, and on success the file holds the encoding of the two values; no other existing entry changes |
| Config.WriteSucceeds | internal/config/config.go:21-31 | a configuration whose file is missing or a regular file, at a path that is not its own directory, is written whenever every existing entry on the way to its directory is a directory |
| Config.ReadValuesAreTrimmed | internal/config/config.go:65-78 | the values a successful read returns are non-empty and have no surrounding white space |
| Config.WriteThenRead | internal/config/config.go:21-82 | with a decoder that inverts the encoder, reading what was written returns the same configuration when its values are trimmed and non-empty |
| Errors.FormatError | internal/cli/errors.go:11-19 | empty message: the cause's text; no cause: the message; both: the message, the separator, the cause's text |
| Errors.ErrorText | internal/cli/errors.go:21-23 | `Error()` formats with the separator `": "` |
| Errors.NiceError | internal/cli/errors.go:26-28 | the message alone when there is no cause, the cause's text alone when the message is empty, and otherwise the message, `\nError message: ` and the cause's text |
| Errors.ErrorAndNiceErrorDifferInSeparator | internal/cli/errors.go:18-28 | with message and cause, `Error()` is message + `": "` + cause and `NiceError()` is message + newline + `Error message: ` + cause |
| Errors.Unwrap | internal/cli/errors.go:30-32 | the stored cause itself, which is smaller than the error holding it |
| Errors.NewError | internal/cli/errors.go:34-46 | the last argument becomes the cause exactly when it is an error, and it is then dropped from the format arguments; the format arguments plus the cause give back the arguments |
| Errors.NewErrorInspectsOnlyLastArgument | internal/cli/errors.go:36-45 | an error in the last position is the cause; with a string last, there is no cause and every argument stays a format argument |
| Errors.NewErrorUnwrapsToCause | internal/cli/errors.go:30-46 | `Unwrap` returns the cause `newError` picked, and `errors.Is` on the wrapper agrees with `errors.Is` on the cause |
| Cli.DefaultProfileDirIsBelowDataDir | internal/cli/helpers.go:15-17 | the default profile directory is `profiles` inside `manygram` inside the cleaned data directory |
| Cli.DesktopEntriesDirIsBelowDataHome | internal/cli/helpers.go:19-21 | desktop entries live in `applications` directly inside the cleaned data home |
| Cli.ConfigPathIsBelowConfigHome | internal/cli/helpers.go:28-30 | the configuration is `config.toml` inside `manygram` inside the cleaned configuration home |
| Cli.ReadConfig | internal/cli/helpers.go:32-45 | success is passed through; not-exist gives the "not found ... `manygram config create`" message and any other failure "Failed to read config", both keeping the error as the cause |
| Cli.ReadConfigWrapsRead | internal/cli/helpers.go:32-45 | succeeds exactly when `config.Read` does, with the same configuration; on failure the read's error is the cause, and `errors.Is` answers the same for both |
| Cli.ReadProfile | internal/cli/helpers.go:47-62 | invalid name: the name error; missing: "does not exist" with no cause; any other failure, a file in the way included: "Failed to read profile" with the cause; success exactly when the profile reads |
| Cli.CreateDesktopEntry | internal/cli/helpers.go:64-87 | a failed `stat` of the entry and the errors of `readConfig` and `readProfile` are returned unchanged; an entry in place gives "already exists" and writes nothing; for a missing entry of an existing profile, success exactly when the entries directory exists, and otherwise "Failed to create desktop entry" with the write error as cause; success implies a valid name, an existing profile and a file system changed only by the new entry |
| Cli.CreatedEntryRunsTheProfile | internal/cli/helpers.go:64-87 | a written entry reads back with `TryExec=manygram` and `Exec=manygram run <name>` |
| Cli.EntryOfValidNameReadsBack | internal/cli/helpers.go:83 | for a valid profile name, the entry text parses back field for field |
| Cli.RemoveDesktopEntry | internal/cli/helpers.go:89-97 | missing: "does not exist" and no change; another `stat` failure: "Failed to remove" with the cause; otherwise the removal's file system, success exactly when nothing beneath the entry is unreadable, and "Failed to remove" with the removal's error as cause otherwise |
| Cli.CreateThenRemoveDesktopEntry | internal/cli/helpers.go:64-97 | creating an entry and removing it gives back the original file system |
| Cli.CreateDataDir | internal/cli/cmd_config_create.go:39-52 | the XDG data home unless the executable is a snap; for a snap, its data home when present, otherwise `$HOME` |
| Cli.CreateDataDirIsAbsolute | internal/cli/cmd_config_create.go:39-52 | with an absolute `$HOME` the data directory is absolute, and for a snap it lies within `$HOME` |
| Cli.ConfigCreate | internal/cli/cmd_config_create.go:23-61 | a `stat` failure is returned; an existing configuration without force fails with "already exists" and changes nothing; otherwise the default configuration is written and a write failure is wrapped as "Failed to write config."; on success the file holds the encoded defaults |
| Cli.ConfigCreateSucceeds | internal/cli/cmd_config_create.go:23-61 | `config create` succeeds when no configuration exists, or when forced over a regular file, provided every existing entry on the way to the configuration directory is a directory |
| Cli.ConfigCreateThenRead | internal/cli/cmd_config_create.go:36-58 | after a successful `config create`, reading the configuration returns `telegram-desktop` and the chosen profile directory |
| Cli.ExecChain | internal/cli/cmd_config_check.go:29-35 | the chain starts with the name and ends with the resolved path, holds the full path, and no two neighbours are equal |
| Cli.ExecChainCollapsesRepeats | internal/cli/cmd_config_check.go:29-36 | the chain is name, full path and resolved path with equal neighbours shown once; it is the name alone exactly when all three agree |
| Cli.ExecChainOfExecutable | internal/cli/cmd_config_check.go:29-35 | for an executable that is found, the printed chain is the name, the `PATH` result and the resolved path with repeated neighbours shown once |
| Cli.CheckConfig | internal/cli/cmd_config_check.go:25-47 | passes exactly when the executable is found and the profile directory check succeeds; an executable error is reported first; a success prints the chain, and prints "does not exist" exactly for a missing directory |
| Cli.ConfigCheck | internal/cli/cmd_config_check.go:19-48 | a configuration read failure is returned as is; otherwise the outcome is the check's, after the "found. Checking." line, and the file system is unchanged |
| Cli.CreatedConfigPassesCheck | internal/cli/cmd_config_check.go:19-48 | a configuration written by `config create` passes `config check` when the executable is found and the profile directory is not a file |
| Cli.MissingProfileDirPasses | internal/cli/cmd_config_check.go:37-46 | a non-blank profile directory that does not exist passes, with a line saying so |

## Left out

- Process spawning and waiting, and standard output: `Tg.Run` builds the
  command and stops there; the printed lines of the commands are kept as
  unformatted messages.
- TOML encoding and decoding are parameters of the model. An encoding
  failure in `(*Config).Write` is not modelled, because the encoder
  always returns text here.
- `fmt.Sprintf` and the `text/template` engine are not interpreted beyond
  the fixed concatenations the code performs. The entry's fields are
  substituted verbatim, as `text/template` does.
- The operating system's path resolution is not modelled. Paths are map
  keys exactly as the program passes them, so a parent that is a regular
  file shows up as a missing path, not `ENOTDIR`. Symbolic links inside a
  directory path are not modelled either.
- Host.LookPath: a name containing a slash is looked up in the same table;
  Go would `stat` it and wrap that error instead of `exec.ErrNotFound`.
- Tg.Flatpak: which probe commands actually ran is not recorded, only that
  the per-user probe decides before the system one.
- The duplicated, discarded second `IsProfileDirExist` call in
  `config check` has no effect and is modelled once.
- `profileNameError` is defined outside the modelled files. Its message is
  kept as the name it is about.
- The other commands (`run`, `create`, `remove`, `desktop create`,
  `desktop remove`, `version`), command registration and the entry point
  are dispatch code around the modelled operations.
- Concurrent invocations racing on the file system are not modelled.
- Strings are sequences of characters, while Go strings are bytes. The
  profile name pattern is ASCII and `strings.TrimSpace` trims the same
  white space either way, but a non-ASCII character such as the `–` in the
  entry's `Name` field is one element here and three bytes in the file.
- FileSystem.RemoveAll: the failure names the path passed in rather than
  the first entry that could not be removed, because which entry Go meets
  first depends on the order of directory listings.
- The root `/` and the working directory `.` are taken to exist as
  directories; the modelled code never asks about them itself.

## Findings

| source | as written | input that shows it | evidently intended | confidence | as-written member | corrected member |
|---|---|---|---|---|---|---|
| internal/tg/tg.go:37-40 | the slice is made with length `len(Args)+len(extraArgs)+3`, and the profile switches and extra arguments are appended after it | no fixed and no extra arguments with profile `/p` give `["", "", "", "-many", "-workdir", "/p"]` | make the slice with that capacity and length zero, giving `["-many", "-workdir", "/p"]` | not executed | Tg.Run, shown by Tg.RunPassesEmptyArguments and Tg.RunInsertsBlanks | Tg.IntendedRun |
