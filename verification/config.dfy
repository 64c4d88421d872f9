/** The configuration file: a TOML document with the keys `exec-path` (the
    Telegram Desktop executable) and `profile-dir` (where profiles live).

    TOML itself is not modelled: reading takes the decoder's verdict as a
    parameter, writing takes the encoder as one. */
module Config {
  import opened Wrappers
  import opened Errors
  import opened Strings
  import opened FileSystem
  import Paths

  /** `config.Config`; `path` is where it was read from or will be written. */
  datatype Config = Config(path: string, execPath: string, profileDir: string)

  /** What decoding a document reports about the two keys: absent, or
      defined with a string value. */
  datatype Document = Document(execPath: Option<string>, profileDir: Option<string>)

  /** `config.New`. */
  function New(path: string): (c: Config)
    ensures c.path == path && c.execPath == "" && c.profileDir == ""
  {
    Config(path, "", "")
  }

  /** `config.Exist`. */
  function Exist(fs: FS, path: string): (r: Result<bool, Error>)
    ensures r == Success(true) <==> path in fs && !fs[path].Inaccessible?
    ensures r == Success(false) <==> path !in fs
    ensures r.Failure? <==> path in fs && fs[path].Inaccessible?
  {
    FileSystem.Exist(fs, path)
  }

  /** `config.Exist` is the shared existence check, and it agrees with
      `Read`: a missing file reads as not-exist, and a configuration that
      reads comes from a file that exists. */
  lemma ExistAgreesWithRead(fs: FS, path: string, decode: string -> Result<Document, Error>)
    ensures Exist(fs, path) == FileSystem.Exist(fs, path)
    ensures Exist(fs, path) == Success(false) ==> Read(fs, path, decode).Failure? && Is(Read(fs, path, decode).error, ErrNotExist)
    ensures Read(fs, path, decode).Success? ==> Exist(fs, path) == Success(true)
  {
  }

  const ExecPathNotDefined := Plain("`exec-path` parameter is not defined")
  const ExecPathEmpty := Plain("`exec-path` parameter is empty")
  const ProfileDirNotDefined := Plain("`profile-dir` parameter is not defined")
  const ProfileDirEmpty := Plain("`profile-dir` parameter is empty")

  /** The checks `config.Read` makes of a decoded document, in order. */
  function Validate(path: string, d: Document): (r: Result<Config, Error>)
    ensures d.execPath.None? ==> r == Failure(ExecPathNotDefined)
    ensures d.execPath.Some? && AllSpace(d.execPath.value) ==> r == Failure(ExecPathEmpty)
    ensures d.execPath.Some? && !AllSpace(d.execPath.value) && d.profileDir.None? ==>
      r == Failure(ProfileDirNotDefined)
    ensures d.execPath.Some? && !AllSpace(d.execPath.value) && d.profileDir.Some? && AllSpace(d.profileDir.value) ==>
      r == Failure(ProfileDirEmpty)
    ensures r.Success? <==>
      d.execPath.Some? && !AllSpace(d.execPath.value) && d.profileDir.Some? && !AllSpace(d.profileDir.value)
    ensures r.Success? ==>
      r.value == Config(path, TrimSpace(d.execPath.value), TrimSpace(d.profileDir.value))
  {
    if d.execPath.None? then Failure(ExecPathNotDefined)
    else
      var execPath := TrimSpace(d.execPath.value);
      if execPath == "" then Failure(ExecPathEmpty)
      else if d.profileDir.None? then Failure(ProfileDirNotDefined)
      else
        var profileDir := TrimSpace(d.profileDir.value);
        if profileDir == "" then Failure(ProfileDirEmpty)
        else Success(Config(path, execPath, profileDir))
  }

  /** A fresh configuration is not yet a valid one: its blank executable
      is the first thing validation rejects. */
  lemma NewIsIncomplete(path: string)
    ensures Validate(path, Document(Some(New(path).execPath), Some(New(path).profileDir))) == Failure(ExecPathEmpty)
  {
  }

  /** `config.Read`: a read error or a decoding error is returned as it is. */
  function Read(fs: FS, path: string, decode: string -> Result<Document, Error>): (r: Result<Config, Error>)
    ensures ReadFile(fs, path).Failure? ==> r == Failure(ReadFile(fs, path).error)
    ensures ReadFile(fs, path).Success? && decode(ReadFile(fs, path).value).Failure? ==>
      r == Failure(decode(ReadFile(fs, path).value).error)
    // Once decoded, the document is judged by `Validate` alone.
    ensures ReadFile(fs, path).Success? && decode(ReadFile(fs, path).value).Success? ==>
      var d := decode(ReadFile(fs, path).value).value;
      && (r.Success? <==> Validate(path, d).Success?)
      && (r.Success? ==> r.value == Config(path, TrimSpace(d.execPath.value), TrimSpace(d.profileDir.value)))
      && (r.Failure? ==> r.error == Validate(path, d).error)
    ensures r.Success? ==> path in fs && fs[path].File? && r.value.path == path
    ensures path !in fs ==> r.Failure? && Is(r.error, ErrNotExist)
    ensures r.Failure? && Is(r.error, ErrNotExist) ==>
      path !in fs || (fs[path].File? && decode(fs[path].content).Failure?)
  {
    var text :- ReadFile(fs, path);
    var d :- decode(text);
    Validate(path, d)
  }

  /** `(*Config).Write`: the directory is made first, then the file is
      written whole. The encoder sees only the two keys' values. */
  function Write(fs: FS, c: Config, encode: (string, string) -> string): (r: Effect<()>)
    // A failure to make the directory is returned unchanged, with what
    // `MkdirAll` made before failing.
    ensures var made := MkdirAll(fs, Paths.Dir(c.path));
            made.result.Failure? ==> r.result == made.result && r.fs == made.fs
    // Otherwise the directories made stay, and the file is added to them
    // exactly when the write succeeds.
    ensures var made := MkdirAll(fs, Paths.Dir(c.path));
            made.result.Success? ==>
              && (r.result.Success? ==> r.fs == made.fs[c.path := File(encode(c.execPath, c.profileDir))])
              && (r.result.Failure? ==> r.fs == made.fs)
    // The write succeeds exactly when the directory could be made and the
    // path is free or a regular file.
    ensures var made := MkdirAll(fs, Paths.Dir(c.path));
            r.result.Success? <==> made.result.Success? && (c.path !in made.fs || made.fs[c.path].File?)
    ensures r.result.Success? ==> ReadFile(r.fs, c.path) == Success(encode(c.execPath, c.profileDir))
    ensures forall k :: k in fs && k != c.path ==> k in r.fs && r.fs[k] == fs[k]
  {
    var made := MkdirAll(fs, Paths.Dir(c.path));
    if made.result.Failure? then made
    else WriteFile(made.fs, c.path, encode(c.execPath, c.profileDir))
  }

  /** A configuration whose file is missing, or a regular file, is written
      whenever everything on the way to its directory is a directory. */
  lemma WriteSucceeds(fs: FS, c: Config, encode: (string, string) -> string)
    ensures (c.path !in fs || fs[c.path].File?)
            && |Paths.Dir(c.path)| < |c.path|
            && AncestorsAreDirs(fs, Paths.Dir(c.path))
            ==> Write(fs, c, encode).result.Success?
  {
    var dir := Paths.Dir(c.path);
    if (c.path !in fs || fs[c.path].File?) && |dir| < |c.path| && AncestorsAreDirs(fs, dir) {
      MkdirAllSucceeds(fs, dir);
      var made := MkdirAll(fs, dir);
      if c.path !in fs {
        // Only `dir` and its prefixes are made, and all are shorter.
        assert c.path !in made.fs;
      }
    }
  }

  /** A value `Read` returns is already trimmed: nothing is left for a
      second trim to remove. */
  lemma ReadValuesAreTrimmed(fs: FS, path: string, decode: string -> Result<Document, Error>)
    requires Read(fs, path, decode).Success?
    ensures var c := Read(fs, path, decode).value;
            && c.execPath != "" && TrimSpace(c.execPath) == c.execPath
            && c.profileDir != "" && TrimSpace(c.profileDir) == c.profileDir
  {
    var text := ReadFile(fs, path).value;
    var d := decode(text).value;
    TrimSpaceIdempotent(d.execPath.value);
    TrimSpaceIdempotent(d.profileDir.value);
  }

  /** What `Write` stores, `Read` returns, given a decoder that inverts the
      encoder and values that are already trimmed and not empty. */
  lemma WriteThenRead(fs: FS, c: Config, encode: (string, string) -> string, decode: string -> Result<Document, Error>)
    requires Write(fs, c, encode).result.Success?
    requires decode(encode(c.execPath, c.profileDir)) == Success(Document(Some(c.execPath), Some(c.profileDir)))
    requires c.execPath != "" && TrimSpace(c.execPath) == c.execPath
    requires c.profileDir != "" && TrimSpace(c.profileDir) == c.profileDir
    ensures Read(Write(fs, c, encode).fs, c.path, decode) == Success(c)
  {
    var fs1 := Write(fs, c, encode).fs;
    assert ReadFile(fs1, c.path) == Success(encode(c.execPath, c.profileDir));
    ValidateTrimmed(c);
  }

  /** Trimmed, non-empty values pass validation unchanged. */
  lemma ValidateTrimmed(c: Config)
    requires c.execPath != "" && TrimSpace(c.execPath) == c.execPath
    requires c.profileDir != "" && TrimSpace(c.profileDir) == c.profileDir
    ensures Validate(c.path, Document(Some(c.execPath), Some(c.profileDir))) == Success(c)
  {
  }
}
