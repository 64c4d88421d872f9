/** The profile store: a profile is a directory named after it under a
    configured root. Every operation first checks the name, then tells a
    missing path, a regular file and a directory apart. */
module Profile {
  import opened Wrappers
  import opened Errors
  import opened Strings
  import opened FileSystem
  import Paths

  datatype Profile = Profile(dir: string, name: string, path: string)

  // -----------------------------------------------------------------------
  // The name pattern ^[A-Za-z][A-Za-z0-9_]*$ as the automaton Go's regexp
  // package runs for it. Go's `$` without the multi-line flag matches only
  // at the end of the text, so a trailing newline is rejected.

  predicate IsAsciiLetter(c: char) {
    ('A' <= c <= 'Z') || ('a' <= c <= 'z')
  }

  predicate IsAsciiDigit(c: char) {
    '0' <= c <= '9'
  }

  predicate IsNameChar(c: char) {
    IsAsciiLetter(c) || IsAsciiDigit(c) || c == '_'
  }

  datatype MatchState = AtStart | InName | Rejected

  function MatchStep(st: MatchState, c: char): MatchState {
    match st
    case AtStart => if IsAsciiLetter(c) then InName else Rejected
    case InName => if IsNameChar(c) then InName else Rejected
    case Rejected => Rejected
  }

  function RunMatcher(st: MatchState, s: string): MatchState
    decreases |s|
  {
    if s == [] then st else RunMatcher(MatchStep(st, s[0]), s[1..])
  }

  /** `profile.IsValidName`: the matcher ends inside a name. */
  predicate IsValidName(name: string) {
    RunMatcher(AtStart, name) == InName
  }

  lemma {:induction false} RejectedStays(s: string)
    ensures RunMatcher(Rejected, s) == Rejected
  {
    if s != [] {
      RejectedStays(s[1..]);
    }
  }

  lemma {:induction false} InNameRun(s: string)
    ensures RunMatcher(InName, s) == InName <==> forall i :: 0 <= i < |s| ==> IsNameChar(s[i])
  {
    if s != [] {
      InNameRun(s[1..]);
      if !IsNameChar(s[0]) {
        RejectedStays(s[1..]);
      }
      assert forall i :: 1 <= i < |s| ==> s[i] == s[1..][i - 1];
    }
  }

  /** The matcher accepts exactly the non-empty names that start with an
      ASCII letter and continue with ASCII letters, digits or underscores. */
  lemma ValidNameCharacterization(name: string)
    ensures IsValidName(name) <==>
      && |name| > 0
      && IsAsciiLetter(name[0])
      && forall i :: 1 <= i < |name| ==> IsNameChar(name[i])
  {
    if name != [] {
      InNameRun(name[1..]);
      if !IsAsciiLetter(name[0]) {
        RejectedStays(name[1..]);
      }
      assert forall i :: 1 <= i < |name| ==> name[i] == name[1..][i - 1];
    }
  }

  /** Names the program accepts. */
  lemma ValidNameAccepted()
    ensures IsValidName("username") && IsValidName("alice_1") && IsValidName("Foo9")
  {
    AcceptsName("username");
    AcceptsName("alice_1");
    AcceptsName("Foo9");
  }

  /** A name made of a letter and then name characters is accepted. */
  lemma AcceptsName(name: string)
    requires |name| > 0 && IsAsciiLetter(name[0])
    requires forall i :: 1 <= i < |name| ==> IsNameChar(name[i])
    ensures IsValidName(name)
  {
    ValidNameCharacterization(name);
  }

  /** Names the program rejects: empty, a leading digit or underscore, a
      slash, a dot-dot, and a trailing newline. */
  lemma ValidNameRejected()
    ensures !IsValidName("") && !IsValidName("1foobar") && !IsValidName("_x")
    ensures !IsValidName("foo/bar") && !IsValidName("..") && !IsValidName("foo\n")
  {
    ValidNameCharacterization("");
    ValidNameCharacterization("1foobar");
    ValidNameCharacterization("_x");
    ValidNameCharacterization("..");
    RejectsAt("foo/bar", 3);
    RejectsAt("foo\n", 3);
  }

  /** One character outside the name alphabet rejects the whole name. */
  lemma RejectsAt(name: string, i: nat)
    requires i < |name| && !IsNameChar(name[i])
    ensures !IsValidName(name)
  {
    ValidNameCharacterization(name);
  }

  /** A valid name has no slash and is neither `.` nor `..`. */
  lemma ValidNameIsPlainElement(name: string)
    requires IsValidName(name)
    ensures Paths.IsPlainElement(name)
  {
    ValidNameCharacterization(name);
    assert name[0] != '.';
    forall i | 0 <= i < |name| ensures name[i] != '/' {
    }
  }

  // -----------------------------------------------------------------------
  // The store

  /** `profile.Path`. */
  function Path(dir: string, name: string): string {
    Paths.JoinPath([dir, name])
  }

  /** The path of a validly named profile is a direct child of its root:
      its last element is the name and its parent is the cleaned root. */
  lemma PathIsDirectChild(dir: string, name: string)
    requires IsValidName(name)
    ensures Paths.Base(Path(dir, name)) == name
    ensures Paths.Dir(Path(dir, name)) == Paths.Clean(dir)
  {
    ValidNameIsPlainElement(name);
    Paths.JoinIsDirectChild(dir, name);
  }

  /** `profile.Create`. */
  function Create(fs: FS, dir: string, name: string): (r: Effect<Profile>)
    ensures !IsValidName(name) ==> r == Effect(fs, Failure(InvalidName))
    ensures IsValidName(name) && Path(dir, name) in fs ==> r.fs == fs && r.result.Failure?
    ensures IsValidName(name) && Path(dir, name) in fs && fs[Path(dir, name)] == Dir ==>
      Is(r.result.error, ErrAlreadyExists)
    ensures IsValidName(name) && Path(dir, name) in fs && fs[Path(dir, name)].File? ==>
      r.result == Failure(IsAFile(Path(dir, name))) && !Is(r.result.error, ErrAlreadyExists)
    ensures IsValidName(name) && Path(dir, name) in fs && fs[Path(dir, name)].Inaccessible? ==>
      Is(r.result.error, ErrPermission)
    ensures r.result.Success? ==>
      && Path(dir, name) !in fs
      && r.result.value == Profile(dir, name, Path(dir, name))
      && Path(dir, name) in r.fs && r.fs[Path(dir, name)] == Dir
    ensures IsValidName(name) && Path(dir, name) !in fs && AncestorsAreDirs(fs, Path(dir, name)) ==>
      r.result.Success?
    ensures IsValidName(name) && Path(dir, name) !in fs && ParentIsDir(fs, Path(dir, name)) ==>
      r == Effect(fs[Path(dir, name) := Dir], Success(Profile(dir, name, Path(dir, name))))
    ensures forall k :: k in fs ==> k in r.fs && r.fs[k] == fs[k]
    ensures forall k :: k in r.fs && k !in fs ==> r.fs[k] == Dir && HasPrefix(Path(dir, name), k)
  {
    if !IsValidName(name) then Effect(fs, Failure(InvalidName))
    else
      var path := Path(dir, name);
      match Stat(fs, path)
      case Failure(err) =>
        if Is(err, ErrNotExist) then
          MkdirAllSucceeds(fs, path);
          var made := MkdirAll(fs, path);
          if made.result.Failure? then Effect(made.fs, Failure(made.result.error))
          else Effect(made.fs, Success(Profile(dir, name, path)))
        else Effect(fs, Failure(err))
      case Success(entry) =>
        if !entry.Dir? then Effect(fs, Failure(IsAFile(path)))
        else Effect(fs, Failure(AlreadyExists(path)))
  }

  /** On a first run, with only the root directory in place, creating a
      profile succeeds: the profile root and its parents are made too. */
  lemma FirstRunCreate(dir: string, name: string)
    requires IsValidName(name)
    ensures var r := Create(map["/" := Dir], dir, name);
            && r.result == Success(Profile(dir, name, Path(dir, name)))
            && r.fs[Path(dir, name)] == Dir
  {
    var fs := map["/" := Dir];
    var p := Path(dir, name);
    ProfilePathIsNotRoot(dir, name);
    assert p !in fs;
    assert AncestorsAreDirs(fs, p);
  }

  lemma ProfilePathIsNotRoot(dir: string, name: string)
    requires IsValidName(name)
    ensures Path(dir, name) != "/"
  {
    PathIsDirectChild(dir, name);
    ValidNameIsPlainElement(name);
    assert Paths.TrimTrailingSlashes("/") == "";
    assert Paths.Base("/") == "/";
    assert "/"[0] == '/';
  }

  /** `profile.Read`; it never changes the file system. */
  function Read(fs: FS, dir: string, name: string): (r: Result<Profile, Error>)
    ensures !IsValidName(name) ==> r == Failure(InvalidName)
    ensures IsValidName(name) && Path(dir, name) !in fs ==> r.Failure? && Is(r.error, ErrNotExist)
    ensures IsValidName(name) && Path(dir, name) in fs ==>
      match fs[Path(dir, name)]
      case File(_) => r == Failure(IsAFile(Path(dir, name)))
      case Dir => r == Success(Profile(dir, name, Path(dir, name)))
      case Inaccessible => r.Failure? && Is(r.error, ErrPermission)
  {
    if !IsValidName(name) then Failure(InvalidName)
    else
      var path := Path(dir, name);
      match Stat(fs, path)
      case Failure(err) => Failure(err)
      case Success(entry) =>
        if !entry.Dir? then Failure(IsAFile(path)) else Success(Profile(dir, name, path))
  }

  /** `profile.Remove`: whatever is at the path goes, with everything
      beneath it; there is no check that it is a directory. An unreadable
      entry beneath the path makes the removal fail part-way. */
  function Remove(fs: FS, dir: string, name: string): (r: Effect<()>)
    ensures !IsValidName(name) ==> r == Effect(fs, Failure(InvalidName))
    ensures IsValidName(name) && Path(dir, name) !in fs ==>
      r.fs == fs && r.result.Failure? && Is(r.result.error, ErrNotExist)
    ensures IsValidName(name) && Path(dir, name) in fs && fs[Path(dir, name)].Inaccessible? ==>
      r.fs == fs && r.result.Failure? && Is(r.result.error, ErrPermission)
    ensures IsValidName(name) && Path(dir, name) in fs && !fs[Path(dir, name)].Inaccessible? ==>
      && (r.result.Success? <==> forall i :: !Unreadable(fs, Path(dir, name), i))
      && (r.result.Success? ==> forall k :: k in r.fs <==> k in fs && !Paths.IsWithin(k, Path(dir, name)))
      && (r.result.Failure? ==>
            && Is(r.result.error, ErrPermission)
            && Path(dir, name) in r.fs
            && forall i :: Unreadable(fs, Path(dir, name), i) ==> i in r.fs)
    ensures forall k :: k in r.fs ==> k in fs && r.fs[k] == fs[k]
    ensures forall k :: k in fs && !Paths.IsWithin(k, Path(dir, name)) ==> k in r.fs
  {
    if !IsValidName(name) then Effect(fs, Failure(InvalidName))
    else
      var path := Path(dir, name);
      match Stat(fs, path)
      case Failure(err) => Effect(fs, Failure(err))
      case Success(_) =>
        RemoveAllOutcome(fs, path);
        RemoveAll(fs, path)
  }

  /** `profile.IsProfileDirExist`: the path is trimmed of white space first;
      a missing directory is not an error, a regular file is. */
  function IsProfileDirExist(fs: FS, path: string): (r: Result<bool, Error>)
    ensures AllSpace(path) ==> r == Failure(EmptyPath(""))
    ensures !AllSpace(path) && TrimSpace(path) !in fs ==> r == Success(false)
    ensures !AllSpace(path) && TrimSpace(path) in fs ==>
      match fs[TrimSpace(path)]
      case File(_) => r == Failure(IsAFile(TrimSpace(path)))
      case Dir => r == Success(true)
      case Inaccessible => r.Failure? && Is(r.error, ErrPermission)
  {
    var p := TrimSpace(path);
    if p == "" then Failure(EmptyPath(p))
    else
      match Stat(fs, p)
      case Failure(err) => if Is(err, ErrNotExist) then Success(false) else Failure(err)
      case Success(entry) => if !entry.Dir? then Failure(IsAFile(p)) else Success(true)
  }

  /** Only the trimmed path matters: trimming it first changes nothing. */
  lemma IsProfileDirExistTrims(fs: FS, path: string)
    ensures IsProfileDirExist(fs, TrimSpace(path)) == IsProfileDirExist(fs, path)
  {
    TrimSpaceIdempotent(path);
  }

  /** On a profile path without surrounding white space, the directory
      check and `Read` agree: the directory exists exactly when the profile
      reads, and is reported missing exactly when reading finds nothing. */
  lemma ProfileDirExistMatchesRead(fs: FS, dir: string, name: string)
    requires IsValidName(name)
    requires TrimSpace(Path(dir, name)) == Path(dir, name)
    ensures IsProfileDirExist(fs, Path(dir, name)) == Success(true) <==> Read(fs, dir, name).Success?
    ensures IsProfileDirExist(fs, Path(dir, name)) == Success(false) <==>
      Read(fs, dir, name).Failure? && Is(Read(fs, dir, name).error, ErrNotExist)
  {
    var p := Path(dir, name);
    ProfilePathIsNotRoot(dir, name);
    assert !AllSpace(p) by {
      if AllSpace(p) {
        assert TrimSpace(p) == [];
        PathIsDirectChild(dir, name);
        assert Paths.Base([]) == ".";
        ValidNameCharacterization(name);
        ValidNameIsPlainElement(name);
      }
    }
  }

  // -----------------------------------------------------------------------
  // Lifecycle

  /** Create, then create again, remove, and read: the second create finds
      the profile; the removal succeeds unless something unreadable lay
      beneath the new path already, and after it the profile is gone. */
  lemma CreateRemoveReadScenario(fs: FS, dir: string, name: string)
    requires Create(fs, dir, name).result.Success?
    ensures var fs1 := Create(fs, dir, name).fs;
            && Create(fs1, dir, name).result.Failure?
            && Is(Create(fs1, dir, name).result.error, ErrAlreadyExists)
            && (Remove(fs1, dir, name).result.Success? <==> forall i :: !Unreadable(fs, Path(dir, name), i))
            && (Remove(fs1, dir, name).result.Success? ==>
                  && Read(Remove(fs1, dir, name).fs, dir, name).Failure?
                  && Is(Read(Remove(fs1, dir, name).fs, dir, name).error, ErrNotExist))
  {
    var p := Path(dir, name);
    var fs1 := Create(fs, dir, name).fs;
    forall i ensures Unreadable(fs1, p, i) <==> Unreadable(fs, p, i) {
      if i in fs1 && i !in fs {
        assert fs1[i] == Dir;
      }
    }
  }

  /** Create, remove, create gives the same profile as the first create,
      and the directory is back with nothing outside it disturbed; when the
      removal fails part-way, the second create finds the profile still
      there. */
  lemma CreateRemoveCreate(fs: FS, dir: string, name: string)
    requires Create(fs, dir, name).result.Success?
    ensures var fs1 := Create(fs, dir, name).fs;
            var again := Create(Remove(fs1, dir, name).fs, dir, name);
            && (Remove(fs1, dir, name).result.Success? ==>
                  && again.result == Create(fs, dir, name).result
                  && again.fs == RemoveAll(fs1, Path(dir, name)).fs[Path(dir, name) := Dir])
            && (Remove(fs1, dir, name).result.Failure? ==>
                  again.result.Failure? && Is(again.result.error, ErrAlreadyExists))
  {
    var p := Path(dir, name);
    var made := MkdirAll(fs, p);
    var fs1 := Create(fs, dir, name).fs;
    assert fs1 == made.fs;
    var removed := Remove(fs1, dir, name);
    if removed.result.Success? {
      var fs2 := removed.fs;
      assert fs2 == RemoveAll(fs1, p).fs;
      assert ParentIsDir(fs2, p) by {
        var parent := MkdirParent(p);
        if parent.Some? {
          assert !Paths.IsWithin(parent.value, p);
        }
      }
    }
  }
}
