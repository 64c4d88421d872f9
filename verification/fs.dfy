/** The file system the program sees, as a map from path to what is there.
    A path that is not a key is missing. `Inaccessible` stands for a path
    whose `stat` fails for another reason than absence (permission denied),
    so every error branch of the program has an input that reaches it.

    Paths are keys exactly as the program passes them to the operating
    system; the system's own name resolution (duplicate slashes, symbolic
    links inside a path, relative paths against the working directory) is
    not modelled, and the root and the working directory always exist. */
module FileSystem {
  import opened Wrappers
  import opened Errors
  import opened Strings
  import Paths

  datatype Entry = File(content: string) | Dir | Inaccessible

  type FS = map<string, Entry>

  /** The outcome of an operation that may change the file system. */
  datatype Effect<T> = Effect(fs: FS, result: Result<T, Error>)

  /** `os.Stat`. */
  function Stat(fs: FS, p: string): (r: Result<Entry, Error>)
    ensures r.Success? <==> p in fs && !fs[p].Inaccessible?
    ensures r.Success? ==> r.value == fs[p]
    ensures r.Failure? ==> (Is(r.error, ErrNotExist) <==> p !in fs)
    ensures r.Failure? ==> (Is(r.error, ErrPermission) <==> p in fs)
  {
    if p !in fs then Failure(PathError("stat", p, ENOENT))
    else if fs[p].Inaccessible? then Failure(PathError("stat", p, EACCES))
    else Success(fs[p])
  }

  /** `config.Exist` (and `util.Exist`, which its tests describe the same
      way): absence is `false`, any other `stat` failure is an error. */
  function Exist(fs: FS, p: string): (r: Result<bool, Error>)
    ensures r == Success(true) <==> p in fs && !fs[p].Inaccessible?
    ensures r == Success(false) <==> p !in fs
    ensures r.Failure? <==> p in fs && fs[p].Inaccessible?
  {
    match Stat(fs, p)
    case Success(_) => Success(true)
    case Failure(e) => if Is(e, ErrNotExist) then Success(false) else Failure(e)
  }

  /** The start of the last element of `p[..i]`. */
  function ElementStart(p: string, i: nat): (j: nat)
    requires i <= |p|
    ensures j <= i
    ensures j == 0 || p[j - 1] == '/'
  {
    if i > 0 && p[i - 1] != '/' then ElementStart(p, i - 1) else i
  }

  /** The path `os.MkdirAll` creates first: `p` without its trailing slashes,
      its last element and the slash before it, when more than one
      character remains. */
  function MkdirParent(p: string): (r: Option<string>)
    ensures r.Some? ==> |r.value| < |p| && HasPrefix(p, r.value)
  {
    var i := |Paths.TrimTrailingSlashes(p)|;
    var j := ElementStart(p, i);
    if j > 1 then Some(p[..j - 1]) else None
  }

  /** `p` can be made by a single `mkdir`: the directory it goes in exists. */
  predicate ParentIsDir(fs: FS, p: string) {
    var parent := MkdirParent(p);
    parent.None? || (parent.value in fs && fs[parent.value] == Dir)
  }

  /** `os.MkdirAll(p, 0755)`. */
  function MkdirAll(fs: FS, p: string): (r: Effect<()>)
    decreases |p|
    ensures forall k :: k in fs ==> k in r.fs && r.fs[k] == fs[k]
    ensures forall k :: k in r.fs && k !in fs ==> r.fs[k] == Dir && HasPrefix(p, k)
    ensures r.result.Success? ==> p in r.fs && r.fs[p] == Dir
    ensures r.result.Success? && p !in fs ==> ParentIsDir(r.fs, p)
    ensures p in fs && fs[p] == Dir ==> r == Effect(fs, Success(()))
    ensures p in fs && fs[p].File? ==> r.fs == fs && r.result.Failure?
    ensures p !in fs && ParentIsDir(fs, p) ==> r == Effect(fs[p := Dir], Success(()))
  {
    if p in fs && fs[p] == Dir then Effect(fs, Success(()))
    else if p in fs && fs[p].File? then Effect(fs, Failure(PathError("mkdir", p, ENOTDIR)))
    else
      var parent := MkdirParent(p);
      var pre := if parent.Some? then MkdirAll(fs, parent.value) else Effect(fs, Success(()));
      if pre.result.Failure? then pre
      else if p in fs then Effect(pre.fs, Failure(PathError("mkdir", p, EACCES)))
      else Effect(pre.fs[p := Dir], Success(()))
  }

  /** Every entry on the way to `p`, `p` included, is a directory. */
  predicate AncestorsAreDirs(fs: FS, p: string) {
    forall a :: a in fs && Paths.IsWithin(p, a) ==> fs[a] == Dir
  }

  /** `os.MkdirAll` succeeds whenever nothing on the way to `p` is a file
      or unreadable, however many of the directories are missing. */
  lemma {:induction false} MkdirAllSucceeds(fs: FS, p: string)
    ensures AncestorsAreDirs(fs, p) ==> MkdirAll(fs, p).result.Success?
    decreases |p|
  {
    var parent := MkdirParent(p);
    if AncestorsAreDirs(fs, p) && p !in fs && parent.Some? {
      MkdirParentIsAncestor(p);
      forall a | a in fs && Paths.IsWithin(parent.value, a) ensures fs[a] == Dir {
        WithinTrans(p, parent.value, a);
      }
      MkdirAllSucceeds(fs, parent.value);
    }
  }

  /** The directory `os.MkdirAll` makes first holds `p`. */
  lemma MkdirParentIsAncestor(p: string)
    requires MkdirParent(p).Some?
    ensures Paths.IsWithin(p, MkdirParent(p).value)
  {
    var i := |Paths.TrimTrailingSlashes(p)|;
    var j := ElementStart(p, i);
    assert p[..j] == p[..j - 1] + "/";
  }

  lemma WithinTrans(p: string, q: string, a: string)
    requires Paths.IsWithin(p, q) && Paths.IsWithin(q, a)
    ensures Paths.IsWithin(p, a)
  {
    if q != a && p != q {
      assert p[..|a| + 1] == q[..|a| + 1];
    }
  }

  /** An entry beneath `p` whose `stat` fails: `os.RemoveAll(p)` can
      neither unlink it nor look inside it. */
  predicate Unreadable(fs: FS, p: string, i: string) {
    i in fs && fs[i].Inaccessible? && Paths.IsWithin(i, p)
  }

  /** `k` stays behind when `os.RemoveAll(p)` meets unreadable entries: it
      is one of them, lies beneath one, or is a directory on the way to one
      and so never becomes empty. */
  predicate Blocked(fs: FS, p: string, k: string) {
    exists i :: i in fs && Unreadable(fs, p, i) && (Paths.IsWithin(i, k) || Paths.IsWithin(k, i))
  }

  /** `os.RemoveAll(p)`: `p` and everything beneath it disappear. An
      unreadable entry beneath `p` makes it fail with a permission error,
      after it has removed everything else it could. */
  function RemoveAll(fs: FS, p: string): (r: Effect<()>)
    ensures r.result.Success? <==> forall i :: !Unreadable(fs, p, i)
    ensures r.result.Failure? ==> Is(r.result.error, ErrPermission) && !Is(r.result.error, ErrNotExist)
    ensures forall k :: k in r.fs <==> k in fs && (!Paths.IsWithin(k, p) || Blocked(fs, p, k))
    ensures forall k :: k in r.fs ==> r.fs[k] == fs[k]
  {
    var kept := map k | k in fs && (!Paths.IsWithin(k, p) || Blocked(fs, p, k)) :: fs[k];
    if exists i :: i in fs && Unreadable(fs, p, i) then
      Effect(kept, Failure(PathError("unlinkat", p, EACCES)))
    else Effect(kept, Success(()))
  }

  /** Without unreadable entries beneath `p`, exactly the entries outside
      `p` remain; with one, `p` itself remains too. */
  lemma RemoveAllOutcome(fs: FS, p: string)
    ensures RemoveAll(fs, p).result.Success? ==>
      forall k :: k in RemoveAll(fs, p).fs <==> k in fs && !Paths.IsWithin(k, p)
    ensures RemoveAll(fs, p).result.Failure? && p in fs ==> p in RemoveAll(fs, p).fs
    ensures forall i :: Unreadable(fs, p, i) ==> i in RemoveAll(fs, p).fs
  {
    if RemoveAll(fs, p).result.Failure? && p in fs {
      var i :| Unreadable(fs, p, i);
      assert Paths.IsWithin(i, p);
      assert Blocked(fs, p, p);
    }
    forall i | Unreadable(fs, p, i) ensures i in RemoveAll(fs, p).fs {
      assert Paths.IsWithin(i, i);
      assert Blocked(fs, p, i);
    }
  }

  /** The directory a new file goes in exists. */
  predicate DirectoryOfExists(fs: FS, p: string) {
    var d := Paths.Dir(p);
    d == "/" || d == "." || (d in fs && fs[d] == Dir)
  }

  /** `os.Create(p)` or `ioutil.WriteFile(p, ...)` followed by writing
      `content`: an existing file is truncated and overwritten. */
  function WriteFile(fs: FS, p: string, content: string): (r: Effect<()>)
    ensures r.result.Success? <==> (p in fs && fs[p].File?) || (p !in fs && DirectoryOfExists(fs, p))
    ensures r.result.Success? ==> r.fs == fs[p := File(content)]
    ensures r.result.Failure? ==> r.fs == fs
  {
    if p in fs then
      match fs[p]
      case File(_) => Effect(fs[p := File(content)], Success(()))
      case Dir => Effect(fs, Failure(PathError("open", p, EISDIR)))
      case Inaccessible => Effect(fs, Failure(PathError("open", p, EACCES)))
    else if DirectoryOfExists(fs, p) then Effect(fs[p := File(content)], Success(()))
    else Effect(fs, Failure(PathError("open", p, ENOENT)))
  }

  /** `ioutil.ReadFile(p)`. */
  function ReadFile(fs: FS, p: string): (r: Result<string, Error>)
    ensures r.Success? <==> p in fs && fs[p].File?
    ensures r.Success? ==> r.value == fs[p].content
    ensures r.Failure? ==> (Is(r.error, ErrNotExist) <==> p !in fs)
  {
    if p !in fs then Failure(PathError("open", p, ENOENT))
    else
      match fs[p]
      case File(content) => Success(content)
      case Dir => Failure(PathError("read", p, EISDIR))
      case Inaccessible => Failure(PathError("open", p, EACCES))
  }

  /** Removing a path that was just added, with nothing beneath it before,
      restores the file system. */
  lemma RemoveAllUndoesAdd(fs: FS, p: string, e: Entry)
    requires forall k :: k in fs ==> !Paths.IsWithin(k, p)
    requires !e.Inaccessible?
    ensures RemoveAll(fs[p := e], p) == Effect(fs, Success(()))
  {
    var fs' := fs[p := e];
    forall i ensures !Unreadable(fs', p, i) {
      if i in fs' && Paths.IsWithin(i, p) {
        assert i == p;
      }
    }
    var r := RemoveAll(fs', p);
    assert Paths.IsWithin(p, p);
    assert forall k :: k in r.fs <==> k in fs;
  }

  /** `Exist` follows the changes the other operations make: a written file
      or a made directory exists, a removed path no longer does. */
  lemma ExistTracksChanges(fs: FS, p: string, content: string)
    ensures WriteFile(fs, p, content).result.Success? ==>
      Exist(WriteFile(fs, p, content).fs, p) == Success(true)
    ensures MkdirAll(fs, p).result.Success? ==> Exist(MkdirAll(fs, p).fs, p) == Success(true)
    ensures RemoveAll(fs, p).result.Success? ==> Exist(RemoveAll(fs, p).fs, p) == Success(false)
  {
    assert Paths.IsWithin(p, p);
  }
}
