/** Desktop entries: one `.desktop` file per profile, in the format of the
    Desktop Entry Specification (version 1.1), that starts Telegram Desktop
    with that profile. */
module Desktop {
  import opened Wrappers
  import opened Errors
  import opened Strings
  import opened FileSystem
  import Paths

  /** The file name of the entry for profile `name`. */
  function FileName(name: string): string {
    "telegramdesktop." + name + ".desktop"
  }

  /** `desktop.Path`. */
  function Path(dir: string, name: string): string {
    Paths.JoinPath([dir, FileName(name)])
  }

  /** For a name without a slash the entry lies directly in `dir`. */
  lemma PathIsDirectChild(dir: string, name: string)
    requires '/' !in name
    ensures Paths.Base(Path(dir, name)) == FileName(name)
    ensures Paths.Dir(Path(dir, name)) == Paths.Clean(dir)
  {
    var f := FileName(name);
    assert f[0] == 't';
    forall i | 0 <= i < |f| ensures f[i] != '/' {
      if 16 <= i < 16 + |name| {
        assert f[i] == name[i - 16];
      }
    }
    assert Paths.IsPlainElement(f);
    Paths.JoinIsDirectChild(dir, f);
  }

  /** `desktop.Exist`. */
  function Exist(fs: FS, dir: string, name: string): (r: Result<bool, Error>)
    ensures r == Success(true) <==> Path(dir, name) in fs && !fs[Path(dir, name)].Inaccessible?
    ensures r == Success(false) <==> Path(dir, name) !in fs
  {
    FileSystem.Exist(fs, Path(dir, name))
  }

  /** `desktop.Exist` is the shared existence check on the entry path, and
      it agrees with `Remove`: an entry is missing exactly when removing it
      fails with not-exist. */
  lemma ExistAgreesWithRemove(fs: FS, dir: string, name: string)
    ensures Exist(fs, dir, name) == FileSystem.Exist(fs, Path(dir, name))
    ensures Exist(fs, dir, name) == Success(false) <==>
      Remove(fs, dir, name).result.Failure? && Is(Remove(fs, dir, name).result.error, ErrNotExist)
  {
  }

  // -----------------------------------------------------------------------
  // Entry contents

  datatype Field = Field(key: string, value: string)

  const Header := "[Desktop Entry]"

  /** The file text of a group header followed by `key=value` lines, each
      line ended by a newline. */
  function Render(fields: seq<Field>): string {
    Header + "\n" + RenderFields(fields)
  }

  function RenderFields(fields: seq<Field>): string {
    if fields == [] then ""
    else fields[0].key + "=" + fields[0].value + "\n" + RenderFields(fields[1..])
  }

  /** The lines of the entry's template after its group header, with the
      profile's name, the `TryExec` program and the `Exec` command filled
      in; the template engine inserts the values as they are. */
  function EntryFields(name: string, tryExec: string, exec: string): seq<Field> {
    [ Version, Type, Field("Name", "Telegram Desktop – " + name), Icon,
      Field("TryExec", tryExec), Field("Exec", exec),
      Terminal, Categories, Keywords, StartupWMClass, UsesNotifications ]
  }

  const Version := Field("Version", "1.1")
  const Type := Field("Type", "Application")
  const Icon := Field("Icon", "telegram")
  const Terminal := Field("Terminal", "false")
  const Categories := Field("Categories", "Chat;Network;InstantMessaging;Qt;")
  const Keywords := Field("Keywords", "tg;chat;im;messaging;messenger;sms;tdesktop;")
  const StartupWMClass := Field("StartupWMClass", "TelegramDesktop")
  const UsesNotifications := Field("X-GNOME-UsesNotifications", "true")

  /** The text `Create` writes. */
  function EntryText(name: string, tryExec: string, exec: string): string {
    Render(EntryFields(name, tryExec, exec))
  }

  /** Reads an entry back: the header line, then one `key=value` line per
      field, split at the first `=`. */
  function Parse(text: string): Option<seq<Field>> {
    var h := Header + "\n";
    if HasPrefix(text, h) then ParseFields(text[|h|..]) else None
  }

  function ParseFields(text: string): Option<seq<Field>>
    decreases |text|
  {
    if text == "" then Some([])
    else if '\n' !in text then None
    else
      var i := IndexOf(text, '\n');
      var line := text[..i];
      if '=' !in line then None
      else
        var j := IndexOf(line, '=');
        match ParseFields(text[i + 1..])
        case None => None
        case Some(rest) => Some([Field(line[..j], line[j + 1..])] + rest)
  }

  /** A field a line can carry: its key has no `=` and neither part a newline. */
  predicate WellFormed(f: Field) {
    Lacks(f.key, '=') && Lacks(f.key, '\n') && Lacks(f.value, '\n')
  }

  predicate Lacks(s: string, c: char) {
    forall i :: 0 <= i < |s| ==> s[i] != c
  }

  lemma {:induction false} ParseRenderFields(fields: seq<Field>)
    requires forall i :: 0 <= i < |fields| ==> WellFormed(fields[i])
    ensures ParseFields(RenderFields(fields)) == Some(fields)
  {
    if fields != [] {
      var f, rest := fields[0], fields[1..];
      assert WellFormed(f);
      forall i | 0 <= i < |rest| ensures WellFormed(rest[i]) {
        assert rest[i] == fields[i + 1];
      }
      assert RenderFields(fields) == f.key + "=" + f.value + "\n" + RenderFields(rest);
      ParseFieldsCons(f, RenderFields(rest));
      ParseRenderFields(rest);
      assert fields == [f] + rest;
    }
  }

  /** A well-formed field's line parses off the front of the text. */
  lemma ParseFieldsCons(f: Field, rest: string)
    requires WellFormed(f)
    ensures ParseFields(f.key + "=" + f.value + "\n" + rest) ==
      if ParseFields(rest).Some? then Some([f] + ParseFields(rest).value) else None
  {
    var line := f.key + "=" + f.value;
    var text := line + "\n" + rest;
    assert text[|line|] == '\n' && text[..|line|] == line;
    LineHasNoNewline(f);
    assert IndexOf(text, '\n') == |line|;
    assert line[|f.key|] == '=' && line[..|f.key|] == f.key;
    assert IndexOf(line, '=') == |f.key|;
    assert line[|f.key| + 1..] == f.value;
    assert text[|line| + 1..] == rest;
  }

  lemma LineHasNoNewline(f: Field)
    requires WellFormed(f)
    ensures '\n' !in f.key + "=" + f.value
  {
    var line := f.key + "=" + f.value;
    forall k | 0 <= k < |line| ensures line[k] != '\n' {
      if k < |f.key| { assert line[k] == f.key[k]; }
      else if k > |f.key| { assert line[k] == f.value[k - |f.key| - 1]; }
    }
  }

  /** Rendering then parsing gives the fields back. */
  lemma ParseRender(fields: seq<Field>)
    requires forall i :: 0 <= i < |fields| ==> WellFormed(fields[i])
    ensures Parse(Render(fields)) == Some(fields)
  {
    var h := Header + "\n";
    assert Render(fields)[..|h|] == h;
    assert Render(fields)[|h|..] == RenderFields(fields);
    ParseRenderFields(fields);
  }

  /** The fields of the entry can be written as lines so long as the three
      values have no newline. */
  lemma EntryFieldsWellFormed(name: string, tryExec: string, exec: string)
    requires '\n' !in name && '\n' !in tryExec && '\n' !in exec
    ensures var fs := EntryFields(name, tryExec, exec);
            forall i :: 0 <= i < |fs| ==> WellFormed(fs[i])
  {
    var fs := EntryFields(name, tryExec, exec);
    NameHasNoNewline(name);
    FixedFieldsWellFormed();
    forall i | 0 <= i < |fs| ensures WellFormed(fs[i]) {
      if i == 2 {
        assert fs[i].key == "Name";
      } else if i == 4 {
        assert fs[i].key == "TryExec";
      } else if i == 5 {
        assert fs[i].key == "Exec";
      }
    }
  }

  lemma FixedFieldsWellFormed()
    ensures WellFormed(Version) && WellFormed(Type) && WellFormed(Icon) && WellFormed(Terminal)
    ensures WellFormed(Categories) && WellFormed(Keywords)
    ensures WellFormed(StartupWMClass) && WellFormed(UsesNotifications)
  {
    VersionWellFormed();
    TypeWellFormed();
    IconWellFormed();
    TerminalWellFormed();
    CategoriesWellFormed();
    KeywordsWellFormed();
    StartupWMClassWellFormed();
    UsesNotificationsWellFormed();
  }

  lemma VersionWellFormed() ensures WellFormed(Version) { }
  lemma TypeWellFormed() ensures WellFormed(Type) { }
  lemma IconWellFormed() ensures WellFormed(Icon) { }
  lemma TerminalWellFormed() ensures WellFormed(Terminal) { }
  lemma CategoriesWellFormed() ensures WellFormed(Categories) { }
  lemma KeywordsWellFormed() ensures WellFormed(Keywords) { }
  lemma StartupWMClassWellFormed() ensures WellFormed(StartupWMClass) { }
  lemma UsesNotificationsWellFormed() ensures WellFormed(UsesNotifications) { }

  lemma NameHasNoNewline(name: string)
    requires '\n' !in name
    ensures Lacks("Telegram Desktop – " + name, '\n')
  {
    var n := "Telegram Desktop – " + name;
    forall k | 0 <= k < |n| ensures n[k] != '\n' {
      if k >= 19 { assert n[k] == name[k - 19]; }
    }
  }

  /** Whatever goes into the three fields, as long as it has no newline,
      reads back from the written entry as those fields and nothing else. */
  lemma EntryRoundTrip(name: string, tryExec: string, exec: string)
    requires '\n' !in name && '\n' !in tryExec && '\n' !in exec
    ensures Parse(EntryText(name, tryExec, exec)) == Some(EntryFields(name, tryExec, exec))
  {
    EntryFieldsWellFormed(name, tryExec, exec);
    ParseRender(EntryFields(name, tryExec, exec));
  }

  /** The keys of the entry do not depend on the profile, and no key occurs
      twice in the group, as the "Basic format of the file" section of the
      Desktop Entry Specification requires. */
  lemma EntryKeysFixedAndDistinct(name: string, tryExec: string, exec: string, name': string, tryExec': string, exec': string)
    ensures var fs := EntryFields(name, tryExec, exec);
            var fs' := EntryFields(name', tryExec', exec');
            && |fs| == |fs'|
            && (forall i :: 0 <= i < |fs| ==> fs[i].key == fs'[i].key)
            && (forall i, j :: 0 <= i < j < |fs| ==> fs[i].key != fs[j].key)
  {
  }

  // -----------------------------------------------------------------------
  // Creating and removing

  /** `desktop.Create`: the entry file is created, or truncated and
      rewritten when it exists. */
  function Create(fs: FS, dir: string, name: string, tryExec: string, exec: string): (r: Effect<()>)
    ensures r.result.Success? <==>
      (Path(dir, name) in fs && fs[Path(dir, name)].File?)
      || (Path(dir, name) !in fs && DirectoryOfExists(fs, Path(dir, name)))
    ensures r.result.Success? ==>
      r.fs == fs[Path(dir, name) := File(EntryText(name, tryExec, exec))]
    ensures r.result.Failure? ==> r.fs == fs
  {
    WriteFile(fs, Path(dir, name), EntryText(name, tryExec, exec))
  }

  /** `desktop.Remove`: the entry goes, with anything beneath it; an
      unreadable entry beneath it makes the removal fail part-way. */
  function Remove(fs: FS, dir: string, name: string): (r: Effect<()>)
    ensures Path(dir, name) !in fs ==>
      r.fs == fs && r.result.Failure? && Is(r.result.error, ErrNotExist)
    ensures Path(dir, name) in fs && fs[Path(dir, name)].Inaccessible? ==>
      r.fs == fs && r.result.Failure? && !Is(r.result.error, ErrNotExist)
    ensures Path(dir, name) in fs && !fs[Path(dir, name)].Inaccessible? ==>
      && (r.result.Success? <==> forall i :: !Unreadable(fs, Path(dir, name), i))
      && (r.result.Success? ==> forall k :: k in r.fs <==> k in fs && !Paths.IsWithin(k, Path(dir, name)))
      && (r.result.Failure? ==>
            && Is(r.result.error, ErrPermission) && !Is(r.result.error, ErrNotExist)
            && Path(dir, name) in r.fs
            && forall i :: Unreadable(fs, Path(dir, name), i) ==> i in r.fs)
    ensures forall k :: k in r.fs ==> k in fs && r.fs[k] == fs[k]
    ensures forall k :: k in fs && !Paths.IsWithin(k, Path(dir, name)) ==> k in r.fs
  {
    var path := Path(dir, name);
    match Stat(fs, path)
    case Failure(err) => Effect(fs, Failure(err))
    case Success(_) =>
      RemoveAllOutcome(fs, path);
      RemoveAll(fs, path)
  }

  /** A created entry can be read back whole, and removing it leaves it
      missing unless something unreadable lies beneath its path. */
  lemma CreateReadRemove(fs: FS, dir: string, name: string, tryExec: string, exec: string)
    requires Create(fs, dir, name, tryExec, exec).result.Success?
    requires '\n' !in name && '\n' !in tryExec && '\n' !in exec
    ensures var fs1 := Create(fs, dir, name, tryExec, exec).fs;
            && Exist(fs1, dir, name) == Success(true)
            && ReadFile(fs1, Path(dir, name)) == Success(EntryText(name, tryExec, exec))
            && Parse(ReadFile(fs1, Path(dir, name)).value) == Some(EntryFields(name, tryExec, exec))
            && (Remove(fs1, dir, name).result.Success? <==> forall i :: !Unreadable(fs1, Path(dir, name), i))
            && (Remove(fs1, dir, name).result.Success? ==>
                  Exist(Remove(fs1, dir, name).fs, dir, name) == Success(false))
  {
    EntryRoundTrip(name, tryExec, exec);
  }
}
