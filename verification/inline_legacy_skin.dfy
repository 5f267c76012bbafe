/** The header-only legacy skin loader: it reads skin.ini alone (no directory
    scan), insists on the INI before anything else, checks the required keys up
    front and loads nothing at all unless they all pass. Its factory does no
    whitespace or letter-case folding; only a separator other than a space becomes ':'. */
module InlineLegacySkin {
  import opened Common
  import opened Fs
  import opened Renderables
  import opened Skins

  /** The INI keys that must hold a non-empty value; all but the first must also name an
      existing file. */
  const RequiredKeys: seq<string> := [
    "info/name",
    "files/1", "files/2", "files/3", "files/4", "files/5",
    "files/6", "files/7", "files/8", "files/9", "files/0",
    "files/s1"
  ]

  /** The [files] key of each required character, in the order the key list holds them
      (from index 1). */
  function FileIndex(c: char): (i: int)
    requires IsRequiredChar(c)
    ensures 1 <= i < |RequiredKeys| && KeyOf(c).Some? && RequiredKeys[i] == GroupKey("files", KeyOf(c).value)
  {
    if c == ':' then 11 else if c == '0' then 10 else c as int - '0' as int
  }

  /** The required character a [files] entry of the key list stands for. */
  function CharAt(i: int): (c: char)
    requires 1 <= i < |RequiredKeys|
    ensures IsRequiredChar(c) && FileIndex(c) == i
  {
    if i == 11 then ':' else if i == 10 then '0' else ('0' as int + i) as char
  }

  /** has_empty_value(k). */
  predicate EmptyValue(s: map<string, string>, k: string)
  {
    Get(s, k) == ""
  }

  /** file_exists(k): the value, taken as a name relative to the skin directory, exists. */
  predicate FileExists(d: Dir, s: map<string, string>, k: string)
  {
    Exists(d, Get(s, k))
  }

  /** The two up-front checks of init: no required key is empty, and the eleven file
      keys name existing files. */
  predicate Checked(d: Dir, s: map<string, string>)
  {
    && !(exists i :: 0 <= i < |RequiredKeys| && EmptyValue(s, RequiredKeys[i]))
    && (forall i :: 1 <= i < 12 ==> FileExists(d, s, RequiredKeys[i]))
  }

  /** The path add_file stores for [files] `key`: the directory path of a non-empty value
      that exists, else "" (nothing stored). */
  function Resolve(d: Dir, s: map<string, string>, key: string): (p: string)
    ensures p != "" <==> Get(s, GroupKey("files", key)) != "" && Exists(d, Get(s, GroupKey("files", key)))
    ensures p != "" ==> p == FilePath(d, Get(s, GroupKey("files", key)))
  {
    var file := Get(s, GroupKey("files", key));
    if file != "" && Exists(d, file) then FilePath(d, file) else ""
  }

  /** The path loadFiles stores for character `c`, or "" when it stores none. */
  function Entry(d: Dir, s: map<string, string>, c: char): string
  {
    match KeyOf(c)
    case Some(key) => Resolve(d, s, key)
    case None => ""
  }

  /** add_file(ch, value of key). */
  function AddFile(files: map<char, string>, d: Dir, s: map<string, string>, ch: char, key: string): map<char, string>
  {
    var p := Resolve(d, s, key);
    if p != "" then files[ch := p] else files
  }

  /** The digit loop of loadFiles, from `c` up to '9'. */
  function AddDigits(files: map<char, string>, d: Dir, s: map<string, string>, c: char): (r: map<char, string>)
    requires '0' <= c <= ':'
    ensures forall x :: x in r <==> x in files || (c <= x <= '9' && Resolve(d, s, [x]) != "")
    ensures forall x :: x in r ==>
      r[x] == if c <= x <= '9' && Resolve(d, s, [x]) != "" then Resolve(d, s, [x]) else files[x]
    decreases ':' as int - c as int
  {
    if c == ':' then files
    else AddDigits(AddFile(files, d, s, c, [c]), d, s, (c as int + 1) as char)
  }

  /** loadMeta: every [info] child key is copied into the metadata. */
  function LoadMeta(l: Loader, s: map<string, string>): (r: Loader)
    ensures r.files == l.files && r.valid == l.valid
    ensures forall k :: k in r.meta <==> k in l.meta || (GroupKey("info", k) in s && '/' !in k)
    ensures forall k :: k in r.meta ==>
      r.meta[k] == if GroupKey("info", k) in s && '/' !in k then s[GroupKey("info", k)] else l.meta[k]
  {
    l.(meta := l.meta + Section(s, "info"))
  }

  /** loadFiles: the digit loop, then ':', ' ', 'a' and 'p'; each character whose key holds
      an existing file is mapped to that file's path. */
  function LoadFiles(l: Loader, d: Dir, s: map<string, string>): (r: Loader)
    ensures r.meta == l.meta && r.valid == l.valid
    ensures forall c :: c in r.files <==> c in l.files || Entry(d, s, c) != ""
    ensures forall c :: c in r.files ==>
      r.files[c] == if Entry(d, s, c) != "" then Entry(d, s, c) else l.files[c]
  {
    var files := AddDigits(l.files, d, s, '0');
    var files := AddFile(files, d, s, ':', "s1");
    var files := AddFile(files, d, s, ' ', "s2");
    var files := AddFile(files, d, s, 'a', "am");
    var files := AddFile(files, d, s, 'p', "pm");
    forall c
      ensures c in files <==> c in l.files || Entry(d, s, c) != ""
      ensures c in files ==> files[c] == if Entry(d, s, c) != "" then Entry(d, s, c) else l.files[c]
    {
      if '0' <= c <= '9' {
        assert Entry(d, s, c) == Resolve(d, s, [c]);
      } else if c == ':' {
        assert Entry(d, s, c) == Resolve(d, s, "s1");
      } else if c == ' ' {
        assert Entry(d, s, c) == Resolve(d, s, "s2");
      } else if c == 'a' {
        assert Entry(d, s, c) == Resolve(d, s, "am");
      } else if c == 'p' {
        assert Entry(d, s, c) == Resolve(d, s, "pm");
      } else {
        assert Entry(d, s, c) == "";
      }
    }
    l.(files := files)
  }

  /** The up-front checks hold exactly when [info] name is set and every required
      character's [files] value names an existing file. */
  lemma CheckedByChar(d: Dir, s: map<string, string>)
    ensures Checked(d, s) <==>
      Get(s, GroupKey("info", NameKey)) != "" && forall c :: IsRequiredChar(c) ==> Entry(d, s, c) != ""
  {
    assert RequiredKeys[0] == GroupKey("info", NameKey);
    if Checked(d, s) {
      forall c | IsRequiredChar(c)
        ensures Entry(d, s, c) != ""
      {
        var i := FileIndex(c);
        assert !EmptyValue(s, RequiredKeys[i]) && FileExists(d, s, RequiredKeys[i]);
      }
    }
    if Get(s, GroupKey("info", NameKey)) != "" && forall c :: IsRequiredChar(c) ==> Entry(d, s, c) != "" {
      forall i | 0 <= i < |RequiredKeys|
        ensures !EmptyValue(s, RequiredKeys[i])
      {
        if i != 0 {
          assert Entry(d, s, CharAt(i)) != "";
        }
      }
      forall i | 1 <= i < 12
        ensures FileExists(d, s, RequiredKeys[i])
      {
        assert Entry(d, s, CharAt(i)) != "";
      }
    }
  }

  /** Once every required character resolves, loading into an empty map yields at least
      eleven entries. */
  lemma LoadedCount(l: Loader, d: Dir, s: map<string, string>)
    requires l.files == map[]
    requires forall c :: IsRequiredChar(c) ==> Entry(d, s, c) != ""
    ensures |LoadFiles(l, d, s).files| >= 11
  {
    RequiredCharsCount(LoadFiles(l, d, s).files);
  }

  /** init: nothing is loaded unless the path is a directory holding skin.ini and the
      up-front checks pass; then [info] and the files are loaded and validity decided. */
  function Init(loc: Location): (l: Loader)
    ensures !l.valid ==> l == Unloaded
    ensures l.valid <==> loc.Directory? && Exists(loc.dir, SkinIni) && Checked(loc.dir, Settings(loc.dir))
    ensures l.valid ==> forall c :: c in l.files <==> Entry(loc.dir, Settings(loc.dir), c) != ""
    ensures l.valid ==> forall c :: c in l.files ==> l.files[c] == Entry(loc.dir, Settings(loc.dir), c)
    ensures l.valid ==> forall k :: k in l.meta <==> GroupKey("info", k) in Settings(loc.dir) && '/' !in k
    ensures l.valid ==> forall k :: k in l.meta ==> l.meta[k] == Settings(loc.dir)[GroupKey("info", k)]
  {
    if loc.NotADir? || !Exists(loc.dir, SkinIni) then Unloaded
    else
      var d := loc.dir;
      var s := Settings(d);
      if exists i :: 0 <= i < |RequiredKeys| && EmptyValue(s, RequiredKeys[i]) then Unloaded
      else if !(forall i :: 1 <= i < 12 ==> FileExists(d, s, RequiredKeys[i])) then Unloaded
      else
        var loaded := LoadFiles(LoadMeta(Unloaded, s), d, s);
        CheckedByChar(d, s);
        LoadedCount(LoadMeta(Unloaded, s), d, s);
        assert '/' !in NameKey;
        loaded.(valid := NameKey in loaded.meta && |loaded.files| >= 11)
  }

  /** Validity in the skin's own terms: a directory whose skin.ini names a skin and, for
      every digit and ':', an existing file. */
  lemma InitValid(loc: Location)
    ensures Init(loc).valid <==>
      && loc.Directory? && Exists(loc.dir, SkinIni)
      && Get(Settings(loc.dir), GroupKey("info", NameKey)) != ""
      && forall c :: IsRequiredChar(c) ==> Entry(loc.dir, Settings(loc.dir), c) != ""
  {
    if loc.Directory? {
      CheckedByChar(loc.dir, Settings(loc.dir));
    }
  }

  /** A valid loader carries the skin's name from [info]. */
  lemma InitName(loc: Location)
    ensures Init(loc).valid ==> NameKey in Init(loc).meta
    ensures Init(loc).valid ==> Init(loc).meta[NameKey] == Get(Settings(loc.dir), GroupKey("info", NameKey))
  {
    if Init(loc).valid {
      InitValid(loc);
      assert '/' !in NameKey;
    }
  }

  /** skin(): null unless valid; otherwise a skin whose factory is built from the file map. */
  function Skin(l: Loader): (r: Option<ClassicSkin>)
    ensures r.None? <==> !l.valid
    ensures r.Some? ==> r.value.factory.resources.Keys == l.files.Keys
    ensures r.Some? ==> forall c :: c in l.files ==> r.value.factory.resources[c] == CreateRenderable(l.files[c])
  {
    if !l.valid then None else Some(ClassicSkin(NewFactory(l.files)))
  }

  /** item(c) with the base separator classifier `isSep`: a separator other than ' ' is
      looked up as ':'; every other character, ' ' included, is looked up as it is. */
  function Item(f: Factory, isSep: char -> bool, c: char): (r: Option<Resource>)
    ensures isSep(c) && c != ' ' ==> r == Lookup(f, ':')
    ensures !(isSep(c) && c != ' ') ==> r == Lookup(f, c)
  {
    var ch := if isSep(c) && c != ' ' then ':' else c;
    Lookup(f, ch)
  }

  /** isSeparator(c): only a skin lacking one of the two separators treats separators
      specially. */
  function IsSeparator(f: Factory, isSep: char -> bool, c: char): (r: bool)
    ensures f.hasTwoSeps ==> !r
    ensures !f.hasTwoSeps ==> (r <==> isSep(c))
  {
    !f.hasTwoSeps && isSep(c)
  }

  /** A loaded skin maps only table characters, so no other character that the base
      classifier does not call a separator (an upper-case letter, say) has an element. */
  lemma NoFolding(loc: Location, isSep: char -> bool, c: char)
    requires KeyOf(c).None? && !isSep(c)
    ensures Item(NewFactory(Init(loc).files), isSep, c) == None
  {
    var l := Init(loc);
    if l.valid {
      assert Entry(loc.dir, Settings(loc.dir), c) == "";
    }
  }

  /** In a valid skin without `s2`, the factory answers null for ' ', which is a separator
      exactly when the base classifier says so. With `s2`, no character counts as a
      separator. */
  lemma LoadedSpace(loc: Location, isSep: char -> bool)
    ensures var l := Init(loc); var f := NewFactory(l.files);
      && (l.valid && Entry(loc.dir, Settings(loc.dir), ' ') == "" ==>
            Item(f, isSep, ' ') == None && (IsSeparator(f, isSep, ' ') <==> isSep(' ')))
      && (l.valid && Entry(loc.dir, Settings(loc.dir), ' ') != "" ==> forall x :: !IsSeparator(f, isSep, x))
  {
    if Init(loc).valid {
      InitValid(loc);
      assert Entry(loc.dir, Settings(loc.dir), ':') != "";
    }
  }
}
