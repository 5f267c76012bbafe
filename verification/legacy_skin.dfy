/** The legacy skin loader and its factory as the out-of-line implementation
    has them: file resolution from skin.ini's [files] section with a fallback
    to probing `<key>.svg` / `<key>.png`, metadata from the folder name and
    [info], and the factory's character normalisation. */
module LegacySkin {
  import opened Common
  import opened Text
  import opened Fs
  import opened Renderables
  import opened Skins

  /** The keys a skin must provide (also the required keys under [files]). */
  const RequiredFiles: seq<string> := ["0", "1", "2", "3", "4", "5", "6", "7", "8", "9", "s1"]

  /** The keys a skin may provide. */
  const OptionalFiles: seq<string> := ["s2", "am", "pm"]

  /** Key -> absolute file path. */
  type FileList = map<string, string>

  /** The [files] value of `key` in skin.ini, or "". */
  function ConfigValue(d: Dir, key: string): string
  {
    Get(Settings(d), GroupKey("files", key))
  }

  /** skin.ini names a file for `key`, and that file exists. */
  predicate InConfig(d: Dir, key: string)
  {
    ConfigValue(d, key) != "" && Exists(d, ConfigValue(d, key))
  }

  /** The per-key test of files_from_config_filler: the directory-joined path of the key's
      [files] entry when that entry is non-empty and names an existing file, else "". */
  function ConfigProbe(d: Dir, key: string): (p: string)
    ensures p != "" <==> InConfig(d, key)
    ensures p != "" ==> p == FilePath(d, ConfigValue(d, key))
  {
    var v := ConfigValue(d, key);
    if v != "" && Exists(d, v) then FilePath(d, v) else ""
  }

  /** find_skin_file: the joined path of `<name>.svg` if it exists, else of `<name>.png`
      if that exists, else "". */
  function FindSkinFile(name: string, d: Dir): (p: string)
    ensures p == "" <==> !Exists(d, name + ".svg") && !Exists(d, name + ".png")
  {
    var svg := name + ".svg";
    var png := name + ".png";
    if Exists(d, svg) then FilePath(d, svg)
    else if Exists(d, png) then FilePath(d, png)
    else ""
  }

  /** The two fillers get_skin_files_impl is instantiated with. */
  datatype Filler = FromConfig | FromSkinDir

  /** The per-key test of filler `f`: the path it stores for a key, or "" when it stores none. */
  function Probe(f: Filler, d: Dir): string -> string
  {
    match f
    case FromConfig => (k: string) => ConfigProbe(d, k)
    case FromSkinDir => (k: string) => FindSkinFile(k, d)
  }

  /** Filler `f` finds a file for `key`. */
  predicate Resolves(f: Filler, d: Dir, key: string)
  {
    Probe(f, d)(key) != ""
  }

  /** The loop of files_from_config_filler and files_from_skin_dir_filler: walks `keys` in
      order and maps each key the probe finds a file for to that file; every other entry
      of `files` is kept. */
  function Fill(files: FileList, keys: seq<string>, probe: string -> string): (r: FileList)
    ensures forall k :: k in r <==> k in files || (k in keys && probe(k) != "")
    ensures forall k :: k in r ==> r[k] == if k in keys && probe(k) != "" then probe(k) else files[k]
    decreases |keys|
  {
    if keys == [] then files
    else
      var k := keys[0];
      var found := probe(k);
      var files' := if found != "" then files[k := found] else files;
      assert forall x :: x in keys <==> x == k || x in keys[1..];
      Fill(files', keys[1..], probe)
  }

  /** Every required key resolves under filler `f`. */
  predicate AllRequired(f: Filler, d: Dir)
  {
    forall k :: k in RequiredFiles ==> Resolves(f, d, k)
  }

  /** The required keys are pairwise distinct. */
  lemma RequiredFilesDistinct()
    ensures forall i, j :: 0 <= i < j < |RequiredFiles| ==> RequiredFiles[i] != RequiredFiles[j]
  {
    forall i, j | 0 <= i < j < |RequiredFiles|
      ensures RequiredFiles[i] != RequiredFiles[j]
    {
      assert RequiredFiles[i][0] != RequiredFiles[j][0];
    }
  }

  /** Among keys without repeats, those the probe finds number as many as the keys exactly
      when the probe finds every key. */
  lemma {:induction false} FoundCount(keys: seq<string>, probe: string -> string)
    requires forall i, j :: 0 <= i < j < |keys| ==> keys[i] != keys[j]
    ensures |set k | k in keys && probe(k) != ""| <= |keys|
    ensures |set k | k in keys && probe(k) != ""| == |keys| <==> forall k :: k in keys ==> probe(k) != ""
    decreases |keys|
  {
    if keys != [] {
      var rest := keys[1..];
      FoundCount(rest, probe);
      var found := set k | k in keys && probe(k) != "";
      var foundRest := set k | k in rest && probe(k) != "";
      assert keys[0] !in rest;
      assert forall k :: k in keys <==> k == keys[0] || k in rest;
      if probe(keys[0]) != "" {
        assert found == foundRest + {keys[0]};
      } else {
        assert found == foundRest;
      }
    }
  }

  /** The body of get_skin_files_impl over any required and optional key lists: the optional
      keys are filled only when the required stage found as many entries as there are keys. */
  function TwoStageFill(required: seq<string>, optional: seq<string>, probe: string -> string): FileList
  {
    var files := Fill(map[], required, probe);
    if |files| != |required| then map[] else Fill(files, optional, probe)
  }

  /** Every entry of a fill was found by the probe, when every entry it started from was. */
  lemma FillEntries(files: FileList, keys: seq<string>, probe: string -> string)
    requires forall k :: k in files ==> probe(k) != "" && files[k] == probe(k)
    ensures forall k :: k in Fill(files, keys, probe) ==>
      probe(k) != "" && Fill(files, keys, probe)[k] == probe(k)
  {
  }

  /** With required keys that do not repeat, the two-stage fill is empty exactly when some
      required key is not found, and otherwise holds the required keys plus the optional
      ones found, each under the path the probe gave. */
  lemma TwoStageFillSpec(required: seq<string>, optional: seq<string>, probe: string -> string)
    requires forall i, j :: 0 <= i < j < |required| ==> required[i] != required[j]
    requires required != []
    ensures var r := TwoStageFill(required, optional, probe);
      && (r != map[] <==> forall k :: k in required ==> probe(k) != "")
      && (r != map[] ==> forall k :: k in r <==> k in required || (k in optional && probe(k) != ""))
      && (r != map[] ==> forall i :: 0 <= i < |required| ==> required[i] in r)
      && (forall k :: k in r ==> probe(k) != "" && r[k] == probe(k))
  {
    var files := Fill(map[], required, probe);
    FillEntries(map[], required, probe);
    assert files.Keys == set k | k in required && probe(k) != "";
    FoundCount(required, probe);
    if |files| == |required| {
      var r := Fill(files, optional, probe);
      FillEntries(files, optional, probe);
      assert required[0] in r;
    }
  }

  /** get_skin_files_impl: all-or-nothing on the required keys; optional keys are only
      looked at once every required key has been found. */
  function GetSkinFilesImpl(probe: string -> string): (r: FileList)
    ensures r != map[] <==> forall k :: k in RequiredFiles ==> probe(k) != ""
    ensures r != map[] ==> forall k :: k in r <==> k in RequiredFiles || (k in OptionalFiles && probe(k) != "")
    ensures r != map[] ==> forall i :: 0 <= i < |RequiredFiles| ==> RequiredFiles[i] in r
    ensures forall k :: k in r ==> probe(k) != "" && r[k] == probe(k)
  {
    RequiredFilesDistinct();
    TwoStageFillSpec(RequiredFiles, OptionalFiles, probe);
    TwoStageFill(RequiredFiles, OptionalFiles, probe)
  }

  /** get_skin_files: the [files] section when it resolves, else the directory scan. */
  function GetSkinFiles(d: Dir): (r: FileList)
    ensures r != map[] <==> AllRequired(FromConfig, d) || AllRequired(FromSkinDir, d)
    ensures r != map[] ==> forall i :: 0 <= i < |RequiredFiles| ==> RequiredFiles[i] in r
    ensures forall k :: k in r ==> r[k] != ""
  {
    var files := GetSkinFilesImpl(Probe(FromConfig, d));
    if files == map[] then GetSkinFilesImpl(Probe(FromSkinDir, d)) else files
  }

  /** When skin.ini's [files] section resolves every required key, get_skin_files holds
      exactly the required keys and the optional keys skin.ini resolves, all under their
      configured paths: a file only the directory scan would find is left out. */
  lemma ConfigWins(d: Dir)
    requires AllRequired(FromConfig, d)
    ensures forall k :: k in GetSkinFiles(d) <==> k in RequiredFiles || (k in OptionalFiles && InConfig(d, k))
    ensures forall k :: k in GetSkinFiles(d) ==> GetSkinFiles(d)[k] == FilePath(d, ConfigValue(d, k))
  {
    var config := Probe(FromConfig, d);
    assert forall k :: config(k) == ConfigProbe(d, k);
    assert GetSkinFiles(d) == GetSkinFilesImpl(config);
  }

  /** get_skin_files falls back to the scan exactly when the [files] stage came back empty. */
  lemma FallbackWhenEmpty(d: Dir)
    ensures GetSkinFilesImpl(Probe(FromConfig, d)) == map[] ==>
      GetSkinFiles(d) == GetSkinFilesImpl(Probe(FromSkinDir, d))
  {
  }

  /** The [files] stage comes back empty when skin.ini misses a required key. */
  lemma ConfigStageEmpty(d: Dir)
    requires !AllRequired(FromConfig, d)
    ensures GetSkinFilesImpl(Probe(FromConfig, d)) == map[]
  {
  }

  /** When skin.ini does not resolve every required key, get_skin_files is the directory
      scan alone: each entry is the file find_skin_file found. */
  lemma ScanFallback(d: Dir)
    requires !AllRequired(FromConfig, d)
    ensures AllRequired(FromSkinDir, d) ==>
      forall k :: k in GetSkinFiles(d) <==> k in RequiredFiles || (k in OptionalFiles && FindSkinFile(k, d) != "")
    ensures forall k :: k in GetSkinFiles(d) ==> GetSkinFiles(d)[k] == FindSkinFile(k, d)
  {
    ConfigStageEmpty(d);
    FallbackWhenEmpty(d);
    var scan := Probe(FromSkinDir, d);
    assert forall k :: scan(k) == FindSkinFile(k, d);
  }

  /** add_file(ch, key): maps `ch` to the key's path when there is one. */
  function AddFile(files: map<char, string>, skinFiles: FileList, ch: char, key: string): map<char, string>
  {
    var file := Get(skinFiles, key);
    if file != "" then files[ch := file] else files
  }

  /** The digit loop of loadFiles, from `c` up to '9'. */
  function AddDigits(files: map<char, string>, skinFiles: FileList, c: char): (r: map<char, string>)
    requires '0' <= c <= ':'
    ensures forall x :: x in r <==> x in files || (c <= x <= '9' && Get(skinFiles, [x]) != "")
    ensures forall x :: x in r ==>
      r[x] == if c <= x <= '9' && Get(skinFiles, [x]) != "" then Get(skinFiles, [x]) else files[x]
    decreases ':' as int - c as int
  {
    if c == ':' then files
    else AddDigits(AddFile(files, skinFiles, c, [c]), skinFiles, (c as int + 1) as char)
  }

  /** The path the table assigns to `c`, or "" when `c` has no key or its key no file. */
  function TablePath(skinFiles: FileList, c: char): string
  {
    match KeyOf(c)
    case Some(key) => Get(skinFiles, key)
    case None => ""
  }

  /** The body of loadFiles once a file set has resolved: the digit loop, then ':', ' ', 'a'
      and 'p'. Each table character whose key has a path is mapped to it. */
  function LoadTable(files: map<char, string>, skinFiles: FileList): (r: map<char, string>)
    ensures forall c :: c in r <==> c in files || TablePath(skinFiles, c) != ""
    ensures forall c :: c in r ==>
      r[c] == if TablePath(skinFiles, c) != "" then TablePath(skinFiles, c) else files[c]
  {
    var digits := AddDigits(files, skinFiles, '0');
    var r := AddFile(digits, skinFiles, ':', "s1");
    var r := AddFile(r, skinFiles, ' ', "s2");
    var r := AddFile(r, skinFiles, 'a', "am");
    var r := AddFile(r, skinFiles, 'p', "pm");
    forall c
      ensures c in r <==> c in files || TablePath(skinFiles, c) != ""
      ensures c in r ==> r[c] == if TablePath(skinFiles, c) != "" then TablePath(skinFiles, c) else files[c]
    {
      if '0' <= c <= '9' {
        assert TablePath(skinFiles, c) == Get(skinFiles, [c]);
      } else if c == ':' {
        assert TablePath(skinFiles, c) == Get(skinFiles, "s1");
      } else if c == ' ' {
        assert TablePath(skinFiles, c) == Get(skinFiles, "s2");
      } else if c == 'a' {
        assert TablePath(skinFiles, c) == Get(skinFiles, "am");
      } else if c == 'p' {
        assert TablePath(skinFiles, c) == Get(skinFiles, "pm");
      } else {
        assert TablePath(skinFiles, c) == "";
      }
    }
    r
  }

  /** loadFiles once get_skin_files has answered: nothing when it found no file set;
      otherwise each table character whose key has a path is mapped to it. */
  function LoadFilesFrom(l: Loader, skinFiles: FileList): (r: Loader)
    ensures r.meta == l.meta && r.valid == l.valid
    ensures skinFiles == map[] ==> r == l
    ensures skinFiles != map[] ==> r.files == LoadTable(l.files, skinFiles)
  {
    if skinFiles == map[] then l else l.(files := LoadTable(l.files, skinFiles))
  }

  /** loadFiles. */
  function LoadFiles(l: Loader, d: Dir): Loader
  {
    LoadFilesFrom(l, GetSkinFiles(d))
  }

  /** loadMeta: when skin.ini exists, every child key of [info] overwrites the metadata. */
  function LoadMeta(l: Loader, d: Dir): (r: Loader)
    ensures r.files == l.files && r.valid == l.valid
    ensures !Exists(d, SkinIni) ==> r == l
    ensures forall k :: k in r.meta <==> k in l.meta || (GroupKey("info", k) in Settings(d) && '/' !in k)
    ensures forall k :: k in r.meta ==>
      r.meta[k] == if GroupKey("info", k) in Settings(d) && '/' !in k then Settings(d)[GroupKey("info", k)] else l.meta[k]
  {
    if !Exists(d, SkinIni) then l
    else l.(meta := l.meta + Section(Settings(d), "info"))
  }

  /** The name a loaded skin carries: [info] name when skin.ini sets it, else the folder name. */
  function DisplayName(fileName: string, d: Dir): string
  {
    if GroupKey("info", NameKey) in Settings(d) then Settings(d)[GroupKey("info", NameKey)] else fileName
  }

  /** The position of a required character's key among the required keys. */
  function RequiredIndex(c: char): (i: int)
    requires IsRequiredChar(c)
    ensures 0 <= i < |RequiredFiles| && KeyOf(c) == Some(RequiredFiles[i])
  {
    if c == ':' then 10 else c as int - '0' as int
  }

  /** Once every required key has a path, the table maps every required character. */
  lemma TableHasRequired(files: map<char, string>, skinFiles: FileList)
    requires forall i :: 0 <= i < |RequiredFiles| ==> RequiredFiles[i] in skinFiles
    requires forall k :: k in skinFiles ==> skinFiles[k] != ""
    ensures forall c :: IsRequiredChar(c) ==> c in LoadTable(files, skinFiles)
  {
    forall c | IsRequiredChar(c)
      ensures c in LoadTable(files, skinFiles)
    {
      var i := RequiredIndex(c);
      assert TablePath(skinFiles, c) == skinFiles[RequiredFiles[i]];
    }
  }

  /** Loading a file set into an empty file map yields at least eleven entries exactly
      when the set is non-empty. */
  lemma LoadedCount(l: Loader, skinFiles: FileList)
    requires l.files == map[]
    requires skinFiles != map[] ==> forall i :: 0 <= i < |RequiredFiles| ==> RequiredFiles[i] in skinFiles
    requires forall k :: k in skinFiles ==> skinFiles[k] != ""
    ensures |LoadFilesFrom(l, skinFiles).files| >= 11 <==> skinFiles != map[]
  {
    if skinFiles != map[] {
      TableHasRequired(l.files, skinFiles);
      RequiredCharsCount(LoadFilesFrom(l, skinFiles).files);
    }
  }

  /** Loading a file set into an empty file map maps exactly the table characters whose key has a path. */
  lemma LoadedFiles(l: Loader, skinFiles: FileList)
    requires l.files == map[]
    ensures forall c :: c in LoadFilesFrom(l, skinFiles).files <==> TablePath(skinFiles, c) != ""
  {
    if skinFiles == map[] {
      forall c
        ensures TablePath(skinFiles, c) == ""
      {
      }
    }
  }

  /** The synthesised name survives loadMeta unless [info] sets one. */
  lemma LoadedName(l: Loader, fileName: string, d: Dir)
    requires l.meta == map[NameKey := fileName]
    ensures NameKey in LoadMeta(l, d).meta && LoadMeta(l, d).meta[NameKey] == DisplayName(fileName, d)
  {
    assert '/' !in NameKey;
  }

  /** init: a non-directory leaves the loader untouched; otherwise the name is synthesised,
      [info] and the files are loaded, and the loader is valid exactly when one of the two
      strategies resolved every required key. */
  function Init(loc: Location): (l: Loader)
    ensures loc.NotADir? ==> l == Unloaded
    ensures l.valid <==> loc.Directory? && (AllRequired(FromConfig, loc.dir) || AllRequired(FromSkinDir, loc.dir))
    ensures loc.Directory? ==> NameKey in l.meta && l.meta[NameKey] == DisplayName(loc.fileName, loc.dir)
    ensures loc.Directory? ==> forall c :: c in l.files <==> TablePath(GetSkinFiles(loc.dir), c) != ""
    ensures loc.Directory? ==> forall c :: c in l.files ==> l.files[c] == TablePath(GetSkinFiles(loc.dir), c)
    ensures loc.Directory? ==> forall k :: k in l.meta <==> k == NameKey || (GroupKey("info", k) in Settings(loc.dir) && '/' !in k)
    ensures loc.Directory? ==> forall k :: k in l.meta && k != NameKey ==> l.meta[k] == Settings(loc.dir)[GroupKey("info", k)]
  {
    match loc
    case NotADir => Unloaded
    case Directory(name, d) =>
      var named := Unloaded.(meta := Unloaded.meta[NameKey := name]);
      var loaded := LoadFiles(LoadMeta(named, d), d);
      LoadedCount(LoadMeta(named, d), GetSkinFiles(d));
      LoadedFiles(LoadMeta(named, d), GetSkinFiles(d));
      LoadedName(named, name, d);
      loaded.(valid := NameKey in loaded.meta && |loaded.files| >= 11)
  }

  /** A directory-scanned key gets the vector element when `<key>.svg` exists, the raster
      element when only `<key>.png` does, and none when neither does. */
  lemma ScanFormat(key: string, d: Dir)
    ensures Exists(d, key + ".svg") ==>
      CreateRenderable(FindSkinFile(key, d)) == Some(SvgImage(FilePath(d, key + ".svg")))
    ensures !Exists(d, key + ".svg") && Exists(d, key + ".png") ==>
      CreateRenderable(FindSkinFile(key, d)) == Some(RasterImage(FilePath(d, key + ".png")))
    ensures !Exists(d, key + ".svg") && !Exists(d, key + ".png") ==>
      CreateRenderable(FindSkinFile(key, d)) == None
  {
    if Exists(d, key + ".svg") {
      ScanFindsSvg(key, d);
    } else if Exists(d, key + ".png") {
      ScanFindsPng(key, d);
    } else {
      NoSuffix();
    }
  }

  /** The vector case of ScanFormat. */
  lemma ScanFindsSvg(key: string, d: Dir)
    requires Exists(d, key + ".svg")
    ensures CreateRenderable(FindSkinFile(key, d)) == Some(SvgImage(FilePath(d, key + ".svg")))
  {
    var stem := d.path + "/" + key;
    assert FindSkinFile(key, d) == FilePath(d, key + ".svg") == stem + ".svg";
    KnownExtensions(stem);
  }

  /** The raster case of ScanFormat. */
  lemma ScanFindsPng(key: string, d: Dir)
    requires !Exists(d, key + ".svg") && Exists(d, key + ".png")
    ensures CreateRenderable(FindSkinFile(key, d)) == Some(RasterImage(FilePath(d, key + ".png")))
  {
    var stem := d.path + "/" + key;
    assert FindSkinFile(key, d) == FilePath(d, key + ".png") == stem + ".png";
    KnownExtensions(stem);
  }

  /** The character item(c) ends up looking up, before lower-casing, by cases: whitespace
      takes the space slot when the skin has two separators and the ':' slot otherwise;
      any other separator takes the ':' slot; everything else stands for itself. */
  function Canonical(f: Factory, isSep: char -> bool, c: char): char
  {
    if IsSpace(c) then (if f.hasTwoSeps then ' ' else ':')
    else if isSep(c) then ':'
    else c
  }

  /** LegacyRenderableFactory::item(c), with the base separator classifier `isSep`: whitespace
      folds to ' ', a separator other than ' ' to ':', ' ' to ':' when the skin lacks two
      separators, and the result is looked up lower-cased; a miss gives null. */
  function Item(f: Factory, isSep: char -> bool, c: char): (r: Option<Resource>)
    ensures r == Lookup(f, ToLowerChar(Canonical(f, isSep, c)))
  {
    var ch := if IsSpace(c) then ' ' else c;
    var ch := if isSep(ch) && ch != ' ' then ':' else ch;
    var ch := if !f.hasTwoSeps && ch == ' ' then ':' else ch;
    Lookup(f, ToLowerChar(ch))
  }

  /** Any whitespace character resolves like ' '. */
  lemma ItemWhitespace(f: Factory, isSep: char -> bool, c: char)
    requires IsSpace(c)
    ensures Item(f, isSep, c) == Item(f, isSep, ' ')
  {
  }

  /** A separator that is not whitespace resolves like ':'. */
  lemma ItemSeparator(f: Factory, isSep: char -> bool, c: char)
    requires !IsSpace(c) && isSep(c)
    ensures Item(f, isSep, c) == Item(f, isSep, ':')
  {
  }

  /** Without two separators, ' ' resolves to the element of ':'; with both, each
      separator resolves to its own entry. */
  lemma ItemSeparatorCollapse(f: Factory, isSep: char -> bool)
    ensures !f.hasTwoSeps ==> Item(f, isSep, ' ') == Item(f, isSep, ':')
    ensures f.hasTwoSeps ==> Item(f, isSep, ' ') == Lookup(f, ' ')
    ensures Item(f, isSep, ':') == Lookup(f, ':')
  {
  }

  /** Lookup ignores letter case: an upper-case letter that is no separator, and whose
      lower-case form is none either, resolves like that lower-case form. */
  lemma ItemCaseFold(f: Factory, isSep: char -> bool, c: char)
    requires 'A' <= c <= 'Z' && !isSep(c) && !isSep(ToLowerChar(c))
    ensures Item(f, isSep, c) == Item(f, isSep, ToLowerChar(c))
  {
  }

  /** A character whose normalised form has no entry resolves to null. */
  lemma ItemMiss(f: Factory, isSep: char -> bool, c: char)
    requires ToLowerChar(Canonical(f, isSep, c)) !in f.resources
    ensures Item(f, isSep, c) == None
  {
  }

  /** For a factory built from a file map that holds ':': a space is drawn with the `s2`
      element when ' ' was mapped and with the `s1` element otherwise. */
  lemma FactorySeparators(files: map<char, string>, isSep: char -> bool)
    requires ':' in files
    ensures ' ' in files ==> Item(NewFactory(files), isSep, ' ') == CreateRenderable(files[' '])
    ensures ' ' !in files ==> Item(NewFactory(files), isSep, ' ') == CreateRenderable(files[':'])
    ensures Item(NewFactory(files), isSep, ':') == CreateRenderable(files[':'])
  {
    ItemSeparatorCollapse(NewFactory(files), isSep);
  }
}
