/** The file system and INI reader as seen by the skin loaders: a skin
    directory is its absolute path, the set of names that exist under it,
    and the parsed contents of its skin.ini, keyed "group/key". */
module Fs {

  datatype Dir = Dir(path: string, entries: set<string>, ini: map<string, string>)

  /** What QFileInfo says about the path handed to a loader: not a directory,
      or a directory with its own folder name. */
  datatype Location = NotADir | Directory(fileName: string, dir: Dir)

  const SkinIni: string := "skin.ini"

  /** QDir::exists(name) for a name relative to the skin directory. */
  predicate Exists(d: Dir, name: string)
  {
    name in d.entries
  }

  /** QDir::filePath(name): the name joined to the directory path. */
  function FilePath(d: Dir, name: string): (p: string)
    ensures p != ""
  {
    d.path + "/" + name
  }

  /** What a QSettings opened on the directory's skin.ini reads: nothing when the file is absent. */
  function Settings(d: Dir): (ini: map<string, string>)
    ensures !Exists(d, SkinIni) ==> ini == map[]
  {
    if Exists(d, SkinIni) then d.ini else map[]
  }

  /** QSettings::value(key).toString(): the stored string, or "" for a missing key. */
  function Get(ini: map<string, string>, key: string): (v: string)
    ensures v != "" ==> key in ini && ini[key] == v
  {
    if key in ini then ini[key] else ""
  }

  /** The full INI key of `k` inside `group`, as QSettings forms it after beginGroup(group). */
  function GroupKey(group: string, k: string): string
  {
    group + "/" + k
  }

  /** `s` is `group/k` for a child key `k` of `group`: one holding no further '/'. */
  predicate IsChildKey(group: string, s: string)
  {
    |s| > |group| && s[..|group| + 1] == group + "/" && '/' !in s[|group| + 1..]
  }

  /** QSettings::childKeys() inside beginGroup(group). */
  function ChildKeys(ini: map<string, string>, group: string): set<string>
  {
    set s | s in ini && IsChildKey(group, s) :: s[|group| + 1..]
  }

  lemma ChildKeysSpec(ini: map<string, string>, group: string, k: string)
    ensures k in ChildKeys(ini, group) <==> GroupKey(group, k) in ini && '/' !in k
  {
    var s := group + "/" + k;
    assert s[..|group| + 1] == group + "/";
    assert s[|group| + 1..] == k;
    if k in ChildKeys(ini, group) {
      var s' :| s' in ini && IsChildKey(group, s') && s'[|group| + 1..] == k;
      assert s' == s'[..|group| + 1] + s'[|group| + 1..];
    }
  }

  /** The child keys of `group` with their values, as a loop over childKeys() reads them. */
  function Section(ini: map<string, string>, group: string): (sec: map<string, string>)
    ensures forall k :: k in sec <==> GroupKey(group, k) in ini && '/' !in k
    ensures forall k :: k in sec ==> sec[k] == ini[GroupKey(group, k)]
  {
    forall k | true
      ensures k in ChildKeys(ini, group) <==> GroupKey(group, k) in ini && '/' !in k
    {
      ChildKeysSpec(ini, group, k);
    }
    map k | k in ChildKeys(ini, group) :: Get(ini, GroupKey(group, k))
  }
}
