/** What the two legacy loaders share: the factory that turns a character ->
    file map into character -> element, the loader state inherited from the
    classic loader (metadata, validity flag) plus the loader's own file map,
    and the fixed table between display characters and [files] keys. */
module Skins {
  import opened Common
  import opened Renderables

  /** The factory's state: one entry per mapped character (possibly a null element),
      and whether both separators were mapped when it was built. */
  datatype Factory = Factory(resources: map<char, Option<Resource>>, hasTwoSeps: bool)

  /** LegacyRenderableFactory(files): one element per mapped file, and the two-separator
      decision taken once. A file whose element cannot be made still occupies its key. */
  function NewFactory(files: map<char, string>): (f: Factory)
    ensures f.resources.Keys == files.Keys
    ensures forall c :: c in files ==> f.resources[c] == CreateRenderable(files[c])
    ensures f.hasTwoSeps <==> ':' in files && ' ' in files
  {
    var resources := map c | c in files :: CreateRenderable(files[c]);
    assert resources.Keys == files.Keys;
    Factory(resources, ':' in files && ' ' in files)
  }

  /** _resources.find(c): a miss gives null. */
  function Lookup(f: Factory, c: char): (r: Option<Resource>)
    ensures c !in f.resources ==> r == None
    ensures c in f.resources ==> r == f.resources[c]
  {
    if c in f.resources then f.resources[c] else None
  }

  /** The ClassicSkin a loader hands out: it owns the factory. */
  datatype ClassicSkin = ClassicSkin(factory: Factory)

  /** Loader state: metadata and validity (from the classic loader) and the character -> path map. */
  datatype Loader = Loader(meta: map<string, string>, files: map<char, string>, valid: bool)

  /** A loader before init: no metadata, no files, not valid. */
  const Unloaded: Loader := Loader(map[], map[], false)

  const NameKey: string := "name"

  /** The [files] key each display character is loaded from: digits under their own
      name, ':' under s1, ' ' under s2, 'a' under am, 'p' under pm. */
  function KeyOf(c: char): Option<string>
  {
    if '0' <= c <= '9' then Some([c])
    else if c == ':' then Some("s1")
    else if c == ' ' then Some("s2")
    else if c == 'a' then Some("am")
    else if c == 'p' then Some("pm")
    else None
  }

  /** The eleven characters a skin must map: the ten digits and ':'. */
  predicate IsRequiredChar(c: char)
  {
    '0' <= c <= '9' || c == ':'
  }

  /** A file map holding every required character has at least eleven entries. */
  lemma RequiredCharsCount(files: map<char, string>)
    ensures (forall c :: IsRequiredChar(c) ==> c in files) ==> |files| >= 11
  {
    var req := {'0', '1', '2', '3', '4', '5', '6', '7', '8', '9', ':'};
    assert |req| == 11;
    if forall c :: IsRequiredChar(c) ==> c in files {
      assert req <= files.Keys;
      SubsetCardinality(req, files.Keys);
    }
  }
}
