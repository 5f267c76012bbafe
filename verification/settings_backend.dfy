/** The QSettings configuration backend: values are stored under full keys
    "group/…/key", a tag scopes a key by opening the tag as a group for the
    duration of one call, and the whole store is read back as tag -> key -> value
    by splitting every full key at its last '/'. */
module SettingsBackend {
  import opened Common
  import opened Text

  /** A QVariant: an invalid one (what a missing key reads as) or a value. */
  datatype Variant = Invalid | Valid(text: string)

  /** A QSettings object: the stored values by full key, and the stack of open groups. */
  datatype Store = Store(values: map<string, Variant>, groups: seq<string>)

  /** What the open groups put in front of a key: each group followed by '/'. */
  function Prefix(groups: seq<string>): string
  {
    if groups == [] then "" else Prefix(groups[..|groups| - 1]) + groups[|groups| - 1] + "/"
  }

  /** The full key a relative key `k` stands for under the open groups. */
  function FullKey(st: Store, k: string): string
  {
    Prefix(st.groups) + k
  }

  function BeginGroup(st: Store, g: string): (r: Store)
    ensures r.values == st.values && |r.groups| == |st.groups| + 1
    ensures FullKey(r, "") == FullKey(st, g + "/")
  {
    assert (st.groups + [g])[..|st.groups|] == st.groups;
    st.(groups := st.groups + [g])
  }

  function EndGroup(st: Store): Store
    requires st.groups != []
  {
    st.(groups := st.groups[..|st.groups| - 1])
  }

  /** QSettings::setValue(k, v) under the open groups. */
  function Put(st: Store, k: string, v: Variant): Store
  {
    st.(values := st.values[FullKey(st, k) := v])
  }

  /** QSettings::value(k) under the open groups: invalid for a missing key. */
  function Read(st: Store, k: string): Variant
  {
    if FullKey(st, k) in st.values then st.values[FullKey(st, k)] else Invalid
  }

  /** The key a tagged key is stored under, relative to the groups open around the call. */
  function TaggedKey(tag: string, k: string): string
  {
    tag + "/" + k
  }

  /** setValue(tag, k, v): the value lands under `tag/k` and the group opened for it is
      closed again. */
  function SetValue(st: Store, tag: string, k: string, v: Variant): (r: Store)
    ensures r.groups == st.groups
    ensures FullKey(st, TaggedKey(tag, k)) in r.values && r.values[FullKey(st, TaggedKey(tag, k))] == v
    ensures forall key :: key != FullKey(st, TaggedKey(tag, k)) ==>
      (key in r.values <==> key in st.values) && (key in r.values ==> r.values[key] == st.values[key])
  {
    var inGroup := BeginGroup(st, tag);
    assert FullKey(inGroup, k) == FullKey(st, TaggedKey(tag, k)) by {
      assert FullKey(inGroup, k) == FullKey(inGroup, "") + k;
    }
    var r := EndGroup(Put(inGroup, k, v));
    assert r.groups == st.groups;
    r
  }

  /** value(tag, k): the stored value under `tag/k`, or none when it is missing or invalid. */
  function Value(st: Store, tag: string, k: string): (r: Option<Variant>)
    ensures r.Some? <==> FullKey(st, TaggedKey(tag, k)) in st.values && st.values[FullKey(st, TaggedKey(tag, k))].Valid?
    ensures r.Some? ==> r.value == st.values[FullKey(st, TaggedKey(tag, k))]
  {
    var inGroup := BeginGroup(st, tag);
    assert FullKey(inGroup, k) == FullKey(st, TaggedKey(tag, k)) by {
      assert FullKey(inGroup, k) == FullKey(inGroup, "") + k;
    }
    var v := Read(inGroup, k);
    if v.Valid? then Some(v) else None
  }

  /** The guard that scopes a call leaves the open groups as it found them. */
  lemma GuardRestores(st: Store, tag: string)
    ensures EndGroup(BeginGroup(st, tag)) == st
  {
    assert (st.groups + [tag])[..|st.groups|] == st.groups;
  }

  /** A valid value set under a tag reads back; an invalid one reads as none. */
  lemma SetThenValue(st: Store, tag: string, k: string, v: Variant)
    ensures Value(SetValue(st, tag, k, v), tag, k) == if v.Valid? then Some(v) else None
  {
  }

  /** Setting one tagged key leaves every other tagged key reading as before. */
  lemma SetLeavesOthers(st: Store, tag: string, k: string, v: Variant, tag': string, k': string)
    requires TaggedKey(tag', k') != TaggedKey(tag, k)
    ensures Value(SetValue(st, tag', k', v), tag, k) == Value(st, tag, k)
  {
    var p := Prefix(st.groups);
    assert (p + TaggedKey(tag', k'))[|p|..] == TaggedKey(tag', k');
    assert (p + TaggedKey(tag, k))[|p|..] == TaggedKey(tag, k);
  }

  /** A tag may itself hold '/': a key `k` set under tag `t/u` is the key `u/k` of tag `t`. */
  lemma TagsNest(st: Store, t: string, u: string, k: string, v: Variant)
    requires v.Valid?
    ensures Value(SetValue(st, t + "/" + u, k, v), t, u + "/" + k) == Some(v)
  {
    assert TaggedKey(t + "/" + u, k) == TaggedKey(t, u + "/" + k);
  }

  /** The split allSettings makes: at the last '/', into the tag before it and the key
      after it; none for a key without '/'. */
  function Split(s: string): (r: Option<(string, string)>)
    ensures r.None? <==> '/' !in s
    ensures r.Some? ==> s == TaggedKey(r.value.0, r.value.1) && '/' !in r.value.1
  {
    var i := LastIndexOf(s, '/');
    if i < 0 then None
    else
      assert s == s[..i] + "/" + s[i + 1..];
      Some((s[..i], s[i + 1..]))
  }

  /** Splitting a tagged key whose key part holds no '/' gives back the tag and the key. */
  lemma SplitTagged(tag: string, k: string)
    requires '/' !in k
    ensures Split(TaggedKey(tag, k)) == Some((tag, k))
  {
    LastIndexOfSplit(tag, '/', k);
    var s := TaggedKey(tag, k);
    assert s[..|tag|] == tag;
    assert s[|tag| + 1..] == k;
  }

  /** The settings data as allSettings returns it: tag -> key -> value. */
  type SettingsData = map<string, map<string, Variant>>

  /** `all` is what allSettings builds from `values`: every stored key with a '/' appears
      under its split, and nothing else does. */
  ghost predicate Describes(values: map<string, Variant>, all: SettingsData)
  {
    && (forall s :: s in values && Split(s).Some? ==>
          Split(s).value.0 in all && Split(s).value.1 in all[Split(s).value.0]
          && all[Split(s).value.0][Split(s).value.1] == values[s])
    && (forall t :: t in all ==> all[t] != map[])
    && (forall t, k :: t in all && k in all[t] ==>
          '/' !in k && TaggedKey(t, k) in values && all[t][k] == values[TaggedKey(t, k)])
  }

  /** allSettings() over the store at top level: every stored key is split at its last '/'
      and filed as all[tag][key]; keys without '/' are skipped. */
  method AllSettings(values: map<string, Variant>) returns (all: SettingsData)
    ensures Describes(values, all)
  {
    all := map[];
    var todo := values.Keys;
    while todo != {}
      invariant todo <= values.Keys
      invariant forall s :: s in values && s !in todo && Split(s).Some? ==>
        Split(s).value.0 in all && Split(s).value.1 in all[Split(s).value.0]
        && all[Split(s).value.0][Split(s).value.1] == values[s]
      invariant forall t :: t in all ==> all[t] != map[]
      invariant forall t, k :: t in all && k in all[t] ==>
        '/' !in k && TaggedKey(t, k) in values && TaggedKey(t, k) !in todo && all[t][k] == values[TaggedKey(t, k)]
      decreases |todo|
    {
      var skey :| skey in todo;
      todo := todo - {skey};
      var split := Split(skey);
      if split.Some? {
        var (tag, key) := split.value;
        var inner := if tag in all then all[tag] else map[];
        all := all[tag := inner[key := values[skey]]];
      }
    }
  }

  /** A stored key is left out of allSettings exactly when it holds no '/'. */
  lemma SkippedKeys(values: map<string, Variant>, all: SettingsData, s: string)
    requires Describes(values, all)
    requires s in values
    ensures '/' !in s <==> forall t, k :: t in all && k in all[t] ==> TaggedKey(t, k) != s
  {
    if '/' in s {
      var p := Split(s).value;
      assert p.0 in all && p.1 in all[p.0];
    }
  }

  /** A value set under a tag and a key without '/' shows up in allSettings under that tag
      and key. */
  lemma SetValueListed(st: Store, tag: string, k: string, v: Variant, all: SettingsData)
    requires st.groups == [] && '/' !in k
    ensures Describes(SetValue(st, tag, k, v).values, all) ==> tag in all && k in all[tag] && all[tag][k] == v
  {
    assert FullKey(st, TaggedKey(tag, k)) == TaggedKey(tag, k);
    SplitTagged(tag, k);
  }

  /** allSettings has one answer for a store, whatever order allKeys lists the keys in. */
  lemma DescribesUnique(values: map<string, Variant>, a: SettingsData, b: SettingsData)
    requires Describes(values, a) && Describes(values, b)
    ensures a == b
  {
    forall t | t in a
      ensures t in b && a[t] == b[t]
    {
      var k :| k in a[t];
      SplitTagged(t, k);
      forall k' | k' in a[t]
        ensures k' in b[t] && a[t][k'] == b[t][k']
      {
        SplitTagged(t, k');
      }
      forall k' | k' in b[t]
        ensures k' in a[t]
      {
        SplitTagged(t, k');
      }
    }
    forall t | t in b
      ensures t in a
    {
      var k :| k in b[t];
      SplitTagged(t, k);
    }
  }
}
