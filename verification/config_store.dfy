/** An abstraction of the parsed INI file: an ordered store of sections,
    each an ordered list of key/text pairs (configparser over an
    OrderedDict). Section names are distinct and keys are distinct within
    a section; values are plain text. */
module ConfigStore {
  import opened Wrappers

  datatype Entry = Entry(key: string, text: string)

  datatype Section = Section(name: string, entries: seq<Entry>)

  type Store = seq<Section>

  /** No element occurs twice. */
  predicate Distinct<T(==)>(xs: seq<T>) {
    forall i, j :: 0 <= i < j < |xs| ==> xs[i] != xs[j]
  }

  /** `a` is `b` with some elements dropped, the rest in their original order. */
  predicate SubsequenceOf<T(==)>(a: seq<T>, b: seq<T>)
    decreases |b|
  {
    if a == [] then true
    else if b == [] then false
    else (a[0] == b[0] && SubsequenceOf(a[1..], b[1..])) || SubsequenceOf(a, b[1..])
  }

  /** The keys of a section, in order. */
  function KeysOf(es: seq<Entry>): seq<string> {
    seq(|es|, i requires 0 <= i < |es| => es[i].key)
  }

  /** The section names of a store, in order (configparser's `sections()`). */
  function SectionNames(s: Store): seq<string> {
    seq(|s|, i requires 0 <= i < |s| => s[i].name)
  }

  predicate WellFormed(s: Store) {
    && Distinct(SectionNames(s))
    && forall i :: 0 <= i < |s| ==> Distinct(KeysOf(s[i].entries))
  }

  predicate HasSection(s: Store, name: string) {
    exists i :: 0 <= i < |s| && s[i].name == name
  }

  /** The position of the (first) section called `name`. */
  function IndexOfSection(s: Store, name: string): (i: nat)
    requires HasSection(s, name)
    ensures i < |s| && s[i].name == name
    ensures forall j :: 0 <= j < i ==> s[j].name != name
  {
    if s[0].name == name then 0
    else
      assert HasSection(s[1..], name) by {
        var k :| 0 <= k < |s| && s[k].name == name;
        assert s[1..][k - 1].name == name;
      }
      1 + IndexOfSection(s[1..], name)
  }

  /** The section's index depends only on the store's section names. */
  lemma IndexDependsOnNames(s: Store, t: Store, name: string)
    requires SectionNames(s) == SectionNames(t)
    requires HasSection(s, name)
    ensures HasSection(t, name)
    ensures IndexOfSection(t, name) == IndexOfSection(s, name)
  {
    assert |s| == |SectionNames(s)| == |t|;
    forall k | 0 <= k < |s|
      ensures s[k].name == t[k].name
    {
      assert SectionNames(s)[k] == SectionNames(t)[k];
    }
  }

  /** The text stored under `key`, if any (configparser's `get`). */
  function Lookup(es: seq<Entry>, key: string): (r: Option<string>)
    ensures r.Some? <==> key in KeysOf(es)
    ensures r.Some? ==> Entry(key, r.value) in es
  {
    if es == [] then None
    else if es[0].key == key then
      assert KeysOf(es)[0] == key;
      Some(es[0].text)
    else
      assert KeysOf(es) == [es[0].key] + KeysOf(es[1..]);
      Lookup(es[1..], key)
  }

  /** Writes `text` under `key`: an existing key is overwritten where it
      stands, a new key is appended after the existing ones (assignment
      into an ordered dictionary). */
  function Put(es: seq<Entry>, key: string, text: string): (r: seq<Entry>)
    ensures Lookup(r, key) == Some(text)
    ensures forall k :: k != key ==> Lookup(r, k) == Lookup(es, k)
  {
    if es == [] then [Entry(key, text)]
    else if es[0].key == key then
      var r := [Entry(key, text)] + es[1..];
      assert r[1..] == es[1..];
      r
    else
      var r := [es[0]] + Put(es[1..], key, text);
      assert r[1..] == Put(es[1..], key, text);
      r
  }

  lemma KeysOfCons(es: seq<Entry>)
    requires es != []
    ensures KeysOf(es) == [es[0].key] + KeysOf(es[1..])
  {
  }

  /** Writing keeps the order of the keys: an existing key stays where it
      is, a new key comes last. */
  lemma {:induction false} PutKeepsKeyOrder(es: seq<Entry>, key: string, text: string)
    ensures key in KeysOf(es) ==> KeysOf(Put(es, key, text)) == KeysOf(es)
    ensures key !in KeysOf(es) ==> KeysOf(Put(es, key, text)) == KeysOf(es) + [key]
  {
    if es == [] {
    } else if es[0].key == key {
      KeysOfCons(es);
      KeysOfCons(Put(es, key, text));
    } else {
      PutKeepsKeyOrder(es[1..], key, text);
      KeysOfCons(es);
      KeysOfCons(Put(es, key, text));
      assert Put(es, key, text)[1..] == Put(es[1..], key, text);
    }
  }

  /** Writing a key never duplicates a key. */
  lemma PutKeepsKeysDistinct(es: seq<Entry>, key: string, text: string)
    ensures Distinct(KeysOf(es)) ==> Distinct(KeysOf(Put(es, key, text)))
  {
    var ks := KeysOf(es);
    PutKeepsKeyOrder(es, key, text);
    if Distinct(ks) && key !in ks {
      var ks' := ks + [key];
      forall i, j | 0 <= i < j < |ks'|
        ensures ks'[i] != ks'[j]
      {
        if j == |ks| {
          assert ks'[i] == ks[i];
        }
      }
    }
  }


  /** The keys of section `name` (configparser's `options`). */
  function Options(s: Store, name: string): seq<string>
    requires HasSection(s, name)
  {
    KeysOf(s[IndexOfSection(s, name)].entries)
  }

  /** The text under `key` in section `name`. */
  function GetOption(s: Store, name: string, key: string): Option<string>
    requires HasSection(s, name)
  {
    Lookup(s[IndexOfSection(s, name)].entries, key)
  }

  /** configparser's `set` on an existing section. */
  function SetOption(s: Store, name: string, key: string, text: string): (r: Store)
    requires HasSection(s, name)
    ensures SectionNames(r) == SectionNames(s)
    ensures HasSection(r, name)
    ensures GetOption(r, name, key) == Some(text)
    ensures forall k :: k != key ==> GetOption(r, name, k) == GetOption(s, name, k)
    ensures key in Options(s, name) ==> Options(r, name) == Options(s, name)
    ensures key !in Options(s, name) ==> Options(r, name) == Options(s, name) + [key]
    ensures forall n :: n != name && HasSection(s, n) ==>
              HasSection(r, n) && r[IndexOfSection(r, n)] == s[IndexOfSection(s, n)]
    ensures WellFormed(s) ==> WellFormed(r)
  {
    var i := IndexOfSection(s, name);
    var r := s[i := Section(name, Put(s[i].entries, key, text))];
    assert SectionNames(r) == SectionNames(s);
    PutKeepsKeyOrder(s[i].entries, key, text);
    PutKeepsKeysDistinct(s[i].entries, key, text);
    IndexDependsOnNames(s, r, name);
    forall n | n != name && HasSection(s, n)
      ensures HasSection(r, n) && r[IndexOfSection(r, n)] == s[IndexOfSection(s, n)]
    {
      IndexDependsOnNames(s, r, n);
    }
    r
  }
}
