/** Properties that relate several operations of the INI source: how a
    write is seen through every view of the shared store, how `has`, `get`
    and `keys` agree, and what survives a save and a reload. */
module IniFileProperties {
  import opened Wrappers
  import opened ConfigStore
  import opened Text
  import opened IniFile

  /** A source built from a file that does not exist has no store: it lists
      no subsections and no keys, saving it does nothing, and `has` fails
      on the missing store rather than answering false. */
  lemma MissingFileIsEmpty(h: Heap, files: Files, name: string, key: string)
    requires name != "" && name !in files
    ensures Construct(h, files, FileArgs(name)).0 == h
    ensures var src := Construct(h, files, FileArgs(name)).1;
            && src.store.None?
            && Subsections(h, src) == []
            && Keys(h, src) == Ok([])
            && Save(h, src, files) == Ok(files)
            && Has(h, src, key) == Err(MissingStore)
  {
  }

  /** A source built from an existing file reads the file's root section:
      `get` returns the stored text unchanged. */
  lemma ExistingFileServesRootSection(h: Heap, files: Files, name: string, key: string)
    requires name != "" && name in files
    requires HasSection(files[name], RootSection)
    ensures var (h', src) := Construct(h, files, FileArgs(name));
            && src.store == Some(|h|)
            && h'[|h|] == files[name]
            && src.sectionKey == RootSection
            && !src.hasParent
            && Get(h', src, key) ==
                 (match GetOption(files[name], RootSection, key)
                  case Some(t) => Ok(t)
                  case None => Err(NoOption(RootSection, key)))
  {
  }

  /** Nesting stops at depth one: a subsection listed by a view has no
      subsections of its own. */
  lemma SubsectionsStopAtDepthOne(h: Heap, src: Source, name: string)
    requires Valid(h, src)
    requires name in Subsections(h, src)
    ensures Subsections(h, Subsection(h, src, name)) == []
  {
  }

  /** The child `subsection()` builds as written differs from the corrected
      child only in its default section, and is that same child whenever
      the parent uses the constructor's default section. */
  lemma AsWrittenDiffersOnlyInDefault(h: Heap, src: Source, key: string)
    requires Valid(h, src)
    ensures SubsectionAsWritten(h, src, key) == Subsection(h, src, key).(defaultSection := RootSection)
    ensures src.defaultSection == RootSection ==>
              SubsectionAsWritten(h, src, key) == Subsection(h, src, key)
  {
  }

  /** Nesting as written: a listed subsection other than one literally
      called `__root__` lists nothing, so depth one holds whenever the
      parent uses the constructor's default section; the child of a
      `__root__` section lists every other section of the store. */
  lemma AsWrittenDepth(h: Heap, src: Source, name: string)
    requires Valid(h, src)
    requires name in Subsections(h, src)
    ensures name != RootSection ==> Subsections(h, SubsectionAsWritten(h, src, name)) == []
    ensures src.defaultSection == RootSection ==> Subsections(h, SubsectionAsWritten(h, src, name)) == []
    ensures name == RootSection ==>
              forall n :: n in Subsections(h, SubsectionAsWritten(h, src, name)) <==>
                            HasSection(h[src.store.value], n) && n != RootSection
  {
  }

  /** `has` and `get` agree: a key is present exactly when `get` succeeds,
      absent exactly when `get` reports the missing option, and both fail
      alike when the section cannot be reached. */
  lemma HasAgreesWithGet(h: Heap, src: Source, key: string)
    requires Valid(h, src)
    ensures Has(h, src, key) == Ok(true) <==> Get(h, src, key).Ok?
    ensures Has(h, src, key) == Ok(false) <==> Get(h, src, key) == Err(NoOption(src.sectionKey, key))
    ensures Has(h, src, key).Err? ==> Get(h, src, key) == Err(Has(h, src, key).error)
  {
    match SectionOf(h, src)
    case Err(_) =>
    case Ok(sec) =>
      var l := Lookup(sec.entries, key);
      if l.Some? {
        assert Entry(key, l.value) in sec.entries;
      }
  }

  /** Once the view's section is known, `get` and `keys` read it alone. */
  lemma ViewReadsSection(h: Heap, src: Source, sec: Section, key: string)
    requires Valid(h, src)
    requires SectionOf(h, src) == Ok(sec)
    ensures Get(h, src, key) ==
              (if Lookup(sec.entries, key).Some? then Ok(Lookup(sec.entries, key).value)
               else Err(NoOption(src.sectionKey, key)))
  {
  }

  /** Once the view's section is known, `keys` lists that section's keys. */
  lemma ViewListsSectionKeys(h: Heap, src: Source, sec: Section)
    requires Valid(h, src)
    requires SectionOf(h, src) == Ok(sec)
    ensures Keys(h, src) == Ok(KeysOf(sec.entries))
  {
  }

  /** In a well-formed store a section lists each key once. */
  lemma KeysAreDistinct(h: Heap, src: Source)
    requires Valid(h, src) && HeapWellFormed(h)
    ensures Keys(h, src).Ok? ==> Distinct(Keys(h, src).value)
  {
    if src.store.Some? && SectionOf(h, src).Ok? {
      var s := h[src.store.value];
      var i := IndexOfSection(s, src.sectionKey);
      assert WellFormed(s);
      assert Distinct(KeysOf(s[i].entries));
    }
  }

  /** `set` succeeds exactly when the view's section can be reached, and
      then touches only that section's store. */
  lemma SetReachesOwnSection(h: Heap, src: Source, key: string, value: Value)
    requires Valid(h, src)
    ensures Set(h, src, key, value).Ok? <==> SectionOf(h, src).Ok?
    ensures Set(h, src, key, value).Ok? ==>
              var h' := Set(h, src, key, value).value.0;
              forall n :: 0 <= n < |h| && Some(n) != src.store ==> h'[n] == h[n]
  {
  }

  /** After `set(key, value)` the key is present in the view's section and
      `get` returns the stringified value; the dirty flag is cleared. */
  lemma SetStoresText(h: Heap, src: Source, key: string, value: Value)
    requires Valid(h, src)
    requires SectionOf(h, src).Ok?
    ensures Set(h, src, key, value).Ok?
    ensures var (h', src') := Set(h, src, key, value).value;
            && Has(h', src', key) == Ok(true)
            && Get(h', src', key) == Ok(ToText(value))
            && src'.dirty == Some(false)
  {
    var i := src.store.value;
    var s' := SetOption(h[i], src.sectionKey, key, ToText(value));
    var (h', src') := Set(h, src, key, value).value;
    assert h'[i] == s';
    assert SectionOf(h', src') == Ok(s'[IndexOfSection(s', src.sectionKey)]);
    HasAgreesWithGet(h', src', key);
  }

  /** `set(key, value)` leaves the text of every other key of the section
      as it was. */
  lemma SetKeepsOtherKeys(h: Heap, src: Source, key: string, value: Value)
    requires Valid(h, src)
    requires SectionOf(h, src).Ok?
    ensures Set(h, src, key, value).Ok?
    ensures var (h', src') := Set(h, src, key, value).value;
            forall k :: k != key ==> Get(h', src', k) == Get(h, src, k)
  {
    var i := src.store.value;
    var s := h[i];
    var j := IndexOfSection(s, src.sectionKey);
    var s' := SetOption(s, src.sectionKey, key, ToText(value));
    var (h', src') := Set(h, src, key, value).value;
    assert h'[i] == s';
    IndexDependsOnNames(s, s', src.sectionKey);
    assert s'[j].entries == Put(s[j].entries, key, ToText(value));
    assert SectionOf(h, src) == Ok(s[j]);
    assert SectionOf(h', src') == Ok(s'[j]);
  }

  /** `set(key, value)` keeps the section's key order: an existing key stays
      where it was, a new key is appended at the end. */
  lemma SetKeepsKeyOrder(h: Heap, src: Source, key: string, value: Value)
    requires Valid(h, src)
    requires SectionOf(h, src).Ok?
    ensures Set(h, src, key, value).Ok?
    ensures var (h', src') := Set(h, src, key, value).value;
            && (Has(h, src, key) == Ok(true) ==> Keys(h', src') == Keys(h, src))
            && (Has(h, src, key) == Ok(false) ==> Keys(h', src') == Ok(Keys(h, src).value + [key]))
  {
    var i := src.store.value;
    var s := h[i];
    var s' := SetOption(s, src.sectionKey, key, ToText(value));
    var (h', src') := Set(h, src, key, value).value;
    assert h'[i] == s';
    assert SectionOf(h, src) == Ok(s[IndexOfSection(s, src.sectionKey)]);
    assert SectionOf(h', src') == Ok(s'[IndexOfSection(s', src.sectionKey)]);
    assert Keys(h, src) == Ok(Options(s, src.sectionKey));
    assert Keys(h', src') == Ok(Options(s', src.sectionKey));
  }

  /** `set` keeps every store of the heap well formed. */
  lemma SetKeepsHeapWellFormed(h: Heap, src: Source, key: string, value: Value)
    requires Valid(h, src) && HeapWellFormed(h)
    requires Set(h, src, key, value).Ok?
    ensures HeapWellFormed(Set(h, src, key, value).value.0)
  {
    var i := src.store.value;
    var h' := Set(h, src, key, value).value.0;
    forall n | 0 <= n < |h'|
      ensures WellFormed(h'[n])
    {
      if n != i {
        assert h'[n] == h[n];
      }
    }
  }

  /** A write through one view is seen by every view of the same store and
      section; every other view, and every view's subsection list, sees
      exactly what it saw before. */
  lemma SetVisibleThroughEveryView(h: Heap, src: Source, key: string, value: Value, w: Source)
    requires Valid(h, src) && Valid(h, w)
    requires Set(h, src, key, value).Ok?
    ensures var h' := Set(h, src, key, value).value.0;
            && Valid(h', w)
            && Subsections(h', w) == Subsections(h, w)
            && (w.store == src.store && w.sectionKey == src.sectionKey ==>
                  Get(h', w, key) == Ok(ToText(value)))
            && (w.store != src.store || w.sectionKey != src.sectionKey ==>
                  && SectionOf(h', w) == SectionOf(h, w)
                  && Keys(h', w) == Keys(h, w)
                  && forall k :: Get(h', w, k) == Get(h, w, k))
  {
    var h' := Set(h, src, key, value).value.0;
    var i := src.store.value;
    var s := h[i];
    var s' := SetOption(s, src.sectionKey, key, ToText(value));
    assert h' == h[i := s'];
    if w.store == Some(i) {
      if w.sectionKey == src.sectionKey {
        SetStoresText(h, src, key, value);
        assert SectionOf(h', w) == SectionOf(h', src.(dirty := Some(false)));
      } else if HasSection(s, w.sectionKey) {
        assert SectionOf(h', w) == SectionOf(h, w);
      } else {
        assert !HasSection(s', w.sectionKey) by {
          if HasSection(s', w.sectionKey) {
            IndexDependsOnNames(s', s, w.sectionKey);
          }
        }
      }
    }
  }

  /** The scenario of writing through a subsection: a value set through
      `subsection(name)` of a root view is seen by a new
      `subsection(name)` of the same root, while the root's own keys are
      untouched. */
  lemma SetThroughSubsectionVisibleFromRoot(h: Heap, root: Source, name: string, key: string, value: Value)
    requires Valid(h, root)
    requires name != root.sectionKey
    requires Set(h, Subsection(h, root, name), key, value).Ok?
    ensures var h' := Set(h, Subsection(h, root, name), key, value).value.0;
            && Get(h', Subsection(h', root, name), key) == Ok(ToText(value))
            && Keys(h', root) == Keys(h, root)
            && Subsections(h', root) == Subsections(h, root)
  {
    var sub := Subsection(h, root, name);
    SetVisibleThroughEveryView(h, sub, key, value, Subsection(h, root, name));
    SetVisibleThroughEveryView(h, sub, key, value, root);
  }

  /** The same scenario on the child exactly as `subsection()` builds it. */
  lemma SetThroughSubsectionAsWrittenVisibleFromRoot(h: Heap, root: Source, name: string, key: string, value: Value)
    requires Valid(h, root)
    requires name != root.sectionKey
    requires Set(h, SubsectionAsWritten(h, root, name), key, value).Ok?
    ensures var h' := Set(h, SubsectionAsWritten(h, root, name), key, value).value.0;
            && Get(h', SubsectionAsWritten(h', root, name), key) == Ok(ToText(value))
            && Keys(h', root) == Keys(h, root)
            && Subsections(h', root) == Subsections(h, root)
  {
    var sub := SubsectionAsWritten(h, root, name);
    SetVisibleThroughEveryView(h, sub, key, value, SubsectionAsWritten(h, root, name));
    SetVisibleThroughEveryView(h, sub, key, value, root);
  }

  /** Two views of equal stores and the same section see the same section. */
  lemma SameStoreSameSection(h: Heap, a: Source, h2: Heap, b: Source)
    requires Valid(h, a) && Valid(h2, b)
    requires a.store.Some? && b.store.Some?
    requires h[a.store.value] == h2[b.store.value]
    requires a.sectionKey == b.sectionKey
    ensures SectionOf(h, a) == SectionOf(h2, b)
    ensures Keys(h, a) == Keys(h2, b)
    ensures forall k :: Get(h, a, k) == Get(h2, b, k)
  {
  }

  /** Saving a root view and building a new source from the same file
      gives back what the view saw: the same keys and texts in the root
      section, the same subsections, and the same keys and texts in each
      subsection (the text format's own round trip is left to the parser). */
  lemma SaveThenReload(h: Heap, root: Source, files: Files, f: string)
    requires Valid(h, root)
    requires root.fileName == Some(f)
    requires root.sectionKey == RootSection && root.defaultSection == RootSection
    requires Save(h, root, files).Ok?
    ensures var files' := Save(h, root, files).value;
            var (h2, reloaded) := Construct(h, files', FileArgs(f));
            && Keys(h2, reloaded) == Keys(h, root)
            && (forall k :: Get(h2, reloaded, k) == Get(h, root, k))
            && Subsections(h2, reloaded) == Subsections(h, root)
            && (forall n, k :: Get(h2, Subsection(h2, reloaded, n), k) == Get(h, Subsection(h, root, n), k))
            && (forall n, k :: Get(h2, SubsectionAsWritten(h2, reloaded, n), k) ==
                                Get(h, SubsectionAsWritten(h, root, n), k))
  {
    var files' := Save(h, root, files).value;
    var (h2, reloaded) := Construct(h, files', FileArgs(f));
    assert h2[reloaded.store.value] == h[root.store.value];
    SameStoreSameSection(h2, reloaded, h, root);
    forall n, k
      ensures Get(h2, Subsection(h2, reloaded, n), k) == Get(h, Subsection(h, root, n), k)
    {
      SameStoreSameSection(h2, Subsection(h2, reloaded, n), h, Subsection(h, root, n));
    }
    forall n, k
      ensures Get(h2, SubsectionAsWritten(h2, reloaded, n), k) == Get(h, SubsectionAsWritten(h, root, n), k)
    {
      SameStoreSameSection(h2, SubsectionAsWritten(h2, reloaded, n), h, SubsectionAsWritten(h, root, n));
    }
  }
}
