/** The INI-file configuration source: a view of one section of a shared,
    ordered store. Views made by `Subsection` share their parent's store,
    so the stores live in a heap and a view refers to its store by index;
    a write through any view is seen by every view of the same store. */
module IniFile {
  import opened Wrappers
  import opened ConfigStore
  import opened Text

  /** The section whose keys are the top-level configuration parameters. */
  const RootSection := "__root__"

  /** Every store in use; a view's store is an index into it. */
  type Heap = seq<Store>

  /** The existing files of the file system, as stores already parsed. */
  type Files = map<string, Store>

  /** One INIFile object. `store` is None for a source built from a missing
      file; `dirty` is None when the constructor leaves the flag to the
      base class (views built with an explicit section). */
  datatype Source = Source(
    store: Option<nat>,
    sectionKey: string,
    defaultSection: string,
    hasParent: bool,
    fileName: Option<string>,
    writable: bool,
    dirty: Option<bool>)

  /** The exceptions the source lets escape. */
  datatype Error =
    | MissingStore                          // attribute access on a None store
    | NoSection(section: string)            // the view's section is not in the store
    | NoOption(section: string, key: string) // the key is not in the view's section
    | NotRoot                               // save() on a view that has a parent

  /** The constructor's arguments. `config` is the internal keyword
      argument: absent, or present holding a store or None. */
  datatype Args = Args(
    iniFileName: Option<string>,
    config: Option<Option<nat>>,
    section: Option<string>,
    writable: bool,
    defaultSection: string,
    hasParent: bool)

  /** `INIFile(name)`: the arguments a caller gives for a file. */
  function FileArgs(name: string): Args {
    Args(Some(name), None, None, true, RootSection, false)
  }

  predicate HeapWellFormed(h: Heap) {
    forall i :: 0 <= i < |h| ==> WellFormed(h[i])
  }

  predicate FilesWellFormed(files: Files) {
    forall f :: f in files ==> WellFormed(files[f])
  }

  /** The view's store exists in the heap, and only a view with a store
      remembers a (nonempty) file name. */
  predicate Valid(h: Heap, src: Source) {
    && (src.store.Some? ==> src.store.value < |h|)
    && (src.fileName.Some? ==> src.store.Some? && src.fileName.value != "")
  }

  predicate ArgsValid(h: Heap, args: Args) {
    args.config.Some? && args.config.value.Some? ==> args.config.value.value < |h|
  }

  /** `INIFile.__init__`. A named file that exists is parsed into a new
      store; a named file that does not exist leaves the source without a
      store and without a file name; otherwise an internal `config` store
      is adopted as is. */
  function Construct(h: Heap, files: Files, args: Args): (r: (Heap, Source))
    requires ArgsValid(h, args)
    ensures Valid(r.0, r.1)
    ensures |h| <= |r.0| && r.0[..|h|] == h
    ensures HeapWellFormed(h) && FilesWellFormed(files) ==> HeapWellFormed(r.0)
    ensures r.1.sectionKey == (if args.section.Some? then args.section.value else args.defaultSection)
    ensures r.1.defaultSection == args.defaultSection
    ensures r.1.hasParent == args.hasParent
    ensures r.1.writable == args.writable
    ensures args.section.None? ==> r.1.dirty == Some(false)
    ensures args.section.Some? ==> r.1.dirty.None?
    ensures args.iniFileName.Some? && args.iniFileName.value != "" ==>
              if args.iniFileName.value in files then
                && r.1.fileName == args.iniFileName
                && r.1.store == Some(|h|)
                && r.0 == h + [files[args.iniFileName.value]]
              else
                r.1.store.None? && r.1.fileName.None? && r.0 == h
    ensures (args.iniFileName.None? || args.iniFileName.value == "") ==>
              && r.0 == h
              && r.1.fileName.None?
              && r.1.store == (if args.config.Some? then args.config.value else None)
  {
    var (h', store, fileName) :=
      if args.iniFileName.Some? && args.iniFileName.value != "" then
        var f := args.iniFileName.value;
        if f in files then (h + [files[f]], Some(|h|), Some(f))
        else (h, None, None)
      else if args.config.Some? then (h, args.config.value, None)
      else (h, None, None);
    var sectionKey := if args.section.Some? then args.section.value else args.defaultSection;
    var dirty := if args.section.Some? then None else Some(false);
    assert h'[..|h|] == h;
    (h', Source(store, sectionKey, args.defaultSection, args.hasParent, fileName, args.writable, dirty))
  }

  /** INI files carry no type information. */
  function Typed(src: Source, key: string): (r: bool)
    ensures !r
  {
    false
  }

  /** The store's section names without `x`, in their original order. */
  function Without(names: seq<string>, x: string): (r: seq<string>)
    ensures forall n :: n in r <==> n in names && n != x
    ensures SubsequenceOf(r, names)
    ensures multiset(r) == multiset(names)[x := 0]
  {
    if names == [] then []
    else
      assert names == [names[0]] + names[1..];
      if names[0] == x then Without(names[1..], x)
      else [names[0]] + Without(names[1..], x)
  }

  /** The subsections visible from this view: only the root view has any,
      and they are every other section of the store, in store order. */
  function Subsections(h: Heap, src: Source): (r: seq<string>)
    requires Valid(h, src)
    ensures src.defaultSection !in r
    ensures src.store.None? || src.sectionKey != src.defaultSection ==> r == []
    ensures src.store.Some? && src.sectionKey == src.defaultSection ==>
              && SubsequenceOf(r, SectionNames(h[src.store.value]))
              && forall n :: n in r <==> HasSection(h[src.store.value], n) && n != src.defaultSection
  {
    if src.store.None? then []
    else if src.sectionKey != src.defaultSection then []
    else
      var s := h[src.store.value];
      assert forall n :: n in SectionNames(s) <==> HasSection(s, n) by {
        forall n ensures n in SectionNames(s) <==> HasSection(s, n) {
          if HasSection(s, n) {
            var i :| 0 <= i < |s| && s[i].name == n;
            assert SectionNames(s)[i] == n;
          }
        }
      }
      Without(SectionNames(s), src.defaultSection)
  }

  /** `subsection(key)`: a child view of the same store scoped to section
      `key`, with this view as parent and no file of its own. The child
      keeps its parent's default section (see SubsectionAsWritten). */
  function Subsection(h: Heap, src: Source, key: string): (r: Source)
    requires Valid(h, src)
    ensures Valid(h, r)
    ensures r.store == src.store
    ensures r.sectionKey == key && r.hasParent && r.fileName.None?
    ensures r.defaultSection == src.defaultSection
  {
    Construct(h, map[], Args(None, Some(src.store), Some(key), true, src.defaultSection, true)).1
  }

  /** `subsection(key)` exactly as written: the child is built with the
      constructor's default section, whatever the parent's was. */
  function SubsectionAsWritten(h: Heap, src: Source, key: string): (r: Source)
    requires Valid(h, src)
    ensures Valid(h, r)
    ensures r.store == src.store
    ensures r.sectionKey == key && r.hasParent && r.fileName.None?
    ensures r.defaultSection == RootSection
  {
    Construct(h, map[], Args(None, Some(src.store), Some(key), true, RootSection, true)).1
  }

  /** The view's own section, or the error reaching it raises. */
  function SectionOf(h: Heap, src: Source): (r: Result<Section, Error>)
    requires Valid(h, src)
    ensures src.store.None? <==> r == Err(MissingStore)
    ensures src.store.Some? ==>
              if HasSection(h[src.store.value], src.sectionKey) then
                r.Ok? && r.value.name == src.sectionKey && r.value in h[src.store.value]
              else r == Err(NoSection(src.sectionKey))
  {
    if src.store.None? then Err(MissingStore)
    else
      var s := h[src.store.value];
      if !HasSection(s, src.sectionKey) then Err(NoSection(src.sectionKey))
      else Ok(s[IndexOfSection(s, src.sectionKey)])
  }

  /** `has(key)`: whether the view's own section defines `key`. */
  function Has(h: Heap, src: Source, key: string): (r: Result<bool, Error>)
    requires Valid(h, src)
    ensures r.Err? <==> SectionOf(h, src).Err?
    ensures r.Err? ==> r.error == SectionOf(h, src).error
    ensures r.Ok? ==> (r.value <==> exists t :: Entry(key, t) in SectionOf(h, src).value.entries)
  {
    match SectionOf(h, src)
    case Err(e) => Err(e)
    case Ok(sec) =>
      var b := key in KeysOf(sec.entries);
      assert b ==> Lookup(sec.entries, key).Some?;
      assert (exists t :: Entry(key, t) in sec.entries) ==> b by {
        if t :| Entry(key, t) in sec.entries {
          var i :| 0 <= i < |sec.entries| && sec.entries[i] == Entry(key, t);
          assert KeysOf(sec.entries)[i] == key;
        }
      }
      Ok(b)
  }

  /** `get(key)`: the text stored under `key` in the view's own section. */
  function Get(h: Heap, src: Source, key: string): (r: Result<string, Error>)
    requires Valid(h, src)
    ensures SectionOf(h, src).Err? ==> r == Err(SectionOf(h, src).error)
    ensures SectionOf(h, src).Ok? ==>
              r.Ok? || r == Err(NoOption(src.sectionKey, key))
    ensures r.Ok? ==> Entry(key, r.value) in SectionOf(h, src).value.entries
  {
    match SectionOf(h, src)
    case Err(e) => Err(e)
    case Ok(sec) =>
      match Lookup(sec.entries, key)
      case None => Err(NoOption(src.sectionKey, key))
      case Some(t) => Ok(t)
  }

  /** `keys()`: the keys of the view's own section, in order; none at all
      when the source has no store. */
  function Keys(h: Heap, src: Source): (r: Result<seq<string>, Error>)
    requires Valid(h, src)
    ensures src.store.None? ==> r == Ok([])
    ensures src.store.Some? ==> (r.Err? <==> SectionOf(h, src).Err?)
    ensures src.store.Some? && r.Err? ==> r.error == SectionOf(h, src).error
    ensures src.store.Some? && r.Ok? ==>
              forall k :: k in r.value <==> Has(h, src, k) == Ok(true)
  {
    if src.store.None? then Ok([])
    else
      match SectionOf(h, src)
      case Err(e) => Err(e)
      case Ok(sec) => Ok(KeysOf(sec.entries))
  }

  /** `set(key, value)`: stores `str(value)` under `key` in the view's
      section of the shared store and clears the view's dirty flag. */
  function Set(h: Heap, src: Source, key: string, value: Value): (r: Result<(Heap, Source), Error>)
    requires Valid(h, src)
    ensures r.Err? <==> SectionOf(h, src).Err?
    ensures r.Err? ==> r.error == SectionOf(h, src).error
    ensures r.Ok? ==>
              && |r.value.0| == |h|
              && r.value.1 == src.(dirty := Some(false))
              && Valid(r.value.0, r.value.1)
  {
    match SectionOf(h, src)
    case Err(e) => Err(e)
    case Ok(_) =>
      var i := src.store.value;
      var s' := SetOption(h[i], src.sectionKey, key, ToText(value));
      Ok((h[i := s'], src.(dirty := Some(false))))
  }

  /** `save()`: only a root view may save; one with a file writes its whole
      store back to that file, one without a file does nothing. */
  function Save(h: Heap, src: Source, files: Files): (r: Result<Files, Error>)
    requires Valid(h, src)
    ensures src.hasParent <==> r == Err(NotRoot)
    ensures !src.hasParent && src.fileName.None? ==> r == Ok(files)
    ensures r.Ok? ==> forall f :: f in files ==> f in r.value
    ensures r.Ok? && src.fileName.Some? ==>
              r.value == files[src.fileName.value := h[src.store.value]]
    ensures r.Ok? ==> forall f :: f in files && Some(f) != src.fileName ==> r.value[f] == files[f]
  {
    if src.hasParent then Err(NotRoot)
    else if src.fileName.None? then Ok(files)
    else Ok(files[src.fileName.value := h[src.store.value]])
  }
}
