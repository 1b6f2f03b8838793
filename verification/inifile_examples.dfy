/** The INI scenarios of the repository's tests, evaluated on the model,
    and the subsection defect of `subsection()` as written. */
module IniFileExamples {
  import opened Wrappers
  import opened ConfigStore
  import opened Text
  import opened IniFile
  import opened IniFileProperties

  /** The root section of the two-section example file. */
  function RootEntries(): seq<Entry> {
    [ Entry("datadir", "mydata"),
      Entry("processes", "4"),
      Entry("loglevel", "INFO"),
      Entry("forceparse", "True"),
      Entry("jsfiles", "['default.js','modernizr.js']") ]
  }

  /** The `mymodule` section of the example file. */
  function ModuleEntries(): seq<Entry> {
    [ Entry("loglevel", "DEBUG"),
      Entry("forceparse", "False"),
      Entry("jsfiles", "['pdfviewer.js','zepto.js']"),
      Entry("lastrun", "2012-09-18 15:41:00") ]
  }

  function ExampleStore(): Store {
    [Section(RootSection, RootEntries()), Section("mymodule", ModuleEntries())]
  }

  function ExampleHeap(): Heap {
    [ExampleStore()]
  }

  function ExampleFiles(): Files {
    map["ferenda.ini" := ExampleStore()]
  }

  /** `INIFile("ferenda.ini")` on the example file system. */
  function ExampleRoot(): Source {
    Source(Some(0), RootSection, RootSection, false, Some("ferenda.ini"), true, Some(false))
  }

  /** Its `subsection("mymodule")`. */
  function ExampleSub(): Source {
    Source(Some(0), "mymodule", RootSection, true, None, true, None)
  }

  /** Building the source from the example file parses it into a new store
      and yields the root view; its subsection shares that store. */
  lemma ExampleConstruction()
    ensures Construct([], ExampleFiles(), FileArgs("ferenda.ini")) == (ExampleHeap(), ExampleRoot())
    ensures Subsection(ExampleHeap(), ExampleRoot(), "mymodule") == ExampleSub()
    ensures SubsectionAsWritten(ExampleHeap(), ExampleRoot(), "mymodule") == ExampleSub()
  {
  }

  lemma ExampleSections()
    ensures SectionOf(ExampleHeap(), ExampleRoot()) == Ok(Section(RootSection, RootEntries()))
    ensures SectionOf(ExampleHeap(), ExampleSub()) == Ok(Section("mymodule", ModuleEntries()))
  {
    var s := ExampleStore();
    assert s[0].name == RootSection && s[1].name == "mymodule";
    assert IndexOfSection(s, RootSection) == 0;
    assert IndexOfSection(s, "mymodule") == 1;
  }

  /** What the example's sections hold, key by key. */
  lemma ExampleEntries()
    ensures KeysOf(RootEntries()) == ["datadir", "processes", "loglevel", "forceparse", "jsfiles"]
    ensures KeysOf(ModuleEntries()) == ["loglevel", "forceparse", "jsfiles", "lastrun"]
    ensures Lookup(RootEntries(), "processes") == Some("4")
    ensures Lookup(ModuleEntries(), "lastrun") == Some("2012-09-18 15:41:00")
  {
    assert Lookup(RootEntries()[1..], "processes") == Some("4");
    assert Lookup(ModuleEntries()[3..], "lastrun") == Some("2012-09-18 15:41:00");
  }

  /** Reading the root of the example file: the number stays the text `4`. */
  lemma ReadExampleRoot()
    ensures Get(ExampleHeap(), ExampleRoot(), "processes") == Ok("4")
  {
    ExampleSections();
    ExampleEntries();
    ViewReadsSection(ExampleHeap(), ExampleRoot(), Section(RootSection, RootEntries()), "processes");
  }

  /** The root does not see a key that only the other section has. */
  lemma ExampleRootMissesModuleKey()
    ensures Get(ExampleHeap(), ExampleRoot(), "lastrun") == Err(NoOption(RootSection, "lastrun"))
  {
    ExampleSections();
    ExampleEntries();
    ViewReadsSection(ExampleHeap(), ExampleRoot(), Section(RootSection, RootEntries()), "lastrun");
  }

  /** The root lists its own keys in file order. */
  lemma ExampleRootKeys()
    ensures Keys(ExampleHeap(), ExampleRoot()) ==
              Ok(["datadir", "processes", "loglevel", "forceparse", "jsfiles"])
  {
    ExampleSections();
    ExampleEntries();
    ViewListsSectionKeys(ExampleHeap(), ExampleRoot(), Section(RootSection, RootEntries()));
  }

  /** The subsection sees its own value. */
  lemma ReadExampleSubsection()
    ensures Get(ExampleHeap(), ExampleSub(), "lastrun") == Ok("2012-09-18 15:41:00")
  {
    ExampleSections();
    ExampleEntries();
    ViewReadsSection(ExampleHeap(), ExampleSub(), Section("mymodule", ModuleEntries()), "lastrun");
  }

  /** The subsection does not see the root's keys. */
  lemma ExampleSubsectionMissesRootKey()
    ensures Get(ExampleHeap(), ExampleSub(), "datadir") == Err(NoOption("mymodule", "datadir"))
  {
    ExampleSections();
    ExampleEntries();
    ViewReadsSection(ExampleHeap(), ExampleSub(), Section("mymodule", ModuleEntries()), "datadir");
  }

  /** The subsection lists its own keys in file order. */
  lemma ExampleSubsectionKeys()
    ensures Keys(ExampleHeap(), ExampleSub()) == Ok(["loglevel", "forceparse", "jsfiles", "lastrun"])
  {
    ExampleSections();
    ExampleEntries();
    ViewListsSectionKeys(ExampleHeap(), ExampleSub(), Section("mymodule", ModuleEntries()));
  }

  /** The root of the example lists its one other section, which lists
      none. */
  lemma ExampleSubsections()
    ensures Subsections(ExampleHeap(), ExampleRoot()) == ["mymodule"]
    ensures Subsections(ExampleHeap(), ExampleSub()) == []
  {
    assert SectionNames(ExampleStore()) == [RootSection, "mymodule"];
    assert Without([RootSection, "mymodule"], RootSection) == ["mymodule"];
  }

  /** The value written into the example, and the heap after the write. */
  function NewLastrun(): Value {
    Other("2013-09-18 15:41:00")
  }

  function ExampleWrittenHeap(): Heap {
    var r := Set(ExampleHeap(), ExampleSub(), "lastrun", NewLastrun());
    if r.Ok? then r.value.0 else ExampleHeap()
  }

  /** Writing `lastrun` through the subsection succeeds and `get` returns
      the new text. */
  lemma WriteExampleSubsection()
    ensures Set(ExampleHeap(), ExampleSub(), "lastrun", NewLastrun()).Ok?
    ensures Get(ExampleWrittenHeap(), ExampleSub(), "lastrun") == Ok("2013-09-18 15:41:00")
  {
    var h := ExampleHeap();
    var sub := ExampleSub();
    ExampleSections();
    SetStoresText(h, sub, "lastrun", NewLastrun());
    var (h', sub') := Set(h, sub, "lastrun", NewLastrun()).value;
    assert SectionOf(h', sub') == SectionOf(h', sub);
  }

  /** The rewritten `lastrun` keeps its position among the section's keys. */
  lemma WriteExampleKeepsPosition()
    ensures Keys(ExampleWrittenHeap(), ExampleSub()) == Ok(["loglevel", "forceparse", "jsfiles", "lastrun"])
  {
    var h := ExampleHeap();
    var sub := ExampleSub();
    ExampleSections();
    ReadExampleSubsection();
    ExampleSubsectionKeys();
    HasAgreesWithGet(h, sub, "lastrun");
    SetKeepsKeyOrder(h, sub, "lastrun", NewLastrun());
    var (h', sub') := Set(h, sub, "lastrun", NewLastrun()).value;
    assert SectionOf(h', sub') == SectionOf(h', sub);
  }

  /** The write leaves the root's keys as they were. */
  lemma WriteExampleKeepsRoot()
    ensures Keys(ExampleWrittenHeap(), ExampleRoot()) ==
              Ok(["datadir", "processes", "loglevel", "forceparse", "jsfiles"])
  {
    var h := ExampleHeap();
    ExampleSections();
    ExampleRootKeys();
    SetVisibleThroughEveryView(h, ExampleSub(), "lastrun", NewLastrun(), ExampleRoot());
  }

  /** Saving after a write: the root writes its whole store to the file;
      saving through the subsection is refused. */
  lemma SaveExampleFile(h: Heap)
    requires |h| == 1
    ensures Save(h, ExampleSub(), ExampleFiles()) == Err(NotRoot)
    ensures Save(h, ExampleRoot(), ExampleFiles()) == Ok(map["ferenda.ini" := h[0]])
  {
    assert ExampleFiles()["ferenda.ini" := h[0]] == map["ferenda.ini" := h[0]];
  }

  /** With a custom default section and a section literally called
      `__root__`, `subsection()` as written yields a child view that still
      lists subsections, so nesting goes past depth one. */
  lemma SubsectionAsWrittenNestsTooDeep()
    ensures var s := [Section("main", []), Section(RootSection, [])];
            var root := Source(Some(0), "main", "main", false, None, true, Some(false));
            && RootSection in Subsections([s], root)
            && SubsectionAsWritten([s], root, RootSection).hasParent
            && Subsections([s], SubsectionAsWritten([s], root, RootSection)) == ["main"]
  {
    var s := [Section("main", []), Section(RootSection, [])];
    var root := Source(Some(0), "main", "main", false, None, true, Some(false));
    assert s[0].name == "main" && s[1].name == RootSection;
    assert SectionNames(s) == ["main", RootSection];
    assert Without(SectionNames(s), "main") == [RootSection];
    assert RootSection in Subsections([s], root);
    var sub := SubsectionAsWritten([s], root, RootSection);
    assert sub.sectionKey == sub.defaultSection == RootSection;
    assert Without(SectionNames(s), RootSection) == ["main"];
  }
}
