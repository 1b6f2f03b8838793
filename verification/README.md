# INI-file configuration source, modelled in Dafny

This project models `INIFile`, the INI-file source of layeredconfig. An
`INIFile` object is a view of one section of a parsed INI file. The parsed
file is an ordered store: a sequence of sections, each an ordered list of
key/text pairs. The distinguished section `__root__` holds the top-level
keys. Every other section is a subsection, one level deep. A subsection
view shares its parent's store, so a write through any view is seen by
every view of that store.

Files:

- `wrappers.dfy`: `Option` and `Result`. Python's `None` and raised
  exceptions are modelled with these.
- `config_store.dfy` (module `ConfigStore`): the parsed store. It provides
  section lookup, `options`, `get`, and `set`. `set` overwrites an
  existing key where it stands and appends a new key.
- `text.dfy` (module `Text`): `str()` of the values written into the
  source. It includes the decimal numeral of an integer and its parse.
- `inifile.dfy` (module `IniFile`): the source itself.
  - Stores live in a heap (`Heap = seq<Store>`). A view (`Source`) holds
    the index of its store, or none.
  - The file system is a map from existing file names to their parsed
    stores.
  - The constructor, `typed`, `subsections`, `subsection`, `has`, `get`,
    `set`, `keys` and `save` are pure functions. The exceptions they let
    escape are `Err` values.
- `inifile_properties.dfy` (module `IniFileProperties`): lemmas that relate
  several operations.
- `inifile_examples.dfy` (module `IniFileExamples`): the INI scenarios of
  the repository's tests, evaluated on the model, plus the counterexample
  listed under Findings.

A configuration source is usually described as degrading gracefully. Where
this code does not, the model follows the code:

- On a source whose file is missing, `has`, `get` and `set` do not answer
  "false" or do nothing. They dereference the missing store and raise.
  The model returns `Err(MissingStore)` for these calls. Only `keys`,
  `subsections` and `save` are guarded against the missing store.
- `get` of an absent key raises configparser's missing-option error:
  `Err(NoOption(section, key))`.
- A view whose section is absent from the store raises
  `Err(NoSection(section))`. `has` and `keys` raise for any absent
  section. `get` raises unless the section key is configparser's
  `DEFAULT`. `set` raises unless the section key is empty or `DEFAULT`
  (see "Left out").

## Model

| member | source | states |
|---|---|---|
| IniFile.Construct | layeredconfig/inifile.py:29-52 | An existing named file becomes a new store in the heap and the view remembers the file; a missing file leaves the view with no store and no file name; otherwise an internal store is adopted unchanged; the section is the given one or the default section; the dirty flag is cleared when no section is given and left unset when one is; existing stores are untouched |
| IniFileProperties.MissingFileIsEmpty | layeredconfig/inifile.py:30-34 | A source built from a nonexistent file has no store, lists no subsections and no keys (so the configuration enumerates to nothing), saving it changes nothing, and `has` on it fails on the missing store |
| IniFileProperties.ExistingFileServesRootSection | layeredconfig/inifile.py:35-49 | A source built from an existing file is a parentless view of the file's `__root__` section and `get` returns the file's text for the key, or the missing-option error |
| IniFile.Typed | layeredconfig/inifile.py:54-56 | No key ever carries a type hint |
| IniFile.Subsections | layeredconfig/inifile.py:58-68 | Without a store, or at any view other than the root, there are no subsections; at the root they are exactly the store's sections other than the default section, in store order; the default section is never listed |
| IniFile.Without | layeredconfig/inifile.py:68 | Dropping one name from a list keeps every other name, in its original order and with its multiplicity, and removes every occurrence of the dropped name |
| IniFile.Subsection | layeredconfig/inifile.py:70-72 | Corrected (see Findings): the child view refers to the same store, is scoped to the named section, has a parent and no file, and keeps the parent's default section |
| IniFile.SubsectionAsWritten | layeredconfig/inifile.py:70-72 | The child view as the code builds it: the same store, the named section, a parent, no file, and the constructor's default section `__root__` whatever the parent's was |
| IniFileProperties.SubsectionsStopAtDepthOne | layeredconfig/inifile.py:64-72 | A subsection listed by a view lists no subsections of its own |
| IniFileProperties.AsWrittenDiffersOnlyInDefault | layeredconfig/inifile.py:70-72 | The child built as written is the corrected child with its default section reset to `__root__`, and is the very same child when the parent's default section is `__root__` |
| IniFileProperties.AsWrittenDepth | layeredconfig/inifile.py:64-72 | As written, a listed subsection lists nothing unless it is literally called `__root__`, so depth one holds under the constructor's default section; the child of a `__root__` section lists every other section of the store |
| IniFile.SectionOf | layeredconfig/inifile.py:75 | Reaching the view's section fails on a missing store or on a section absent from the store, and otherwise yields the store's section of that name |
| IniFile.Has | layeredconfig/inifile.py:74-75 | `has` fails exactly when the section cannot be reached, and otherwise holds exactly when the view's own section has an entry for the key |
| IniFile.Get | layeredconfig/inifile.py:77-78 | `get` fails as the section lookup fails, or with the missing-option error, and any text it returns is the text stored for the key in the view's own section |
| IniFileProperties.HasAgreesWithGet | layeredconfig/inifile.py:74-78 | `has` is true exactly when `get` succeeds, false exactly when `get` reports the missing option, and both fail alike otherwise |
| IniFile.Keys | layeredconfig/inifile.py:85-88 | Without a store there are no keys; with one, `keys` fails exactly when the section is absent, and a key is listed exactly when `has` holds for it |
| IniFileProperties.KeysAreDistinct | layeredconfig/inifile.py:85-88 | In a well-formed store no key is listed twice |
| IniFile.Set | layeredconfig/inifile.py:80-83 | `set` fails exactly when the section cannot be reached, with the same error; on success the heap keeps its size and the view comes back with its dirty flag cleared |
| IniFileProperties.SetReachesOwnSection | layeredconfig/inifile.py:80-83 | `set` succeeds exactly when the view's section is reachable, and it changes no store other than the view's own |
| IniFileProperties.SetStoresText | layeredconfig/inifile.py:80-83 | After `set(k, v)` the key is present, `get(k)` returns `str(v)`, and the dirty flag is false |
| IniFileProperties.SetKeepsOtherKeys | layeredconfig/inifile.py:80-83 | After `set(k, v)` every other key of the section has the text it had before |
| IniFileProperties.SetKeepsKeyOrder | layeredconfig/inifile.py:80-83 | After `set(k, v)` the key list is unchanged if `k` was present and is the old list followed by `k` otherwise |
| IniFileProperties.SetKeepsHeapWellFormed | layeredconfig/inifile.py:80-83 | `set` never makes section names or keys repeat |
| IniFileProperties.SetVisibleThroughEveryView | layeredconfig/inifile.py:70-83 | A write is seen through every view of the same store and section; all other views see their section, keys and texts unchanged; no view's subsection list changes |
| IniFileProperties.SetThroughSubsectionVisibleFromRoot | tests/test_layeredconfig.py:329-334 | A value set through `subsection(name)` of a root view is seen by a new `subsection(name)` of that root, while the root's keys and subsections are unchanged |
| IniFileProperties.SetThroughSubsectionAsWrittenVisibleFromRoot | tests/test_layeredconfig.py:329-334 | The same scenario on the child exactly as `subsection()` builds it: the write is seen by a new child of the root, and the root's keys and subsections are unchanged |
| IniFile.Save | layeredconfig/inifile.py:90-95 | Saving a view with a parent fails; a root view without a file saves nothing; a root view with a file maps exactly that file to its whole store, and every other file keeps its contents |
| IniFileProperties.SaveThenReload | layeredconfig/inifile.py:90-95 | After a root view saves to its file, a new source built from that file has the same root keys and texts, the same subsections, and the same texts in each subsection, through the child as written and through the corrected one |
| ConfigStore.IndexOfSection | layeredconfig/inifile.py:75 | The position found holds the named section and no earlier section has that name |
| ConfigStore.Lookup | layeredconfig/inifile.py:78 | A key has a text exactly when it is among the section's keys, and the text returned is stored with that key |
| ConfigStore.Put | layeredconfig/inifile.py:82 | After writing, the key's text is the written text and every other key's text is unchanged |
| ConfigStore.PutKeepsKeyOrder | layeredconfig/inifile.py:36 | Writing into the ordered section keeps an existing key in its place and appends a new key last |
| ConfigStore.PutKeepsKeysDistinct | layeredconfig/inifile.py:36 | Writing never duplicates a key |
| ConfigStore.SetOption | layeredconfig/inifile.py:82 | Writing into one section keeps the section names, stores the text under the key, keeps other keys' texts, keeps key order (appending a new key), leaves every other section unchanged, and keeps the store well formed |
| ConfigStore.IndexDependsOnNames | layeredconfig/inifile.py:82 | Two stores with the same section names find a section at the same position |
| Text.ToText | layeredconfig/inifile.py:81-82 | `str()` keeps text verbatim, writes an integer as a numeral in Python's canonical form (no leading zero, no `-0`) that parses back to it, and writes booleans as `True`/`False` |
| Text.NatTextRoundTrip | layeredconfig/inifile.py:81-82 | The decimal numeral of a natural number parses back to that number |
| Text.IntTextRoundTrip | layeredconfig/inifile.py:81-82 | The numeral of any integer, sign included, parses back to that integer |
| Text.IntTextInjective | layeredconfig/inifile.py:81-82 | Distinct integers are stored as distinct text |
| IniFileExamples.ExampleConstruction | tests/test_layeredconfig.py:109-125 | Building the source from the two-section example file gives one store and the root view; its `mymodule` subsection shares that store, and under the constructor's default section the child as written is the same view |
| IniFileExamples.ReadExampleRoot | tests/test_layeredconfig.py:95-99 | `processes` in the root section reads as the text `4`, not a number |
| IniFileExamples.ExampleRootMissesModuleKey | tests/test_layeredconfig.py:138-139 | The root does not see `lastrun`, which only the subsection has |
| IniFileExamples.ExampleRootKeys | tests/test_layeredconfig.py:111-117 | The root lists its keys in file order |
| IniFileExamples.ReadExampleSubsection | tests/test_layeredconfig.py:140 | The subsection reads its own `lastrun` text unchanged |
| IniFileExamples.ExampleSubsectionMissesRootKey | tests/test_layeredconfig.py:127-128 | The subsection does not see the root's `datadir` |
| IniFileExamples.ExampleSubsectionKeys | tests/test_layeredconfig.py:119-123 | The subsection lists its keys in file order |
| IniFileExamples.ExampleSubsections | tests/test_layeredconfig.py:119-137 | The root lists exactly `mymodule` and the subsection lists nothing |
| IniFileExamples.WriteExampleSubsection | tests/test_layeredconfig.py:329-334 | Writing `lastrun` through the subsection succeeds and reads back as the new text |
| IniFileExamples.WriteExampleKeepsPosition | tests/test_layeredconfig.py:342-346 | The rewritten `lastrun` stays in its place as the section's last key |
| IniFileExamples.WriteExampleKeepsRoot | tests/test_layeredconfig.py:335-340 | The write leaves the root's keys as they were |
| IniFileExamples.SaveExampleFile | tests/test_layeredconfig.py:329-334 | Saving through the subsection is refused, and saving the root writes its whole store to the file |
| IniFileExamples.SubsectionAsWrittenNestsTooDeep | layeredconfig/inifile.py:70-72 | With default section `main` and a section named `__root__`, the child built as written has a parent yet lists `main` as a subsection |

## Left out

- File I/O and logging are not modelled: `os.path.exists`, `open`, the warning for a missing file, and configparser's text reader and writer. The file system is a map from existing names to already-parsed stores. `SaveThenReload` therefore assumes the text format reads back what was written.
- configparser internals behind the calls are not modelled: lower-casing of option names, interpolation, the `DEFAULT` section and its inherited keys, parse errors, duplicate sections or keys in the text, and valueless options. Stores are assumed well formed: section names are distinct, and keys are distinct within a section.
- `str()` of objects other than text, integers and booleans (dates, lists) is not modelled. Such a value is carried together with its rendering (`Other`).
- The model follows Python 3, where `str()` of stored text is that text. Under Python 2 the module's `str` is `unicode`, and `get` and `set` raise a decode error on non-ASCII byte strings. That failure is not modelled.
- Because lower-casing and interpolation are left out, `SetStoresText`, `HasAgreesWithGet` and `SetReachesOwnSection` describe the program only for lower-case keys, `%`-free text, and a section key that is neither empty nor configparser's `DEFAULT`. Python 3's configparser sends `set` with an empty or `DEFAULT` section key to its defaults dictionary, and `get` with a `DEFAULT` section key reads that dictionary. In those cases `set` succeeds, and `get` returns a text or the missing-option error, where the model reports `NoSection`. A key written there then shows up as inherited in every other section. `get` with an empty section key raises `NoSection`, as in the model. `has` compares the raw key with `options()`, while configparser's `get` and `set` lower-case it, so `set("LastRun", v)` followed by `has("LastRun")` is false in the program. Python 3's `set` also rejects text with a lone `%`.
- The `ConfigSource` base class is not part of this model. This affects three things:
  - The `parent` and `identifier` keyword arguments become a has-parent flag, and the identifier is dropped.
  - The constructor sets `dirty` only when no section is given. Otherwise the flag is left to the base class, which the model shows as `None`.
  - The bare `INIFile()` branch never assigns `source`. The model treats that view as having no store.
- A `section` keyword argument whose value is `None` is not modelled. A given section is always a string.
- Text.ToText: does not model the limit on integer-to-text conversion of Python 3.11 and later (and of the 3.7-3.10 security releases). There, `str()` of an integer with more than 4300 digits raises `ValueError`, so `set` of such a value fails before configparser is reached. The model writes a numeral for every integer, so `SetReachesOwnSection`, `SetStoresText`, `SetKeepsOtherKeys` and `SetKeepsKeyOrder` promise a successful `set` that such a Python refuses.
- `keys()` is a generator in the code. A missing section raises only when the result is iterated, and the option list is read at the first step of the iteration, not at the call. The model returns the whole list, or the error, at the call.
- The `assert` in `save()` disappears under `python -O`. `save()` on a child view then does nothing instead of failing; the model always returns `Err(NotRoot)`.
- The `writable` flag is stored but is not consulted anywhere in this file. `subsection()` does not pass it on, so a child view is always writable, as in the code.
- The layered resolver, type coercion, cascading, `LayeredConfig.write`, and the Defaults, Environment and Commandline sources are not part of this model.

## Findings

| source | as written | input that shows it | evidently intended | confidence | as-written member | corrected member |
|---|---|---|---|---|---|---|
| layeredconfig/inifile.py:70-72 | `subsection()` builds the child without passing `defaultsection`, so the child's default section is always `__root__` | a root view with default section `main` over sections `main` and `__root__`: `subsection("__root__")` has a parent, yet its `subsections()` returns `["main"]`, so nesting goes past depth one | the child keeps its parent's default section, so a listed subsection never lists subsections of its own | not executed; medium | IniFile.SubsectionAsWritten, IniFileExamples.SubsectionAsWrittenNestsTooDeep | IniFile.Subsection, IniFileProperties.SubsectionsStopAtDepthOne |
