# dict2xml, osName and getValue in Dafny

This project models the algorithmic core of a small set of build helpers
written in Python. Three functions are modelled:

- `dict2xml` (`Functions.py`). It serializes a nested configuration value
  (dicts, lists and scalars read from a TOML file) into compact XML 1.0 text.
  The text uses start, end and empty-element tags (section 3.1 of XML 1.0,
  Fifth Edition). It can start with the declaration `<?xml version="1.0" ?>`
  (section 2.8, production XMLDecl).
- `osName` (`Functions.py`). It classifies a platform string as `macos`,
  `linux`, `windows` or none.
- `getValue` (`ProjectVar.py`). It looks up a dotted path in the same kind
  of value. When it reaches a dict at the end of the path, it does one more
  lookup by OS name.

All three share one datatype, `Values.Value`:

- `Dict` holds the entries in insertion order, as (key, value) pairs.
- `List` holds the items.
- `Scalar` holds the text that Python's `str()` gives for the value.

Python exceptions (`TypeError`, `IndexError`, `KeyError`) are the `Err`
variant of `Results.Result`.

Modules:

- `Results` (results.dfy): the error, option and result types.
- `Values` (values.dfy): the value type, key lookup `Find`, and Python
  subscripting `Get`.
- `Platform` (platform.dfy): `OsName`. Its argument is the platform string
  that the code reads from `sys.platform`.
- `Xml` (xml.dfy): the serializer, written step by step like the source.
  - `Dict2Xml`, `DictLoop` and `ListLoop` follow the loop in the source.
    `Locals` holds the mutable variables `xml`, `attr` and `children`.
  - A reference definition works entry by entry, with no mutable state.
    `EntryPiece` says what one entry contributes. `Pieces`, `AttrText`,
    `ChildTexts` and `LastLeaf` summarize all entries, and `Element` is the
    element shape of section 3.1.
  - Lemmas prove that the loop computes the reference definition. Another
    lemma gives the exact inputs on which the serializer succeeds
    (`Renderable`).
- `XmlExamples` (xml_examples.dfy): consequences for particular document
  shapes.
- `ProjectVar` (project_var.dfy): `Split`/`Join` (Python's `str.split('.')`),
  `Walk` (the successive lookups), `ResolveOs` and `GetValue`. The OS name is
  a parameter of type `Option<string>`, as returned by `Platform.OsName`.

The code's behaviour is reproduced as written, including these points:

- A list is never wrapped in an element of its own. With dict items under a
  plural key such as `tags`, the output holds one `<tag>` element per item
  and no `<tags>` element around them (`XmlExamples.WidgetShape`).
- A scalar list item raises `TypeError`. Under a name whose singular is
  empty (the name `s`), it raises `IndexError` instead. So
  `{"name": "Widget", "@id": "42", "tags": ["a", "b"]}` under the root node
  `item` raises `TypeError` (`XmlExamples.ScalarTagsFail`).
- When a dict is wrapped, the start tag overwrites the declaration, so the
  declaration is lost (`Xml.WrappedIgnoresDeclaration`).
- In a dict with no root node, attributes are dropped. The last leaf
  element replaces the declaration, so it appears twice in the output
  (`Xml.UnwrappedLeafReplacesDeclaration`,
  `XmlExamples.UnwrappedDuplicatesLastLeaf`).
- A key `@k` whose value is a dict or a list is serialized under the tag
  `@k`: an element for a dict, one element per item named by the singular
  of `@k` for a list. It is never an attribute
  (`XmlExamples.AtKeyContainerIsElement`).
- The tag of each list item is the list's name with one trailing `s`
  removed.
- An empty key raises `IndexError`: `key[0]` fails for a scalar entry, and
  `root[-1]` fails for a container entry (`Xml.EmptyKeyScalarFails`,
  `Xml.EmptyKeyContainerFails`). The empty root node raises `IndexError`
  too (`Xml.EmptyRootFails`).
- `root[-1]` (line 186) is read before the value's type is tested
  (line 209). So `dict2xml(scalar, root_node='')` raises `IndexError`, not
  `TypeError` (`Xml.ScalarFails`).
- Nothing is escaped.

## Model

| member | source | states |
|---|---|---|
| `Values.Get` | ProjectVar.py:13 | `v[key]` on a dict returns a value stored under `key`, or raises KeyError when no entry has that key. On a list or a scalar it raises TypeError. |
| `Values.Find` | ProjectVar.py:13-15 | The entry lookup behind `rv[key]` finds nothing exactly when no entry has the key, and what it finds is stored under the key. |
| `Values.FindUnique` | ProjectVar.py:13 | In a dict without repeated keys, lookup returns `v` exactly when `(key, v)` is one of the entries. |
| `Platform.OsName` | Functions.py:88-98 | The first matching prefix decides, in the order `darwin`, `lin`, `win`. The names are `macos`, `linux` and `windows`. A platform with none of these prefixes has no OS name. Each result holds if and only if its prefix condition holds. |
| `Platform.OsNameStable` | Functions.py:90-96 | Appending text to a recognised platform string keeps its OS name. |
| `Platform.OsNameOrderFree` | Functions.py:90-95 | Testing `win`, then `lin`, then `darwin` gives the same OS name as the code's order: the prefixes exclude one another. |
| `Xml.Singular` | Functions.py:186 | The empty name raises IndexError. Otherwise the result plus `s` is the name, when the name ends in `s`; else the result is the name unchanged. |
| `Xml.SingularStripsOne` | Functions.py:186 | Exactly one trailing `s` is removed: `w + "s"` gives `w`. |
| `Xml.Dict2Xml` | Functions.py:183-222 | Every failure of the serializer is a TypeError or an IndexError, never any other exception. |
| `Xml.EntryPiece` | Functions.py:195-202 | A failure of a single entry is a TypeError or an IndexError. |
| `Xml.DictLoop` | Functions.py:194-202 | A failure of the loop over a dict's entries is a TypeError or an IndexError. |
| `Xml.ListLoop` | Functions.py:204-206 | A failure of the loop over a list's items is a TypeError or an IndexError. |
| `Xml.Step` | Functions.py:196-202 | One turn of the dict loop changes the locals exactly as the summary of that entry's piece: a leaf replaces `xml` and is appended to `children`, a nested text is appended to `children`, an attribute is appended to `attr`. |
| `Xml.DictLoopSummary` | Functions.py:194-202 | The loop over dict entries fails with the first failing entry's error. Otherwise it ends with: `xml` set to the last leaf element (or unchanged if there is none), the attribute texts appended to `attr` in entry order, and the nested and leaf elements appended to `children` in entry order. |
| `Xml.ListLoopSummary` | Functions.py:204-206 | The loop over list items fails with the first failing item's error. Otherwise it appends each item's serialization under the singular name, in order. |
| `Xml.Assemble` | Functions.py:211-220 | A wrapped result is the element `<root attrs/>` or `<root attrs>children</root>`; an unwrapped one is `xml` followed by the children. |
| `Xml.WrappedDict` | Functions.py:185-220 | A dict with the empty root node raises IndexError. With any other root node it is one element: `<root attrs/>` with no children, otherwise `<root attrs>children</root>`, or the first failing entry's error. The declaration is never part of it. |
| `Xml.UnwrappedDict` | Functions.py:187-217 | A dict with no root node drops its attributes. The output is the last leaf element (or the declaration/empty text if there is none) followed by all children. |
| `Xml.ListResult` | Functions.py:184-217 | A list under the empty root node raises IndexError. Under any other root node (or none) it is never wrapped: the output is the declaration (if asked for) followed by each item serialized under the singular name, with no declaration. The first failing item's error is raised. |
| `Xml.ScalarFails` | Functions.py:185-209 | A scalar raises TypeError, or IndexError when the root node is the empty name. |
| `Xml.EmptyRootFails` | Functions.py:185-186 | Any value under the empty root node raises IndexError, since `root[-1]` is read first. |
| `Xml.EmptyKeyContainerFails` | Functions.py:196-197 | A dict or list under the empty key raises IndexError from the nested call's `root[-1]`. |
| `Xml.EmptyKeyScalarFails` | Functions.py:198 | A scalar under the empty key raises IndexError from `key[0]`. |
| `Xml.RenderableIff` | Functions.py:183-222 | The serializer succeeds exactly on `Renderable` inputs: the name is non-empty and the value is not a scalar. Every container entry must succeed under its key, every scalar entry must have a non-empty key, and every list item must succeed under the singular name. |
| `Xml.ScalarItemFails` | Functions.py:204-209 | A list with any scalar item fails. |
| `Xml.WrappedIgnoresDeclaration` | Functions.py:191-214 | For a wrapped dict, asking for the declaration changes nothing. |
| `Xml.ListDeclarationPrefix` | Functions.py:191-217 | With the declaration asked for, a list's output is the declaration followed by its output without it. |
| `Xml.UnwrappedLeafReplacesDeclaration` | Functions.py:191-201 | In an unwrapped dict with a leaf entry, asking for the declaration changes nothing. |
| `XmlExamples.AtKeyContainerIsElement` | Functions.py:196-199 | An `@k` key holding a dict or list is serialized under the tag `@k` (an element for a dict, one element per item named by the singular of `@k` for a list), inside the root element and never as an attribute. |
| `XmlExamples.EmptyDictSelfCloses` | Functions.py:211-214 | The empty dict under root `r` is `<r/>`, with or without the declaration. |
| `XmlExamples.EmptyListIsDeclaration` | Functions.py:204-217 | The empty list gives the declaration alone, or the empty text. |
| `XmlExamples.ScalarTagsFail` | Functions.py:204-209 | The dict `{"name": "Widget", "@id": "42", "tags": ["a", "b"]}` under `item` raises TypeError. |
| `XmlExamples.SingleLeafDict` | Functions.py:198-220 | A dict holding one scalar under a plain key is the root element around one leaf element. |
| `XmlExamples.PluralKeyList` | Functions.py:184-206 | A one-item list under the name `w + "s"` gives exactly the item serialized under `w`. No element is written for the list. |
| `XmlExamples.WidgetShape` | Functions.py:194-220 | The entries leaf, `@id` and list-of-one-dict under a plural key give `<root id=".."><name>..</name><tag><child>..</child></tag></root>`. |
| `XmlExamples.UnwrappedDuplicatesLastLeaf` | Functions.py:198-217 | With no root node, the dict `{a, @x, b}` of scalars gives `<b>..</b><a>..</a><b>..</b>`. The attribute is dropped and the last leaf is doubled. |
| `ProjectVar.Split` | ProjectVar.py:10 | Splitting on `.` gives at least one piece. No piece contains a dot, and joining the pieces with `.` gives back the input. |
| `ProjectVar.SplitFirst` | ProjectVar.py:10 | A dot-free first piece splits off in front of the pieces of the rest. |
| `ProjectVar.SplitJoin` | ProjectVar.py:10 | Splitting the join of dot-free pieces gives back the pieces. Empty pieces are kept. |
| `ProjectVar.Walk` | ProjectVar.py:11-13 | The successive lookups fail only with KeyError or TypeError. A walk with at least one key succeeds only from a dict. |
| `ProjectVar.WalkAppend` | ProjectVar.py:11-13 | Walking `a + b` is walking `a`, then `b` from the value reached. A failure stops the walk, with no partial result. |
| `ProjectVar.ResolveOs` | ProjectVar.py:14-16 | A value that is not a dict is returned unchanged. A dict is looked up by the OS name, and a missing OS name raises KeyError. |
| `ProjectVar.GetValue` | ProjectVar.py:9-16 | A lookup fails only with KeyError or TypeError. |
| `ProjectVar.GetValueFirstKey` | ProjectVar.py:10-16 | `getValue(v, key + "." + rest)` is `getValue` of `rest` in the value under `key`, with the same OS step. |
| `ProjectVar.GetValuePath` | ProjectVar.py:10-16 | For a path of dot-free pieces, the result is the walk along exactly those pieces, followed by one OS step. |
| `ProjectVar.OsStepOnce` | ProjectVar.py:14-16 | When the path reaches a dict holding `(name, m)`, the result is `m` itself, even when `m` is a dict. |
| `ProjectVar.UnsupportedPlatformNoDict` | ProjectVar.py:14-16 | On a platform with no OS name, a successful lookup never returns a dict. |

## Left out

- `coloredText` and the `print*Message` functions: console output only.
- `run`, `attachDmg`, `installSilently`, `addReadPermission`: they start
  processes.
- `downloadFile`: network I/O.
- `createFile`, `createDir`, `copyFile`, `moveDir`, `zipDir`: filesystem
  and archive I/O, and `sys.exit`.
- `environmentVariable`, `setEnvironmentVariable`: the process environment.
- `config`: it reads a file through a third-party TOML parser. Its result is
  any `Value` passed in.
- `key()` and the final `print` of the project-variable script: they use
  `argv` and stdout.
- Platform.OsName: the read of `sys.platform` becomes a parameter. The
  warning printed on an unsupported platform is not modelled.
- Python's `str()` of numbers, booleans and dates: a scalar holds its text
  directly.
- Values.Get: keys are strings, as TOML gives them. `rv[None]` (the lookup
  with no OS name) is modelled as a missing key.
- Xml.Dict2Xml: the exception's message text (it names the offending type)
  is not modelled; only the exception class is.
- Xml.Dict2Xml: Python's recursion limit is not modelled. The model
  accepts arbitrarily deep values.
