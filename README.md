# cykooz.recipe.idea — a Dafny model

`cykooz.recipe.idea` is a zc.buildout recipe that tells a PyCharm/IDEA project
where a buildout's eggs live. On `install` (and `update`, the same method) it:

1. resolves a list of paths (`get_paths`): every location of the buildout's
   working set falls into one of three buckets. A develop path is the target
   of an `.egg-link` file. An egg path lies under the eggs directory. Anything
   else is an other path. Each bucket can be switched off by an option, and
   the buckets are concatenated as develop, eggs, other. The `extra-paths`
   entries follow, each literal or glob-expanded. Repeats are then dropped,
   keeping the first;
2. writes `<idea_dir>/libraries/Buildout_Eggs.xml` (`_write_paths`). It has
   three fixed opening lines and one `<root url="file://…" />` line per path,
   with the path XML-escaped. Six closing lines follow, the last one empty, so
   the file ends with a newline;
3. patches the project's first `.iml` module file (`_update_idea_project`). The
   patch runs only when the text does not already contain
   `name="Buildout Eggs"`. It parses the file and appends an `orderEntry`
   referencing the library to the `NewModuleRootManager` component, shifting
   the whitespace tails. It then writes the file back behind an XML declaration.

Nothing happens when the project directory or a module file is missing.

The model is split into these modules:

- `Paths` (`paths.dfy`): a path is an anchor plus its name components, as
  `PurePosixPath` sees it. It defines `Path(s)` parsing, `as_posix()`, and
  `parents` as a proper-prefix relation.
- `Text` (`text.dfy`): `join`/`split` on one character, substring search
  (Python's `in`), `readline` and `strip`.
- `XmlEscape` (`xml_escape.dfy`): `xml.sax.saxutils.escape` as the replace
  chain it is. It is proved equal to a per-character escape and undone by an
  unescape.
- `Resolver` (`resolver.dfy`): the specification of `get_paths` as functions
  on sequences, with the ordering, membership and de-duplication lemmas.
- `LibraryFile` (`library_file.dfy`): the lines and text of the library file,
  and a reader that recovers the paths from them.
- `ElementTree` (`element_tree.dfy`): the element tree and the subset of
  `ElementTree.tostring` the module files need.
- `ProjectPatcher` (`project_patcher.dfy`): the patch on the tree, the whole
  `_update_idea_project` on the file's text, and why a second run changes
  nothing.
- `Recipe` (`recipe.dfy`): option parsing, the disk (a `FileSystem` object
  with files and directories), and the `Recipe` class. Its methods follow the
  source's loops and are proved against the functions above. It also holds a
  whole-run function `Installation`, about which idempotence is proved.

What buildout and the disk report is passed in as parameters:

- the working set's locations;
- the text of the `.egg-link` files;
- the eggs directory;
- the `extra-paths` entries;
- `glob.glob`;
- the `.iml` glob result;
- the XML parser.

Each path is escaped with `xml.sax.saxutils.escape` only (`&amp;`, `&lt;`,
`&gt;`); it is not percent-encoded, and the model does the same.

The `if path:` test on an `.egg-link` line (`__init__.py:62`) tests a `Path`
object, which is never false. An empty first line therefore names the current
directory `.`, and the model keeps it as a develop path, as the code does
(`Resolver.BlankLinkNamesCurrentDirectory`).

## Model

| member | source | states |
|---|---|---|
| Recipe.Recipe.constructor | src/cykooz/recipe/idea/__init__.py:17-31 | the recipe keeps the project directory, the three flags and the library name `Buildout Eggs` |
| Recipe.ReadOptionsAccepts | src/cykooz/recipe/idea/__init__.py:24-27 | the options are accepted exactly when `eggs` is given and each `include_*` option is absent, `true` or `false`; `include_develop` and `include_other` are set only by `true`, and `include_eggs` is set by `true` or by being absent |
| Recipe.DefaultSettings | src/cykooz/recipe/idea/__init__.py:20-26 | with only `eggs` given, the project directory is `<buildout directory>/.idea`, eggs are included, and develop and other paths are not |
| Paths.ParentsAreProperAncestors | src/cykooz/recipe/idea/__init__.py:74 | `a in p.parents` holds exactly when `a` has the same anchor as `p` and its components are a proper prefix of `p`'s |
| Paths.NotOwnParent | src/cykooz/recipe/idea/__init__.py:74 | a path is never among its own parents |
| Paths.PathOfWellFormed | src/cykooz/recipe/idea/__init__.py:61 | a path built from any string has only real name components (no empty, `.` or slash-holding ones) |
| Paths.PathOfAsPosix | src/cykooz/recipe/idea/__init__.py:107 | parsing `p.as_posix()` gives back `p` |
| Text.FirstLineOf | src/cykooz/recipe/idea/__init__.py:61 | `readline` gives the text before the first `\n` or `\r` |
| Text.StripTrims | src/cykooz/recipe/idea/__init__.py:61 | `strip` gives a slice of its input with no whitespace at either end |
| Text.StripSurrounded | src/cykooz/recipe/idea/__init__.py:61 | `strip` removes exactly the whitespace around a trimmed text |
| Resolver.LinkTargetReadsFirstLine | src/cykooz/recipe/idea/__init__.py:59-63 | the develop path a link file names is its first line without the surrounding whitespace, whatever follows the line ending |
| Resolver.BlankLinkNamesCurrentDirectory | src/cykooz/recipe/idea/__init__.py:61-63 | a link file with a blank first line adds the current directory `.` to the develop paths |
| Recipe.Recipe.ReadDevelopPaths | src/cykooz/recipe/idea/__init__.py:57-63 | the loop builds the develop set; a path is in it exactly when some link file names it |
| Resolver.SelectedMembership | src/cykooz/recipe/idea/__init__.py:69-78 | a path is in a bucket's list exactly when it is a working-set location of that bucket's kind and the bucket's flag is set |
| Resolver.DevelopPathsStayInDevelopBucket | src/cykooz/recipe/idea/__init__.py:71-73 | a develop path is never in the egg or other list, and it is in the develop list exactly when it is in the working set and `include_develop` is set |
| Resolver.EggPathsAreUnderEggsDirectory | src/cykooz/recipe/idea/__init__.py:74-78 | a location that is not a develop path is an egg path exactly when the eggs directory is a proper ancestor of it, and an other path exactly when it is not |
| Resolver.EggsDirectoryIsNotAnEggPath | src/cykooz/recipe/idea/__init__.py:74 | the eggs directory itself is not an egg path |
| Resolver.SelectedKeepsOrder | src/cykooz/recipe/idea/__init__.py:69-78 | any two paths of a bucket's list appear in the working set in the same order |
| Recipe.Recipe.Classify | src/cykooz/recipe/idea/__init__.py:65-78 | the loop fills the three lists exactly as the bucket specification says |
| Resolver.ExpandExtrasMembership | src/cykooz/recipe/idea/__init__.py:85-89 | a path comes from the extras exactly when some entry expands to it |
| Resolver.ExtraEntries | src/cykooz/recipe/idea/__init__.py:85-89 | an entry without `*` adds itself, whether or not it exists; an entry with `*` adds every glob match |
| Recipe.Recipe.AppendExtras | src/cykooz/recipe/idea/__init__.py:80-89 | the loop appends each entry's expansion, in entry order and in the order the glob returns, after the three lists |
| Resolver.UniqueElements | src/cykooz/recipe/idea/__init__.py:91-97 | de-duplication keeps exactly the paths of its input |
| Resolver.UniqueNoDuplicates | src/cykooz/recipe/idea/__init__.py:91-97 | the de-duplicated list has no repeats |
| Resolver.UniqueKeepsFirstOccurrences | src/cykooz/recipe/idea/__init__.py:91-97 | the kept paths come in the order of their first occurrences in the input |
| Resolver.UniqueAppend | src/cykooz/recipe/idea/__init__.py:91-97 | de-duplicating `a + b` gives `a` de-duplicated, then the new paths of `b` de-duplicated |
| Recipe.Recipe.Deduplicate | src/cykooz/recipe/idea/__init__.py:91-97 | the loop computes the order-preserving unique list: no repeats, the same paths |
| Resolver.ResultLayout | src/cykooz/recipe/idea/__init__.py:80-97 | the result is the develop paths, then the egg paths not yet listed, then the new other paths, then the new extra paths |
| Resolver.ResultMembership | src/cykooz/recipe/idea/__init__.py:53-97 | a path is in the result exactly when it is a working-set location whose bucket is switched on, or it comes from the extras |
| Resolver.ResultWellFormed | src/cykooz/recipe/idea/__init__.py:53-97 | every resolved path is a well-formed path |
| Recipe.Recipe.GetPaths | src/cykooz/recipe/idea/__init__.py:53-97 | `get_paths` computes the resolver specification; its result has no repeats and only well-formed paths |
| XmlEscape.EscapeIsPerCharacter | src/cykooz/recipe/idea/__init__.py:107 | replacing `&`, then `>`, then `<` escapes each character on its own, and no entity is escaped twice |
| XmlEscape.EscapeRoundTrip | src/cykooz/recipe/idea/__init__.py:107 | escaped text holds no `<` or `>`, and unescaping gives the original back |
| XmlEscape.EscapeAmpersand | src/cykooz/recipe/idea/__init__.py:107 | an `&` in the text appears as `&amp;` |
| LibraryFile.RootLineAmpersand | src/cykooz/recipe/idea/__init__.py:106-108 | an `&` in a path appears as `&amp;` in its `root` line |
| LibraryFile.RootLineReadBack | src/cykooz/recipe/idea/__init__.py:106-108 | a path's `root` line reads back as that path |
| LibraryFile.LinesLayout | src/cykooz/recipe/idea/__init__.py:100-116 | the lines are the three opening lines, then one `root` line per path in order, then the six closing lines |
| LibraryFile.LinesReadBack | src/cykooz/recipe/idea/__init__.py:100-116 | reading the `root` lines back gives exactly the paths, in order, and no other line is taken for one |
| Recipe.Recipe.LibraryLines | src/cykooz/recipe/idea/__init__.py:100-116 | the loop builds those lines, and a reader finds the same paths in them |
| LibraryFile.DocumentLines | src/cykooz/recipe/idea/__init__.py:123 | the written text splits back into the same lines and ends with a newline, when no path holds a newline |
| LibraryFile.DocumentReadBack | src/cykooz/recipe/idea/__init__.py:99-123 | splitting the written text into lines and reading the `root` lines gives the paths back, in order |
| Recipe.Recipe.WritePaths | src/cykooz/recipe/idea/__init__.py:99-123 | `libraries` becomes a directory and the file holds the document for the resolved paths; nothing changes when the file cannot be opened |
| ElementTree.Get | src/cykooz/recipe/idea/__init__.py:132 | an attribute lookup finds a value exactly when the element has that attribute |
| ElementTree.SerializeContainsChild | src/cykooz/recipe/idea/__init__.py:146-149 | an element's serialization contains each child's serialization |
| ProjectPatcher.FindRootManager | src/cykooz/recipe/idea/__init__.py:132 | `find` returns the first child that is a `NewModuleRootManager` component, or none when there is none |
| ProjectPatcher.PatchTarget | src/cykooz/recipe/idea/__init__.py:132-145 | the patch applies exactly when such a component exists and has children; it changes that component only |
| ProjectPatcher.AppendEntryAddsOneReference | src/cykooz/recipe/idea/__init__.py:134-145 | the component gains exactly one library entry, and it is its last child |
| ProjectPatcher.AppendEntryKeepsChildren | src/cykooz/recipe/idea/__init__.py:134-145 | every child before the old last one is kept exactly, tail included; the old last child changes only its tail, to `'\n    '`; the new entry takes the old last tail; the component's own fields are kept |
| ProjectPatcher.PatchedTextHasMarker | src/cykooz/recipe/idea/__init__.py:130-152 | the text written after a patch contains `name="Buildout Eggs"` |
| ProjectPatcher.UpdateIsIdempotent | src/cykooz/recipe/idea/__init__.py:128-152 | running the patcher on the text it wrote leaves the file unchanged, whatever the parser |
| ProjectPatcher.MarkedTextIsLeftAlone | src/cykooz/recipe/idea/__init__.py:130 | a text that already contains the marker is not rewritten |
| Recipe.Recipe.UpdateIdeaProject | src/cykooz/recipe/idea/__init__.py:128-155 | the method rewrites the module file exactly as the patcher specification says, or leaves it unchanged |
| Recipe.ResultIsNotInProjectDirectory | src/cykooz/recipe/idea/__init__.py:23 | the library file is neither `libraries` nor an entry of the project directory, so no `.iml` glob returns it |
| Recipe.WrittenLibraryAgain | src/cykooz/recipe/idea/__init__.py:118-126 | writing the library onto a disk that already holds the same file, with `libraries` a directory, leaves the disk as it was |
| Recipe.WrittenLibraryKeepsModuleFiles | src/cykooz/recipe/idea/__init__.py:46-47 | writing the library leaves every module file's text unchanged |
| Recipe.Recipe.Install | src/cykooz/recipe/idea/__init__.py:33-49 | nothing changes without the project directory or a module file; otherwise the library is written and only the first module file is patched |
| Recipe.InstallIsIdempotent | src/cykooz/recipe/idea/__init__.py:33-51 | a second run (`update` is `install`) leaves the disk exactly as the first run left it |

## Left out

- The working set and `extra_paths` come from `zc.recipe.egg.Scripts`, which is not part of this model. They are inputs, as are the `relative-paths` option passed to it and the `Scripts` object itself.
- `Path.glob` on the develop-eggs and project directories, and `glob.glob`, are inputs: their results and their order are given.
- File I/O errors are not modelled: an unreadable `.egg-link` or module file, encodings, or a failing `mkdir`. One exception is modelled: the library file cannot be opened when `libraries` is a file or the result path is a directory.
- Logging is not modelled.
- `ElementTree.fromstring` is a parameter. `None` stands for its parse error, which the model reports as `ParseError` after the library is written, where the source raises.
- ElementTree.Serialize: covers plain tags, attributes in insertion order, text and tails. It leaves out namespaces, comments and processing instructions, and it writes a missing text or tail (`None`) as empty text.
- ProjectPatcher.UpdateIsIdempotent: proves the marker is in the written text. It does not prove the exact text of the appended line, because the solver is too slow on that literal-string equality.
- Recipe.Recipe.UpdateIdeaProject: builds the patched tree as a new value. The source mutates the parsed tree in place; nothing else holds that tree, so no aliasing is lost.
- Paths are POSIX paths only. Windows drive letters and the POSIX special case of exactly two leading slashes are left out.
- Platform case folding and symlinks are left out. Paths compare structurally, as `PurePosixPath` does.
