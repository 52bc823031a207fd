# Godot `__init__.gd` index generator — a Dafny model

`generate.py` walks a Godot project tree. For each directory it writes an index file,
`__init__.gd`, made of `const <symbol> = preload('<path>')` lines. There is one line for each
GDScript (`.gd`) or native-script (`.gdns`) file in the directory. There is also one line for each
subdirectory that already holds an index of its own. This project models the two pieces of logic
in that script:

- **The generator** (`InitFileGenerator.generate_init_file`, `generate_preload_statement`,
  `remove_old_init_file`, `create_new_init_file`). It is a pure function of three inputs: a
  directory's subdirectory names, its file names, and the set of subdirectories whose index exists.
  It returns the index text, or nothing when no file qualifies. It covers extension filtering,
  stems as `os.path.splitext` computes them, the `D` suffix for a subdirectory whose name a file
  stem already takes, and the exact line and blank-line layout.
- **The walker** (`Parser.parse_directory`). The file system is an immutable tree of `Dir` values.
  Each `Dir` has a name, subdirectories, a file listing and an optional index text. The walk is a
  function from the tree before to the tree after. Subdirectories are walked before their parent's
  index is generated, so the parent's "does `d/__init__.gd` exist" test reads the children's state
  after their own walk. A `src` subdirectory captures the whole visit of its parent. The ignore list
  is a parameter, and the index file is filtered out of the listing the generator receives.

A second module, `IndexFormat`, reads a generated index back. It splits the text into lines and
parses each statement line into the entry it binds. This gives the generator's output an
independent partner: the layout lemma says which lines the text has, and the round-trip lemmas say
that parsing the text returns exactly the entries chosen.

Files:

- `wrappers.dfy`: the `Option` type.
- `seqs.dfy`: order-preserving filtering, which models Python list comprehensions, and
  concatenation regrouping.
- `paths.dfy`: `str.endswith`, `str.rfind`, and the POSIX versions of `os.path.splitext` and
  `os.path.join`.
- `generator.dfy`: the index content, plus the remove-then-create effect on the index file.
- `index_format.dfy`: the line splitter, the statement parser, and the layout and round-trip
  lemmas.
- `parser.dfy`: the directory tree and the walker.
- `scenarios.dfy`: small concrete trees and their outcomes.

Three behaviours of the code are easy to misread, and the model keeps them as written:

- A directory with no qualifying file of its own never gets an index. This holds even when a
  descendant gets one: `generate_init_file` returns before writing (generate.py:24-26).
  `Scenarios.DescendantOnlyExample` shows the case.
- The blank line after the directory block appears whenever the subdirectory list is non-empty,
  even if no directory line was written (generate.py:54-55).
- `create_new_init_file` writes nothing when an index already exists at the path. It only deletes
  that index (generate.py:88-89). In the script's own flow,
  the old index has just been removed, so the write always happens.

## Model

| member | source | states |
|---|---|---|
| Seqs.Filter | generate.py:24 | the result holds exactly the input elements that satisfy the predicate; it is never longer than the input |
| Seqs.FilterAppend | generate.py:24 | filtering distributes over concatenation, so the qualifying files keep their listing order |
| Paths.Splitext | generate.py:29 | root and extension concatenate back to the name; a non-empty extension is one dot followed by no dot or `/`; an extension is split off only when a non-dot character comes before it in the last component |
| Paths.StemOfExtension | generate.py:29 | for a slash-free name `s + ext` with `ext` like `.gd`: the stem is `s` when `s` has a non-dot character, and the whole name otherwise (`.gd` is its own stem) |
| Paths.StemEmptyIff | generate.py:60-62 | a stem is empty exactly when the name is empty |
| Paths.StemWithoutDot | generate.py:29 | a name without a dot is its own stem |
| Paths.Join | generate.py:42 | the joined path holds only characters of its parts and `/`, and ends with the second part |
| Paths.JoinComponent | generate.py:42 | joining a single non-empty component with a relative name gives `a/b` |
| InitFileGenerator.QualifyingFiles | generate.py:24 | the kept files are exactly the listed ones ending in `.gd` or `.gdns`; a listing of such files is kept whole |
| InitFileGenerator.Render | generate.py:50-63 | the accumulated statements are empty exactly when there are no entries, and otherwise end in a line break |
| IndexFormat.LinesOfRender | generate.py:50-63 | the accumulated statements, followed by any text, split into one line per entry, in order, then the lines of that text |
| InitFileGenerator.PreloadStatement | generate.py:72-74 | a statement is one terminated line: it ends in `\n` and holds no other line break when its parts hold none |
| InitFileGenerator.DirSymbol | generate.py:45-48 | a subdirectory's symbol is its name, or its name plus `D` exactly when the name is a stem of a qualifying file |
| InitFileGenerator.DirEntries | generate.py:39-52 | the directory block holds, position by position in listing order, one entry for each subdirectory whose index exists and no others: symbol from the collision rule, path `<d>/__init__.gd` |
| InitFileGenerator.FileEntries | generate.py:57-63 | the file block has an entry for exactly the files with a non-empty stem: symbol the stem, path the bare name |
| InitFileGenerator.GenerateContent | generate.py:23-68 | no text exactly when no file qualifies; otherwise the text starts with a line break and ends with one |
| InitFileGenerator.RemoveOldInitFile | generate.py:77-83 | after removal no index exists |
| InitFileGenerator.CreateNewInitFile | generate.py:86-94 | writes the content exactly when no index exists; an existing index is only deleted |
| InitFileGenerator.GenerateInitFile | generate.py:23-69 | with no qualifying file the index is untouched; otherwise, since removal comes before creation, the index is exactly the assembled text |
| InitFileGenerator.QualifyingNonEmpty | generate.py:59-63 | every qualifying name and its stem are non-empty, so the empty-stem guard never drops a qualifying file |
| InitFileGenerator.FileBlockIsQualifyingFiles | generate.py:57-63 | the file block has one entry per qualifying file, in listing order, as (stem, name); every entry's path is a listed, qualifying file |
| InitFileGenerator.DirSymbolClash | generate.py:45-48 | a subdirectory symbol collides with a file symbol exactly when both `d` and `d + "D"` are file stems |
| IndexFormat.ParseStatementRoundTrip | generate.py:72-74 | a statement written for a space-free symbol parses back to its symbol and path |
| IndexFormat.ParseStatementExact | generate.py:72-74 | the parser accepts only exact statements: whatever it reads is the line the generator would write for that entry |
| IndexFormat.GeneratedLayout | generate.py:36-68 | the lines of an index are: an empty line; the directory statements plus an empty line when the subdirectory list is non-empty; the file statements; and the empty rest after the final line break |
| IndexFormat.GeneratedEntries | generate.py:36-68 | parsing a generated index gives exactly the directory entries followed by the file entries |
| IndexFormat.GeneratedLinksDir | generate.py:39-52 | a generated index links subdirectory `n` under its collision-rule symbol exactly when `n`'s index exists |
| Parser.IndexedNames | generate.py:50 | a subdirectory name is in the set exactly when some subdirectory of that name holds an index |
| Parser.GeneratorFiles | generate.py:131 | the generator sees exactly the listed files other than `__init__.gd`; a listing without it is passed whole |
| Parser.EveryChildWalked | generate.py:126-128 | with the script's own (empty) ignore list and no `src` child, every subdirectory is walked |
| Parser.ListingWith | generate.py:86-92 | writing the index adds it to the listing and changes nothing the generator sees |
| Parser.Walk | generate.py:108-138 | the walk keeps names, subdirectory names and every non-index file; the index exists afterwards exactly when it existed before or (no `src` child and some file qualifies); otherwise the index and listing are unchanged |
| Parser.WalkChild | generate.py:126-128 | an ignored subdirectory is returned untouched |
| Parser.WalkRedirects | generate.py:121-124 | with a `src` child, only the first `src` is walked; the directory's index, its listing and every sibling are unchanged |
| Parser.WalkLeafFirst | generate.py:126-138 | without redirection, every non-ignored child is walked, ignored ones are untouched, and the index is generated from the children's post-walk state, the full subdirectory list and the listing without `__init__.gd` |
| Parser.WalkParentSeesChild | generate.py:126-138 | for a listing of distinct, plain names: the parent's index links child `k` exactly when that child holds an index after its own walk |
| Parser.WalkIdempotent | generate.py:108-138 | walking the walked tree changes nothing, so a second run gives identical index files |
| Parser.WalkPreservesWellFormed | generate.py:130-138 | if the listing names `__init__.gd` exactly where an index exists, that stays true everywhere in the tree after the walk |
| Parser.WalkOnlyWritesIndexes | generate.py:108-138 | anywhere in the tree, only index files change: names, shape and every other listed file are kept |
| Parser.QualifyingViaGenerator | generate.py:130-131 | whether a directory has a qualifying file depends only on the listing with `__init__.gd` filtered out |
| Scenarios.CollisionExample | generate.py:45-52 | `util.gd` beside an indexed `util/` gives `\n` + `const utilD = preload('util/__init__.gd')` + `\n\n` + `const util = preload('util.gd')` + `\n` |
| Scenarios.DescendantOnlyExample | generate.py:24-26 | a directory whose only script is one level down gets no index, while the subdirectory gets one |
| Scenarios.ModuleRootExample | generate.py:121-124 | a module root with `src`, a sibling and its own script: only `src` gets an index; the root and the sibling stay untouched |

## Left out

- File-system failures. Removing and writing the index always succeed in the model. The `except e:`
  handlers (generate.py:82-83, 93-94) name an unbound `e`, so a real failure would end the run with
  a `NameError` instead of logging.
- The `GENERATE_INIT_FILES` toggle (generate.py:20-21): it is always `True`, so the model always
  generates.
- `main` and `sys.argv` (generate.py:141-147): this is command-line plumbing. The walk runs only when
  an argument is given. The model starts at `Parser.Walk` on the root `Dir`.
- Absolute paths (`os.path.abspath`, the absolute index path at generate.py:31): a `Dir` is
  addressed by its place in the tree, and `os.path.isfile` on a child's index becomes that child's
  `index` field.
- The sibling order `os.walk` produces: the given sequence order is the listing order.
- `Paths.Splitext` models the POSIX `posixpath.splitext` only. There is no alternate separator.
- IndexFormat.GeneratedEntries: stated only for names without spaces or line breaks, because the
  statement parser needs a space-free symbol. A GDScript identifier never contains a space.
- IndexFormat.GeneratedLayout: stated only for names without line breaks.
- IndexFormat.GeneratedLinksDir: stated only for subdirectory names without spaces or line breaks,
  and file names without line breaks or `/`. A listing entry never holds `/`, and the statement
  parser needs a space-free symbol for the directory lines.
- Parser.WalkParentSeesChild: stated only for listings with distinct, non-empty subdirectory names
  without `/`, spaces or line breaks, and file names without `/` or line breaks.
- Duplicate symbols are kept as the code writes them. Two files with the same stem (`a.gd` and
  `a.gdns`), or a directory `d` beside files `d.gd` and `dD.gd`, produce two `const` lines with one
  name. `InitFileGenerator.DirSymbolClash` states exactly when the second case happens.
