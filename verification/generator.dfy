/** The index-file generator: from a directory's subdirectory names, its file names,
    and which subdirectories already hold an index, the text of its `__init__.gd`.
    Each entry of that text binds a symbol to a relative path,
    `const <symbol> = preload('<path>')`. */
module InitFileGenerator {

  import opened Wrappers
  import opened Seqs
  import opened Paths

  /** The extensions of the files an index preloads. */
  const Extensions: seq<string> := [".gd", ".gdns"]

  /** The name of the generated index file. */
  const InitFileName: string := "__init__.gd"

  /** Appended to a subdirectory symbol that a file stem already takes. */
  const CollisionSuffix: string := "D"

  const StatementPrefix: string := "const "
  const StatementMiddle: string := " = preload('"
  const StatementSuffix: string := "')"

  /** One named reference of an index file. */
  datatype Entry = Entry(symbol: string, path: string)

  /** A file is preloaded when its name ends in one of the extensions. */
  predicate Qualifies(f: string)
  {
    EndsWithAny(f, Extensions)
  }

  /** The files an index preloads, in listing order. */
  function QualifyingFiles(files: seq<string>): (q: seq<string>)
    ensures forall f :: f in q <==> f in files && Qualifies(f)
    ensures forall i :: 0 <= i < |q| ==> Qualifies(q[i])
    ensures (forall i :: 0 <= i < |files| ==> Qualifies(files[i])) ==> q == files
  {
    assert (forall i :: 0 <= i < |files| ==> Qualifies(files[i])) ==> Filter(files, Qualifies) == files by {
      if forall i :: 0 <= i < |files| ==> Qualifies(files[i]) {
        FilterAllKept(files, Qualifies);
      }
    }
    Filter(files, Qualifies)
  }

  /** The stems of `files`, position by position: the symbols taken by files. */
  function Stems(files: seq<string>): (stems: seq<string>)
    ensures |stems| == |files|
    ensures forall i :: 0 <= i < |files| ==> stems[i] == Stem(files[i])
  {
    seq(|files|, i requires 0 <= i < |files| => Stem(files[i]))
  }

  /** The statement text of an entry, without its line terminator. */
  function PreloadLine(e: Entry): string
  {
    StatementPrefix + e.symbol + StatementMiddle + e.path + StatementSuffix
  }

  /** `generate_preload_statement`: one entry as a full line. */
  function PreloadStatement(variableName: string, path: string): (line: string)
    ensures |line| > 0 && line[|line| - 1] == '\n'
    ensures '\n' !in variableName && '\n' !in path ==> '\n' !in line[..|line| - 1]
  {
    PreloadLine(Entry(variableName, path)) + "\n"
  }

  /** The lines of `entries`, one statement per entry, in order. */
  function Render(entries: seq<Entry>): (text: string)
    ensures text == [] <==> entries == []
    ensures text != [] ==> text[|text| - 1] == '\n'
  {
    if |entries| == 0 then []
    else PreloadStatement(entries[0].symbol, entries[0].path) + Render(entries[1..])
  }

  /** The symbol of subdirectory `d`: its name, suffixed when a file stem
      already takes that name. */
  function DirSymbol(d: string, stems: seq<string>): (symbol: string)
    ensures symbol == d || symbol == d + CollisionSuffix
    ensures symbol != d <==> d in stems
  {
    if d in stems then d + CollisionSuffix else d
  }

  /** The entry linking subdirectory `d`'s own index. */
  function DirEntry(d: string, stems: seq<string>): Entry
  {
    Entry(DirSymbol(d, stems), Join(d, InitFileName))
  }

  /** The entry preloading file `f`, under its stem. */
  function FileEntry(f: string): Entry
  {
    Entry(Stem(f), f)
  }

  /** The subdirectories whose index exists, in the order they are given. */
  function IndexedDirs(dirs: seq<string>, indexed: set<string>): seq<string>
  {
    Filter(dirs, d => d in indexed)
  }

  /** The directory block: an entry for exactly those subdirectories whose index
      exists, in the order the subdirectories are given. */
  function DirEntries(dirs: seq<string>, indexed: set<string>, stems: seq<string>): (es: seq<Entry>)
    ensures |es| == |IndexedDirs(dirs, indexed)| <= |dirs|
    ensures forall i :: 0 <= i < |es| ==> es[i] == DirEntry(IndexedDirs(dirs, indexed)[i], stems)
    ensures forall e :: e in es <==> exists d :: d in dirs && d in indexed && e == DirEntry(d, stems)
    ensures (forall d :: d in dirs ==> d in indexed) ==> |es| == |dirs|
  {
    if |dirs| == 0 then []
    else
      var rest := DirEntries(dirs[1..], indexed, stems);
      assert forall d :: d in dirs <==> d == dirs[0] || d in dirs[1..];
      if dirs[0] in indexed then
        assert IndexedDirs(dirs, indexed) == [dirs[0]] + IndexedDirs(dirs[1..], indexed);
        [DirEntry(dirs[0], stems)] + rest
      else
        assert IndexedDirs(dirs, indexed) == IndexedDirs(dirs[1..], indexed);
        rest
  }

  /** The file block: an entry for every file with a non-empty stem, in order. */
  function FileEntries(files: seq<string>): (es: seq<Entry>)
    ensures |es| <= |files|
    ensures forall e :: e in es <==> exists f :: f in files && Stem(f) != [] && e == FileEntry(f)
    ensures (forall f :: f in files ==> f != []) ==> |es| == |files|
  {
    if |files| == 0 then []
    else
      var rest := FileEntries(files[1..]);
      assert forall f :: f in files <==> f == files[0] || f in files[1..];
      StemEmptyIff(files[0]);
      if Stem(files[0]) != [] then [FileEntry(files[0])] + rest
      else
        assert files[0] in files && files[0] == [];
        rest
  }

  /** The text of a directory's index, or None when no file qualifies (then no
      index is written or removed). The text opens with a blank line; when the
      subdirectory list is non-empty, the directory block follows and is closed
      by a blank line even if it is empty; the file block ends it. Every
      qualifying file has a non-empty name, so the file block is never empty and
      the text always ends in a line terminator. */
  function GenerateContent(dirs: seq<string>, indexed: set<string>, files: seq<string>): (r: Option<string>)
    ensures r.None? <==> forall f :: f in files ==> !Qualifies(f)
    ensures r.Some? ==> |r.value| > 1 && r.value[0] == '\n' && r.value[|r.value| - 1] == '\n'
  {
    var qualifying := QualifyingFiles(files);
    if |qualifying| == 0 then None
    else
      var fileBlock := Render(FileEntries(qualifying));
      FileBlockNonEmpty(qualifying);
      var directoryBlock :=
        if |dirs| > 0 then Render(DirEntries(dirs, indexed, Stems(qualifying))) + "\n" else "";
      LastOfConcat("\n" + directoryBlock, fileBlock);
      Some("\n" + directoryBlock + fileBlock)
  }

  /** A non-empty list of qualifying files renders a non-empty file block. */
  lemma FileBlockNonEmpty(qualifying: seq<string>)
    requires |qualifying| > 0
    requires forall i :: 0 <= i < |qualifying| ==> Qualifies(qualifying[i])
    ensures Render(FileEntries(qualifying)) != []
  {
    QualifyingNonEmpty(qualifying[0]);
    assert FileEntry(qualifying[0]) in FileEntries(qualifying);
  }

  lemma LastOfConcat(a: string, b: string)
    requires b != []
    ensures |a + b| > 1 || a == []
    ensures (a + b)[|a + b| - 1] == b[|b| - 1]
  {
  }

  /** `remove_old_init_file`: the index, if any, is deleted. */
  function RemoveOldInitFile(existing: Option<string>): (r: Option<string>)
    ensures r.None?
  {
    None
  }

  /** `create_new_init_file`: writes `content` only where no index exists; an
      existing index is deleted and nothing is written. */
  function CreateNewInitFile(existing: Option<string>, content: string): (r: Option<string>)
    ensures r.Some? <==> existing.None?
    ensures r.Some? ==> r.value == content
  {
    if existing.Some? then RemoveOldInitFile(existing) else Some(content)
  }

  /** `generate_init_file`, as its effect on the directory's index: unchanged when
      no file qualifies; otherwise, since the old index is removed before the new
      one is created, exactly the assembled text. */
  function GenerateInitFile(existing: Option<string>, dirs: seq<string>, indexed: set<string>,
                            files: seq<string>): (r: Option<string>)
    ensures (forall f :: f in files ==> !Qualifies(f)) ==> r == existing
    ensures (exists f :: f in files && Qualifies(f)) ==> r.Some? && r == GenerateContent(dirs, indexed, files)
  {
    match GenerateContent(dirs, indexed, files)
    case None => existing
    case Some(content) => CreateNewInitFile(RemoveOldInitFile(existing), content)
  }

  /** Every qualifying name is non-empty, hence so is its stem: the source's
      guard against an empty stem never skips a qualifying file. */
  lemma QualifyingNonEmpty(f: string)
    requires Qualifies(f)
    ensures f != [] && Stem(f) != []
  {
    var i :| 0 <= i < |Extensions| && EndsWith(f, Extensions[i]);
    StemEmptyIff(f);
  }

  /** One file entry per qualifying file, in listing order, symbol the stem and
      path the bare name; a file that does not qualify never gets one. */
  lemma FileBlockIsQualifyingFiles(files: seq<string>)
    ensures |FileEntries(QualifyingFiles(files))| == |QualifyingFiles(files)|
    ensures forall i :: 0 <= i < |QualifyingFiles(files)| ==>
      FileEntries(QualifyingFiles(files))[i] == FileEntry(QualifyingFiles(files)[i])
    ensures forall e :: e in FileEntries(QualifyingFiles(files)) ==> e.path in files && Qualifies(e.path)
  {
    var q := QualifyingFiles(files);
    FileEntriesOfQualifying(q);
  }

  lemma {:induction false} FileEntriesOfQualifying(q: seq<string>)
    requires forall i :: 0 <= i < |q| ==> Qualifies(q[i])
    ensures |FileEntries(q)| == |q|
    ensures forall i :: 0 <= i < |q| ==> FileEntries(q)[i] == FileEntry(q[i])
  {
    if |q| > 0 {
      QualifyingNonEmpty(q[0]);
      FileEntriesOfQualifying(q[1..]);
    }
  }

  /** A subdirectory symbol clashes with a file symbol exactly when both the
      directory's name and its suffixed name are stems of qualifying files: the
      suffix is applied once and never re-checked. */
  lemma DirSymbolClash(d: string, stems: seq<string>)
    ensures DirSymbol(d, stems) in stems <==> d in stems && d + CollisionSuffix in stems
  {
  }
}
