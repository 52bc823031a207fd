/** Reading a generated index back: its lines, and the entry each statement line
    binds. Used to state what the generator writes independently of how it
    assembles the text. */
module IndexFormat {

  import opened Wrappers
  import opened Paths
  import opened Seqs
  import opened InitFileGenerator

  /** The lines of `s`, split at every line terminator (so a text ending in a
      terminator has a final empty line). */
  function Lines(s: string): (ls: seq<string>)
    ensures |ls| >= 1
    ensures forall i :: 0 <= i < |ls| ==> '\n' !in ls[i]
  {
    if |s| == 0 then [""]
    else if s[0] == '\n' then [""] + Lines(s[1..])
    else
      var rest := Lines(s[1..]);
      [[s[0]] + rest[0]] + rest[1..]
  }

  /** The inverse of `Lines`: the lines joined by terminators. */
  function Unlines(ls: seq<string>): string
    requires |ls| >= 1
  {
    if |ls| == 1 then ls[0] else ls[0] + "\n" + Unlines(ls[1..])
  }

  /** Splitting and joining are inverse: no text is lost or invented. */
  lemma {:induction false} LinesRoundTrip(s: string)
    ensures Unlines(Lines(s)) == s
  {
    if |s| > 0 {
      LinesRoundTrip(s[1..]);
      if s[0] == '\n' {
        UnlinesNewline(Lines(s[1..]));
        assert s == "\n" + s[1..];
      } else {
        UnlinesPrepend(s[0], Lines(s[1..]));
        assert s == [s[0]] + s[1..];
      }
    }
  }

  /** An empty first line contributes only its terminator. */
  lemma UnlinesNewline(ls: seq<string>)
    requires |ls| >= 1
    ensures Unlines([""] + ls) == "\n" + Unlines(ls)
  {
    assert ([""] + ls)[1..] == ls;
  }

  /** A character prepended to the first line is prepended to the text. */
  lemma UnlinesPrepend(c: char, ls: seq<string>)
    requires |ls| >= 1
    ensures Unlines([[c] + ls[0]] + ls[1..]) == [c] + Unlines(ls)
  {
    var joined := [[c] + ls[0]] + ls[1..];
    assert joined[0] == [c] + ls[0];
    if |ls| > 1 {
      var rest := Unlines(ls[1..]);
      assert joined[1..] == ls[1..];
      assert Unlines(joined) == [c] + ls[0] + "\n" + rest;
      assert Unlines(ls) == ls[0] + "\n" + rest;
      Assoc([c], ls[0], "\n");
      Assoc([c], ls[0] + "\n", rest);
    }
  }

  /** A terminated line followed by any text: the line, then the lines of the text. */
  lemma {:induction false} LinesCons(a: string, b: string)
    requires '\n' !in a
    ensures Lines(a + "\n" + b) == [a] + Lines(b)
  {
    if |a| == 0 {
      assert a + "\n" + b == "\n" + b;
      assert ("\n" + b)[1..] == b;
    } else {
      assert (a + "\n" + b)[1..] == a[1..] + "\n" + b;
      LinesCons(a[1..], b);
      assert [a[0]] + a[1..] == a;
    }
  }

  /** The statement lines of `entries`, one per entry. */
  function StatementLines(entries: seq<Entry>): (ls: seq<string>)
    ensures |ls| == |entries|
    ensures forall i :: 0 <= i < |entries| ==> ls[i] == PreloadLine(entries[i])
  {
    seq(|entries|, i requires 0 <= i < |entries| => PreloadLine(entries[i]))
  }

  /** No symbol or path of `entries` spans a line. */
  predicate SingleLine(entries: seq<Entry>)
  {
    forall i :: 0 <= i < |entries| ==> '\n' !in entries[i].symbol && '\n' !in entries[i].path
  }

  /** No symbol of `entries` holds a space (a GDScript identifier never does). */
  predicate SpaceFree(entries: seq<Entry>)
  {
    forall i :: 0 <= i < |entries| ==> ' ' !in entries[i].symbol
  }

  lemma PreloadLineSingle(e: Entry)
    requires '\n' !in e.symbol && '\n' !in e.path
    ensures '\n' !in PreloadLine(e)
  {
  }

  /** Rendered entries read back as their statement lines, whatever follows. */
  lemma {:induction false} LinesOfRender(entries: seq<Entry>, tail: string)
    requires SingleLine(entries)
    ensures Lines(Render(entries) + tail) == StatementLines(entries) + Lines(tail)
  {
    if |entries| > 0 {
      var line := PreloadLine(entries[0]);
      LinesOfRenderStep(entries, tail);
      LinesOfRender(entries[1..], tail);
      StatementLinesCons(entries);
      Assoc([line], StatementLines(entries[1..]), Lines(tail));
    } else {
      assert Render(entries) + tail == tail;
    }
  }

  /** The first rendered entry reads back as its own line. */
  lemma LinesOfRenderStep(entries: seq<Entry>, tail: string)
    requires |entries| > 0 && SingleLine(entries)
    ensures Lines(Render(entries) + tail) == [PreloadLine(entries[0])] + Lines(Render(entries[1..]) + tail)
  {
    var line := PreloadLine(entries[0]);
    PreloadLineSingle(entries[0]);
    RenderCons(entries);
    assert line + "\n" + Render(entries[1..]) + tail == line + "\n" + (Render(entries[1..]) + tail);
    LinesCons(line, Render(entries[1..]) + tail);
  }

  lemma StatementLinesCons(entries: seq<Entry>)
    requires |entries| > 0
    ensures StatementLines(entries) == [PreloadLine(entries[0])] + StatementLines(entries[1..])
  {
  }

  lemma RenderCons(entries: seq<Entry>)
    requires |entries| > 0
    ensures Render(entries) == (PreloadLine(entries[0]) + "\n") + Render(entries[1..])
  {
  }

  /** Index of the first `c` in `s`. */
  function Find(s: string, c: char): (i: nat)
    requires c in s
    ensures i < |s| && s[i] == c && c !in s[..i]
  {
    if s[0] == c then 0 else Find(s[1..], c) + 1
  }

  /** The entry a statement line binds, or None for any other line: the line
      must open with `const `, and the rest must be a binding. */
  function ParseStatement(line: string): (r: Option<Entry>)
  {
    if |line| < |StatementPrefix| || line[..|StatementPrefix|] != StatementPrefix then None
    else ParseBinding(line[|StatementPrefix|..])
  }

  /** The symbol runs to the first space; what follows it must be a target. */
  function ParseBinding(rest: string): (r: Option<Entry>)
  {
    if ' ' !in rest then None
    else
      var i := Find(rest, ' ');
      ParseTarget(rest[..i], rest[i..])
  }

  /** The target opens with ` = preload('` and closes with `')`; the path is
      what lies between them. */
  function ParseTarget(symbol: string, tail: string): (r: Option<Entry>)
  {
    if |tail| >= |StatementMiddle| + |StatementSuffix|
       && tail[..|StatementMiddle|] == StatementMiddle
       && tail[|tail| - |StatementSuffix|..] == StatementSuffix
    then Some(Entry(symbol, tail[|StatementMiddle|..|tail| - |StatementSuffix|]))
    else None
  }

  /** A statement written for a space-free symbol reads back as its entry. */
  lemma ParseStatementRoundTrip(e: Entry)
    requires ' ' !in e.symbol
    ensures ParseStatement(PreloadLine(e)) == Some(e)
  {
    var target := StatementMiddle + e.path + StatementSuffix;
    Regroup(StatementPrefix, e.symbol, StatementMiddle, e.path, StatementSuffix);
    assert PreloadLine(e) == StatementPrefix + (e.symbol + target);
    PrefixStrip(StatementPrefix, e.symbol + target);
    ParseBindingRoundTrip(e.symbol, target, e.path);
  }

  lemma PrefixStrip(p: string, rest: string)
    ensures (p + rest)[..|p|] == p && (p + rest)[|p|..] == rest
  {
  }

  lemma ParseBindingRoundTrip(symbol: string, target: string, path: string)
    requires ' ' !in symbol
    requires target == StatementMiddle + path + StatementSuffix
    ensures ParseBinding(symbol + target) == Some(Entry(symbol, path))
  {
    var rest := symbol + target;
    assert target[0] == ' ';
    FindAfter(symbol, target, ' ');
    PrefixStrip(symbol, target);
    ParseTargetRoundTrip(symbol, path);
  }

  /** The first `c` in `a + b` is `b`'s first character when `a` has none. */
  lemma {:induction false} FindAfter(a: string, b: string, c: char)
    requires c !in a && |b| > 0 && b[0] == c
    ensures c in a + b && Find(a + b, c) == |a|
  {
    assert (a + b)[|a|] == c;
    if |a| > 0 {
      assert (a + b)[1..] == a[1..] + b;
      FindAfter(a[1..], b, c);
    }
  }

  lemma ParseTargetRoundTrip(symbol: string, path: string)
    ensures ParseTarget(symbol, StatementMiddle + path + StatementSuffix) == Some(Entry(symbol, path))
  {
    var tail := StatementMiddle + path + StatementSuffix;
    assert tail == StatementMiddle + (path + StatementSuffix);
    PrefixStrip(StatementMiddle, path + StatementSuffix);
    SuffixStrip(StatementMiddle + path, StatementSuffix);
    assert tail[|StatementMiddle|..|tail| - |StatementSuffix|]
        == (StatementMiddle + path)[|StatementMiddle|..];
  }

  lemma SuffixStrip(a: string, s: string)
    ensures (a + s)[|a|..] == s && (a + s)[..|a|] == a
  {
  }

  /** The parser accepts nothing but statements: whatever it reads back is the
      exact line the generator would write for that entry. */
  lemma ParseStatementExact(line: string)
    requires ParseStatement(line).Some?
    ensures PreloadLine(ParseStatement(line).value) == line
    ensures ' ' !in ParseStatement(line).value.symbol
  {
    var rest := line[|StatementPrefix|..];
    var i := Find(rest, ' ');
    var tail := rest[i..];
    var symbol := rest[..i];
    var path := tail[|StatementMiddle|..|tail| - |StatementSuffix|];
    assert ParseBinding(rest) == ParseTarget(symbol, tail);
    assert ParseStatement(line).value == Entry(symbol, path);
    assert tail == tail[..|StatementMiddle|] + path + tail[|tail| - |StatementSuffix|..];
    var tailParts := StatementMiddle + path + StatementSuffix;
    assert tail == tailParts;
    assert rest == rest[..i] + rest[i..];
    assert rest == symbol + tailParts;
    assert line == line[..|StatementPrefix|] + line[|StatementPrefix|..];
    assert line == StatementPrefix + (symbol + tailParts);
    Regroup(StatementPrefix, symbol, StatementMiddle, path, StatementSuffix);
  }

  /** A statement's five parts, grouped from the right. */
  lemma Regroup(a: string, b: string, c: string, d: string, e: string)
    ensures a + b + c + d + e == a + (b + (c + d + e))
  {
    assert a + b + c + d + e == a + b + c + (d + e);
    assert a + b + c + (d + e) == a + b + (c + (d + e));
    assert a + b + (c + (d + e)) == a + (b + (c + (d + e)));
    assert c + d + e == c + (d + e);
  }

  /** The entries bound by the statement lines among `ls`, in order. */
  function ParseLines(ls: seq<string>): (es: seq<Entry>)
    ensures |es| <= |ls|
  {
    if |ls| == 0 then [] else Found(ParseStatement(ls[0])) + ParseLines(ls[1..])
  }

  /** The entry found on one line, as a sequence of at most one. */
  function Found(r: Option<Entry>): (es: seq<Entry>)
    ensures |es| <= 1
  {
    if r.Some? then [r.value] else []
  }

  /** The entries an index text binds, in order. */
  function ParseIndex(content: string): seq<Entry>
  {
    ParseLines(Lines(content))
  }

  lemma {:induction false} ParseLinesAppend(a: seq<string>, b: seq<string>)
    ensures ParseLines(a + b) == ParseLines(a) + ParseLines(b)
  {
    if |a| > 0 {
      assert (a + b)[1..] == a[1..] + b;
      ParseLinesAppend(a[1..], b);
    } else {
      assert a + b == b;
    }
  }

  lemma {:induction false} ParseStatementLines(entries: seq<Entry>)
    requires SpaceFree(entries)
    ensures ParseLines(StatementLines(entries)) == entries
  {
    if |entries| > 0 {
      ParseStatementRoundTrip(entries[0]);
      assert StatementLines(entries)[1..] == StatementLines(entries[1..]);
      ParseStatementLines(entries[1..]);
    }
  }

  /** Names that fit on one line of an index. */
  predicate LineFree(names: seq<string>)
  {
    forall i :: 0 <= i < |names| ==> '\n' !in names[i]
  }

  /** Names fit for a generated index to be read back: none spans a line or
      holds a space. */
  predicate PlainNames(names: seq<string>)
  {
    LineFree(names) && forall i :: 0 <= i < |names| ==> ' ' !in names[i]
  }

  lemma DirEntryPlain(d: string, stems: seq<string>)
    requires '\n' !in d
    ensures '\n' !in DirEntry(d, stems).symbol && '\n' !in DirEntry(d, stems).path
    ensures ' ' !in d ==> ' ' !in DirEntry(d, stems).symbol
  {
    var p := Join(d, InitFileName);
    assert '\n' !in InitFileName;
    forall c | c in p
      ensures c != '\n'
    {
    }
  }

  lemma DirEntriesSingle(dirs: seq<string>, indexed: set<string>, stems: seq<string>)
    requires LineFree(dirs)
    ensures SingleLine(DirEntries(dirs, indexed, stems))
    ensures PlainNames(dirs) ==> SpaceFree(DirEntries(dirs, indexed, stems))
  {
    var es := DirEntries(dirs, indexed, stems);
    forall i | 0 <= i < |es|
      ensures '\n' !in es[i].symbol && '\n' !in es[i].path
      ensures PlainNames(dirs) ==> ' ' !in es[i].symbol
    {
      assert es[i] in es;
      var d :| d in dirs && d in indexed && es[i] == DirEntry(d, stems);
      var j :| 0 <= j < |dirs| && dirs[j] == d;
      DirEntryPlain(d, stems);
    }
  }

  lemma {:induction false} FileEntriesSingle(files: seq<string>)
    requires LineFree(files)
    ensures SingleLine(FileEntries(files))
    ensures PlainNames(files) ==> SpaceFree(FileEntries(files))
  {
    var es := FileEntries(files);
    forall i | 0 <= i < |es|
      ensures '\n' !in es[i].symbol && '\n' !in es[i].path
      ensures PlainNames(files) ==> ' ' !in es[i].symbol
    {
      assert es[i] in es;
      var f :| f in files && Stem(f) != [] && es[i] == FileEntry(f);
      var j :| 0 <= j < |files| && files[j] == f;
      assert Stem(f) == f[..|Stem(f)|];
    }
  }

  /** Filtering a listing keeps its names on one line, without spaces or
      separators when the listing has none. */
  lemma FilterNames(files: seq<string>, keep: string -> bool)
    requires LineFree(files)
    ensures LineFree(Filter(files, keep))
    ensures PlainNames(files) ==> PlainNames(Filter(files, keep))
    ensures (forall i :: 0 <= i < |files| ==> '/' !in files[i]) ==>
      forall i :: 0 <= i < |Filter(files, keep)| ==> '/' !in Filter(files, keep)[i]
  {
    var r := Filter(files, keep);
    forall i | 0 <= i < |r|
      ensures exists j :: 0 <= j < |files| && files[j] == r[i]
    {
      assert r[i] in r;
    }
  }

  /** The line layout of a generated index: an empty first line; then, when there
      are subdirectories, one statement per linked subdirectory followed by an
      empty line (present even when no subdirectory is linked); then one
      statement per file entry; then the empty remainder after the final
      terminator. */
  lemma GeneratedLayout(dirs: seq<string>, indexed: set<string>, files: seq<string>)
    requires LineFree(dirs) && LineFree(files)
    requires exists f :: f in files && Qualifies(f)
    ensures var q := QualifyingFiles(files);
      |dirs| > 0 ==>
        Lines(GenerateContent(dirs, indexed, files).value)
          == [""] + StatementLines(DirEntries(dirs, indexed, Stems(q))) + [""] + StatementLines(FileEntries(q)) + [""]
    ensures var q := QualifyingFiles(files);
      |dirs| == 0 ==>
        Lines(GenerateContent(dirs, indexed, files).value) == [""] + StatementLines(FileEntries(q)) + [""]
  {
    var q := QualifyingFiles(files);
    var de := DirEntries(dirs, indexed, Stems(q));
    var fe := FileEntries(q);
    FilterNames(files, Qualifies);
    DirEntriesSingle(dirs, indexed, Stems(q));
    FileEntriesSingle(q);
    if |dirs| > 0 {
      assert GenerateContent(dirs, indexed, files).value == "\n" + (Render(de) + "\n") + Render(fe);
      LayoutWithDirs(de, fe);
    } else {
      assert GenerateContent(dirs, indexed, files).value == "\n" + "" + Render(fe);
      LayoutWithoutDirs(fe);
    }
  }

  lemma LayoutWithoutDirs(fe: seq<Entry>)
    requires SingleLine(fe)
    ensures Lines("\n" + "" + Render(fe)) == [""] + StatementLines(fe) + [""]
  {
    FileBlockLines(fe);
    assert "\n" + "" + Render(fe) == "\n" + Render(fe);
  }

  lemma LayoutWithDirs(de: seq<Entry>, fe: seq<Entry>)
    requires SingleLine(de) && SingleLine(fe)
    ensures Lines("\n" + (Render(de) + "\n") + Render(fe))
      == [""] + StatementLines(de) + [""] + StatementLines(fe) + [""]
  {
    var rd := Render(de);
    var tail := "\n" + Render(fe);
    Assoc(rd, "\n", Render(fe));
    Assoc("\n", rd + "\n", Render(fe));
    LinesNewline(rd + tail);
    LinesOfRender(de, tail);
    FileBlockLines(fe);
    var dl, fl := StatementLines(de), StatementLines(fe);
    Assoc([""], dl, [""] + (fl + [""]));
    Assoc([""] + dl, [""], fl + [""]);
    Assoc([""] + dl + [""], fl, [""]);
  }

  /** A leading terminator contributes one empty line. */
  lemma LinesNewline(b: string)
    ensures Lines("\n" + b) == [""] + Lines(b)
  {
    assert ("\n" + b)[0] == '\n' && ("\n" + b)[1..] == b;
  }

  /** A blank line followed by the file block reads as that blank line, the file
      statements, and the empty remainder. */
  lemma FileBlockLines(fe: seq<Entry>)
    requires SingleLine(fe)
    ensures Lines("\n" + Render(fe)) == [""] + (StatementLines(fe) + [""])
  {
    LinesNewline(Render(fe));
    LinesOfRenderAlone(fe);
  }

  lemma LinesOfRenderAlone(fe: seq<Entry>)
    requires SingleLine(fe)
    ensures Lines(Render(fe)) == StatementLines(fe) + [""]
  {
    LinesOfRender(fe, "");
    assert Render(fe) + "" == Render(fe);
  }

  /** Reading a generated index back yields exactly its entries: the linked
      subdirectories, then the preloaded files, each with the symbol and path
      the generator chose, and nothing else. */
  lemma GeneratedEntries(dirs: seq<string>, indexed: set<string>, files: seq<string>)
    requires PlainNames(dirs) && PlainNames(files)
    requires exists f :: f in files && Qualifies(f)
    ensures var q := QualifyingFiles(files);
      ParseIndex(GenerateContent(dirs, indexed, files).value)
        == DirEntries(dirs, indexed, Stems(q)) + FileEntries(q)
  {
    var q := QualifyingFiles(files);
    var de := DirEntries(dirs, indexed, Stems(q));
    var fe := FileEntries(q);
    FilterNames(files, Qualifies);
    DirEntriesSingle(dirs, indexed, Stems(q));
    FileEntriesSingle(q);
    GeneratedLayout(dirs, indexed, files);
    if |dirs| > 0 {
      ParseLayoutWithDirs(de, fe);
    } else {
      assert de == [];
      ParseLayoutWithoutDirs(fe);
    }
  }

  lemma ParseLayoutWithDirs(de: seq<Entry>, fe: seq<Entry>)
    requires SpaceFree(de) && SpaceFree(fe)
    ensures ParseLines([""] + StatementLines(de) + [""] + StatementLines(fe) + [""]) == de + fe
  {
    var dl := StatementLines(de);
    var fl := StatementLines(fe);
    ParseStatementLines(de);
    ParseStatementLines(fe);
    ParseBlankLine();
    ParseFiveParts([""], dl, [""], fl, [""]);
    EmptyAround(de, fe);
  }

  lemma ParseLayoutWithoutDirs(fe: seq<Entry>)
    requires SpaceFree(fe)
    ensures ParseLines([""] + StatementLines(fe) + [""]) == fe
  {
    ParseStatementLines(fe);
    ParseBlankLine();
    ParseLinesAppend([""], StatementLines(fe));
    ParseLinesAppend([""] + StatementLines(fe), [""]);
  }

  /** An empty line binds nothing. */
  lemma ParseBlankLine()
    ensures ParseLines([""]) == []
  {
    assert ParseStatement("") == None;
  }

  lemma ParseFiveParts(a: seq<string>, b: seq<string>, c: seq<string>, d: seq<string>, e: seq<string>)
    ensures ParseLines(a + b + c + d + e)
      == ParseLines(a) + ParseLines(b) + ParseLines(c) + ParseLines(d) + ParseLines(e)
  {
    ParseLinesAppend(a, b);
    ParseLinesAppend(a + b, c);
    ParseLinesAppend(a + b + c, d);
    ParseLinesAppend(a + b + c + d, e);
  }

  /** Names that are single, non-empty path components. */
  predicate Components(names: seq<string>)
  {
    forall i :: 0 <= i < |names| ==> names[i] != [] && '/' !in names[i]
  }

  /** Two single-component names link distinct index paths. */
  lemma DirEntryInjective(a: string, b: string, stems: seq<string>)
    requires a != [] && '/' !in a && b != [] && '/' !in b
    requires DirEntry(a, stems) == DirEntry(b, stems)
    ensures a == b
  {
    JoinComponent(a, InitFileName);
    JoinComponent(b, InitFileName);
    var pa := a + "/" + InitFileName;
    var pb := b + "/" + InitFileName;
    assert |a| == |b|;
    assert a == pa[..|a|];
    assert b == pb[..|b|];
  }

  /** A generated index links subdirectory `n` exactly when `n`'s own index
      exists, under the symbol the collision rule gives it and the path of that
      index. No file line can be read as such a link: a file name holds no
      separator, while the path of a link does. */
  lemma GeneratedLinksDir(dirs: seq<string>, indexed: set<string>, files: seq<string>, n: string)
    requires PlainNames(dirs) && Components(dirs)
    requires LineFree(files) && forall i :: 0 <= i < |files| ==> '/' !in files[i]
    requires n in dirs
    requires exists f :: f in files && Qualifies(f)
    ensures var stems := Stems(QualifyingFiles(files));
      var linked := DirEntry(n, stems) in ParseIndex(GenerateContent(dirs, indexed, files).value);
      linked <==> n in indexed
  {
    var q := QualifyingFiles(files);
    var stems := Stems(q);
    var de := DirEntries(dirs, indexed, stems);
    var parsedFiles := ParseLines(StatementLines(FileEntries(q)));
    ParsedWithDirs(dirs, indexed, files);
    FilterNames(files, Qualifies);
    ParsedFileBlockSlashFree(q);
    var j0 :| 0 <= j0 < |dirs| && dirs[j0] == n;
    JoinComponent(n, InitFileName);
    assert DirEntry(n, stems).path[|n|] == '/';
    assert DirEntry(n, stems) !in parsedFiles;
    if DirEntry(n, stems) in de {
      var m :| m in dirs && m in indexed && DirEntry(n, stems) == DirEntry(m, stems);
      var j :| 0 <= j < |dirs| && dirs[j] == m;
      DirEntryInjective(n, m, stems);
    }
  }

  /** With space-free subdirectory names, a generated index reads back as the
      directory entries followed by whatever its file lines bind. */
  lemma ParsedWithDirs(dirs: seq<string>, indexed: set<string>, files: seq<string>)
    requires PlainNames(dirs) && LineFree(files) && |dirs| > 0
    requires exists f :: f in files && Qualifies(f)
    ensures var q := QualifyingFiles(files);
      ParseIndex(GenerateContent(dirs, indexed, files).value)
        == DirEntries(dirs, indexed, Stems(q)) + ParseLines(StatementLines(FileEntries(q)))
  {
    var q := QualifyingFiles(files);
    var de := DirEntries(dirs, indexed, Stems(q));
    var dl := StatementLines(de);
    var fl := StatementLines(FileEntries(q));
    GeneratedLayout(dirs, indexed, files);
    DirEntriesSingle(dirs, indexed, Stems(q));
    ParseStatementLines(de);
    ParseBlankLine();
    ParseFiveParts([""], dl, [""], fl, [""]);
    EmptyAround(de, ParseLines(fl));
  }

  /** Every entry read from the file block has a separator-free path when the
      file names have none. */
  lemma ParsedFileBlockSlashFree(q: seq<string>)
    requires forall i :: 0 <= i < |q| ==> '/' !in q[i]
    ensures forall e :: e in ParseLines(StatementLines(FileEntries(q))) ==> '/' !in e.path
  {
    var fe := FileEntries(q);
    var fl := StatementLines(fe);
    forall e | e in ParseLines(fl)
      ensures '/' !in e.path
    {
      var i := ParsedFrom(fl, e);
      ParseStatementExact(fl[i]);
      assert fe[i] in fe;
      var f :| f in q && Stem(f) != [] && fe[i] == FileEntry(f);
      var j :| 0 <= j < |q| && q[j] == f;
      assert Stem(f) == f[..|Stem(f)|];
      SlashFreeLine(fe[i]);
      PathInLine(e);
    }
  }

  /** The line an entry read from `ls` came from. */
  lemma {:induction false} ParsedFrom(ls: seq<string>, e: Entry) returns (i: nat)
    requires e in ParseLines(ls)
    ensures i < |ls| && ParseStatement(ls[i]) == Some(e)
  {
    if ParseStatement(ls[0]) == Some(e) {
      i := 0;
    } else {
      var j := ParsedFrom(ls[1..], e);
      i := j + 1;
    }
  }

  /** A statement holds a separator only where its symbol or path does. */
  lemma SlashFreeLine(e: Entry)
    requires '/' !in e.symbol && '/' !in e.path
    ensures '/' !in PreloadLine(e)
  {
    assert '/' !in StatementPrefix && '/' !in StatementMiddle && '/' !in StatementSuffix;
  }

  /** Every character of a statement's path is a character of the statement. */
  lemma PathInLine(e: Entry)
    ensures forall c :: c in e.path ==> c in PreloadLine(e)
  {
    var head := StatementPrefix + e.symbol + StatementMiddle;
    assert PreloadLine(e) == head + e.path + StatementSuffix;
    forall c | c in e.path
      ensures c in PreloadLine(e)
    {
      var k :| 0 <= k < |e.path| && e.path[k] == c;
      assert PreloadLine(e)[|head| + k] == c;
    }
  }
}
