/** Concrete directories and the index they receive: the behaviours the
    generator and the walker are documented to have, on small inputs. */
module Scenarios {

  import opened Wrappers
  import opened Paths
  import opened Seqs
  import opened InitFileGenerator
  import opened Parser

  lemma UtilQualifies()
    ensures QualifyingFiles(["util.gd"]) == ["util.gd"]
    ensures Stem("util.gd") == "util"
  {
    assert "util.gd"[4..] == ".gd";
    assert Qualifies("util.gd") by { assert EndsWith("util.gd", Extensions[0]); }
    assert ["util.gd"][1..] == [];
    StemOfExtension("util", ".gd");
    assert "util" + ".gd" == "util.gd";
    assert "util"[0] != '.';
  }

  lemma UtilDirBlock()
    ensures DirEntries(["util"], {"util"}, ["util"]) == [Entry("utilD", "util/__init__.gd")]
  {
    assert DirSymbol("util", ["util"]) == "utilD";
    JoinComponent("util", InitFileName);
    assert Join("util", InitFileName) == "util/__init__.gd";
    assert ["util"][1..] == [];
  }

  lemma RenderOne(e: Entry)
    ensures Render([e]) == PreloadStatement(e.symbol, e.path)
  {
    assert [e][1..] == [];
  }

  lemma UtilFileBlock()
    ensures FileEntries(QualifyingFiles(["util.gd"])) == [Entry("util", "util.gd")]
    ensures Stems(QualifyingFiles(["util.gd"])) == ["util"]
  {
    UtilQualifies();
    assert ["util.gd"][1..] == [];
  }

  lemma UtilShape()
    ensures GenerateContent(["util"], {"util"}, ["util.gd"])
      == Some("\n" + (Render([Entry("utilD", "util/__init__.gd")]) + "\n") + Render([Entry("util", "util.gd")]))
  {
    UtilFileBlock();
    UtilDirBlock();
  }

  /** A file `util.gd` beside a subdirectory `util` that holds an index: the
      subdirectory is linked as `utilD`, the file keeps `util`, and the two
      blocks are separated by a blank line after the opening one. */
  lemma CollisionExample()
    ensures GenerateContent(["util"], {"util"}, ["util.gd"])
      == Some("\n" + PreloadStatement("utilD", "util/__init__.gd") + "\n" + PreloadStatement("util", "util.gd"))
  {
    UtilShape();
    RenderOne(Entry("utilD", "util/__init__.gd"));
    RenderOne(Entry("util", "util.gd"));
    var dirLine := PreloadStatement("utilD", "util/__init__.gd");
    var fileLine := PreloadStatement("util", "util.gd");
    Assoc("\n", dirLine, "\n");
  }

  lemma LeafQualifies()
    ensures HasQualifyingFile(["a.gd"])
  {
    assert "a.gd"[1..] == ".gd";
    assert EndsWith("a.gd", Extensions[0]);
    assert "a.gd" in ["a.gd"];
  }

  /** A directory whose only qualifying file lies one level down gets no index
      of its own, while the subdirectory holding the file does. */
  lemma DescendantOnlyExample()
    ensures var leaf := Dir("leaf", [], ["a.gd"], None);
      var sub := Dir("sub", [leaf], [], None);
      && Walk(sub, IgnoreDirectories).index == None
      && Walk(sub, IgnoreDirectories).subdirs[0].index.Some?
  {
    var leaf := Dir("leaf", [], ["a.gd"], None);
    var sub := Dir("sub", [leaf], [], None);
    LeafQualifies();
    assert SourceDirectory != "leaf";
    assert Names(sub.subdirs) == ["leaf"];
    WalkLeafFirst(sub, IgnoreDirectories);
  }

  /** A module root holding `src`, a sibling `docs` and its own script: only
      `src` is walked; the root gets no index and `docs` is not visited. */
  lemma ModuleRootExample()
    ensures var src := Dir("src", [], ["a.gd"], None);
      var docs := Dir("docs", [], ["b.gd"], None);
      var root := Dir("mod", [docs, src], ["c.gd"], None);
      var w := Walk(root, IgnoreDirectories);
      && w.index == None
      && w.subdirs[0] == docs
      && w.subdirs[1].index.Some?
  {
    var src := Dir("src", [], ["a.gd"], None);
    var docs := Dir("docs", [], ["b.gd"], None);
    var root := Dir("mod", [docs, src], ["c.gd"], None);
    assert Names(root.subdirs) == ["docs", "src"];
    assert FirstIndexOf(Names(root.subdirs), SourceDirectory) == 1;
    WalkRedirects(root, IgnoreDirectories);
    LeafQualifies();
    assert Names(src.subdirs) == [];
  }
}
