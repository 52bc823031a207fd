/** The walker: a recursive, leaf-first visit of a directory tree that writes an
    index into each directory, with the `src` redirection and the ignore list.
    The file system is an immutable tree, and the walk is a function from the
    tree before to the tree after. */
module Parser {

  import opened Wrappers
  import opened Seqs
  import opened Paths
  import opened InitFileGenerator
  import opened IndexFormat

  /** A subdirectory of this name captures the whole visit of its parent. */
  const SourceDirectory: string := "src"

  /** The directory names the walker does not descend into (none by default). */
  const IgnoreDirectories: seq<string> := []

  /** The file names never passed to the generator: the index itself. */
  const IgnoreFiles: seq<string> := [InitFileName]

  /** A directory: its name, its subdirectories and its file names in listing
      order, and the text of its index file when it has one. The file listing
      is what the file system reports, so it names the index file too. */
  datatype Dir = Dir(name: string, subdirs: seq<Dir>, files: seq<string>, index: Option<string>)

  /** The file listing agrees with the index field, here and below. */
  predicate WellFormed(d: Dir)
  {
    && (InitFileName in d.files <==> d.index.Some?)
    && forall k :: 0 <= k < |d.subdirs| ==> WellFormed(d.subdirs[k])
  }

  /** The names of `ds`, in order. */
  function Names(ds: seq<Dir>): (names: seq<string>)
    ensures |names| == |ds|
    ensures forall i :: 0 <= i < |ds| ==> names[i] == ds[i].name
  {
    seq(|ds|, i requires 0 <= i < |ds| => ds[i].name)
  }

  /** The names of the directories of `ds` that hold an index file: where
      `os.path.isfile` finds `<name>/__init__.gd`. */
  function IndexedNames(ds: seq<Dir>): (names: set<string>)
    ensures forall n :: n in names <==> exists i :: 0 <= i < |ds| && ds[i].name == n && ds[i].index.Some?
  {
    set i | 0 <= i < |ds| && ds[i].index.Some? :: ds[i].name
  }

  /** A file the generator may see: not the index itself. */
  predicate NotIgnoredFile(f: string)
  {
    f !in IgnoreFiles
  }

  /** The files of a listing the generator receives, in order. */
  function GeneratorFiles(files: seq<string>): (g: seq<string>)
    ensures forall f :: f in g <==> f in files && f != InitFileName
    ensures InitFileName !in files ==> g == files
  {
    assert InitFileName !in files ==> Filter(files, NotIgnoredFile) == files by {
      if InitFileName !in files {
        assert forall i :: 0 <= i < |files| ==> NotIgnoredFile(files[i]);
        FilterAllKept(files, NotIgnoredFile);
      }
    }
    Filter(files, NotIgnoredFile)
  }

  /** The position of the first `x` in `names`. */
  function FirstIndexOf(names: seq<string>, x: string): (i: nat)
    requires x in names
    ensures i < |names| && names[i] == x
    ensures forall j :: 0 <= j < i ==> names[j] != x
  {
    if names[0] == x then 0 else FirstIndexOf(names[1..], x) + 1
  }

  /** The listing once the index state is `index`: the index file is listed
      when one was written, and nothing else changes. */
  function ListingWith(files: seq<string>, index: Option<string>): (listing: seq<string>)
    ensures GeneratorFiles(listing) == GeneratorFiles(files)
    ensures index.Some? ==> InitFileName in listing
    ensures InitFileName in files ==> listing == files
  {
    if index.Some? && InitFileName !in files then
      FilterAppend(files, [InitFileName], NotIgnoredFile);
      files + [InitFileName]
    else files
  }

  /** Some file of the listing, other than the index, qualifies. */
  predicate HasQualifyingFile(files: seq<string>)
  {
    exists f :: f in files && f != InitFileName && Qualifies(f)
  }

  /** `parse_directory`. When a subdirectory is named `src`, only that
      subdirectory is walked and nothing else at this level changes. Otherwise
      every subdirectory not in `ignored` is walked first, and then the index of
      this directory is generated from the full subdirectory list, the index
      state the walked subdirectories are left in, and the listing without the
      index file. The index is only ever replaced, never removed: it changes
      exactly when no `src` redirection applies and some file qualifies. */
  function Walk(d: Dir, ignored: seq<string>): (w: Dir)
    ensures w.name == d.name
    ensures Names(w.subdirs) == Names(d.subdirs)
    ensures GeneratorFiles(w.files) == GeneratorFiles(d.files)
    ensures w.index.Some? <==> d.index.Some? || (SourceDirectory !in Names(d.subdirs) && HasQualifyingFile(d.files))
    ensures SourceDirectory in Names(d.subdirs) || !HasQualifyingFile(d.files) ==> w.index == d.index && w.files == d.files
    decreases d, 1
  {
    var names := Names(d.subdirs);
    if SourceDirectory in names then
      var i := FirstIndexOf(names, SourceDirectory);
      d.(subdirs := d.subdirs[i := Walk(d.subdirs[i], ignored)])
    else
      var kids := WalkSubdirs(d, ignored);
      var files := GeneratorFiles(d.files);
      assert HasQualifyingFile(d.files) <==> exists f :: f in files && Qualifies(f);
      var index := GenerateInitFile(d.index, names, IndexedNames(kids), files);
      var listing := if HasQualifyingFile(d.files) then ListingWith(d.files, index) else d.files;
      Dir(d.name, kids, listing, index)
  }

  /** The subdirectories of `d` after a walk without redirection, in order. */
  function WalkSubdirs(d: Dir, ignored: seq<string>): (kids: seq<Dir>)
    ensures |kids| == |d.subdirs|
    ensures forall k :: 0 <= k < |d.subdirs| ==> kids[k] == WalkChild(d.subdirs[k], ignored)
    ensures Names(kids) == Names(d.subdirs)
    decreases d, 0
  {
    seq(|d.subdirs|, k requires 0 <= k < |d.subdirs| => WalkChild(d.subdirs[k], ignored))
  }

  /** One subdirectory of a walk without redirection: skipped when ignored. */
  function WalkChild(c: Dir, ignored: seq<string>): (w: Dir)
    ensures w.name == c.name
    ensures c.name in ignored ==> w == c
    decreases c, 2
  {
    if c.name in ignored then c else Walk(c, ignored)
  }

  /** The script's own ignore list is empty, so without redirection it walks
      every subdirectory. */
  lemma EveryChildWalked(d: Dir)
    requires SourceDirectory !in Names(d.subdirs)
    ensures var w := Walk(d, IgnoreDirectories);
      |w.subdirs| == |d.subdirs|
      && forall k :: 0 <= k < |d.subdirs| ==> w.subdirs[k] == Walk(d.subdirs[k], IgnoreDirectories)
  {
    WalkLeafFirst(d, IgnoreDirectories);
  }

  /** With a `src` subdirectory, only it is walked: the index and listing of this
      directory and every sibling of `src` are left exactly as they were. */
  lemma WalkRedirects(d: Dir, ignored: seq<string>)
    requires SourceDirectory in Names(d.subdirs)
    ensures var w := Walk(d, ignored); var i := FirstIndexOf(Names(d.subdirs), SourceDirectory);
      && w.index == d.index
      && w.files == d.files
      && |w.subdirs| == |d.subdirs|
      && w.subdirs[i] == Walk(d.subdirs[i], ignored)
      && forall k :: 0 <= k < |d.subdirs| && k != i ==> w.subdirs[k] == d.subdirs[k]
  {
  }

  /** Leaf-first: without redirection, every subdirectory not ignored is walked
      and every ignored one is left untouched, and the index of this directory is
      the text generated from the state the walked subdirectories are left in. */
  lemma WalkLeafFirst(d: Dir, ignored: seq<string>)
    requires SourceDirectory !in Names(d.subdirs)
    ensures var w := Walk(d, ignored);
      && |w.subdirs| == |d.subdirs|
      && (forall k :: 0 <= k < |d.subdirs| && d.subdirs[k].name in ignored ==> w.subdirs[k] == d.subdirs[k])
      && (forall k :: 0 <= k < |d.subdirs| && d.subdirs[k].name !in ignored ==> w.subdirs[k] == Walk(d.subdirs[k], ignored))
      && (HasQualifyingFile(d.files) ==>
            w.index == GenerateContent(Names(d.subdirs), IndexedNames(w.subdirs), GeneratorFiles(d.files)))
  {
    WalkedChildren(d, ignored);
    if HasQualifyingFile(d.files) {
      WalkedIndex(d, ignored);
    }
  }

  lemma WalkedChildren(d: Dir, ignored: seq<string>)
    requires SourceDirectory !in Names(d.subdirs)
    ensures Walk(d, ignored).subdirs == WalkSubdirs(d, ignored)
  {
  }

  lemma WalkedIndex(d: Dir, ignored: seq<string>)
    requires SourceDirectory !in Names(d.subdirs) && HasQualifyingFile(d.files)
    ensures Walk(d, ignored).index
      == GenerateContent(Names(d.subdirs), IndexedNames(WalkSubdirs(d, ignored)), GeneratorFiles(d.files))
  {
    QualifyingViaGenerator(d.files);
  }

  /** The names of a directory as a POSIX listing reports them, and fit for an
      index: subdirectory names distinct and non-empty, no name holding a
      separator or a line terminator, and no subdirectory name holding a space. */
  predicate ListingNames(d: Dir)
  {
    && (forall i, j :: 0 <= i < j < |d.subdirs| ==> d.subdirs[i].name != d.subdirs[j].name)
    && Components(Names(d.subdirs))
    && (forall i :: 0 <= i < |d.files| ==> '/' !in d.files[i])
    && PlainNames(Names(d.subdirs))
    && LineFree(d.files)
  }

  /** Leaf-first, as the parent's index reads: the parent links subdirectory `k`
      exactly when that subdirectory holds an index after its own walk (one it
      was given or one the walk wrote), and under the symbol and path the
      generator derives from its name. */
  lemma WalkParentSeesChild(d: Dir, ignored: seq<string>, k: nat)
    requires SourceDirectory !in Names(d.subdirs) && HasQualifyingFile(d.files)
    requires ListingNames(d)
    requires k < |d.subdirs|
    ensures Walk(d, ignored).index.Some?
    ensures var n := d.subdirs[k].name;
      var stems := Stems(QualifyingFiles(GeneratorFiles(d.files)));
      var linked := DirEntry(n, stems) in ParseIndex(Walk(d, ignored).index.value);
      linked <==> WalkChild(d.subdirs[k], ignored).index.Some?
  {
    var w := Walk(d, ignored);
    var names := Names(d.subdirs);
    var n := d.subdirs[k].name;
    WalkLeafFirst(d, ignored);
    FilterNames(d.files, NotIgnoredFile);
    GeneratedLinksDir(names, IndexedNames(w.subdirs), GeneratorFiles(d.files), n);
    assert w.subdirs[k] == WalkChild(d.subdirs[k], ignored);
    if n in IndexedNames(w.subdirs) {
      var i :| 0 <= i < |w.subdirs| && w.subdirs[i].name == n && w.subdirs[i].index.Some?;
      assert names[i] == n;
      assert i == k;
    }
  }

  /** Walking a tree a second time changes nothing: the run is idempotent. */
  lemma {:induction false} WalkIdempotent(d: Dir, ignored: seq<string>)
    ensures Walk(Walk(d, ignored), ignored) == Walk(d, ignored)
    decreases d
  {
    var w := Walk(d, ignored);
    var names := Names(d.subdirs);
    if SourceDirectory in names {
      var i := FirstIndexOf(names, SourceDirectory);
      WalkRedirects(d, ignored);
      WalkIdempotent(d.subdirs[i], ignored);
      WalkRedirects(w, ignored);
      assert Walk(w, ignored).subdirs == w.subdirs;
    } else {
      forall k | 0 <= k < |w.subdirs|
        ensures WalkChild(w.subdirs[k], ignored) == w.subdirs[k]
      {
        WalkLeafFirst(d, ignored);
        if d.subdirs[k].name !in ignored {
          WalkIdempotent(d.subdirs[k], ignored);
        }
      }
      WalkLeafFirst(d, ignored);
      QualifyingViaGenerator(d.files);
      QualifyingViaGenerator(w.files);
      WalkFixed(w, ignored);
    }
  }

  /** Whether a listing has a qualifying file depends only on what the generator sees of it. */
  lemma QualifyingViaGenerator(files: seq<string>)
    ensures HasQualifyingFile(files) <==> exists f :: f in GeneratorFiles(files) && Qualifies(f)
  {
  }

  /** A directory whose subdirectories are already walked and whose index already
      holds the text the generator would write is left unchanged by a walk. */
  lemma WalkFixed(w: Dir, ignored: seq<string>)
    requires SourceDirectory !in Names(w.subdirs)
    requires forall k :: 0 <= k < |w.subdirs| ==> WalkChild(w.subdirs[k], ignored) == w.subdirs[k]
    requires HasQualifyingFile(w.files) ==>
      && w.index == GenerateContent(Names(w.subdirs), IndexedNames(w.subdirs), GeneratorFiles(w.files))
      && InitFileName in w.files
    ensures Walk(w, ignored) == w
  {
    WalkLeafFirst(w, ignored);
    assert Walk(w, ignored).subdirs == w.subdirs;
  }

  /** The walk keeps the listing and the index fields in agreement throughout the tree. */
  lemma {:induction false} WalkPreservesWellFormed(d: Dir, ignored: seq<string>)
    requires WellFormed(d)
    ensures WellFormed(Walk(d, ignored))
    decreases d
  {
    var w := Walk(d, ignored);
    var names := Names(d.subdirs);
    if SourceDirectory in names {
      var i := FirstIndexOf(names, SourceDirectory);
      WalkPreservesWellFormed(d.subdirs[i], ignored);
      assert forall k :: 0 <= k < |w.subdirs| ==> w.subdirs[k] == d.subdirs[k] || k == i;
    } else {
      WalkLeafFirst(d, ignored);
      forall k | 0 <= k < |w.subdirs|
        ensures WellFormed(w.subdirs[k])
      {
        if d.subdirs[k].name !in ignored {
          WalkPreservesWellFormed(d.subdirs[k], ignored);
        }
      }
    }
  }

  /** `a` is `b` up to index files: same names, same listings apart from the
      index file, same shape, all the way down. */
  predicate SameTree(a: Dir, b: Dir)
  {
    && a.name == b.name
    && GeneratorFiles(a.files) == GeneratorFiles(b.files)
    && |a.subdirs| == |b.subdirs|
    && forall k :: 0 <= k < |a.subdirs| ==> SameTree(a.subdirs[k], b.subdirs[k])
  }

  /** Nothing but index files changes anywhere in the tree. */
  lemma {:induction false} WalkOnlyWritesIndexes(d: Dir, ignored: seq<string>)
    ensures SameTree(Walk(d, ignored), d)
    decreases d
  {
    var w := Walk(d, ignored);
    var names := Names(d.subdirs);
    if SourceDirectory in names {
      var i := FirstIndexOf(names, SourceDirectory);
      WalkOnlyWritesIndexes(d.subdirs[i], ignored);
      forall k | 0 <= k < |w.subdirs|
        ensures SameTree(w.subdirs[k], d.subdirs[k])
      {
        if k != i {
          SameTreeReflexive(d.subdirs[k]);
        }
      }
    } else {
      WalkLeafFirst(d, ignored);
      forall k | 0 <= k < |w.subdirs|
        ensures SameTree(w.subdirs[k], d.subdirs[k])
      {
        if d.subdirs[k].name !in ignored {
          WalkOnlyWritesIndexes(d.subdirs[k], ignored);
        } else {
          SameTreeReflexive(d.subdirs[k]);
        }
      }
    }
  }

  lemma {:induction false} SameTreeReflexive(d: Dir)
    ensures SameTree(d, d)
    decreases d
  {
    forall k | 0 <= k < |d.subdirs|
      ensures SameTree(d.subdirs[k], d.subdirs[k])
    {
      SameTreeReflexive(d.subdirs[k]);
    }
  }
}
