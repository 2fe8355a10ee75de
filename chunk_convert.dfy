/** `Chunk.convert_files_to_txt`: every file under the source directory that
    is not a `.jpg` is decoded as UTF-8 and written under the destination
    directory at the same relative path, with its last suffix replaced by
    `.txt`. A file that fails to decode, or whose write fails, is skipped and
    the walk goes on. */
module ChunkConvert {
  import opened Wrappers
  import opened PyStr
  import opened PyPath

  /** A path, as its sequence of components. */
  type Path = seq<string>

  /** One item of `src_path.rglob("*")`, with the outcome of the two
      operations on it that can fail: `read_text(encoding="utf-8")` (None
      when it raises UnicodeDecodeError) and `write_text` (false when it
      raises IOError). */
  datatype Entry = Entry(dir: Path, name: FileName, isFile: bool,
                         decoded: Option<string>, writeOk: bool)

  /** The destination side of the filesystem: the directories that exist and
      the text of every file. */
  datatype Tree = Tree(dirs: set<Path>, files: map<Path, string>)

  /** The entry is a file and its last suffix, lower-cased, is not `.jpg`:
      the converter creates its parent directory and tries to read it. */
  predicate Visited(e: Entry) {
    e.isFile && !IsJpg(e.name)
  }

  /** The entry ends up written: visited, decoded and written without error. */
  predicate Written(e: Entry) {
    Visited(e) && e.decoded.Some? && e.writeOk
  }

  /** `dst_path / relative_path.with_suffix(".txt")`. */
  function OutPath(dst: Path, e: Entry): (p: Path)
    ensures |p| == |dst| + |e.dir| + 1 && p[..|dst| + |e.dir|] == dst + e.dir
  {
    dst + e.dir + [WithSuffix(e.name, TxtSuffix)]
  }

  /** What `mkdir(parents=True, exist_ok=True)` on `p` leaves existing: `p`
      and every ancestor of it. */
  function Ancestors(p: Path): set<Path> {
    set n | 1 <= n <= |p| :: p[..n]
  }

  /** The last component of the output path is the entry's name with its
      suffix replaced by `.txt`: it reads back as `.txt` and keeps the
      name's stem, so `.txt` is appended when the name has no suffix. */
  lemma OutPathName(dst: Path, e: Entry)
    ensures var p := OutPath(dst, e);
            Suffix(p[|p| - 1]) == TxtSuffix && Stem(p[|p| - 1]) == Stem(e.name)
  {
    WithSuffixRoundTrip(e.name, TxtSuffix);
  }

  /** The directories `mkdir` creates are exactly the non-empty prefixes of
      `p`: `p` itself, its parent, and so on up to the first component. */
  lemma AncestorsArePrefixes(p: Path, q: Path)
    ensures q in Ancestors(p) <==> 1 <= |q| <= |p| && q == p[..|q|]
  {
    if 1 <= |q| <= |p| && q == p[..|q|] {
      assert p[..|q|] in Ancestors(p);
    }
  }

  /** The tree after `mkdir(parents=True, exist_ok=True)` on `p`. */
  function MkDirs(t: Tree, p: Path): (r: Tree)
    ensures r.files == t.files && r.dirs == t.dirs + Ancestors(p)
  {
    t.(dirs := t.dirs + Ancestors(p))
  }

  /** One iteration of the walk over entry `e`. */
  function Step(dst: Path, t: Tree, e: Entry): Tree {
    if !Visited(e) then t
    else
      var t' := MkDirs(t, dst + e.dir);
      match e.decoded
      case None => t'
      case Some(data) =>
        if e.writeOk then t'.(files := t'.files[OutPath(dst, e) := data]) else t'
  }

  /** The walk over `es`, in order, starting from `t`. */
  function Walk(dst: Path, t: Tree, es: seq<Entry>): Tree
    decreases |es|
  {
    if es == [] then t
    else Step(dst, Walk(dst, t, es[..|es| - 1]), es[|es| - 1])
  }

  /** The whole conversion: the destination directory is created, then the
      walk runs. */
  function Converted(dst: Path, t: Tree, es: seq<Entry>): Tree {
    Walk(dst, MkDirs(t, dst), es)
  }

  /** The converter itself: a loop over the listing that updates the tree,
      skipping non-files and `.jpg` files, creating the parent directory of
      every other file, skipping it when it does not decode and carrying on
      when its write fails. */
  method ConvertFilesToTxt(es: seq<Entry>, dst: Path, tree: Tree) returns (out: Tree)
    ensures out == Converted(dst, tree, es)
  {
    out := tree.(dirs := tree.dirs + Ancestors(dst));
    for i := 0 to |es|
      invariant out == Walk(dst, MkDirs(tree, dst), es[..i])
    {
      assert es[..i + 1][..i] == es[..i];
      var e := es[i];
      if e.isFile && Lower(Suffix(e.name)) != ".jpg" {
        var newPath := dst + e.dir + [WithSuffix(e.name, ".txt")];
        out := out.(dirs := out.dirs + Ancestors(newPath[..|newPath| - 1]));
        if e.decoded.None? {
          continue;
        }
        var data := e.decoded.value;
        if e.writeOk {
          out := out.(files := out.files[newPath := data]);
        }
      }
    }
    assert es[..|es|] == es;
  }

  // ---------------------------------------------------------------------
  // What the walk leaves in the destination tree.

  /** The output paths of the entries that are written. */
  function WrittenPaths(dst: Path, es: seq<Entry>): set<Path> {
    set i | 0 <= i < |es| && Written(es[i]) :: OutPath(dst, es[i])
  }

  /** No entry after index `i` writes to path `p`. */
  predicate NoLaterWrite(dst: Path, es: seq<Entry>, i: int, p: Path) {
    forall j :: 0 <= j < |es| && i < j && Written(es[j]) ==> OutPath(dst, es[j]) != p
  }

  /** The parent directories that the walk creates: those of every visited
      entry, decoded or not, with all their ancestors. */
  function VisitedDirs(dst: Path, es: seq<Entry>): set<Path> {
    set i, n | 0 <= i < |es| && Visited(es[i]) && 1 <= n <= |dst + es[i].dir|
      :: (dst + es[i].dir)[..n]
  }

  lemma WrittenPathsSnoc(dst: Path, es: seq<Entry>, e: Entry)
    ensures WrittenPaths(dst, es + [e])
         == WrittenPaths(dst, es) + (if Written(e) then {OutPath(dst, e)} else {})
  {
    var es' := es + [e];
    assert forall i :: 0 <= i < |es| ==> es'[i] == es[i];
    if Written(e) {
      assert OutPath(dst, es'[|es|]) in WrittenPaths(dst, es');
    }
  }

  lemma VisitedDirsSnoc(dst: Path, es: seq<Entry>, e: Entry)
    ensures VisitedDirs(dst, es + [e])
         == VisitedDirs(dst, es) + (if Visited(e) then Ancestors(dst + e.dir) else {})
  {
    var es' := es + [e];
    assert forall i :: 0 <= i < |es| ==> es'[i] == es[i];
    if Visited(e) {
      forall p | p in Ancestors(dst + e.dir) ensures p in VisitedDirs(dst, es') {
        var n :| 1 <= n <= |dst + e.dir| && p == (dst + e.dir)[..n];
        assert es'[|es|] == e;
      }
    }
  }

  /** The files after the walk are those that were there before and those
      that some entry wrote; nothing else appears. */
  lemma {:induction false} WalkFileKeys(dst: Path, t: Tree, es: seq<Entry>)
    ensures Walk(dst, t, es).files.Keys == t.files.Keys + WrittenPaths(dst, es)
    decreases |es|
  {
    if es != [] {
      var init, last := es[..|es| - 1], es[|es| - 1];
      assert init + [last] == es;
      WalkFileKeys(dst, t, init);
      WrittenPathsSnoc(dst, init, last);
    }
  }

  /** A path that no entry writes keeps what it had before the walk. */
  lemma {:induction false} WalkUntouched(dst: Path, t: Tree, es: seq<Entry>, p: Path)
    requires p !in WrittenPaths(dst, es)
    ensures p in Walk(dst, t, es).files <==> p in t.files
    ensures p in t.files ==> Walk(dst, t, es).files[p] == t.files[p]
    decreases |es|
  {
    if es != [] {
      var init, last := es[..|es| - 1], es[|es| - 1];
      assert init + [last] == es;
      WrittenPathsSnoc(dst, init, last);
      WalkUntouched(dst, t, init, p);
    }
  }

  /** The last entry to write a path decides its content, which is exactly
      the decoded text: a later file overwrites an earlier one that maps to
      the same output, and failures before or after it do not matter. */
  lemma {:induction false} WalkLastWriteWins(dst: Path, t: Tree, es: seq<Entry>, i: int)
    requires 0 <= i < |es| && Written(es[i])
    requires NoLaterWrite(dst, es, i, OutPath(dst, es[i]))
    ensures OutPath(dst, es[i]) in Walk(dst, t, es).files
    ensures Walk(dst, t, es).files[OutPath(dst, es[i])] == es[i].decoded.value
    decreases |es|
  {
    var init, last := es[..|es| - 1], es[|es| - 1];
    if i < |es| - 1 {
      assert init[i] == es[i];
      assert NoLaterWrite(dst, init, i, OutPath(dst, es[i])) by {
        forall j | i < j < |init| && Written(init[j])
          ensures OutPath(dst, init[j]) != OutPath(dst, es[i])
        {
          assert init[j] == es[j];
        }
      }
      WalkLastWriteWins(dst, t, init, i);
    }
  }

  /** The directories after the walk: those there before, and the parent
      of every visited entry with its ancestors, including entries that then
      failed to decode. */
  lemma {:induction false} WalkDirs(dst: Path, t: Tree, es: seq<Entry>)
    ensures Walk(dst, t, es).dirs == t.dirs + VisitedDirs(dst, es)
    decreases |es|
  {
    if es != [] {
      var init, last := es[..|es| - 1], es[|es| - 1];
      assert init + [last] == es;
      WalkDirs(dst, t, init);
      VisitedDirsSnoc(dst, init, last);
    }
  }

  /** Among the entries that write path `p`, the one visited last. */
  lemma {:induction false} LastWriter(dst: Path, es: seq<Entry>, p: Path) returns (i: int)
    requires p in WrittenPaths(dst, es)
    ensures 0 <= i < |es| && Written(es[i]) && OutPath(dst, es[i]) == p
    ensures NoLaterWrite(dst, es, i, p)
    decreases |es|
  {
    var init, last := es[..|es| - 1], es[|es| - 1];
    assert init + [last] == es;
    WrittenPathsSnoc(dst, init, last);
    if Written(last) && OutPath(dst, last) == p {
      i := |es| - 1;
    } else {
      i := LastWriter(dst, init, p);
      assert es[i] == init[i];
      forall j | i < j < |es| && Written(es[j]) ensures OutPath(dst, es[j]) != p {
        if j < |es| - 1 {
          assert es[j] == init[j];
        }
      }
    }
  }

  // ---------------------------------------------------------------------
  // The promises of convert_files_to_txt, stated on the whole conversion.

  /** Every file in the destination afterwards was either there before or
      written by a converted entry. */
  lemma ConvertedFiles(dst: Path, tree: Tree, es: seq<Entry>)
    ensures Converted(dst, tree, es).files.Keys == tree.files.Keys + WrittenPaths(dst, es)
  {
    WalkFileKeys(dst, MkDirs(tree, dst), es);
  }

  /** A converted file holds exactly the decoded text of the last source
      file mapped to its path. */
  lemma ConvertedContent(dst: Path, tree: Tree, es: seq<Entry>, i: int)
    requires 0 <= i < |es| && Written(es[i])
    requires NoLaterWrite(dst, es, i, OutPath(dst, es[i]))
    ensures OutPath(dst, es[i]) in Converted(dst, tree, es).files
    ensures Converted(dst, tree, es).files[OutPath(dst, es[i])] == es[i].decoded.value
  {
    WalkLastWriteWins(dst, MkDirs(tree, dst), es, i);
  }

  /** An entry that is skipped (a directory, a `.jpg`, a file that fails to
      decode or to be written) leaves no file at its output path, unless
      another entry writes there or a file was there before. */
  lemma SkippedEntryLeavesNoFile(dst: Path, tree: Tree, es: seq<Entry>, i: int)
    requires 0 <= i < |es| && !Written(es[i])
    requires OutPath(dst, es[i]) !in tree.files
    requires forall j :: 0 <= j < |es| && Written(es[j]) ==> OutPath(dst, es[j]) != OutPath(dst, es[i])
    ensures OutPath(dst, es[i]) !in Converted(dst, tree, es).files
  {
    WalkUntouched(dst, MkDirs(tree, dst), es, OutPath(dst, es[i]));
  }

  /** The directories afterwards: the destination directory, the parent of
      every visited entry (also one that then fails to decode), with their
      ancestors, and whatever existed before. */
  lemma ConvertedDirs(dst: Path, tree: Tree, es: seq<Entry>)
    ensures Converted(dst, tree, es).dirs == tree.dirs + Ancestors(dst) + VisitedDirs(dst, es)
  {
    WalkDirs(dst, MkDirs(tree, dst), es);
  }

  /** Running the conversion again over the same listing changes nothing:
      every file is overwritten with the same text. */
  lemma ConvertIdempotent(dst: Path, tree: Tree, es: seq<Entry>)
    ensures Converted(dst, Converted(dst, tree, es), es) == Converted(dst, tree, es)
  {
    var a := Converted(dst, tree, es);
    var b := Converted(dst, a, es);
    ConvertedDirs(dst, tree, es);
    ConvertedDirs(dst, a, es);
    ConvertedFiles(dst, tree, es);
    ConvertedFiles(dst, a, es);
    forall p | p in a.files ensures b.files[p] == a.files[p] {
      if p in WrittenPaths(dst, es) {
        var i := LastWriter(dst, es, p);
        ConvertedContent(dst, tree, es, i);
        ConvertedContent(dst, a, es, i);
      } else {
        WalkUntouched(dst, MkDirs(a, dst), es, p);
      }
    }
    assert b.files == a.files;
  }

  // ---------------------------------------------------------------------
  // The output names of a few typical files.

  /** `x.JPG` is excluded like `x.jpg`. */
  lemma JpgUpperCaseExcluded()
    ensures IsJpg("x.JPG")
  {
    IsJpgShape("x.JPG");
  }

  /** `.jpg` is a dotfile without a suffix: it is converted, to `.jpg.txt`. */
  lemma JpgDotfileConverted()
    ensures !IsJpg(".jpg")
    ensures WithSuffix(".jpg", TxtSuffix) == ".jpg.txt"
  {
    assert ".jpg"[..3] == ".jp" && ".jp"[..2] == ".j" && ".j"[..1] == ".";
    assert LastDot(".") == 0;
    assert LastDot(".jpg") == LastDot(".j");
  }

  /** Neighbouring image suffixes are not excluded. */
  lemma JpegAndPngConverted()
    ensures !IsJpg("a.jpeg") && !IsJpg("a.png")
  {
  }

  /** Only the last suffix is replaced, and a name without one gets `.txt`
      appended: `a.tar.gz` becomes `a.tar.txt`, `Makefile` `Makefile.txt`. */
  lemma OutNameExamples()
    ensures WithSuffix("a.tar.gz", TxtSuffix) == "a.tar.txt"
    ensures WithSuffix("Makefile", TxtSuffix) == "Makefile.txt"
    ensures WithSuffix("a.py", TxtSuffix) == WithSuffix("a.js", TxtSuffix) == "a.txt"
  {
    assert LastDot("a.tar.gz") == 5 && Suffix("a.tar.gz") == ".gz";
    assert LastDot("Makefile") == -1 && Suffix("Makefile") == "";
    assert LastDot("a.py") == 1 && Suffix("a.py") == ".py";
    assert LastDot("a.js") == 1 && Suffix("a.js") == ".js";
  }
}
