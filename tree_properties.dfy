/**
 * What one `executeRecursive` call computes, said without the fold over
 * subdirectories: the count, the latest modification time and the fed bytes
 * are those of the flat list of included files the walk reaches; the flag
 * holds exactly when every directory the walk enters passes its own
 * judgement; the lines printed are one digest line per included file (when
 * asked for) and one line per directory whose flag ended false.
 */
module TreeProperties {
  import opened Bytes
  import opened HexFormat
  import opened DirectoryTree

  /** The included files a walk reaches, in the order it visits them. */
  function Flatten(d: Directory, f: Filter): seq<FileInfo>
    decreases d, 1
  {
    Included(Files(d.entries), f) + FlattenSub(d, f, |Dirs(d.entries)|)
  }

  /** The included files below the first `j` subdirectories of `d` that are not skipped. */
  function FlattenSub(d: Directory, f: Filter, j: nat): seq<FileInfo>
    requires j <= |Dirs(d.entries)|
    decreases d, 0, j
  {
    if j == 0 then []
    else
      DirsMember(d.entries, j - 1);
      FlattenSub(d, f, j - 1) + FlattenEntry(Dirs(d.entries)[j - 1], f)
  }

  /** The included files below one subdirectory entry, none when it is skipped. */
  function FlattenEntry(e: Entry, f: Filter): seq<FileInfo>
    requires e.SubDir?
    decreases e
  {
    if f.skipFolder(e.name) then [] else Flatten(e.dir, f)
  }

  /** The directories a walk enters, in pre-order, under the folder test `skip`. */
  function Reach(d: Directory, skip: string -> bool): seq<Directory>
    decreases d, 1
  {
    [d] + ReachSub(d, skip, |Dirs(d.entries)|)
  }

  /** The directories entered below the first `j` subdirectories of `d`. */
  function ReachSub(d: Directory, skip: string -> bool, j: nat): seq<Directory>
    requires j <= |Dirs(d.entries)|
    decreases d, 0, j
  {
    if j == 0 then []
    else
      DirsMember(d.entries, j - 1);
      ReachSub(d, skip, j - 1) + ReachEntry(Dirs(d.entries)[j - 1], skip)
  }

  /** The directories entered below one subdirectory entry, none when it is skipped. */
  function ReachEntry(e: Entry, skip: string -> bool): seq<Directory>
    requires e.SubDir?
    decreases e
  {
    if skip(e.name) then [] else Reach(e.dir, skip)
  }

  /** The digest lines of a log, the directory lines dropped. */
  function DigestLines(log: seq<Line>): seq<Line>
  {
    if log == [] then []
    else DigestLines(log[..|log| - 1]) + (if log[|log| - 1].IncompleteLine? then [] else [log[|log| - 1]])
  }

  /** No line of the log reports an incomplete directory. */
  predicate NoIncomplete(log: seq<Line>)
  {
    forall l :: l in log ==> !l.IncompleteLine?
  }

  /** Every line of the log is a directory line or, when the filter asks for them, a digest line. */
  predicate WalkLines(log: seq<Line>, f: Filter)
  {
    forall l :: l in log ==> l.IncompleteLine? || (f.fileLines && l.FileDigestLine?)
  }

  lemma {:induction false} FilesBytesConcat(a: seq<FileInfo>, b: seq<FileInfo>)
    ensures FilesBytes(a + b) == FilesBytes(a) + FilesBytes(b)
  {
    if b != [] {
      var front := b[..|b| - 1];
      assert (a + b)[..|a + b| - 1] == a + front;
      FilesBytesConcat(a, front);
      AppendAssoc(FilesBytes(a), FilesBytes(front), b[|b| - 1].content);
    } else {
      assert a + b == a;
    }
  }

  lemma {:induction false} FilesLastModifiedConcat(a: seq<FileInfo>, b: seq<FileInfo>)
    ensures FilesLastModified(a + b) == Max(FilesLastModified(a), FilesLastModified(b))
  {
    if b != [] {
      var front := b[..|b| - 1];
      assert (a + b)[..|a + b| - 1] == a + front;
      FilesLastModifiedConcat(a, front);
    } else {
      assert a + b == a;
    }
  }

  lemma {:induction false} FileLinesConcat(a: seq<FileInfo>, b: seq<FileInfo>, h: seq<byte> -> seq<byte>)
    ensures FileLines(a + b, h) == FileLines(a, h) + FileLines(b, h)
  {
    if b != [] {
      var front := b[..|b| - 1];
      var x := b[|b| - 1];
      assert (a + b)[..|a + b| - 1] == a + front;
      FileLinesConcat(a, front, h);
      AppendAssoc(FileLines(a, h), FileLines(front, h), [FileDigestLine(Hex(h(x.content)), x.name)]);
    } else {
      assert a + b == a;
    }
  }

  lemma {:induction false} DigestLinesConcat(a: seq<Line>, b: seq<Line>)
    ensures DigestLines(a + b) == DigestLines(a) + DigestLines(b)
  {
    if b != [] {
      var front := b[..|b| - 1];
      var x := b[|b| - 1];
      assert (a + b)[..|a + b| - 1] == a + front;
      DigestLinesConcat(a, front);
      AppendAssoc(DigestLines(a), DigestLines(front), if x.IncompleteLine? then [] else [x]);
    } else {
      assert a + b == a;
    }
  }

  /** Per-file lines are all digest lines, so dropping the directory lines keeps them all. */
  lemma {:induction false} FileLinesDigest(fs: seq<FileInfo>, h: seq<byte> -> seq<byte>)
    ensures DigestLines(FileLines(fs, h)) == FileLines(fs, h)
    ensures forall l :: l in FileLines(fs, h) ==> l.FileDigestLine?
  {
    if fs != [] {
      var front := fs[..|fs| - 1];
      var x := fs[|fs| - 1];
      var line := FileDigestLine(Hex(h(x.content)), x.name);
      FileLinesDigest(front, h);
      DigestLinesConcat(FileLines(front, h), [line]);
      assert [line][..0] == [];
    }
  }

  /** The walk's count, latest time and fed bytes are those of the flat list of included files. */
  lemma {:induction false} WalkFlatten(d: Directory, f: Filter, h: seq<byte> -> seq<byte>)
    ensures Walk(d, f, h).count == |Flatten(d, f)|
    ensures Walk(d, f, h).lastModified == FilesLastModified(Flatten(d, f))
    ensures Walk(d, f, h).fed == FilesBytes(Flatten(d, f))
    decreases d, 1
  {
    var own := Included(Files(d.entries), f);
    var n := |Dirs(d.entries)|;
    SubWalkFlatten(d, f, h, n);
    FilesBytesConcat(own, FlattenSub(d, f, n));
    FilesLastModifiedConcat(own, FlattenSub(d, f, n));
  }

  lemma {:induction false} SubWalkFlatten(d: Directory, f: Filter, h: seq<byte> -> seq<byte>, j: nat)
    requires j <= |Dirs(d.entries)|
    ensures SubWalk(d, f, h, j).count == |FlattenSub(d, f, j)|
    ensures SubWalk(d, f, h, j).lastModified == FilesLastModified(FlattenSub(d, f, j))
    ensures SubWalk(d, f, h, j).fed == FilesBytes(FlattenSub(d, f, j))
    decreases d, 0, j
  {
    if j > 0 {
      var e := Dirs(d.entries)[j - 1];
      SubWalkStep(d, f, h, j);
      SubWalkFlatten(d, f, h, j - 1);
      if !f.skipFolder(e.name) {
        WalkFlatten(e.dir, f, h);
        FilesBytesConcat(FlattenSub(d, f, j - 1), Flatten(e.dir, f));
        FilesLastModifiedConcat(FlattenSub(d, f, j - 1), Flatten(e.dir, f));
      } else {
        assert FlattenEntry(e, f) == [];
        assert FlattenSub(d, f, j) == FlattenSub(d, f, j - 1);
      }
    }
  }

  /** The flag of a walk holds exactly when every directory it enters passes its own judgement. */
  lemma {:induction false} WalkPackageInfo(d: Directory, f: Filter, h: seq<byte> -> seq<byte>)
    ensures Walk(d, f, h).packageInfo <==> forall r :: r in Reach(d, f.skipFolder) ==> OwnJudgement(r)
    decreases d, 1
  {
    SubWalkPackageInfo(d, f, h, |Dirs(d.entries)|);
  }

  lemma {:induction false} SubWalkPackageInfo(d: Directory, f: Filter, h: seq<byte> -> seq<byte>, j: nat)
    requires j <= |Dirs(d.entries)|
    ensures SubWalk(d, f, h, j).packageInfo <==>
            forall r :: r in ReachSub(d, f.skipFolder, j) ==> OwnJudgement(r)
    decreases d, 0, j
  {
    if j > 0 {
      var e := Dirs(d.entries)[j - 1];
      SubWalkStep(d, f, h, j);
      SubWalkPackageInfo(d, f, h, j - 1);
      if !f.skipFolder(e.name) {
        WalkPackageInfo(e.dir, f, h);
      } else {
        assert ReachSub(d, f.skipFolder, j) == ReachSub(d, f.skipFolder, j - 1) + [];
      }
    }
  }

  /**
   * The flag does not depend on which files are read, on whether digest
   * lines are printed, nor on the hash: an excluded marker still counts.
   */
  lemma PackageInfoIgnoresFiles(d: Directory, f: Filter, skipFile: string -> bool, fileLines: bool,
                                h: seq<byte> -> seq<byte>, h': seq<byte> -> seq<byte>)
    ensures Walk(d, f, h).packageInfo == Walk(d, f.(skipFile := skipFile, fileLines := fileLines), h').packageInfo
  {
    WalkPackageInfo(d, f, h);
    WalkPackageInfo(d, f.(skipFile := skipFile, fileLines := fileLines), h');
  }

  /**
   * The walk prints a directory line somewhere exactly when its flag ends
   * false, and then its own directory line comes last.
   */
  lemma {:induction false} WalkIncomplete(d: Directory, f: Filter, h: seq<byte> -> seq<byte>)
    ensures Walk(d, f, h).packageInfo <==> NoIncomplete(Walk(d, f, h).log)
    ensures !Walk(d, f, h).packageInfo ==>
              Walk(d, f, h).log[|Walk(d, f, h).log| - 1] == IncompleteLine(d.path, JavaCount(d.entries))
    decreases d, 1
  {
    var n := |Dirs(d.entries)|;
    var w, sub := Walk(d, f, h), SubWalk(d, f, h, n);
    var own := OwnLines(Files(d.entries), f, h);
    SubWalkIncomplete(d, f, h, n);
    FileLinesDigest(Included(Files(d.entries), f), h);
    assert forall l :: l in own ==> l.FileDigestLine?;
    if w.packageInfo {
      assert w.log == own + sub.log + [];
      assert NoIncomplete(sub.log);
    } else {
      assert w.log == own + sub.log + [IncompleteLine(d.path, JavaCount(d.entries))];
      assert w.log[|w.log| - 1].IncompleteLine?;
    }
  }

  lemma {:induction false} SubWalkIncomplete(d: Directory, f: Filter, h: seq<byte> -> seq<byte>, j: nat)
    requires j <= |Dirs(d.entries)|
    ensures SubWalk(d, f, h, j).packageInfo <==> NoIncomplete(SubWalk(d, f, h, j).log)
    decreases d, 0, j
  {
    if j > 0 {
      var e := Dirs(d.entries)[j - 1];
      SubWalkStep(d, f, h, j);
      SubWalkIncomplete(d, f, h, j - 1);
      if !f.skipFolder(e.name) {
        WalkIncomplete(e.dir, f, h);
      }
    }
  }

  /**
   * Every line a walk prints is a directory line or a digest line, and
   * digest lines appear only when the filter asks for them.
   */
  lemma {:induction false} WalkLineKinds(d: Directory, f: Filter, h: seq<byte> -> seq<byte>)
    ensures WalkLines(Walk(d, f, h).log, f)
    decreases d, 1
  {
    SubWalkLineKinds(d, f, h, |Dirs(d.entries)|);
    FileLinesDigest(Included(Files(d.entries), f), h);
  }

  lemma {:induction false} SubWalkLineKinds(d: Directory, f: Filter, h: seq<byte> -> seq<byte>, j: nat)
    requires j <= |Dirs(d.entries)|
    ensures WalkLines(SubWalk(d, f, h, j).log, f)
    decreases d, 0, j
  {
    if j > 0 {
      var e := Dirs(d.entries)[j - 1];
      SubWalkStep(d, f, h, j);
      SubWalkLineKinds(d, f, h, j - 1);
      if !f.skipFolder(e.name) {
        WalkLineKinds(e.dir, f, h);
      }
    }
  }

  /**
   * With the directory lines dropped, a walk prints one digest line per
   * included file it reaches, in visiting order, when the filter asks for
   * them, and none otherwise.
   */
  lemma {:induction false} WalkDigestLines(d: Directory, f: Filter, h: seq<byte> -> seq<byte>)
    ensures DigestLines(Walk(d, f, h).log) == (if f.fileLines then FileLines(Flatten(d, f), h) else [])
    decreases d, 1
  {
    var own := Included(Files(d.entries), f);
    var n := |Dirs(d.entries)|;
    var sub := SubWalk(d, f, h, n);
    var last: seq<Line> := if Walk(d, f, h).packageInfo then [] else [IncompleteLine(d.path, JavaCount(d.entries))];
    SubWalkDigestLines(d, f, h, n);
    FileLinesDigest(own, h);
    DigestLinesConcat(OwnLines(Files(d.entries), f, h), sub.log);
    DigestLinesConcat(OwnLines(Files(d.entries), f, h) + sub.log, last);
    assert DigestLines(last) == [] by {
      if last != [] {
        assert last[..0] == [];
      }
    }
    FileLinesConcat(own, FlattenSub(d, f, n), h);
  }

  lemma {:induction false} SubWalkDigestLines(d: Directory, f: Filter, h: seq<byte> -> seq<byte>, j: nat)
    requires j <= |Dirs(d.entries)|
    ensures DigestLines(SubWalk(d, f, h, j).log) == (if f.fileLines then FileLines(FlattenSub(d, f, j), h) else [])
    decreases d, 0, j
  {
    if j > 0 {
      var e := Dirs(d.entries)[j - 1];
      SubWalkStep(d, f, h, j);
      SubWalkDigestLines(d, f, h, j - 1);
      if !f.skipFolder(e.name) {
        WalkDigestLines(e.dir, f, h);
        DigestLinesConcat(SubWalk(d, f, h, j - 1).log, Walk(e.dir, f, h).log);
        FileLinesConcat(FlattenSub(d, f, j - 1), Flatten(e.dir, f), h);
      } else {
        assert FlattenEntry(e, f) == [];
        assert FlattenSub(d, f, j) == FlattenSub(d, f, j - 1);
      }
    }
  }

  lemma {:induction false} FilesDirsAppend(es: seq<Entry>, e: Entry)
    ensures Files(es + [e]) == Files(es) + (if e.File? then [e.file] else [])
    ensures Dirs(es + [e]) == Dirs(es) + (if e.SubDir? then [e] else [])
    ensures JavaCount(es + [e]) == JavaCount(es) + (if IsJavaSource(e) then 1 else 0)
  {
    assert (es + [e])[..|es|] == es;
  }

  /** A listing split in two: files, subdirectories and Java sources of each part, in order. */
  lemma {:induction false} EntriesConcat(a: seq<Entry>, b: seq<Entry>)
    ensures Files(a + b) == Files(a) + Files(b)
    ensures Dirs(a + b) == Dirs(a) + Dirs(b)
    ensures JavaCount(a + b) == JavaCount(a) + JavaCount(b)
  {
    if b == [] {
      assert a + b == a;
    } else {
      var front, e := b[..|b| - 1], b[|b| - 1];
      assert b == front + [e];
      assert a + b == (a + front) + [e];
      EntriesConcat(a, front);
      FilesDirsAppend(a + front, e);
      FilesDirsAppend(front, e);
      AppendAssoc(Files(a), Files(front), if e.File? then [e.file] else []);
      AppendAssoc(Dirs(a), Dirs(front), if e.SubDir? then [e] else []);
    }
  }

  /** The files kept from two runs of files are those kept from each. */
  lemma {:induction false} IncludedConcat(u: seq<FileInfo>, v: seq<FileInfo>, f: Filter)
    ensures Included(u + v, f) == Included(u, f) + Included(v, f)
  {
    if v == [] {
      assert u + v == u;
    } else {
      var front, x := v[..|v| - 1], v[|v| - 1];
      assert (u + v)[..|u + v| - 1] == u + front;
      IncludedConcat(u, front, f);
      AppendAssoc(Included(u, f), Included(front, f), if f.skipFile(x.name) then [] else [x]);
    }
  }

  /** One entry inserted between two parts of a listing lands between their files or their subdirectories. */
  lemma InsertEntry(a: seq<Entry>, e: Entry, b: seq<Entry>)
    ensures Files(a + [e] + b) == Files(a) + (if e.File? then [e.file] else []) + Files(b)
    ensures Dirs(a + [e] + b) == Dirs(a) + (if e.SubDir? then [e] else []) + Dirs(b)
    ensures JavaCount(a + [e] + b) == JavaCount(a + b) + (if IsJavaSource(e) then 1 else 0)
  {
    EntriesConcat(a, b);
    EntriesConcat(a + [e], b);
    FilesDirsAppend(a, e);
  }

  /** Two directories whose subdirectory lists agree on their first `j` entries fold those alike. */
  lemma {:induction false} SubWalkPrefix(d: Directory, d': Directory, f: Filter, h: seq<byte> -> seq<byte>, j: nat)
    requires j <= |Dirs(d.entries)| && j <= |Dirs(d'.entries)|
    requires Dirs(d.entries)[..j] == Dirs(d'.entries)[..j]
    ensures SubWalk(d', f, h, j) == SubWalk(d, f, h, j)
    decreases j
  {
    if j > 0 {
      assert Dirs(d.entries)[..j - 1] == Dirs(d.entries)[..j][..j - 1];
      assert Dirs(d'.entries)[..j - 1] == Dirs(d'.entries)[..j][..j - 1];
      SubWalkPrefix(d, d', f, h, j - 1);
      assert Dirs(d.entries)[j - 1] == Dirs(d.entries)[..j][j - 1];
      assert Dirs(d'.entries)[j - 1] == Dirs(d'.entries)[..j][j - 1];
    }
  }

  /** The same for the flat list of included files. */
  lemma {:induction false} FlattenSubPrefix(d: Directory, d': Directory, f: Filter, j: nat)
    requires j <= |Dirs(d.entries)| && j <= |Dirs(d'.entries)|
    requires Dirs(d.entries)[..j] == Dirs(d'.entries)[..j]
    ensures FlattenSub(d', f, j) == FlattenSub(d, f, j)
    decreases j
  {
    if j > 0 {
      assert Dirs(d.entries)[..j - 1] == Dirs(d.entries)[..j][..j - 1];
      assert Dirs(d'.entries)[..j - 1] == Dirs(d'.entries)[..j][..j - 1];
      FlattenSubPrefix(d, d', f, j - 1);
      assert Dirs(d.entries)[j - 1] == Dirs(d.entries)[..j][j - 1];
      assert Dirs(d'.entries)[j - 1] == Dirs(d'.entries)[..j][j - 1];
    }
  }

  /**
   * A skipped subdirectory inserted at position `p` of the subdirectory
   * list is a round that folds nothing: every later round of `d'` folds
   * what the round before it folded in `d`.
   */
  lemma {:induction false} SubWalkSkipInsert(d: Directory, d': Directory, e: Entry, p: nat,
                                             f: Filter, h: seq<byte> -> seq<byte>, j: nat)
    requires e.SubDir? && f.skipFolder(e.name)
    requires p <= |Dirs(d.entries)|
    requires Dirs(d'.entries) == Dirs(d.entries)[..p] + [e] + Dirs(d.entries)[p..]
    requires p < j <= |Dirs(d'.entries)|
    ensures SubWalk(d', f, h, j) == SubWalk(d, f, h, j - 1)
    decreases j
  {
    if j == p + 1 {
      assert Dirs(d'.entries)[p] == e;
      assert Dirs(d.entries)[..p] == Dirs(d'.entries)[..p];
      SubWalkStep(d', f, h, j);
      SubWalkPrefix(d, d', f, h, p);
    } else {
      SubWalkSkipInsert(d, d', e, p, f, h, j - 1);
      assert Dirs(d'.entries)[j - 1] == Dirs(d.entries)[j - 2];
      DirsMember(d.entries, j - 2);
      DirsMember(d'.entries, j - 1);
    }
  }

  /**
   * The parts of a walk that a skipped subdirectory entry, listed at any
   * position `i`, leaves alone: the files, the Java source count and the
   * subdirectory fold.
   */
  lemma SkippedFolderFold(d: Directory, i: nat, name: string, sub: Directory, f: Filter, h: seq<byte> -> seq<byte>)
    requires i <= |d.entries| && f.skipFolder(name)
    ensures var es' := d.entries[..i] + [SubDir(name, sub)] + d.entries[i..];
            Files(es') == Files(d.entries) && JavaCount(es') == JavaCount(d.entries) &&
            SubWalk(Directory(d.path, es'), f, h, |Dirs(es')|) == SubWalk(d, f, h, |Dirs(d.entries)|)
  {
    var e := SubDir(name, sub);
    var d' := Directory(d.path, d.entries[..i] + [e] + d.entries[i..]);
    var p := InsertFolder(d.entries, i, e);
    SubWalkSkipInsert(d, d', e, p, f, h, |Dirs(d'.entries)|);
  }

  /**
   * A subdirectory entry inserted at position `i` of a listing adds no file
   * and no Java source, and lands at some position `p` of the subdirectories.
   */
  lemma InsertFolder(es: seq<Entry>, i: nat, e: Entry) returns (p: nat)
    requires i <= |es| && e.SubDir?
    ensures var es' := es[..i] + [e] + es[i..];
            Files(es') == Files(es) && JavaCount(es') == JavaCount(es) &&
            p <= |Dirs(es)| && Dirs(es') == Dirs(es)[..p] + [e] + Dirs(es)[p..]
  {
    var a, b := es[..i], es[i..];
    assert es == a + b;
    EntriesConcat(a, b);
    InsertEntry(a, e, b);
    p := |Dirs(a)|;
    assert Dirs(es)[..p] == Dirs(a) && Dirs(es)[p..] == Dirs(b);
  }

  /**
   * A subdirectory whose name the filter skips, wherever it is listed,
   * changes nothing: not the statistics, not the fed bytes, not a single
   * printed line.
   */
  lemma ExcludedFolderIgnored(d: Directory, i: nat, name: string, sub: Directory, f: Filter, h: seq<byte> -> seq<byte>)
    requires i <= |d.entries| && f.skipFolder(name)
    ensures Walk(Directory(d.path, d.entries[..i] + [SubDir(name, sub)] + d.entries[i..]), f, h) == Walk(d, f, h)
  {
    var d' := Directory(d.path, d.entries[..i] + [SubDir(name, sub)] + d.entries[i..]);
    SkippedFolderFold(d, i, name, sub, f, h);
    assert OwnJudgement(d') == OwnJudgement(d);
  }

  /**
   * A file whose name the filter skips, wherever it is listed, adds no
   * byte, no count, no time and no digest line; it can still change the
   * flag and the directory line, since it still counts as a Java source or
   * as the marker.
   */
  lemma ExcludedFileIgnored(d: Directory, i: nat, x: FileInfo, f: Filter, h: seq<byte> -> seq<byte>)
    requires i <= |d.entries| && f.skipFile(x.name)
    ensures var d' := Directory(d.path, d.entries[..i] + [File(x)] + d.entries[i..]);
            var w, w' := Walk(d, f, h), Walk(d', f, h);
            w'.count == w.count && w'.lastModified == w.lastModified && w'.fed == w.fed &&
            Flatten(d', f) == Flatten(d, f) &&
            DigestLines(w'.log) == DigestLines(w.log)
  {
    var d' := Directory(d.path, d.entries[..i] + [File(x)] + d.entries[i..]);
    SkippedFileFold(d, i, x, f);
    var n := |Dirs(d.entries)|;
    SubWalkPrefix(d, d', f, h, n);
    FlattenSubPrefix(d, d', f, n);
    WalkDigestLines(d, f, h);
    WalkDigestLines(d', f, h);
  }

  /** The parts of a walk that a skipped file, listed at any position `i`, leaves alone. */
  lemma SkippedFileFold(d: Directory, i: nat, x: FileInfo, f: Filter)
    requires i <= |d.entries| && f.skipFile(x.name)
    ensures var es' := d.entries[..i] + [File(x)] + d.entries[i..];
            Dirs(es') == Dirs(d.entries) && Included(Files(es'), f) == Included(Files(d.entries), f)
  {
    var a, b := d.entries[..i], d.entries[i..];
    assert d.entries == a + b;
    EntriesConcat(a, b);
    InsertEntry(a, File(x), b);
    assert Dirs(a) + [] + Dirs(b) == Dirs(a) + Dirs(b);
    IncludedConcat(Files(a) + [x], Files(b), f);
    IncludedAppend(Files(a), x, f);
    IncludedConcat(Files(a), Files(b), f);
  }
}
