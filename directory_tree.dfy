/**
 * A directory tree as the traversal sees it, the lines it prints, and the
 * specification of one `executeRecursive` call: `Walk` gives what the call
 * returns (count, latest modification time, documentation flag), which
 * bytes it feeds to the shared digest and which lines it prints.
 *
 * Files are visited before subdirectories, each group in listing order.
 * `SubWalk(d, f, h, j)` is what the subdirectory loop has folded in after
 * its first `j` rounds.
 */
module DirectoryTree {
  import opened Wrappers
  import opened Bytes
  import opened JavaString
  import opened Exclusion
  import opened HexFormat

  /** The per-package documentation marker. */
  const Marker := "package-info.java"

  /** A plain file: its name, its bytes and `File.lastModified()`. */
  datatype FileInfo = FileInfo(name: string, content: seq<byte>, lastModified: int)

  /** One entry of a directory listing; a subdirectory carries its own listing. */
  datatype Entry =
    | File(file: FileInfo)
    | SubDir(name: string, dir: Directory)

  /** A listable directory: the path string the traversal was given, and its listing. */
  datatype Directory = Directory(path: string, entries: seq<Entry>)

  /** The three fields of `DirectoryStatistics`. */
  datatype DirectoryStatistics = DirectoryStatistics(count: nat, lastModified: int, packageInfo: bool)

  /** The task's configuration; an absent option is Java `null`. */
  datatype Settings = Settings(
    excludefolders: Option<string>,
    excludeextensions: Option<string>,
    outtype: Option<string>)

  /** The lines the task prints, without their `printf` padding. */
  datatype Line =
      /** tab, the digest of one file, space, its name (only when `outtype` is set) */
    | FileDigestLine(digest: string, name: string)
      /** a directory whose documentation flag ended false, with its Java file count */
    | IncompleteLine(dir: string, javaCount: nat)
      /** a root path that cannot be listed */
    | NotFoundLine(path: string)
      /** a root's digest, file count, latest modification, name, and `*` when incomplete */
    | SummaryLine(digest: string, count: nat, lastModified: int, name: string, incomplete: bool)

  /**
   * The decisions the settings make during a walk: which subdirectory names
   * are not entered, which file names are not read, and whether per-file
   * digest lines are printed.
   */
  datatype Filter = Filter(skipFolder: string -> bool, skipFile: string -> bool, fileLines: bool)

  /** The filter of the task's settings: the two `split(" ")` tests and `outtype != null`. */
  function FilterOf(s: Settings): Filter
  {
    var folders, extensions := s.excludefolders, s.excludeextensions;
    Filter(name => ExcludedFolder(name, folders), name => ExcludedFile(name, extensions), s.outtype.Some?)
  }

  /** `f` makes the same decisions as the settings `s`. */
  ghost predicate Decides(f: Filter, s: Settings)
  {
    (forall name :: f.skipFolder(name) == ExcludedFolder(name, s.excludefolders)) &&
    (forall name :: f.skipFile(name) == ExcludedFile(name, s.excludeextensions)) &&
    f.fileLines == s.outtype.Some?
  }

  lemma FilterOfDecides(s: Settings)
    ensures Decides(FilterOf(s), s)
  {
  }

  /** What one `executeRecursive` call yields: its statistics, the bytes it feeds and the lines it prints. */
  datatype Summary = Summary(count: nat, lastModified: int, packageInfo: bool, fed: seq<byte>, log: seq<Line>)

  /** Concatenation regrouped; the solver needs this step spelled out when a fold grows by one. */
  lemma AppendAssoc<T>(a: seq<T>, b: seq<T>, c: seq<T>)
    ensures a + b + c == a + (b + c)
  {
  }

  function Max(a: int, b: int): int
  {
    if a < b then b else a
  }

  /** A Java source file other than the marker. */
  predicate IsJavaSource(e: Entry)
  {
    e.File? && e.file.name != Marker && EndsWith(e.file.name, ".java")
  }

  /** `javaCount`: the Java source files of the listing, the marker not included. */
  function JavaCount(es: seq<Entry>): nat
  {
    if es == [] then 0
    else JavaCount(es[..|es| - 1]) + (if IsJavaSource(es[|es| - 1]) then 1 else 0)
  }

  /**
   * The directory needs no marker: it has no Java source, or it lies outside
   * a `src\` folder, or it is test code.
   */
  predicate Baseline(path: string, javaCount: nat)
  {
    javaCount <= 0 || !Contains(path, "src\\") || Contains(path, "junit") || Contains(path, "test")
  }

  /**
   * The source-root test looks for a backslash after `src`: a path without
   * a backslash is never under a source root, so a directory there needs no
   * marker, however many Java sources it holds.
   */
  lemma NoBackslashIsBaseline(path: string, javaCount: nat)
    requires '\\' !in path
    ensures Baseline(path, javaCount)
  {
    if Contains(path, "src\\") {
      ContainsChars(path, "src\\", '\\');
      assert false;
    }
  }

  /**
   * A witness for `NoBackslashIsBaseline`: a directory with Java sources
   * under `src/` needs no marker, while the same path written with a
   * backslash does need one.
   */
  lemma SourceRootNeedsBackslash()
    ensures Baseline("src/p", 2)
    ensures !Baseline("src\\p", 2)
  {
    var backward := "src\\p";
    NoBackslashIsBaseline("src/p", 2);
    assert backward[..4] == "src\\";
    if Contains(backward, "junit") {
      ContainsChars(backward, "junit", 'j');
      assert false;
    }
    if Contains(backward, "test") {
      ContainsChars(backward, "test", 't');
      assert false;
    }
  }

  /** The plain files of a listing, in listing order. */
  function Files(es: seq<Entry>): seq<FileInfo>
  {
    if es == [] then []
    else
      var last := es[|es| - 1];
      Files(es[..|es| - 1]) + (if last.File? then [last.file] else [])
  }

  /** The subdirectories of a listing, in listing order. */
  function Dirs(es: seq<Entry>): seq<Entry>
  {
    if es == [] then []
    else
      var last := es[|es| - 1];
      Dirs(es[..|es| - 1]) + (if last.SubDir? then [last] else [])
  }

  /** Every subdirectory listed is an entry of the listing. */
  lemma {:induction false} DirsMember(es: seq<Entry>, i: nat)
    requires i < |Dirs(es)|
    ensures Dirs(es)[i] in es && Dirs(es)[i].SubDir?
  {
    var front := es[..|es| - 1];
    if i < |Dirs(front)| {
      DirsMember(front, i);
    }
  }

  /** The files whose bytes are read: those whose names the filter does not skip. */
  function Included(fs: seq<FileInfo>, f: Filter): seq<FileInfo>
  {
    if fs == [] then []
    else
      var last := fs[|fs| - 1];
      Included(fs[..|fs| - 1], f) + (if f.skipFile(last.name) then [] else [last])
  }

  /** Some plain file of the listing is the marker. */
  predicate HasMarker(fs: seq<FileInfo>)
  {
    fs != [] && (HasMarker(fs[..|fs| - 1]) || fs[|fs| - 1].name == Marker)
  }

  /** `HasMarker` holds exactly when one of the files is named like the marker. */
  lemma {:induction false} HasMarkerIff(fs: seq<FileInfo>)
    ensures HasMarker(fs) <==> exists f :: f in fs && f.name == Marker
  {
    if fs != [] {
      var front := fs[..|fs| - 1];
      HasMarkerIff(front);
      assert fs == front + [fs[|fs| - 1]];
    }
  }

  /**
   * The directory's own judgement: its baseline, or a marker beside at least
   * one Java source file. The marker counts whether or not its extension is
   * excluded, and it cannot help a directory with no Java source (which is
   * complete by its baseline anyway).
   */
  predicate OwnJudgement(d: Directory)
  {
    var javaCount := JavaCount(d.entries);
    Baseline(d.path, javaCount) || (HasMarker(Files(d.entries)) && javaCount >= 1)
  }

  /** The bytes of the given files, one after the other. */
  function FilesBytes(fs: seq<FileInfo>): seq<byte>
  {
    if fs == [] then []
    else FilesBytes(fs[..|fs| - 1]) + fs[|fs| - 1].content
  }

  /** The largest modification time of the given files, starting from 0. */
  function FilesLastModified(fs: seq<FileInfo>): (m: int)
    ensures m >= 0
  {
    if fs == [] then 0
    else Max(FilesLastModified(fs[..|fs| - 1]), fs[|fs| - 1].lastModified)
  }

  /** One per-file digest line per given file, under the hash function `h`. */
  function FileLines(fs: seq<FileInfo>, h: seq<byte> -> seq<byte>): seq<Line>
  {
    if fs == [] then []
    else
      var last := fs[|fs| - 1];
      FileLines(fs[..|fs| - 1], h) + [FileDigestLine(Hex(h(last.content)), last.name)]
  }

  /** The per-file lines of a directory's files: printed only when the filter asks for them. */
  function OwnLines(fs: seq<FileInfo>, f: Filter, h: seq<byte> -> seq<byte>): seq<Line>
  {
    if f.fileLines then FileLines(Included(fs, f), h) else []
  }

  /** One more file at the end of a file list: it is kept unless the filter skips its name. */
  lemma IncludedAppend(fs: seq<FileInfo>, x: FileInfo, f: Filter)
    ensures f.skipFile(x.name) ==> Included(fs + [x], f) == Included(fs, f)
    ensures !f.skipFile(x.name) ==> Included(fs + [x], f) == Included(fs, f) + [x]
    ensures HasMarker(fs + [x]) == (HasMarker(fs) || x.name == Marker)
  {
    assert (fs + [x])[..|fs|] == fs;
    assert Included(fs, f) + [] == Included(fs, f);
  }

  /** One more included file, for each of the per-file folds. */
  lemma FoldsAppend(fs: seq<FileInfo>, x: FileInfo, h: seq<byte> -> seq<byte>)
    ensures FilesBytes(fs + [x]) == FilesBytes(fs) + x.content
    ensures FilesLastModified(fs + [x]) == Max(FilesLastModified(fs), x.lastModified)
    ensures FileLines(fs + [x], h) == FileLines(fs, h) + [FileDigestLine(Hex(h(x.content)), x.name)]
  {
    assert (fs + [x])[..|fs|] == fs;
  }

  /**
   * One `executeRecursive` call on `d`: its own included files, then each
   * subdirectory the filter does not skip, then this directory's line when
   * its flag ended false.
   */
  function Walk(d: Directory, f: Filter, h: seq<byte> -> seq<byte>): Summary
    decreases d, 1
  {
    var sub := SubWalk(d, f, h, |Dirs(d.entries)|);
    var own := Included(Files(d.entries), f);
    var packageInfo := OwnJudgement(d) && sub.packageInfo;
    Summary(
      |own| + sub.count,
      Max(FilesLastModified(own), sub.lastModified),
      packageInfo,
      FilesBytes(own) + sub.fed,
      OwnLines(Files(d.entries), f, h) + sub.log +
      (if packageInfo then [] else [IncompleteLine(d.path, JavaCount(d.entries))]))
  }

  /** The first `j` subdirectories of `d` folded together: counts added, times maximised, flags and-ed. */
  function SubWalk(d: Directory, f: Filter, h: seq<byte> -> seq<byte>, j: nat): Summary
    requires j <= |Dirs(d.entries)|
    decreases d, 0, j
  {
    if j == 0 then Summary(0, 0, true, [], [])
    else
      DirsMember(d.entries, j - 1);
      Combine(SubWalk(d, f, h, j - 1), Dirs(d.entries)[j - 1], f, h)
  }

  /** One round of the fold: a skipped subdirectory leaves it as it was, any other adds its walk. */
  function Combine(before: Summary, e: Entry, f: Filter, h: seq<byte> -> seq<byte>): Summary
    requires e.SubDir?
    decreases e
  {
    if f.skipFolder(e.name) then before
    else Add(before, Walk(e.dir, f, h))
  }

  function Add(a: Summary, b: Summary): Summary
  {
    Summary(a.count + b.count, Max(a.lastModified, b.lastModified), a.packageInfo && b.packageInfo,
            a.fed + b.fed, a.log + b.log)
  }

  /** One round of the subdirectory fold, field by field. */
  lemma SubWalkStep(d: Directory, f: Filter, h: seq<byte> -> seq<byte>, j: nat)
    requires 0 < j <= |Dirs(d.entries)|
    ensures Dirs(d.entries)[j - 1].SubDir? && Dirs(d.entries)[j - 1].dir < d
    ensures var e := Dirs(d.entries)[j - 1];
            var before, now := SubWalk(d, f, h, j - 1), SubWalk(d, f, h, j);
            if f.skipFolder(e.name) then now == before
            else
              var w := Walk(e.dir, f, h);
              now.count == before.count + w.count &&
              now.lastModified == Max(before.lastModified, w.lastModified) &&
              now.packageInfo == (before.packageInfo && w.packageInfo) &&
              now.fed == before.fed + w.fed &&
              now.log == before.log + w.log
  {
    DirsMember(d.entries, j - 1);
  }
}
