/**
 * The task itself, in the source's imperative form: a digest object that is
 * fed bytes in place, an output stream that collects lines, and the task
 * object whose settings drive the recursive walk. Each method is proved
 * against the specification functions of `DirectoryTree`.
 */
module TotalSha1 {
  import opened Wrappers
  import opened Bytes
  import opened JavaString
  import opened Exclusion
  import opened HexFormat
  import opened DirectoryTree
  import opened TaskReport

  /** An incremental digest: it remembers the bytes fed so far and hashes them with `hash`. */
  class MessageDigest {
    const hash: seq<byte> -> seq<byte>
    var input: seq<byte>

    constructor (hash: seq<byte> -> seq<byte>)
      ensures this.hash == hash && input == []
    {
      this.hash := hash;
      input := [];
    }

    method Update(buffer: seq<byte>)
      modifies this
      ensures input == old(input) + buffer
    {
      input := input + buffer;
    }

    function Digest(): seq<byte>
      reads this
    {
      hash(input)
    }
  }

  /** An output stream, seen as the lines written to it. */
  class Output {
    var lines: seq<Line>

    constructor ()
      ensures lines == []
    {
      lines := [];
    }

    method Println(line: Line)
      modifies this
      ensures lines == old(lines) + [line]
    {
      lines := lines + [line];
    }
  }

  /** The first listing pass: counts the Java source files other than the marker. */
  method CountJavaFiles(entries: seq<Entry>) returns (javaCount: nat)
    ensures javaCount == JavaCount(entries)
    ensures javaCount <= |Files(entries)|
  {
    javaCount := 0;
    var i := 0;
    while i < |entries|
      invariant 0 <= i <= |entries|
      invariant javaCount == JavaCount(entries[..i])
      invariant javaCount <= |Files(entries[..i])|
    {
      assert entries[..i + 1][..i] == entries[..i];
      var e := entries[i];
      if e.File? && e.file.name != Marker && EndsWith(e.file.name, ".java") {
        javaCount := javaCount + 1;
      }
      i := i + 1;
    }
    assert entries[..i] == entries;
  }

  /** The second listing pass: files and directories into two lists, each in listing order. */
  method Partition(entries: seq<Entry>) returns (files: seq<FileInfo>, dirs: seq<Entry>)
    ensures files == Files(entries) && dirs == Dirs(entries)
    ensures |files| + |dirs| == |entries|
  {
    files, dirs := [], [];
    var i := 0;
    while i < |entries|
      invariant 0 <= i <= |entries|
      invariant files == Files(entries[..i]) && dirs == Dirs(entries[..i])
      invariant |files| + |dirs| == i
    {
      assert entries[..i + 1][..i] == entries[..i];
      var e := entries[i];
      if e.SubDir? {
        dirs := dirs + [e];
      } else {
        files := files + [e.file];
      }
      i := i + 1;
    }
    assert entries[..i] == entries;
  }

  /** The test made before the file loop: whether the directory needs no marker at all. */
  method IsBaseline(path: string, javaCount: nat) returns (baseline: bool)
    ensures baseline == Baseline(path, javaCount)
  {
    baseline := false;
    if javaCount <= 0 ||
       !Contains(path, "src\\") ||
       Contains(path, "junit") ||
       Contains(path, "test")
    {
      baseline := true;
    }
  }

  /** The Ant task: its settings, its configured roots, and the SHA-1 algorithm it asks for. */
  class TotalSha1Task {
    var excludefolders: Option<string>
    var excludeextensions: Option<string>
    var outtype: Option<string>
    var pathCollection: seq<RootPath>
    const sha1: seq<byte> -> seq<byte>

    constructor (sha1: seq<byte> -> seq<byte>)
      ensures this.sha1 == sha1
      ensures excludefolders == None && excludeextensions == None && outtype == None
      ensures pathCollection == []
    {
      this.sha1 := sha1;
      excludefolders, excludeextensions, outtype := None, None, None;
      pathCollection := [];
    }

    function CurrentSettings(): Settings
      reads this
    {
      Settings(excludefolders, excludeextensions, outtype)
    }

    /**
     * The loop over the configured roots: each root's lines, in the order
     * the roots were configured, appended to `out`.
     */
    method Execute(out: Output)
      modifies out
      ensures out.lines == old(out.lines) + Report(pathCollection, FilterOf(CurrentSettings()), sha1)
    {
      ghost var f := FilterOf(CurrentSettings());
      FilterOfDecides(CurrentSettings());
      var i := 0;
      while i < |pathCollection|
        invariant 0 <= i <= |pathCollection|
        invariant out.lines == old(out.lines) + Report(pathCollection[..i], f, sha1)
        invariant Decides(f, CurrentSettings())
      {
        var path := pathCollection[i];
        ExecuteRoot(path, f, out);
        ReportStep(pathCollection, i, f, sha1);
        AppendAssoc(old(out.lines), Report(pathCollection[..i], f, sha1), RootReport(path, f, sha1));
        i := i + 1;
      }
      assert pathCollection[..i] == pathCollection;
    }

    /**
     * One root: a root that cannot be listed gets its "not found" line;
     * otherwise it is walked with a fresh digest object, and its summary
     * line carries the hexadecimal digest, the file count, the latest
     * modification time, the root's name and whether it is incomplete.
     */
    method ExecuteRoot(path: RootPath, ghost f: Filter, out: Output)
      requires Decides(f, CurrentSettings())
      modifies out
      ensures out.lines == old(out.lines) + RootReport(path, f, sha1)
    {
      if path.listing.Some? {
        var dir := Directory(path.path, path.listing.value);
        var messageDigest := new MessageDigest(sha1);
        var statistics := ExecuteRecursive(dir, messageDigest, out, f);
        ghost var w := Walk(dir, f, sha1);
        assert messageDigest.hash == sha1 && messageDigest.input == [] + w.fed == w.fed;
        var text := HexDigest(messageDigest.Digest());
        var line := SummaryLine(text, statistics.count, statistics.lastModified, path.name, !statistics.packageInfo);
        assert line == SummaryLine(Hex(sha1(w.fed)), w.count, w.lastModified, path.name, !w.packageInfo);
        out.Println(line);
        AppendAssoc(old(out.lines), w.log, [line]);
      } else {
        out.Println(NotFoundLine(path.path));
      }
    }

    /**
     * One directory: returns its statistics, feeds its included bytes to
     * `messageDigest` and prints its lines to `out`, all as `Walk` gives
     * them under any filter `f` that decides like the settings.
     */
    method ExecuteRecursive(dir: Directory, messageDigest: MessageDigest, out: Output, ghost f: Filter)
      returns (statistics: DirectoryStatistics)
      requires Decides(f, CurrentSettings())
      modifies messageDigest, out
      ensures statistics.count == Walk(dir, f, sha1).count
      ensures statistics.lastModified == Walk(dir, f, sha1).lastModified
      ensures statistics.packageInfo == Walk(dir, f, sha1).packageInfo
      ensures messageDigest.input == old(messageDigest.input) + Walk(dir, f, sha1).fed
      ensures out.lines == old(out.lines) + Walk(dir, f, sha1).log
      decreases dir, 1
    {
      var javaCount := CountJavaFiles(dir.entries);
      var baseline := IsBaseline(dir.path, javaCount);
      var files, dirs := Partition(dir.entries);
      statistics := VisitFiles(files, javaCount, baseline, f, messageDigest, out);
      ghost var own := Included(files, f);
      ghost var sub := SubWalk(dir, f, sha1, |dirs|);
      statistics := VisitDirectories(dir, dirs, f, statistics, messageDigest, out);
      AppendAssoc(old(messageDigest.input), FilesBytes(own), sub.fed);
      AppendAssoc(old(out.lines), OwnLines(files, f, sha1), sub.log);
      ghost var walked := OwnLines(files, f, sha1) + sub.log;
      if !statistics.packageInfo {
        out.Println(IncompleteLine(dir.path, javaCount));
        AppendAssoc(old(out.lines), walked, [IncompleteLine(dir.path, javaCount)]);
      } else {
        assert walked + [] == walked;
      }
    }

    /**
     * The loop over the plain files of one directory, starting from a fresh
     * record whose flag is the directory's baseline judgement.
     */
    method VisitFiles(files: seq<FileInfo>, javaCount: nat, baseline: bool, ghost f: Filter,
                      messageDigest: MessageDigest, out: Output)
      returns (statistics: DirectoryStatistics)
      requires Decides(f, CurrentSettings())
      modifies messageDigest, out
      ensures statistics.count == |Included(files, f)|
      ensures statistics.lastModified == FilesLastModified(Included(files, f))
      ensures statistics.packageInfo == (baseline || (HasMarker(files) && javaCount >= 1))
      ensures messageDigest.input == old(messageDigest.input) + FilesBytes(Included(files, f))
      ensures out.lines == old(out.lines) + OwnLines(files, f, sha1)
    {
      statistics := DirectoryStatistics(0, 0, baseline);
      ghost var included := [];
      var i := 0;
      while i < |files|
        invariant 0 <= i <= |files|
        invariant included == Included(files[..i], f)
        invariant statistics.count == |included|
        invariant statistics.lastModified == FilesLastModified(included)
        invariant statistics.packageInfo == (baseline || (HasMarker(files[..i]) && javaCount >= 1))
        invariant messageDigest.input == old(messageDigest.input) + FilesBytes(included)
        invariant out.lines == old(out.lines) + (if f.fileLines then FileLines(included, sha1) else [])
      {
        var file := files[i];
        assert files[..i + 1] == files[..i] + [file];
        IncludedAppend(files[..i], file, f);
        FoldsAppend(included, file, sha1);
        statistics := VisitFile(file, javaCount, f, statistics, messageDigest, out);
        if !f.skipFile(file.name) {
          AppendAssoc(old(messageDigest.input), FilesBytes(included), file.content);
          AppendAssoc(old(out.lines), FileLines(included, sha1), [FileDigestLine(Hex(sha1(file.content)), file.name)]);
          included := included + [file];
        }
        i := i + 1;
      }
      assert files[..i] == files;
    }

    /** One round of the file loop. */
    method VisitFile(file: FileInfo, javaCount: nat, ghost f: Filter, statistics: DirectoryStatistics,
                     messageDigest: MessageDigest, out: Output)
      returns (next: DirectoryStatistics)
      requires Decides(f, CurrentSettings())
      modifies messageDigest, out
      ensures next.packageInfo == (statistics.packageInfo || (file.name == Marker && javaCount >= 1))
      ensures f.skipFile(file.name) ==>
                next.count == statistics.count && next.lastModified == statistics.lastModified &&
                messageDigest.input == old(messageDigest.input) && out.lines == old(out.lines)
      ensures !f.skipFile(file.name) ==>
                next.count == statistics.count + 1 &&
                next.lastModified == Max(statistics.lastModified, file.lastModified) &&
                messageDigest.input == old(messageDigest.input) + file.content &&
                out.lines == old(out.lines) +
                             (if f.fileLines then [FileDigestLine(Hex(sha1(file.content)), file.name)] else [])
    {
      next := statistics;
      if file.name == Marker && javaCount >= 1 {
        next := next.(packageInfo := true);
      }
      var find := IsExcludedExtension(file.name, excludeextensions);
      if !find {
        var buffer := file.content;
        messageDigest.Update(buffer);
        next := next.(count := next.count + 1);
        if next.lastModified < file.lastModified {
          next := next.(lastModified := file.lastModified);
        }
        if outtype.Some? {
          PrintFileDigest(file, out);
        }
      }
    }

    /** The digest line of one included file, computed with a digest object of its own. */
    method PrintFileDigest(file: FileInfo, out: Output)
      modifies out
      ensures out.lines == old(out.lines) + [FileDigestLine(Hex(sha1(file.content)), file.name)]
    {
      var buffer := file.content;
      var messageDigest2 := new MessageDigest(sha1);
      messageDigest2.Update(buffer);
      assert messageDigest2.hash == sha1 && messageDigest2.input == file.content;
      var text := HexDigest(messageDigest2.Digest());
      out.Println(FileDigestLine(text, file.name));
    }

    /**
     * The loop over the subdirectories of `dir`: each one not excluded is
     * walked and folded into `start`.
     */
    method VisitDirectories(dir: Directory, dirs: seq<Entry>, ghost f: Filter, start: DirectoryStatistics,
                            messageDigest: MessageDigest, out: Output)
      returns (statistics: DirectoryStatistics)
      requires dirs == Dirs(dir.entries) && Decides(f, CurrentSettings())
      requires start.lastModified >= 0
      modifies messageDigest, out
      ensures Folded(dir, f, sha1, |dirs|, start, statistics, old(messageDigest.input), old(out.lines),
                     messageDigest.input, out.lines)
      decreases dir, 0
    {
      statistics := start;
      var j := 0;
      while j < |dirs|
        invariant 0 <= j <= |dirs|
        invariant Folded(dir, f, sha1, j, start, statistics, old(messageDigest.input), old(out.lines),
                         messageDigest.input, out.lines)
      {
        statistics := VisitDirectory(dir, j, f, start, statistics, old(messageDigest.input), old(out.lines),
                                     messageDigest, out);
        j := j + 1;
      }
    }

    /**
     * One round of the subdirectory loop: the `j`-th subdirectory is walked
     * unless its name is excluded, and the loop's folds move from `j` to `j + 1`.
     */
    method VisitDirectory(dir: Directory, j: nat, ghost f: Filter, start: DirectoryStatistics,
                          statistics: DirectoryStatistics, ghost input: seq<byte>, ghost lines: seq<Line>,
                          messageDigest: MessageDigest, out: Output)
      returns (next: DirectoryStatistics)
      requires j < |Dirs(dir.entries)| && Decides(f, CurrentSettings())
      requires Folded(dir, f, sha1, j, start, statistics, input, lines, messageDigest.input, out.lines)
      modifies messageDigest, out
      ensures Folded(dir, f, sha1, j + 1, start, next, input, lines, messageDigest.input, out.lines)
      decreases dir, 0, j
    {
      var file := Dirs(dir.entries)[j];
      SubWalkStep(dir, f, sha1, j + 1);
      next := statistics;
      var find := IsExcludedFolder(file.name, excludefolders);
      if !find {
        ghost var fed, printed := messageDigest.input, out.lines;
        var statistics2 := ExecuteRecursive(file.dir, messageDigest, out, f);
        next := next.(count := next.count + statistics2.count);
        if next.lastModified < statistics2.lastModified {
          next := next.(lastModified := statistics2.lastModified);
        }
        next := next.(packageInfo := next.packageInfo && statistics2.packageInfo);
        FoldedStep(dir, f, sha1, j, start, statistics, next, input, lines, fed, printed,
                   messageDigest.input, out.lines);
      }
    }
  }

  /**
   * The subdirectory loop after `j` rounds: `statistics` is `start` with the
   * first `j` subdirectories folded in, and the digest input and the output
   * have grown from `input` and `lines` by what those rounds fed and printed.
   */
  ghost predicate Folded(dir: Directory, f: Filter, h: seq<byte> -> seq<byte>, j: nat,
                         start: DirectoryStatistics, statistics: DirectoryStatistics,
                         input: seq<byte>, lines: seq<Line>, fed: seq<byte>, printed: seq<Line>)
    requires j <= |Dirs(dir.entries)|
  {
    var sub := SubWalk(dir, f, h, j);
    statistics.count == start.count + sub.count &&
    statistics.lastModified == Max(start.lastModified, sub.lastModified) &&
    statistics.packageInfo == (start.packageInfo && sub.packageInfo) &&
    fed == input + sub.fed &&
    printed == lines + sub.log
  }

  /** A round that walks its subdirectory moves the fold from `j` to `j + 1`. */
  lemma FoldedStep(dir: Directory, f: Filter, h: seq<byte> -> seq<byte>, j: nat,
                   start: DirectoryStatistics, statistics: DirectoryStatistics, next: DirectoryStatistics,
                   input: seq<byte>, lines: seq<Line>, fed: seq<byte>, printed: seq<Line>,
                   fed': seq<byte>, printed': seq<Line>)
    requires j < |Dirs(dir.entries)|
    requires Folded(dir, f, h, j, start, statistics, input, lines, fed, printed)
    requires var e := Dirs(dir.entries)[j];
             e.SubDir? && e.dir < dir && !f.skipFolder(e.name) &&
             var w := Walk(e.dir, f, h);
             next.count == statistics.count + w.count &&
             next.lastModified == Max(statistics.lastModified, w.lastModified) &&
             next.packageInfo == (statistics.packageInfo && w.packageInfo) &&
             fed' == fed + w.fed && printed' == printed + w.log
    ensures Folded(dir, f, h, j + 1, start, next, input, lines, fed', printed')
  {
    var e := Dirs(dir.entries)[j];
    SubWalkStep(dir, f, h, j + 1);
    AppendAssoc(input, SubWalk(dir, f, h, j).fed, Walk(e.dir, f, h).fed);
    AppendAssoc(lines, SubWalk(dir, f, h, j).log, Walk(e.dir, f, h).log);
  }
}
