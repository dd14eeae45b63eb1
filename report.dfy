/**
 * What `execute` prints for the configured roots: for each root in order,
 * either its "not found" line, or everything the walk of that root prints
 * followed by the root's summary line, whose digest is the hash of every
 * byte the walk fed to the root's fresh digest object.
 */
module TaskReport {
  import opened Wrappers
  import opened Bytes
  import opened HexFormat
  import opened DirectoryTree
  import opened TreeProperties

  /** A configured root: its path, its display name, and its listing (`None` if it cannot be listed). */
  datatype RootPath = RootPath(path: string, name: string, listing: Option<seq<Entry>>)

  /** The directory a listable root stands for. */
  function RootDirectory(r: RootPath): Directory
    requires r.listing.Some?
  {
    Directory(r.path, r.listing.value)
  }

  /** The line that closes one root's lines: its "not found" line or its summary line. */
  function RootLine(r: RootPath, f: Filter, h: seq<byte> -> seq<byte>): Line
  {
    match r.listing
    case None => NotFoundLine(r.path)
    case Some(entries) =>
      var w := Walk(Directory(r.path, entries), f, h);
      SummaryLine(Hex(h(w.fed)), w.count, w.lastModified, r.name, !w.packageInfo)
  }

  /** The lines one root contributes: what its walk prints, then its closing line. */
  function RootReport(r: RootPath, f: Filter, h: seq<byte> -> seq<byte>): seq<Line>
  {
    (if r.listing.Some? then Walk(RootDirectory(r), f, h).log else []) + [RootLine(r, f, h)]
  }

  /** The lines of all roots, one root after the other. */
  function Report(roots: seq<RootPath>, f: Filter, h: seq<byte> -> seq<byte>): seq<Line>
  {
    if roots == [] then []
    else Report(roots[..|roots| - 1], f, h) + RootReport(roots[|roots| - 1], f, h)
  }

  /** The report of one more root extends the report of the roots before it by that root's lines. */
  lemma ReportStep(roots: seq<RootPath>, i: nat, f: Filter, h: seq<byte> -> seq<byte>)
    requires i < |roots|
    ensures Report(roots[..i + 1], f, h) == Report(roots[..i], f, h) + RootReport(roots[i], f, h)
  {
    assert roots[..i + 1][..i] == roots[..i];
  }

  /**
   * The summary line of a listable root, in terms of the flat view of its
   * walk: its digest reads back as the hash of the bytes of every included
   * file reached, in visiting order; its count and time are those files'
   * number and latest time; and it is marked incomplete exactly when some
   * directory the walk enters fails its own judgement.
   */
  lemma RootLineSummary(r: RootPath, f: Filter, h: seq<byte> -> seq<byte>)
    requires r.listing.Some?
    ensures var line, files := RootLine(r, f, h), Flatten(RootDirectory(r), f);
            line.SummaryLine? &&
            ParseHex(line.digest) == Some(h(FilesBytes(files))) &&
            line.count == |files| &&
            line.lastModified == FilesLastModified(files) &&
            line.name == r.name &&
            (line.incomplete <==> exists x :: x in Reach(RootDirectory(r), f.skipFolder) && !OwnJudgement(x))
  {
    var d := RootDirectory(r);
    WalkFlatten(d, f, h);
    WalkPackageInfo(d, f, h);
    ParseHexRoundTrip(h(FilesBytes(Flatten(d, f))));
  }

  /** The lines that close a root, in the order they appear. */
  function RootLines(lines: seq<Line>): seq<Line>
  {
    if lines == [] then []
    else
      var last := lines[|lines| - 1];
      RootLines(lines[..|lines| - 1]) + (if last.SummaryLine? || last.NotFoundLine? then [last] else [])
  }

  lemma {:induction false} RootLinesConcat(a: seq<Line>, b: seq<Line>)
    ensures RootLines(a + b) == RootLines(a) + RootLines(b)
  {
    if b != [] {
      var front := b[..|b| - 1];
      var x := b[|b| - 1];
      assert (a + b)[..|a + b| - 1] == a + front;
      RootLinesConcat(a, front);
      AppendAssoc(RootLines(a), RootLines(front), if x.SummaryLine? || x.NotFoundLine? then [x] else []);
    } else {
      assert a + b == a;
    }
  }

  /** A log of walk lines holds no closing line. */
  lemma {:induction false} WalkLinesHaveNoRootLines(lines: seq<Line>, f: Filter)
    requires WalkLines(lines, f)
    ensures RootLines(lines) == []
  {
    if lines != [] {
      WalkLinesHaveNoRootLines(lines[..|lines| - 1], f);
      assert lines[|lines| - 1] in lines;
    }
  }

  /** Each root closes its own lines with exactly one closing line. */
  lemma RootReportLines(r: RootPath, f: Filter, h: seq<byte> -> seq<byte>)
    ensures RootLines(RootReport(r, f, h)) == [RootLine(r, f, h)]
  {
    var walked := if r.listing.Some? then Walk(RootDirectory(r), f, h).log else [];
    if r.listing.Some? {
      WalkLineKinds(RootDirectory(r), f, h);
    }
    WalkLinesHaveNoRootLines(walked, f);
    RootLinesConcat(walked, [RootLine(r, f, h)]);
    assert [RootLine(r, f, h)][..0] == [];
  }

  /** Closing lines for all roots but the last, followed by the last root's line, are the closing lines of all roots. */
  lemma ClosingLinesAppend(roots: seq<RootPath>, closing: seq<Line>, f: Filter, h: seq<byte> -> seq<byte>)
    requires roots != [] && |closing| == |roots| - 1
    requires forall i :: 0 <= i < |roots| - 1 ==> closing[i] == RootLine(roots[..|roots| - 1][i], f, h)
    ensures forall i :: 0 <= i < |roots| ==>
              (closing + [RootLine(roots[|roots| - 1], f, h)])[i] == RootLine(roots[i], f, h)
  {
  }

  /** The report holds one closing line per root, in the order the roots were configured. */
  lemma {:induction false} ReportRootLines(roots: seq<RootPath>, f: Filter, h: seq<byte> -> seq<byte>)
    ensures |RootLines(Report(roots, f, h))| == |roots|
    ensures forall i :: 0 <= i < |roots| ==> RootLines(Report(roots, f, h))[i] == RootLine(roots[i], f, h)
  {
    if roots != [] {
      var front := roots[..|roots| - 1];
      var r := roots[|roots| - 1];
      ReportRootLines(front, f, h);
      RootReportLines(r, f, h);
      RootLinesConcat(Report(front, f, h), RootReport(r, f, h));
      ClosingLinesAppend(roots, RootLines(Report(front, f, h)), f, h);
    }
  }
}
