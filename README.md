# AntTotalSha1, modelled in Dafny

AntTotalSha1 is an Ant task (`TotalSha1Task`) that walks each configured root
directory and prints a summary line for it. The line holds the SHA-1 of the
bytes of every file it reads, the number of those files and their latest
modification time. A `*` is appended when some directory the walk enters fails
its own test: it holds Java sources other than `package-info.java`, its path
contains `src\` and neither `junit` nor `test`, and it has no
`package-info.java`. Excluded folders are not entered and so never add a
`*`. On the way, the task can print one digest line per file. It also prints a line for every directory
whose documentation flag ends false. Two settings (`excludefolders`,
`excludeextensions`) name folders that are not entered and file suffixes
that are not read.

The model has three parts:

- Specification functions over an input tree (`DirectoryTree.Walk`,
  `DirectoryTree.SubWalk`, `TaskReport.Report`). They say what one recursive
  call returns, which bytes it feeds to the digest and which lines it prints.
- An independent flat view of the same walk (`TreeProperties.Flatten`,
  `TreeProperties.Reach`), with lemmas tying the two together.
- The task itself, in the source's imperative form (`TotalSha1.TotalSha1Task`).
  A digest object is fed in place, an output object collects lines, and the
  loops mirror the Java ones. Every method is proved against the
  specification functions.

Conventions used throughout:

- The hash is a parameter `sha1: seq<byte> -> seq<byte>`, so the model states
  exactly which byte string is hashed.
- Printed lines are values of `DirectoryTree.Line`, without their `printf`
  padding.
- A configuration `Filter` packages the settings' decisions: which folder names
  are skipped, which file names are skipped, and whether digest lines are
  printed. `FilterOf` builds it from the settings. The methods take any filter
  that `Decides` like the current settings.

Where the code's behaviour is easy to misread, the model follows the code:

- Java's `split(" ")` yields the empty token exactly when the setting is
  empty, or some empty field comes before a non-empty one: a leading space
  (`" .class"` splits into `""` and `.class`) or two spaces in a row before a
  later token (`".a  .b"`). A trailing run of spaces yields no empty token:
  `"a  "` splits into `a` alone (`JavaString.SplitEmptyToken`). Every file name
  ends with the empty string, so an `excludeextensions` setting whose split
  holds the empty token excludes every file, and only such a setting does
  (`Exclusion.ExcludesEveryFile`). It does not behave like an absent setting.
  A setting of spaces only splits into nothing and does behave like an absent
  one (`Exclusion.SpacesOnlySettingExcludesNothing`).
- The source-root test looks for the substring `src\` with a backslash. A
  directory whose path has no backslash (`src/p`, say) never needs a marker
  and never causes a `*` itself (`DirectoryTree.NoBackslashIsBaseline`).
- Files and subdirectories are visited in the order the directory listing
  returns them, which the code does not sort. The model takes that order as
  part of its input.

## Model

Source paths are relative to the repository root.

| member | source | states |
|---|---|---|
| JavaString.EndsWith | src/kumagai/totalsha1/TotalSha1Task.java:287 | definition of `endsWith`: the name ends with the characters of the suffix, in order, so the empty suffix ends every name |
| JavaString.Contains | src/kumagai/totalsha1/TotalSha1Task.java:238-240 | definition of `indexOf(t) >= 0` as a left-to-right scan; `ContainsOccurs` proves its meaning |
| JavaString.JavaSplit | src/kumagai/totalsha1/TotalSha1Task.java:285 | definition of `split(" ")`: a string without a space is one token, otherwise its fields minus the trailing empty ones; `SplitTokens` and `SplitEmptyToken` prove what the tokens are |
| JavaString.ContainsOccurs | src/kumagai/totalsha1/TotalSha1Task.java:238-240 | `indexOf(t) >= 0` (as `Contains`) holds exactly when `t` occurs at some position of the path |
| JavaString.ContainsChars | src/kumagai/totalsha1/TotalSha1Task.java:238-240 | a string found by `indexOf` uses only characters of the path |
| JavaString.JoinFields | src/kumagai/totalsha1/TotalSha1Task.java:285 | the single-space fields of a setting join back to the setting, and no field holds a space |
| JavaString.FieldsJoin | src/kumagai/totalsha1/TotalSha1Task.java:285 | splitting the join of space-free fields gives those fields back |
| JavaString.DropTrailingEmptyPrefix | src/kumagai/totalsha1/TotalSha1Task.java:285 | `split` with limit 0 keeps a prefix of the fields and drops only trailing empty ones, leaving no empty last token |
| JavaString.SplitTokens | src/kumagai/totalsha1/TotalSha1Task.java:285-351 | no token holds a space; a non-empty name is a token exactly when it is a field of the setting |
| JavaString.SplitOfSpaces | src/kumagai/totalsha1/TotalSha1Task.java:285 | a setting of spaces only splits into no token at all |
| JavaString.DropTrailingEmptyKeepsEmpty | src/kumagai/totalsha1/TotalSha1Task.java:285 | dropping the trailing empty fields keeps an empty one exactly when some non-empty field comes after it |
| JavaString.SplitEmptyToken | src/kumagai/totalsha1/TotalSha1Task.java:285 | the split holds the empty token exactly when the setting is empty or some empty field comes before a non-empty one |
| JavaString.SplitOfLeadingSpace | src/kumagai/totalsha1/TotalSha1Task.java:285 | `" .class"` splits into the empty token and `.class` |
| JavaString.SplitOfEmpty | src/kumagai/totalsha1/TotalSha1Task.java:285 | the empty setting splits into the single empty token |
| HexFormat.Hex | src/kumagai/totalsha1/TotalSha1Task.java:156-159 | definition of the printed digest: `%02X` of each byte in turn; `HexShape` and `ParseHexRoundTrip` prove its shape and that it reads back |
| HexFormat.HexShape | src/kumagai/totalsha1/TotalSha1Task.java:156-159 | `%02X` per byte gives two characters per byte, each an uppercase hexadecimal digit |
| HexFormat.ParseHexRoundTrip | src/kumagai/totalsha1/TotalSha1Task.java:156-159 | the printed hexadecimal text reads back as exactly the digest bytes |
| HexFormat.HexInjective | src/kumagai/totalsha1/TotalSha1Task.java:331-334 | two different digests never print alike |
| HexFormat.HexDigest | src/kumagai/totalsha1/TotalSha1Task.java:156-159 | the loop over the digest bytes prints two characters per byte, and the text parses back to the digest |
| Exclusion.ExcludedFile | src/kumagai/totalsha1/TotalSha1Task.java:279-295 | definition: the setting is present and the file name ends with one of its split tokens |
| Exclusion.ExcludedFolder | src/kumagai/totalsha1/TotalSha1Task.java:343-359 | definition: the setting is present and the folder name equals one of its split tokens |
| Exclusion.IsExcludedExtension | src/kumagai/totalsha1/TotalSha1Task.java:279-295 | the find-flag loop answers true exactly when the setting is present and the name ends with one of its tokens |
| Exclusion.IsExcludedFolder | src/kumagai/totalsha1/TotalSha1Task.java:343-359 | the find-flag loop answers true exactly when the setting is present and the name equals one of its tokens |
| Exclusion.ExcludedFolderByField | src/kumagai/totalsha1/TotalSha1Task.java:349-351 | a non-empty folder name is excluded exactly when it is a space-separated field of the setting; a name with a space never is |
| Exclusion.EmptyExtensionSettingExcludesAll | src/kumagai/totalsha1/TotalSha1Task.java:285-292 | an empty `excludeextensions` skips every file |
| Exclusion.ExcludesEveryFile | src/kumagai/totalsha1/TotalSha1Task.java:279-295 | `excludeextensions` skips every file name exactly when its split holds the empty token |
| Exclusion.LeadingSpaceExcludesAll | src/kumagai/totalsha1/TotalSha1Task.java:279-295 | the setting `" .class"` skips every file, not only class files |
| Exclusion.SpacesOnlySettingExcludesNothing | src/kumagai/totalsha1/TotalSha1Task.java:285-351 | a setting of spaces only skips no file and no folder |
| DirectoryTree.FilterOfDecides | src/kumagai/totalsha1/TotalSha1Task.java:279-359 | the filter built from the settings makes the same folder, file and output decisions as the settings |
| DirectoryTree.JavaCount | src/kumagai/totalsha1/TotalSha1Task.java:219-235 | definition of `javaCount`: the plain files whose name ends with `.java` and is not `package-info.java`; `TotalSha1.CountJavaFiles` is proved to compute it |
| DirectoryTree.Baseline | src/kumagai/totalsha1/TotalSha1Task.java:237-246 | definition of the flag's starting value: no Java source, or no `src\` in the path, or `junit` or `test` in it |
| DirectoryTree.OwnJudgement | src/kumagai/totalsha1/TotalSha1Task.java:237-277 | definition of a directory's own flag: its baseline, or a `package-info.java` beside at least one Java source |
| DirectoryTree.Walk | src/kumagai/totalsha1/TotalSha1Task.java:213-386 | definition of one recursive call: its own included files, then the fold over its subdirectories, then its line when the flag ends false; `TreeProperties` proves what it computes |
| DirectoryTree.SubWalk | src/kumagai/totalsha1/TotalSha1Task.java:341-378 | definition of the subdirectory loop after `j` rounds, each round skipping an excluded folder or adding the child's walk |
| DirectoryTree.NoBackslashIsBaseline | src/kumagai/totalsha1/TotalSha1Task.java:237-240 | a directory whose path has no backslash passes the baseline test, whatever its Java count |
| DirectoryTree.SourceRootNeedsBackslash | src/kumagai/totalsha1/TotalSha1Task.java:237-240 | a witness: `src/p` with two Java sources passes the baseline test; the same path with `src\` does not |
| DirectoryTree.HasMarkerIff | src/kumagai/totalsha1/TotalSha1Task.java:272 | the marker test holds exactly when some plain file is named `package-info.java` |
| DirectoryTree.FilesLastModified | src/kumagai/totalsha1/DirectoryStatistics.java:10 | the latest time starts from 0 and so is never negative |
| DirectoryTree.IncludedAppend | src/kumagai/totalsha1/TotalSha1Task.java:272-297 | one more file is read exactly when its name is not skipped; it is the marker whether skipped or not |
| DirectoryTree.SubWalkStep | src/kumagai/totalsha1/TotalSha1Task.java:341-377 | one round of the subdirectory loop: a skipped folder changes nothing; any other adds its count, raises the time, ands its flag, and appends its bytes and lines |
| TreeProperties.WalkFlatten | src/kumagai/totalsha1/TotalSha1Task.java:301-374 | count, latest time and fed bytes of one call are the number, the latest time and the concatenated bytes of the included files it reaches, files before subdirectories |
| TreeProperties.SubWalkFlatten | src/kumagai/totalsha1/TotalSha1Task.java:341-374 | the same for the first `j` rounds of the subdirectory loop |
| TreeProperties.FilesBytesConcat | src/kumagai/totalsha1/TotalSha1Task.java:306 | the bytes fed for two runs of files are the bytes of the first run, then those of the second |
| TreeProperties.FilesLastModifiedConcat | src/kumagai/totalsha1/TotalSha1Task.java:310-315 | the latest time of two runs of files is the larger of their latest times |
| TreeProperties.WalkPackageInfo | src/kumagai/totalsha1/TotalSha1Task.java:237-376 | the returned flag holds exactly when every directory the call enters passes its own judgement (baseline, or marker beside a Java source) |
| TreeProperties.SubWalkPackageInfo | src/kumagai/totalsha1/TotalSha1Task.java:341-377 | the same for the first `j` rounds of the subdirectory loop |
| TreeProperties.PackageInfoIgnoresFiles | src/kumagai/totalsha1/TotalSha1Task.java:272-297 | the flag does not depend on which files are excluded, on `outtype`, nor on the hash: an excluded marker still counts |
| TreeProperties.WalkIncomplete | src/kumagai/totalsha1/TotalSha1Task.java:380-383 | a call prints a directory line somewhere exactly when its flag ends false, and then its own line `dir javaCount` comes last, after its children's output |
| TreeProperties.SubWalkIncomplete | src/kumagai/totalsha1/TotalSha1Task.java:341-377 | the folded flag of the first `j` rounds holds exactly when their output has no directory line |
| TreeProperties.WalkLineKinds | src/kumagai/totalsha1/TotalSha1Task.java:317-383 | a call prints only directory lines and per-file digest lines, the latter only when `outtype` is set |
| TreeProperties.SubWalkLineKinds | src/kumagai/totalsha1/TotalSha1Task.java:341-377 | the same for the first `j` rounds of the subdirectory loop |
| TreeProperties.WalkDigestLines | src/kumagai/totalsha1/TotalSha1Task.java:317-337 | without the directory lines, a call prints one digest line per included file it reaches, in visiting order, or none when `outtype` is absent |
| TreeProperties.SubWalkDigestLines | src/kumagai/totalsha1/TotalSha1Task.java:341-377 | the same for the first `j` rounds of the subdirectory loop |
| TreeProperties.FileLinesConcat | src/kumagai/totalsha1/TotalSha1Task.java:329-336 | the digest lines of two runs of files are those of the first run, then those of the second |
| TreeProperties.DigestLinesConcat | src/kumagai/totalsha1/TotalSha1Task.java:329-336 | dropping directory lines from two logs in a row drops them from each |
| TreeProperties.FileLinesDigest | src/kumagai/totalsha1/TotalSha1Task.java:329-336 | per-file lines are all digest lines |
| TreeProperties.ExcludedFolderIgnored | src/kumagai/totalsha1/TotalSha1Task.java:343-362 | a subdirectory whose name is excluded, listed at any position, changes nothing: not the statistics, not the fed bytes, not one printed line |
| TreeProperties.SkippedFolderFold | src/kumagai/totalsha1/TotalSha1Task.java:343-362 | an excluded subdirectory at any position adds no file, no Java source and nothing to the subdirectory fold |
| TreeProperties.SubWalkSkipInsert | src/kumagai/totalsha1/TotalSha1Task.java:343-362 | a round over an excluded subdirectory, wherever it falls, folds nothing: every later round folds what the one before it folded without it |
| TreeProperties.InsertFolder | src/kumagai/totalsha1/TotalSha1Task.java:248-266 | a subdirectory entry inserted anywhere in a listing adds no file and no Java source and lands between two parts of the subdirectory list |
| TreeProperties.ExcludedFileIgnored | src/kumagai/totalsha1/TotalSha1Task.java:279-297 | a file whose name is excluded, listed at any position, adds no byte, no count, no time, no included file and no digest line |
| TreeProperties.SkippedFileFold | src/kumagai/totalsha1/TotalSha1Task.java:279-297 | an excluded file at any position leaves the subdirectories and the included files as they were |
| TreeProperties.SubWalkPrefix | src/kumagai/totalsha1/TotalSha1Task.java:341 | two subdirectory lists that agree on their first `j` entries fold those `j` rounds alike |
| TreeProperties.FlattenSubPrefix | src/kumagai/totalsha1/TotalSha1Task.java:341 | the same for the flat list of included files |
| TreeProperties.EntriesConcat | src/kumagai/totalsha1/TotalSha1Task.java:221-266 | the files, subdirectories and Java count of a listing in two parts are those of each part, in order |
| TreeProperties.InsertEntry | src/kumagai/totalsha1/TotalSha1Task.java:221-266 | one entry inserted between two parts of a listing lands between their files or their subdirectories, and adds one Java source exactly when it is one |
| TreeProperties.IncludedConcat | src/kumagai/totalsha1/TotalSha1Task.java:268-297 | the files read from two runs of files are those read from each run, in order |
| TreeProperties.FilesDirsAppend | src/kumagai/totalsha1/TotalSha1Task.java:221-266 | one more listing entry lands in the files or the directories, and counts as a Java source exactly when it is one |
| TaskReport.ReportStep | src/kumagai/totalsha1/TotalSha1Task.java:140-191 | the output for the first `i + 1` roots is the output for the first `i`, then the lines of root `i` |
| TaskReport.RootLineSummary | src/kumagai/totalsha1/TotalSha1Task.java:148-178 | a listable root's summary line has a digest that reads back as the hash of all included bytes in visiting order, the count and latest time of those files, the root's name, and `*` exactly when some entered directory fails its own judgement |
| TaskReport.RootReportLines | src/kumagai/totalsha1/TotalSha1Task.java:142-190 | each root's output contains exactly one summary or "not found" line, its last |
| TaskReport.ReportRootLines | src/kumagai/totalsha1/TotalSha1Task.java:140-191 | the whole output holds one summary or "not found" line per root, in configuration order |
| TaskReport.RootLinesConcat | src/kumagai/totalsha1/TotalSha1Task.java:140-191 | picking the root lines out of two logs in a row picks them out of each |
| TaskReport.WalkLinesHaveNoRootLines | src/kumagai/totalsha1/TotalSha1Task.java:213-386 | what a recursive call prints holds no summary and no "not found" line |
| TaskReport.ClosingLinesAppend | src/kumagai/totalsha1/TotalSha1Task.java:140-191 | one root line per root is kept when a root and its line are appended |
| TaskReport.RootLine | src/kumagai/totalsha1/TotalSha1Task.java:142-190 | definition of a root's closing line: "not found" when the root cannot be listed, otherwise the summary line from its walk; `RootLineSummary` proves what it holds |
| TaskReport.RootReport | src/kumagai/totalsha1/TotalSha1Task.java:142-190 | definition of one root's output: its walk's lines, when listable, then its closing line |
| TaskReport.Report | src/kumagai/totalsha1/TotalSha1Task.java:140-191 | definition of the whole output: each configured root's output, in configuration order |
| TotalSha1.MessageDigest.Update | src/kumagai/totalsha1/TotalSha1Task.java:306 | the digest's input grows by exactly the buffer |
| TotalSha1.Output.Println | src/kumagai/totalsha1/TotalSha1Task.java:189 | the output grows by exactly one line |
| TotalSha1.CountJavaFiles | src/kumagai/totalsha1/TotalSha1Task.java:219-235 | the first listing pass counts the Java sources other than the marker, which are at most the number of plain files |
| TotalSha1.Partition | src/kumagai/totalsha1/TotalSha1Task.java:248-266 | the second pass splits the listing into its files and its directories, each in listing order, losing no entry |
| TotalSha1.IsBaseline | src/kumagai/totalsha1/TotalSha1Task.java:237-246 | the flag starts true exactly when there is no Java source, or the path lacks `src\`, or contains `junit` or `test` |
| TotalSha1.TotalSha1Task.constructor | src/kumagai/totalsha1/TotalSha1Task.java:16-21 | a new task has no settings and no roots |
| TotalSha1.TotalSha1Task.Execute | src/kumagai/totalsha1/TotalSha1Task.java:140-191 | the output grows by `Report` of the configured roots under the task's settings |
| TotalSha1.TotalSha1Task.ExecuteRoot | src/kumagai/totalsha1/TotalSha1Task.java:142-190 | one root appends its "not found" line, or its walk's lines and then its summary line computed with a fresh digest |
| TotalSha1.TotalSha1Task.ExecuteRecursive | src/kumagai/totalsha1/TotalSha1Task.java:213-386 | returns `Walk`'s count, time and flag, feeds exactly `Walk`'s bytes to the shared digest and appends exactly `Walk`'s lines |
| TotalSha1.TotalSha1Task.VisitFiles | src/kumagai/totalsha1/TotalSha1Task.java:268-339 | the file loop counts, times, feeds and prints exactly the included files, and its flag is the baseline or a marker beside a Java source |
| TotalSha1.TotalSha1Task.VisitFile | src/kumagai/totalsha1/TotalSha1Task.java:270-338 | one file: the marker test comes first; an excluded file changes nothing else; an included one adds one to the count, raises the time, feeds its bytes and prints its line when asked |
| TotalSha1.TotalSha1Task.PrintFileDigest | src/kumagai/totalsha1/TotalSha1Task.java:321-336 | prints the hash of the file's own bytes, from a digest object of its own, and the file's name |
| TotalSha1.TotalSha1Task.VisitDirectories | src/kumagai/totalsha1/TotalSha1Task.java:341-378 | after the subdirectory loop the record is the files' record folded with every non-excluded subdirectory, and digest and output grew by their bytes and lines |
| TotalSha1.TotalSha1Task.VisitDirectory | src/kumagai/totalsha1/TotalSha1Task.java:343-377 | one round of the subdirectory loop moves the fold from `j` to `j + 1` |
| TotalSha1.FoldedStep | src/kumagai/totalsha1/TotalSha1Task.java:365-376 | adding a walked subdirectory's count, time, flag, bytes and lines keeps the loop's fold invariant |

## Left out

- The SHA-1 algorithm is a parameter of the task object (`sha1`). The model states which bytes are hashed, not how.
- File system access (`listFiles`, `isDirectory`, `FileInputStream.read`, `length`, `lastModified`) is not modelled. The tree, the file bytes and the times are inputs. The model takes the two listings of one directory to agree and every read to return the whole file.
- A subdirectory's path (`file.getPath()`, the parent path, a separator and the name) is part of the input tree. The model does not build it from its parent's path and name.
- Exceptions are not modelled: a failure inside a root's walk, its stack trace, and what that root has already printed.
- Output handling is not modelled: the choice between a file and standard output, the "out" confirmation message, `close`, the `printf` widths, and the tab and space layout of a digest line.
- The timestamp text of a summary line (`DateTime.toFullString().substring(2, 16)`, from a library that is not part of this model) is not modelled. The summary line carries the raw time instead.
- `DirectoryStatistics` is a datatype updated one field at a time (`next.(count := ...)`), not a shared Java object. No statistics object is ever aliased in the source, so nothing observable is lost.
- The getters and setters of the task, the `Path` bean (only getters and setters) and the Ant `Task` base class with `super.execute()` are not modelled. A root is a `TaskReport.RootPath` holding its path, its name and its listing, or `None` when `list()` returns `null`.
- TotalSha1.CountJavaFiles: does not model the 32-bit `int` overflow of `javaCount`, because a listing would need more than 2^31 entries.
- TotalSha1.TotalSha1Task.ExecuteRecursive: does not model the 32-bit `int` overflow of `count`, because that needs more than 2^31 included files.
- TotalSha1.TotalSha1Task.VisitFile: does not model the `(int)file.length()` buffer size at TotalSha1Task.java:301-302. For a file of 2^31 bytes or more the cast truncates, so the source hashes only a prefix of the file or aborts the root with `NegativeArraySizeException`. The model always feeds the whole content.
- Java bytes are signed. `%02X` on a `Byte` prints the unsigned value, so the model uses bytes 0 to 255 throughout.
