# enforcer-checkfiles-rules in Dafny

This project models the two Maven enforcer rules of the repository:

- **`RequireFilesContent`** checks that every declared file is a regular file
  with at least one line containing the configured text.
- **`RequireGlobMatches`** checks that, for every declared glob, some file
  reached by walking the configured location has a relative path the glob
  accepts.

Both rules run the same pipeline:

1. Validate the configuration.
2. Check every declared item in order.
3. Append one report line per failing item. An earlier failure never stops
   the later checks.
4. Throw a single `EnforcerRuleException` when the report is not empty.

The project has three modules:

- `Outcomes` (`outcomes.dfy`). It holds the nested `Result` class as
  `CheckResult` (both rules declare identical copies of it, so it is defined
  once) and the exceptions that can leave `execute`. It also holds the
  `StringBuilder` report as a concatenation of per-item lines, and the final
  pass-or-throw step.
- `FilesContent` (`files_content.dfy`). It holds `checkFile` as the method
  `CheckFile`, which drives a `LineReader` object standing for the
  `BufferedReader`: a read position that advances and a `closed` flag set by
  the `finally` block. It also holds `execute` as the method `Execute`, whose
  loop appends to the report.
- `GlobMatches` (`glob_matches.dfy`). It holds `checkGlobMatchInPath` as a loop
  over the walk's callbacks, with the `AtomicBoolean ret` as a local that stops
  the loop. It also holds `execute` as a loop over the globs, and
  `getCacheId`.

Every method is proved equal to a specification function: `CheckFileSpec`,
`ExecuteSpec`, `CheckGlobSpec`. The lemmas then state what the rules promise
about those functions.

The I/O outside the rules becomes parameters:

- The file system is a map from path to entry. An entry is a regular file
  whose contents either fail to open or yield given lines (optionally followed
  by a read error, optionally with a failing `close`), or it is not a regular
  file. A path missing from the map is not a file.
- `File.getAbsolutePath` is a function parameter.
- The glob matcher is an uninterpreted pair: whether a glob compiles, and
  whether the compiled matcher accepts a relative path.
- `Path.relativize` is a function parameter.
- `Files.walkFileTree` from a root is a finite sequence of callbacks
  (`visitFile` or `visitFileFailed`), plus whether the walk throws an
  `IOException` after them.
- `line.separator` is a string parameter.
- `getMessage()` is an optional string.

Java exceptions are values of `Outcomes.Exception`:

- `NullPointer` is a `NullPointerException`, with the message the rule gives it when it has one.
- `RuleFailure` is an `EnforcerRuleException`.
- `PatternSyntax` is the `PatternSyntaxException` of a glob that does not
  compile.

`checkNotNull` and `checkArgument` are folded into each rule's `Validate`,
whose result says which of them throws first.

A null entry is handled as the code does it, which differs from the shipped
documentation. With `allowNulls` false, `checkFile` fails on the null entry and
`execute` then dereferences it to build the report line. So the run ends in a
`NullPointerException` and the documented message is never reported.
`FilesContent.ExecuteSpec` and `FilesContent.Execute` model this behaviour.
`FilesContent.CorrectedExecuteSpec` models the evidently intended behaviour
(see "## Findings").

A null glob takes part in Java string concatenation, so it is compiled and
reported as the text `null`. The `Result` class is a success flag plus a
message, as in the code. Its invariant ("the message is empty exactly when the
check succeeded") is stated as `Consistent` and proved for every result the
rules build.

## Model

| member | source | states |
|---|---|---|
| Outcomes.Success | src/main/java/org/apache/maven/plugins/enforcer/RequireFilesContent.java:126-128 | a successful result with an empty message, which satisfies the Result invariant (RequireGlobMatches.java:131-133 is the same) |
| Outcomes.Fail | src/main/java/org/apache/maven/plugins/enforcer/RequireFilesContent.java:135-137 | an unsuccessful result carrying exactly the given message; the Result invariant holds iff that message is non-empty (RequireGlobMatches.java:140-142 is the same) |
| Outcomes.Conclude | src/main/java/org/apache/maven/plugins/enforcer/RequireFilesContent.java:48-52 | passes iff the report is empty; otherwise throws an EnforcerRuleException whose text starts with the report and continues with getMessage() when non-null, else the default sentence (RequireGlobMatches.java:50-54 is the same) |
| FilesContent.FirstMatch | src/main/java/org/apache/maven/plugins/enforcer/RequireFilesContent.java:81-85 | the index where the scan returns: no earlier line contains the text, and the line there does, unless it is the end of the file |
| FilesContent.ScanResult | src/main/java/org/apache/maven/plugins/enforcer/RequireFilesContent.java:80-92 | the result of scanning an opened file satisfies the Result invariant |
| FilesContent.CheckFileSpec | src/main/java/org/apache/maven/plugins/enforcer/RequireFilesContent.java:67-105 | every result checkFile can return satisfies the Result invariant |
| FilesContent.LineReader.Open | src/main/java/org/apache/maven/plugins/enforcer/RequireFilesContent.java:79 | a fresh reader at the start of the file, open |
| FilesContent.LineReader.ReadLine | src/main/java/org/apache/maven/plugins/enforcer/RequireFilesContent.java:81 | returns the next line and advances; at the end returns null (end of stream) or throws an IOException, without moving |
| FilesContent.LineReader.Close | src/main/java/org/apache/maven/plugins/enforcer/RequireFilesContent.java:94-99 | the reader is closed afterwards and keeps its invariant, and whether close threw is reported |
| FilesContent.CheckFile | src/main/java/org/apache/maven/plugins/enforcer/RequireFilesContent.java:67-105 | returns CheckFileSpec; a reader is opened exactly for a regular file that opens, is closed on every path, and has read exactly up to the first matching line (all lines when none matches) |
| FilesContent.Validate | src/main/java/org/apache/maven/plugins/enforcer/RequireFilesContent.java:33-35 | no configuration error exactly when files and content are non-null and files is non-empty; the errors are checked in the source's order |
| FilesContent.Execute | src/main/java/org/apache/maven/plugins/enforcer/RequireFilesContent.java:32-53 | returns ExecuteSpec: a configuration error, else a NullPointerException when a disallowed null entry is present, else pass-or-throw on the report of all entries in order |
| FilesContent.ReportAppend | src/main/java/org/apache/maven/plugins/enforcer/RequireFilesContent.java:40-46 | each entry is reported on its own: the report of a concatenation of entry lists is the concatenation of their reports |
| FilesContent.ReportOfOne | src/main/java/org/apache/maven/plugins/enforcer/RequireFilesContent.java:42-45 | a single entry contributes nothing when it passes, else `<absolutePath> : <message><newLine>` |
| FilesContent.ReportEmptyIff | src/main/java/org/apache/maven/plugins/enforcer/RequireFilesContent.java:40-48 | the report is empty iff every entry's check succeeds |
| FilesContent.ExecuteFailsIff | src/main/java/org/apache/maven/plugins/enforcer/RequireFilesContent.java:48-52 | for a valid configuration without a disallowed null, execute passes iff every file passes, and otherwise throws the report followed by the custom or default message |
| FilesContent.NullEntryTolerated | src/main/java/org/apache/maven/plugins/enforcer/RequireFilesContent.java:68-70 | with allowNulls, inserting a null entry anywhere leaves the report unchanged |
| FilesContent.ValidationPrecedesChecks | src/main/java/org/apache/maven/plugins/enforcer/RequireFilesContent.java:33-35 | a configuration error is thrown whatever the file system holds |
| FilesContent.ScanSucceedsIff | src/main/java/org/apache/maven/plugins/enforcer/RequireFilesContent.java:80-92 | an opened file passes iff some line contains the text; otherwise the message is the read-error message when reading failed, else `Doesn't contain: "<content>"` |
| FilesContent.MatchHidesLaterLines | src/main/java/org/apache/maven/plugins/enforcer/RequireFilesContent.java:81-84 | once a line matches, the following lines and a later read error cannot change the success |
| FilesContent.CloseFailureIgnored | src/main/java/org/apache/maven/plugins/enforcer/RequireFilesContent.java:93-100 | a failing close never changes the result of checkFile |
| FilesContent.NullEntryAborts | src/main/java/org/apache/maven/plugins/enforcer/RequireFilesContent.java:40-46 | a single null entry with allowNulls false ends the run in a NullPointerException, not in the documented failure |
| FilesContent.CorrectedReportsNullEntry | src/main/java/org/apache/maven/plugins/enforcer/RequireFilesContent.java:68-74 | in the corrected rule, a disallowed null entry anywhere in the list makes the run throw an EnforcerRuleException whose text contains `null : Empty file name was given and allowNulls is set to false<newLine>` |
| FilesContent.ContentFoundScenario | src/main/java/org/apache/maven/plugins/enforcer/RequireFilesContent.java:76-85 | a file with lines "hello" and "world" passes a search for "wor" |
| FilesContent.ContentMissingScenario | src/main/java/org/apache/maven/plugins/enforcer/RequireFilesContent.java:87 | the same file fails a search for "xyz", and the exception text is its one report line followed by the default sentence |
| GlobMatches.FirstAccepted | src/main/java/org/apache/maven/plugins/enforcer/RequireGlobMatches.java:84-99 | the index of the callback that terminates the walk: no earlier callback is a visited file the matcher accepts, and the one there is, unless it is the end of the walk |
| GlobMatches.WalkResult | src/main/java/org/apache/maven/plugins/enforcer/RequireGlobMatches.java:101-109 | the result of a walk satisfies the Result invariant |
| GlobMatches.CheckGlobSpec | src/main/java/org/apache/maven/plugins/enforcer/RequireGlobMatches.java:76-110 | every result checkGlobMatchInPath returns satisfies the Result invariant |
| GlobMatches.CheckGlobMatchInPath | src/main/java/org/apache/maven/plugins/enforcer/RequireGlobMatches.java:76-110 | returns CheckGlobSpec: PatternSyntaxException for a glob that does not compile, NullPointerException for a null location, else the walk's result; the walk makes exactly the callbacks up to the first accepted file |
| GlobMatches.Validate | src/main/java/org/apache/maven/plugins/enforcer/RequireGlobMatches.java:36-37 | no configuration error exactly when globs is non-null and non-empty; the location is not checked |
| GlobMatches.Execute | src/main/java/org/apache/maven/plugins/enforcer/RequireGlobMatches.java:34-55 | returns ExecuteSpec: a configuration error, else the first exception a glob check throws, else pass-or-throw on the report of all globs in order |
| GlobMatches.CacheId | src/main/java/org/apache/maven/plugins/enforcer/RequireGlobMatches.java:153-156 | the cache id is "0" for every configuration |
| GlobMatches.RaisedStep | src/main/java/org/apache/maven/plugins/enforcer/RequireGlobMatches.java:42-43 | when no earlier glob threw, checking one more glob raises exactly that glob's exception, if any |
| GlobMatches.ReportAppend | src/main/java/org/apache/maven/plugins/enforcer/RequireGlobMatches.java:42-48 | every glob is reported on its own: the report of a concatenation of glob lists is the concatenation of their reports |
| GlobMatches.FirstRaisedAppend | src/main/java/org/apache/maven/plugins/enforcer/RequireGlobMatches.java:42-43 | once a glob has thrown, later globs cannot change the exception |
| GlobMatches.FirstRaisedAt | src/main/java/org/apache/maven/plugins/enforcer/RequireGlobMatches.java:42-43 | the exception of the first glob that throws is the run's exception |
| GlobMatches.FirstRaisedNoneIff | src/main/java/org/apache/maven/plugins/enforcer/RequireGlobMatches.java:42-43 | no exception is raised iff every glob's check returns |
| GlobMatches.ReportEmptyIff | src/main/java/org/apache/maven/plugins/enforcer/RequireGlobMatches.java:42-50 | the report is empty iff no glob's check returns a failure, because every failure message is non-empty |
| GlobMatches.ExecuteFailsIff | src/main/java/org/apache/maven/plugins/enforcer/RequireGlobMatches.java:50-54 | when every glob's check returns, execute passes iff every glob found a match, and otherwise throws the report followed by the custom or default message |
| GlobMatches.NullLocationAborts | src/main/java/org/apache/maven/plugins/enforcer/RequireGlobMatches.java:82 | a valid configuration with a null location whose first glob compiles ends the run in a NullPointerException |
| GlobMatches.ValidationPrecedesChecks | src/main/java/org/apache/maven/plugins/enforcer/RequireGlobMatches.java:36-37 | a configuration error is thrown whatever the platform does |
| GlobMatches.WalkSucceedsIff | src/main/java/org/apache/maven/plugins/enforcer/RequireGlobMatches.java:85-108 | a glob passes iff some visited file's relativized path is accepted; otherwise the message is the IO-error message when the walk threw, else the no-match message |
| GlobMatches.FailedVisitSkipped | src/main/java/org/apache/maven/plugins/enforcer/RequireGlobMatches.java:95-99 | a callback for an entry that could not be read can be removed from the walk without changing the result |
| GlobMatches.MatchEndsWalk | src/main/java/org/apache/maven/plugins/enforcer/RequireGlobMatches.java:88-91 | once a file is accepted the glob passes, whatever follows it in the walk, a walk error included |
| GlobMatches.WalkErrorDistinguished | src/main/java/org/apache/maven/plugins/enforcer/RequireGlobMatches.java:101-108 | a walk error and a walk without match are reported with different messages |

## Left out

- Real file-system access (`File.isFile`, `FileReader`, `BufferedReader`, `Files.walkFileTree`, `Path.relativize`, `File.getAbsolutePath`): these are parameters (a map, line sequences, callback sequences, functions). The model does not tie a walk to the file-system map.
- The glob grammar of `PathMatcher` (`*`, `**`, `?`, braces): it belongs to the platform, so it is an uninterpreted "compiles" test and an uninterpreted "accepts" relation.
- Logging through `getLog()` (RequireFilesContent.java lines 91 and 98, and RequireGlobMatches.java line 87): it has no effect on any outcome.
- `System.getProperty("line.separator")` and `getMessage()`: they come from the JVM and the Maven base class, so they are inputs.
- `allowNulls` of `RequireGlobMatches`: the rule declares it but never reads it, so it has no effect.
- `NullPointer(None)` stands for a `NullPointerException` the JVM raises by itself (`file.getAbsolutePath()` at RequireFilesContent.java line 43, `location.toPath()` at RequireGlobMatches.java line 82), whatever text the JVM attaches to it: the generated detail message of helpful NullPointerExceptions (on by default from JDK 15) is not modelled.
- Unchecked exceptions the platform may raise beyond those modelled (for example a `SecurityException` or an `IOError` during the walk, or an exception thrown by the visitor itself): the code gives them no handling, and modelling them would add nothing beyond "the exception propagates".
- A read error in the middle of a file is modelled as the lines delivered before it followed by the failure, because `checkFile` treats both the same way.
- The Maven rule lifecycle, configuration injection and result caching by the host.
- `FilesContent.CorrectedExecuteSpec`: the report label of a null entry is taken to be `null`, since the code evidently meant to report the entry but writes no label for it.

## Findings

| source | as written | input that shows it | evidently intended | confidence | as-written member | corrected member |
|---|---|---|---|---|---|---|
| src/main/java/org/apache/maven/plugins/enforcer/RequireFilesContent.java:43 | the report line calls `getAbsolutePath()` on the failing entry, which is null when `checkFile` failed at line 72 | `files = [null]`, `allowNulls = false`, `content = "x"` | the entry is reported with "Empty file name was given and allowNulls is set to false" and the run throws an `EnforcerRuleException` | not executed | FilesContent.NullEntryAborts | FilesContent.CorrectedReportsNullEntry |
