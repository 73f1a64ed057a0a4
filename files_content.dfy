/** The `RequireFilesContent` rule: every declared file must be a regular file
    with at least one line that contains the configured text. The rule checks
    every file, collects one report line per failing file and throws once at
    the end if the report is not empty. */
module FilesContent {
  import opened Outcomes

  /** `String.contains`: `sub` occurs in `s` as a contiguous span. */
  predicate Contains(s: string, sub: string) {
    exists k :: 0 <= k <= |s| - |sub| && sub <= s[k..]
  }

  /** What opening a regular file with `FileReader` and reading it line by line
      with `BufferedReader` yields. */
  datatype Contents =
      /** The `FileReader` constructor throws `FileNotFoundException`: the file
          vanished after the `isFile` test, or cannot be opened for reading. */
    | Unopenable
      /** `readLine` delivers `lines` in order; after the last one it returns
          null, or throws `IOException` when `failsAtEnd` holds (a read error
          after those lines). `closeFails` says whether `close` throws. */
    | Readable(lines: seq<string>, failsAtEnd: bool, closeFails: bool)

  /** What `File.isFile` sees at a path. */
  datatype Entry = RegularFile(contents: Contents) | NotRegular

  /** A path that is not in the map does not exist, so `isFile` is false for it. */
  type FileSystem = map<Path, Entry>

  /** The platform around the rule: the file system, the `line.separator`
      property and `File.getAbsolutePath`. */
  datatype Host = Host(fs: FileSystem, newLine: string, absolutePath: Path -> string)

  /** The rule's configuration; `message` is what `getMessage()` returns. */
  datatype Rule = Rule(
    content: Option<string>,
    files: Option<seq<Option<Path>>>,
    allowNulls: bool,
    message: Option<string>)

  const NullNotAllowed: string := "Empty file name was given and allowNulls is set to false"
  const NotAFile: string := "Not a file"
  const FileMissing: string := "File doesn't exist"
  const ReadFailed: string := "IOException was thrown, please check the log."

  /** `String.format("Doesn't contain: \"%s\"", content)`. */
  function DoesNotContain(content: string): string {
    "Doesn't contain: \"" + content + "\""
  }

  /** Index of the first line containing `content`, or `|lines|` when none does. */
  function FirstMatch(lines: seq<string>, content: string): (k: nat)
    ensures k <= |lines|
    ensures forall j :: 0 <= j < k ==> !Contains(lines[j], content)
    ensures k < |lines| ==> Contains(lines[k], content)
  {
    if lines == [] then 0
    else if Contains(lines[0], content) then 0
    else 1 + FirstMatch(lines[1..], content)
  }

  /** How many lines `checkFile` reads: up to and including the first match,
      and all of them when no line matches. */
  function LinesRead(lines: seq<string>, content: string): nat {
    var k := FirstMatch(lines, content);
    if k < |lines| then k + 1 else |lines|
  }

  /** The result of scanning an opened file for `content`. */
  function ScanResult(lines: seq<string>, failsAtEnd: bool, content: string): (r: CheckResult)
    ensures Consistent(r)
  {
    if FirstMatch(lines, content) < |lines| then Success()
    else if failsAtEnd then Fail(ReadFailed)
    else Fail(DoesNotContain(content))
  }

  /** What `checkFile` returns for one declared entry (`None` is a null entry). */
  function CheckFileSpec(file: Option<Path>, content: string, allowNulls: bool, fs: FileSystem): (r: CheckResult)
    ensures Consistent(r)
  {
    match file
    case None => if allowNulls then Success() else Fail(NullNotAllowed)
    case Some(p) =>
      if p !in fs || fs[p].NotRegular? then Fail(NotAFile)
      else match fs[p].contents
        case Unopenable => Fail(FileMissing)
        case Readable(lines, failsAtEnd, _) => ScanResult(lines, failsAtEnd, content)
  }

  /** True when `checkFile` gets as far as opening a reader on the entry. */
  predicate Opened(file: Option<Path>, fs: FileSystem) {
    file.Some? && file.value in fs && fs[file.value].RegularFile? && fs[file.value].contents.Readable?
  }

  /** A `BufferedReader` over a regular file: where it is in the file and
      whether it has been closed. */
  class LineReader {
    const lines: seq<string>
    const failsAtEnd: bool
    const closeFails: bool
    var position: nat
    var closed: bool

    ghost predicate Valid()
      reads this
    {
      position <= |lines|
    }

    /** `new BufferedReader(new FileReader(file))` on a file that opens. */
    constructor Open(lines: seq<string>, failsAtEnd: bool, closeFails: bool)
      ensures Valid()
      ensures this.lines == lines && this.failsAtEnd == failsAtEnd && this.closeFails == closeFails
      ensures position == 0 && !closed
    {
      this.lines := lines;
      this.failsAtEnd := failsAtEnd;
      this.closeFails := closeFails;
      position := 0;
      closed := false;
    }

    /** `readLine`: the next line, or end of stream (null), or an `IOException`. */
    method ReadLine() returns (r: ReadOutcome)
      requires Valid() && !closed
      modifies this`position
      ensures Valid()
      ensures old(position) < |lines| ==> r == Line(lines[old(position)]) && position == old(position) + 1
      ensures old(position) == |lines| ==>
        position == old(position) && r == (if failsAtEnd then ReadError else EndOfStream)
    {
      if position < |lines| {
        r := Line(lines[position]);
        position := position + 1;
      } else if failsAtEnd {
        r := ReadError;
      } else {
        r := EndOfStream;
      }
    }

    /** `close`: the reader is closed afterwards; `failed` says whether it threw. */
    method Close() returns (failed: bool)
      requires Valid()
      modifies this`closed
      ensures Valid()
      ensures closed && failed == closeFails
    {
      closed := true;
      failed := closeFails;
    }
  }

  datatype ReadOutcome = Line(text: string) | EndOfStream | ReadError

  /** `checkFile`: the null policy, the `isFile` test, then a line scan that
      returns at the first matching line; the reader is closed on every path
      that opened it, and a failing close does not change the result. */
  method CheckFile(file: Option<Path>, content: string, allowNulls: bool, fs: FileSystem)
    returns (r: CheckResult, ghost reader: LineReader?)
    ensures r == CheckFileSpec(file, content, allowNulls, fs)
    ensures reader != null <==> Opened(file, fs)
    ensures reader != null ==> reader.closed && reader.lines == fs[file.value].contents.lines
    ensures reader != null ==> reader.position == LinesRead(reader.lines, content)
  {
    reader := null;
    if file.None? {
      if allowNulls {
        return Success(), null;
      } else {
        return Fail(NullNotAllowed), null;
      }
    }
    var path := file.value;
    if !(path in fs && fs[path].RegularFile?) {
      return Fail(NotAFile), null;
    }
    var contents := fs[path].contents;
    if contents.Unopenable? {
      return Fail(FileMissing), null;
    }
    var lines, failsAtEnd := contents.lines, contents.failsAtEnd;
    var rd := new LineReader.Open(lines, failsAtEnd, contents.closeFails);
    reader := rd;
    r := Fail(DoesNotContain(content));  // what is returned when the file ends without a match
    var done := false;
    while !done
      invariant rd.Valid() && !rd.closed
      invariant rd.lines == lines && rd.failsAtEnd == failsAtEnd
      invariant !done ==> forall j :: 0 <= j < rd.position ==> !Contains(lines[j], content)
      invariant !done ==> r == Fail(DoesNotContain(content))
      invariant done ==> r == ScanResult(lines, failsAtEnd, content)
      invariant done ==> rd.position == LinesRead(lines, content)
      decreases if done then 0 else |lines| - rd.position + 1
    {
      var line := rd.ReadLine();
      match line
      case Line(text) =>
        if Contains(text, content) {
          assert Contains(lines[rd.position - 1], content);
          r := Success();
          done := true;
        }
      case EndOfStream =>
        done := true;
      case ReadError =>
        r := Fail(ReadFailed);
        done := true;
    }
    // the `finally` block: a close failure is only logged
    var _ := rd.Close();
  }

  /** The name `execute` writes for an entry; a null entry never reaches it in
      the rule as written, and `CorrectedExecuteSpec` writes "null". */
  function Label(file: Option<Path>, absolutePath: Path -> string): string {
    if file.Some? then absolutePath(file.value) else "null"
  }

  /** The report text one entry contributes: nothing when it passes, else
      `<absolutePath> : <message><newLine>`. */
  function EntryLine(file: Option<Path>, content: string, allowNulls: bool, host: Host): string {
    var r := CheckFileSpec(file, content, allowNulls, host.fs);
    if r.successful then "" else Label(file, host.absolutePath) + " : " + r.errorMessage + host.newLine
  }

  /** `EntryLine` for one configuration, as a function of the entry. */
  function LineOf(content: string, allowNulls: bool, host: Host): Option<Path> -> string {
    file => EntryLine(file, content, allowNulls, host)
  }

  /** The report: every entry's line, appended in declaration order. */
  function Report(files: seq<Option<Path>>, content: string, allowNulls: bool, host: Host): string {
    Collect(files, LineOf(content, allowNulls, host))
  }

  /** The configuration checks of `execute`, in their order, before any file is looked at. */
  function Validate(rule: Rule): (e: Option<Exception>)
    ensures e.None? <==> rule.files.Some? && rule.content.Some? && |rule.files.value| > 0
  {
    if rule.files.None? then Some(NullPointer(Some("file is mandatory")))
    else if rule.content.None? then Some(NullPointer(Some("content is mandatory")))
    else if |rule.files.value| == 0 then Some(RuleFailure("at least 1 file must be specified"))
    else None
  }

  /** What `execute` does, as written: a failing null entry makes line 43
      dereference null, so the run ends in a `NullPointerException`. */
  function ExecuteSpec(rule: Rule, host: Host): Outcome {
    var e := Validate(rule);
    if e.Some? then Threw(e.value)
    else if !rule.allowNulls && None in rule.files.value then Threw(NullPointer(None))
    else Conclude(Report(rule.files.value, rule.content.value, rule.allowNulls, host), rule.message)
  }

  /** `execute`: validate, check every file in order, append one line per
      failing file, then throw once if anything was appended. */
  method Execute(rule: Rule, host: Host) returns (o: Outcome)
    ensures o == ExecuteSpec(rule, host)
  {
    if rule.files.None? {
      return Threw(NullPointer(Some("file is mandatory")));
    }
    if rule.content.None? {
      return Threw(NullPointer(Some("content is mandatory")));
    }
    var files := rule.files.value;
    if |files| == 0 {
      return Threw(RuleFailure("at least 1 file must be specified"));
    }
    var content := rule.content.value;
    var sb := "";
    var i := 0;
    while i < |files|
      invariant 0 <= i <= |files|
      invariant sb == Report(files[..i], content, rule.allowNulls, host)
      invariant rule.allowNulls || None !in files[..i]
    {
      var file := files[i];
      ghost var reader;
      var result;
      result, reader := CheckFile(file, content, rule.allowNulls, host.fs);
      CollectStep(files, i, LineOf(content, rule.allowNulls, host));
      if !result.successful {
        if file.None? {
          // file.getAbsolutePath() on the null entry
          assert files[i] in files;
          return Threw(NullPointer(None));
        }
        var entry := host.absolutePath(file.value) + " : " + result.errorMessage + host.newLine;
        assert entry == EntryLine(file, content, rule.allowNulls, host);
        sb := sb + entry;
      } else {
        assert EntryLine(file, content, rule.allowNulls, host) == "";
        assert sb + "" == sb;
      }
      i := i + 1;
    }
    assert files[..i] == files;
    assert sb == Report(files, content, rule.allowNulls, host);
    o := Conclude(sb, rule.message);
  }

  // ----- Properties of the report and of the run -----

  /** Each entry is checked on its own: the report of a concatenation is the
      concatenation of the reports, so no failure stops later entries. */
  lemma ReportAppend(a: seq<Option<Path>>, b: seq<Option<Path>>, content: string, allowNulls: bool, host: Host)
    ensures Report(a + b, content, allowNulls, host)
         == Report(a, content, allowNulls, host) + Report(b, content, allowNulls, host)
  {
    CollectAppend(a, b, LineOf(content, allowNulls, host));
  }

  /** A one-entry report is that entry's line. */
  lemma ReportOfOne(file: Option<Path>, content: string, allowNulls: bool, host: Host)
    ensures Report([file], content, allowNulls, host) == EntryLine(file, content, allowNulls, host)
  {
    CollectOne(file, LineOf(content, allowNulls, host));
  }

  /** The report is empty exactly when every entry passes. */
  lemma ReportEmptyIff(files: seq<Option<Path>>, content: string, allowNulls: bool, host: Host)
    ensures Report(files, content, allowNulls, host) == ""
        <==> forall i :: 0 <= i < |files| ==> CheckFileSpec(files[i], content, allowNulls, host.fs).successful
  {
    var line := LineOf(content, allowNulls, host);
    CollectEmptyIff(files, line);
    forall i | 0 <= i < |files|
      ensures line(files[i]) == "" <==> CheckFileSpec(files[i], content, allowNulls, host.fs).successful
    {
      var r := CheckFileSpec(files[i], content, allowNulls, host.fs);
      if !r.successful {
        assert |line(files[i])| >= |" : "|;
      }
    }
  }

  /** `execute` throws an `EnforcerRuleException` for the checks exactly when
      some file fails, with the report followed by the custom or default
      message; otherwise it returns normally. */
  lemma ExecuteFailsIff(rule: Rule, host: Host)
    requires Validate(rule).None?
    requires rule.allowNulls || None !in rule.files.value
    ensures ExecuteSpec(rule, host).Passed?
        <==> forall i :: 0 <= i < |rule.files.value| ==>
               CheckFileSpec(rule.files.value[i], rule.content.value, rule.allowNulls, host.fs).successful
    ensures ExecuteSpec(rule, host).Threw? ==>
      ExecuteSpec(rule, host).exception
        == RuleFailure(Report(rule.files.value, rule.content.value, rule.allowNulls, host) + Trailer(rule.message))
  {
    ReportEmptyIff(rule.files.value, rule.content.value, rule.allowNulls, host);
  }

  /** With `allowNulls`, a null entry adds nothing to the report. */
  lemma NullEntryTolerated(a: seq<Option<Path>>, b: seq<Option<Path>>, content: string, host: Host)
    ensures Report(a + [None] + b, content, true, host) == Report(a + b, content, true, host)
  {
    ReportAppend(a + [None], b, content, true, host);
    ReportAppend(a, [None], content, true, host);
    ReportOfOne(None, content, true, host);
    assert Report([None], content, true, host) == "";
    assert Report(a + [None], content, true, host) == Report(a, content, true, host);
    ReportAppend(a, b, content, true, host);
  }

  /** Configuration errors are raised before any file is looked at: the
      outcome then does not depend on the file system. */
  lemma ValidationPrecedesChecks(rule: Rule, host1: Host, host2: Host)
    requires Validate(rule).Some?
    ensures ExecuteSpec(rule, host1) == ExecuteSpec(rule, host2) == Threw(Validate(rule).value)
  {
  }

  /** A regular file passes exactly when some line contains the text;
      otherwise the message says whether reading failed. */
  lemma ScanSucceedsIff(lines: seq<string>, failsAtEnd: bool, content: string)
    ensures ScanResult(lines, failsAtEnd, content).successful
        <==> exists i :: 0 <= i < |lines| && Contains(lines[i], content)
    ensures !ScanResult(lines, failsAtEnd, content).successful ==>
      ScanResult(lines, failsAtEnd, content).errorMessage
        == if failsAtEnd then ReadFailed else DoesNotContain(content)
  {
  }

  /** Scanning stops at the first matching line: what follows it (more lines,
      a later read error) cannot change the result. */
  lemma MatchHidesLaterLines(before: seq<string>, line: string, after: seq<string>, failsAtEnd: bool, content: string)
    requires Contains(line, content)
    ensures ScanResult(before + [line] + after, failsAtEnd, content) == Success()
  {
    assert (before + [line] + after)[|before|] == line;
  }

  /** A failing `close` never changes what `checkFile` returns. */
  lemma CloseFailureIgnored(p: Path, lines: seq<string>, failsAtEnd: bool, content: string, allowNulls: bool, fs: FileSystem)
    ensures CheckFileSpec(Some(p), content, allowNulls, fs[p := RegularFile(Readable(lines, failsAtEnd, true))])
         == CheckFileSpec(Some(p), content, allowNulls, fs[p := RegularFile(Readable(lines, failsAtEnd, false))])
  {
  }

  // ----- The null-entry defect and its correction -----

  /** A configuration with a single null entry and `allowNulls` false: the
      documented message is never reported, the run aborts instead. */
  lemma NullEntryAborts(host: Host)
    ensures ExecuteSpec(Rule(Some("x"), Some([None]), false, None), host) == Threw(NullPointer(None))
  {
  }

  /** What `execute` evidently intends: every failing entry, a null one
      included, gets its line in the report. */
  function CorrectedExecuteSpec(rule: Rule, host: Host): Outcome {
    var e := Validate(rule);
    if e.Some? then Threw(e.value)
    else Conclude(Report(rule.files.value, rule.content.value, rule.allowNulls, host), rule.message)
  }

  /** In the corrected rule a disallowed null entry ends the run with an
      `EnforcerRuleException` whose text carries the documented message. */
  lemma CorrectedReportsNullEntry(a: seq<Option<Path>>, b: seq<Option<Path>>, content: string, custom: Option<string>, host: Host)
    ensures CorrectedExecuteSpec(Rule(Some(content), Some(a + [None] + b), false, custom), host).Threw?
    ensures
      var o := CorrectedExecuteSpec(Rule(Some(content), Some(a + [None] + b), false, custom), host);
      o.exception.RuleFailure?
      && Contains(o.exception.message, Label(None, host.absolutePath) + " : " + NullNotAllowed + host.newLine)
  {
    var line := EntryLine(None, content, false, host);
    assert line == Label(None, host.absolutePath) + " : " + NullNotAllowed + host.newLine;
    ReportAppend(a + [None], b, content, false, host);
    ReportAppend(a, [None], content, false, host);
    ReportOfOne(None, content, false, host);
    var ra := Report(a, content, false, host);
    var rb := Report(b, content, false, host);
    assert Report(a + [None] + b, content, false, host) == ra + line + rb;
    ContainsSecond(ra, line, rb, Trailer(custom));
  }

  /** A string contains its second part. */
  lemma ContainsSecond(w: string, x: string, y: string, z: string)
    ensures Contains(w + x + y + z, x)
  {
    assert x <= (w + x + y + z)[|w|..];
  }

  // ----- Two concrete runs -----

  /** `a.txt` holds "hello" and "world"; looking for "wor" passes. */
  lemma ContentFoundScenario(newLine: string, absolutePath: Path -> string)
    ensures ExecuteSpec(
      Rule(Some("wor"), Some([Some("a.txt")]), false, None),
      Host(map["a.txt" := RegularFile(Readable(["hello", "world"], false, false))], newLine, absolutePath))
      == Passed
  {
    var lines := ["hello", "world"];
    var host := Host(map["a.txt" := RegularFile(Readable(lines, false, false))], newLine, absolutePath);
    assert "wor" <= lines[1][0..];
    assert Contains(lines[1], "wor");
    assert ScanResult(lines, false, "wor").successful;
    assert CheckFileSpec(Some("a.txt"), "wor", false, host.fs).successful;
    ReportOfOne(Some("a.txt"), "wor", false, host);
  }

  /** The same file and "xyz": one report line naming the file, then the default text. */
  lemma ContentMissingScenario(newLine: string, absolutePath: Path -> string)
    ensures ExecuteSpec(
      Rule(Some("xyz"), Some([Some("a.txt")]), false, None),
      Host(map["a.txt" := RegularFile(Readable(["hello", "world"], false, false))], newLine, absolutePath))
      == Threw(RuleFailure(absolutePath("a.txt") + " : " + DoesNotContain("xyz") + newLine + DefaultMessage))
  {
    var lines := ["hello", "world"];
    var host := Host(map["a.txt" := RegularFile(Readable(lines, false, false))], newLine, absolutePath);
    forall i, k | 0 <= i < |lines| && 0 <= k <= |lines[i]| - 3
      ensures !("xyz" <= lines[i][k..])
    {
      assert lines[i][k] != 'x';
    }
    assert !Contains(lines[0], "xyz") && !Contains(lines[1], "xyz");
    assert CheckFileSpec(Some("a.txt"), "xyz", false, host.fs) == Fail(DoesNotContain("xyz"));
    ReportOfOne(Some("a.txt"), "xyz", false, host);
    var line := absolutePath("a.txt") + " : " + DoesNotContain("xyz") + newLine;
    assert Report([Some("a.txt")], "xyz", false, host) == line;
  }
}
