/** The `RequireGlobMatches` rule: for every declared glob, some file reached
    by walking the configured location must have a relative path the glob
    accepts. The rule checks every glob, collects one report line per failing
    glob and throws once at the end if the report is not empty. */
module GlobMatches {
  import opened Outcomes

  /** One callback of `Files.walkFileTree`: `visitFile` for a file it reached,
      or `visitFileFailed` for an entry it could not visit (its attributes
      could not be read, or it is a directory that could not be opened). */
  datatype Visit = VisitFile(path: Path) | VisitFileFailed(path: Path)

  /** What a walk from a root delivers: the callbacks in order and, when
      `failsAfter` holds, an `IOException` thrown by the walk after them (the
      one `postVisitDirectory` rethrows when reading a directory's entries
      failed part-way), unless the visitor stopped it first. */
  datatype Walk = Walk(visits: seq<Visit>, failsAfter: bool)

  /** The platform the rule calls into: whether `getPathMatcher("glob:" + g)`
      compiles `g`, whether the compiled matcher accepts a relative path,
      `Path.relativize`, the walk from each root, and `line.separator`. */
  datatype Platform = Platform(
    compiles: string -> bool,
    matches: (string, Path) -> bool,
    relativize: (Path, Path) -> Path,
    walk: Path -> Walk,
    newLine: string)

  /** The rule's configuration; `message` is what `getMessage()` returns. */
  datatype Rule = Rule(location: Option<Path>, globs: Option<seq<Option<string>>>, message: Option<string>)

  /** How `checkGlobMatchInPath` ends: it returns a result, or an unchecked
      exception leaves it (and with it `execute`). */
  datatype Attempt = Returned(result: CheckResult) | Raised(exception: Exception)

  /** Java string concatenation writes a null glob as "null". */
  function GlobText(glob: Option<string>): string {
    if glob.Some? then glob.value else "null"
  }

  function IoErrorMessage(pattern: string, location: Path): string {
    "IO error not find file with: " + pattern + " on location:" + location
  }

  function NoMatchMessage(pattern: string, location: Path): string {
    "Could not find file matches with: " + pattern + " on location:" + location
  }

  /** The visitor stops at this callback: it is a visited file whose path,
      relative to the location, the matcher accepts. */
  predicate Accepts(v: Visit, pattern: string, location: Path, platform: Platform) {
    v.VisitFile? && platform.matches(pattern, platform.relativize(location, v.path))
  }

  /** Index of the first accepted callback, or `|visits|` when there is none. */
  function FirstAccepted(visits: seq<Visit>, pattern: string, location: Path, platform: Platform): (k: nat)
    ensures k <= |visits|
    ensures forall j :: 0 <= j < k ==> !Accepts(visits[j], pattern, location, platform)
    ensures k < |visits| ==> Accepts(visits[k], pattern, location, platform)
  {
    if visits == [] then 0
    else if Accepts(visits[0], pattern, location, platform) then 0
    else 1 + FirstAccepted(visits[1..], pattern, location, platform)
  }

  /** How many callbacks the walk makes: up to and including the first
      accepted one (the visitor answers `TERMINATE`), else all of them. */
  function VisitsMade(visits: seq<Visit>, pattern: string, location: Path, platform: Platform): nat {
    var k := FirstAccepted(visits, pattern, location, platform);
    if k < |visits| then k + 1 else |visits|
  }

  /** The result of walking `w` for `pattern`: success on a match, else the
      walk error message when the walk threw, else the no-match message. */
  function WalkResult(w: Walk, pattern: string, location: Path, platform: Platform): (r: CheckResult)
    ensures Consistent(r)
  {
    if FirstAccepted(w.visits, pattern, location, platform) < |w.visits| then Success()
    else if w.failsAfter then Fail(IoErrorMessage(pattern, location))
    else Fail(NoMatchMessage(pattern, location))
  }

  /** What `checkGlobMatchInPath` does: compile the glob, dereference the
      location, walk it. */
  function CheckGlobSpec(glob: Option<string>, location: Option<Path>, platform: Platform): (a: Attempt)
    ensures a.Returned? ==> Consistent(a.result)
  {
    var pattern := GlobText(glob);
    if !platform.compiles(pattern) then Raised(PatternSyntax(pattern))
    else if location.None? then Raised(NullPointer(None))
    else Returned(WalkResult(platform.walk(location.value), pattern, location.value, platform))
  }

  /** `checkGlobMatchInPath`: the walk's callbacks are the loop's iterations;
      `ret` is the `AtomicBoolean` the visitor sets before it terminates the
      walk. The walk stops at the first accepted file. */
  method CheckGlobMatchInPath(glob: Option<string>, location: Option<Path>, platform: Platform)
    returns (a: Attempt, ghost visited: nat)
    ensures a == CheckGlobSpec(glob, location, platform)
    ensures a.Returned? ==>
      visited == VisitsMade(platform.walk(location.value).visits, GlobText(glob), location.value, platform)
  {
    visited := 0;
    var pattern := GlobText(glob);
    if !platform.compiles(pattern) {
      return Raised(PatternSyntax(pattern)), visited;
    }
    if location.None? {
      // location.toPath() on a null location; only IOException is caught
      return Raised(NullPointer(None)), visited;
    }
    var root := location.value;
    var w := platform.walk(root);
    var ret := false;
    var i := 0;
    while i < |w.visits| && !ret
      invariant 0 <= i <= |w.visits|
      invariant !ret ==> forall j :: 0 <= j < i ==> !Accepts(w.visits[j], pattern, root, platform)
      invariant ret ==> 0 < i && Accepts(w.visits[i - 1], pattern, root, platform)
      invariant ret ==> forall j :: 0 <= j < i - 1 ==> !Accepts(w.visits[j], pattern, root, platform)
    {
      match w.visits[i] {
        case VisitFile(path) =>
          var relPath := platform.relativize(root, path);
          if platform.matches(pattern, relPath) {
            ret := true;  // FileVisitResult.TERMINATE
          }
        case VisitFileFailed(_) =>
          // FileVisitResult.CONTINUE
      }
      i := i + 1;
    }
    visited := i;
    if !ret && w.failsAfter {
      return Returned(Fail(IoErrorMessage(pattern, root))), visited;
    }
    if ret {
      a := Returned(Success());
    } else {
      a := Returned(Fail(NoMatchMessage(pattern, root)));
    }
  }

  /** The report text one glob contributes: its message and a line
      separator when it fails, nothing otherwise. */
  function GlobLine(glob: Option<string>, location: Option<Path>, platform: Platform): string {
    var a := CheckGlobSpec(glob, location, platform);
    if a.Returned? && !a.result.successful then a.result.errorMessage + platform.newLine else ""
  }

  /** `GlobLine` for one location and platform, as a function of the glob. */
  function LineOf(location: Option<Path>, platform: Platform): Option<string> -> string {
    glob => GlobLine(glob, location, platform)
  }

  /** The report: every glob's line, appended in declaration order, with no prefix. */
  function Report(globs: seq<Option<string>>, location: Option<Path>, platform: Platform): string {
    Collect(globs, LineOf(location, platform))
  }

  /** The exception of the first glob whose check throws, if any. */
  function FirstRaised(globs: seq<Option<string>>, location: Option<Path>, platform: Platform): Option<Exception> {
    if globs == [] then None
    else
      var earlier := FirstRaised(globs[..|globs| - 1], location, platform);
      var last := CheckGlobSpec(globs[|globs| - 1], location, platform);
      if earlier.Some? then earlier
      else if last.Raised? then Some(last.exception)
      else None
  }

  /** The configuration checks of `execute`, in their order; the location is
      not checked. */
  function Validate(rule: Rule): (e: Option<Exception>)
    ensures e.None? <==> rule.globs.Some? && |rule.globs.value| > 0
  {
    if rule.globs.None? then Some(NullPointer(Some("glob is mandatory")))
    else if |rule.globs.value| == 0 then Some(RuleFailure("at least 1 glob must be specified"))
    else None
  }

  /** What `execute` does: validate, then the first exception from a glob
      check ends the run; otherwise throw iff the report is not empty. */
  function ExecuteSpec(rule: Rule, platform: Platform): Outcome {
    var e := Validate(rule);
    if e.Some? then Threw(e.value)
    else
      var raised := FirstRaised(rule.globs.value, rule.location, platform);
      if raised.Some? then Threw(raised.value)
      else Conclude(Report(rule.globs.value, rule.location, platform), rule.message)
  }

  /** `execute`: validate, check every glob in order, append one line per
      failing glob, then throw once if anything was appended. */
  method Execute(rule: Rule, platform: Platform) returns (o: Outcome)
    ensures o == ExecuteSpec(rule, platform)
  {
    if rule.globs.None? {
      return Threw(NullPointer(Some("glob is mandatory")));
    }
    var globs := rule.globs.value;
    if |globs| == 0 {
      return Threw(RuleFailure("at least 1 glob must be specified"));
    }
    var sb := "";
    var i := 0;
    while i < |globs|
      invariant 0 <= i <= |globs|
      invariant sb == Report(globs[..i], rule.location, platform)
      invariant FirstRaised(globs[..i], rule.location, platform).None?
    {
      ghost var visited;
      var a;
      a, visited := CheckGlobMatchInPath(globs[i], rule.location, platform);
      CollectStep(globs, i, LineOf(rule.location, platform));
      RaisedStep(globs, i, rule.location, platform);
      if a.Raised? {
        FirstRaisedAt(globs, i, rule.location, platform);
        return Threw(a.exception);
      }
      if !a.result.successful {
        var entry := a.result.errorMessage + platform.newLine;
        assert entry == GlobLine(globs[i], rule.location, platform);
        sb := sb + entry;
      } else {
        assert GlobLine(globs[i], rule.location, platform) == "";
        assert sb + "" == sb;
      }
      i := i + 1;
    }
    assert globs[..i] == globs;
    assert sb == Report(globs, rule.location, platform);
    o := Conclude(sb, rule.message);
  }

  /** `getCacheId`: the same key for every configuration, so the host never
      reuses an earlier verdict. */
  function CacheId(rule: Rule): (id: string)
    ensures id == "0"
  {
    "0"
  }

  // ----- Properties of the report and of the run -----

  /** Extending the checked prefix by one glob, when no earlier glob threw,
      raises that glob's exception if it has one. */
  lemma RaisedStep(globs: seq<Option<string>>, i: nat, location: Option<Path>, platform: Platform)
    requires i < |globs|
    ensures FirstRaised(globs[..i], location, platform).None? ==>
      FirstRaised(globs[..i + 1], location, platform)
        == (var a := CheckGlobSpec(globs[i], location, platform); if a.Raised? then Some(a.exception) else None)
  {
    assert globs[..i + 1][..i] == globs[..i];
  }

  /** Every glob is checked on its own: the report of a concatenation is the
      concatenation of the reports. */
  lemma ReportAppend(a: seq<Option<string>>, b: seq<Option<string>>, location: Option<Path>, platform: Platform)
    ensures Report(a + b, location, platform) == Report(a, location, platform) + Report(b, location, platform)
  {
    CollectAppend(a, b, LineOf(location, platform));
  }

  /** Once a glob has thrown, later globs cannot change the exception. */
  lemma {:induction false} FirstRaisedAppend(a: seq<Option<string>>, b: seq<Option<string>>, location: Option<Path>, platform: Platform)
    requires FirstRaised(a, location, platform).Some?
    ensures FirstRaised(a + b, location, platform) == FirstRaised(a, location, platform)
  {
    if b == [] {
      assert a + b == a;
    } else {
      var b' := b[..|b| - 1];
      assert (a + b)[..|a + b| - 1] == a + b';
      FirstRaisedAppend(a, b', location, platform);
    }
  }

  /** The exception of the first glob that throws is the run's exception. */
  lemma FirstRaisedAt(globs: seq<Option<string>>, i: nat, location: Option<Path>, platform: Platform)
    requires i < |globs| && FirstRaised(globs[..i], location, platform).None?
    requires CheckGlobSpec(globs[i], location, platform).Raised?
    ensures FirstRaised(globs, location, platform) == Some(CheckGlobSpec(globs[i], location, platform).exception)
  {
    RaisedStep(globs, i, location, platform);
    FirstRaisedAppend(globs[..i + 1], globs[i + 1..], location, platform);
    assert globs[..i + 1] + globs[i + 1..] == globs;
  }

  /** No exception is raised exactly when every glob's check returns. */
  lemma {:induction false} FirstRaisedNoneIff(globs: seq<Option<string>>, location: Option<Path>, platform: Platform)
    ensures FirstRaised(globs, location, platform).None?
        <==> forall i :: 0 <= i < |globs| ==> CheckGlobSpec(globs[i], location, platform).Returned?
  {
    if globs != [] {
      var init := globs[..|globs| - 1];
      FirstRaisedNoneIff(init, location, platform);
      assert forall i :: 0 <= i < |init| ==> init[i] == globs[i];
    }
  }

  /** The report is empty exactly when no glob's check returns a failure. */
  lemma ReportEmptyIff(globs: seq<Option<string>>, location: Option<Path>, platform: Platform)
    ensures Report(globs, location, platform) == ""
        <==> forall i :: 0 <= i < |globs| ==>
               var a := CheckGlobSpec(globs[i], location, platform);
               a.Returned? ==> a.result.successful
  {
    var line := LineOf(location, platform);
    CollectEmptyIff(globs, line);
    forall i | 0 <= i < |globs|
      ensures line(globs[i]) == "" <==>
        var a := CheckGlobSpec(globs[i], location, platform);
        a.Returned? ==> a.result.successful
    {
      var a := CheckGlobSpec(globs[i], location, platform);
      if a.Returned? && !a.result.successful {
        assert |line(globs[i])| >= |a.result.errorMessage| > 0;
      }
    }
  }

  /** When every glob's check returns, `execute` passes iff every glob found
      a match, and otherwise throws the report followed by the custom or
      default message. */
  lemma ExecuteFailsIff(rule: Rule, platform: Platform)
    requires Validate(rule).None?
    requires forall i :: 0 <= i < |rule.globs.value| ==> CheckGlobSpec(rule.globs.value[i], rule.location, platform).Returned?
    ensures ExecuteSpec(rule, platform).Passed?
        <==> forall i :: 0 <= i < |rule.globs.value| ==>
               CheckGlobSpec(rule.globs.value[i], rule.location, platform).result.successful
    ensures ExecuteSpec(rule, platform).Threw? ==>
      ExecuteSpec(rule, platform).exception
        == RuleFailure(Report(rule.globs.value, rule.location, platform) + Trailer(rule.message))
  {
    FirstRaisedNoneIff(rule.globs.value, rule.location, platform);
    ReportEmptyIff(rule.globs.value, rule.location, platform);
  }

  /** The location is never validated: a null location ends the run with a
      `NullPointerException` at the first glob that compiles. */
  lemma NullLocationAborts(rule: Rule, platform: Platform)
    requires Validate(rule).None? && rule.location.None?
    requires platform.compiles(GlobText(rule.globs.value[0]))
    ensures ExecuteSpec(rule, platform) == Threw(NullPointer(None))
  {
    var globs := rule.globs.value;
    RaisedStep(globs, 0, None, platform);
    assert FirstRaised(globs[..1], None, platform) == Some(NullPointer(None));
    FirstRaisedAppend(globs[..1], globs[1..], None, platform);
    assert globs[..1] + globs[1..] == globs;
  }

  /** Configuration errors are raised before any walk: the outcome then does
      not depend on the platform. */
  lemma ValidationPrecedesChecks(rule: Rule, platform1: Platform, platform2: Platform)
    requires Validate(rule).Some?
    ensures ExecuteSpec(rule, platform1) == ExecuteSpec(rule, platform2) == Threw(Validate(rule).value)
  {
  }

  // ----- Properties of one walk -----

  /** A glob succeeds exactly when some visited file's relative path is
      accepted; otherwise the message says whether the walk threw. */
  lemma WalkSucceedsIff(w: Walk, pattern: string, location: Path, platform: Platform)
    ensures WalkResult(w, pattern, location, platform).successful
        <==> exists i :: 0 <= i < |w.visits| && Accepts(w.visits[i], pattern, location, platform)
    ensures !WalkResult(w, pattern, location, platform).successful ==>
      WalkResult(w, pattern, location, platform).errorMessage
        == if w.failsAfter then IoErrorMessage(pattern, location) else NoMatchMessage(pattern, location)
  {
  }

  /** A callback for an entry that could not be read is skipped: removing it
      does not change the result. */
  lemma FailedVisitSkipped(before: seq<Visit>, x: Path, after: seq<Visit>, failsAfter: bool,
                           pattern: string, location: Path, platform: Platform)
    ensures WalkResult(Walk(before + [VisitFileFailed(x)] + after, failsAfter), pattern, location, platform)
         == WalkResult(Walk(before + after, failsAfter), pattern, location, platform)
  {
    var long := before + [VisitFileFailed(x)] + after;
    var short := before + after;
    if i :| 0 <= i < |long| && Accepts(long[i], pattern, location, platform) {
      if i < |before| {
        assert short[i] == long[i];
      } else {
        assert short[i - 1] == long[i];
      }
    }
    if i :| 0 <= i < |short| && Accepts(short[i], pattern, location, platform) {
      if i < |before| {
        assert long[i] == short[i];
      } else {
        assert long[i + 1] == short[i];
      }
    }
  }

  /** The walk stops at the first accepted file: whatever follows it, a
      walk error included, cannot change the result. */
  lemma MatchEndsWalk(before: seq<Visit>, v: Visit, after: seq<Visit>, failsAfter: bool,
                      pattern: string, location: Path, platform: Platform)
    requires Accepts(v, pattern, location, platform)
    ensures WalkResult(Walk(before + [v] + after, failsAfter), pattern, location, platform) == Success()
  {
    assert (before + [v] + after)[|before|] == v;
  }

  /** A walk that threw and a walk that found nothing are reported with
      different messages. */
  lemma WalkErrorDistinguished(pattern: string, location: Path)
    ensures IoErrorMessage(pattern, location) != NoMatchMessage(pattern, location)
  {
  }
}
