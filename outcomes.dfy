/** Vocabulary shared by the two enforcer rules: the result of checking one
    declared item, the exceptions an `execute` call can end with, and the
    final step that turns the collected report into pass or throw. */
module Outcomes {

  /** A Java reference that may be null. */
  datatype Option<+T> = None | Some(value: T)

  /** A file-system path, as `File` and `Path` print it. */
  type Path = string

  /** The nested `Result` class of both rules (each rule declares an identical
      copy): a success flag and an error message. */
  datatype CheckResult = CheckResult(successful: bool, errorMessage: string)

  /** The documented invariant of `Result`: the message is empty exactly when
      the check succeeded. */
  predicate Consistent(r: CheckResult) {
    r.successful <==> r.errorMessage == ""
  }

  /** `Result.success()`. */
  function Success(): (r: CheckResult)
    ensures r.successful && r.errorMessage == ""
    ensures Consistent(r)
  {
    CheckResult(true, "")
  }

  /** `Result.fail(message)`: the invariant holds only for a non-empty message,
      which `Result` does not enforce. */
  function Fail(message: string): (r: CheckResult)
    ensures !r.successful && r.errorMessage == message
    ensures Consistent(r) <==> message != ""
  {
    CheckResult(false, message)
  }

  /** The Java exceptions that can leave `execute`. */
  datatype Exception =
    | NullPointer(detail: Option<string>)  // NullPointerException and its message, if it has one
    | RuleFailure(message: string)         // EnforcerRuleException
    | PatternSyntax(pattern: string)       // PatternSyntaxException raised while compiling a glob

  /** How one `execute` call ends: it returns normally or throws. */
  datatype Outcome = Passed | Threw(exception: Exception)

  /** The text a `StringBuilder` holds after appending `parts` in order. */
  function Concat(parts: seq<string>): string {
    if parts == [] then "" else Concat(parts[..|parts| - 1]) + parts[|parts| - 1]
  }

  /** Appending two runs of parts appends their texts. */
  lemma {:induction false} ConcatAppend(a: seq<string>, b: seq<string>)
    ensures Concat(a + b) == Concat(a) + Concat(b)
  {
    if b == [] {
      assert a + b == a;
    } else {
      var b' := b[..|b| - 1];
      assert (a + b)[..|a + b| - 1] == a + b';
      ConcatAppend(a, b');
    }
  }

  /** The text is empty exactly when every part is. */
  lemma {:induction false} ConcatEmptyIff(parts: seq<string>)
    ensures Concat(parts) == "" <==> forall i :: 0 <= i < |parts| ==> parts[i] == ""
  {
    if parts != [] {
      var init := parts[..|parts| - 1];
      ConcatEmptyIff(init);
      assert forall i :: 0 <= i < |init| ==> init[i] == parts[i];
    }
  }

  /** The report an aggregation loop builds: the line of every item, in
      declaration order, with nothing in between. */
  function Collect<T>(items: seq<T>, line: T -> string): string {
    Concat(Lines(items, line))
  }

  /** The line of every item, in declaration order. */
  function Lines<T>(items: seq<T>, line: T -> string): seq<string> {
    seq(|items|, i requires 0 <= i < |items| => line(items[i]))
  }

  /** Items are reported independently: the report of a concatenation is the
      concatenation of the reports. */
  lemma CollectAppend<T>(a: seq<T>, b: seq<T>, line: T -> string)
    ensures Collect(a + b, line) == Collect(a, line) + Collect(b, line)
  {
    var la, lb, lab := Lines(a, line), Lines(b, line), Lines(a + b, line);
    forall k | 0 <= k < |a + b|
      ensures lab[k] == (la + lb)[k]
    {
      if k < |a| {
        assert (a + b)[k] == a[k];
      } else {
        assert (a + b)[k] == b[k - |a|];
      }
    }
    assert lab == la + lb;
    ConcatAppend(la, lb);
  }

  /** A single item's report is its line. */
  lemma CollectOne<T>(x: T, line: T -> string)
    ensures Collect([x], line) == line(x)
  {
    var parts := Lines([x], line);
    assert |parts| == 1 && parts[0] == line(x);
    assert parts[..0] == [];
    assert Concat(parts) == Concat(parts[..0]) + parts[0];
  }

  /** One more turn of the loop appends the next item's line. */
  lemma CollectStep<T>(items: seq<T>, i: nat, line: T -> string)
    requires i < |items|
    ensures Collect(items[..i + 1], line) == Collect(items[..i], line) + line(items[i])
  {
    assert items[..i + 1] == items[..i] + [items[i]];
    CollectAppend(items[..i], [items[i]], line);
    CollectOne(items[i], line);
  }

  /** The report is empty exactly when every item's line is. */
  lemma CollectEmptyIff<T>(items: seq<T>, line: T -> string)
    ensures Collect(items, line) == "" <==> forall i :: 0 <= i < |items| ==> line(items[i]) == ""
  {
    var parts := Lines(items, line);
    ConcatEmptyIff(parts);
    assert forall i :: 0 <= i < |items| ==> parts[i] == line(items[i]);
  }

  /** The sentence appended to the report when no custom message is configured. */
  const DefaultMessage: string :=
    "Some files produce errors, please check the error message for the individual file above."

  /** The text after the report: `getMessage()` when it is not null, else the default. */
  function Trailer(custom: Option<string>): string {
    if custom.Some? then custom.value else DefaultMessage
  }

  /** The last step of both `execute` methods: throw iff the report is not
      empty, carrying the report followed by the custom or default message. */
  function Conclude(report: string, custom: Option<string>): (o: Outcome)
    ensures o.Passed? <==> report == ""
    ensures o.Threw? ==> o.exception.RuleFailure?
    ensures o.Threw? ==> report <= o.exception.message
    ensures o.Threw? ==> o.exception.message[|report|..] == Trailer(custom)
  {
    if |report| != 0 then Threw(RuleFailure(report + Trailer(custom))) else Passed
  }
}
