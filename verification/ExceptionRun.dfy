/** A whole run of the checker: from the text of the exceptions file and a report to the exit code. */
module ExceptionRun {
  import opened Wrappers
  import opened ExceptionParser
  import opened ExceptionCheck
  import opened ExceptionVerdict

  /** The exit code of main; 1 also for the ValueError that ends the program. */
  function ExitCode(py: Library, text: string, data: Audit, today: int): int {
    var es := ParseText(text);
    if es.None? then 1 else Report(py, es.value, Findings(data), today).code
  }

  /** main, behind the reading of its files. */
  method RunChecker(py: Library, text: string, data: Audit, today: int) returns (code: int)
    ensures code == ExitCode(py, text, data, today)
  {
    hide Parse, Findings, Report;
    var es := ParseExceptions(LinesFrom([], text));
    if es.None? { return 1; }
    var fs := IterVulns(data);
    var outcome := Check(py, es.value, fs, today);
    return outcome.code;
  }

  /** A line that starts a record with something that is no key and value. */
  predicate Breaks(raw: string) {
    var line := Strip(raw);
    !IsSkipped(line) && "- " <= line && Strip(line[2..]) != [] && ':' !in Strip(line[2..])
  }

  lemma SplitsExactly(line: string)
    ensures SplitKv(line).None? <==> ':' !in line
  {
    var n := FirstColon(line);
    assert n == |line| ==> line[..n] == line;
  }

  lemma StepBreaks(st: State, raw: string)
    ensures Step(st, raw).None? <==> Breaks(raw)
  {
    hide Strip, SplitKv;
    var line := Strip(raw);
    SplitsExactly(line);
    if "- " <= line { SplitsExactly(Strip(line[2..])); }
  }

  lemma {:induction false} RunBreaks(st: State, lines: seq<string>)
    ensures Run(st, lines).None? <==> exists l :: l in lines && Breaks(l)
    decreases lines
  {
    hide Step, Breaks;
    if lines != [] {
      StepBreaks(st, lines[0]);
      assert lines == [lines[0]] + lines[1..];
      if Step(st, lines[0]).Some? { RunBreaks(Step(st, lines[0]).value, lines[1..]); }
    }
  }

  /** The program ends with a ValueError exactly when some line of the file starts a record without a colon. */
  lemma ParsingFailsExactly(text: string)
    ensures ParseText(text).None? <==> exists l :: l in LinesFrom([], text) && Breaks(l)
  {
    hide Breaks, Run;
    RunBreaks(START, LinesFrom([], text));
  }

  lemma ExitCodeIsBinary(py: Library, es: seq<Record>, fs: seq<Finding>, today: int)
    ensures Report(py, es, fs, today).code in {0, 1}
  {
  }

  /** The exit code is 0 exactly when the file can be parsed and the report is acceptable under what it lists. */
  lemma ExitCodeExactly(py: Library, text: string, data: Audit, today: int)
    ensures var es := ParseText(text);
      && (es.Some? <==> forall l :: l in LinesFrom([], text) ==> !Breaks(l))
      && ExitCode(py, text, data, today) in {0, 1}
      && (ExitCode(py, text, data, today) == 0 <==> es.Some? && Acceptable(py, es.value, Findings(data), today))
  {
    hide Breaks, ParseText, Report, Acceptable;
    ParsingFailsExactly(text);
    if es :| ParseText(text) == Some(es) {
      VerdictInFull(py, es, Findings(data), today);
      ExitCodeIsBinary(py, es, Findings(data), today);
    }
  }

  /** For a file as one would write it, the exit code is decided by the records that were written. */
  lemma WrittenRecordsDecide(py: Library, records: seq<seq<Field>>, data: Audit, today: int)
    requires forall r :: r in records ==> WritableRecord(r) && DistinctKeys(r) && Plain(r)
    ensures ExitCode(py, RenderText(records), data, today) == 0 <==>
      Acceptable(py, RecordsOf(records), Findings(data), today)
  {
    hide ParseText, RenderText, Report, Acceptable, WritableRecord, DistinctKeys, Plain;
    RoundTripExactly(records);
    VerdictInFull(py, RecordsOf(records), Findings(data), today);
  }
}
