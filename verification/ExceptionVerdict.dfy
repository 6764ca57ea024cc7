/**
  The verdict of the checker and its error list, over the fields of the exceptions and of the findings
  alone: no index, no loop, no set of seen keys.
 */
module ExceptionVerdict {
  import opened Wrappers
  import opened Numerals
  import opened ExceptionParser
  import opened ExceptionCheck

  // ----- The conditions -----

  ghost predicate Filled(e: Record, field: string) {
    field in e && e[field] != []
  }

  /** All five fields are there. */
  ghost predicate IsComplete(e: Record) {
    && Filled(e, "package") && Filled(e, "advisory") && Filled(e, "severity")
    && Filled(e, "mitigation") && Filled(e, "expires_on")
  }

  /** An exception that can excuse something. */
  ghost predicate Usable(py: Library, e: Record) {
    && IsComplete(e) && py.parseDate(e["expires_on"]).Some?
    && Strip(e["package"]) != [] && py.lower(Strip(e["advisory"])) != []
  }

  ghost predicate SamePair(py: Library, e: Record, x: Record)
    requires IsComplete(e) && IsComplete(x)
  {
    Strip(e["package"]) == Strip(x["package"]) && py.lower(Strip(e["advisory"])) == py.lower(Strip(x["advisory"]))
  }

  ghost function Severity(py: Library, f: Finding): string {
    py.lower(Strip(if f.severity.Some? then f.severity.value else ""))
  }

  ghost function AdvisoryId(py: Library, f: Finding): string {
    if f.advisoryId == Nil then "" else py.lower(Strip(Str(f.advisoryId)))
  }

  /** A finding that needs an exception. */
  ghost predicate Severe(py: Library, f: Finding) {
    !IsEmpty(f.name) && (Severity(py, f) == "high" || Severity(py, f) == "critical")
  }

  /** The exception is for the package and the advisory of the finding. */
  ghost predicate Matches(py: Library, e: Record, f: Finding) {
    && Usable(py, e)
    && Strip(e["package"]) == Strip(Str(f.name)) && py.lower(Strip(e["advisory"])) == AdvisoryId(py, f)
  }

  ghost predicate IsExcused(py: Library, es: seq<Record>, f: Finding, today: int) {
    AdvisoryId(py, f) != "" &&
    exists e :: e in es && Matches(py, e, f) && today <= py.parseDate(e["expires_on"]).value
  }

  /** No finding before `i` that needs an exception is for the same package and advisory. */
  ghost predicate FirstOfPair(py: Library, fs: seq<Finding>, i: nat)
    requires i < |fs|
  {
    && Severe(py, fs[i]) && AdvisoryId(py, fs[i]) != ""
    && forall j :: 0 <= j < i && Severe(py, fs[j]) && AdvisoryId(py, fs[j]) == AdvisoryId(py, fs[i]) ==>
      Strip(Str(fs[j].name)) != Strip(Str(fs[i].name))
  }

  ghost predicate HasSameSeverity(py: Library, es: seq<Record>, f: Finding) {
    exists e :: e in es && Matches(py, e, f) && py.lower(Strip(e["severity"])) in {"", Severity(py, f)}
  }

  /** What the exceptions and the findings must be for the run to pass. */
  ghost predicate Acceptable(py: Library, es: seq<Record>, fs: seq<Finding>, today: int) {
    && (forall e :: e in es ==> Usable(py, e))
    && (forall i, j :: 0 <= i < j < |es| && Usable(py, es[i]) && Usable(py, es[j]) ==> !SamePair(py, es[i], es[j]))
    && (forall f :: f in fs && Severe(py, f) ==> IsExcused(py, es, f, today))
    && (forall i :: 0 <= i < |fs| && FirstOfPair(py, fs, i) ==> HasSameSeverity(py, es, fs[i]))
  }

  /** An id that is a number is compared by its decimal text. */
  lemma NumberIsItsText(n: int)
    requires n > 0
    ensures IsNumeral(Str(Number(n))) && Value(Str(Number(n))) == n
    ensures Str(Number(-n)) == "-" + Str(Number(n)) && Str(Number(0)) == "0"
  {
  }

  // ----- They are what the checker tests -----

  lemma MissingExactlyUnfilled(e: Record)
    ensures MissingFields(e) == set f | f in {"package", "advisory", "severity", "mitigation", "expires_on"} && !Filled(e, f)
    ensures MissingFields(e) == {} <==> IsComplete(e)
  {
    if MissingFields(e) == {} {
      HasField(e, "package");
      HasField(e, "advisory");
      HasField(e, "severity");
      HasField(e, "mitigation");
      HasField(e, "expires_on");
    }
  }

  lemma SoundIsUsable(py: Library, e: Record)
    ensures Sound(py, e) <==> Usable(py, e)
    ensures IsComplete(e) ==>
      && MissingFields(e) == {} && ExpiresOn(py, e) == py.parseDate(e["expires_on"])
      && KeyOf(py, e) == (Strip(e["package"]), py.lower(Strip(e["advisory"])))
      && SeverityOf(py, e) == py.lower(Strip(e["severity"]))
  {
    MissingExactlyUnfilled(e);
  }

  lemma RelevantIsSevere(py: Library, f: Finding)
    ensures Relevant(py, f) <==> Severe(py, f)
    ensures NormalizeSeverity(py, f.severity) == Severity(py, f)
    ensures NormalizeAdvisory(py, f.advisoryId) == AdvisoryId(py, f)
    ensures Severe(py, f) ==> FindingKey(py, f) == (Strip(Str(f.name)), AdvisoryId(py, f))
  {
  }

  lemma MatchesExactly(py: Library, e: Record, f: Finding)
    requires Severe(py, f)
    ensures IsFor(py, e, f) <==> Matches(py, e, f)
  {
    hide Sound, Usable, Severe, KeyOf, FindingKey, MissingFields, IsComplete;
    SoundIsUsable(py, e);
    RelevantIsSevere(py, f);
    UsableIsComplete(py, e);
    SoundIsComplete(py, e);
  }

  lemma UsableIsComplete(py: Library, e: Record)
    ensures Usable(py, e) ==> IsComplete(e)
    ensures IsComplete(e) ==> "package" in e && "advisory" in e && "severity" in e && "expires_on" in e
  {
  }

  lemma SoundIsComplete(py: Library, e: Record)
    ensures Sound(py, e) ==> MissingFields(e) == {}
  {
  }

  lemma CoveredIsExcused(py: Library, es: seq<Record>, f: Finding, today: int)
    requires Severe(py, f)
    ensures Covered(py, es, f, today) <==> IsExcused(py, es, f, today)
    ensures Agreed(py, es, f) <==> HasSameSeverity(py, es, f)
  {
    hide Sound, Severe, KeyOf, FindingKey, MissingFields, IsFor, ExpiresOn, SeverityOf;
    RelevantIsSevere(py, f);
    forall e | e in es
      ensures IsFor(py, e, f) <==> Matches(py, e, f)
      ensures Excuses(py, e, f, today) <==> Matches(py, e, f) && today <= py.parseDate(e["expires_on"]).value
      ensures AgreesOnSeverity(py, e, f) <==> Matches(py, e, f) && py.lower(Strip(e["severity"])) in {"", Severity(py, f)}
    {
      MatchesExactly(py, e, f);
      SoundIsUsable(py, e);
      MatchIsUsable(py, e, f);
      UsableIsComplete(py, e);
    }
  }

  lemma MatchIsUsable(py: Library, e: Record, f: Finding)
    ensures Matches(py, e, f) ==> Usable(py, e)
    ensures Usable(py, e) ==> py.parseDate(e["expires_on"]).Some?
  {
  }

  lemma FirstExactly(py: Library, fs: seq<Finding>, i: nat)
    requires i < |fs|
    ensures First(py, fs, i) <==> FirstOfPair(py, fs, i)
  {
    hide Severe, Relevant, FindingKey, AdvisoryId, NormalizeAdvisory;
    SeenBefore(py, fs, i, FindingKey(py, fs[i]));
    forall j | 0 <= j <= i
      ensures Keyed(py, fs[j]) <==> Severe(py, fs[j]) && AdvisoryId(py, fs[j]) != ""
      ensures Severe(py, fs[j]) ==> FindingKey(py, fs[j]) == (Strip(Str(fs[j].name)), AdvisoryId(py, fs[j]))
    {
      RelevantIsSevere(py, fs[j]);
    }
  }

  /** The exit code is 0 exactly when the exceptions and the findings are acceptable. */
  lemma VerdictInFull(py: Library, es: seq<Record>, fs: seq<Finding>, today: int)
    ensures Report(py, es, fs, today).code == 0 <==> Acceptable(py, es, fs, today)
  {
    hide Report, Sound, Usable, Severe, Relevant, Covered, Agreed, IsExcused, HasSameSeverity, First, FirstOfPair, KeyOf;
    VerdictExactly(py, es, fs, today);
    forall f ensures Relevant(py, f) <==> Severe(py, f) { RelevantIsSevere(py, f); }
    forall f | f in fs && Severe(py, f) ensures Covered(py, es, f, today) <==> IsExcused(py, es, f, today) {
      CoveredIsExcused(py, es, f, today);
    }
    forall i | 0 <= i < |fs|
      ensures First(py, fs, i) <==> FirstOfPair(py, fs, i)
      ensures FirstOfPair(py, fs, i) ==> (Agreed(py, es, fs[i]) <==> HasSameSeverity(py, es, fs[i]))
    {
      FirstExactly(py, fs, i);
      FirstIsSevere(py, fs, i);
      if Severe(py, fs[i]) { CoveredIsExcused(py, es, fs[i], today); }
    }
    SoundListInFull(py, es);
  }

  lemma FirstIsSevere(py: Library, fs: seq<Finding>, i: nat)
    requires i < |fs|
    ensures FirstOfPair(py, fs, i) ==> Severe(py, fs[i])
  {
  }

  lemma SoundListInFull(py: Library, es: seq<Record>)
    ensures SoundList(py, es) <==>
      && (forall e :: e in es ==> Usable(py, e))
      && (forall i, j :: 0 <= i < j < |es| && Usable(py, es[i]) && Usable(py, es[j]) ==> !SamePair(py, es[i], es[j]))
  {
    hide KeyOf, SamePair, MissingFields;
    forall e ensures Sound(py, e) <==> Usable(py, e) { SoundIsUsable(py, e); }
    forall i, j | 0 <= i < j < |es| && Usable(py, es[i]) && Usable(py, es[j])
      ensures KeyOf(py, es[i]) != KeyOf(py, es[j]) <==> !SamePair(py, es[i], es[j])
    {
      PairIsKey(py, es[i], es[j]);
    }
  }

  lemma PairIsKey(py: Library, e: Record, x: Record)
    requires Usable(py, e) && Usable(py, x)
    ensures Sound(py, e) && Sound(py, x) && (KeyOf(py, e) == KeyOf(py, x) <==> SamePair(py, e, x))
  {
    SoundIsUsable(py, e);
    SoundIsUsable(py, x);
  }

  // ----- The errors -----

  /** What is reported about the i-th exception. */
  ghost predicate ExceptionError(py: Library, es: seq<Record>, i: nat, p: Problem)
    requires i < |es|
  {
    var e := es[i];
    match p
    case Incomplete(missing, package) =>
      && missing != {}
      && missing == (set f | f in {"package", "advisory", "severity", "mitigation", "expires_on"} && !Filled(e, f))
      && package == Get(e, "package")
    case InvalidDate(package) =>
      IsComplete(e) && py.parseDate(e["expires_on"]).None? && package == Some(e["package"])
    case BlankKey =>
      && IsComplete(e) && py.parseDate(e["expires_on"]).Some?
      && (Strip(e["package"]) == [] || py.lower(Strip(e["advisory"])) == [])
    case Duplicate(key, advisory) =>
      && Usable(py, e)
      && key == (Strip(e["package"]), py.lower(Strip(e["advisory"]))) && advisory == Some(e["advisory"])
      && exists j :: 0 <= j < i && Usable(py, es[j]) && SamePair(py, es[j], e)
    case _ => false
  }

  lemma ExceptionErrorExactly(py: Library, es: seq<Record>, i: nat, p: Problem)
    requires i < |es|
    ensures p in ExceptionProblem(py, es, i) <==> ExceptionError(py, es, i, p)
  {
    hide SamePair;
    SoundIsUsable(py, es[i]);
    MissingExactlyUnfilled(es[i]);
    if Usable(py, es[i]) {
      IndexMembers(py, es, i, KeyOf(py, es[i]));
      forall j | 0 <= j < i
        ensures Sound(py, es[j]) <==> Usable(py, es[j])
        ensures Usable(py, es[j]) ==> (KeyOf(py, es[j]) == KeyOf(py, es[i]) <==> SamePair(py, es[j], es[i]))
      {
        SoundIsUsable(py, es[j]);
        if Usable(py, es[j]) { PairIsKey(py, es[j], es[i]); }
      }
    }
  }

  /** The exception that counts for a finding is the first that matches it. */
  ghost predicate FirstMatch(py: Library, es: seq<Record>, j: nat, f: Finding)
    requires j < |es|
  {
    Matches(py, es[j], f) && forall l :: 0 <= l < j ==> !Matches(py, es[l], f)
  }

  ghost predicate GotOther(py: Library, es: seq<Record>, j: nat, f: Finding, got: string)
    requires j < |es|
  {
    FirstMatch(py, es, j, f) && got == py.lower(Strip(es[j]["severity"])) && got !in {"", Severity(py, f)}
  }

  /** What is reported about the i-th finding. */
  ghost predicate FindingError(py: Library, es: seq<Record>, fs: seq<Finding>, i: nat, p: Problem)
    requires i < |fs|
  {
    var f := fs[i];
    match p
    case NoAdvisoryId(name, severity) =>
      Severe(py, f) && AdvisoryId(py, f) == "" && name == f.name && severity == Severity(py, f)
    case SeverityMismatch(name, advisoryId, expected, got) =>
      && FirstOfPair(py, fs, i) && name == f.name && advisoryId == f.advisoryId && expected == Severity(py, f)
      && exists j :: 0 <= j < |es| && GotOther(py, es, j, f, got)
    case _ => false
  }

  lemma IndexedIsFirstMatch(py: Library, es: seq<Record>, f: Finding)
    requires Severe(py, f)
    ensures var index, k := IndexOf(py, es, |es|), FindingKey(py, f);
      && (k in index <==> exists j :: 0 <= j < |es| && FirstMatch(py, es, j, f))
      && forall j :: 0 <= j < |es| && FirstMatch(py, es, j, f) ==> IndexedWith(py, es, j, f)
  {
    hide Severe, FindingKey, FirstFor, IndexOf, IndexedFrom, Sound, Matches;
    IndexHoldsFirst(py, es, |es|, FindingKey(py, f));
    forall j | 0 <= j < |es|
      ensures FirstFor(py, es, j, FindingKey(py, f)) <==> FirstMatch(py, es, j, f)
      ensures FirstMatch(py, es, j, f) ==> IndexedWith(py, es, j, f)
    {
      FirstForIsFirstMatch(py, es, j, f);
      if FirstMatch(py, es, j, f) { IndexedSeverity(py, es, j, f); }
    }
  }

  /** The index holds the severity of the j-th exception for a finding. */
  ghost predicate IndexedWith(py: Library, es: seq<Record>, j: nat, f: Finding)
    requires j < |es|
  {
    var index, k := IndexOf(py, es, |es|), FindingKey(py, f);
    k in index && "severity" in es[j] && index[k].severity == py.lower(Strip(es[j]["severity"]))
  }

  lemma FirstForIsFirstMatch(py: Library, es: seq<Record>, j: nat, f: Finding)
    requires Severe(py, f) && j < |es|
    ensures FirstFor(py, es, j, FindingKey(py, f)) <==> FirstMatch(py, es, j, f)
  {
    hide Severe, FindingKey, KeyOf, Sound, Matches;
    forall l | 0 <= l <= j ensures IsFor(py, es[l], f) <==> Matches(py, es[l], f) { MatchesExactly(py, es[l], f); }
    FirstForIsFor(py, es, j, f);
  }

  lemma FirstForIsFor(py: Library, es: seq<Record>, j: nat, f: Finding)
    requires j < |es|
    ensures FirstFor(py, es, j, FindingKey(py, f)) <==> IsFor(py, es[j], f) && forall l :: 0 <= l < j ==> !IsFor(py, es[l], f)
  {
    hide FindingKey, KeyOf;
  }

  lemma IndexedSeverity(py: Library, es: seq<Record>, j: nat, f: Finding)
    requires Severe(py, f) && j < |es| && FirstMatch(py, es, j, f)
    ensures IndexedWith(py, es, j, f)
  {
    hide Severe, FindingKey, KeyOf, SeverityOf, ExpiresOn;
    var index, k := IndexOf(py, es, |es|), FindingKey(py, f);
    FirstForIsFirstMatch(py, es, j, f);
    IndexHoldsFirst(py, es, |es|, k);
    var l :| 0 <= l < |es| && IndexedFrom(py, es, l, k, index[k]);
    assert l == j;
    SoundIsUsable(py, es[j]);
  }

  lemma FindingErrorExactly(py: Library, es: seq<Record>, fs: seq<Finding>, i: nat, p: Problem)
    requires i < |fs|
    ensures p in FindingProblem(py, IndexOf(py, es, |es|), fs, i) <==> FindingError(py, es, fs, i, p)
  {
    hide Severe, Relevant, FirstOfPair, First, FindingKey, FirstMatch, Matches;
    RelevantIsSevere(py, fs[i]);
    FirstExactly(py, fs, i);
    FirstIsSevere(py, fs, i);
    FirstHasId(py, fs, i);
    if Severe(py, fs[i]) {
      var index, k := IndexOf(py, es, |es|), FindingKey(py, fs[i]);
      IndexedIsFirstMatch(py, es, fs[i]);
      if k in index {
        var j :| 0 <= j < |es| && FirstMatch(py, es, j, fs[i]);
        assert GotOther(py, es, j, fs[i], index[k].severity) <==> index[k].severity !in {"", Severity(py, fs[i])};
      }
    }
  }

  lemma FirstHasId(py: Library, fs: seq<Finding>, i: nat)
    requires i < |fs|
    ensures FirstOfPair(py, fs, i) ==> AdvisoryId(py, fs[i]) != ""
  {
  }

  /** The error list holds exactly these errors of the exceptions and of the findings. */
  lemma ErrorsExactly(py: Library, es: seq<Record>, fs: seq<Finding>, today: int, p: Problem)
    ensures p in Report(py, es, fs, today).errors <==>
      || (exists i :: 0 <= i < |es| && ExceptionError(py, es, i, p))
      || (exists i :: 0 <= i < |fs| && FindingError(py, es, fs, i, p))
  {
    hide ExceptionError, FindingError, ExceptionProblem, FindingProblem, Collect, IndexOf;
    var index := IndexOf(py, es, |es|);
    CollectMembers(ExceptionProblems(py, es), |es|, p);
    CollectMembers(FindingProblems(py, index, fs), |fs|, p);
    forall i: nat | i < |es| ensures p in ExceptionProblems(py, es)(i) <==> ExceptionError(py, es, i, p) {
      ExceptionErrorExactly(py, es, i, p);
    }
    forall i: nat | i < |fs| ensures p in FindingProblems(py, index, fs)(i) <==> FindingError(py, es, fs, i, p) {
      FindingErrorExactly(py, es, fs, i, p);
    }
  }
}
