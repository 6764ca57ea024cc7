/** The audit exception checker: normalisation, the vulnerabilities of a report, and the verdict. */
module ExceptionCheck {
  import opened Wrappers
  import opened Numerals
  import opened ExceptionParser

  /** Library calls that stay abstract: str.lower and date.fromisoformat (dates as day numbers). */
  datatype Library = Library(lower: string -> string, parseDate: string -> Option<int>)

  /** A JSON scalar as Python sees it. */
  datatype Scalar = Nil | Text(text: string) | Number(n: int)

  predicate Truthy(v: Scalar) {
    (v.Text? && v.text != []) || (v.Number? && v.n != 0)
  }

  /** `a or b`. */
  function Or(a: Scalar, b: Scalar): Scalar {
    if Truthy(a) then a else b
  }

  function Str(v: Scalar): string {
    match v
    case Nil => "None"
    case Text(t) => t
    case Number(n) => if n == 0 then "0" else if n < 0 then "-" + Decimal(-n) else Decimal(n)
  }

  function NormalizeSeverity(py: Library, severity: Option<string>): string {
    py.lower(Strip(if severity.Some? then severity.value else []))
  }

  function NormalizePackage(name: Scalar): string {
    if name.Nil? then [] else Strip(Str(name))
  }

  function NormalizeAdvisory(py: Library, advisory: Scalar): string {
    if advisory.Nil? then [] else py.lower(Strip(Str(advisory)))
  }

  // ----- The vulnerabilities of a report -----

  datatype Advisory = Advisory(
    moduleName: Scalar, name: Scalar, severity: Option<string>, githubAdvisoryId: Scalar, url: Scalar,
    cves: seq<Scalar>, id: Scalar, title: Scalar, advisory: Scalar, overview: Scalar)

  datatype Item =
    | Entry(githubAdvisoryId: Scalar, url: Scalar, source: Scalar, title: Scalar, name: Scalar)
    | Reference(text: string)
    | OtherItem

  datatype Via = Items(items: seq<Item>) | Single(text: string) | OtherVia

  datatype Vulnerability = Vulnerability(name: string, severity: Option<string>, via: Via)

  /** Either section is None when the report does not hold it as a dictionary. */
  datatype Audit = Audit(advisories: Option<seq<Advisory>>, vulnerabilities: Option<seq<Vulnerability>>)

  datatype Finding = Finding(name: Scalar, severity: Option<string>, advisoryId: Scalar)

  function PickAdvisoryId(a: Advisory): Scalar {
    Or(a.githubAdvisoryId,
    Or(a.url,
    Or(if a.cves == [] then Nil else a.cves[0],
    Or(if a.id != Nil then Text(Str(a.id)) else Nil,
    Or(a.title,
    Or(a.advisory, a.overview))))))
  }

  /** Where an advisory's id can come from, the most reliable source first. */
  function IdSources(a: Advisory): seq<Scalar> {
    [a.githubAdvisoryId, a.url, if a.cves == [] then Nil else a.cves[0], if a.id == Nil then Nil else Text(Str(a.id)),
     a.title, a.advisory, a.overview]
  }

  /** The picked id is the first usable source, or the last one when none is. */
  lemma PicksFirstUsable(a: Advisory) returns (i: nat)
    ensures i < |IdSources(a)| && PickAdvisoryId(a) == IdSources(a)[i]
    ensures Truthy(IdSources(a)[i]) || i == |IdSources(a)| - 1
    ensures forall j :: 0 <= j < i ==> !Truthy(IdSources(a)[j])
  {
    var s := IdSources(a);
    i := if Truthy(s[0]) then 0 else if Truthy(s[1]) then 1 else if Truthy(s[2]) then 2 else if Truthy(s[3]) then 3
         else if Truthy(s[4]) then 4 else if Truthy(s[5]) then 5 else 6;
  }

  function AdvisoryFinding(a: Advisory): Finding {
    Finding(Or(a.moduleName, a.name), a.severity, PickAdvisoryId(a))
  }

  function ItemId(item: Item): Scalar {
    match item
    case Entry(g, u, s, t, n) => Or(g, Or(u, Or(s, Or(t, n))))
    case Reference(text) => Text(text)
    case OtherItem => Nil
  }

  function TruthyIds(items: seq<Item>): seq<Scalar> {
    if items == [] then []
    else
      var id := ItemId(items[|items| - 1]);
      TruthyIds(items[..|items| - 1]) + if Truthy(id) then [id] else []
  }

  function ViaIds(via: Via): seq<Scalar> {
    match via
    case Items(items) => TruthyIds(items)
    case Single(text) => if text == [] then [] else [Text(text)]
    case OtherVia => []
  }

  function FindingsOf(v: Vulnerability): seq<Finding> {
    var ids := ViaIds(v.via);
    seq(|ids|, k requires 0 <= k < |ids| => Finding(Text(v.name), v.severity, ids[k]))
  }

  function VulnerabilityFindings(vs: seq<Vulnerability>): seq<Finding> {
    if vs == [] then [] else VulnerabilityFindings(vs[..|vs| - 1]) + FindingsOf(vs[|vs| - 1])
  }

  function AdvisoryFindings(advisories: seq<Advisory>): seq<Finding> {
    seq(|advisories|, i requires 0 <= i < |advisories| => AdvisoryFinding(advisories[i]))
  }

  function Findings(data: Audit): seq<Finding> {
    (if data.advisories.Some? then AdvisoryFindings(data.advisories.value) else []) +
    (if data.vulnerabilities.Some? then VulnerabilityFindings(data.vulnerabilities.value) else [])
  }

  /** iter_vulns: first the advisories, then every identified `via` of every vulnerability. */
  method IterVulns(data: Audit) returns (out: seq<Finding>)
    ensures out == Findings(data)
  {
    hide AdvisoryFinding, ViaIds;
    out := [];
    if data.advisories.Some? {
      var advisories := data.advisories.value;
      for i := 0 to |advisories|
        invariant out == AdvisoryFindings(advisories)[..i]
      {
        out := out + [AdvisoryFinding(advisories[i])];
      }
    }
    ghost var head := out;
    if data.vulnerabilities.Some? {
      var vs := data.vulnerabilities.value;
      for i := 0 to |vs|
        invariant out == head + VulnerabilityFindings(vs[..i])
      {
        var ids := CollectIds(vs[i].via);
        for k := 0 to |ids|
          invariant out == head + VulnerabilityFindings(vs[..i]) + FindingsOf(vs[i])[..k]
        {
          out := out + [Finding(Text(vs[i].name), vs[i].severity, ids[k])];
        }
        assert vs[..i + 1][..i] == vs[..i];
      }
      assert vs[..|vs|] == vs;
    }
  }

  method CollectIds(via: Via) returns (ids: seq<Scalar>)
    ensures ids == ViaIds(via)
  {
    ids := [];
    match via {
      case Items(items) =>
        for i := 0 to |items|
          invariant ids == TruthyIds(items[..i])
        {
          var id := ItemId(items[i]);
          assert items[..i + 1][..i] == items[..i];
          if Truthy(id) { ids := ids + [id]; }
        }
        assert items[..|items|] == items;
      case Single(text) =>
        if text != [] { ids := [Text(text)]; }
      case OtherVia =>
    }
  }

  /** The values that Python takes for false. */
  ghost predicate IsEmpty(v: Scalar) {
    v == Nil || v == Text("") || v == Number(0)
  }

  /** What an item of `via` names: the first of five fields that is usable, or the text of a reference. */
  ghost predicate ItemNames(item: Item, id: Scalar) {
    !IsEmpty(id) &&
    match item
    case Entry(githubAdvisoryId, url, source, title, name) =>
      || id == githubAdvisoryId
      || (id == url && IsEmpty(githubAdvisoryId))
      || (id == source && IsEmpty(githubAdvisoryId) && IsEmpty(url))
      || (id == title && IsEmpty(githubAdvisoryId) && IsEmpty(url) && IsEmpty(source))
      || (id == name && IsEmpty(githubAdvisoryId) && IsEmpty(url) && IsEmpty(source) && IsEmpty(title))
    case Reference(text) => id == Text(text)
    case OtherItem => false
  }

  lemma ItemNamesExactly(item: Item, id: Scalar)
    ensures ItemNames(item, id) <==> Truthy(id) && ItemId(item) == id
  {
  }

  /** The advisory ids that the `via` of a vulnerability names. */
  ghost predicate Names(via: Via, id: Scalar) {
    match via
    case Items(items) => exists i :: 0 <= i < |items| && ItemNames(items[i], id)
    case Single(text) => text != [] && id == Text(text)
    case OtherVia => false
  }

  ghost predicate FoundBy(v: Vulnerability, f: Finding) {
    f.name == Text(v.name) && f.severity == v.severity && Names(v.via, f.advisoryId)
  }

  lemma {:induction false} TruthyIdsMembers(items: seq<Item>, id: Scalar)
    ensures id in TruthyIds(items) <==> exists i :: 0 <= i < |items| && ItemNames(items[i], id)
  {
    hide ItemNames, ItemId, Truthy;
    if items != [] {
      var init := items[..|items| - 1];
      TruthyIdsMembers(init, id);
      ItemNamesExactly(items[|init|], id);
      if id in TruthyIds(init) {
        var i :| 0 <= i < |init| && ItemNames(init[i], id);
        assert ItemNames(items[i], id);
      }
      if i :| 0 <= i < |items| && ItemNames(items[i], id) {
        assert i < |init| ==> ItemNames(init[i], id);
      }
    }
  }

  lemma FindingsOfMembers(v: Vulnerability, f: Finding)
    ensures f in FindingsOf(v) <==> FoundBy(v, f)
  {
    var ids := ViaIds(v.via);
    if v.via.Items? { TruthyIdsMembers(v.via.items, f.advisoryId); }
    if f in FindingsOf(v) {
      var k :| 0 <= k < |ids| && FindingsOf(v)[k] == f;
      assert ids[k] in ids;
    }
    if f.advisoryId in ids && f.name == Text(v.name) && f.severity == v.severity {
      var k :| 0 <= k < |ids| && ids[k] == f.advisoryId;
      assert FindingsOf(v)[k] == f;
    }
  }

  lemma {:induction false} VulnerabilityFindingsMembers(vs: seq<Vulnerability>, f: Finding)
    ensures f in VulnerabilityFindings(vs) <==> exists v :: v in vs && FoundBy(v, f)
  {
    if vs != [] {
      var last := vs[|vs| - 1];
      VulnerabilityFindingsMembers(vs[..|vs| - 1], f);
      FindingsOfMembers(last, f);
      assert forall v :: v in vs <==> v in vs[..|vs| - 1] || v == last;
    }
  }

  /** The finding for an advisory: its module or its name, and the first of seven sources that is usable, or the last. */
  ghost predicate FoundIn(a: Advisory, f: Finding) {
    && f.name == (if !IsEmpty(a.moduleName) then a.moduleName else a.name)
    && f.severity == a.severity
    && f.advisoryId ==
       if !IsEmpty(a.githubAdvisoryId) then a.githubAdvisoryId
       else if !IsEmpty(a.url) then a.url
       else if a.cves != [] && !IsEmpty(a.cves[0]) then a.cves[0]
       else if a.id != Nil && a.id != Text("") then Text(Str(a.id))
       else if !IsEmpty(a.title) then a.title
       else if !IsEmpty(a.advisory) then a.advisory
       else a.overview
  }

  lemma FoundInExactly(a: Advisory, f: Finding)
    ensures FoundIn(a, f) <==> f == AdvisoryFinding(a)
  {
  }

  /**
    What a report lists: every advisory, identified or not, but of the vulnerabilities only the ids
    that their `via` names.
   */
  lemma ListedExactly(data: Audit, f: Finding)
    ensures f in Findings(data) <==>
      || (data.advisories.Some? && exists a :: a in data.advisories.value && FoundIn(a, f))
      || (data.vulnerabilities.Some? && exists v :: v in data.vulnerabilities.value && FoundBy(v, f))
  {
    if data.vulnerabilities.Some? { VulnerabilityFindingsMembers(data.vulnerabilities.value, f); }
    if data.advisories.Some? {
      var advisories := data.advisories.value;
      if f in AdvisoryFindings(advisories) {
        var i :| 0 <= i < |advisories| && AdvisoryFindings(advisories)[i] == f;
        assert advisories[i] in advisories;
        FoundInExactly(advisories[i], f);
      }
      if a :| a in advisories && FoundIn(a, f) {
        FoundInExactly(a, f);
        var i :| 0 <= i < |advisories| && advisories[i] == a;
        assert AdvisoryFindings(advisories)[i] == f;
      }
    }
  }

  /** The findings of the advisories come first, one each, in their order. */
  lemma AdvisoriesComeFirst(data: Audit, i: nat)
    requires data.advisories.Some? && i < |data.advisories.value|
    ensures i < |Findings(data)| && FoundIn(data.advisories.value[i], Findings(data)[i])
  {
    var fs := AdvisoryFindings(data.advisories.value);
    FoundInExactly(data.advisories.value[i], fs[i]);
    assert fs[i] == AdvisoryFinding(data.advisories.value[i]);
  }

  /** The ids of a `via` keep the order of its items, of which each names at most one. */
  lemma {:induction false} ViaIdsConcat(a: seq<Item>, b: seq<Item>)
    ensures ViaIds(Items(a + b)) == ViaIds(Items(a)) + ViaIds(Items(b))
    ensures |b| == 1 ==> |ViaIds(Items(b))| <= 1
  {
    hide ItemId, Truthy;
    if b == [] {
      assert a + b == a;
    } else {
      var init := b[..|b| - 1];
      assert (a + b)[..|a + b| - 1] == a + init;
      ViaIdsConcat(a, init);
    }
  }

  lemma {:induction false} VulnerabilityFindingsConcat(a: seq<Vulnerability>, b: seq<Vulnerability>)
    ensures VulnerabilityFindings(a + b) == VulnerabilityFindings(a) + VulnerabilityFindings(b)
  {
    hide FindingsOf;
    if b == [] {
      assert a + b == a;
    } else {
      assert (a + b)[..|a + b| - 1] == a + b[..|b| - 1];
      VulnerabilityFindingsConcat(a, b[..|b| - 1]);
    }
  }

  lemma NothingNamed(v: Vulnerability)
    ensures FindingsOf(v) == [] <==> forall id :: !Names(v.via, id)
  {
    if |FindingsOf(v)| > 0 { FindingsOfMembers(v, FindingsOf(v)[0]); }
    if id :| Names(v.via, id) {
      var f := Finding(Text(v.name), v.severity, id);
      FindingsOfMembers(v, f);
      assert f in FindingsOf(v);
    }
  }

  /**
    A vulnerability leaves no trace exactly when its `via` names no id, whatever its severity: the
    error for a missing advisory id can come from the advisories only.
   */
  lemma UnnamedVulnerabilityIsSilent(before: seq<Vulnerability>, v: Vulnerability, after: seq<Vulnerability>)
    ensures VulnerabilityFindings(before + [v] + after) == VulnerabilityFindings(before + after) <==>
      forall id :: !Names(v.via, id)
  {
    hide FindingsOf, Names;
    VulnerabilityFindingsConcat(before + [v], after);
    VulnerabilityFindingsConcat(before, after);
    var all := before + [v];
    assert all[..|all| - 1] == before;
    NothingNamed(v);
    var a, b, c := VulnerabilityFindings(before), FindingsOf(v), VulnerabilityFindings(after);
    assert VulnerabilityFindings(before + [v] + after) == a + b + c && |a + b + c| == |a + c| + |b|;
    if b == [] { assert a + b == a; }
  }

  // ----- The exceptions -----

  type Key = (string, string)

  const REQUIRED_FIELDS := {"package", "advisory", "severity", "mitigation", "expires_on"}

  const HIGH_SEVERITIES := {"high", "critical"}

  function Get(e: Record, field: string): Option<string> {
    if field in e then Some(e[field]) else None
  }

  /** The required fields that are absent or empty. */
  function MissingFields(e: Record): set<string> {
    set f | f in REQUIRED_FIELDS && (f !in e || e[f] == [])
  }

  function KeyOf(py: Library, e: Record): Key
    requires MissingFields(e) == {}
  {
    HasField(e, "package");
    HasField(e, "advisory");
    (NormalizePackage(Text(e["package"])), NormalizeAdvisory(py, Text(e["advisory"])))
  }

  lemma HasField(e: Record, f: string)
    requires MissingFields(e) == {} && f in REQUIRED_FIELDS
    ensures f in e && e[f] != []
  {
    assert f !in MissingFields(e);
  }

  function ExpiresOn(py: Library, e: Record): Option<int>
    requires MissingFields(e) == {}
  {
    HasField(e, "expires_on");
    py.parseDate(e["expires_on"])
  }

  function SeverityOf(py: Library, e: Record): string {
    NormalizeSeverity(py, Get(e, "severity"))
  }

  /** An exception that can be indexed: complete, with a date and a key without blank parts. */
  predicate Sound(py: Library, e: Record) {
    && MissingFields(e) == {}
    && ExpiresOn(py, e).Some?
    && KeyOf(py, e).0 != [] && KeyOf(py, e).1 != []
  }

  datatype IndexEntry = IndexEntry(raw: Record, severity: string, expiresOn: int)

  datatype Problem =
    | Incomplete(missing: set<string>, package: Option<string>)
    | InvalidDate(package: Option<string>)
    | BlankKey
    | Duplicate(key: Key, advisory: Option<string>)
    | NoAdvisoryId(name: Scalar, severity: string)
    | SeverityMismatch(name: Scalar, advisoryId: Scalar, expected: string, got: string)

  /** part(0) + part(1) + ... + part(n - 1) */
  function Collect<T>(part: nat -> seq<T>, n: nat): seq<T> {
    if n == 0 then [] else Collect(part, n - 1) + part(n - 1)
  }

  lemma {:induction false} CollectEmpty<T>(part: nat -> seq<T>, n: nat)
    ensures Collect(part, n) == [] <==> forall i: nat :: i < n ==> part(i) == []
  {
    if n > 0 {
      CollectEmpty(part, n - 1);
      var a, b := Collect(part, n - 1), part(n - 1);
      if a != [] { assert (a + b)[0] == a[0]; }
      if b != [] { assert (a + b)[|a|] == b[0]; }
    }
  }

  lemma {:induction false} CollectMembers<T>(part: nat -> seq<T>, n: nat, x: T)
    ensures x in Collect(part, n) <==> exists i: nat :: i < n && x in part(i)
  {
    if n > 0 { CollectMembers(part, n - 1, x); }
  }

  lemma CollectNext<T>(head: seq<T>, part: nat -> seq<T>, n: nat)
    ensures head + Collect(part, n + 1) == head + Collect(part, n) + part(n)
  {
  }

  /** The index after the first `n` exceptions: the first sound exception with a key has it. */
  function IndexOf(py: Library, es: seq<Record>, n: nat): map<Key, IndexEntry>
    requires n <= |es|
  {
    if n == 0 then map[]
    else
      var index, e := IndexOf(py, es, n - 1), es[n - 1];
      if Sound(py, e) && KeyOf(py, e) !in index then
        index[KeyOf(py, e) := IndexEntry(e, SeverityOf(py, e), ExpiresOn(py, e).value)]
      else index
  }

  /** What is wrong with the i-th exception. */
  function ExceptionProblem(py: Library, es: seq<Record>, i: nat): seq<Problem>
    requires i < |es|
  {
    var e := es[i];
    if MissingFields(e) != {} then [Incomplete(MissingFields(e), Get(e, "package"))]
    else if ExpiresOn(py, e).None? then [InvalidDate(Get(e, "package"))]
    else if !Sound(py, e) then [BlankKey]
    else if KeyOf(py, e) in IndexOf(py, es, i) then [Duplicate(KeyOf(py, e), Get(e, "advisory"))]
    else []
  }

  function ExceptionProblems(py: Library, es: seq<Record>): nat -> seq<Problem> {
    (i: nat) => if i < |es| then ExceptionProblem(py, es, i) else []
  }

  // ----- The vulnerabilities against the index -----

  predicate Relevant(py: Library, f: Finding) {
    NormalizeSeverity(py, f.severity) in HIGH_SEVERITIES && Truthy(f.name)
  }

  predicate Identified(py: Library, f: Finding) {
    NormalizeAdvisory(py, f.advisoryId) != []
  }

  function FindingKey(py: Library, f: Finding): Key {
    (NormalizePackage(f.name), NormalizeAdvisory(py, f.advisoryId))
  }

  predicate Keyed(py: Library, f: Finding) {
    Relevant(py, f) && Identified(py, f)
  }

  /** The keys of the first `n` findings that the loop gets to compare. */
  function SeenKeys(py: Library, fs: seq<Finding>, n: nat): set<Key>
    requires n <= |fs|
  {
    if n == 0 then {}
    else SeenKeys(py, fs, n - 1) + if Keyed(py, fs[n - 1]) then {FindingKey(py, fs[n - 1])} else {}
  }

  /** The i-th finding is the first one with its key. */
  predicate First(py: Library, fs: seq<Finding>, i: nat)
    requires i < |fs|
  {
    Keyed(py, fs[i]) && FindingKey(py, fs[i]) !in SeenKeys(py, fs, i)
  }

  datatype Unexcused = Unexcused(name: Scalar, severity: string, advisoryId: Scalar)

  datatype Expired = Expired(name: Scalar, severity: string, advisoryId: Scalar, expiresOn: int)

  function FindingProblem(py: Library, index: map<Key, IndexEntry>, fs: seq<Finding>, i: nat): seq<Problem>
    requires i < |fs|
  {
    var f := fs[i];
    var severity := NormalizeSeverity(py, f.severity);
    if !Relevant(py, f) then []
    else if !Identified(py, f) then [NoAdvisoryId(f.name, severity)]
    else if First(py, fs, i) && FindingKey(py, f) in index then
      var entry := index[FindingKey(py, f)];
      if entry.severity != [] && entry.severity != severity then
        [SeverityMismatch(f.name, f.advisoryId, severity, entry.severity)]
      else []
    else []
  }

  function FindingProblems(py: Library, index: map<Key, IndexEntry>, fs: seq<Finding>): nat -> seq<Problem> {
    (i: nat) => if i < |fs| then FindingProblem(py, index, fs, i) else []
  }

  function MissingAt(py: Library, index: map<Key, IndexEntry>, fs: seq<Finding>, i: nat): seq<Unexcused>
    requires i < |fs|
  {
    if First(py, fs, i) && FindingKey(py, fs[i]) !in index then
      [Unexcused(fs[i].name, NormalizeSeverity(py, fs[i].severity), fs[i].advisoryId)]
    else []
  }

  function ExpiredAt(py: Library, index: map<Key, IndexEntry>, fs: seq<Finding>, i: nat, today: int): seq<Expired>
    requires i < |fs|
  {
    var f := fs[i];
    if First(py, fs, i) && FindingKey(py, f) in index && index[FindingKey(py, f)].expiresOn < today then
      [Expired(f.name, NormalizeSeverity(py, f.severity), f.advisoryId, index[FindingKey(py, f)].expiresOn)]
    else []
  }

  function MissingOf(py: Library, index: map<Key, IndexEntry>, fs: seq<Finding>): nat -> seq<Unexcused> {
    (i: nat) => if i < |fs| then MissingAt(py, index, fs, i) else []
  }

  function ExpiredOf(py: Library, index: map<Key, IndexEntry>, fs: seq<Finding>, today: int): nat -> seq<Expired> {
    (i: nat) => if i < |fs| then ExpiredAt(py, index, fs, i, today) else []
  }

  datatype Outcome = Outcome(code: int, errors: seq<Problem>, missing: seq<Unexcused>, expired: seq<Expired>)

  /** The whole report of a run; the exit code is 0 when it is empty. */
  function Report(py: Library, es: seq<Record>, fs: seq<Finding>, today: int): Outcome {
    var index := IndexOf(py, es, |es|);
    var errors := Collect(ExceptionProblems(py, es), |es|) + Collect(FindingProblems(py, index, fs), |fs|);
    var missing := Collect(MissingOf(py, index, fs), |fs|);
    var expired := Collect(ExpiredOf(py, index, fs, today), |fs|);
    Outcome(if errors == [] && missing == [] && expired == [] then 0 else 1, errors, missing, expired)
  }

  /** The decision part of main. */
  method Check(py: Library, es: seq<Record>, fs: seq<Finding>, today: int) returns (outcome: Outcome)
    ensures outcome == Report(py, es, fs, today)
  {
    hide FindingProblem, MissingAt, ExpiredAt, ExceptionProblem, Keyed, FindingKey;
    var index, errors := BuildIndex(py, es);
    ghost var exceptionErrors := errors;
    var missing: seq<Unexcused> := [];
    var expired: seq<Expired> := [];
    var seen: set<Key> := {};
    for i := 0 to |fs|
      invariant seen == SeenKeys(py, fs, i)
      invariant errors == exceptionErrors + Collect(FindingProblems(py, index, fs), i)
      invariant missing == Collect(MissingOf(py, index, fs), i)
      invariant expired == Collect(ExpiredOf(py, index, fs, today), i)
    {
      var e, m, x;
      seen, e, m, x := CheckFinding(py, index, fs, i, today, seen);
      CollectNext(exceptionErrors, FindingProblems(py, index, fs), i);
      errors, missing, expired := errors + e, missing + m, expired + x;
    }
    var code := 0;
    if missing != [] { code := 1; }
    if expired != [] { code := 1; }
    if errors != [] { code := 1; }
    return Outcome(code, errors, missing, expired);
  }

  /** One round of the loop over the findings: what it adds to each list. */
  method CheckFinding(py: Library, index: map<Key, IndexEntry>, fs: seq<Finding>, i: nat, today: int, seen: set<Key>)
    returns (seen': set<Key>, errors: seq<Problem>, missing: seq<Unexcused>, expired: seq<Expired>)
    requires i < |fs| && seen == SeenKeys(py, fs, i)
    ensures seen' == SeenKeys(py, fs, i + 1)
    ensures errors == FindingProblem(py, index, fs, i)
    ensures missing == MissingAt(py, index, fs, i)
    ensures expired == ExpiredAt(py, index, fs, i, today)
  {
    var f := fs[i];
    seen', errors, missing, expired := seen, [], [], [];
    var sev := NormalizeSeverity(py, f.severity);
    if sev !in HIGH_SEVERITIES || !Truthy(f.name) { return; }
    var advisoryKey := NormalizeAdvisory(py, f.advisoryId);
    if advisoryKey == [] {
      errors := [NoAdvisoryId(f.name, sev)];
      return;
    }
    var key := (NormalizePackage(f.name), advisoryKey);
    if key in seen { return; }
    seen' := seen + {key};
    if key !in index {
      missing := [Unexcused(f.name, sev, f.advisoryId)];
      return;
    }
    var exc := index[key];
    if exc.severity != [] && exc.severity != sev {
      errors := [SeverityMismatch(f.name, f.advisoryId, sev, exc.severity)];
    }
    if exc.expiresOn < today {
      expired := [Expired(f.name, sev, f.advisoryId, exc.expiresOn)];
    }
  }

  method BuildIndex(py: Library, es: seq<Record>) returns (index: map<Key, IndexEntry>, errors: seq<Problem>)
    ensures index == IndexOf(py, es, |es|)
    ensures errors == Collect(ExceptionProblems(py, es), |es|)
  {
    hide Sound, KeyOf, ExpiresOn, SeverityOf, ExceptionProblem;
    index, errors := map[], [];
    for i := 0 to |es|
      invariant index == IndexOf(py, es, i)
      invariant errors == Collect(ExceptionProblems(py, es), i)
    {
      var e;
      index, e := IndexException(py, es, i, index);
      errors := errors + e;
    }
  }

  /** One round of the loop over the exceptions. */
  method IndexException(py: Library, es: seq<Record>, i: nat, index: map<Key, IndexEntry>)
    returns (index': map<Key, IndexEntry>, errors: seq<Problem>)
    requires i < |es| && index == IndexOf(py, es, i)
    ensures index' == IndexOf(py, es, i + 1)
    ensures errors == ExceptionProblem(py, es, i)
  {
    var exc := es[i];
    index' := index;
    var missing := MissingFields(exc);
    if missing != {} { return index, [Incomplete(missing, Get(exc, "package"))]; }
    var date := ExpiresOn(py, exc);
    if date.None? { return index, [InvalidDate(Get(exc, "package"))]; }
    var key := KeyOf(py, exc);
    if key.0 == [] || key.1 == [] { return index, [BlankKey]; }
    if key in index { return index, [Duplicate(key, Get(exc, "advisory"))]; }
    index' := index[key := IndexEntry(exc, SeverityOf(py, exc), date.value)];
    errors := [];
  }

  // ----- The verdict -----

  /** Every exception is complete and dated, and no two have the same key. */
  ghost predicate SoundList(py: Library, es: seq<Record>) {
    && (forall e :: e in es ==> Sound(py, e))
    && (forall i, j :: 0 <= i < j < |es| && Sound(py, es[i]) && Sound(py, es[j]) ==> KeyOf(py, es[i]) != KeyOf(py, es[j]))
  }

  ghost predicate IsFor(py: Library, e: Record, f: Finding) {
    Sound(py, e) && KeyOf(py, e) == FindingKey(py, f)
  }

  /** `e` covers `f` and has not expired. */
  ghost predicate Excuses(py: Library, e: Record, f: Finding, today: int) {
    IsFor(py, e, f) && today <= ExpiresOn(py, e).value
  }

  /** `e` covers `f` and names no other severity. */
  ghost predicate AgreesOnSeverity(py: Library, e: Record, f: Finding) {
    IsFor(py, e, f) && SeverityOf(py, e) in {[], NormalizeSeverity(py, f.severity)}
  }

  ghost predicate Covered(py: Library, es: seq<Record>, f: Finding, today: int) {
    Identified(py, f) && exists e :: e in es && Excuses(py, e, f, today)
  }

  ghost predicate Agreed(py: Library, es: seq<Record>, f: Finding) {
    exists e :: e in es && AgreesOnSeverity(py, e, f)
  }

  /** What a clean run means; severities are compared at the first finding of a key only. */
  ghost predicate Accepts(py: Library, es: seq<Record>, fs: seq<Finding>, today: int) {
    && SoundList(py, es)
    && (forall f :: f in fs && Relevant(py, f) ==> Covered(py, es, f, today))
    && (forall i :: 0 <= i < |fs| && First(py, fs, i) ==> Agreed(py, es, fs[i]))
  }

  lemma {:induction false} IndexMembers(py: Library, es: seq<Record>, n: nat, k: Key)
    requires n <= |es|
    ensures var index := IndexOf(py, es, n);
      && (k in index <==> exists j :: 0 <= j < n && Sound(py, es[j]) && KeyOf(py, es[j]) == k)
      && (k in index ==>
            var e := index[k].raw;
            && e in es && Sound(py, e) && KeyOf(py, e) == k
            && index[k] == IndexEntry(e, SeverityOf(py, e), ExpiresOn(py, e).value))
  {
    hide Sound, KeyOf, ExpiresOn, SeverityOf;
    if n > 0 { IndexMembers(py, es, n - 1, k); }
  }

  /** Exception `j` is the first sound one with key `k`. */
  ghost predicate FirstFor(py: Library, es: seq<Record>, j: nat, k: Key)
    requires j < |es|
  {
    && Sound(py, es[j]) && KeyOf(py, es[j]) == k
    && forall l :: 0 <= l < j && Sound(py, es[l]) ==> KeyOf(py, es[l]) != k
  }

  ghost predicate IndexedFrom(py: Library, es: seq<Record>, j: nat, k: Key, entry: IndexEntry)
    requires j < |es|
  {
    FirstFor(py, es, j, k) && entry == IndexEntry(es[j], SeverityOf(py, es[j]), ExpiresOn(py, es[j]).value)
  }

  /** A later exception with the same key is reported, never indexed. */
  lemma {:induction false} IndexHoldsFirst(py: Library, es: seq<Record>, n: nat, k: Key)
    requires n <= |es|
    ensures var index := IndexOf(py, es, n);
      && (k in index <==> exists j :: 0 <= j < n && FirstFor(py, es, j, k))
      && (k in index ==> exists j :: 0 <= j < n && IndexedFrom(py, es, j, k, index[k]))
  {
    hide Sound, KeyOf, ExpiresOn, SeverityOf;
    if n > 0 {
      IndexHoldsFirst(py, es, n - 1, k);
      IndexMembers(py, es, n - 1, k);
      var index := IndexOf(py, es, n);
      if k in index && k !in IndexOf(py, es, n - 1) { assert IndexedFrom(py, es, n - 1, k, index[k]); }
    }
  }

  lemma NoExceptionProblem(py: Library, es: seq<Record>, i: nat)
    requires i < |es|
    ensures ExceptionProblem(py, es, i) == [] <==>
      Sound(py, es[i]) && forall j :: 0 <= j < i && Sound(py, es[j]) ==> KeyOf(py, es[j]) != KeyOf(py, es[i])
  {
    if Sound(py, es[i]) { IndexMembers(py, es, i, KeyOf(py, es[i])); }
  }

  lemma ExceptionsExactly(py: Library, es: seq<Record>)
    ensures Collect(ExceptionProblems(py, es), |es|) == [] <==> SoundList(py, es)
  {
    hide KeyOf, ExpiresOn, MissingFields, ExceptionProblem;
    CollectEmpty(ExceptionProblems(py, es), |es|);
    forall i: nat | i < |es|
      ensures ExceptionProblems(py, es)(i) == [] <==>
        Sound(py, es[i]) && forall j :: 0 <= j < i && Sound(py, es[j]) ==> KeyOf(py, es[j]) != KeyOf(py, es[i])
    {
      NoExceptionProblem(py, es, i);
    }
    assert forall i :: 0 <= i < |es| ==> es[i] in es;
  }

  ghost predicate Clean(py: Library, index: map<Key, IndexEntry>, fs: seq<Finding>, today: int, i: nat)
    requires i < |fs|
  {
    && FindingProblem(py, index, fs, i) == []
    && MissingAt(py, index, fs, i) == []
    && ExpiredAt(py, index, fs, i, today) == []
  }

  ghost predicate AllRoundsClean(py: Library, index: map<Key, IndexEntry>, fs: seq<Finding>, today: int) {
    forall i :: 0 <= i < |fs| ==> Clean(py, index, fs, today, i)
  }

  lemma {:induction false} AllClean(py: Library, index: map<Key, IndexEntry>, fs: seq<Finding>, today: int)
    ensures
      && Collect(FindingProblems(py, index, fs), |fs|) == []
      && Collect(MissingOf(py, index, fs), |fs|) == []
      && Collect(ExpiredOf(py, index, fs, today), |fs|) == []
      <==> AllRoundsClean(py, index, fs, today)
  {
    hide FindingProblem, MissingAt, ExpiredAt, Collect;
    CollectEmpty(FindingProblems(py, index, fs), |fs|);
    CollectEmpty(MissingOf(py, index, fs), |fs|);
    CollectEmpty(ExpiredOf(py, index, fs, today), |fs|);
    forall i: nat | i < |fs|
      ensures Clean(py, index, fs, today, i) <==>
        && FindingProblems(py, index, fs)(i) == []
        && MissingOf(py, index, fs)(i) == []
        && ExpiredOf(py, index, fs, today)(i) == []
    {
    }
  }

  lemma {:induction false} SeenBefore(py: Library, fs: seq<Finding>, n: nat, k: Key)
    requires n <= |fs|
    ensures k in SeenKeys(py, fs, n) <==> exists j :: 0 <= j < n && Keyed(py, fs[j]) && FindingKey(py, fs[j]) == k
  {
    hide Keyed, FindingKey;
    if n > 0 { SeenBefore(py, fs, n - 1, k); }
  }

  lemma {:induction false} SeenFirst(py: Library, fs: seq<Finding>, n: nat, k: Key) returns (j: nat)
    requires n <= |fs| && k in SeenKeys(py, fs, n)
    ensures j < n && First(py, fs, j) && FindingKey(py, fs[j]) == k
  {
    hide Keyed, FindingKey;
    if k in SeenKeys(py, fs, n - 1) { j := SeenFirst(py, fs, n - 1, k); } else { j := n - 1; }
  }

  lemma FirstOfKey(py: Library, fs: seq<Finding>, i: nat) returns (j: nat)
    requires i < |fs| && Keyed(py, fs[i])
    ensures j <= i && First(py, fs, j) && FindingKey(py, fs[j]) == FindingKey(py, fs[i])
  {
    j := SeenFirst(py, fs, i + 1, FindingKey(py, fs[i]));
  }

  /** In a sound list the exception for a finding is the indexed one. */
  lemma {:induction false} IndexedExcuse(py: Library, es: seq<Record>, f: Finding, e: Record)
    requires SoundList(py, es)
    ensures var index, k := IndexOf(py, es, |es|), FindingKey(py, f);
      e in es && IsFor(py, e, f) <==> k in index && index[k].raw == e
  {
    var k := FindingKey(py, f);
    IndexMembers(py, es, |es|, k);
    if e in es && IsFor(py, e, f) {
      var i :| 0 <= i < |es| && es[i] == e;
      assert Sound(py, es[i]) && KeyOf(py, es[i]) == k;
      var r := IndexOf(py, es, |es|)[k].raw;
      var j :| 0 <= j < |es| && es[j] == r;
    }
  }

  /** One round of the loop adds nothing exactly when its finding is in order. */
  lemma CleanExactly(py: Library, es: seq<Record>, fs: seq<Finding>, today: int, i: nat)
    requires SoundList(py, es) && i < |fs|
    ensures Clean(py, IndexOf(py, es, |es|), fs, today, i) <==> InOrder(py, es, fs, today, i)
  {
    var f, index := fs[i], IndexOf(py, es, |es|);
    var k := FindingKey(py, f);
    IndexMembers(py, es, |es|, k);
    forall e ensures e in es && IsFor(py, e, f) <==> k in index && index[k].raw == e { IndexedExcuse(py, es, f, e); }
    if k in index {
      var e := index[k].raw;
      assert IsFor(py, e, f) && e in es;
      assert Covered(py, es, f, today) <==> Identified(py, f) && Excuses(py, e, f, today);
      assert Agreed(py, es, f) <==> AgreesOnSeverity(py, e, f);
    }
  }

  lemma CodeExactly(py: Library, es: seq<Record>, fs: seq<Finding>, today: int)
    ensures Report(py, es, fs, today).code == 0 <==>
      SoundList(py, es) && AllRoundsClean(py, IndexOf(py, es, |es|), fs, today)
  {
    hide Collect, IndexOf, AllRoundsClean, SoundList;
    ExceptionsExactly(py, es);
    AllClean(py, IndexOf(py, es, |es|), fs, today);
  }

  lemma CoverageSpreads(py: Library, es: seq<Record>, f: Finding, g: Finding, today: int)
    requires FindingKey(py, f) == FindingKey(py, g) && Covered(py, es, g, today)
    ensures Covered(py, es, f, today)
  {
    var e :| e in es && Excuses(py, e, g, today);
    assert Excuses(py, e, f, today);
  }

  /** What one round demands of its finding. */
  ghost predicate InOrder(py: Library, es: seq<Record>, fs: seq<Finding>, today: int, i: nat)
    requires i < |fs|
  {
    && (Relevant(py, fs[i]) ==> Identified(py, fs[i]))
    && (First(py, fs, i) ==> Covered(py, es, fs[i], today) && Agreed(py, es, fs[i]))
  }

  ghost predicate AllInOrder(py: Library, es: seq<Record>, fs: seq<Finding>, today: int) {
    forall i :: 0 <= i < |fs| ==> InOrder(py, es, fs, today, i)
  }

  lemma InOrderCovers(py: Library, es: seq<Record>, fs: seq<Finding>, today: int, f: Finding)
    requires AllInOrder(py, es, fs, today)
    requires f in fs && Relevant(py, f)
    ensures Covered(py, es, f, today)
  {
    hide Covered, Agreed, First, FindingKey, Relevant, Identified;
    var i :| 0 <= i < |fs| && fs[i] == f;
    assert InOrder(py, es, fs, today, i);
    var j := FirstOfKey(py, fs, i);
    assert InOrder(py, es, fs, today, j);
    CoverageSpreads(py, es, f, fs[j], today);
  }

  lemma AcceptsByRounds(py: Library, es: seq<Record>, fs: seq<Finding>, today: int)
    ensures Accepts(py, es, fs, today) <==> SoundList(py, es) && AllInOrder(py, es, fs, today)
  {
    hide Agreed, SoundList, FindingKey, Excuses;
    if AllInOrder(py, es, fs, today) {
      forall f | f in fs && Relevant(py, f) ensures Covered(py, es, f, today) {
        InOrderCovers(py, es, fs, today, f);
      }
      forall i | 0 <= i < |fs| && First(py, fs, i) ensures Agreed(py, es, fs[i]) {
        assert InOrder(py, es, fs, today, i);
      }
    }
    if Accepts(py, es, fs, today) {
      forall i | 0 <= i < |fs| ensures InOrder(py, es, fs, today, i) { assert fs[i] in fs; }
    }
  }

  lemma RoundsAgree(py: Library, es: seq<Record>, fs: seq<Finding>, today: int)
    requires SoundList(py, es)
    ensures AllRoundsClean(py, IndexOf(py, es, |es|), fs, today) <==> AllInOrder(py, es, fs, today)
  {
    hide Clean, InOrder, SoundList;
    forall i | 0 <= i < |fs|
      ensures Clean(py, IndexOf(py, es, |es|), fs, today, i) <==> InOrder(py, es, fs, today, i)
    {
      CleanExactly(py, es, fs, today, i);
    }
  }

  /** The verdict is exact: the exit code is 0 exactly when everything is in order. */
  lemma VerdictExactly(py: Library, es: seq<Record>, fs: seq<Finding>, today: int)
    ensures Report(py, es, fs, today).code == 0 <==> Accepts(py, es, fs, today)
  {
    CodeExactly(py, es, fs, today);
    AcceptsByRounds(py, es, fs, today);
    if SoundList(py, es) { RoundsAgree(py, es, fs, today); }
  }

  /** The report names as missing exactly the first findings of their key that no sound exception is for. */
  lemma MissingExactly(py: Library, es: seq<Record>, fs: seq<Finding>, today: int, u: Unexcused)
    ensures u in Report(py, es, fs, today).missing <==> exists i :: 0 <= i < |fs| && IsMissing(py, es, fs, i, u)
  {
    hide First, FindingKey;
    var part := MissingOf(py, IndexOf(py, es, |es|), fs);
    CollectMembers(part, |fs|, u);
    forall i: nat | i < |fs| ensures u in part(i) <==> IsMissing(py, es, fs, i, u) {
      IndexMembers(py, es, |es|, FindingKey(py, fs[i]));
      NoneFor(py, es, fs[i]);
    }
  }

  ghost predicate IsMissing(py: Library, es: seq<Record>, fs: seq<Finding>, i: nat, u: Unexcused)
    requires i < |fs|
  {
    && First(py, fs, i) && (forall e :: e in es ==> !IsFor(py, e, fs[i]))
    && u == Unexcused(fs[i].name, NormalizeSeverity(py, fs[i].severity), fs[i].advisoryId)
  }

  lemma {:induction false} NoneFor(py: Library, es: seq<Record>, f: Finding)
    ensures FindingKey(py, f) in IndexOf(py, es, |es|) <==> exists e :: e in es && IsFor(py, e, f)
  {
    IndexMembers(py, es, |es|, FindingKey(py, f));
    if e :| e in es && IsFor(py, e, f) {
      var j :| 0 <= j < |es| && es[j] == e;
      assert Sound(py, es[j]) && KeyOf(py, es[j]) == FindingKey(py, f);
    }
    if FindingKey(py, f) in IndexOf(py, es, |es|) {
      assert IsFor(py, IndexOf(py, es, |es|)[FindingKey(py, f)].raw, f);
    }
  }

  /** It names as expired exactly the first findings of their key whose first sound exception is out of date. */
  lemma ExpiredExactly(py: Library, es: seq<Record>, fs: seq<Finding>, today: int, x: Expired)
    ensures x in Report(py, es, fs, today).expired <==>
      exists i :: 0 <= i < |fs| && HasExpired(py, es, fs, today, i, x)
  {
    hide Collect, IndexOf, HasExpired, ExpiredAt;
    var part := ExpiredOf(py, IndexOf(py, es, |es|), fs, today);
    CollectMembers(part, |fs|, x);
    forall i: nat | i < |fs|
      ensures x in part(i) <==> HasExpired(py, es, fs, today, i, x)
    {
      ExpiredHere(py, es, fs, today, i, x);
    }
  }

  ghost predicate IsExpired(
    py: Library, es: seq<Record>, fs: seq<Finding>, today: int, i: nat, j: nat, x: Expired)
    requires i < |fs| && j < |es|
  {
    && First(py, fs, i) && FirstFor(py, es, j, FindingKey(py, fs[i]))
    && ExpiresOn(py, es[j]).value < today
    && x == Expired(
              fs[i].name, NormalizeSeverity(py, fs[i].severity), fs[i].advisoryId, ExpiresOn(py, es[j]).value)
  }

  ghost predicate HasExpired(py: Library, es: seq<Record>, fs: seq<Finding>, today: int, i: nat, x: Expired)
    requires i < |fs|
  {
    exists j :: 0 <= j < |es| && IsExpired(py, es, fs, today, i, j, x)
  }

  lemma {:induction false} ExpiredHere(py: Library, es: seq<Record>, fs: seq<Finding>, today: int, i: nat, x: Expired)
    requires i < |fs|
    ensures x in ExpiredAt(py, IndexOf(py, es, |es|), fs, i, today) <==> HasExpired(py, es, fs, today, i, x)
  {
    hide First, FindingKey, KeyOf, ExpiresOn, SeverityOf;
    var index, k := IndexOf(py, es, |es|), FindingKey(py, fs[i]);
    IndexHoldsFirst(py, es, |es|, k);
    if k in index {
      var j :| 0 <= j < |es| && IndexedFrom(py, es, j, k, index[k]);
      assert forall l :: 0 <= l < |es| && FirstFor(py, es, l, k) ==> l == j;
      assert x in ExpiredAt(py, index, fs, i, today) <==> IsExpired(py, es, fs, today, i, j, x);
    }
  }

  /** Time only takes away: what is accepted on a day was accepted on every day before it. */
  lemma VerdictIsMonotone(py: Library, es: seq<Record>, fs: seq<Finding>, today: int, earlier: int)
    requires earlier <= today && Report(py, es, fs, today).code == 0
    ensures Report(py, es, fs, earlier).code == 0
  {
    VerdictExactly(py, es, fs, today);
    VerdictExactly(py, es, fs, earlier);
    forall f | f in fs && Relevant(py, f) ensures Covered(py, es, f, earlier) {
      var e :| e in es && Excuses(py, e, f, today);
      assert Excuses(py, e, f, earlier);
    }
  }
}
