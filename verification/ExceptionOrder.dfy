/** How the verdict of the audit exception checker depends on the order in which a report lists things. */
module ExceptionOrder {
  import opened Wrappers
  import opened Sequences
  import opened Reordering
  import opened ExceptionParser
  import opened ExceptionCheck

  // ----- Reordering a report -----

  /** The advisories of a report; none when the section is absent. */
  function AdvisoriesOf(data: Audit): seq<Advisory> {
    if data.advisories.Some? then data.advisories.value else []
  }

  function VulnerabilitiesOf(data: Audit): seq<Vulnerability> {
    if data.vulnerabilities.Some? then data.vulnerabilities.value else []
  }

  /** The same vulnerability up to the order of the items in its `via`. */
  ghost predicate SameButItems(v: Vulnerability, w: Vulnerability) {
    && v.name == w.name && v.severity == w.severity
    && (v.via == w.via || (v.via.Items? && w.via.Items? && Permutation(v.via.items, w.via.items)))
  }

  ghost predicate EachSameButItems(vs: seq<Vulnerability>, ws: seq<Vulnerability>) {
    |vs| == |ws| && forall i :: 0 <= i < |vs| ==> SameButItems(vs[i], ws[i])
  }

  ghost predicate VulnerabilitiesReordered(vs: seq<Vulnerability>, ws: seq<Vulnerability>) {
    exists mid :: Permutation(vs, mid) && EachSameButItems(mid, ws)
  }

  /** The same report with its sections, and the items of each `via`, in another order. */
  ghost predicate Reordered(data: Audit, d: Audit) {
    && (data.advisories.Some? <==> d.advisories.Some?)
    && (data.vulnerabilities.Some? <==> d.vulnerabilities.Some?)
    && Permutation(AdvisoriesOf(data), AdvisoriesOf(d))
    && VulnerabilitiesReordered(VulnerabilitiesOf(data), VulnerabilitiesOf(d))
  }

  // ----- The findings of a reordered report -----

  function ToFinding(): Advisory -> Finding {
    a => AdvisoryFinding(a)
  }

  function ToFindings(): Vulnerability -> seq<Finding> {
    v => FindingsOf(v)
  }

  /** The findings that the advisories give. */
  ghost function Head(data: Audit): seq<Finding> {
    FlatMap(AdvisoriesOf(data), Alone(ToFinding()))
  }

  lemma {:induction false} AdvisoryFindingsFlat(advisories: seq<Advisory>)
    ensures AdvisoryFindings(advisories) == FlatMap(advisories, Alone(ToFinding()))
  {
    if advisories != [] {
      AdvisoryFindingsFlat(advisories[1..]);
      assert AdvisoryFindings(advisories) == [AdvisoryFinding(advisories[0])] + AdvisoryFindings(advisories[1..]);
    }
  }

  lemma {:induction false} VulnerabilityFindingsFlat(vs: seq<Vulnerability>)
    ensures VulnerabilityFindings(vs) == FlatMap(vs, ToFindings())
  {
    if vs != [] {
      var init, v := vs[..|vs| - 1], vs[|vs| - 1];
      VulnerabilityFindingsFlat(init);
      FlatMapLast(init, v, ToFindings());
      assert vs == init + [v];
    }
  }

  /** A report lists what its advisories give, and then the block of each vulnerability. */
  lemma FindingsInBlocks(data: Audit)
    ensures Findings(data) == Head(data) + FlatMap(VulnerabilitiesOf(data), ToFindings())
  {
    AdvisoryFindingsFlat(AdvisoriesOf(data));
    VulnerabilityFindingsFlat(VulnerabilitiesOf(data));
  }

  function UsableId(): Item -> seq<Scalar> {
    item => if Truthy(ItemId(item)) then [ItemId(item)] else []
  }

  lemma {:induction false} TruthyIdsFlat(items: seq<Item>)
    ensures TruthyIds(items) == FlatMap(items, UsableId())
  {
    if items != [] {
      var init, item := items[..|items| - 1], items[|items| - 1];
      TruthyIdsFlat(init);
      FlatMapLast(init, item, UsableId());
      assert items == init + [item];
    }
  }

  function NameId(name: string, severity: Option<string>): Scalar -> Finding {
    id => Finding(Text(name), severity, id)
  }

  lemma {:induction false} FindingsOfFlat(ids: seq<Scalar>, name: string, severity: Option<string>)
    ensures seq(|ids|, k requires 0 <= k < |ids| => Finding(Text(name), severity, ids[k])) ==
      FlatMap(ids, Alone(NameId(name, severity)))
  {
    if ids != [] {
      FindingsOfFlat(ids[1..], name, severity);
      var rest := ids[1..];
      assert seq(|ids|, k requires 0 <= k < |ids| => Finding(Text(name), severity, ids[k])) ==
        [Finding(Text(name), severity, ids[0])] +
        seq(|rest|, k requires 0 <= k < |rest| => Finding(Text(name), severity, rest[k]));
    }
  }

  lemma SameFindings(v: Vulnerability, w: Vulnerability)
    requires SameButItems(v, w)
    ensures Permutation(FindingsOf(v), FindingsOf(w))
  {
    if v.via != w.via {
      TruthyIdsFlat(v.via.items);
      TruthyIdsFlat(w.via.items);
      FlatMapPermutes(v.via.items, w.via.items, UsableId());
      FindingsOfFlat(ViaIds(v.via), v.name, v.severity);
      FindingsOfFlat(ViaIds(w.via), w.name, w.severity);
      FlatMapPermutes(ViaIds(v.via), ViaIds(w.via), Alone(NameId(v.name, v.severity)));
    }
  }

  lemma {:induction false} BlocksPermute(vs: seq<Vulnerability>, ws: seq<Vulnerability>)
    requires EachSameButItems(vs, ws)
    ensures Permutation(FlatMap(vs, ToFindings()), FlatMap(ws, ToFindings()))
  {
    if vs != [] {
      SameFindings(vs[0], ws[0]);
      BlocksPermute(vs[1..], ws[1..]);
    }
  }

  /** Reordering a report permutes its findings. */
  lemma ReorderedPermutes(data: Audit, d: Audit)
    requires Reordered(data, d)
    ensures Permutation(Head(data), Head(d))
    ensures Permutation(Findings(data), Findings(d))
  {
    FindingsInBlocks(data);
    FindingsInBlocks(d);
    FlatMapPermutes(AdvisoriesOf(data), AdvisoriesOf(d), Alone(ToFinding()));
    var vs, ws := VulnerabilitiesOf(data), VulnerabilitiesOf(d);
    var mid :| Permutation(vs, mid) && EachSameButItems(mid, ws);
    FlatMapPermutes(vs, mid, ToFindings());
    BlocksPermute(mid, ws);
  }

  // ----- The verdict by first occurrences -----

  /** The conditions that do not depend on the order. */
  ghost predicate AllCovered(py: Library, es: seq<Record>, fs: seq<Finding>, today: int) {
    SoundList(py, es) && forall f :: f in fs && Relevant(py, f) ==> Covered(py, es, f, today)
  }

  ghost function Counts(py: Library): Finding -> bool {
    f => Keyed(py, f)
  }

  ghost function KeyIn(py: Library): Finding -> Key {
    f => FindingKey(py, f)
  }

  ghost function AgreedIn(py: Library, es: seq<Record>): Finding -> bool {
    f => Agreed(py, es, f)
  }

  lemma FirstIsFirst(py: Library, fs: seq<Finding>, i: nat)
    requires i < |fs|
    ensures First(py, fs, i) <==> IsFirst(fs, Counts(py), KeyIn(py), i)
  {
    SeenBefore(py, fs, i, FindingKey(py, fs[i]));
    var counts, key := Counts(py), KeyIn(py);
    assert key(fs[i]) == FindingKey(py, fs[i]) && counts(fs[i]) == Keyed(py, fs[i]);
    assert forall j :: 0 <= j < i ==> key(fs[j]) == FindingKey(py, fs[j]) && counts(fs[j]) == Keyed(py, fs[j]);
  }

  lemma AcceptsByFirsts(py: Library, es: seq<Record>, fs: seq<Finding>, today: int)
    ensures Accepts(py, es, fs, today) <==>
      AllCovered(py, es, fs, today) && FirstsGood(fs, Counts(py), KeyIn(py), AgreedIn(py, es))
  {
    forall i | 0 <= i < |fs|
      ensures First(py, fs, i) <==> IsFirst(fs, Counts(py), KeyIn(py), i)
      ensures Agreed(py, es, fs[i]) <==> AgreedIn(py, es)(fs[i])
    {
      FirstIsFirst(py, fs, i);
    }
  }

  lemma CoverageIsOrderFree(py: Library, es: seq<Record>, fs: seq<Finding>, gs: seq<Finding>, today: int)
    requires Permutation(fs, gs)
    ensures AllCovered(py, es, fs, today) <==> AllCovered(py, es, gs, today)
  {
    SameMembers(fs, gs);
  }

  lemma VerdictByFirsts(py: Library, es: seq<Record>, fs: seq<Finding>, gs: seq<Finding>, today: int)
    requires Permutation(fs, gs)
    ensures Report(py, es, gs, today).code == 0 <==>
      AllCovered(py, es, fs, today) && FirstsGood(gs, Counts(py), KeyIn(py), AgreedIn(py, es))
  {
    VerdictExactly(py, es, gs, today);
    AcceptsByFirsts(py, es, gs, today);
    CoverageIsOrderFree(py, es, fs, gs, today);
  }

  lemma BlocksAreUniform(py: Library, es: seq<Record>, v: Vulnerability)
    ensures Uniform(FindingsOf(v), Counts(py), KeyIn(py), AgreedIn(py, es))
  {
    forall x, y | x in FindingsOf(v) && y in FindingsOf(v) && KeyIn(py)(x) == KeyIn(py)(y)
      ensures AgreedIn(py, es)(x) == AgreedIn(py, es)(y)
    {
      if Agreed(py, es, x) { AgreementSpreads(py, es, y, x); }
      if Agreed(py, es, y) { AgreementSpreads(py, es, x, y); }
    }
  }

  /** The verdict on a report, split into its advisories and the blocks of its vulnerabilities. */
  lemma VerdictByBlocks(py: Library, es: seq<Record>, data: Audit, today: int)
    ensures Report(py, es, Findings(data), today).code == 0 <==>
      && AllCovered(py, es, Findings(data), today)
      && FirstsGood(Head(data), Counts(py), KeyIn(py), AgreedIn(py, es))
      && BlocksGood(Head(data), VulnerabilitiesOf(data), ToFindings(), Counts(py), KeyIn(py), AgreedIn(py, es))
  {
    hide Report, AllCovered, FirstsGood, BlocksGood, Uniform, Findings;
    var vs := VulnerabilitiesOf(data);
    assert Permutation(Findings(data), Findings(data));
    VerdictByFirsts(py, es, Findings(data), Findings(data), today);
    FindingsInBlocks(data);
    forall v | v in vs ensures Uniform(ToFindings()(v), Counts(py), KeyIn(py), AgreedIn(py, es)) {
      BlocksAreUniform(py, es, v);
    }
    FirstsGoodBlocks(Head(data), vs, ToFindings(), Counts(py), KeyIn(py), AgreedIn(py, es));
  }

  lemma AgreementSpreads(py: Library, es: seq<Record>, f: Finding, g: Finding)
    ensures
      && FindingKey(py, f) == FindingKey(py, g)
      && NormalizeSeverity(py, f.severity) == NormalizeSeverity(py, g.severity)
      && Agreed(py, es, g)
      ==> Agreed(py, es, f)
  {
    if FindingKey(py, f) == FindingKey(py, g) && NormalizeSeverity(py, f.severity) == NormalizeSeverity(py, g.severity) {
      if e :| e in es && AgreesOnSeverity(py, e, g) { assert AgreesOnSeverity(py, e, f); }
    }
  }

  // ----- Some order passes -----

  /** The report passes in some order. */
  ghost predicate CanPass(py: Library, es: seq<Record>, data: Audit, today: int) {
    exists d :: Reordered(data, d) && Report(py, es, Findings(d), today).code == 0
  }

  /** The report fails in some order. */
  ghost predicate CanFail(py: Library, es: seq<Record>, data: Audit, today: int) {
    exists d :: Reordered(data, d) && Report(py, es, Findings(d), today).code != 0
  }

  /** A key that an advisory has is decided by the advisories: one of them agrees with the exception. */
  ghost predicate AdvisoriesAgree(py: Library, es: seq<Record>, data: Audit) {
    EachKeyGoodOnce(Head(data), Counts(py), KeyIn(py), AgreedIn(py, es))
  }

  /**
    The other keys are decided by the vulnerabilities: whatever part of them has been read, one of the
    rest agrees with the exceptions for all of its keys that have not come up yet.
   */
  ghost predicate VulnerabilitiesNeverStuck(py: Library, es: seq<Record>, data: Audit) {
    NeverStuck(Head(data), VulnerabilitiesOf(data), ToFindings(), Counts(py), KeyIn(py), AgreedIn(py, es))
  }

  /** The order of the items, and of the advisories in front, does not matter to the blocks. */
  lemma SameBlocksGood(
    head: seq<Finding>, head': seq<Finding>, vs: seq<Vulnerability>, ws: seq<Vulnerability>,
    counts: Finding -> bool, key: Finding -> Key, good: Finding -> bool)
    requires Permutation(head, head') && EachSameButItems(vs, ws)
    requires BlocksGood(head', ws, ToFindings(), counts, key, good)
    ensures BlocksGood(head, vs, ToFindings(), counts, key, good)
  {
    hide GoodAfter, FindingsOf;
    var f := ToFindings();
    forall i | 0 <= i < |vs| ensures GoodAfter(head + FlatMap(vs[..i], f), f(vs[i]), counts, key, good) {
      var a, b := head + FlatMap(vs[..i], f), head' + FlatMap(ws[..i], f);
      BlocksPermute(vs[..i], ws[..i]);
      SameMembers(a, b);
      SameFindings(vs[i], ws[i]);
      SameMembers(f(vs[i]), f(ws[i]));
      GoodAfterMore(b, a, f(ws[i]), counts, key, good);
      GoodAfterSame(a, f(ws[i]), f(vs[i]), counts, key, good);
    }
  }

  lemma GoodAfterSame<T, K>(
    before: seq<T>, block: seq<T>, block': seq<T>, counts: T -> bool, key: T -> K, good: T -> bool)
    requires forall x :: x in block <==> x in block'
    requires GoodAfter(before, block, counts, key, good)
    ensures GoodAfter(before, block', counts, key, good)
  {
  }

  lemma SameVulnerabilities(vs: seq<Vulnerability>)
    ensures EachSameButItems(vs, vs)
  {
  }

  /** A report with the same sections in given orders. */
  ghost function WithOrder(data: Audit, advisories: seq<Advisory>, vs: seq<Vulnerability>): (d: Audit)
    requires Permutation(AdvisoriesOf(data), advisories) && Permutation(VulnerabilitiesOf(data), vs)
    ensures Reordered(data, d) && AdvisoriesOf(d) == advisories && VulnerabilitiesOf(d) == vs
  {
    SameVulnerabilities(vs);
    EmptyPermutation(AdvisoriesOf(data), advisories);
    EmptyPermutation(VulnerabilitiesOf(data), vs);
    Audit(if data.advisories.Some? then Some(advisories) else None, if data.vulnerabilities.Some? then Some(vs) else None)
  }

  lemma EmptyPermutation<T>(s: seq<T>, t: seq<T>)
    requires Permutation(s, t)
    ensures s == [] ==> t == []
  {
    if t != [] { assert t[0] in multiset(t); }
  }

  /** Some order of the report passes exactly under these conditions on the report as it stands. */
  lemma CanPassExactly(py: Library, es: seq<Record>, data: Audit, today: int)
    ensures CanPass(py, es, data, today) <==>
      && AllCovered(py, es, Findings(data), today)
      && AdvisoriesAgree(py, es, data) && VulnerabilitiesNeverStuck(py, es, data)
  {
    hide Report, AllCovered, Findings, Reordered, BlocksGood, FirstsGood, EachKeyGoodOnce, NeverStuck, AdvisoriesOf;
    if d :| Reordered(data, d) && Report(py, es, Findings(d), today).code == 0 { PassesInOrder(py, es, data, d, today); }
    if AllCovered(py, es, Findings(data), today) && AdvisoriesAgree(py, es, data) && VulnerabilitiesNeverStuck(py, es, data) {
      var d := PassingOrder(py, es, data, today);
    }
  }

  lemma PassesInOrder(py: Library, es: seq<Record>, data: Audit, d: Audit, today: int)
    requires Reordered(data, d)
    ensures Report(py, es, Findings(d), today).code == 0 ==>
      && AllCovered(py, es, Findings(data), today)
      && AdvisoriesAgree(py, es, data) && VulnerabilitiesNeverStuck(py, es, data)
  {
    hide Report, AllCovered, Findings, BlocksGood, FirstsGood, EachKeyGoodOnce, NeverStuck, Head;
    var counts, key, good, f := Counts(py), KeyIn(py), AgreedIn(py, es), ToFindings();
    ReorderedPermutes(data, d);
    VerdictByBlocks(py, es, d, today);
    CoverageIsOrderFree(py, es, Findings(data), Findings(d), today);
    SomeOrderGood(Head(data), counts, key, good);
    if Report(py, es, Findings(d), today).code == 0 {
      var mid :| Permutation(VulnerabilitiesOf(data), mid) && EachSameButItems(mid, VulnerabilitiesOf(d));
      SameBlocksGood(Head(data), Head(d), mid, VulnerabilitiesOf(d), counts, key, good);
      BlocksHaveOrder(Head(data), VulnerabilitiesOf(data), f, counts, key, good);
    }
  }

  lemma PassingOrder(py: Library, es: seq<Record>, data: Audit, today: int) returns (d: Audit)
    requires AllCovered(py, es, Findings(data), today)
    requires AdvisoriesAgree(py, es, data) && VulnerabilitiesNeverStuck(py, es, data)
    ensures Reordered(data, d) && Report(py, es, Findings(d), today).code == 0
  {
    hide Report, AllCovered, Findings, Reordered, BlocksGood, FirstsGood, EachKeyGoodOnce, NeverStuck;
    var counts, key, good, f := Counts(py), KeyIn(py), AgreedIn(py, es), ToFindings();
    SomeOrderGood(Head(data), counts, key, good);
    var t :| Permutation(Head(data), t) && FirstsGood(t, counts, key, good);
    var advisories := LiftPermutation(AdvisoriesOf(data), ToFinding(), t);
    BlocksHaveOrder(Head(data), VulnerabilitiesOf(data), f, counts, key, good);
    var vs :| Permutation(VulnerabilitiesOf(data), vs) && BlocksGood(Head(data), vs, f, counts, key, good);
    d := WithOrder(data, advisories, vs);
    SameVulnerabilities(vs);
    SameBlocksGood(t, Head(data), vs, vs, counts, key, good);
    ReorderedPermutes(data, d);
    CoverageIsOrderFree(py, es, Findings(data), Findings(d), today);
    VerdictByBlocks(py, es, d, today);
  }

  // ----- Some order fails -----

  ghost predicate Disagrees(py: Library, es: seq<Record>, f: Finding) {
    Keyed(py, f) && !Agreed(py, es, f)
  }

  /** An advisory disagrees, or a vulnerability does on a key that no advisory has. */
  ghost predicate SomeDisagrees(py: Library, es: seq<Record>, data: Audit) {
    || (exists f :: f in Head(data) && Disagrees(py, es, f))
    || exists v, f :: v in VulnerabilitiesOf(data) && DisagreesAlone(py, es, data, v, f)
  }

  ghost predicate DisagreesAlone(py: Library, es: seq<Record>, data: Audit, v: Vulnerability, f: Finding) {
    f in FindingsOf(v) && Disagrees(py, es, f) && !HasKey(Head(data), Counts(py), KeyIn(py), FindingKey(py, f))
  }

  lemma CanFailExactly(py: Library, es: seq<Record>, data: Audit, today: int)
    ensures CanFail(py, es, data, today) <==>
      !AllCovered(py, es, Findings(data), today) || SomeDisagrees(py, es, data)
  {
    hide Report, AllCovered, Findings, Reordered, SomeDisagrees;
    if d :| Reordered(data, d) && Report(py, es, Findings(d), today).code != 0 {
      if AllCovered(py, es, Findings(data), today) { FailsInOrder(py, es, data, d, today); }
    }
    if !AllCovered(py, es, Findings(data), today) {
      var d := WithOrder(data, AdvisoriesOf(data), VulnerabilitiesOf(data));
      ReorderedPermutes(data, d);
      CoverageIsOrderFree(py, es, Findings(data), Findings(d), today);
      VerdictByBlocks(py, es, d, today);
    } else if SomeDisagrees(py, es, data) {
      var d := FailingOrder(py, es, data, today);
    }
  }

  lemma FailsInOrder(py: Library, es: seq<Record>, data: Audit, d: Audit, today: int)
    requires Reordered(data, d) && Report(py, es, Findings(d), today).code != 0
    requires AllCovered(py, es, Findings(data), today)
    ensures SomeDisagrees(py, es, data)
  {
    hide Report, AllCovered, Findings, Head, Keyed, Agreed, FindingKey, FindingsOf;
    var counts, key, good, f := Counts(py), KeyIn(py), AgreedIn(py, es), ToFindings();
    ReorderedPermutes(data, d);
    CoverageIsOrderFree(py, es, Findings(data), Findings(d), today);
    VerdictByBlocks(py, es, d, today);
    SameMembers(Head(data), Head(d));
    var vs, ws := VulnerabilitiesOf(data), VulnerabilitiesOf(d);
    if !FirstsGood(Head(d), counts, key, good) {
      var i :| 0 <= i < |Head(d)| && IsFirst(Head(d), counts, key, i) && !good(Head(d)[i]);
      assert Head(d)[i] in Head(data) && Disagrees(py, es, Head(d)[i]);
    } else {
      var i :| 0 <= i < |ws| && !GoodAfter(Head(d) + FlatMap(ws[..i], f), f(ws[i]), counts, key, good);
      var x :| x in f(ws[i]) && counts(x) && !HasKey(Head(d) + FlatMap(ws[..i], f), counts, key, key(x)) && !good(x);
      var mid :| Permutation(vs, mid) && EachSameButItems(mid, ws);
      SameFindings(mid[i], ws[i]);
      SameMembers(FindingsOf(mid[i]), FindingsOf(ws[i]));
      SameMembers(vs, mid);
      assert mid[i] in vs;
      NoKeyInFront(Head(data), Head(d), FlatMap(ws[..i], f), counts, key, key(x));
      assert DisagreesAlone(py, es, data, mid[i], x);
    }
  }

  lemma NoKeyInFront<T, K>(a: seq<T>, b: seq<T>, c: seq<T>, counts: T -> bool, key: T -> K, k: K)
    requires forall x :: x in a <==> x in b
    requires !HasKey(b + c, counts, key, k)
    ensures !HasKey(a, counts, key, k)
  {
    forall y | y in a && counts(y) ensures key(y) != k { assert y in b + c; }
  }

  lemma FailingOrder(py: Library, es: seq<Record>, data: Audit, today: int) returns (d: Audit)
    requires AllCovered(py, es, Findings(data), today) && SomeDisagrees(py, es, data)
    ensures Reordered(data, d) && Report(py, es, Findings(d), today).code != 0
  {
    hide Report, AllCovered, Findings, Reordered, FirstsGood, BlocksGood;
    var counts, key, good, f := Counts(py), KeyIn(py), AgreedIn(py, es), ToFindings();
    if x :| x in Head(data) && Disagrees(py, es, x) {
      SomeOrderBad(Head(data), counts, key, good);
      assert counts(x) && !good(x);
      var t :| Permutation(Head(data), t) && !FirstsGood(t, counts, key, good);
      var advisories := LiftPermutation(AdvisoriesOf(data), ToFinding(), t);
      d := WithOrder(data, advisories, VulnerabilitiesOf(data));
    } else {
      var v, x :| v in VulnerabilitiesOf(data) && DisagreesAlone(py, es, data, v, x);
      var vs := InFront(VulnerabilitiesOf(data), v);
      d := WithOrder(data, AdvisoriesOf(data), vs);
      BadInFront(Head(data), vs, x, counts, key, good);
    }
    VerdictByBlocks(py, es, d, today);
  }

  lemma BadInFront(
    head: seq<Finding>, vs: seq<Vulnerability>, x: Finding,
    counts: Finding -> bool, key: Finding -> Key, good: Finding -> bool)
    requires vs != [] && x in FindingsOf(vs[0]) && counts(x) && !good(x) && !HasKey(head, counts, key, key(x))
    ensures !BlocksGood(head, vs, ToFindings(), counts, key, good)
  {
    hide FindingsOf;
    var f := ToFindings();
    assert vs[..0] == [] && head + FlatMap(vs[..0], f) == head;
    assert !GoodAfter(head + FlatMap(vs[..0], f), f(vs[0]), counts, key, good);
  }

  // ----- When the order matters -----

  /**
    The verdict on a report depends on its order in exactly this case: everything is covered, the
    advisories and the vulnerabilities can be put in order, and some finding that can come first disagrees.
   */
  lemma OrderMattersExactly(py: Library, es: seq<Record>, data: Audit, today: int)
    ensures CanPass(py, es, data, today) && CanFail(py, es, data, today) <==>
      && AllCovered(py, es, Findings(data), today)
      && AdvisoriesAgree(py, es, data) && VulnerabilitiesNeverStuck(py, es, data)
      && SomeDisagrees(py, es, data)
  {
    CanPassExactly(py, es, data, today);
    CanFailExactly(py, es, data, today);
  }

  /** No two vulnerabilities are for the same package, white space around the name aside. */
  ghost predicate DistinctPackages(vs: seq<Vulnerability>) {
    forall i, j :: 0 <= i < j < |vs| ==> Strip(vs[i].name) != Strip(vs[j].name)
  }

  /** All vulnerabilities agree on the keys that no advisory has. */
  ghost predicate VulnerabilitiesAgree(py: Library, es: seq<Record>, data: Audit) {
    forall v, f :: v in VulnerabilitiesOf(data) ==> !DisagreesAlone(py, es, data, v, f)
  }

  lemma ElsewhereNoKey(py: Library, vs: seq<Vulnerability>, i: nat, x: Finding)
    requires DistinctPackages(vs) && i < |vs| && x in FindingsOf(vs[i])
    ensures !HasKey(FlatMap(vs[..i] + vs[i + 1..], ToFindings()), Counts(py), KeyIn(py), FindingKey(py, x))
  {
    var others := vs[..i] + vs[i + 1..];
    forall y | y in FlatMap(others, ToFindings()) ensures FindingKey(py, y) != FindingKey(py, x) {
      FlatMapMembers(others, ToFindings(), y);
      var w :| w in others && y in FindingsOf(w);
      var j :| 0 <= j < |others| && others[j] == w;
      assert w == vs[if j < i then j else j + 1];
      PackageOfKey(py, w, y);
      PackageOfKey(py, vs[i], x);
    }
  }

  lemma PackageOfKey(py: Library, v: Vulnerability, f: Finding)
    requires f in FindingsOf(v)
    ensures FindingKey(py, f).0 == Strip(v.name)
  {
  }

  /** Any vulnerability can come last. */
  lemma LastGoesOn(py: Library, es: seq<Record>, data: Audit, i: nat)
    requires VulnerabilitiesNeverStuck(py, es, data) && i < |VulnerabilitiesOf(data)|
    ensures var vs := VulnerabilitiesOf(data);
      CanGoOn(Head(data), vs[..i] + vs[i + 1..], [vs[i]], ToFindings(), Counts(py), KeyIn(py), AgreedIn(py, es))
  {
    hide CanGoOn, Head;
    var vs := VulnerabilitiesOf(data);
    assert vs == vs[..i] + [vs[i]] + vs[i + 1..];
    assert Permutation(vs, vs[..i] + vs[i + 1..] + [vs[i]]);
  }

  lemma NeverStuckAgrees(py: Library, es: seq<Record>, data: Audit, i: nat, x: Finding)
    requires DistinctPackages(VulnerabilitiesOf(data)) && VulnerabilitiesNeverStuck(py, es, data)
    requires i < |VulnerabilitiesOf(data)|
    ensures !DisagreesAlone(py, es, data, VulnerabilitiesOf(data)[i], x)
  {
    hide FindingsOf, FindingKey, Keyed, Agreed, Head, DistinctPackages;
    var head, vs, f := Head(data), VulnerabilitiesOf(data), ToFindings();
    var counts, key, good := Counts(py), KeyIn(py), AgreedIn(py, es);
    var v, others := vs[i], vs[..i] + vs[i + 1..];
    if x in f(v) && counts(x) && !HasKey(head, counts, key, key(x)) {
      assert CanGoOn(head, others, [v], f, counts, key, good) by { LastGoesOn(py, es, data, i); }
      ElsewhereNoKey(py, vs, i, x);
      NoKeyInBoth(head, FlatMap(others, f), counts, key, key(x));
    }
  }

  lemma AgreeingGoesOn(py: Library, es: seq<Record>, data: Audit, placed: seq<Vulnerability>, rest: seq<Vulnerability>)
    requires VulnerabilitiesAgree(py, es, data)
    requires Permutation(VulnerabilitiesOf(data), placed + rest) && rest != []
    ensures CanGoOn(Head(data), placed, rest, ToFindings(), Counts(py), KeyIn(py), AgreedIn(py, es))
  {
    hide FindingsOf, FindingKey, Keyed, Agreed, Head;
    var head, vs, f := Head(data), VulnerabilitiesOf(data), ToFindings();
    var counts, key, good := Counts(py), KeyIn(py), AgreedIn(py, es);
    SameMembers(vs, placed + rest);
    var v := rest[0];
    assert v in placed + rest;
    forall x | x in f(v) && counts(x) && !HasKey(head + FlatMap(placed, f), counts, key, key(x)) ensures good(x) {
      NoKeyInFront(head, head, FlatMap(placed, f), counts, key, key(x));
      assert !DisagreesAlone(py, es, data, v, x);
    }
    assert GoodAfter(head + FlatMap(placed, f), f(v), counts, key, good);
  }

  /** For distinct packages the vulnerabilities cannot help each other. */
  lemma DistinctPackagesNeverStuck(py: Library, es: seq<Record>, data: Audit)
    requires DistinctPackages(VulnerabilitiesOf(data))
    ensures VulnerabilitiesNeverStuck(py, es, data) <==> VulnerabilitiesAgree(py, es, data)
  {
    hide DisagreesAlone, Head, CanGoOn, DistinctPackages;
    var vs := VulnerabilitiesOf(data);
    if VulnerabilitiesNeverStuck(py, es, data) {
      forall v, x | v in vs ensures !DisagreesAlone(py, es, data, v, x) {
        var i :| 0 <= i < |vs| && vs[i] == v;
        NeverStuckAgrees(py, es, data, i, x);
      }
    }
    if VulnerabilitiesAgree(py, es, data) {
      forall placed, rest | Permutation(vs, placed + rest) && rest != []
        ensures CanGoOn(Head(data), placed, rest, ToFindings(), Counts(py), KeyIn(py), AgreedIn(py, es))
      {
        AgreeingGoesOn(py, es, data, placed, rest);
      }
    }
  }

  lemma NoKeyInBoth<T, K>(a: seq<T>, b: seq<T>, counts: T -> bool, key: T -> K, k: K)
    requires !HasKey(a, counts, key, k) && !HasKey(b, counts, key, k)
    ensures !HasKey(a + b, counts, key, k)
  {
  }

  /** For distinct packages only the order of the advisories can matter. */
  lemma OrderMattersForDistinctPackages(py: Library, es: seq<Record>, data: Audit, today: int)
    requires DistinctPackages(VulnerabilitiesOf(data))
    ensures CanPass(py, es, data, today) && CanFail(py, es, data, today) <==>
      && AllCovered(py, es, Findings(data), today)
      && AdvisoriesAgree(py, es, data) && VulnerabilitiesAgree(py, es, data)
      && exists f :: f in Head(data) && Disagrees(py, es, f)
  {
    hide CanPass, CanFail, AllCovered, Findings, AdvisoriesAgree, VulnerabilitiesNeverStuck, DisagreesAlone, Head;
    OrderMattersExactly(py, es, data, today);
    DistinctPackagesNeverStuck(py, es, data);
  }

  ghost predicate SeveritiesAgree(py: Library, fs: seq<Finding>) {
    forall f, g :: f in fs && g in fs && Keyed(py, f) && Keyed(py, g) && FindingKey(py, f) == FindingKey(py, g) ==>
      NormalizeSeverity(py, f.severity) == NormalizeSeverity(py, g.severity)
  }

  lemma AgreeingFirsts(py: Library, es: seq<Record>, fs: seq<Finding>, gs: seq<Finding>)
    requires Permutation(fs, gs) && SeveritiesAgree(py, fs)
    requires FirstsGood(fs, Counts(py), KeyIn(py), AgreedIn(py, es))
    ensures FirstsGood(gs, Counts(py), KeyIn(py), AgreedIn(py, es))
  {
    hide Keyed, FindingKey, Agreed;
    SameMembers(fs, gs);
    var counts, key, good := Counts(py), KeyIn(py), AgreedIn(py, es);
    forall i | 0 <= i < |gs| && IsFirst(gs, counts, key, i) ensures good(gs[i]) {
      assert gs[i] in gs;
      var j :| 0 <= j < |fs| && fs[j] == gs[i];
      var l := FirstOf(fs, counts, key, j);
      assert fs[l] in fs;
      AgreementSpreads(py, es, gs[i], fs[l]);
    }
  }

  /** When the severities agree per key, the order of the report does not matter. */
  lemma OrderDoesNotMatter(py: Library, es: seq<Record>, data: Audit, d: Audit, today: int)
    requires Reordered(data, d) && SeveritiesAgree(py, Findings(data))
    ensures Report(py, es, Findings(data), today).code == Report(py, es, Findings(d), today).code
  {
    hide Report, Findings, Reordered, FirstsGood, AllCovered, SeveritiesAgree;
    var fs, gs := Findings(data), Findings(d);
    ReorderedPermutes(data, d);
    SeveritiesStillAgree(py, fs, gs);
    VerdictByFirsts(py, es, fs, gs, today);
    VerdictByFirsts(py, es, fs, fs, today);
    if FirstsGood(fs, Counts(py), KeyIn(py), AgreedIn(py, es)) { AgreeingFirsts(py, es, fs, gs); }
    if FirstsGood(gs, Counts(py), KeyIn(py), AgreedIn(py, es)) { AgreeingFirsts(py, es, gs, fs); }
    CodesAreBits(py, es, fs, today);
    CodesAreBits(py, es, gs, today);
  }

  lemma CodesAreBits(py: Library, es: seq<Record>, fs: seq<Finding>, today: int)
    ensures Report(py, es, fs, today).code in {0, 1}
  {
  }

  lemma SeveritiesStillAgree(py: Library, fs: seq<Finding>, gs: seq<Finding>)
    requires Permutation(fs, gs) && SeveritiesAgree(py, fs)
    ensures SeveritiesAgree(py, gs)
  {
    hide Keyed, FindingKey, NormalizeSeverity;
    SameMembers(fs, gs);
  }

  // ----- A report for which the order matters -----

  /** An advisory for package p with a given severity. */
  function AdvisoryForP(severity: string): Advisory {
    Advisory(Text("p"), Nil, Some(severity), Text("g"), Nil, [], Nil, Nil, Nil, Nil)
  }

  /** The report that lists the same advisory as high and as critical. */
  function TwiceListed(): Audit {
    Audit(Some([AdvisoryForP("high"), AdvisoryForP("critical")]), None)
  }

  function ExceptionForP(): Record {
    map["package" := "p", "advisory" := "g", "severity" := "high", "mitigation" := "m", "expires_on" := "d"]
  }

  lemma Trims(s: string)
    requires Trimmed(s)
    ensures Strip(s) == s
  {
    assert [] + s + [] == s;
    StripPadded([], s, []);
  }

  lemma SmallTrims()
    ensures Strip("p") == "p" && Strip("g") == "g" && Strip("high") == "high" && Strip("critical") == "critical"
  {
    Trims("p");
    Trims("g");
    Trims("high");
    Trims("critical");
  }

  /** A library whose lower case keeps lower-case texts, and that reads the date of the exception. */
  ghost predicate ReadsLower(py: Library, day: int) {
    && py.lower("g") == "g" && py.lower("high") == "high" && py.lower("critical") == "critical"
    && py.parseDate("d") == Some(day)
  }

  lemma ExceptionForPSound(py: Library, day: int)
    requires ReadsLower(py, day)
    ensures var e := ExceptionForP();
      Sound(py, e) && KeyOf(py, e) == ("p", "g") && SeverityOf(py, e) == "high" && ExpiresOn(py, e) == Some(day)
  {
    hide Strip;
    SmallTrims();
    assert MissingFields(ExceptionForP()) == {};
  }

  lemma AdvisoryForPFinding(py: Library, day: int, severity: string)
    requires ReadsLower(py, day) && severity in {"high", "critical"}
    ensures var f := AdvisoryFinding(AdvisoryForP(severity));
      Keyed(py, f) && Identified(py, f) && FindingKey(py, f) == ("p", "g") && NormalizeSeverity(py, f.severity) == severity
  {
    hide Strip;
    SmallTrims();
  }

  /**
    The verdict does depend on the order: with one exception for a high severity, a report that lists
    its advisory once as high and once as critical passes in one order and fails in the other.
   */
  lemma TwiceListedMatters(py: Library, day: int, today: int)
    requires ReadsLower(py, day) && today <= day
    ensures CanPass(py, [ExceptionForP()], TwiceListed(), today) && CanFail(py, [ExceptionForP()], TwiceListed(), today)
  {
    hide CanPass, CanFail, Strip, AdvisoryFinding, Keyed, FindingKey, NormalizeSeverity, Sound, KeyOf, SeverityOf, ExpiresOn;
    var e, es, data := ExceptionForP(), [ExceptionForP()], TwiceListed();
    var f, g := AdvisoryFinding(AdvisoryForP("high")), AdvisoryFinding(AdvisoryForP("critical"));
    ExceptionForPSound(py, day);
    AdvisoryForPFinding(py, day, "high");
    AdvisoryForPFinding(py, day, "critical");
    TwiceListedFindings();
    CoveredByOne(py, e, day, today, f);
    CoveredByOne(py, e, day, today, g);
    AgreedByOne(py, e, f, "high");
    AgreedByOne(py, e, g, "critical");
    AllCoveredByOne(py, e, f, g, today);
    assert Head(data) == [f, g];
    assert f in Head(data) && g in Head(data) && Disagrees(py, es, g);
    assert AdvisoriesAgree(py, es, data) by {
      forall x | x in Head(data) && Counts(py)(x) ensures HasGood(Head(data), Counts(py), KeyIn(py), AgreedIn(py, es), x) {
        assert KeyIn(py)(f) == KeyIn(py)(x) && AgreedIn(py, es)(f);
      }
    }
    OrderMattersForDistinctPackages(py, es, data, today);
  }

  lemma TwiceListedFindings()
    ensures var f, g := AdvisoryFinding(AdvisoryForP("high")), AdvisoryFinding(AdvisoryForP("critical"));
      Findings(TwiceListed()) == [f, g] && Head(TwiceListed()) == [f, g]
  {
    hide AdvisoryFinding;
    AdvisoryFindingsFlat(AdvisoriesOf(TwiceListed()));
  }

  lemma CoveredByOne(py: Library, e: Record, day: int, today: int, f: Finding)
    requires Sound(py, e) && KeyOf(py, e) == FindingKey(py, f) && ExpiresOn(py, e) == Some(day) && today <= day
    requires Identified(py, f)
    ensures Covered(py, [e], f, today)
  {
    hide FindingKey, Identified;
    assert e in [e] && Excuses(py, e, f, today);
  }

  lemma AgreedByOne(py: Library, e: Record, f: Finding, severity: string)
    requires Sound(py, e) && KeyOf(py, e) == FindingKey(py, f) && SeverityOf(py, e) == "high"
    requires NormalizeSeverity(py, f.severity) == severity && severity in {"high", "critical"}
    ensures Agreed(py, [e], f) <==> severity == "high"
  {
    hide FindingKey, SeverityOf, NormalizeSeverity;
    if severity == "high" { assert e in [e] && AgreesOnSeverity(py, e, f); }
    assert "high" != "critical" by { assert |"high"| != |"critical"|; }
  }

  lemma AllCoveredByOne(py: Library, e: Record, f: Finding, g: Finding, today: int)
    requires Sound(py, e) && Covered(py, [e], f, today) && Covered(py, [e], g, today)
    ensures AllCovered(py, [e], [f, g], today)
  {
    hide Sound, Covered, KeyOf;
  }
}
