/** The audit loop over the placeholders of one text, and what its verdict says about the rewrite. */
module PlaceholderAudit {
  import opened Numerals
  import opened Placeholders

  /** The largest value of Go's 64-bit int. */
  const MAX_INT: nat := 0x7FFF_FFFF_FFFF_FFFF

  /** strconv.Atoi with its error ignored: a numeral out of range yields the largest int. */
  function Atoi(d: Numeral): nat {
    if Value(d) > MAX_INT then MAX_INT else Value(d)
  }

  ghost predicate Flagged(ds: seq<Numeral>) {
    Repeats(ds) || Drops(ds)
  }

  ghost predicate Repeats(ds: seq<Numeral>) {
    exists i, j :: 0 <= i < j < |ds| && ds[i] == ds[j]
  }

  ghost predicate Drops(ds: seq<Numeral>) {
    exists i :: 0 < i < |ds| && Atoi(ds[i]) < Atoi(ds[i - 1])
  }

  /** The loop: it compares neighbours as numbers and counts repetitions as text. */
  method Audit(ds: seq<Numeral>) returns (bad: bool)
    ensures bad <==> Flagged(ds)
  {
    var seen: map<string, int> := map[];
    bad := false;
    var last := 0;
    for i := 0 to |ds|
      invariant forall d :: d in seen <==> d in ds[..i]
      invariant forall d :: d in seen ==> seen[d] >= 1
      invariant last == if i == 0 then 0 else Atoi(ds[i - 1])
      invariant bad <==> Flagged(ds[..i])
    {
      var d := ds[i];
      seen := seen[d := (if d in seen then seen[d] else 0) + 1];
      var v := Atoi(d);
      FlaggedStep(ds, i);
      if v < last || seen[d] > 1 {
        bad := true;
      }
      last := v;
    }
    assert ds[..|ds|] == ds;
  }

  lemma FlaggedStep(ds: seq<Numeral>, i: nat)
    requires i < |ds|
    ensures Flagged(ds[..i + 1]) <==>
      Flagged(ds[..i]) || ds[i] in ds[..i] || (i > 0 && Atoi(ds[i]) < Atoi(ds[i - 1]))
  {
    var a, b := ds[..i], ds[..i + 1];
    assert b == a + [ds[i]];
    assert Repeats(b) <==> Repeats(a) || ds[i] in a;
    assert Drops(b) <==> Drops(a) || (i > 0 && Atoi(ds[i]) < Atoi(ds[i - 1])) by {
      if k :| 0 < k < |b| && Atoi(b[k]) < Atoi(b[k - 1]) {
        assert k < i ==> Atoi(a[k]) < Atoi(a[k - 1]);
      }
      if k :| 0 < k < |a| && Atoi(a[k]) < Atoi(a[k - 1]) {
        assert Atoi(b[k]) < Atoi(b[k - 1]);
      }
      if i > 0 && Atoi(ds[i]) < Atoi(ds[i - 1]) { assert Atoi(b[i]) < Atoi(b[i - 1]); }
    }
  }

  ghost predicate StrictlyIncreasing(ds: seq<Numeral>) {
    forall i, j :: 0 <= i < j < |ds| ==> Value(ds[i]) < Value(ds[j])
  }

  /** A numeral that Atoi cannot tell from the largest int. */
  predicate Huge(d: Numeral) {
    Value(d) >= MAX_INT
  }

  /** What an unflagged list looks like: increasing as far as Atoi can see, then distinct huge numerals. */
  ghost predicate IncreasingThenHuge(ds: seq<Numeral>) {
    forall i, j :: 0 <= i < j < |ds| ==>
      if Huge(ds[i]) then Huge(ds[j]) && ds[i] != ds[j] else Value(ds[i]) < Value(ds[j])
  }

  lemma {:induction false} AtoiNonDecreasing(ds: seq<Numeral>, i: nat, j: nat)
    requires forall k :: 0 < k < |ds| ==> Atoi(ds[k]) >= Atoi(ds[k - 1])
    requires i <= j < |ds|
    ensures Atoi(ds[i]) <= Atoi(ds[j])
  {
    if i < j { AtoiNonDecreasing(ds, i, j - 1); }
  }

  /** The exact verdict of the loop, for numerals of every size. */
  lemma AuditVerdict(ds: seq<Numeral>)
    ensures !Flagged(ds) <==> IncreasingThenHuge(ds)
  {
    if !Flagged(ds) {
      forall i, j | 0 <= i < j < |ds|
        ensures if Huge(ds[i]) then Huge(ds[j]) && ds[i] != ds[j] else Value(ds[i]) < Value(ds[j])
      {
        AtoiNonDecreasing(ds, i, j);
        ValueInjective(ds[i], ds[j]);
      }
    }
    if IncreasingThenHuge(ds) {
      forall i, j | 0 <= i < j < |ds| ensures ds[i] != ds[j] { ValueInjective(ds[i], ds[j]); }
      forall i | 0 < i < |ds| ensures Atoi(ds[i]) >= Atoi(ds[i - 1]) {}
    }
  }

  /** For numerals that fit an int, the loop accepts exactly the strictly increasing lists. */
  lemma AuditRefinesStrictIncrease(ds: seq<Numeral>)
    requires forall d :: d in ds ==> Value(d) <= MAX_INT
    ensures !Flagged(ds) <==> StrictlyIncreasing(ds)
  {
    AuditVerdict(ds);
    if !Flagged(ds) {
      forall i, j | 0 <= i < j < |ds| ensures Value(ds[i]) < Value(ds[j]) {
        assert ds[i] in ds && ds[j] in ds;
        ValueInjective(ds[i], ds[j]);
      }
    }
    if StrictlyIncreasing(ds) {
      forall i, j | 0 <= i < j < |ds|
        ensures if Huge(ds[i]) then Huge(ds[j]) && ds[i] != ds[j] else Value(ds[i]) < Value(ds[j])
      {
        ValueInjective(ds[i], ds[j]);
      }
    }
  }

  /**
    Exactly when the loop fails to accept the strictly increasing lists and no others: it overlooks a
    decrease between numerals that both lie beyond the int range, and nothing else.
   */
  lemma AuditMissesExactly(ds: seq<Numeral>)
    ensures (!Flagged(ds) <==> StrictlyIncreasing(ds)) <==> !(IncreasingThenHuge(ds) && HugeDecrease(ds))
  {
    AuditVerdict(ds);
    if IncreasingThenHuge(ds) && !HugeDecrease(ds) {
      forall i, j | 0 <= i < j < |ds| ensures Value(ds[i]) < Value(ds[j]) { ValueInjective(ds[i], ds[j]); }
    }
    if StrictlyIncreasing(ds) {
      forall i, j | 0 <= i < j < |ds|
        ensures if Huge(ds[i]) then Huge(ds[j]) && ds[i] != ds[j] else Value(ds[i]) < Value(ds[j])
      {
        ValueInjective(ds[i], ds[j]);
      }
    }
  }

  ghost predicate HugeDecrease(ds: seq<Numeral>) {
    exists i, j :: 0 <= i < j < |ds| && Huge(ds[i]) && Value(ds[i]) > Value(ds[j])
  }

  /** Numerals beyond the int range escape the loop: a decreasing pair of them is not flagged. */
  lemma HugeDecreaseIsNotFlagged(ds: seq<Numeral>)
    requires ds == [Decimal(MAX_INT + 1), Decimal(MAX_INT)]
    ensures !Flagged(ds) && !StrictlyIncreasing(ds)
    ensures Value(ds[1]) == 9_223_372_036_854_775_807
  {
    assert Value(ds[0]) > Value(ds[1]);
    AuditVerdict(ds);
  }

  // ----- What the verdict says about the rewrite -----

  lemma {:induction false} CapturesAreShort(s: string)
    ensures 2 * |Captures(s)| <= |s|
  {
    if s != [] {
      if StartsPlaceholder(s) {
        CapturesAreShort(s[PlaceholderLength(s)..]);
      } else {
        CapturesAreShort(s[1..]);
      }
    }
  }

  /** Strictly increasing positive numbers that end at their own count are 1, 2, 3, ... */
  lemma {:induction false} IncreasingToCount(ds: seq<Numeral>, k: nat)
    requires StrictlyIncreasing(ds)
    requires k < |ds|
    ensures k + 1 <= Value(ds[k]) <= Value(ds[|ds| - 1]) - (|ds| - 1 - k)
  {
    ValuePositive(ds[0]);
    var i := 0;
    while i < k
      invariant 0 <= i <= k && i + 1 <= Value(ds[i])
    {
      i := i + 1;
    }
    while i < |ds| - 1
      invariant k <= i < |ds| && Value(ds[k]) <= Value(ds[i]) - (i - k)
    {
      i := i + 1;
    }
  }

  /**
    When the rewrite is right, for all argument lists: the text holds no `?`, the audit does not
    flag it, and its last index is the number of its placeholders. The audit alone misses the last
    condition. The length bound is Go's own: the length of a text is an int.
   */
  lemma RewriteIsFaithfulExactly(s: string)
    requires |s| <= MAX_INT
    ensures var ds := Captures(s);
      Faithful(s) <==> '?' !in s && !Flagged(ds) && (ds != [] ==> Value(ds[|ds| - 1]) == |ds|)
  {
    var ds := Captures(s);
    FaithfulExactly(s);
    CapturesAreShort(s);
    AuditVerdict(ds);
    if InOrder(ds) {
      assert StrictlyIncreasing(ds);
      AuditRefinesStrictIncrease(ds) by {
        forall d | d in ds ensures Value(d) <= MAX_INT { var k :| 0 <= k < |ds| && ds[k] == d; }
      }
    } else if !Flagged(ds) && ds != [] && Value(ds[|ds| - 1]) == |ds| {
      assert !Huge(ds[|ds| - 1]);
      assert forall i :: 0 <= i < |ds| - 1 ==> !Huge(ds[i]);
      assert StrictlyIncreasing(ds);
      forall k | 0 <= k < |ds| ensures Value(ds[k]) == k + 1 { IncreasingToCount(ds, k); }
    }
  }

  /** A flag is never idle: some argument list shows the difference. */
  lemma FlaggedIsNotFaithful(s: string) returns (args: seq<int>)
    requires Flagged(Captures(s))
    ensures BindPositional(Rewrite(s), args) != BindNumbered(s, args)
  {
    FaithfulExactly(s);
    args :| BindPositional(Rewrite(s), args) != BindNumbered(s, args);
  }

  /** The audit alone is not enough: a gap in the numbering passes it and still binds wrongly. */
  lemma GapIsNotFlagged(s: string)
    requires s == "$2"
    ensures !Flagged(Captures(s)) && !Faithful(s)
  {
    assert StartsPlaceholder(s) && PlaceholderLength(s) == 2;
    assert s[2..] == [] && s[..2][1..] == "2" && "2"[..0] == [];
    assert Captures(s) == ["2"];
    assert Value("2") == 2;
    RewriteIsFaithfulExactly(s);
  }
}
