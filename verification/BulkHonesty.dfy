/**
  When a bulk create can mark a mutation done without a successful insert, for given hooks: over all
  contents of the mutations, edits, checks and databases.
 */
module BulkHonesty {
  import opened Wrappers
  import opened AccountCreate
  import opened BulkCreate
  import opened AccountBulk
  import opened BulkChecks
  import opened BulkMarks

  // ----- Over all contents -----

  /** The same hooks, what they do to the fields of a mutation aside. */
  ghost predicate SameButEdits(a: seq<Hook>, b: seq<Hook>) {
    && |a| == |b|
    && forall k :: 0 <= k < |a| ==> SameHookButEdits(a[k], b[k])
  }

  ghost predicate SameHookButEdits(a: Hook, b: Hook) {
    if a.Answer? then b.Answer? && a.outcome == b.outcome else b.Call? && a.pass == b.pass && a.post == b.post
  }

  ghost predicate SameChainButEdits(a: Config, b: Config) {
    && a.objects == b.objects && a.N() == b.N()
    && forall i :: 0 <= i < a.N() ==> SameButEdits(a.hooks[i], b.hooks[i])
  }

  /** No builder before `s` checks the mutation of builder `s` in the same version. */
  ghost predicate ChecksFirst(cfg: Config, refs: seq<Ref>, s: nat)
    requires |refs| == cfg.N() && s < cfg.N()
  {
    forall j :: 0 <= j < s && refs[j] == refs[s] ==>
      Version(cfg, refs, j + 1, refs[s]) != Version(cfg, refs, s + 1, refs[s])
  }

  /** With some contents, check and database, the run stops inside builder `s` with outcome `o`. */
  ghost predicate CanStop(cfg: Config, refs: seq<Ref>, s: nat, o: Outcome)
    requires |refs| == cfg.N() && s < cfg.N()
  {
    && (forall l :: 0 <= l < s ==> Delivers(cfg.hooks[l], true))
    && if !Delivers(cfg.hooks[s], true) then o == Failed(UnexpectedType)
       else
         || (s == cfg.N() - 1 && o == Failed(InsertFailed))
         || (o.Failed? && o.error.Invalid? && ChecksFirst(cfg, refs, s))
  }

  /** What an outcome inside builder `s` has become when it comes out of the hooks of builder `j`. */
  ghost function Folded(cfg: Config, s: nat, o: Outcome, j: nat): Outcome
    requires j <= s < cfg.N()
    decreases s - j
  {
    Fate(cfg.hooks[j], if j == s then o else Folded(cfg, s, o, j + 1))
  }

  /** Whatever stops a run, no hooks of the builders but the first make a success of it on the way out. */
  ghost predicate Honest(cfg: Config, refs: seq<Ref>)
    requires |refs| == cfg.N()
  {
    forall s: nat, o :: s < cfg.N() && CanStop(cfg, refs, s, o) ==> StaysFailure(cfg, s, o)
  }

  /** An outcome inside builder `s` comes out of no hooks as a success, those of the first builder aside. */
  ghost predicate StaysFailure(cfg: Config, s: nat, o: Outcome)
    requires s < cfg.N()
  {
    forall j :: 1 <= j <= s ==> Folded(cfg, s, o, j) != Done
  }

  lemma {:induction false} DeliversExactly(hooks: seq<Hook>, m: Option<Ref>)
    ensures Delivers(hooks, m.Some?) <==> AllCall(hooks) && Arriving(hooks, m).Some?
  {
    if hooks != [] {
      if hooks[0].Call? { DeliversExactly(hooks[1..], Next(hooks[0], m)); }
      assert hooks == [hooks[0]] + hooks[1..] && hooks[0] in hooks;
    }
  }

  /** With a hook that answers, the outcome inside does not matter. */
  lemma {:induction false} AnswerDecides(hooks: seq<Hook>, o: Outcome, p: Outcome)
    requires !AllCall(hooks)
    ensures Fate(hooks, o) == Fate(hooks, p)
  {
    assert hooks != [];
    if hooks[0].Call? {
      assert hooks == [hooks[0]] + hooks[1..];
      AnswerDecides(hooks[1..], o, p);
    }
  }

  /** Where all builders before `s` hand on, the results are folded from the inside of builder `s`. */
  lemma {:induction false} ResultIsFolded(cfg: Config, refs: seq<Ref>, c: Contents, s: nat, o: Outcome, j: nat)
    requires |refs| == cfg.N() && j <= s < cfg.N() && Reached(cfg, refs, c, s)
    requires Result(cfg, refs, c, s) == Fate(cfg.hooks[s], o)
    ensures Result(cfg, refs, c, j) == Folded(cfg, s, o, j)
    decreases s - j
  {
    hide Passes, Arrived;
    if j < s {
      ResultIsFolded(cfg, refs, c, s, o, j + 1);
      assert Clears(cfg, refs, c, j);
      ClearInner(cfg, refs, c, j);
    }
  }

  // ----- The same hooks with other edits -----

  lemma {:induction false} SameFate(a: seq<Hook>, b: seq<Hook>, o: Outcome)
    requires SameButEdits(a, b)
    ensures Fate(a, o) == Fate(b, o)
  {
    if a != [] {
      assert SameHookButEdits(a[0], b[0]);
      forall k | 0 <= k < |a[1..]| ensures SameHookButEdits(a[1..][k], b[1..][k]) {
        assert SameHookButEdits(a[k + 1], b[k + 1]);
      }
      SameFate(a[1..], b[1..], o);
    }
  }

  lemma {:induction false} SameFolded(a: Config, b: Config, s: nat, o: Outcome, j: nat)
    requires SameChainButEdits(a, b) && j <= s < a.N()
    ensures Folded(a, s, o, j) == Folded(b, s, o, j)
    decreases s - j
  {
    if j < s { SameFolded(a, b, s, o, j + 1); }
    SameFate(a.hooks[j], b.hooks[j], if j == s then o else Folded(a, s, o, j + 1));
  }

  lemma SameButEditsPass(a: Config, b: Config)
    requires SameChainButEdits(a, b)
    ensures SameChain(a, b)
  {
    forall i | 0 <= i < a.N() ensures SamePasses(a.hooks[i], b.hooks[i]) {
      forall k | 0 <= k < |a.hooks[i]|
        ensures (a.hooks[i][k].Call? <==> b.hooks[i][k].Call?) && (a.hooks[i][k].Call? ==> a.hooks[i][k].pass == b.hooks[i][k].pass)
      {
        assert SameHookButEdits(a.hooks[i][k], b.hooks[i][k]);
      }
    }
  }

  lemma SameStops(a: Config, b: Config, refs: seq<Ref>, s: nat, o: Outcome)
    requires SameChain(a, b) && |refs| == a.N() && s < a.N()
    ensures CanStop(a, refs, s, o) <==> CanStop(b, refs, s, o)
  {
    hide Version, Delivers, SamePasses;
    forall l | 0 <= l < a.N() ensures Delivers(a.hooks[l], true) == Delivers(b.hooks[l], true) {
      SameOutcome(a.hooks[l], b.hooks[l], Some(0), 0);
    }
    forall n | 0 <= n <= a.N() ensures Version(a, refs, n, refs[s]) == Version(b, refs, n, refs[s]) {
      SameVersions(a, b, refs, n, refs[s]);
    }
  }

  // ----- Honest hooks -----

  lemma DeliversWhereClear(cfg: Config, refs: seq<Ref>, c: Contents, s: nat)
    requires |refs| == cfg.N() && s <= cfg.N() && Reached(cfg, refs, c, s)
    ensures forall l :: 0 <= l < s ==> Delivers(cfg.hooks[l], true)
  {
    hide Passes, Delivers;
    forall l | 0 <= l < s ensures Delivers(cfg.hooks[l], true) {
      assert Clears(cfg, refs, c, l);
      DeliversExactly(cfg.hooks[l], Some(refs[l]));
    }
  }

  lemma RejectedChecksFirst(cfg: Config, refs: seq<Ref>, c: Contents, s: nat)
    requires |refs| == cfg.N() && s < cfg.N() && Reached(cfg, refs, c, s) && !Passes(cfg, refs, c, s)
    ensures ChecksFirst(cfg, refs, s)
  {
    hide Stage, Version, Arrived;
    forall j | 0 <= j < s && refs[j] == refs[s]
      ensures Version(cfg, refs, j + 1, refs[s]) != Version(cfg, refs, s + 1, refs[s])
    {
      assert Clears(cfg, refs, c, j);
      SameVersion(cfg, refs, c, j + 1, s + 1, refs[s]);
    }
  }

  /** What stops a run is one of the outcomes that can. */
  lemma StopsAsItCan(cfg: Config, refs: seq<Ref>, c: Contents, s: nat) returns (o: Outcome)
    requires |refs| == cfg.N() && s < cfg.N() && Reached(cfg, refs, c, s)
    requires Clears(cfg, refs, c, s) ==> s == cfg.N() - 1 && cfg.db.InsertFails?
    ensures CanStop(cfg, refs, s, o) && Result(cfg, refs, c, s) == Fate(cfg.hooks[s], o)
  {
    hide Fate, Passes, Delivers, Stage;
    DeliversWhereClear(cfg, refs, c, s);
    DeliversExactly(cfg.hooks[s], Some(refs[s]));
    if !Delivers(cfg.hooks[s], true) {
      o := Failed(UnexpectedType);
      if !AllCall(cfg.hooks[s]) { AnswerDecides(cfg.hooks[s], o, Inner(cfg, refs, c, s)); }
    } else {
      o := Inner(cfg, refs, c, s);
      if Clears(cfg, refs, c, s) {
        ClearInner(cfg, refs, c, s);
      } else {
        RejectedChecksFirst(cfg, refs, c, s);
        assert o.Failed? && o.error.Invalid? by { RejectedInner(cfg, refs, c, s); }
      }
    }
  }

  lemma RejectedInner(cfg: Config, refs: seq<Ref>, c: Contents, s: nat)
    requires |refs| == cfg.N() && s < cfg.N() && Arrived(cfg, refs, s).Some? && !Passes(cfg, refs, c, s)
    ensures Inner(cfg, refs, c, s).Failed? && Inner(cfg, refs, c, s).error.Invalid?
  {
  }

  lemma StopOf(cfg: Config, refs: seq<Ref>, c: Contents, j: nat) returns (s: nat)
    requires |refs| == cfg.N() && j < cfg.N() && Reached(cfg, refs, c, j)
    requires !(Reached(cfg, refs, c, cfg.N()) && cfg.db.Inserts?)
    ensures j <= s < cfg.N() && Reached(cfg, refs, c, s)
    ensures Clears(cfg, refs, c, s) ==> s == cfg.N() - 1 && cfg.db.InsertFails?
    decreases cfg.N() - j
  {
    hide Clears;
    if Clears(cfg, refs, c, j) && j < cfg.N() - 1 { s := StopOf(cfg, refs, c, j + 1); } else { s := j; }
  }

  lemma HonestMarksNothing(cfg: Config, st: State)
    requires IsNew(cfg, st) && Honest(cfg, st.current)
    ensures !FalselyMarked(cfg, st)
  {
    hide Clears, Fate, Folded, FalselyMarked, CanStop, Inner;
    var refs, c := st.current, Start(cfg, st);
    MarkedWithoutInsertExactly(cfg, st);
    if FalselyMarked(cfg, st) {
      var j :| 1 <= j < cfg.N() && AnswersDone(cfg, refs, c, j);
      var s := StopOf(cfg, refs, c, j);
      var o := StopsAsItCan(cfg, refs, c, s);
      ResultIsFolded(cfg, refs, c, s, o, j);
    }
  }

  // ----- Dishonest hooks -----

  ghost function Accepting(): Builder {
    Builder(f => f, f => None, f => Spec([], None), f => map[])
  }

  /** A check that lets the run stop inside builder `s` with outcome `o`. */
  ghost function Stopping(cfg: Config, refs: seq<Ref>, s: nat, o: Outcome): (b: Builder)
    requires |refs| == cfg.N() && s < cfg.N()
    ensures SetsNothing(b)
  {
    if Delivers(cfg.hooks[s], true) && o.Failed? && o.error.Invalid? then
      Rejecting(Version(cfg, refs, s + 1, refs[s]), o.error.error)
    else Accepting()
  }

  lemma BumpingButEdits(cfg: Config, create: Builder, db: Insert)
    ensures SameChainButEdits(cfg, BumpingChain(cfg, create, db))
  {
    var c := BumpingChain(cfg, create, db);
    forall i | 0 <= i < cfg.N() ensures SameButEdits(cfg.hooks[i], c.hooks[i]) {
      assert c.hooks[i] == AllBumping(cfg.hooks[i]);
      forall k | 0 <= k < |cfg.hooks[i]| ensures SameHookButEdits(cfg.hooks[i][k], c.hooks[i][k]) {}
    }
  }

  lemma ReachesStop(c: Config, refs: seq<Ref>, start: Contents, s: nat, o: Outcome)
    requires |refs| == c.N() && s < c.N() && CanStop(c, refs, s, o) && InVersion(start, refs[s], 0)
    requires forall j :: 0 <= j < c.N() ==> AllBump(c.hooks[j])
    requires c.create == Stopping(c, refs, s, o)
    ensures Reached(c, refs, start, s)
  {
    hide Stage, Version, Delivers, Bump, AllBump;
    forall l | 0 <= l < s ensures Clears(c, refs, start, l) {
      DeliversExactly(c.hooks[l], Some(refs[l]));
      StageVersions(c, refs, start, l + 1, refs[s]);
      VersionsDiffer(Version(c, refs, l + 1, refs[s]), Version(c, refs, s + 1, refs[s]));
    }
  }

  lemma StopsThere(c: Config, refs: seq<Ref>, start: Contents, s: nat, o: Outcome)
    requires |refs| == c.N() && s < c.N() && CanStop(c, refs, s, o) && InVersion(start, refs[s], 0)
    requires forall j :: 0 <= j < c.N() ==> AllBump(c.hooks[j])
    requires c.create == Stopping(c, refs, s, o) && c.db.InsertFails?
    ensures Result(c, refs, start, s) == Fate(c.hooks[s], o)
  {
    hide Stage, Version, Delivers, Bump, AllBump, Fate;
    DeliversExactly(c.hooks[s], Some(refs[s]));
    StageVersions(c, refs, start, s + 1, refs[s]);
    if !AllCall(c.hooks[s]) { AnswerDecides(c.hooks[s], o, Inner(c, refs, start, s)); }
  }

  /** Hooks that are not honest: some contents, check and database mark something without an insert. */
  lemma FalseMark(cfg: Config, refs: seq<Ref>) returns (c: Config, st: State)
    requires HooksValid(cfg) && cfg.N() > 0 && |refs| == cfg.N() && (forall r :: r in refs ==> r in cfg.objects)
    requires !Honest(cfg, refs)
    ensures SameChainButEdits(cfg, c) && IsNew(c, st) && st.current == refs && FalselyMarked(c, st)
  {
    hide Version, CanStop, Folded, SameChainButEdits, Stopping, Clears, Inner;
    var s: nat, o :| s < cfg.N() && CanStop(cfg, refs, s, o) && !StaysFailure(cfg, s, o);
    var j :| 1 <= j <= s && Folded(cfg, s, o, j) == Done;
    var create := Stopping(cfg, refs, s, o);
    c, st := BumpingChain(cfg, create, InsertFails), VersionedState(cfg, refs, refs[s]);
    assert refs[s] in refs;
    BumpingIsSame(cfg, create, InsertFails);
    BumpingButEdits(cfg, create, InsertFails);
    VersionedIsNew(cfg, refs, refs[s], create, InsertFails);
    SameStops(cfg, c, refs, s, o);
    SameStopping(cfg, c, refs, s, o);
    SameFolded(cfg, c, s, o, j);
    ReachesStop(c, refs, Start(c, st), s, o);
    StopsThere(c, refs, Start(c, st), s, o);
    ResultIsFolded(c, refs, Start(c, st), s, o, j);
    assert AnswersDone(c, refs, Start(c, st), j);
    MarkedWithoutInsertExactly(c, st);
  }

  lemma SameStopping(a: Config, b: Config, refs: seq<Ref>, s: nat, o: Outcome)
    requires SameChain(a, b) && |refs| == a.N() && s < a.N()
    ensures Stopping(a, refs, s, o) == Stopping(b, refs, s, o)
  {
    hide Version, Delivers;
    SameOutcome(a.hooks[s], b.hooks[s], Some(0), 0);
    SameVersions(a, b, refs, s + 1, refs[s]);
  }

  lemma SameHonesty(a: Config, b: Config, refs: seq<Ref>)
    requires SameChainButEdits(a, b) && |refs| == a.N() && Honest(a, refs)
    ensures Honest(b, refs)
  {
    hide CanStop, Folded, SameChainButEdits;
    SameButEditsPass(a, b);
    forall s: nat, o | s < b.N() && CanStop(b, refs, s, o) ensures StaysFailure(b, s, o) {
      SameStops(a, b, refs, s, o);
      assert StaysFailure(a, s, o);
      forall j | 1 <= j <= s ensures Folded(b, s, o, j) != Done { SameFolded(a, b, s, o, j); }
    }
  }

  /**
    Exactly when nothing is ever marked done without a successful insert, whatever the mutations hold,
    the hooks edit, check() rejects and the database does: no hooks of the builders but the first make
    a success of what can stop a run further in.
   */
  lemma MarksAreHonestExactly(cfg: Config, refs: seq<Ref>)
    requires HooksValid(cfg) && cfg.N() > 0 && |refs| == cfg.N() && (forall r :: r in refs ==> r in cfg.objects)
    ensures (forall c: Config, st: State ::
      SameChainButEdits(cfg, c) && IsNew(c, st) && st.current == refs ==> !FalselyMarked(c, st)) <==> Honest(cfg, refs)
  {
    hide FalselyMarked, Honest, SameChainButEdits;
    if Honest(cfg, refs) {
      forall c: Config, st: State | SameChainButEdits(cfg, c) && IsNew(c, st) && st.current == refs
        ensures !FalselyMarked(c, st)
      {
        assert |refs| == c.N();
        SameHonesty(cfg, c, refs);
        HonestMarksNothing(c, st);
      }
    } else {
      var c, st := FalseMark(cfg, refs);
    }
  }

  /** The hooks of every builder but the first make a failure of each failure. */
  ghost predicate InnerHooksReport(cfg: Config) {
    forall j :: 1 <= j < cfg.N() ==> Reports(cfg.hooks[j])
  }

  ghost predicate Reports(hooks: seq<Hook>) {
    forall e :: Fate(hooks, Failed(e)).Failed?
  }

  lemma ReportedFailure(hooks: seq<Hook>, o: Outcome)
    requires Reports(hooks) && o.Failed?
    ensures Fate(hooks, o).Failed?
  {
    hide Fate;
    assert o == Failed(o.error);
  }

  /** Hooks of the inner builders that report every failure are enough; those of the first builder are free. */
  lemma ReportingHooksAreHonest(cfg: Config, refs: seq<Ref>)
    requires |refs| == cfg.N() && InnerHooksReport(cfg)
    ensures Honest(cfg, refs)
  {
    hide Fate, Folded, CanStop;
    forall s: nat, o | s < cfg.N() && CanStop(cfg, refs, s, o) ensures StaysFailure(cfg, s, o) {
      StopIsFailure(cfg, refs, s, o);
      forall j | 1 <= j <= s ensures Folded(cfg, s, o, j) != Done { FoldedFails(cfg, s, o, j); }
    }
  }

  lemma StopIsFailure(cfg: Config, refs: seq<Ref>, s: nat, o: Outcome)
    requires |refs| == cfg.N() && s < cfg.N() && CanStop(cfg, refs, s, o)
    ensures o.Failed?
  {
    hide Version, Delivers;
  }

  lemma {:induction false} FoldedFails(cfg: Config, s: nat, o: Outcome, j: nat)
    requires 1 <= j <= s < cfg.N() && o.Failed? && InnerHooksReport(cfg)
    ensures Folded(cfg, s, o, j).Failed?
    decreases s - j
  {
    hide Fate, Reports;
    if j < s { FoldedFails(cfg, s, o, j + 1); }
    ReportedFailure(cfg.hooks[j], if j == s then o else Folded(cfg, s, o, j + 1));
  }
}
