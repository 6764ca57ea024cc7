/**
  Which mutations of a bulk create are marked done for given contents, builder by builder, and when that
  happens without a successful insert.
 */
module BulkMarks {
  import opened Wrappers
  import opened AccountCreate
  import opened BulkCreate
  import opened AccountBulk
  import opened BulkChecks

  // ----- Outcomes, from the inside out -----

  /** What hooks make of the outcome of the MutateFunc inside them; a hook that answers does not see it. */
  ghost function Fate(hooks: seq<Hook>, o: Outcome): Outcome {
    if hooks == [] then o
    else if hooks[0].Answer? then hooks[0].outcome
    else hooks[0].post(Fate(hooks[1..], o))
  }

  ghost predicate AllCall(hooks: seq<Hook>) {
    forall h :: h in hooks ==> h.Call?
  }

  ghost function InsertOutcome(db: Insert): Outcome {
    if db.Inserts? then Done else Failed(InsertFailed)
  }

  /** The outcome inside the MutateFunc of builder `i`: a type error, a rejection, or what it gets from further in. */
  ghost function Inner(cfg: Config, refs: seq<Ref>, c: Contents, i: nat): Outcome
    requires |refs| == cfg.N() && i < cfg.N()
    decreases cfg.N() - i, 0
  {
    if Arrived(cfg, refs, i).None? then Failed(UnexpectedType)
    else
      var err := cfg.create.check(Get(Stage(cfg, refs, c, i + 1), refs[i]));
      if err.Some? then Failed(Invalid(err.value))
      else if i < cfg.N() - 1 then Result(cfg, refs, c, i + 1)
      else InsertOutcome(cfg.db)
  }

  /** The outcome of the mutator of builder `i`, its hooks included. */
  ghost function Result(cfg: Config, refs: seq<Ref>, c: Contents, i: nat): Outcome
    requires |refs| == cfg.N() && i < cfg.N()
    decreases cfg.N() - i, 1
  {
    Fate(cfg.hooks[i], Inner(cfg, refs, c, i))
  }

  /** Builder `i` hands on: its hooks call through, a mutation comes out, and its own one passes check(). */
  ghost predicate Clears(cfg: Config, refs: seq<Ref>, c: Contents, i: nat)
    requires |refs| == cfg.N() && i < cfg.N()
  {
    AllCall(cfg.hooks[i]) && Arrived(cfg, refs, i).Some? && Passes(cfg, refs, c, i)
  }

  /** All builders before `n` hand on. */
  ghost predicate Reached(cfg: Config, refs: seq<Ref>, c: Contents, n: nat)
    requires |refs| == cfg.N() && n <= cfg.N()
  {
    forall l :: 0 <= l < n ==> Clears(cfg, refs, c, l)
  }

  // ----- The run has these outcomes -----

  /** From hook `k` of builder `i` on, the run gets through all builders before `n`. */
  ghost predicate GetsTo(cfg: Config, refs: seq<Ref>, c: Contents, i: nat, k: nat, n: nat)
    requires |refs| == cfg.N() && i < n <= cfg.N() && k <= |cfg.hooks[i]|
  {
    && AllCall(cfg.hooks[i][k..]) && Arrived(cfg, refs, i).Some? && Passes(cfg, refs, c, i)
    && forall l :: i < l < n ==> Clears(cfg, refs, c, l)
  }

  ghost predicate MarksFrom(cfg: Config, refs: seq<Ref>, c: Contents, i: nat, k: nat, j: nat)
    requires |refs| == cfg.N() && i < cfg.N() && k <= |cfg.hooks[i]|
  {
    i <= j < cfg.N() && GetsTo(cfg, refs, c, i, k, j + 1) && Inner(cfg, refs, c, j) == Done
  }

  /** What a place leaves behind: its outcome, the builders it marks, and whether it inserts. */
  ghost predicate Leaves(
    cfg: Config, refs: seq<Ref>, c: Contents, i: nat, k: nat, before: seq<Event>, o: Outcome, after: seq<Event>)
    requires |refs| == cfg.N() && i < cfg.N() && k <= |cfg.hooks[i]|
  {
    && o == Fate(cfg.hooks[i][k..], Inner(cfg, refs, c, i))
    && (forall j :: Marked(j) in after <==> Marked(j) in before || MarksFrom(cfg, refs, c, i, k, j))
    && (TallyOf(after).successes ==
        TallyOf(before).successes + if GetsTo(cfg, refs, c, i, k, cfg.N()) && cfg.db.Inserts? then 1 else 0)
  }

  lemma AnswerLeaves(cfg: Config, refs: seq<Ref>, c: Contents, i: nat, k: nat, m: Option<Ref>, st: State)
    requires At(cfg, i, k, m, st) && |refs| == cfg.N()
    requires k < |cfg.hooks[i]| && cfg.hooks[i][k].Answer?
    ensures var (o, st') := Mutate(cfg, i, k, m, st); Leaves(cfg, refs, c, i, k, st.trace, o, st'.trace)
  {
    hide Inner, Passes, Arrived;
    var hs := cfg.hooks[i][k..];
    assert hs[0] == cfg.hooks[i][k] && hs[0] in hs;
    DownTally(cfg, i, k, m, st);
  }

  lemma CallLeaves(
    cfg: Config, refs: seq<Ref>, c: Contents, i: nat, k: nat, m: Option<Ref>, before: seq<Event>, inner: Outcome, st: State)
    requires At(cfg, i, k, m, st) && |refs| == cfg.N()
    requires k < |cfg.hooks[i]| && cfg.hooks[i][k].Call?
    requires Leaves(cfg, refs, c, i, k + 1, before, inner, st.trace)
    ensures var (o, st') := Up(cfg, i, k, m, inner, st); Leaves(cfg, refs, c, i, k, before, o, st'.trace)
  {
    hide Inner, Passes, Arrived, TallyOf, Valid, HooksValid;
    var hs := cfg.hooks[i][k..];
    assert hs[0] == cfg.hooks[i][k] && hs[1..] == cfg.hooks[i][k + 1..];
    assert AllCall(hs) <==> AllCall(hs[1..]) by { assert hs == [hs[0]] + hs[1..]; }
    assert forall n :: i < n <= cfg.N() ==> (GetsTo(cfg, refs, c, i, k, n) <==> GetsTo(cfg, refs, c, i, k + 1, n));
    assert forall j :: MarksFrom(cfg, refs, c, i, k, j) <==> MarksFrom(cfg, refs, c, i, k + 1, j);
    UpTally(cfg, i, k, m, inner, st);
  }

  /** The MutateFunc of builder `i` stops the run. */
  lemma StopLeaves(cfg: Config, refs: seq<Ref>, c: Contents, i: nat, m: Option<Ref>, st: State)
    requires i < cfg.N() && |refs| == cfg.N() && At(cfg, i, |cfg.hooks[i]|, m, st)
    requires Follows(cfg, refs, c, i, |cfg.hooks[i]|, m, st) && Down(cfg, i, |cfg.hooks[i]|, m, st).Stop?
    ensures var d := Down(cfg, i, |cfg.hooks[i]|, m, st);
      Leaves(cfg, refs, c, i, |cfg.hooks[i]|, st.trace, d.outcome, d.st.trace)
  {
    hide HooksValid, TallyOf;
    assert cfg.hooks[i][|cfg.hooks[i]|..] == [];
    assert ContentsOf(st) == Stage(cfg, refs, c, i + 1) && m == Arrived(cfg, refs, i);
    assert st.current[i] in st.current;
    DownTally(cfg, i, |cfg.hooks[i]|, m, st);
  }

  /** At the end of the hooks everything is as the stages say. */
  lemma FillInner(cfg: Config, refs: seq<Ref>, c: Contents, i: nat, m: Option<Ref>, st: State)
    requires i < cfg.N() && |refs| == cfg.N() && At(cfg, i, |cfg.hooks[i]|, m, st)
    requires Follows(cfg, refs, c, i, |cfg.hooks[i]|, m, st) && !Down(cfg, i, |cfg.hooks[i]|, m, st).Stop?
    ensures m.Some? && Arrived(cfg, refs, i).Some? && Passes(cfg, refs, c, i)
    ensures Inner(cfg, refs, c, i) == if i < cfg.N() - 1 then Result(cfg, refs, c, i + 1) else InsertOutcome(cfg.db)
    ensures forall j :: Marked(j) in Down(cfg, i, |cfg.hooks[i]|, m, st).st.trace <==> Marked(j) in st.trace
  {
    hide HooksValid, Result;
    assert cfg.hooks[i][|cfg.hooks[i]|..] == [];
    FillFollows(cfg, refs, c, i, m, st);
  }

  /** The way back up through a MutateFunc marks its builder exactly after an inner success. */
  lemma UpMarks(cfg: Config, i: nat, m: Option<Ref>, inner: Outcome, st: State)
    requires i < cfg.N() && At(cfg, i, |cfg.hooks[i]|, m, st) && m.Some?
    ensures var (o, st') := Up(cfg, i, |cfg.hooks[i]|, m, inner, st);
      && o == inner
      && (forall j :: Marked(j) in st'.trace <==> Marked(j) in st.trace || (j == i && inner == Done))
      && TallyOf(st'.trace).successes == TallyOf(st.trace).successes
  {
    UpTally(cfg, i, |cfg.hooks[i]|, m, inner, st);
  }

  lemma GoLeaves(cfg: Config, refs: seq<Ref>, c: Contents, i: nat, m: Option<Ref>, st: State, inner: Outcome, after: State)
    requires i < cfg.N() && |refs| == cfg.N() && At(cfg, i, |cfg.hooks[i]|, m, st)
    requires Follows(cfg, refs, c, i, |cfg.hooks[i]|, m, st)
    requires var d := Down(cfg, i, |cfg.hooks[i]|, m, st);
      d.Go? && d.i < cfg.N() && Leaves(cfg, refs, c, d.i, 0, d.st.trace, inner, after.trace)
    requires Valid(cfg, after)
    ensures var (o, st') := Up(cfg, i, |cfg.hooks[i]|, m, inner, after);
      Leaves(cfg, refs, c, i, |cfg.hooks[i]|, st.trace, o, st'.trace)
  {
    hide Down, Up, Valid, HooksValid, Follows, TallyOf, Inner, Passes, Arrived, Clears;
    FillInner(cfg, refs, c, i, m, st);
    DownTally(cfg, i, |cfg.hooks[i]|, m, st);
    UpMarks(cfg, i, m, inner, after);
    assert cfg.hooks[i][|cfg.hooks[i]|..] == [] && cfg.hooks[i + 1][0..] == cfg.hooks[i + 1];
    GetsThrough(cfg, refs, c, i);
    forall j: nat ensures MarksFrom(cfg, refs, c, i, |cfg.hooks[i]|, j) <==>
        MarksFrom(cfg, refs, c, i + 1, 0, j) || (j == i && inner == Done)
    {
      if j > i && j < cfg.N() { GetsThroughTo(cfg, refs, c, i, j + 1); }
    }
    GetsThroughTo(cfg, refs, c, i, cfg.N());
  }

  lemma GetsThrough(cfg: Config, refs: seq<Ref>, c: Contents, i: nat)
    requires |refs| == cfg.N() && i < cfg.N() && Arrived(cfg, refs, i).Some? && Passes(cfg, refs, c, i)
    ensures GetsTo(cfg, refs, c, i, |cfg.hooks[i]|, i + 1)
  {
    hide Passes, Arrived;
  }

  lemma GetsThroughTo(cfg: Config, refs: seq<Ref>, c: Contents, i: nat, n: nat)
    requires |refs| == cfg.N() && i + 1 < n <= cfg.N() && Arrived(cfg, refs, i).Some? && Passes(cfg, refs, c, i)
    ensures GetsTo(cfg, refs, c, i, |cfg.hooks[i]|, n) <==> GetsTo(cfg, refs, c, i + 1, 0, n)
  {
    hide Passes, Arrived;
    assert cfg.hooks[i][|cfg.hooks[i]|..] == [] && cfg.hooks[i + 1][0..] == cfg.hooks[i + 1];
    if GetsTo(cfg, refs, c, i, |cfg.hooks[i]|, n) { assert Clears(cfg, refs, c, i + 1); }
  }

  lemma ExecuteLeaves(cfg: Config, refs: seq<Ref>, c: Contents, i: nat, m: Option<Ref>, st: State)
    requires i < cfg.N() && |refs| == cfg.N() && At(cfg, i, |cfg.hooks[i]|, m, st)
    requires Follows(cfg, refs, c, i, |cfg.hooks[i]|, m, st) && Down(cfg, i, |cfg.hooks[i]|, m, st).Execute?
    ensures var (o, st') := Mutate(cfg, i, |cfg.hooks[i]|, m, st);
      Leaves(cfg, refs, c, i, |cfg.hooks[i]|, st.trace, o, st'.trace)
  {
    hide Down, Up, Valid, HooksValid, Follows, TallyOf, Inner, Passes, Arrived, Clears;
    var st1 := Down(cfg, i, |cfg.hooks[i]|, m, st).st;
    var (inner, after) := BatchCreate(cfg, st1);
    FillInner(cfg, refs, c, i, m, st);
    DownTally(cfg, i, |cfg.hooks[i]|, m, st);
    BatchTally(cfg, st1);
    InsertedIsDone(cfg, st1);
    UpMarks(cfg, i, m, inner, after);
    assert cfg.hooks[i][|cfg.hooks[i]|..] == [];
    GetsThrough(cfg, refs, c, i);
  }

  /** From every place of the chain, the run has the outcome and leaves the marks that the stages give. */
  lemma {:induction false} RunLeaves(cfg: Config, refs: seq<Ref>, c: Contents, i: nat, k: nat, m: Option<Ref>, st: State)
    requires At(cfg, i, k, m, st) && |refs| == cfg.N() && Follows(cfg, refs, c, i, k, m, st)
    ensures var (o, st') := Mutate(cfg, i, k, m, st); Leaves(cfg, refs, c, i, k, st.trace, o, st'.trace)
    decreases cfg.N() - i, |cfg.hooks[i]| - k
  {
    hide Down, Up, Valid, HooksValid, Follows, Leaves, BatchCreate;
    var d := Down(cfg, i, k, m, st);
    if k < |cfg.hooks[i]| && cfg.hooks[i][k].Answer? {
      AnswerLeaves(cfg, refs, c, i, k, m, st);
    } else if k < |cfg.hooks[i]| {
      HookFollows(cfg, refs, c, i, k, m, st);
      RunLeaves(cfg, refs, c, d.i, d.k, d.m, d.st);
      var (inner, after) := Mutate(cfg, d.i, d.k, d.m, d.st);
      LeavesAlike(cfg, refs, c, i, k, m, st, inner, after.trace);
      CallLeaves(cfg, refs, c, i, k, m, st.trace, inner, after);
    } else {
      match d {
        case Stop(_, _) => StopLeaves(cfg, refs, c, i, m, st);
        case Go(i', k', m', st') =>
          FillInner(cfg, refs, c, i, m, st);
          FillFollows(cfg, refs, c, i, m, st);
          RunLeaves(cfg, refs, c, i', k', m', st');
          var (inner, after) := Mutate(cfg, i', k', m', st');
          GoLeaves(cfg, refs, c, i, m, st, inner, after);
        case Execute(_) => ExecuteLeaves(cfg, refs, c, i, m, st);
      }
    }
  }

  /** Going into a hook is no mark. */
  lemma LeavesAlike(
    cfg: Config, refs: seq<Ref>, c: Contents, i: nat, k: nat, m: Option<Ref>, st: State, inner: Outcome, after: seq<Event>)
    requires At(cfg, i, k, m, st) && |refs| == cfg.N() && k < |cfg.hooks[i]| && cfg.hooks[i][k].Call?
    requires Leaves(cfg, refs, c, i, k + 1, Down(cfg, i, k, m, st).st.trace, inner, after)
    ensures Leaves(cfg, refs, c, i, k + 1, st.trace, inner, after)
  {
    hide TallyOf, MarksFrom, GetsTo, Inner;
    DownTally(cfg, i, k, m, st);
  }

  // ----- Save -----

  ghost predicate IsMarked(t: seq<Event>, j: nat) {
    Marked(j) in t
  }

  /**
    For all hooks and contents: the outcome of Save, whether it inserts, and exactly which builders'
    mutations it marks done.
   */
  lemma SaveResults(cfg: Config, st: State)
    requires IsNew(cfg, st)
    ensures var (o, st') := SaveFrom(cfg, st);
      var refs, c := st.current, Start(cfg, st);
      && o == Result(cfg, refs, c, 0)
      && (forall j: nat :: IsMarked(st'.trace, j) <==>
            j < cfg.N() && Reached(cfg, refs, c, j + 1) && Inner(cfg, refs, c, j) == Done)
      && (TallyOf(st'.trace).successes > 0 <==> Reached(cfg, refs, c, cfg.N()) && cfg.db.Inserts?)
  {
    DefaultsKeepObjects(cfg.create, st.mutations, st.current, |st.current|);
    var p, m, refs, c := Prepared(cfg.create, st), Some(st.current[0]), st.current, Start(cfg, st);
    assert cfg.hooks[0][0..] == cfg.hooks[0];
    assert Follows(cfg, refs, c, 0, 0, m, p) by { assert Stage(cfg, refs, c, 0) == c; }
    RunLeaves(cfg, refs, c, 0, 0, m, p);
    forall n: nat | 0 < n <= cfg.N() ensures GetsTo(cfg, refs, c, 0, 0, n) <==> Reached(cfg, refs, c, n) {
      ReachedFromFront(cfg, refs, c, n);
    }
  }

  lemma ReachedFromFront(cfg: Config, refs: seq<Ref>, c: Contents, n: nat)
    requires |refs| == cfg.N() && 0 < n <= cfg.N()
    ensures GetsTo(cfg, refs, c, 0, 0, n) <==> Reached(cfg, refs, c, n)
  {
    hide Passes, Arrived;
    assert cfg.hooks[0][0..] == cfg.hooks[0];
    if Reached(cfg, refs, c, n) { assert Clears(cfg, refs, c, 0); }
    if GetsTo(cfg, refs, c, 0, 0, n) {
      forall l | 0 <= l < n ensures Clears(cfg, refs, c, l) {}
    }
  }

  /** Some mutation is marked done although nothing was inserted. */
  ghost predicate FalselyMarked(cfg: Config, st: State)
    requires IsNew(cfg, st)
  {
    var t := SaveFrom(cfg, st).1.trace;
    TallyOf(t).successes == 0 && exists j: nat :: IsMarked(t, j)
  }

  /** The run gets to builder `j`, and its mutator answers without an error. */
  ghost predicate AnswersDone(cfg: Config, refs: seq<Ref>, c: Contents, j: nat)
    requires |refs| == cfg.N() && j < cfg.N()
  {
    Reached(cfg, refs, c, j) && Result(cfg, refs, c, j) == Done
  }

  lemma ClearInner(cfg: Config, refs: seq<Ref>, c: Contents, i: nat)
    requires |refs| == cfg.N() && i < cfg.N() && Clears(cfg, refs, c, i)
    ensures Inner(cfg, refs, c, i) == if i < cfg.N() - 1 then Result(cfg, refs, c, i + 1) else InsertOutcome(cfg.db)
  {
  }

  lemma MarkNeedsAnswer(cfg: Config, refs: seq<Ref>, c: Contents, j: nat)
    requires |refs| == cfg.N() && j < cfg.N()
    requires Reached(cfg, refs, c, j + 1) && Inner(cfg, refs, c, j) == Done
    requires !(Reached(cfg, refs, c, cfg.N()) && cfg.db.Inserts?)
    ensures j + 1 < cfg.N() && AnswersDone(cfg, refs, c, j + 1)
  {
    hide Clears, Result;
    assert Clears(cfg, refs, c, j);
    ClearInner(cfg, refs, c, j);
  }

  /**
    For given contents: without a successful insert, something is marked done exactly when the run gets
    to some builder but the first whose hooks turn what stops the run into a success.
   */
  lemma MarkedWithoutInsertExactly(cfg: Config, st: State)
    requires IsNew(cfg, st)
    ensures var refs, c := st.current, Start(cfg, st);
      FalselyMarked(cfg, st) <==>
        !(Reached(cfg, refs, c, cfg.N()) && cfg.db.Inserts?) &&
        exists j :: 1 <= j < cfg.N() && AnswersDone(cfg, refs, c, j)
  {
    hide Clears, Inner, Result, IsMarked, TallyOf, SaveFrom, Start;
    var refs, c := st.current, Start(cfg, st);
    var t := SaveFrom(cfg, st).1.trace;
    SaveResults(cfg, st);
    if j: nat :| IsMarked(t, j) && TallyOf(t).successes == 0 {
      MarkNeedsAnswer(cfg, refs, c, j);
    }
    if j :| 1 <= j < cfg.N() && AnswersDone(cfg, refs, c, j) {
      assert Clears(cfg, refs, c, j - 1);
      ClearInner(cfg, refs, c, j - 1);
      assert IsMarked(t, j - 1);
    }
  }

  /** A hook that answers for an inner builder: the builder around it is marked done, and nothing is inserted. */
  lemma AnswerMarksOutside(cfg: Config, st: State)
    requires IsNew(cfg, st) && cfg.hooks == [[], [Answer(Done)]]
    requires Passes(cfg, st.current, Start(cfg, st), 0)
    ensures var (o, st') := SaveFrom(cfg, st);
      o == Done && TallyOf(st'.trace).inserts == 0 && IsMarked(st'.trace, 0)
  {
    hide Stage;
    var refs, c := st.current, Start(cfg, st);
    assert Answer(Done) in cfg.hooks[1] && cfg.hooks[0] == [];
    assert Fate([], Inner(cfg, refs, c, 0)) == Inner(cfg, refs, c, 0) == Result(cfg, refs, c, 1) == Done;
    assert Reached(cfg, refs, c, 1);
    SaveResults(cfg, st);
    SaveInsertsOnceAndCompletely(cfg, st);
    assert !Delivers(cfg.hooks[1], true) && !AllDeliver(cfg, 1);
  }
}
