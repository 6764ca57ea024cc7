/**
  Hooks that decide by what they see. Each of their runs is the run of a fixed chain, one of those that
  their decisions can be put together to; so whatever holds of all these chains holds of the hooks.
 */
module BulkChoices {
  import opened Wrappers
  import opened BulkCreate
  import opened AccountBulk
  import opened BulkChecks
  import opened BulkMarks
  import opened BulkHonesty

  /** What a hook does, given the mutation that it got and everything that has happened so far. */
  type Choice = (Option<Ref>, State) -> Hook

  datatype Choosing = Choosing(
    choices: seq<seq<Choice>>, create: Builder, db: Insert, objects: set<Ref>, pending: Option<Error>)
  {
    /** The chain if every hook decided now. */
    ghost function Decided(m: Option<Ref>, st: State): Config {
      Config(
        seq(|choices|, i requires 0 <= i < |choices| => Decisions(choices[i], m, st)), create, db, objects, pending)
    }
  }

  ghost function Decisions(choices: seq<Choice>, m: Option<Ref>, st: State): seq<Hook> {
    seq(|choices|, k requires 0 <= k < |choices| => choices[k](m, st))
  }

  ghost predicate PassesObject(h: Hook, objects: set<Ref>) {
    h.Call? && h.pass.Other? ==> h.pass.ref in objects
  }

  ghost predicate ChoicesValid(d: Choosing) {
    forall i, k, m, st :: 0 <= i < |d.choices| && 0 <= k < |d.choices[i]| ==>
      PassesObject(d.choices[i][k](m, st), d.objects)
  }

  lemma DecisionsValid(d: Choosing, m: Option<Ref>, st: State)
    requires ChoicesValid(d)
    ensures HooksValid(d.Decided(m, st))
  {
    var cfg := d.Decided(m, st);
    forall i, k | 0 <= i < cfg.N() && 0 <= k < |cfg.hooks[i]| ensures PassesObject(cfg.hooks[i][k], cfg.objects) {
      assert cfg.hooks[i][k] == d.choices[i][k](m, st);
    }
  }

  ghost predicate ChoosingAt(d: Choosing, i: nat, k: nat, m: Option<Ref>, st: State) {
    ChoicesValid(d) && At(d.Decided(m, st), i, k, m, st)
  }

  /** The mutator of builder `i` from its hook `k` on: every hook decides when the run gets to it. */
  ghost function Choose(d: Choosing, i: nat, k: nat, m: Option<Ref>, st: State): (r: (Outcome, State))
    requires ChoosingAt(d, i, k, m, st)
    ensures Valid(d.Decided(m, st), r.1)
    decreases |d.choices| - i, |d.choices[i]| - k
  {
    var cfg := d.Decided(m, st);
    match Down(cfg, i, k, m, st)
    case Stop(outcome, st') => (outcome, st')
    case Go(i', k', m', st') =>
      DecisionsValid(d, m', st');
      var (inner, after) := Choose(d, i', k', m', st');
      Up(cfg, i, k, m, inner, after)
    case Execute(st') =>
      var (inner, after) := BatchCreate(cfg, st');
      Up(cfg, i, k, m, inner, after)
  }

  ghost function ChoosingSave(d: Choosing, st: State): (Outcome, State)
    requires ChoicesValid(d) && Valid(d.Decided(None, st), st)
  {
    DefaultsKeepObjects(d.create, st.mutations, st.current, |st.current|);
    if d.pending.Some? then (Failed(d.pending.value), st)
    else if |d.choices| == 0 then (Done, Prepared(d.create, st))
    else
      DecisionsValid(d, Some(st.current[0]), Prepared(d.create, st));
      Choose(d, 0, 0, Some(st.current[0]), Prepared(d.create, st))
  }

  // ----- Every run is the run of a fixed chain -----

  /** Chains that are alike, hooks aside. */
  ghost predicate Alike(a: Config, b: Config) {
    && a.create == b.create && a.db == b.db && a.objects == b.objects && a.pending == b.pending && a.N() == b.N()
    && forall i :: 0 <= i < a.N() ==> |a.hooks[i]| == |b.hooks[i]|
  }

  ghost predicate AlikeFrom(a: Config, b: Config, i: nat, k: nat) {
    && Alike(a, b)
    && forall j, l :: 0 <= j < a.N() && 0 <= l < |a.hooks[j]| && (j > i || (j == i && l >= k)) ==>
      a.hooks[j][l] == b.hooks[j][l]
  }

  /** One step down, and the way back up, depend on the hook at that place only. */
  lemma SameStep(a: Config, b: Config, i: nat, k: nat, m: Option<Ref>, st: State)
    requires Alike(a, b) && At(a, i, k, m, st) && At(b, i, k, m, st)
    requires k < |a.hooks[i]| ==> a.hooks[i][k] == b.hooks[i][k]
    ensures Down(a, i, k, m, st) == Down(b, i, k, m, st)
  {
  }

  lemma SameWayUp(a: Config, b: Config, i: nat, k: nat, m: Option<Ref>, inner: Outcome, st: State)
    requires Alike(a, b) && At(a, i, k, m, st) && At(b, i, k, m, st)
    requires k < |a.hooks[i]| ==> a.hooks[i][k] == b.hooks[i][k]
    requires if k < |a.hooks[i]| then a.hooks[i][k].Call? else m.Some?
    ensures Up(a, i, k, m, inner, st) == Up(b, i, k, m, inner, st)
  {
  }

  lemma SameBatch(a: Config, b: Config, st: State)
    requires Alike(a, b)
    ensures BatchCreate(a, st) == BatchCreate(b, st)
  {
  }

  /** A run depends on the hooks from its place on only. */
  lemma {:induction false} SameRun(a: Config, b: Config, i: nat, k: nat, m: Option<Ref>, st: State)
    requires AlikeFrom(a, b, i, k) && At(a, i, k, m, st) && At(b, i, k, m, st)
    ensures Mutate(a, i, k, m, st) == Mutate(b, i, k, m, st)
    decreases a.N() - i, |a.hooks[i]| - k
  {
    hide Down, Up, BatchCreate, Valid, HooksValid;
    SameStep(a, b, i, k, m, st);
    match Down(a, i, k, m, st) {
      case Stop(_, _) =>
      case Go(i', k', m', st') =>
        SameRun(a, b, i', k', m', st');
        var (inner, after) := Mutate(a, i', k', m', st');
        SameWayUp(a, b, i, k, m, inner, after);
      case Execute(st') =>
        SameBatch(a, b, st');
        var (inner, after) := BatchCreate(a, st');
        SameWayUp(a, b, i, k, m, inner, after);
    }
  }

  ghost predicate Decides(choice: Choice, h: Hook) {
    exists m, st :: choice(m, st) == h
  }

  /** Every hook of the chain is a decision of the choosing hook at its place. */
  ghost predicate Chosen(d: Choosing, cfg: Config) {
    && (cfg.create, cfg.db, cfg.objects, cfg.pending) == (d.create, d.db, d.objects, d.pending)
    && cfg.N() == |d.choices|
    && forall i :: 0 <= i < cfg.N() ==> AllChosen(d.choices[i], cfg.hooks[i])
  }

  ghost predicate AllChosen(choices: seq<Choice>, hooks: seq<Hook>) {
    |choices| == |hooks| && forall k :: 0 <= k < |hooks| ==> Decides(choices[k], hooks[k])
  }

  lemma DecisionsChosen(d: Choosing, m: Option<Ref>, st: State)
    ensures Chosen(d, d.Decided(m, st))
  {
    var cfg := d.Decided(m, st);
    forall i | 0 <= i < cfg.N() ensures AllChosen(d.choices[i], cfg.hooks[i]) {
      forall k | 0 <= k < |cfg.hooks[i]| ensures Decides(d.choices[i][k], cfg.hooks[i][k]) {
        assert d.choices[i][k](m, st) == cfg.hooks[i][k];
      }
    }
  }

  lemma ChosenValid(d: Choosing, cfg: Config)
    requires ChoicesValid(d) && Chosen(d, cfg)
    ensures HooksValid(cfg)
  {
    forall i, k | 0 <= i < cfg.N() && 0 <= k < |cfg.hooks[i]| ensures PassesObject(cfg.hooks[i][k], cfg.objects) {
      assert AllChosen(d.choices[i], cfg.hooks[i]) && Decides(d.choices[i][k], cfg.hooks[i][k]);
      var m, st :| d.choices[i][k](m, st) == cfg.hooks[i][k];
    }
  }

  /** The chain with the hook that decides at a place put in. */
  ghost function WithHook(cfg: Config, i: nat, k: nat, h: Hook): Config
    requires i < cfg.N() && k < |cfg.hooks[i]|
  {
    cfg.(hooks := cfg.hooks[i := cfg.hooks[i][k := h]])
  }

  lemma WithHookChosen(d: Choosing, cfg: Config, i: nat, k: nat, m: Option<Ref>, st: State)
    requires Chosen(d, cfg) && i < cfg.N() && k < |cfg.hooks[i]| && k < |d.choices[i]|
    ensures var c := WithHook(cfg, i, k, d.choices[i][k](m, st));
      Chosen(d, c) && AlikeFrom(c, cfg, i, k + 1) && c.hooks[i][k] == d.choices[i][k](m, st)
  {
    var c := WithHook(cfg, i, k, d.choices[i][k](m, st));
    forall j | 0 <= j < c.N() ensures AllChosen(d.choices[j], c.hooks[j]) {
      assert AllChosen(d.choices[j], cfg.hooks[j]);
      assert Decides(d.choices[i][k], d.choices[i][k](m, st));
    }
  }

  lemma ChosenAlike(d: Choosing, a: Config, b: Config)
    requires Chosen(d, a) && Chosen(d, b)
    ensures Alike(a, b)
  {
    forall i | 0 <= i < a.N() ensures |a.hooks[i]| == |b.hooks[i]| {
      assert AllChosen(d.choices[i], a.hooks[i]) && AllChosen(d.choices[i], b.hooks[i]);
    }
  }

  /** From every place of the chain, the run is that of some fixed chain of decisions. */
  lemma {:induction false} RunIsFixed(d: Choosing, i: nat, k: nat, m: Option<Ref>, st: State) returns (cfg: Config)
    requires ChoosingAt(d, i, k, m, st)
    ensures Chosen(d, cfg) && At(cfg, i, k, m, st)
    ensures Mutate(cfg, i, k, m, st) == Choose(d, i, k, m, st)
    decreases |d.choices| - i, |d.choices[i]| - k
  {
    hide Down, Up, BatchCreate, Chosen, AlikeFrom;
    var now := d.Decided(m, st);
    DecisionsChosen(d, m, st);
    match Down(now, i, k, m, st) {
      case Stop(_, _) => cfg := now;
      case Execute(_) => cfg := now;
      case Go(i', k', m', st') =>
        DecisionsValid(d, m', st');
        var inside := RunIsFixed(d, i', k', m', st');
        cfg := Extended(d, inside, i, k, m, st);
        var (inner, after) := Choose(d, i', k', m', st');
        SameRun(cfg, inside, i', k', m', st');
        SameStep(cfg, now, i, k, m, st);
        SameWayUp(cfg, now, i, k, m, inner, after);
    }
  }

  lemma Extended(d: Choosing, inside: Config, i: nat, k: nat, m: Option<Ref>, st: State) returns (cfg: Config)
    requires ChoosingAt(d, i, k, m, st) && Chosen(d, inside) && Down(d.Decided(m, st), i, k, m, st).Go?
    ensures Chosen(d, cfg) && At(cfg, i, k, m, st) && Alike(cfg, d.Decided(m, st))
    ensures k < |cfg.hooks[i]| ==> cfg.hooks[i][k] == d.Decided(m, st).hooks[i][k]
    ensures var s := Down(d.Decided(m, st), i, k, m, st); AlikeFrom(cfg, inside, s.i, s.k) && At(cfg, s.i, s.k, s.m, s.st)
  {
    hide Chosen, HooksValid, ChoicesValid;
    DecisionsChosen(d, m, st);
    ChosenAlike(d, inside, d.Decided(m, st));
    if k < |d.choices[i]| {
      WithHookChosen(d, inside, i, k, m, st);
      cfg := WithHook(inside, i, k, d.choices[i][k](m, st));
    } else {
      cfg := inside;
    }
    ChosenAlike(d, cfg, d.Decided(m, st));
    ChosenValid(d, cfg);
  }

  /** Save with hooks that decide by what they see is Save with one of the fixed chains of their decisions. */
  lemma SaveIsFixed(d: Choosing, st: State) returns (cfg: Config)
    requires ChoicesValid(d) && Valid(d.Decided(None, st), st)
    ensures Chosen(d, cfg) && HooksValid(cfg) && Valid(cfg, st)
    ensures SaveFrom(cfg, st) == ChoosingSave(d, st)
  {
    if d.pending.Some? || |d.choices| == 0 {
      cfg := d.Decided(None, st);
      DecisionsChosen(d, None, st);
    } else {
      var p, m := Prepared(d.create, st), Some(st.current[0]);
      DefaultsKeepObjects(d.create, st.mutations, st.current, |st.current|);
      DecisionsValid(d, m, p);
      cfg := RunIsFixed(d, 0, 0, m, p);
    }
    ChosenValid(d, cfg);
  }

  // ----- What all runs of choosing hooks keep -----

  /** What a hook can decide on. */
  type Offer = Hook -> bool

  type Offers = seq<seq<Offer>>

  ghost predicate Within(d: Choosing, offers: Offers) {
    && |d.choices| == |offers|
    && forall i :: 0 <= i < |offers| ==> AllWithin(d.choices[i], offers[i])
  }

  ghost predicate AllWithin(choices: seq<Choice>, offers: seq<Offer>) {
    && |choices| == |offers|
    && forall k, m, st :: 0 <= k < |offers| ==> offers[k](choices[k](m, st))
  }

  /** A fixed chain put together from the offers. */
  ghost predicate Drawn(cfg: Config, offers: Offers) {
    && cfg.N() == |offers|
    && forall i :: 0 <= i < |offers| ==> AllDrawn(cfg.hooks[i], offers[i])
  }

  ghost predicate AllDrawn(hooks: seq<Hook>, offers: seq<Offer>) {
    && |hooks| == |offers|
    && forall k :: 0 <= k < |offers| ==> offers[k](hooks[k])
  }

  ghost predicate OffersValid(offers: Offers, objects: set<Ref>) {
    forall i, k, h :: 0 <= i < |offers| && 0 <= k < |offers[i]| && offers[i][k](h) ==> PassesObject(h, objects)
  }

  ghost predicate IsNewChoosing(d: Choosing, st: State) {
    ChoicesValid(d) && Valid(d.Decided(None, st), st) && st.trace == [] && |d.choices| > 0 && d.pending.None?
  }

  lemma ChosenIsDrawn(d: Choosing, offers: Offers, cfg: Config)
    requires Within(d, offers) && Chosen(d, cfg)
    ensures Drawn(cfg, offers)
  {
    forall i | 0 <= i < |offers| ensures AllDrawn(cfg.hooks[i], offers[i]) {
      assert AllWithin(d.choices[i], offers[i]) && AllChosen(d.choices[i], cfg.hooks[i]);
      forall k | 0 <= k < |offers[i]| ensures offers[i][k](cfg.hooks[i][k]) {
        assert Decides(d.choices[i][k], cfg.hooks[i][k]);
        var m, st :| d.choices[i][k](m, st) == cfg.hooks[i][k];
      }
    }
  }

  lemma DrawnRun(d: Choosing, offers: Offers, st: State) returns (cfg: Config)
    requires IsNewChoosing(d, st) && Within(d, offers)
    ensures Drawn(cfg, offers) && cfg.objects == d.objects && cfg.create == d.create
    ensures IsNew(cfg, st) && SaveFrom(cfg, st) == ChoosingSave(d, st)
  {
    cfg := SaveIsFixed(d, st);
    ChosenIsDrawn(d, offers, cfg);
  }

  lemma DrawnValid(cfg: Config, offers: Offers)
    requires Drawn(cfg, offers) && OffersValid(offers, cfg.objects)
    ensures HooksValid(cfg)
  {
    forall i, k | 0 <= i < cfg.N() && 0 <= k < |cfg.hooks[i]| ensures PassesObject(cfg.hooks[i][k], cfg.objects) {
      assert AllDrawn(cfg.hooks[i], offers[i]);
    }
  }

  /** Hooks that always decide the same. */
  ghost function Constant(cfg: Config): Choosing {
    Choosing(
      seq(cfg.N(), i requires 0 <= i < cfg.N() => AllConstant(cfg.hooks[i])),
      cfg.create, cfg.db, cfg.objects, cfg.pending)
  }

  ghost function AllConstant(hooks: seq<Hook>): seq<Choice> {
    seq(|hooks|, k requires 0 <= k < |hooks| => (m, st) => hooks[k])
  }

  lemma ConstantIsFixed(c: Config, cfg: Config)
    requires Chosen(Constant(c), cfg)
    ensures cfg == c
  {
    forall i | 0 <= i < c.N() ensures cfg.hooks[i] == c.hooks[i] {
      assert AllChosen(AllConstant(c.hooks[i]), cfg.hooks[i]);
      forall k | 0 <= k < |c.hooks[i]| ensures cfg.hooks[i][k] == c.hooks[i][k] {
        assert Decides(AllConstant(c.hooks[i])[k], cfg.hooks[i][k]);
      }
    }
  }

  lemma ConstantRun(c: Config, offers: Offers, st: State)
    requires IsNew(c, st) && Drawn(c, offers)
    ensures var d := Constant(c);
      Within(d, offers) && IsNewChoosing(d, st) && ChoosingSave(d, st) == SaveFrom(c, st)
  {
    var d := Constant(c);
    forall i | 0 <= i < |offers| ensures AllWithin(d.choices[i], offers[i]) { assert AllDrawn(c.hooks[i], offers[i]); }
    forall i, k, m, s | 0 <= i < |d.choices| && 0 <= k < |d.choices[i]|
      ensures PassesObject(d.choices[i][k](m, s), d.objects)
    {
      assert d.choices[i][k](m, s) == c.hooks[i][k];
    }
    assert Valid(d.Decided(None, st), st);
    var cfg := SaveIsFixed(d, st);
    ConstantIsFixed(c, cfg);
  }

  // ----- Checked inserts and honest marks -----

  ghost predicate ChosenInsertChecked(d: Choosing, st: State)
    requires IsNewChoosing(d, st)
  {
    var t := ChoosingSave(d, st).1.trace;
    TallyOf(t).inserts > 0 ==> FillsChecked(d.create, t)
  }

  ghost predicate ChosenFalselyMarked(d: Choosing, st: State)
    requires IsNewChoosing(d, st)
  {
    var t := ChoosingSave(d, st).1.trace;
    TallyOf(t).successes == 0 && exists j: nat :: IsMarked(t, j)
  }

  ghost predicate SamePass(a: Hook, b: Hook) {
    (a.Call? <==> b.Call?) && (a.Call? ==> a.pass == b.pass)
  }

  /** The offers restrict only whether a hook answers and what it passes on. */
  ghost predicate PassesOnly(offers: Offers) {
    forall i, k, h, h' :: 0 <= i < |offers| && 0 <= k < |offers[i]| && offers[i][k](h) && SamePass(h, h') ==>
      offers[i][k](h')
  }

  /** The offers do not restrict what a hook does to the fields of a mutation. */
  ghost predicate FreeEdits(offers: Offers) {
    forall i, k, h, h' ::
      0 <= i < |offers| && 0 <= k < |offers[i]| && offers[i][k](h) && SameHookButEdits(h, h') ==> offers[i][k](h')
  }

  lemma SamePassesDrawn(a: Config, b: Config, offers: Offers)
    requires Drawn(a, offers) && SameChain(a, b) && PassesOnly(offers)
    ensures Drawn(b, offers) && a.objects == b.objects
  {
    forall i | 0 <= i < |offers| ensures AllDrawn(b.hooks[i], offers[i]) {
      assert AllDrawn(a.hooks[i], offers[i]) && SamePasses(a.hooks[i], b.hooks[i]);
      forall k | 0 <= k < |offers[i]| ensures offers[i][k](b.hooks[i][k]) {
        assert SamePass(a.hooks[i][k], b.hooks[i][k]);
      }
    }
  }

  lemma SameButEditsDrawn(a: Config, b: Config, offers: Offers)
    requires Drawn(a, offers) && SameChainButEdits(a, b) && FreeEdits(offers)
    ensures Drawn(b, offers) && a.objects == b.objects
  {
    forall i | 0 <= i < |offers| ensures AllDrawn(b.hooks[i], offers[i]) {
      assert AllDrawn(a.hooks[i], offers[i]) && SameButEdits(a.hooks[i], b.hooks[i]);
      forall k | 0 <= k < |offers[i]| ensures offers[i][k](b.hooks[i][k]) {
        assert SameHookButEdits(a.hooks[i][k], b.hooks[i][k]);
      }
    }
  }

  /**
    For hooks that choose by what they see which mutation to pass on, and whether to answer instead:
    every insert is checked exactly when every chain of possible choices is vouched for.
   */
  lemma ChosenInsertIsCheckedExactly(offers: Offers, objects: set<Ref>, refs: seq<Ref>)
    requires |offers| > 0 && |refs| == |offers| && (forall r :: r in refs ==> r in objects)
    requires OffersValid(offers, objects) && PassesOnly(offers)
    ensures
      (forall d: Choosing, st: State ::
        Within(d, offers) && d.objects == objects && IsNewChoosing(d, st) && st.current == refs ==>
        ChosenInsertChecked(d, st))
      <==> (forall cfg: Config :: Drawn(cfg, offers) && cfg.objects == objects ==> AlwaysVouched(cfg, refs))
  {
    hide AlwaysVouched, AllDrawn, AllWithin, OffersValid, PassesOnly, SameChain;
    if forall cfg: Config :: Drawn(cfg, offers) && cfg.objects == objects ==> AlwaysVouched(cfg, refs) {
      forall d: Choosing, st: State |
        Within(d, offers) && d.objects == objects && IsNewChoosing(d, st) && st.current == refs
        ensures ChosenInsertChecked(d, st)
      {
        var cfg := DrawnRun(d, offers, st);
        VouchedInsertIsChecked(cfg, st);
      }
    }
    if cfg: Config :| Drawn(cfg, offers) && cfg.objects == objects && !AlwaysVouched(cfg, refs) {
      DrawnValid(cfg, offers);
      var c, st := UncheckedInsert(cfg, refs);
      SamePassesDrawn(cfg, c, offers);
      ConstantRun(c, offers, st);
      assert !ChosenInsertChecked(Constant(c), st);
    }
  }

  /**
    For hooks that choose by what they see which mutation to pass on, what to answer, and what to make
    of the inner outcome: nothing is marked done without a successful insert exactly when every chain
    of possible choices is honest.
   */
  lemma ChosenMarksAreHonestExactly(offers: Offers, objects: set<Ref>, refs: seq<Ref>)
    requires |offers| > 0 && |refs| == |offers| && (forall r :: r in refs ==> r in objects)
    requires OffersValid(offers, objects) && FreeEdits(offers)
    ensures
      (forall d: Choosing, st: State ::
        Within(d, offers) && d.objects == objects && IsNewChoosing(d, st) && st.current == refs ==>
        !ChosenFalselyMarked(d, st))
      <==> (forall cfg: Config :: Drawn(cfg, offers) && cfg.objects == objects ==> Honest(cfg, refs))
  {
    hide Honest, AllDrawn, AllWithin, OffersValid, FreeEdits, SameChainButEdits;
    if forall cfg: Config :: Drawn(cfg, offers) && cfg.objects == objects ==> Honest(cfg, refs) {
      forall d: Choosing, st: State |
        Within(d, offers) && d.objects == objects && IsNewChoosing(d, st) && st.current == refs
        ensures !ChosenFalselyMarked(d, st)
      {
        var cfg := DrawnRun(d, offers, st);
        HonestMarksNothing(cfg, st);
      }
    }
    if cfg: Config :| Drawn(cfg, offers) && cfg.objects == objects && !Honest(cfg, refs) {
      DrawnValid(cfg, offers);
      var c, st := FalseMark(cfg, refs);
      SameButEditsDrawn(cfg, c, offers);
      ConstantRun(c, offers, st);
      assert ChosenFalselyMarked(Constant(c), st);
    }
  }

  // ----- Hooks that validate -----

  /** Each hook passes on the mutation it got, or answers. */
  ghost predicate PassOnOrAnswer(offers: Offers) {
    forall i, k, h :: 0 <= i < |offers| && 0 <= k < |offers[i]| && offers[i][k](h) && h.Call? ==> h.pass.Same?
  }

  /** Hooks that pass on what they got, or answer, whatever they look at, let nothing unchecked in. */
  lemma ValidatingHooksAreSafe(d: Choosing, offers: Offers, st: State)
    requires IsNewChoosing(d, st) && Within(d, offers) && PassOnOrAnswer(offers)
    ensures ChosenInsertChecked(d, st)
  {
    var cfg := DrawnRun(d, offers, st);
    forall i | 0 <= i < cfg.N() ensures Vouched(cfg, st.current, i) {
      assert AllDrawn(cfg.hooks[i], offers[i]);
      SameArrives(cfg.hooks[i], Some(st.current[i]));
      OwnIsVouched(cfg, st.current, i);
    }
    VouchedInsertIsChecked(cfg, st);
  }
}
