/** What a bulk insert holds, in terms of the builders that were saved: their fields, defaults and hooks. */
module BulkEdits {
  import opened Wrappers
  import opened AccountCreate
  import opened BulkCreate
  import opened AccountBulk

  /** The edits of hooks that call through, hook 0 first. */
  ghost function Edited(hooks: seq<Hook>, f: Fields): Fields {
    if hooks == [] then f
    else Edited(hooks[1..], if hooks[0].Call? then hooks[0].edit(f) else f)
  }

  /** Every hook passes on the mutation it got. */
  ghost predicate PassesSame(cfg: Config) {
    forall i, k :: 0 <= i < cfg.N() && 0 <= k < |cfg.hooks[i]| ==>
      var h := cfg.hooks[i][k]; h.Call? ==> h.pass.Same?
  }

  ghost predicate DistinctRefs(refs: seq<Ref>) {
    forall i, j :: 0 <= i < j < |refs| ==> refs[i] != refs[j]
  }

  /** Every fill so far has the wanted fields of its builder. */
  ghost predicate FillsWanted(wanted: seq<Fields>, t: seq<Event>) {
    forall e :: e in t && e.Filled? ==> e.builder < |wanted| && e.fields == wanted[e.builder]
  }

  /** The builder at hook `k` is on the way to its wanted fields, and the builders inside are untouched. */
  ghost predicate OnTheWay(cfg: Config, wanted: seq<Fields>, i: nat, k: nat, m: Option<Ref>, st: State)
    requires At(cfg, i, k, m, st) && |wanted| == cfg.N()
  {
    && m == Some(st.current[i])
    && DistinctRefs(st.current)
    && FillsWanted(wanted, st.trace)
    && Edited(cfg.hooks[i][k..], st.mutations[st.current[i]].fields) == wanted[i]
    && forall j :: i < j < cfg.N() ==> Edited(cfg.hooks[j], st.mutations[st.current[j]].fields) == wanted[j]
  }

  lemma HookOnTheWay(cfg: Config, wanted: seq<Fields>, i: nat, k: nat, m: Option<Ref>, st: State)
    requires PassesSame(cfg) && |wanted| == cfg.N()
    requires At(cfg, i, k, m, st) && OnTheWay(cfg, wanted, i, k, m, st)
    requires k < |cfg.hooks[i]| && cfg.hooks[i][k].Call?
    ensures var d := Down(cfg, i, k, m, st);
      d.Go? && OnTheWay(cfg, wanted, d.i, d.k, d.m, d.st)
  {
    var h, hs := cfg.hooks[i][k], cfg.hooks[i][k..];
    assert hs[0] == h && hs[1..] == cfg.hooks[i][k + 1..];
    var d := Down(cfg, i, k, m, st);
    assert d.m == m && d.st.current == st.current;
    forall j | i < j < cfg.N() ensures d.st.mutations[st.current[j]] == st.mutations[st.current[j]] {
      assert st.current[i] != st.current[j];
    }
  }

  lemma FillOnTheWay(cfg: Config, wanted: seq<Fields>, i: nat, k: nat, m: Option<Ref>, st: State)
    requires |wanted| == cfg.N()
    requires At(cfg, i, k, m, st) && OnTheWay(cfg, wanted, i, k, m, st) && k == |cfg.hooks[i]|
    ensures var d := Down(cfg, i, k, m, st);
      && FillsWanted(wanted, d.st.trace)
      && (d.Go? ==> OnTheWay(cfg, wanted, d.i, d.k, d.m, d.st))
  {
    var d := Down(cfg, i, k, m, st);
    assert cfg.hooks[i][k..] == [];
    assert st.current[i := m.value] == st.current;
    if d.Go? { assert cfg.hooks[i + 1][0..] == cfg.hooks[i + 1]; }
  }

  lemma UpFillsNothing(cfg: Config, wanted: seq<Fields>, i: nat, k: nat, m: Option<Ref>, inner: Outcome, st: State)
    requires At(cfg, i, k, m, st) && FillsWanted(wanted, st.trace)
    requires if k < |cfg.hooks[i]| then cfg.hooks[i][k].Call? else m.Some?
    ensures FillsWanted(wanted, Up(cfg, i, k, m, inner, st).1.trace)
  {
  }

  lemma AnswerFillsNothing(cfg: Config, wanted: seq<Fields>, i: nat, k: nat, m: Option<Ref>, st: State)
    requires At(cfg, i, k, m, st) && FillsWanted(wanted, st.trace)
    requires k < |cfg.hooks[i]| && cfg.hooks[i][k].Answer?
    ensures Down(cfg, i, k, m, st).Stop? && FillsWanted(wanted, Down(cfg, i, k, m, st).st.trace)
  {
  }

  lemma BatchFillsNothing(cfg: Config, wanted: seq<Fields>, st: State)
    requires FillsWanted(wanted, st.trace)
    ensures FillsWanted(wanted, BatchCreate(cfg, st).1.trace)
  {
  }

  lemma {:induction false} EveryFillIsWanted(cfg: Config, wanted: seq<Fields>, i: nat, k: nat, m: Option<Ref>, st: State)
    requires PassesSame(cfg) && |wanted| == cfg.N()
    requires At(cfg, i, k, m, st) && OnTheWay(cfg, wanted, i, k, m, st)
    ensures FillsWanted(wanted, Mutate(cfg, i, k, m, st).1.trace)
    decreases cfg.N() - i, |cfg.hooks[i]| - k
  {
    hide Down, Up, BatchCreate, Valid, HooksValid, PassesSame, FillsWanted;
    if k == |cfg.hooks[i]| { FillOnTheWay(cfg, wanted, i, k, m, st); }
    else if cfg.hooks[i][k].Call? { HookOnTheWay(cfg, wanted, i, k, m, st); }
    else { AnswerFillsNothing(cfg, wanted, i, k, m, st); }
    match Down(cfg, i, k, m, st) {
      case Stop(_, _) =>
      case Go(i', k', m', st') =>
        EveryFillIsWanted(cfg, wanted, i', k', m', st');
        var (inner, after) := Mutate(cfg, i', k', m', st');
        UpFillsNothing(cfg, wanted, i, k, m, inner, after);
      case Execute(st') =>
        var (inner, after) := BatchCreate(cfg, st');
        BatchFillsNothing(cfg, wanted, st');
        UpFillsNothing(cfg, wanted, i, k, m, inner, after);
    }
  }

  // ----- From the fills to the insert -----

  /** In a complete trace the fills are the fields of builders 0, 1, 2, ... */
  lemma {:induction false} FilledInOrder(create: Builder, n: nat, wanted: seq<Fields>, t: seq<Event>)
    requires Complete(create, n, t) && FillsWanted(wanted, t)
    ensures |FilledFields(t)| <= |wanted| && FilledFields(t) == wanted[..|FilledFields(t)|]
  {
    if t != [] {
      var init, e := t[..|t| - 1], t[|t| - 1];
      assert forall x :: x in init ==> x in t;
      FilledInOrder(create, n, wanted, init);
      assert e in t;
      if e.Filled? {
        var b := |FilledFields(init)|;
        assert wanted[..b + 1] == wanted[..b] + [wanted[b]];
      } else {
        assert FilledFields(t) == FilledFields(init);
      }
    }
  }

  lemma {:induction false} InsertedWanted(
    create: Builder, n: nat, wanted: seq<Fields>, t: seq<Event>, specs: seq<Option<Spec>>, ok: bool)
    requires Complete(create, n, t) && FillsWanted(wanted, t) && |wanted| == n
    requires Inserted(specs, ok) in t
    ensures specs == SpecsOf(create, wanted)
  {
    var init, e := t[..|t| - 1], t[|t| - 1];
    assert forall x :: x in init ==> x in t;
    if e == Inserted(specs, ok) {
      FilledInOrder(create, n, wanted, init);
      assert wanted[..n] == wanted;
    } else {
      assert Inserted(specs, ok) in init;
      InsertedWanted(create, n, wanted, init, specs, ok);
    }
  }

  /** The fields a builder should insert: its own, then its defaults, then the edits of its hooks. */
  ghost function Wanted(cfg: Config, st: State): seq<Fields>
    requires Valid(cfg, st)
  {
    seq(cfg.N(), j requires 0 <= j < cfg.N() =>
      Edited(cfg.hooks[j], cfg.create.defaults(st.mutations[st.current[j]].fields)))
  }

  lemma {:induction false} DefaultsOfEach(create: Builder, mutations: map<Ref, Mutation>, current: seq<Ref>, n: nat)
    requires n <= |current| && DistinctRefs(current)
    requires forall r :: r in current ==> r in mutations
    ensures var after := WithDefaults(create, mutations, current, n);
      && after.Keys == mutations.Keys
      && forall j :: 0 <= j < |current| ==>
        after[current[j]].fields ==
          if j < n then create.defaults(mutations[current[j]].fields) else mutations[current[j]].fields
  {
    if n > 0 {
      DefaultsOfEach(create, mutations, current, n - 1);
      assert current[n - 1] in current;
    }
  }

  /**
    End to end: with hooks that pass on the mutation they got, and a mutation object for each builder,
    the insert holds for every builder the spec of exactly its own fields with its defaults and the
    edits of its hooks, outermost first, in the order of the builders.
   */
  lemma InsertHoldsTheBuilders(cfg: Config, st: State, specs: seq<Option<Spec>>, ok: bool)
    requires IsNew(cfg, st) && PassesSame(cfg) && DistinctRefs(st.current)
    requires Inserted(specs, ok) in SaveFrom(cfg, st).1.trace
    ensures specs == SpecsOf(cfg.create, Wanted(cfg, st))
  {
    var p, m, wanted := Prepared(cfg.create, st), Some(st.current[0]), Wanted(cfg, st);
    SaveInsertsOnceAndCompletely(cfg, st);
    PreparedOnTheWay(cfg, st);
    EveryFillIsWanted(cfg, wanted, 0, 0, m, p);
    InsertedWanted(cfg.create, cfg.N(), wanted, SaveFrom(cfg, st).1.trace, specs, ok);
  }

  lemma PreparedOnTheWay(cfg: Config, st: State)
    requires IsNew(cfg, st) && DistinctRefs(st.current)
    ensures var p, m := Prepared(cfg.create, st), Some(st.current[0]);
      At(cfg, 0, 0, m, p) && OnTheWay(cfg, Wanted(cfg, st), 0, 0, m, p)
  {
    DefaultsOfEach(cfg.create, st.mutations, st.current, |st.current|);
    assert cfg.hooks[0][0..] == cfg.hooks[0];
  }

  // ----- What the mutations hold afterwards -----

  /** All edits of hooks that call through: hook 0 is the first on the way in and the last on the way out. */
  ghost function Around(hooks: seq<Hook>, f: Fields): Fields {
    if hooks == [] || hooks[0].Answer? then f else hooks[0].late(Around(hooks[1..], hooks[0].edit(f)))
  }

  /** From hook `k` of builder `i` on, the hooks have edited the mutation of their own builder, and nothing else. */
  ghost predicate OwnEdited(cfg: Config, i: nat, k: nat, st: State, after: State)
    requires Valid(cfg, st) && Valid(cfg, after) && i < cfg.N() && k <= |cfg.hooks[i]|
  {
    && after.current == st.current
    && after.mutations[st.current[i]].fields == Around(cfg.hooks[i][k..], st.mutations[st.current[i]].fields)
    && (forall j :: i < j < cfg.N() ==>
          after.mutations[st.current[j]].fields == Around(cfg.hooks[j], st.mutations[st.current[j]].fields))
    && (forall r :: r in cfg.objects && r !in st.current[i..] ==> after.mutations[r].fields == st.mutations[r].fields)
  }

  lemma HookEditsOwn(cfg: Config, i: nat, k: nat, st: State, inner: Outcome, after: State)
    requires PassesSame(cfg) && i < cfg.N() && k < |cfg.hooks[i]| && cfg.hooks[i][k].Call?
    requires Valid(cfg, st) && At(cfg, i, k, Some(st.current[i]), st) && DistinctRefs(st.current) && Valid(cfg, after)
    requires OwnEdited(cfg, i, k + 1, Down(cfg, i, k, Some(st.current[i]), st).st, after)
    ensures OwnEdited(cfg, i, k, st, Up(cfg, i, k, Some(st.current[i]), inner, after).1)
  {
    var h, hs, own := cfg.hooks[i][k], cfg.hooks[i][k..], st.current[i];
    assert hs[0] == h && hs[1..] == cfg.hooks[i][k + 1..];
    assert own in st.current[i..] by { assert st.current[i..][0] == own; }
    forall j | i < j < cfg.N() ensures st.current[j] != own {}
  }

  ghost predicate SameFields(a: State, b: State) {
    && a.current == b.current && a.mutations.Keys == b.mutations.Keys
    && forall r :: r in a.mutations ==> a.mutations[r].fields == b.mutations[r].fields
  }

  /** The MutateFunc of a builder edits nothing, on the way in and on the way out. */
  lemma FillKeepsFields(cfg: Config, i: nat, st: State)
    requires i < cfg.N() && Valid(cfg, st) && At(cfg, i, |cfg.hooks[i]|, Some(st.current[i]), st)
    ensures SameFields(st, Down(cfg, i, |cfg.hooks[i]|, Some(st.current[i]), st).st)
  {
    assert st.current[i := st.current[i]] == st.current;
  }

  lemma MarkKeepsFields(cfg: Config, i: nat, m: Ref, inner: Outcome, st: State)
    requires i < cfg.N() && At(cfg, i, |cfg.hooks[i]|, Some(m), st)
    ensures SameFields(st, Up(cfg, i, |cfg.hooks[i]|, Some(m), inner, st).1)
  {
  }

  lemma BatchKeepsFields(cfg: Config, st: State)
    ensures SameFields(st, BatchCreate(cfg, st).1)
  {
  }

  lemma FillEditsNothing(cfg: Config, i: nat, st: State, inner: Outcome, after: State)
    requires i < cfg.N() - 1 && Valid(cfg, st) && At(cfg, i, |cfg.hooks[i]|, Some(st.current[i]), st) && DistinctRefs(st.current)
    requires var d := Down(cfg, i, |cfg.hooks[i]|, Some(st.current[i]), st);
      d.Go? && Valid(cfg, after) && OwnEdited(cfg, i + 1, 0, d.st, after)
    ensures OwnEdited(cfg, i, |cfg.hooks[i]|, st, Up(cfg, i, |cfg.hooks[i]|, Some(st.current[i]), inner, after).1)
  {
    hide Down, Up, HooksValid;
    var own := st.current[i];
    FillKeepsFields(cfg, i, st);
    MarkKeepsFields(cfg, i, own, inner, after);
    assert cfg.hooks[i][|cfg.hooks[i]|..] == [] && cfg.hooks[i + 1][0..] == cfg.hooks[i + 1];
    assert st.current[i..] == [own] + st.current[i + 1..];
  }

  lemma InsertEditsNothing(cfg: Config, i: nat, st: State)
    requires i == cfg.N() - 1 && Valid(cfg, st) && At(cfg, i, |cfg.hooks[i]|, Some(st.current[i]), st)
    requires Down(cfg, i, |cfg.hooks[i]|, Some(st.current[i]), st).Execute?
    ensures OwnEdited(cfg, i, |cfg.hooks[i]|, st, Mutate(cfg, i, |cfg.hooks[i]|, Some(st.current[i]), st).1)
  {
    hide Down, Up, HooksValid, BatchCreate;
    var st1 := Down(cfg, i, |cfg.hooks[i]|, Some(st.current[i]), st).st;
    FillKeepsFields(cfg, i, st);
    BatchKeepsFields(cfg, st1);
    MarkKeepsFields(cfg, i, st.current[i], BatchCreate(cfg, st1).0, BatchCreate(cfg, st1).1);
    assert cfg.hooks[i][|cfg.hooks[i]|..] == [];
  }

  lemma DownKeepsCurrent(cfg: Config, i: nat, k: nat, st: State)
    requires PassesSame(cfg) && i < cfg.N() && Valid(cfg, st) && At(cfg, i, k, Some(st.current[i]), st)
    ensures var d := Down(cfg, i, k, Some(st.current[i]), st);
      d.Go? ==> d.st.current == st.current && d.m == Some(st.current[d.i])
  {
    assert st.current[i := st.current[i]] == st.current;
  }

  lemma PlaceEditsOwn(cfg: Config, i: nat, k: nat, st: State, inner: Outcome, after: State)
    requires PassesSame(cfg) && i < cfg.N() && Valid(cfg, st) && At(cfg, i, k, Some(st.current[i]), st) && DistinctRefs(st.current)
    requires var d := Down(cfg, i, k, Some(st.current[i]), st);
      d.Go? && Valid(cfg, after) && OwnEdited(cfg, d.i, d.k, d.st, after)
    ensures OwnEdited(cfg, i, k, st, Up(cfg, i, k, Some(st.current[i]), inner, after).1)
  {
    hide Up, HooksValid, PassesSame, OwnEdited, DistinctRefs;
    if k < |cfg.hooks[i]| { HookEditsOwn(cfg, i, k, st, inner, after); } else { FillEditsNothing(cfg, i, st, inner, after); }
  }

  lemma StopIsLast(cfg: Config, i: nat, k: nat, m: Option<Ref>, st: State)
    requires At(cfg, i, k, m, st) && Down(cfg, i, k, m, st).Stop?
    ensures Mutate(cfg, i, k, m, st) == (Down(cfg, i, k, m, st).outcome, Down(cfg, i, k, m, st).st)
  {
  }

  /** After a successful insert the mutation of every builder has the edits of its hooks, in and out, and no others. */
  lemma {:induction false} MutationsAreEdited(cfg: Config, i: nat, k: nat, st: State)
    requires PassesSame(cfg) && i < cfg.N() && Valid(cfg, st) && At(cfg, i, k, Some(st.current[i]), st) && DistinctRefs(st.current)
    requires TallyOf(Mutate(cfg, i, k, Some(st.current[i]), st).1.trace).successes > TallyOf(st.trace).successes
    ensures OwnEdited(cfg, i, k, st, Mutate(cfg, i, k, Some(st.current[i]), st).1)
    decreases cfg.N() - i, |cfg.hooks[i]| - k
  {
    var m := Some(st.current[i]);
    hide Down, Up, BatchCreate, Valid, HooksValid, PassesSame, TallyOf, OwnEdited, DistinctRefs, Mutate, Way, Around, Delivers, Edited;
    DownTally(cfg, i, k, m, st);
    DownKeepsCurrent(cfg, i, k, st);
    match Down(cfg, i, k, m, st) {
      case Stop(_, _) => StopIsLast(cfg, i, k, m, st);
      case Go(i', k', m', st') =>
        var (inner, after) := Mutate(cfg, i', k', m', st');
        MutateGo(cfg, i, k, m, st);
        UpTally(cfg, i, k, m, inner, after);
        MutationsAreEdited(cfg, i', k', st');
        PlaceEditsOwn(cfg, i, k, st, inner, after);
      case Execute(_) => InsertEditsNothing(cfg, i, st);
    }
  }
}
