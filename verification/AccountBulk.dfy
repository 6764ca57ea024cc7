/** The bulk builder itself: the mutable slots behind the chain of module BulkCreate, and Save. */
module AccountBulk {
  import opened Wrappers
  import opened AccountEntity
  import opened AccountCreate
  import opened BulkCreate

  class AccountCreateBulk {
    const cfg: Config
    /** The mutation objects, and which of them each builder holds. */
    var mutations: map<Ref, Mutation>
    var current: seq<Ref>
    var specs: seq<Option<Spec>>
    var nodes: seq<Option<Node>>
    var ids: seq<Option<int>>
    ghost var trace: seq<Event>

    constructor (c: Config, objects: map<Ref, Mutation>, builders: seq<Ref>)
      ensures cfg == c
      ensures Now() == Initial(objects, builders)
    {
      cfg := c;
      mutations, current, trace := objects, builders, [];
      specs := seq(|builders|, i => None);
      nodes := seq(|builders|, i => None);
      ids := seq(|builders|, i => None);
    }

    ghost function Now(): State
      reads this
    {
      State(mutations, current, specs, nodes, ids, trace)
    }

    /** The mutator of builder `i` from its hook `k` on. */
    method Run(i: nat, k: nat, m: Option<Ref>) returns (outcome: Outcome)
      requires At(cfg, i, k, m, Now())
      modifies this
      ensures (outcome, Now()) == Mutate(cfg, i, k, m, old(Now()))
      decreases cfg.N() - i, |cfg.hooks[i]| - k
    {
      if k < |cfg.hooks[i]| {
        outcome := RunHook(i, k, m);
        return;
      }
      if m.None? {
        return Failed(UnexpectedType);
      }
      var err := cfg.create.check(mutations[current[i]].fields);
      if err.Some? {
        trace := trace + [Rejected(i)];
        return Failed(Invalid(err.value));
      }
      var f := mutations[m.value].fields;
      current := current[i := m.value];
      specs := specs[i := Some(cfg.create.spec(f))];
      nodes := nodes[i := Some(Node(cfg.create.node(f), 0))];
      trace := trace + [Filled(i, f)];
      var inner;
      if i < cfg.N() - 1 {
        inner := Run(i + 1, 0, Some(current[i + 1]));
      } else {
        inner := InsertBatch();
      }
      if inner.Failed? {
        return inner;
      }
      if ids[i].Some? && nodes[i].Some? {
        nodes := nodes[i := Some(nodes[i].value.(id := ids[i].value))];
      }
      mutations := mutations[m.value := mutations[m.value].(target := Some(i), done := true)];
      trace := trace + [Marked(i)];
      return Done;
    }

    method RunHook(i: nat, k: nat, m: Option<Ref>) returns (outcome: Outcome)
      requires At(cfg, i, k, m, Now()) && k < |cfg.hooks[i]|
      modifies this
      ensures (outcome, Now()) == Mutate(cfg, i, k, m, old(Now()))
      decreases cfg.N() - i, |cfg.hooks[i]| - k, 0
    {
      var h := cfg.hooks[i][k];
      trace := trace + [Before(i, k)];
      if h.Answer? {
        trace := trace + [After(i, k)];
        return h.outcome;
      }
      if m.Some? {
        mutations := mutations[m.value := mutations[m.value].(fields := h.edit(mutations[m.value].fields))];
      }
      var inner := Run(i, k + 1, Next(h, m));
      if m.Some? {
        mutations := mutations[m.value := mutations[m.value].(fields := h.late(mutations[m.value].fields))];
      }
      trace := trace + [After(i, k)];
      return h.post(inner);
    }

    method InsertBatch() returns (outcome: Outcome)
      requires Valid(cfg, Now())
      modifies this
      ensures (outcome, Now()) == BatchCreate(cfg, old(Now()))
    {
      match cfg.db {
        case InsertFails =>
          trace := trace + [Inserted(specs, false)];
          return Failed(InsertFailed);
        case Inserts(given) =>
          trace := trace + [Inserted(specs, true)];
          ids := seq(cfg.N(), j requires 0 <= j < cfg.N() => if j < |given| then given[j] else None);
          return Done;
      }
    }

    /** The first loop of Save calls defaults() on every builder and ignores its errors. */
    method ApplyDefaults()
      requires Valid(cfg, Now())
      modifies this`mutations
      ensures Now() == Prepared(cfg.create, old(Now()))
    {
      for i := 0 to |current|
        invariant mutations.Keys == old(mutations.Keys)
        invariant mutations == WithDefaults(cfg.create, old(mutations), current, i)
      {
        assert current[i] in current;
        var f := cfg.create.defaults(mutations[current[i]].fields);
        mutations := mutations[current[i] := mutations[current[i]].(fields := f)];
      }
    }

    /** Save */
    method Save() returns (outcome: Outcome)
      requires HooksValid(cfg) && Valid(cfg, Now())
      modifies this
      ensures (outcome, Now()) == SaveFrom(cfg, old(Now()))
      ensures cfg.pending.Some? ==> outcome == Failed(cfg.pending.value) && Now() == old(Now())
      ensures cfg.pending.None? && cfg.N() == 0 ==> outcome == Done && Now() == old(Now())
    {
      if cfg.pending.Some? {
        return Failed(cfg.pending.value);
      }
      DefaultsKeepObjects(cfg.create, mutations, current, |current|);
      ApplyDefaults();
      if cfg.N() == 0 {
        return Done;
      }
      assert current[0] in current;
      outcome := Run(0, 0, Some(current[0]));
    }
  }

  ghost function Initial(objects: map<Ref, Mutation>, builders: seq<Ref>): State {
    State(objects, builders, seq(|builders|, i => None), seq(|builders|, i => None), seq(|builders|, i => None), [])
  }

  /** The mutations after the defaults of the first `n` builders. */
  ghost function WithDefaults(create: Builder, mutations: map<Ref, Mutation>, current: seq<Ref>, n: nat): map<Ref, Mutation>
    requires n <= |current|
  {
    if n == 0 then mutations
    else
      var before, r := WithDefaults(create, mutations, current, n - 1), current[n - 1];
      if r in before then before[r := before[r].(fields := create.defaults(before[r].fields))] else before
  }

  lemma {:induction false} DefaultsKeepObjects(create: Builder, mutations: map<Ref, Mutation>, current: seq<Ref>, n: nat)
    requires n <= |current|
    ensures WithDefaults(create, mutations, current, n).Keys == mutations.Keys
  {
    if n > 0 { DefaultsKeepObjects(create, mutations, current, n - 1); }
  }

  ghost function Prepared(create: Builder, st: State): State {
    st.(mutations := WithDefaults(create, st.mutations, st.current, |st.current|))
  }

  ghost function SaveFrom(cfg: Config, st: State): (Outcome, State)
    requires HooksValid(cfg) && Valid(cfg, st)
  {
    DefaultsKeepObjects(cfg.create, st.mutations, st.current, |st.current|);
    if cfg.pending.Some? then (Failed(cfg.pending.value), st)
    else if cfg.N() == 0 then (Done, Prepared(cfg.create, st))
    else Mutate(cfg, 0, 0, Some(st.current[0]), Prepared(cfg.create, st))
  }

  /** An Account builder. */
  function AccountBuilder(d: DefaultValues, valid: Validators): Builder {
    Builder(
      (m: Fields) => DefaultsOf(d, m), (m: Fields) => Check(valid, m), (m: Fields) => SpecOf(m), (m: Fields) => NodeOf(m))
  }

  /** A new bulk builder without a pending error, as the generated code sets it up. */
  ghost predicate IsNew(cfg: Config, st: State) {
    HooksValid(cfg) && Valid(cfg, st) && st.trace == [] && cfg.N() > 0 && cfg.pending.None?
  }

  lemma NothingFilledYet(cfg: Config, st: State)
    requires Valid(cfg, st) && st.trace == []
    ensures FilledUpTo(cfg, 0, st)
  {
    assert st.specs[..0] == [];
  }

  /**
    The insert is issued at most once per Save, exactly when all hooks deliver and nothing is
    rejected, and then with every builder's spec in order.
   */
  lemma SaveInsertsOnceAndCompletely(cfg: Config, st: State)
    requires IsNew(cfg, st)
    ensures var t := SaveFrom(cfg, st).1.trace;
      && TallyOf(t).inserts <= 1
      && (TallyOf(t).inserts == 1 <==> AllDeliver(cfg, 0) && TallyOf(t).rejections == 0)
      && Complete(cfg.create, cfg.N(), t)
  {
    DefaultsKeepObjects(cfg.create, st.mutations, st.current, |st.current|);
    var p, m := Prepared(cfg.create, st), Some(st.current[0]);
    InsertAtMostOnce(cfg, 0, 0, m, p);
    NothingFilledYet(cfg, p);
    InsertIsComplete(cfg, 0, 0, m, p);
    assert cfg.hooks[0][0..] == cfg.hooks[0];
  }

  /**
    With hooks that report failures, a rejected builder means no insert, and without a successful
    insert Save fails and nothing is marked done; some hook may still fail after a success.
   */
  lemma FailedSaveMarksNothing(cfg: Config, st: State)
    requires IsNew(cfg, st) && Propagates(cfg)
    ensures var (o, st') := SaveFrom(cfg, st);
      var c := TallyOf(st'.trace);
      && (c.rejections > 0 ==> c.inserts == 0)
      && c.successes <= c.inserts <= 1
      && (c.successes == 0 ==> o.Failed? && c.marks == 0 && SameMarks(Prepared(cfg.create, st), st'))
  {
    DefaultsKeepObjects(cfg.create, st.mutations, st.current, |st.current|);
    var p, m := Prepared(cfg.create, st), Some(st.current[0]);
    InsertAtMostOnce(cfg, 0, 0, m, p);
    SuccessIsInsert(Mutate(cfg, 0, 0, m, p).1.trace);
    NoInsertNothingDone(cfg, 0, 0, m, p);
  }

  /**
    With hooks that also keep successes, Save succeeds exactly when the insert did, and a failed
    Save leaves nothing marked.
   */
  lemma SaveSucceedsExactly(cfg: Config, st: State)
    requires IsNew(cfg, st) && Propagates(cfg) && KeepsSuccess(cfg)
    ensures var (o, st') := SaveFrom(cfg, st);
      var c := TallyOf(st'.trace);
      && (o == Done <==> c.successes == 1)
      && (o.Failed? ==> c.marks == 0 && SameMarks(Prepared(cfg.create, st), st'))
      && (o == Done ==> c.marks == cfg.N())
  {
    DefaultsKeepObjects(cfg.create, st.mutations, st.current, |st.current|);
    var p, m := Prepared(cfg.create, st), Some(st.current[0]);
    FailedSaveMarksNothing(cfg, st);
    InsertedThenDone(cfg, 0, 0, m, p);
  }

  /** A successful Save leaves every builder with a done mutation, and its node under the ID that the database gave. */
  lemma SuccessfulSaveIsComplete(cfg: Config, st: State)
    requires IsNew(cfg, st) && Propagates(cfg) && KeepsSuccess(cfg)
    requires SaveFrom(cfg, st).0 == Done
    ensures forall j :: 0 <= j < cfg.N() ==> Saved(cfg, SaveFrom(cfg, st).1, j)
  {
    DefaultsKeepObjects(cfg.create, st.mutations, st.current, |st.current|);
    SaveSucceedsExactly(cfg, st);
    InsertedIsSaved(cfg, 0, 0, Some(st.current[0]), Prepared(cfg.create, st));
  }

  lemma {:induction false} SuccessIsInsert(t: seq<Event>)
    ensures TallyOf(t).successes <= TallyOf(t).inserts
  {
    if t != [] { SuccessIsInsert(t[..|t| - 1]); }
  }

  /**
    Save ignores the errors of defaults(); when its own mutation comes out of the hooks for every
    builder, whatever is inserted still has every field that has a default, because check() demands it.
   */
  lemma InsertedFieldsAreComplete(cfg: Config, d: DefaultValues, valid: Validators, st: State, f: Fields, b: nat)
    requires IsNew(cfg, st) && OwnArrive(cfg, st.current) && cfg.create == AccountBuilder(d, valid)
    requires Filled(b, f) in SaveFrom(cfg, st).1.trace
    ensures Check(valid, f).None?
    ensures forall c :: c in DEFAULTED ==> c in f
  {
    hide Check;
    DefaultsKeepObjects(cfg.create, st.mutations, st.current, |st.current|);
    assert cfg.hooks[0][0..] == cfg.hooks[0];
    InsertedWasChecked(cfg, 0, 0, Some(st.current[0]), Prepared(cfg.create, st));
    assert cfg.create.check(f) == Check(valid, f);
    CheckCoversDefaults(valid, f);
  }
}
