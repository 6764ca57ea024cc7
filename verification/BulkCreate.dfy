/**
  AccountCreateBulk.Save: a chain of mutators in which builder i calls builder i + 1 inside its own
  hooks, and the last one issues the batch insert.
 */
module BulkCreate {
  import opened Wrappers
  import opened AccountEntity
  import opened AccountCreate

  /** A mutation object is known by its identity; this is its state. */
  type Ref = nat

  /** `target` is the node whose ID the mutation's id points to. */
  datatype Mutation = Mutation(fields: Fields, target: Option<nat>, done: bool)

  datatype Node = Node(entity: Entity, id: int)

  datatype Error = UnexpectedType | Invalid(error: ValidationError) | InsertFailed | HookFailed(code: int)

  datatype Outcome = Done | Failed(error: Error)

  /** What a hook hands to the next mutator: what it got, another account mutation, or some other type. */
  datatype Passed = Same | Other(ref: Ref) | Foreign

  /**
    A hook that calls its inner mutator at most once: it answers by itself, or it edits the mutation it
    got, passes one on, edits the one it got again, and maps the inner outcome to its own.
   */
  datatype Hook =
    | Answer(outcome: Outcome)
    | Call(edit: Fields -> Fields, pass: Passed, late: Fields -> Fields, post: Outcome -> Outcome)

  /** What sqlgraph.BatchCreate does: it fails, or gives some of the specs an ID. */
  datatype Insert = InsertFails | Inserts(ids: seq<Option<int>>)

  /** defaults(), check() and the two results of createSpec() of a builder, as functions of the fields. */
  datatype Builder = Builder(
    defaults: Fields -> Fields, check: Fields -> Option<ValidationError>, spec: Fields -> Spec, node: Fields -> Entity)

  /** A bulk builder; `pending` is the error that was found while it was put together. */
  datatype Config = Config(
    hooks: seq<seq<Hook>>, create: Builder, db: Insert, objects: set<Ref>, pending: Option<Error>)
  {
    /** The number of builders. */
    function N(): nat {
      |hooks|
    }
  }

  datatype Event =
    | Before(builder: nat, hook: nat)
    | After(builder: nat, hook: nat)
    | Rejected(builder: nat)
    | Filled(builder: nat, fields: Fields)
    | Inserted(specs: seq<Option<Spec>>, ok: bool)
    | Marked(builder: nat)

  datatype State = State(
    mutations: map<Ref, Mutation>, current: seq<Ref>, specs: seq<Option<Spec>>, nodes: seq<Option<Node>>,
    ids: seq<Option<int>>, trace: seq<Event>)

  ghost predicate Valid(cfg: Config, st: State) {
    && |st.current| == |st.specs| == |st.nodes| == |st.ids| == cfg.N()
    && st.mutations.Keys == cfg.objects
    && (forall c :: c in st.current ==> c in cfg.objects)
  }

  ghost predicate HooksValid(cfg: Config) {
    forall i, k :: 0 <= i < cfg.N() && 0 <= k < |cfg.hooks[i]| ==>
      var h := cfg.hooks[i][k]; h.Call? && h.pass.Other? ==> h.pass.ref in cfg.objects
  }

  function Log(st: State, e: Event): State {
    st.(trace := st.trace + [e])
  }

  function Next(h: Hook, m: Option<Ref>): Option<Ref>
    requires h.Call?
  {
    match h.pass
    case Same => m
    case Other(r) => Some(r)
    case Foreign => None
  }

  function Edit(edit: Fields -> Fields, m: Option<Ref>, st: State): State
    requires m.Some? ==> m.value in st.mutations
  {
    if m.None? then st
    else
      var was := st.mutations[m.value];
      st.(mutations := st.mutations[m.value := was.(fields := edit(was.fields))])
  }

  /** BatchCreate over the specs of all builders. */
  function BatchCreate(cfg: Config, st: State): (r: (Outcome, State))
    ensures Valid(cfg, st) ==> Valid(cfg, r.1)
  {
    match cfg.db
    case InsertFails => (Failed(InsertFailed), Log(st, Inserted(st.specs, false)))
    case Inserts(ids) =>
      var given := seq(cfg.N(), j requires 0 <= j < cfg.N() => if j < |ids| then ids[j] else None);
      (Done, Log(st, Inserted(st.specs, true)).(ids := given))
  }

  /** A place in the chain: hook `k` of builder `i`, or its MutateFunc when `k` is the number of hooks. */
  ghost predicate At(cfg: Config, i: nat, k: nat, m: Option<Ref>, st: State) {
    && HooksValid(cfg) && Valid(cfg, st)
    && i < cfg.N() && k <= |cfg.hooks[i]|
    && (m.Some? ==> m.value in cfg.objects)
  }

  /** The way down from a place: it answers itself, hands on to the next place, or issues the insert. */
  datatype Step = Stop(outcome: Outcome, st: State) | Go(i: nat, k: nat, m: Option<Ref>, st: State) | Execute(st: State)

  function Down(cfg: Config, i: nat, k: nat, m: Option<Ref>, st: State): (s: Step)
    requires At(cfg, i, k, m, st)
    ensures Valid(cfg, s.st)
    ensures s.Go? ==> At(cfg, s.i, s.k, s.m, s.st)
    ensures s.Go? ==> if k < |cfg.hooks[i]| then s.i == i && s.k == k + 1 else s.i == i + 1 && s.k == 0
    ensures s.Execute? ==> i == cfg.N() - 1 && k == |cfg.hooks[i]|
    ensures !s.Stop? ==> if k < |cfg.hooks[i]| then cfg.hooks[i][k].Call? else m.Some?
  {
    if k < |cfg.hooks[i]| then
      var h := cfg.hooks[i][k];
      if h.Answer? then Stop(h.outcome, Log(Log(st, Before(i, k)), After(i, k)))
      else Go(i, k + 1, Next(h, m), Edit(h.edit, m, Log(st, Before(i, k))))
    else if m.None? then Stop(Failed(UnexpectedType), st)
    else
      // check() looks at the builder's mutation as it was before the hooks.
      var err := cfg.create.check(st.mutations[st.current[i]].fields);
      if err.Some? then Stop(Failed(Invalid(err.value)), Log(st, Rejected(i)))
      else
        var st' := Fill(cfg.create, i, m.value, st);
        if i < cfg.N() - 1 then Go(i + 1, 0, Some(st'.current[i + 1]), st') else Execute(st')
  }

  /** The way back up through a place, with the outcome of what is inside it. */
  function Up(cfg: Config, i: nat, k: nat, m: Option<Ref>, inner: Outcome, st: State): (r: (Outcome, State))
    requires At(cfg, i, k, m, st)
    requires if k < |cfg.hooks[i]| then cfg.hooks[i][k].Call? else m.Some?
    ensures Valid(cfg, r.1)
  {
    if k < |cfg.hooks[i]| then
      var h := cfg.hooks[i][k];
      (h.post(inner), Log(Edit(h.late, m, st), After(i, k)))
    else if inner.Failed? then (inner, st)
    else (Done, Mark(i, m.value, st))
  }

  /**
    The mutator of builder `i` from its hook `k` on, hook 0 being the outermost. `m` is None for a
    mutation of another type.
   */
  function Mutate(cfg: Config, i: nat, k: nat, m: Option<Ref>, st: State): (r: (Outcome, State))
    requires At(cfg, i, k, m, st)
    ensures Valid(cfg, r.1)
    decreases cfg.N() - i, |cfg.hooks[i]| - k
  {
    match Down(cfg, i, k, m, st)
    case Stop(outcome, st') => (outcome, st')
    case Go(i', k', m', st') =>
      var (inner, after) := Mutate(cfg, i', k', m', st');
      Up(cfg, i, k, m, inner, after)
    case Execute(st') =>
      var (inner, after) := BatchCreate(cfg, st');
      Up(cfg, i, k, m, inner, after)
  }

  /** The builder adopts the mutation, and createSpec fills its slots. */
  function Fill(create: Builder, i: nat, m: Ref, st: State): State
    requires i < |st.current| == |st.specs| == |st.nodes| && m in st.mutations
  {
    var f := st.mutations[m].fields;
    Log(st, Filled(i, f)).(
      current := st.current[i := m],
      specs := st.specs[i := Some(create.spec(f))],
      nodes := st.nodes[i := Some(Node(create.node(f), 0))])
  }

  /** The mutation points to its node, the node takes the ID of its spec, and the mutation is done. */
  function Mark(i: nat, m: Ref, st: State): State
    requires i < |st.nodes| == |st.ids| && m in st.mutations
  {
    var nodes := if st.ids[i].Some? && st.nodes[i].Some?
                 then st.nodes[i := Some(st.nodes[i].value.(id := st.ids[i].value))] else st.nodes;
    Log(st, Marked(i)).(
      mutations := st.mutations[m := st.mutations[m].(target := Some(i), done := true)],
      nodes := nodes)
  }

  // ----- Counting events -----

  datatype Tally = Tally(inserts: nat, successes: nat, rejections: nat, marks: nat)

  ghost function TallyOf(t: seq<Event>): Tally {
    if t == [] then Tally(0, 0, 0, 0) else Tick(TallyOf(t[..|t| - 1]), t[|t| - 1])
  }

  ghost function Tick(c: Tally, e: Event): Tally {
    match e
    case Inserted(_, ok) => c.(inserts := c.inserts + 1, successes := c.successes + if ok then 1 else 0)
    case Rejected(_) => c.(rejections := c.rejections + 1)
    case Marked(_) => c.(marks := c.marks + 1)
    case _ => c
  }

  lemma TallyLog(st: State, e: Event)
    ensures TallyOf(Log(st, e).trace) == Tick(TallyOf(st.trace), e)
  {
    assert (st.trace + [e])[..|st.trace|] == st.trace;
  }

  /** What the way down and the way up add to the tally. */
  lemma DownTally(cfg: Config, i: nat, k: nat, m: Option<Ref>, st: State)
    requires At(cfg, i, k, m, st)
    ensures var s, a := Down(cfg, i, k, m, st), TallyOf(st.trace);
      if s.Stop? && k == |cfg.hooks[i]| && m.Some? then TallyOf(s.st.trace) == a.(rejections := a.rejections + 1)
      else TallyOf(s.st.trace) == a
  {
    if k < |cfg.hooks[i]| {
      TallyLog(st, Before(i, k));
      TallyLog(Log(st, Before(i, k)), After(i, k));
    } else if m.Some? {
      TallyLog(st, Rejected(i));
      TallyLog(st, Filled(i, st.mutations[m.value].fields));
    }
  }

  lemma UpTally(cfg: Config, i: nat, k: nat, m: Option<Ref>, inner: Outcome, st: State)
    requires At(cfg, i, k, m, st)
    requires if k < |cfg.hooks[i]| then cfg.hooks[i][k].Call? else m.Some?
    ensures var a := TallyOf(st.trace);
      TallyOf(Up(cfg, i, k, m, inner, st).1.trace) ==
        if k == |cfg.hooks[i]| && inner == Done then a.(marks := a.marks + 1) else a
  {
    if k < |cfg.hooks[i]| { TallyLog(Edit(cfg.hooks[i][k].late, m, st), After(i, k)); }
    TallyLog(st, Marked(i));
  }

  lemma BatchTally(cfg: Config, st: State)
    ensures var a := TallyOf(st.trace);
      TallyOf(BatchCreate(cfg, st).1.trace) ==
        a.(inserts := a.inserts + 1, successes := a.successes + if BatchCreate(cfg, st).0 == Done then 1 else 0)
  {
    TallyLog(st, Inserted(st.specs, cfg.db.Inserts?));
  }

  lemma InsertedIsDone(cfg: Config, st: State)
    ensures BatchCreate(cfg, st).0 == Done <==> cfg.db.Inserts?
  {
  }

  // ----- At most one insert, and when there is one -----

  /** The hooks call through, and what the last of them passes is an account mutation. */
  predicate Delivers(hooks: seq<Hook>, usable: bool) {
    if hooks == [] then usable
    else
      var h := hooks[0];
      h.Call? && Delivers(hooks[1..], h.pass.Other? || (h.pass.Same? && usable))
  }

  predicate AllDeliver(cfg: Config, i: nat)
    decreases cfg.N() - i
  {
    i >= cfg.N() || (Delivers(cfg.hooks[i], true) && AllDeliver(cfg, i + 1))
  }

  predicate DeliversFrom(cfg: Config, i: nat, k: nat, m: Option<Ref>)
    requires i < cfg.N() && k <= |cfg.hooks[i]|
  {
    Delivers(cfg.hooks[i][k..], m.Some?) && AllDeliver(cfg, i + 1)
  }

  lemma DownDelivers(cfg: Config, i: nat, k: nat, m: Option<Ref>, st: State)
    requires At(cfg, i, k, m, st)
    ensures match Down(cfg, i, k, m, st)
      case Stop(_, _) => DeliversFrom(cfg, i, k, m) ==> k == |cfg.hooks[i]| && m.Some?
      case Go(i', k', m', _) => DeliversFrom(cfg, i, k, m) <==> DeliversFrom(cfg, i', k', m')
      case Execute(_) => DeliversFrom(cfg, i, k, m)
  {
    if k < |cfg.hooks[i]| {
      assert cfg.hooks[i][k..][1..] == cfg.hooks[i][k + 1..];
    } else if i < cfg.N() - 1 {
      assert cfg.hooks[i + 1][0..] == cfg.hooks[i + 1];
    }
  }

  /**
    Whatever the hooks do, the batch insert is issued at most once; it is issued exactly when every
    builder's hooks deliver an account mutation and no check rejects one.
   */
  lemma {:induction false} InsertAtMostOnce(cfg: Config, i: nat, k: nat, m: Option<Ref>, st: State)
    requires At(cfg, i, k, m, st)
    ensures var a, b := TallyOf(st.trace), TallyOf(Mutate(cfg, i, k, m, st).1.trace);
      && a.inserts <= b.inserts && a.rejections <= b.rejections
      && b.inserts + b.rejections <= a.inserts + a.rejections + 1
      && (b.inserts == a.inserts + 1 <==> DeliversFrom(cfg, i, k, m) && b.rejections == a.rejections)
    decreases cfg.N() - i, |cfg.hooks[i]| - k
  {
    DownTally(cfg, i, k, m, st);
    DownDelivers(cfg, i, k, m, st);
    match Down(cfg, i, k, m, st) {
      case Stop(_, _) =>
      case Go(i', k', m', st') =>
        InsertAtMostOnce(cfg, i', k', m', st');
        var (inner, after) := Mutate(cfg, i', k', m', st');
        UpTally(cfg, i, k, m, inner, after);
      case Execute(st') =>
        BatchTally(cfg, st');
        UpTally(cfg, i, k, m, BatchCreate(cfg, st').0, BatchCreate(cfg, st').1);
    }
  }

  // ----- Failure -----

  /** Hooks that report every failure: they answer with errors only and pass inner errors on. */
  ghost predicate Propagates(cfg: Config) {
    forall i, k :: 0 <= i < cfg.N() && 0 <= k < |cfg.hooks[i]| ==>
      var h := cfg.hooks[i][k];
      if h.Answer? then h.outcome.Failed? else forall e :: h.post(Failed(e)).Failed?
  }

  ghost predicate SameMarks(a: State, b: State) {
    && a.mutations.Keys == b.mutations.Keys
    && forall r :: r in a.mutations ==> a.mutations[r].done == b.mutations[r].done
  }

  lemma DownMarksNothing(cfg: Config, i: nat, k: nat, m: Option<Ref>, st: State)
    requires At(cfg, i, k, m, st)
    ensures SameMarks(st, Down(cfg, i, k, m, st).st)
  {
  }

  lemma UpFails(cfg: Config, i: nat, k: nat, m: Option<Ref>, inner: Outcome, st: State)
    requires At(cfg, i, k, m, st) && Propagates(cfg) && inner.Failed?
    requires if k < |cfg.hooks[i]| then cfg.hooks[i][k].Call? else m.Some?
    ensures Up(cfg, i, k, m, inner, st).0.Failed? && SameMarks(st, Up(cfg, i, k, m, inner, st).1)
  {
    if k < |cfg.hooks[i]| { assert cfg.hooks[i][k].post(Failed(inner.error)).Failed?; }
  }

  lemma StopFails(cfg: Config, i: nat, k: nat, m: Option<Ref>, st: State)
    requires At(cfg, i, k, m, st) && Propagates(cfg) && Down(cfg, i, k, m, st).Stop?
    ensures Down(cfg, i, k, m, st).outcome.Failed?
  {
  }

  lemma BatchMarksNothing(cfg: Config, st: State)
    ensures SameMarks(st, BatchCreate(cfg, st).1)
  {
  }

  /** Without a successful insert, the call fails and nothing is marked done. */
  lemma {:induction false} NoInsertNothingDone(cfg: Config, i: nat, k: nat, m: Option<Ref>, st: State)
    requires At(cfg, i, k, m, st) && Propagates(cfg)
    ensures var (o, st') := Mutate(cfg, i, k, m, st);
      var a, b := TallyOf(st.trace), TallyOf(st'.trace);
      && a.successes <= b.successes
      && (b.successes == a.successes ==> o.Failed? && b.marks == a.marks && SameMarks(st, st'))
    decreases cfg.N() - i, |cfg.hooks[i]| - k
  {
    hide Down, Up, BatchCreate, Valid, HooksValid, Propagates, TallyOf;
    DownTally(cfg, i, k, m, st);
    DownMarksNothing(cfg, i, k, m, st);
    match Down(cfg, i, k, m, st) {
      case Stop(_, _) => StopFails(cfg, i, k, m, st);
      case Go(i', k', m', st') =>
        NoInsertNothingDone(cfg, i', k', m', st');
        var (inner, after) := Mutate(cfg, i', k', m', st');
        UpTally(cfg, i, k, m, inner, after);
        if inner.Failed? { UpFails(cfg, i, k, m, inner, after); }
      case Execute(st') =>
        var (inner, after) := BatchCreate(cfg, st');
        BatchTally(cfg, st');
        BatchMarksNothing(cfg, st');
        UpTally(cfg, i, k, m, inner, after);
        if inner.Failed? { UpFails(cfg, i, k, m, inner, after); }
    }
  }

  /** Hooks that do not fail once their inner mutator has succeeded. */
  ghost predicate KeepsSuccess(cfg: Config) {
    forall i, k :: 0 <= i < cfg.N() && 0 <= k < |cfg.hooks[i]| ==>
      var h := cfg.hooks[i][k]; h.Call? ==> h.post(Done) == Done
  }

  lemma UpDone(cfg: Config, i: nat, k: nat, m: Option<Ref>, st: State)
    requires At(cfg, i, k, m, st) && KeepsSuccess(cfg)
    requires if k < |cfg.hooks[i]| then cfg.hooks[i][k].Call? else m.Some?
    ensures Up(cfg, i, k, m, Done, st).0 == Done
  {
  }

  /** After a successful insert, the call fails only if some hook turns an inner success into an error. */
  lemma {:induction false} InsertedThenDone(cfg: Config, i: nat, k: nat, m: Option<Ref>, st: State)
    requires At(cfg, i, k, m, st) && KeepsSuccess(cfg)
    ensures var (o, st') := Mutate(cfg, i, k, m, st);
      var a, b := TallyOf(st.trace), TallyOf(st'.trace);
      b.successes > a.successes ==> o == Done && b.marks == a.marks + cfg.N() - i
    decreases cfg.N() - i, |cfg.hooks[i]| - k
  {
    hide Down, Up, BatchCreate, Valid, HooksValid, KeepsSuccess, TallyOf;
    DownTally(cfg, i, k, m, st);
    match Down(cfg, i, k, m, st) {
      case Stop(_, _) =>
      case Go(i', k', m', st') =>
        InsertedThenDone(cfg, i', k', m', st');
        var (inner, after) := Mutate(cfg, i', k', m', st');
        UpTally(cfg, i, k, m, inner, after);
        UpDone(cfg, i, k, m, after);
      case Execute(st') =>
        var (inner, after) := BatchCreate(cfg, st');
        BatchTally(cfg, st');
        UpTally(cfg, i, k, m, inner, after);
        UpDone(cfg, i, k, m, after);
    }
  }

  // ----- What is inserted -----

  /** The fields from which the builders filled their slots, in order. */
  ghost function FilledFields(t: seq<Event>): seq<Fields> {
    if t == [] then []
    else
      var e := t[|t| - 1];
      FilledFields(t[..|t| - 1]) + if e.Filled? then [e.fields] else []
  }

  ghost function SpecsOf(create: Builder, fs: seq<Fields>): seq<Option<Spec>> {
    seq(|fs|, j requires 0 <= j < |fs| => Some(create.spec(fs[j])))
  }

  /**
    Builders fill their slots in order, and every insert covers all `n` of them with the specs of
    exactly the fields that were filled in before.
   */
  ghost predicate Complete(create: Builder, n: nat, t: seq<Event>) {
    t == [] ||
    (var init, e := t[..|t| - 1], t[|t| - 1];
     Complete(create, n, init) &&
     match e
     case Filled(b, _) => b == |FilledFields(init)|
     case Inserted(specs, _) => |FilledFields(init)| == n && specs == SpecsOf(create, FilledFields(init))
     case _ => true)
  }

  /** The first `i` slots hold what the trace says. */
  ghost predicate FilledUpTo(cfg: Config, i: nat, st: State) {
    && |FilledFields(st.trace)| == i <= |st.specs|
    && st.specs[..i] == SpecsOf(cfg.create, FilledFields(st.trace))
    && Complete(cfg.create, cfg.N(), st.trace)
  }

  lemma LogComplete(cfg: Config, st: State, e: Event)
    requires Complete(cfg.create, cfg.N(), st.trace)
    requires e.Filled? ==> e.builder == |FilledFields(st.trace)|
    requires e.Inserted? ==>
      |FilledFields(st.trace)| == cfg.N() && e.specs == SpecsOf(cfg.create, FilledFields(st.trace))
    ensures Complete(cfg.create, cfg.N(), Log(st, e).trace)
    ensures FilledFields(Log(st, e).trace) == FilledFields(st.trace) + if e.Filled? then [e.fields] else []
  {
    assert (st.trace + [e])[..|st.trace|] == st.trace;
  }

  lemma FillExtends(cfg: Config, i: nat, m: Ref, st: State)
    requires Valid(cfg, st) && FilledUpTo(cfg, i, st) && i < cfg.N() && m in cfg.objects
    ensures FilledUpTo(cfg, i + 1, Fill(cfg.create, i, m, st))
  {
    var f := st.mutations[m].fields;
    LogComplete(cfg, st, Filled(i, f));
    var specs := st.specs[i := Some(cfg.create.spec(f))];
    assert specs[..i + 1] == st.specs[..i] + [Some(cfg.create.spec(f))];
    assert SpecsOf(cfg.create, FilledFields(st.trace) + [f]) ==
      SpecsOf(cfg.create, FilledFields(st.trace)) + [Some(cfg.create.spec(f))];
  }

  lemma LogKeepsFilled(cfg: Config, i: nat, st: State, e: Event)
    requires FilledUpTo(cfg, i, st) && !e.Filled? && !e.Inserted?
    ensures FilledUpTo(cfg, i, Log(st, e)) && Complete(cfg.create, cfg.N(), Log(st, e).trace)
  {
    LogComplete(cfg, st, e);
  }

  lemma DownFills(cfg: Config, i: nat, k: nat, m: Option<Ref>, st: State)
    requires At(cfg, i, k, m, st) && FilledUpTo(cfg, i, st)
    ensures match Down(cfg, i, k, m, st)
      case Stop(_, st') => Complete(cfg.create, cfg.N(), st'.trace)
      case Go(i', _, _, st') => FilledUpTo(cfg, i', st')
      case Execute(st') => FilledUpTo(cfg, cfg.N(), st')
  {
    hide HooksValid, Complete, SpecsOf, FilledFields;
    if k < |cfg.hooks[i]| {
      LogKeepsFilled(cfg, i, st, Before(i, k));
      LogKeepsFilled(cfg, i, Log(st, Before(i, k)), After(i, k));
    } else if m.Some? {
      LogKeepsFilled(cfg, i, st, Rejected(i));
      FillExtends(cfg, i, m.value, st);
    }
  }

  lemma UpCompletes(cfg: Config, i: nat, k: nat, m: Option<Ref>, inner: Outcome, st: State)
    requires At(cfg, i, k, m, st) && Complete(cfg.create, cfg.N(), st.trace)
    requires if k < |cfg.hooks[i]| then cfg.hooks[i][k].Call? else m.Some?
    ensures Complete(cfg.create, cfg.N(), Up(cfg, i, k, m, inner, st).1.trace)
  {
    if k < |cfg.hooks[i]| { LogComplete(cfg, Edit(cfg.hooks[i][k].late, m, st), After(i, k)); }
    LogComplete(cfg, st, Marked(i));
  }

  /** When the insert runs, every spec is filled, in order, each from its builder's mutation. */
  lemma {:induction false} InsertIsComplete(cfg: Config, i: nat, k: nat, m: Option<Ref>, st: State)
    requires At(cfg, i, k, m, st) && FilledUpTo(cfg, i, st)
    ensures Complete(cfg.create, cfg.N(), Mutate(cfg, i, k, m, st).1.trace)
    decreases cfg.N() - i, |cfg.hooks[i]| - k
  {
    DownFills(cfg, i, k, m, st);
    match Down(cfg, i, k, m, st) {
      case Stop(_, _) =>
      case Go(i', k', m', st') =>
        InsertIsComplete(cfg, i', k', m', st');
        var (inner, after) := Mutate(cfg, i', k', m', st');
        UpCompletes(cfg, i, k, m, inner, after);
      case Execute(st') =>
        assert st'.specs[..cfg.N()] == st'.specs;
        LogComplete(cfg, st', Inserted(st'.specs, cfg.db.Inserts?));
        UpCompletes(cfg, i, k, m, BatchCreate(cfg, st').0, BatchCreate(cfg, st').1);
    }
  }

  // ----- Which mutation is checked -----

  /** The mutation that comes out of the hooks of a builder; None for one of another type. */
  ghost function Arriving(hooks: seq<Hook>, m: Option<Ref>): Option<Ref> {
    if hooks == [] then m else Arriving(hooks[1..], if hooks[0].Call? then Next(hooks[0], m) else m)
  }

  lemma {:induction false} SameArrives(hooks: seq<Hook>, m: Option<Ref>)
    requires forall h :: h in hooks && h.Call? ==> h.pass.Same?
    ensures Arriving(hooks, m) == m
  {
    if hooks != [] {
      assert hooks[0] in hooks;
      SameArrives(hooks[1..], m);
    }
  }

  ghost predicate OwnOrNone(m: Option<Ref>, own: Ref) {
    m.None? || m.value == own
  }

  /** Whatever the hooks do on the way, what comes out for each builder is its own mutation, or nothing. */
  ghost predicate OwnArrive(cfg: Config, refs: seq<Ref>)
    requires |refs| == cfg.N()
  {
    forall j :: 0 <= j < cfg.N() ==> OwnOrNone(Arriving(cfg.hooks[j], Some(refs[j])), refs[j])
  }

  ghost predicate OwnArriveFrom(cfg: Config, i: nat, k: nat, m: Option<Ref>, st: State)
    requires At(cfg, i, k, m, st)
  {
    && OwnOrNone(Arriving(cfg.hooks[i][k..], m), st.current[i])
    && forall j :: i < j < cfg.N() ==> OwnOrNone(Arriving(cfg.hooks[j], Some(st.current[j])), st.current[j])
  }

  ghost predicate FillsChecked(create: Builder, t: seq<Event>) {
    forall e :: e in t && e.Filled? ==> create.check(e.fields).None?
  }

  lemma DownChecked(cfg: Config, i: nat, k: nat, m: Option<Ref>, st: State)
    requires At(cfg, i, k, m, st) && OwnArriveFrom(cfg, i, k, m, st) && FillsChecked(cfg.create, st.trace)
    ensures var d := Down(cfg, i, k, m, st);
      && FillsChecked(cfg.create, d.st.trace)
      && (d.Go? ==> OwnArriveFrom(cfg, d.i, d.k, d.m, d.st))
  {
    var hs := cfg.hooks[i][k..];
    if k < |cfg.hooks[i]| {
      assert hs[0] == cfg.hooks[i][k] && hs[1..] == cfg.hooks[i][k + 1..];
    } else {
      assert hs == [];
      if m.Some? { assert st.current[i := m.value] == st.current; }
      if i < cfg.N() - 1 { assert cfg.hooks[i + 1][0..] == cfg.hooks[i + 1]; }
    }
  }

  lemma UpChecked(cfg: Config, i: nat, k: nat, m: Option<Ref>, inner: Outcome, st: State)
    requires At(cfg, i, k, m, st) && FillsChecked(cfg.create, st.trace)
    requires if k < |cfg.hooks[i]| then cfg.hooks[i][k].Call? else m.Some?
    ensures FillsChecked(cfg.create, Up(cfg, i, k, m, inner, st).1.trace)
  {
  }

  lemma BatchChecked(cfg: Config, st: State)
    requires FillsChecked(cfg.create, st.trace)
    ensures FillsChecked(cfg.create, BatchCreate(cfg, st).1.trace)
  {
  }

  /** When its own mutation comes out for every builder, nothing reaches the insert unchecked. */
  lemma {:induction false} InsertedWasChecked(cfg: Config, i: nat, k: nat, m: Option<Ref>, st: State)
    requires At(cfg, i, k, m, st) && OwnArriveFrom(cfg, i, k, m, st)
    requires FillsChecked(cfg.create, st.trace)
    ensures FillsChecked(cfg.create, Mutate(cfg, i, k, m, st).1.trace)
    decreases cfg.N() - i, |cfg.hooks[i]| - k
  {
    hide Down, Up, BatchCreate, Valid, HooksValid, OwnArriveFrom, FillsChecked;
    DownChecked(cfg, i, k, m, st);
    match Down(cfg, i, k, m, st) {
      case Stop(_, _) =>
      case Go(i', k', m', st') =>
        InsertedWasChecked(cfg, i', k', m', st');
        var (inner, after) := Mutate(cfg, i', k', m', st');
        UpChecked(cfg, i, k, m, inner, after);
      case Execute(st') =>
        var (inner, after) := BatchCreate(cfg, st');
        BatchChecked(cfg, st');
        UpChecked(cfg, i, k, m, inner, after);
    }
  }

  // ----- Nesting -----

  datatype Place = Place(builder: nat, hook: nat)

  /** The places from a place to the end of the chain, from the outside in. */
  ghost function Way(cfg: Config, i: nat, k: nat): seq<Place>
    requires i < cfg.N() && k <= |cfg.hooks[i]|
    decreases cfg.N() - i, |cfg.hooks[i]| - k
  {
    [Place(i, k)] +
    if k < |cfg.hooks[i]| then Way(cfg, i, k + 1)
    else if i < cfg.N() - 1 then Way(cfg, i + 1, 0)
    else []
  }

  ghost predicate EntersAt(cfg: Config, e: Event, p: Place)
    requires p.builder < cfg.N()
  {
    if p.hook < |cfg.hooks[p.builder]| then e == Before(p.builder, p.hook) else e.Filled? && e.builder == p.builder
  }

  /** The event on the way up that belongs to an event on the way down. */
  ghost function Exit(e: Event): Event {
    match e
    case Before(b, k) => After(b, k)
    case Filled(b, _) => Marked(b)
    case _ => e
  }

  /** The exits of the entered places, in the reverse order. */
  ghost function Unwound(entered: seq<Event>): seq<Event> {
    if entered == [] then [] else Unwound(entered[1..]) + [Exit(entered[0])]
  }

  ghost predicate Enters(cfg: Config, entered: seq<Event>, way: seq<Place>) {
    && |entered| == |way|
    && forall j :: 0 <= j < |way| ==> way[j].builder < cfg.N() && EntersAt(cfg, entered[j], way[j])
  }

  lemma DownEnters(cfg: Config, i: nat, k: nat, m: Option<Ref>, st: State) returns (e: Event)
    requires At(cfg, i, k, m, st) && !Down(cfg, i, k, m, st).Stop?
    ensures EntersAt(cfg, e, Place(i, k)) && Down(cfg, i, k, m, st).st.trace == st.trace + [e]
  {
    e := if k < |cfg.hooks[i]| then Before(i, k) else Filled(i, st.mutations[m.value].fields);
  }

  lemma UpExits(cfg: Config, i: nat, k: nat, m: Option<Ref>, e: Event, st: State)
    requires At(cfg, i, k, m, st) && EntersAt(cfg, e, Place(i, k))
    requires if k < |cfg.hooks[i]| then cfg.hooks[i][k].Call? else m.Some?
    ensures Up(cfg, i, k, m, Done, st).1.trace == st.trace + [Exit(e)]
  {
  }

  lemma NestOutside(before: seq<Event>, e: Event, rest: seq<Event>, insert: Event, inner: seq<Event>)
    requires inner == before + [e] + rest + [insert] + Unwound(rest)
    ensures inner + [Exit(e)] == before + ([e] + rest) + [insert] + Unwound([e] + rest)
  {
    hide Exit;
    assert ([e] + rest)[1..] == rest;
  }

  lemma EntersNext(cfg: Config, e: Event, p: Place, entered: seq<Event>, way: seq<Place>)
    requires p.builder < cfg.N() && EntersAt(cfg, e, p) && Enters(cfg, entered, way)
    ensures Enters(cfg, [e] + entered, [p] + way)
  {
  }

  lemma MutateGo(cfg: Config, i: nat, k: nat, m: Option<Ref>, st: State)
    requires At(cfg, i, k, m, st) && Down(cfg, i, k, m, st).Go?
    ensures var d := Down(cfg, i, k, m, st);
      var (inner, after) := Mutate(cfg, d.i, d.k, d.m, d.st);
      && Mutate(cfg, i, k, m, st) == Up(cfg, i, k, m, inner, after)
      && Way(cfg, i, k) == [Place(i, k)] + Way(cfg, d.i, d.k)
  {
    hide Down, Up, Valid, HooksValid;
  }

  lemma NestGo(
    cfg: Config, i: nat, k: nat, m: Option<Ref>, st: State, rest: seq<Event>, specs: seq<Option<Spec>>)
    returns (entered: seq<Event>)
    requires At(cfg, i, k, m, st) && Down(cfg, i, k, m, st).Go?
    requires var d := Down(cfg, i, k, m, st);
      var (inner, after) := Mutate(cfg, d.i, d.k, d.m, d.st);
      && inner == Done
      && Enters(cfg, rest, Way(cfg, d.i, d.k))
      && after.trace == d.st.trace + rest + [Inserted(specs, true)] + Unwound(rest)
    ensures Enters(cfg, entered, Way(cfg, i, k))
    ensures Mutate(cfg, i, k, m, st).1.trace == st.trace + entered + [Inserted(specs, true)] + Unwound(entered)
  {
    hide Down, Up, Mutate, Way, Enters, Valid, HooksValid, EntersAt, Exit, Unwound;
    var d := Down(cfg, i, k, m, st);
    var (_, after) := Mutate(cfg, d.i, d.k, d.m, d.st);
    MutateGo(cfg, i, k, m, st);
    var e := DownEnters(cfg, i, k, m, st);
    UpExits(cfg, i, k, m, e, after);
    entered := [e] + rest;
    EntersNext(cfg, e, Place(i, k), rest, Way(cfg, d.i, d.k));
    NestOutside(st.trace, e, rest, Inserted(specs, true), after.trace);
  }

  lemma NestExecute(cfg: Config, i: nat, k: nat, m: Option<Ref>, st: State)
    returns (entered: seq<Event>, specs: seq<Option<Spec>>)
    requires At(cfg, i, k, m, st) && Down(cfg, i, k, m, st).Execute? && cfg.db.Inserts?
    ensures Enters(cfg, entered, Way(cfg, i, k))
    ensures Mutate(cfg, i, k, m, st).1.trace == st.trace + entered + [Inserted(specs, true)] + Unwound(entered)
  {
    var st' := Down(cfg, i, k, m, st).st;
    var after := BatchCreate(cfg, st').1;
    var e := DownEnters(cfg, i, k, m, st);
    UpExits(cfg, i, k, m, e, after);
    entered, specs := [e], st'.specs;
    assert [e] == [e] + [];
    NestOutside(st.trace, e, [], Inserted(specs, true), after.trace);
    assert Way(cfg, i, k) == [Place(i, k)];
  }

  /**
    A successful insert is nested: all hooks and createSpecs from the outside in, one insert, and then
    the same places in exactly the reverse order.
   */
  lemma {:induction false} InsertIsNested(cfg: Config, i: nat, k: nat, m: Option<Ref>, st: State)
    returns (entered: seq<Event>, specs: seq<Option<Spec>>)
    requires At(cfg, i, k, m, st) && KeepsSuccess(cfg)
    requires TallyOf(Mutate(cfg, i, k, m, st).1.trace).successes > TallyOf(st.trace).successes
    ensures Enters(cfg, entered, Way(cfg, i, k))
    ensures Mutate(cfg, i, k, m, st).1.trace == st.trace + entered + [Inserted(specs, true)] + Unwound(entered)
    decreases cfg.N() - i, |cfg.hooks[i]| - k
  {
    hide Down, Up, BatchCreate, Valid, HooksValid, KeepsSuccess, TallyOf, Enters, Way, Unwound;
    DownTally(cfg, i, k, m, st);
    match Down(cfg, i, k, m, st) {
      case Stop(_, _) => assert false;
      case Go(i', k', m', st') =>
        var (inner, after) := Mutate(cfg, i', k', m', st');
        UpTally(cfg, i, k, m, inner, after);
        InsertedThenDone(cfg, i', k', m', st');
        entered, specs := InsertIsNested(cfg, i', k', m', st');
        entered := NestGo(cfg, i, k, m, st, entered, specs);
      case Execute(st') =>
        var (inner, after) := BatchCreate(cfg, st');
        BatchTally(cfg, st');
        UpTally(cfg, i, k, m, inner, after);
        InsertedIsDone(cfg, st');
        entered, specs := NestExecute(cfg, i, k, m, st);
    }
  }

  // ----- What a successful save leaves behind -----

  /** A place leaves the slots of the builders above it alone, and never takes back a fill. */
  lemma {:induction false} Frame(cfg: Config, i: nat, k: nat, m: Option<Ref>, st: State)
    requires At(cfg, i, k, m, st)
    ensures var st' := Mutate(cfg, i, k, m, st).1;
      && (forall j :: 0 <= j < i ==> st'.nodes[j] == st.nodes[j] && st'.current[j] == st.current[j])
      && FilledFields(st.trace) <= FilledFields(st'.trace)
    decreases cfg.N() - i, |cfg.hooks[i]| - k
  {
    DownFrame(cfg, i, k, m, st);
    match Down(cfg, i, k, m, st) {
      case Stop(_, _) =>
      case Go(i', k', m', st') =>
        Frame(cfg, i', k', m', st');
        var (inner, after) := Mutate(cfg, i', k', m', st');
        UpFrame(cfg, i, k, m, inner, after);
      case Execute(st') =>
        FillLog(st', Inserted(st'.specs, cfg.db.Inserts?));
        UpFrame(cfg, i, k, m, BatchCreate(cfg, st').0, BatchCreate(cfg, st').1);
    }
  }

  lemma FillLog(st: State, e: Event)
    ensures FilledFields(Log(st, e).trace) == FilledFields(st.trace) + if e.Filled? then [e.fields] else []
  {
    assert (st.trace + [e])[..|st.trace|] == st.trace;
  }

  lemma DownFrame(cfg: Config, i: nat, k: nat, m: Option<Ref>, st: State)
    requires At(cfg, i, k, m, st)
    ensures var st' := Down(cfg, i, k, m, st).st;
      && (forall j :: 0 <= j < i ==> st'.nodes[j] == st.nodes[j] && st'.current[j] == st.current[j])
      && FilledFields(st.trace) <= FilledFields(st'.trace)
  {
    FillLog(st, Before(i, k));
    FillLog(Log(st, Before(i, k)), After(i, k));
    FillLog(st, Rejected(i));
    if m.Some? { FillLog(st, Filled(i, st.mutations[m.value].fields)); }
  }

  lemma UpFrame(cfg: Config, i: nat, k: nat, m: Option<Ref>, inner: Outcome, st: State)
    requires At(cfg, i, k, m, st)
    requires if k < |cfg.hooks[i]| then cfg.hooks[i][k].Call? else m.Some?
    ensures var st' := Up(cfg, i, k, m, inner, st).1;
      && (forall j :: 0 <= j < |st.nodes| && (j != i || k < |cfg.hooks[i]|) ==> st'.nodes[j] == st.nodes[j])
      && st'.current == st.current && st'.ids == st.ids
      && FilledFields(st'.trace) == FilledFields(st.trace)
      && (forall r :: r in st.mutations && st.mutations[r].done ==> st'.mutations[r].done)
      && forall r :: r in st.mutations && (k < |cfg.hooks[i]| || m != Some(r)) ==>
        st'.mutations[r].target == st.mutations[r].target
  {
    if k < |cfg.hooks[i]| { FillLog(Edit(cfg.hooks[i][k].late, m, st), After(i, k)); }
    FillLog(st, Marked(i));
  }

  /** No other builder holds the mutation of builder `j`. */
  ghost predicate OnlyHolder(refs: seq<Ref>, j: nat)
    requires j < |refs|
  {
    forall l :: 0 <= l < |refs| && l != j ==> refs[l] != refs[j]
  }

  /** The ID that the database gives to the spec of builder `j`; 0 when it gives none. */
  function IdFor(db: Insert, j: nat): int {
    match db
    case InsertFails => 0
    case Inserts(ids) => if j < |ids| && ids[j].Some? then ids[j].value else 0
  }

  /** The IDs of the specs are those that the database gave. */
  ghost predicate GaveIds(cfg: Config, st: State)
    requires Valid(cfg, st)
  {
    forall j :: 0 <= j < cfg.N() ==> (if st.ids[j].Some? then st.ids[j].value else 0) == IdFor(cfg.db, j)
  }

  /**
    Builder `j` ends with a done mutation and the node of its fields, under the ID that the database gave
    its spec; a mutation of its own points to that node.
   */
  ghost predicate Saved(cfg: Config, st: State, j: nat)
    requires Valid(cfg, st) && j < cfg.N()
  {
    var fs := FilledFields(st.trace);
    && j < |fs|
    && st.nodes[j] == Some(Node(cfg.create.node(fs[j]), IdFor(cfg.db, j)))
    && st.current[j] in st.mutations && st.mutations[st.current[j]].done
    && (OnlyHolder(st.current, j) ==> st.mutations[st.current[j]].target == Some(j))
  }

  lemma UpSaves(cfg: Config, i: nat, k: nat, m: Option<Ref>, st: State)
    requires At(cfg, i, k, m, st)
    requires if k < |cfg.hooks[i]| then cfg.hooks[i][k].Call? else m.Some?
    requires GaveIds(cfg, st)
    requires forall j :: i < j < cfg.N() || (j == i && k < |cfg.hooks[i]|) ==> Saved(cfg, st, j)
    requires k == |cfg.hooks[i]| ==>
      && i < |FilledFields(st.trace)| && st.current[i] == m.value
      && st.nodes[i] == Some(Node(cfg.create.node(FilledFields(st.trace)[i]), 0))
    ensures GaveIds(cfg, Up(cfg, i, k, m, Done, st).1)
    ensures forall j :: i <= j < cfg.N() ==> Saved(cfg, Up(cfg, i, k, m, Done, st).1, j)
  {
    UpFrame(cfg, i, k, m, Done, st);
    var st' := Up(cfg, i, k, m, Done, st).1;
    forall j | i <= j < cfg.N() ensures Saved(cfg, st', j) {
      if j > i || k < |cfg.hooks[i]| {
        assert Saved(cfg, st, j);
        assert st'.nodes[j] == st.nodes[j];
      }
    }
  }

  lemma FillsSlot(cfg: Config, i: nat, k: nat, m: Option<Ref>, st: State)
    requires At(cfg, i, k, m, st) && |FilledFields(st.trace)| == i
    requires k == |cfg.hooks[i]| && !Down(cfg, i, k, m, st).Stop?
    ensures var st', f := Down(cfg, i, k, m, st).st, st.mutations[m.value].fields;
      && FilledFields(st'.trace) == FilledFields(st.trace) + [f]
      && st'.nodes[i] == Some(Node(cfg.create.node(f), 0)) && st'.current[i] == m.value
  {
    FillLog(st, Filled(i, st.mutations[m.value].fields));
  }

  lemma HookFillsNothing(cfg: Config, i: nat, k: nat, m: Option<Ref>, st: State)
    requires At(cfg, i, k, m, st) && k < |cfg.hooks[i]| && !Down(cfg, i, k, m, st).Stop?
    ensures FilledFields(Down(cfg, i, k, m, st).st.trace) == FilledFields(st.trace)
  {
    FillLog(st, Before(i, k));
  }

  /** After a successful insert every node carries the ID that the database gave and every mutation is done. */
  lemma {:induction false} InsertedIsSaved(cfg: Config, i: nat, k: nat, m: Option<Ref>, st: State)
    requires At(cfg, i, k, m, st) && KeepsSuccess(cfg) && |FilledFields(st.trace)| == i
    requires TallyOf(Mutate(cfg, i, k, m, st).1.trace).successes > TallyOf(st.trace).successes
    ensures GaveIds(cfg, Mutate(cfg, i, k, m, st).1)
    ensures forall j :: i <= j < cfg.N() ==> Saved(cfg, Mutate(cfg, i, k, m, st).1, j)
    decreases cfg.N() - i, |cfg.hooks[i]| - k
  {
    DownTally(cfg, i, k, m, st);
    match Down(cfg, i, k, m, st) {
      case Stop(_, _) => assert false;
      case Go(i', k', m', st') =>
        var (inner, after) := Mutate(cfg, i', k', m', st');
        UpTally(cfg, i, k, m, inner, after);
        InsertedThenDone(cfg, i', k', m', st');
        if k < |cfg.hooks[i]| { HookFillsNothing(cfg, i, k, m, st); } else { FillsSlot(cfg, i, k, m, st); }
        Frame(cfg, i', k', m', st');
        InsertedIsSaved(cfg, i', k', m', st');
        UpSaves(cfg, i, k, m, after);
      case Execute(st') =>
        var (inner, after) := BatchCreate(cfg, st');
        BatchTally(cfg, st');
        UpTally(cfg, i, k, m, inner, after);
        FillsSlot(cfg, i, k, m, st);
        FillLog(st', Inserted(st'.specs, cfg.db.Inserts?));
        UpSaves(cfg, i, k, m, after);
    }
  }

  // ----- A hook that swaps the mutation -----

  /**
    check() looks at the builder's own mutation, createSpec at the one that arrives: a hook that
    passes another mutation gets it inserted without any check.
   */
  lemma {:induction false} SwappedMutationIsNotChecked(cfg: Config, h: Hook, r: Ref, st: State)
    requires HooksValid(cfg) && Valid(cfg, st) && cfg.hooks == [[h]] && cfg.db.Inserts?
    requires h.Call? && h.pass == Other(r) && r in cfg.objects && st.current[0] != r
    requires cfg.create.check(h.edit(st.mutations[st.current[0]].fields)).None?
    ensures var (_, st') := Mutate(cfg, 0, 0, Some(st.current[0]), st);
      Inserted([Some(cfg.create.spec(st.mutations[r].fields))], true) in st'.trace
  {
    var st1 := Down(cfg, 0, 0, Some(st.current[0]), st).st;
    assert st1.mutations[r] == st.mutations[r];
    var st2 := Down(cfg, 0, 1, Some(r), st1).st;
    assert Down(cfg, 0, 1, Some(r), st1).Execute?;
    assert st2.specs == [Some(cfg.create.spec(st.mutations[r].fields))];
    var st3 := BatchCreate(cfg, st2).1;
    assert st3.trace[|st2.trace|] == Inserted(st2.specs, true);
    assert Mutate(cfg, 0, 1, Some(r), st1).1.trace == st3.trace + [Marked(0)];
  }
}
