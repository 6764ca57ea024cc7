/**
  Which bulk inserts are checked: exactly when everything that is inserted has passed check(), for all
  contents of the mutations and all that hooks can do to them, given only which mutation each hook passes on.
 */
module BulkChecks {
  import opened Wrappers
  import opened AccountEntity
  import opened AccountCreate
  import opened BulkCreate
  import opened AccountBulk

  // ----- The fields of all mutations, builder by builder -----

  type Contents = map<Ref, Fields>

  ghost function ContentsOf(st: State): Contents {
    map r | r in st.mutations :: st.mutations[r].fields
  }

  ghost function Get(c: Contents, r: Ref): Fields {
    if r in c then c[r] else map[]
  }

  ghost function EditOne(edit: Fields -> Fields, m: Option<Ref>, c: Contents): Contents {
    if m.Some? && m.value in c then c[m.value := edit(c[m.value])] else c
  }

  /** The contents behind hooks that call through. */
  ghost function Through(hooks: seq<Hook>, m: Option<Ref>, c: Contents): Contents {
    if hooks == [] || hooks[0].Answer? then c
    else Through(hooks[1..], Next(hooks[0], m), EditOne(hooks[0].edit, m, c))
  }

  /** The contents when the hooks of the first `n` builders have run. */
  ghost function Stage(cfg: Config, refs: seq<Ref>, c: Contents, n: nat): Contents
    requires |refs| == cfg.N() && n <= cfg.N()
  {
    if n == 0 then c else Through(cfg.hooks[n - 1], Some(refs[n - 1]), Stage(cfg, refs, c, n - 1))
  }

  /** The mutation that comes out for builder `j`. */
  ghost function Arrived(cfg: Config, refs: seq<Ref>, j: nat): Option<Ref>
    requires |refs| == cfg.N() && j < cfg.N()
  {
    Arriving(cfg.hooks[j], Some(refs[j]))
  }

  /** check() of builder `j` looks at the mutation that the builder holds. */
  ghost predicate Passes(cfg: Config, refs: seq<Ref>, c: Contents, j: nat)
    requires |refs| == cfg.N() && j < cfg.N()
  {
    cfg.create.check(Get(Stage(cfg, refs, c, j + 1), refs[j])).None?
  }

  ghost predicate AllPass(cfg: Config, refs: seq<Ref>, c: Contents, i: nat)
    requires |refs| == cfg.N() && i <= cfg.N()
  {
    forall j :: i <= j < cfg.N() ==> Passes(cfg, refs, c, j)
  }

  /** createSpec of builder `j` looks at the mutation that comes out. */
  ghost function FillOf(cfg: Config, refs: seq<Ref>, c: Contents, j: nat): Fields
    requires |refs| == cfg.N() && j < cfg.N()
  {
    var m := Arrived(cfg, refs, j);
    if m.Some? then Get(Stage(cfg, refs, c, j + 1), m.value) else map[]
  }

  ghost function FillsOf(cfg: Config, refs: seq<Ref>, c: Contents, i: nat): seq<Fields>
    requires |refs| == cfg.N() && i <= cfg.N()
  {
    seq(cfg.N() - i, j requires 0 <= j < cfg.N() - i => FillOf(cfg, refs, c, i + j))
  }

  // ----- The run follows the stages -----

  ghost predicate Follows(cfg: Config, refs: seq<Ref>, c: Contents, i: nat, k: nat, m: Option<Ref>, st: State)
    requires At(cfg, i, k, m, st) && |refs| == cfg.N()
  {
    && (forall j :: i <= j < cfg.N() ==> st.current[j] == refs[j])
    && Arriving(cfg.hooks[i][k..], m) == Arrived(cfg, refs, i)
    && Through(cfg.hooks[i][k..], m, ContentsOf(st)) == Stage(cfg, refs, c, i + 1)
  }

  lemma EditContents(edit: Fields -> Fields, m: Option<Ref>, st: State)
    requires m.Some? ==> m.value in st.mutations
    ensures ContentsOf(Edit(edit, m, st)) == EditOne(edit, m, ContentsOf(st))
  {
  }

  lemma HookFollows(cfg: Config, refs: seq<Ref>, c: Contents, i: nat, k: nat, m: Option<Ref>, st: State)
    requires At(cfg, i, k, m, st) && |refs| == cfg.N() && Follows(cfg, refs, c, i, k, m, st)
    requires k < |cfg.hooks[i]| && cfg.hooks[i][k].Call?
    ensures var d := Down(cfg, i, k, m, st); d.Go? && Follows(cfg, refs, c, d.i, d.k, d.m, d.st)
    ensures FilledFields(Down(cfg, i, k, m, st).st.trace) == FilledFields(st.trace)
  {
    var hs := cfg.hooks[i][k..];
    assert hs[0] == cfg.hooks[i][k] && hs[1..] == cfg.hooks[i][k + 1..];
    EditContents(hs[0].edit, m, Log(st, Before(i, k)));
    assert ContentsOf(Log(st, Before(i, k))) == ContentsOf(st);
    HookFillsNothing(cfg, i, k, m, st);
  }

  lemma FillFollows(cfg: Config, refs: seq<Ref>, c: Contents, i: nat, m: Option<Ref>, st: State)
    requires i < cfg.N() && |refs| == cfg.N()
    requires At(cfg, i, |cfg.hooks[i]|, m, st) && Follows(cfg, refs, c, i, |cfg.hooks[i]|, m, st) && m.Some?
    ensures var d := Down(cfg, i, |cfg.hooks[i]|, m, st);
      && (d.Stop? <==> !Passes(cfg, refs, c, i))
      && (!d.Stop? ==> FilledFields(d.st.trace) == FilledFields(st.trace) + [FillOf(cfg, refs, c, i)])
      && (d.Go? ==> Follows(cfg, refs, c, d.i, d.k, d.m, d.st))
      && (d.Execute? <==> !d.Stop? && i == cfg.N() - 1)
  {
    assert cfg.hooks[i][|cfg.hooks[i]|..] == [];
    assert ContentsOf(st) == Stage(cfg, refs, c, i + 1) && m == Arrived(cfg, refs, i);
    assert st.current[i] in st.current;
    var d := Down(cfg, i, |cfg.hooks[i]|, m, st);
    FillLog(st, Filled(i, st.mutations[m.value].fields));
    if d.Go? {
      assert cfg.hooks[i + 1][0..] == cfg.hooks[i + 1];
      assert ContentsOf(d.st) == ContentsOf(st);
    }
  }

  /**
    The insert is issued exactly when all checks pass, and then the slots have been filled with the
    contents of the mutations that came out of the hooks.
   */
  lemma {:induction false} RunByStages(cfg: Config, refs: seq<Ref>, c: Contents, i: nat, k: nat, m: Option<Ref>, st: State)
    requires At(cfg, i, k, m, st) && |refs| == cfg.N() && Follows(cfg, refs, c, i, k, m, st)
    requires DeliversFrom(cfg, i, k, m)
    ensures var t := Mutate(cfg, i, k, m, st).1.trace;
      && TallyOf(t).inserts == TallyOf(st.trace).inserts + (if AllPass(cfg, refs, c, i) then 1 else 0)
      && (AllPass(cfg, refs, c, i) ==> FilledFields(t) == FilledFields(st.trace) + FillsOf(cfg, refs, c, i))
    decreases cfg.N() - i, |cfg.hooks[i]| - k
  {
    hide Down, Up, BatchCreate, Valid, HooksValid, TallyOf, FilledFields, Follows, Passes, FillOf, DeliversFrom;
    DownTally(cfg, i, k, m, st);
    DownDelivers(cfg, i, k, m, st);
    if k < |cfg.hooks[i]| {
      DeliversCalls(cfg, i, k, m);
      HookFollows(cfg, refs, c, i, k, m, st);
      var d := Down(cfg, i, k, m, st);
      RunByStages(cfg, refs, c, d.i, d.k, d.m, d.st);
      var (inner, after) := Mutate(cfg, d.i, d.k, d.m, d.st);
      UpTally(cfg, i, k, m, inner, after);
      UpFrame(cfg, i, k, m, inner, after);
    } else {
      DeliversCalls(cfg, i, k, m);
      FillFollows(cfg, refs, c, i, m, st);
      FillsNext(cfg, refs, c, i);
      match Down(cfg, i, k, m, st) {
        case Stop(_, _) =>
        case Go(i', k', m', st') =>
          RunByStages(cfg, refs, c, i', k', m', st');
          var (inner, after) := Mutate(cfg, i', k', m', st');
          UpTally(cfg, i, k, m, inner, after);
          UpFrame(cfg, i, k, m, inner, after);
          assert FilledFields(st.trace) + [FillOf(cfg, refs, c, i)] + FillsOf(cfg, refs, c, i + 1) ==
            FilledFields(st.trace) + ([FillOf(cfg, refs, c, i)] + FillsOf(cfg, refs, c, i + 1));
        case Execute(st') =>
          var (inner, after) := BatchCreate(cfg, st');
          BatchTally(cfg, st');
          BatchFills(cfg, st');
          UpTally(cfg, i, k, m, inner, after);
          UpFrame(cfg, i, k, m, inner, after);
      }
    }
  }

  lemma DeliversCalls(cfg: Config, i: nat, k: nat, m: Option<Ref>)
    requires i < cfg.N() && k <= |cfg.hooks[i]| && DeliversFrom(cfg, i, k, m)
    ensures if k < |cfg.hooks[i]| then cfg.hooks[i][k].Call? else m.Some?
  {
  }

  lemma BatchFills(cfg: Config, st: State)
    ensures FilledFields(BatchCreate(cfg, st).1.trace) == FilledFields(st.trace)
  {
    FillLog(st, Inserted(st.specs, cfg.db.Inserts?));
  }

  lemma FillsNext(cfg: Config, refs: seq<Ref>, c: Contents, i: nat)
    requires |refs| == cfg.N() && i < cfg.N()
    ensures FillsOf(cfg, refs, c, i) == [FillOf(cfg, refs, c, i)] + FillsOf(cfg, refs, c, i + 1)
    ensures AllPass(cfg, refs, c, i) <==> Passes(cfg, refs, c, i) && AllPass(cfg, refs, c, i + 1)
    ensures AllPass(cfg, refs, c, cfg.N()) && FillsOf(cfg, refs, c, cfg.N()) == []
  {
    hide Passes, FillOf;
  }

  // ----- Save by stages -----

  ghost function Start(cfg: Config, st: State): Contents {
    ContentsOf(Prepared(cfg.create, st))
  }

  /** Save, for hooks that all deliver, in terms of the stages. */
  lemma {:induction false} SaveByStages(cfg: Config, st: State)
    requires IsNew(cfg, st) && AllDeliver(cfg, 0)
    ensures var t := SaveFrom(cfg, st).1.trace;
      && (TallyOf(t).inserts > 0 <==> AllPass(cfg, st.current, Start(cfg, st), 0))
      && (TallyOf(t).inserts > 0 ==> FilledFields(t) == FillsOf(cfg, st.current, Start(cfg, st), 0))
  {
    DefaultsKeepObjects(cfg.create, st.mutations, st.current, |st.current|);
    var p, m := Prepared(cfg.create, st), Some(st.current[0]);
    assert cfg.hooks[0][0..] == cfg.hooks[0];
    assert Stage(cfg, st.current, Start(cfg, st), 0) == Start(cfg, st);
    RunByStages(cfg, st.current, Start(cfg, st), 0, 0, m, p);
    assert [] + FillsOf(cfg, st.current, Start(cfg, st), 0) == FillsOf(cfg, st.current, Start(cfg, st), 0);
  }

  /** If there is an insert, everything in it has passed check(). */
  ghost predicate InsertChecked(cfg: Config, st: State)
    requires IsNew(cfg, st)
  {
    var t := SaveFrom(cfg, st).1.trace;
    TallyOf(t).inserts > 0 ==> FillsChecked(cfg.create, t)
  }

  lemma {:induction false} FillEvents(create: Builder, t: seq<Event>)
    ensures FillsChecked(create, t) <==> forall f :: f in FilledFields(t) ==> create.check(f).None?
  {
    if t != [] {
      var init, e := t[..|t| - 1], t[|t| - 1];
      FillEvents(create, init);
      assert t == init + [e];
      assert forall x :: x in t <==> x in init || x == e;
    }
  }

  // ----- Versions -----

  /** How often hooks that call through edit a mutation on the way in. */
  ghost function Touches(hooks: seq<Hook>, m: Option<Ref>, r: Ref): nat {
    if hooks == [] || hooks[0].Answer? then 0
    else (if m == Some(r) then 1 else 0) + Touches(hooks[1..], Next(hooks[0], m), r)
  }

  /** The number of edits that a mutation has had when the hooks of the first `n` builders have run. */
  ghost function Version(cfg: Config, refs: seq<Ref>, n: nat, r: Ref): nat
    requires |refs| == cfg.N() && n <= cfg.N()
  {
    if n == 0 then 0 else Version(cfg, refs, n - 1, r) + Touches(cfg.hooks[n - 1], Some(refs[n - 1]), r)
  }

  /** Some builder holds the mutation that comes out for builder `i`, and checks it in the same version. */
  ghost predicate Vouched(cfg: Config, refs: seq<Ref>, i: nat)
    requires |refs| == cfg.N() && i < cfg.N()
  {
    Arrived(cfg, refs, i).Some? && exists j :: 0 <= j < cfg.N() && VouchedBy(cfg, refs, i, j)
  }

  ghost predicate VouchedBy(cfg: Config, refs: seq<Ref>, i: nat, j: nat)
    requires |refs| == cfg.N() && i < cfg.N() && j < cfg.N()
  {
    && Arrived(cfg, refs, i) == Some(refs[j])
    && Version(cfg, refs, j + 1, refs[j]) == Version(cfg, refs, i + 1, refs[j])
  }

  /** What the hooks pass on decides: either there is never an insert, or every builder is vouched for. */
  ghost predicate AlwaysVouched(cfg: Config, refs: seq<Ref>)
    requires |refs| == cfg.N()
  {
    AllDeliver(cfg, 0) ==> forall i :: 0 <= i < cfg.N() ==> Vouched(cfg, refs, i)
  }

  lemma {:induction false} Untouched(hooks: seq<Hook>, m: Option<Ref>, c: Contents, r: Ref)
    requires Touches(hooks, m, r) == 0
    ensures Get(Through(hooks, m, c), r) == Get(c, r)
  {
    if hooks != [] && hooks[0].Call? {
      Untouched(hooks[1..], Next(hooks[0], m), EditOne(hooks[0].edit, m, c), r);
    }
  }

  lemma {:induction false} SameVersion(cfg: Config, refs: seq<Ref>, c: Contents, i: nat, j: nat, r: Ref)
    requires |refs| == cfg.N() && i <= j <= cfg.N()
    ensures Version(cfg, refs, i, r) <= Version(cfg, refs, j, r)
    ensures Version(cfg, refs, i, r) == Version(cfg, refs, j, r) ==>
      Get(Stage(cfg, refs, c, i), r) == Get(Stage(cfg, refs, c, j), r)
  {
    if i < j {
      SameVersion(cfg, refs, c, i, j - 1, r);
      if Touches(cfg.hooks[j - 1], Some(refs[j - 1]), r) == 0 {
        Untouched(cfg.hooks[j - 1], Some(refs[j - 1]), Stage(cfg, refs, c, j - 1), r);
      }
    }
  }

  lemma VouchedIsChecked(cfg: Config, refs: seq<Ref>, c: Contents, i: nat)
    requires |refs| == cfg.N() && i < cfg.N() && Vouched(cfg, refs, i) && AllPass(cfg, refs, c, 0)
    ensures cfg.create.check(FillOf(cfg, refs, c, i)).None?
  {
    hide Stage, Version, Arrived;
    var j :| 0 <= j < cfg.N() && VouchedBy(cfg, refs, i, j);
    assert Passes(cfg, refs, c, j);
    if i <= j { SameVersion(cfg, refs, c, i + 1, j + 1, refs[j]); } else { SameVersion(cfg, refs, c, j + 1, i + 1, refs[j]); }
  }

  lemma VouchedInsertIsChecked(cfg: Config, st: State)
    requires IsNew(cfg, st) && AlwaysVouched(cfg, st.current)
    ensures InsertChecked(cfg, st)
  {
    var t, c := SaveFrom(cfg, st).1.trace, Start(cfg, st);
    SaveInsertsOnceAndCompletely(cfg, st);
    if TallyOf(t).inserts > 0 {
      SaveByStages(cfg, st);
      forall f | f in FilledFields(t) ensures cfg.create.check(f).None? {
        var i :| 0 <= i < cfg.N() && FillsOf(cfg, st.current, c, 0)[i] == f;
        VouchedIsChecked(cfg, st.current, c, i);
      }
      FillEvents(cfg.create, t);
    }
  }

  // ----- An unchecked insert -----

  /** The same hooks, as far as it can be seen which mutation they pass on. */
  ghost predicate SamePasses(a: seq<Hook>, b: seq<Hook>) {
    && |a| == |b|
    && forall k :: 0 <= k < |a| ==> (a[k].Call? <==> b[k].Call?) && (a[k].Call? ==> a[k].pass == b[k].pass)
  }

  ghost predicate SameChain(a: Config, b: Config) {
    && a.objects == b.objects && a.N() == b.N()
    && forall i :: 0 <= i < a.N() ==> SamePasses(a.hooks[i], b.hooks[i])
  }

  lemma {:induction false} SameOutcome(a: seq<Hook>, b: seq<Hook>, m: Option<Ref>, r: Ref)
    requires SamePasses(a, b)
    ensures Arriving(a, m) == Arriving(b, m) && Touches(a, m, r) == Touches(b, m, r)
    ensures Delivers(a, m.Some?) == Delivers(b, m.Some?)
  {
    if a != [] {
      assert a[0].Call? <==> b[0].Call?;
      SameOutcome(a[1..], b[1..], if a[0].Call? then Next(a[0], m) else m, r);
    }
  }

  lemma {:induction false} SameVersions(a: Config, b: Config, refs: seq<Ref>, n: nat, r: Ref)
    requires SameChain(a, b) && |refs| == a.N() && n <= a.N()
    ensures Version(a, refs, n, r) == Version(b, refs, n, r)
  {
    if n > 0 {
      SameVersions(a, b, refs, n - 1, r);
      SameOutcome(a.hooks[n - 1], b.hooks[n - 1], Some(refs[n - 1]), r);
    }
  }

  lemma {:induction false} SameDelivery(a: Config, b: Config, i: nat)
    requires SameChain(a, b)
    ensures AllDeliver(a, i) == AllDeliver(b, i)
    decreases a.N() - i
  {
    if i < a.N() {
      SameOutcome(a.hooks[i], b.hooks[i], Some(0), 0);
      SameDelivery(a, b, i + 1);
    }
  }

  lemma SameVouching(a: Config, b: Config, refs: seq<Ref>)
    requires SameChain(a, b) && |refs| == a.N()
    ensures AlwaysVouched(a, refs) <==> AlwaysVouched(b, refs)
  {
    hide Version, Arriving;
    SameDelivery(a, b, 0);
    forall i | 0 <= i < a.N() ensures Vouched(a, refs, i) <==> Vouched(b, refs, i) {
      SameOutcome(a.hooks[i], b.hooks[i], Some(refs[i]), 0);
      forall j | 0 <= j < a.N() ensures VouchedBy(a, refs, i, j) <==> VouchedBy(b, refs, i, j) {
        SameVersions(a, b, refs, j + 1, refs[j]);
        SameVersions(a, b, refs, i + 1, refs[j]);
      }
    }
  }

  /** Fields that tell how often they have been edited. */
  ghost function VersionFields(n: nat): Fields {
    map[Priority := IntValue(n)]
  }

  ghost function Bump(): Fields -> Fields {
    (f: Fields) => if Priority in f && f[Priority].IntValue? then map[Priority := IntValue(f[Priority].n + 1)] else f
  }

  ghost function Bumping(h: Hook): Hook {
    if h.Answer? then h else Call(Bump(), h.pass, Bump(), h.post)
  }

  ghost function AllBumping(hooks: seq<Hook>): seq<Hook> {
    seq(|hooks|, k requires 0 <= k < |hooks| => Bumping(hooks[k]))
  }

  /** Mutation `r` in version `n`, and nothing in the others. */
  ghost predicate InVersion(c: Contents, r: Ref, n: nat) {
    r in c && forall x :: Get(c, x) == if x == r then VersionFields(n) else map[]
  }

  ghost predicate AllBump(hooks: seq<Hook>) {
    forall h :: h in hooks && h.Call? ==> h.edit == Bump()
  }

  lemma {:induction false} VersionsCount(hooks: seq<Hook>, m: Option<Ref>, c: Contents, r: Ref, n: nat)
    requires AllBump(hooks) && InVersion(c, r, n)
    ensures InVersion(Through(hooks, m, c), r, n + Touches(hooks, m, r))
  {
    if hooks != [] && hooks[0].Call? {
      var c' := EditOne(hooks[0].edit, m, c);
      var n' := if m == Some(r) then n + 1 else n;
      assert hooks[0] in hooks && forall h :: h in hooks[1..] ==> h in hooks;
      VersionEdited(m, c, r, n);
      VersionsCount(hooks[1..], Next(hooks[0], m), c', r, n');
    }
  }

  lemma VersionEdited(m: Option<Ref>, c: Contents, r: Ref, n: nat)
    requires InVersion(c, r, n)
    ensures InVersion(EditOne(Bump(), m, c), r, if m == Some(r) then n + 1 else n)
  {
    var c' := EditOne(Bump(), m, c);
    forall x ensures Get(c', x) == if x == r then VersionFields(if m == Some(r) then n + 1 else n) else map[] {
      assert Get(c, x) == if x == r then VersionFields(n) else map[];
    }
  }

  lemma {:induction false} StageVersions(cfg: Config, refs: seq<Ref>, c: Contents, n: nat, r: Ref)
    requires |refs| == cfg.N() && n <= cfg.N() && InVersion(c, r, 0)
    requires forall i :: 0 <= i < cfg.N() ==> AllBump(cfg.hooks[i])
    ensures InVersion(Stage(cfg, refs, c, n), r, Version(cfg, refs, n, r))
  {
    if n > 0 {
      StageVersions(cfg, refs, c, n - 1, r);
      VersionsCount(cfg.hooks[n - 1], Some(refs[n - 1]), Stage(cfg, refs, c, n - 1), r, Version(cfg, refs, n - 1, r));
    }
  }

  /** A check that rejects one version only. */
  ghost function Rejecting(v: nat, error: ValidationError): Builder {
    Builder(f => f, f => if f == VersionFields(v) then Some(error) else None, f => Spec([], None), f => map[])
  }

  ghost function BumpingChain(cfg: Config, create: Builder, db: Insert): Config {
    Config(
      seq(cfg.N(), i requires 0 <= i < cfg.N() => AllBumping(cfg.hooks[i])), create, db, cfg.objects, None)
  }

  lemma BumpingIsSame(cfg: Config, create: Builder, db: Insert)
    requires HooksValid(cfg)
    ensures var c := BumpingChain(cfg, create, db);
      SameChain(cfg, c) && HooksValid(c) && forall i :: 0 <= i < c.N() ==> AllBump(c.hooks[i])
  {
    var c := BumpingChain(cfg, create, db);
    forall i | 0 <= i < cfg.N() ensures SamePasses(cfg.hooks[i], c.hooks[i]) && AllBump(c.hooks[i]) {
      assert c.hooks[i] == AllBumping(cfg.hooks[i]);
    }
    forall i, k | 0 <= i < c.N() && 0 <= k < |c.hooks[i]|
      ensures var h := c.hooks[i][k]; h.Call? && h.pass.Other? ==> h.pass.ref in c.objects
    {
      assert SamePasses(cfg.hooks[i], c.hooks[i]);
      assert cfg.hooks[i][k].Call? && cfg.hooks[i][k].pass.Other? ==> cfg.hooks[i][k].pass.ref in cfg.objects;
    }
  }

  ghost function VersionedState(cfg: Config, refs: seq<Ref>, r: Ref): State {
    State(
      map x | x in cfg.objects :: Mutation(if x == r then VersionFields(0) else map[], None, false),
      refs, seq(|refs|, i => None), seq(|refs|, i => None), seq(|refs|, i => None), [])
  }

  /** defaults() has nothing to set. */
  ghost predicate SetsNothing(create: Builder) {
    forall f :: create.defaults(f) == f
  }

  lemma {:induction false} NoDefaults(create: Builder, mutations: map<Ref, Mutation>, current: seq<Ref>, n: nat)
    requires n <= |current| && SetsNothing(create)
    ensures WithDefaults(create, mutations, current, n) == mutations
  {
    if n > 0 {
      NoDefaults(create, mutations, current, n - 1);
      var r := current[n - 1];
      if r in mutations { assert mutations[r].(fields := mutations[r].fields) == mutations[r]; }
    }
  }

  lemma {:induction false} ArrivingObject(cfg: Config, hooks: seq<Hook>, m: Option<Ref>)
    requires m.Some? ==> m.value in cfg.objects
    requires forall h :: h in hooks && h.Call? && h.pass.Other? ==> h.pass.ref in cfg.objects
    ensures Arriving(hooks, m).Some? ==> Arriving(hooks, m).value in cfg.objects
  {
    if hooks != [] {
      assert hooks[0] in hooks && forall h :: h in hooks[1..] ==> h in hooks;
      ArrivingObject(cfg, hooks[1..], if hooks[0].Call? then Next(hooks[0], m) else m);
    }
  }

  lemma {:induction false} DeliversArriving(hooks: seq<Hook>, m: Option<Ref>)
    requires Delivers(hooks, m.Some?)
    ensures Arriving(hooks, m).Some?
  {
    if hooks != [] { DeliversArriving(hooks[1..], Next(hooks[0], m)); }
  }

  lemma {:induction false} EachDelivers(cfg: Config, i: nat, j: nat)
    requires AllDeliver(cfg, i) && i <= j < cfg.N()
    ensures Delivers(cfg.hooks[j], true)
    decreases j - i
  {
    if i < j { EachDelivers(cfg, i + 1, j); }
  }

  /** For the contents that mark versions, all checks pass and the fill of the unvouched builder is bad. */
  lemma VersionedRun(c: Config, refs: seq<Ref>, start: Contents, i: nat, r: Ref)
    requires |refs| == c.N() && i < c.N() && InVersion(start, r, 0)
    requires forall j :: 0 <= j < c.N() ==> AllBump(c.hooks[j])
    requires Arrived(c, refs, i) == Some(r) && !Vouched(c, refs, i)
    requires c.create == Rejecting(Version(c, refs, i + 1, r), MissingField(Name))
    ensures AllPass(c, refs, start, 0) && c.create.check(FillOf(c, refs, start, i)).Some?
  {
    hide Stage, Version, Arrived, Bump;
    var v := Version(c, refs, i + 1, r);
    forall j | 0 <= j < c.N() ensures Passes(c, refs, start, j) {
      StageVersions(c, refs, start, j + 1, r);
      assert !VouchedBy(c, refs, i, j);
      VersionsDiffer(Version(c, refs, j + 1, r), v);
    }
    StageVersions(c, refs, start, i + 1, r);
  }

  lemma VersionsDiffer(a: nat, b: nat)
    ensures VersionFields(a) == VersionFields(b) <==> a == b
    ensures VersionFields(a) != map[]
  {
    assert Priority in VersionFields(a) && VersionFields(a)[Priority].n == a && VersionFields(b)[Priority].n == b;
  }

  /** Unless every builder is vouched for, some contents, edits and check get something unchecked inserted. */
  lemma UncheckedInsert(cfg: Config, refs: seq<Ref>) returns (c: Config, st: State)
    requires HooksValid(cfg) && cfg.N() > 0 && |refs| == cfg.N() && (forall r :: r in refs ==> r in cfg.objects)
    requires !AlwaysVouched(cfg, refs)
    ensures SameChain(cfg, c) && IsNew(c, st) && st.current == refs && !InsertChecked(c, st)
  {
    hide Version, Arriving, Delivers, Vouched, SamePasses;
    var i :| 0 <= i < cfg.N() && !Vouched(cfg, refs, i);
    EachDelivers(cfg, 0, i);
    DeliversArriving(cfg.hooks[i], Some(refs[i]));
    var r := Arrived(cfg, refs, i).value;
    ArrivingIsObject(cfg, refs, i);
    var v := Version(cfg, refs, i + 1, r);
    var create := Rejecting(v, MissingField(Name));
    c, st := BumpingChain(cfg, create, Inserts([])), VersionedState(cfg, refs, r);
    BumpingIsSame(cfg, create, Inserts([]));
    VersionedIsNew(cfg, refs, r, create, Inserts([]));
    SameAtBuilder(cfg, c, refs, i, r);
    SameDelivery(cfg, c, 0);
    VersionedRun(c, refs, Start(c, st), i, r);
    SaveByStages(c, st);
    var t := SaveFrom(c, st).1.trace;
    assert FillsOf(c, refs, Start(c, st), 0)[i] == FillOf(c, refs, Start(c, st), i);
    FillEvents(c.create, t);
  }

  lemma ArrivingIsObject(cfg: Config, refs: seq<Ref>, i: nat)
    requires HooksValid(cfg) && |refs| == cfg.N() && i < cfg.N() && (forall r :: r in refs ==> r in cfg.objects)
    ensures Arrived(cfg, refs, i).Some? ==> Arrived(cfg, refs, i).value in cfg.objects
  {
    assert refs[i] in refs;
    forall h | h in cfg.hooks[i] && h.Call? && h.pass.Other? ensures h.pass.ref in cfg.objects {
      var k :| 0 <= k < |cfg.hooks[i]| && cfg.hooks[i][k] == h;
    }
    ArrivingObject(cfg, cfg.hooks[i], Some(refs[i]));
  }

  lemma SameAtBuilder(a: Config, b: Config, refs: seq<Ref>, i: nat, r: Ref)
    requires SameChain(a, b) && |refs| == a.N() && i < a.N()
    ensures Arrived(a, refs, i) == Arrived(b, refs, i) && Version(a, refs, i + 1, r) == Version(b, refs, i + 1, r)
    ensures Vouched(a, refs, i) <==> Vouched(b, refs, i)
  {
    hide Version, Arriving;
    SameOutcome(a.hooks[i], b.hooks[i], Some(refs[i]), r);
    SameVersions(a, b, refs, i + 1, r);
    forall j | 0 <= j < a.N() ensures VouchedBy(a, refs, i, j) <==> VouchedBy(b, refs, i, j) {
      SameVersions(a, b, refs, j + 1, refs[j]);
      SameVersions(a, b, refs, i + 1, refs[j]);
    }
  }

  lemma VersionedIsNew(cfg: Config, refs: seq<Ref>, r: Ref, create: Builder, db: Insert)
    requires HooksValid(cfg) && cfg.N() > 0 && |refs| == cfg.N() && (forall x :: x in refs ==> x in cfg.objects)
    requires r in cfg.objects && SetsNothing(create)
    ensures var c, st := BumpingChain(cfg, create, db), VersionedState(cfg, refs, r);
      IsNew(c, st) && st.current == refs && InVersion(Start(c, st), r, 0)
  {
    var c, st := BumpingChain(cfg, create, db), VersionedState(cfg, refs, r);
    BumpingIsSame(cfg, create, db);
    NoDefaults(c.create, st.mutations, st.current, |st.current|);
    assert Start(c, st) == ContentsOf(st);
  }

  /**
    Exactly when every insert is checked, whatever the mutations hold and the hooks do to them: the
    chain never gets to the insert, or for every builder the mutation that comes out of its hooks is
    held by some builder that checks it in the same version.
   */
  lemma InsertIsCheckedExactly(cfg: Config, refs: seq<Ref>)
    requires HooksValid(cfg) && cfg.N() > 0 && |refs| == cfg.N() && (forall r :: r in refs ==> r in cfg.objects)
    ensures (forall c: Config, st: State :: SameChain(cfg, c) && IsNew(c, st) && st.current == refs ==> InsertChecked(c, st))
      <==> AlwaysVouched(cfg, refs)
  {
    hide InsertChecked, AlwaysVouched, SamePasses;
    if AlwaysVouched(cfg, refs) {
      forall c: Config, st: State | SameChain(cfg, c) && IsNew(c, st) && st.current == refs ensures InsertChecked(c, st) {
        SameVouching(cfg, c, refs);
        VouchedInsertIsChecked(c, st);
      }
    } else {
      var c, st := UncheckedInsert(cfg, refs);
    }
  }

  /** A builder that gets its own mutation is vouched for by itself. */
  lemma OwnIsVouched(cfg: Config, refs: seq<Ref>, i: nat)
    requires |refs| == cfg.N() && i < cfg.N() && Arrived(cfg, refs, i) == Some(refs[i])
    ensures Vouched(cfg, refs, i)
  {
    assert VouchedBy(cfg, refs, i, i);
  }

  /** Getting another mutation is harmless when its own builder checks it later, and nothing edits it before. */
  lemma LaterBuilderVouches(cfg: Config, refs: seq<Ref>, h: Hook)
    requires cfg.hooks == [[h], []] && |refs| == 2 && refs[0] != refs[1]
    requires h.Call? && h.pass == Other(refs[1])
    ensures Arrived(cfg, refs, 0) != Some(refs[0]) && AlwaysVouched(cfg, refs)
  {
    assert cfg.hooks[0] == [h] && cfg.hooks[1] == [] && [h][1..] == [];
    assert Arriving([h], Some(refs[0])) == Arriving([], Some(refs[1]));
    assert Arrived(cfg, refs, 0) == Some(refs[1]) == Arrived(cfg, refs, 1);
    assert Touches(cfg.hooks[1], Some(refs[1]), refs[1]) == 0;
    assert Version(cfg, refs, 2, refs[1]) == Version(cfg, refs, 1, refs[1]);
    assert VouchedBy(cfg, refs, 0, 1);
    OwnIsVouched(cfg, refs, 1);
  }
}
