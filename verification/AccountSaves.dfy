/** Saving a bulk of accounts, end to end: what is validated, inserted, returned, and left in the mutations. */
module AccountSaves {
  import opened Wrappers
  import opened AccountEntity
  import opened AccountCreate
  import opened BulkCreate
  import opened AccountBulk
  import opened BulkEdits
  import opened BulkChecks

  /** The fields of an account as they are inserted: what was set, the defaults, and the edits of its hooks. */
  ghost function AccountFields(d: DefaultValues, hooks: seq<Hook>, m: Fields): Fields {
    Edited(hooks, DefaultsOf(d, m))
  }

  /** The fields with which builder `j` starts. */
  ghost function Given(cfg: Config, st: State, j: nat): Fields
    requires Valid(cfg, st) && j < cfg.N()
  {
    st.mutations[st.current[j]].fields
  }

  /** What a successful Save leaves of one account: its node under its ID, and its mutation. */
  ghost predicate AccountSaved(cfg: Config, d: DefaultValues, st: State, after: State, j: nat)
    requires Valid(cfg, st) && Valid(cfg, after) && j < cfg.N()
  {
    var m := Given(cfg, st, j);
    && after.nodes[j] == Some(Node(NodeOf(AccountFields(d, cfg.hooks[j], m)), IdFor(cfg.db, j)))
    && after.mutations[st.current[j]] == Mutation(Around(cfg.hooks[j], DefaultsOf(d, m)), Some(j), true)
  }

  ghost function AccountSpecs(cfg: Config, d: DefaultValues, st: State): seq<Option<Spec>>
    requires Valid(cfg, st)
  {
    seq(cfg.N(), j requires 0 <= j < cfg.N() => Some(SpecOf(AccountFields(d, cfg.hooks[j], Given(cfg, st, j)))))
  }

  lemma {:induction false} SuccessHasInsert(t: seq<Event>) returns (specs: seq<Option<Spec>>)
    requires TallyOf(t).successes > 0
    ensures Inserted(specs, true) in t
  {
    var init, e := t[..|t| - 1], t[|t| - 1];
    if e.Inserted? && e.ok {
      specs := e.specs;
    } else {
      specs := SuccessHasInsert(init);
      assert t == init + [e];
    }
  }

  /** What is filled in is what the builders should insert. */
  lemma FillsAreWanted(cfg: Config, st: State)
    requires IsNew(cfg, st) && PassesSame(cfg) && DistinctRefs(st.current) && Propagates(cfg) && KeepsSuccess(cfg)
    requires SaveFrom(cfg, st).0 == Done
    ensures FilledFields(SaveFrom(cfg, st).1.trace) == Wanted(cfg, st)
  {
    hide Mutate, Saved, Complete;
    var p, m, wanted, after := Prepared(cfg.create, st), Some(st.current[0]), Wanted(cfg, st), SaveFrom(cfg, st).1;
    SaveInsertsOnceAndCompletely(cfg, st);
    PreparedOnTheWay(cfg, st);
    EveryFillIsWanted(cfg, wanted, 0, 0, m, p);
    FilledInOrder(cfg.create, cfg.N(), wanted, after.trace);
    SuccessfulSaveIsComplete(cfg, st);
    LastIsFilled(cfg, after);
    assert wanted[..cfg.N()] == wanted;
  }

  lemma LastIsFilled(cfg: Config, after: State)
    requires Valid(cfg, after) && cfg.N() > 0 && Saved(cfg, after, cfg.N() - 1)
    ensures |FilledFields(after.trace)| >= cfg.N()
  {
  }

  lemma WantedAccounts(cfg: Config, d: DefaultValues, valid: Validators, st: State, j: nat)
    requires IsNew(cfg, st) && cfg.create == AccountBuilder(d, valid) && j < cfg.N()
    ensures Wanted(cfg, st)[j] == AccountFields(d, cfg.hooks[j], Given(cfg, st, j))
  {
  }

  /** Every account that a successful Save inserts has passed check(), with its defaults and the edits of its hooks. */
  lemma AccountsAreChecked(cfg: Config, d: DefaultValues, valid: Validators, st: State, j: nat)
    requires IsNew(cfg, st) && cfg.create == AccountBuilder(d, valid) && j < cfg.N()
    requires PassesSame(cfg) && DistinctRefs(st.current) && Propagates(cfg) && KeepsSuccess(cfg)
    requires SaveFrom(cfg, st).0 == Done
    ensures Check(valid, AccountFields(d, cfg.hooks[j], Given(cfg, st, j))).None?
  {
    hide Check, Mutate, Edited, DefaultsOf;
    var t := SaveFrom(cfg, st).1.trace;
    DefaultsKeepObjects(cfg.create, st.mutations, st.current, |st.current|);
    OwnMutationsArrive(cfg, st);
    InsertedWasChecked(cfg, 0, 0, Some(st.current[0]), Prepared(cfg.create, st));
    FillsAreWanted(cfg, st);
    FillEvents(cfg.create, t);
    WantedAccounts(cfg, d, valid, st, j);
    var f := Wanted(cfg, st)[j];
    assert f in FilledFields(t);
    assert cfg.create.check(f) == Check(valid, f);
  }

  lemma OwnMutationsArrive(cfg: Config, st: State)
    requires IsNew(cfg, st) && PassesSame(cfg)
    requires At(cfg, 0, 0, Some(st.current[0]), Prepared(cfg.create, st))
    ensures OwnArriveFrom(cfg, 0, 0, Some(st.current[0]), Prepared(cfg.create, st))
  {
    assert cfg.hooks[0][0..] == cfg.hooks[0];
    forall j | 0 <= j < cfg.N() ensures Arriving(cfg.hooks[j], Some(st.current[j])) == Some(st.current[j]) {
      SameArrives(cfg.hooks[j], Some(st.current[j]));
    }
  }

  /**
    End to end for accounts: with hooks that pass on what they got, report failures and keep successes, a
    successful Save leaves every account's node under its ID, and its mutation done, with all edits.
   */
  lemma AccountsAreSaved(cfg: Config, d: DefaultValues, valid: Validators, st: State, j: nat)
    requires IsNew(cfg, st) && cfg.create == AccountBuilder(d, valid) && j < cfg.N()
    requires PassesSame(cfg) && DistinctRefs(st.current) && Propagates(cfg) && KeepsSuccess(cfg)
    requires SaveFrom(cfg, st).0 == Done
    ensures AccountSaved(cfg, d, st, SaveFrom(cfg, st).1, j)
  {
    assert TallyOf([]).successes == 0;
    hide Mutate, Edited, DefaultsOf, NodeOf, Around, TallyOf;
    var p, after := Prepared(cfg.create, st), SaveFrom(cfg, st).1;
    DefaultsKeepObjects(cfg.create, st.mutations, st.current, |st.current|);
    DefaultsOfEach(cfg.create, st.mutations, st.current, |st.current|);
    SaveSucceedsExactly(cfg, st);
    SuccessfulSaveIsComplete(cfg, st);
    FillsAreWanted(cfg, st);
    WantedAccounts(cfg, d, valid, st, j);
    MutationsAreEdited(cfg, 0, 0, p);
    assert cfg.hooks[0][0..] == cfg.hooks[0];
    assert Saved(cfg, after, j);
    forall l | 0 <= l < cfg.N() && l != j ensures st.current[l] != st.current[j] {}
  }

  /** The insert of a successful Save holds every account, in order. */
  lemma AccountsAreInserted(cfg: Config, d: DefaultValues, valid: Validators, st: State)
    requires IsNew(cfg, st) && cfg.create == AccountBuilder(d, valid)
    requires PassesSame(cfg) && DistinctRefs(st.current) && Propagates(cfg) && KeepsSuccess(cfg)
    requires SaveFrom(cfg, st).0 == Done
    ensures Inserted(AccountSpecs(cfg, d, st), true) in SaveFrom(cfg, st).1.trace
  {
    hide Mutate, Edited, DefaultsOf, SpecOf;
    SaveSucceedsExactly(cfg, st);
    var specs := SuccessHasInsert(SaveFrom(cfg, st).1.trace);
    InsertHoldsTheBuilders(cfg, st, specs, true);
    forall j | 0 <= j < cfg.N() ensures specs[j] == AccountSpecs(cfg, d, st)[j] {
      WantedAccounts(cfg, d, valid, st, j);
    }
    assert specs == AccountSpecs(cfg, d, st);
  }

  /**
    And reading the row of an inserted account back gives the node that Save returned, under its ID, when
    the codec reads back its JSON fields.
   */
  lemma SavedAccountsReadBack(
    cfg: Config, d: DefaultValues, valid: Validators, st: State, j: nat, codec: Codec, columns: seq<Column>)
    requires IsNew(cfg, st) && cfg.create == AccountBuilder(d, valid) && j < cfg.N()
    requires PassesSame(cfg) && DistinctRefs(st.current) && Propagates(cfg) && KeepsSuccess(cfg)
    requires SaveFrom(cfg, st).0 == Done
    requires WellTyped(AccountFields(d, cfg.hooks[j], Given(cfg, st, j)))
    requires forall c: Column :: !c.Selected? ==> c in columns
    ensures var node, row := SaveFrom(cfg, st).1.nodes[j],
                             RowOf(codec, AccountSpecs(cfg, d, st)[j].value, IdFor(cfg.db, j));
      && node.Some? && node.value.id == IdFor(cfg.db, j)
      && (Decode(codec, row, columns) == Some(node.value.entity[ID := IntValue(node.value.id)]) <==>
          FieldsReadBack(codec, AccountFields(d, cfg.hooks[j], Given(cfg, st, j))))
  {
    hide Mutate, Edited, DefaultsOf, SpecOf, NodeOf, Decode, RowOf, SaveFrom;
    AccountsAreSaved(cfg, d, valid, st, j);
    CreateReadRoundTrip(codec, AccountFields(d, cfg.hooks[j], Given(cfg, st, j)), IdFor(cfg.db, j), columns);
  }
}
