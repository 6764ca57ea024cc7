/** The create builder of Account: defaults, check, createSpec, and the row that createSpec describes. */
module AccountCreate {
  import opened Wrappers
  import opened AccountEntity

  /** The fields that a mutation has set. */
  type Fields = map<Column, Value>

  // ----- defaults -----

  /** The fields with a default, in the order in which defaults() fills them. */
  const DEFAULTED: seq<Column> := [
    CreatedAt, UpdatedAt, Credentials, Extra, Concurrency, Priority, RateMultiplier, Status, AutoPauseOnExpired,
    Schedulable]

  /** The defaults that are functions and nil when the runtime package is not imported. */
  predicate IsGuarded(c: Column) {
    c in {CreatedAt, UpdatedAt, Credentials, Extra}
  }

  /** The default values; a nil default function has no entry. */
  type DefaultValues = d: map<Column, Value> |
    && Concurrency in d && Priority in d && RateMultiplier in d && Status in d && AutoPauseOnExpired in d
    && Schedulable in d
    witness map[Concurrency := IntValue(0), Priority := IntValue(0), RateMultiplier := FloatValue(0.0),
                Status := StringValue(""), AutoPauseOnExpired := BoolValue(false), Schedulable := BoolValue(false)]

  /** The first column that is not set and has no default value. */
  function StopAt(d: map<Column, Value>, m: Fields, columns: seq<Column>): (k: nat)
    ensures k <= |columns|
    ensures forall j :: 0 <= j < k ==> columns[j] in m || columns[j] in d
    ensures k < |columns| ==> columns[k] !in m && columns[k] !in d
  {
    if columns == [] || (columns[0] !in m && columns[0] !in d) then 0 else 1 + StopAt(d, m, columns[1..])
  }

  function FillIn(d: map<Column, Value>, m: Fields, columns: seq<Column>): Fields {
    (map c | c in d && c in columns :: d[c]) + m
  }

  /** The fields after defaults(). */
  function DefaultsOf(d: DefaultValues, m: Fields): Fields {
    FillIn(d, m, DEFAULTED[..StopAt(d, m, DEFAULTED)])
  }

  /** defaults(): stops with an error at the first nil default it needs, and keeps what it has set. */
  method Defaults(d: DefaultValues, m: Fields) returns (m': Fields, ok: bool)
    ensures m' == DefaultsOf(d, m)
    ensures ok <==> Ready(d, m, CreatedAt) && Ready(d, m, UpdatedAt) && Ready(d, m, Credentials) && Ready(d, m, Extra)
  {
    m', ok := FillFromFront(d, m, DEFAULTED);
    StopsAt(d, m);
  }

  lemma FillInNothing(d: map<Column, Value>, m: Fields)
    ensures FillIn(d, m, []) == m
  {
  }

  lemma FillInNext(d: map<Column, Value>, m: Fields, columns: seq<Column>, i: nat)
    requires i < |columns|
    ensures var c, before := columns[i], FillIn(d, m, columns[..i]);
      && (c in before <==> c in m || (c in d && c in columns[..i]))
      && FillIn(d, m, columns[..i + 1]) == if c in before || c !in d then before else before[c := d[c]]
  {
    assert columns[..i + 1] == columns[..i] + [columns[i]];
  }

  /**
    What defaults() does: set fields stay, every other field with a default gets it, up to the first
    nil default that is needed, which only a default function can be.
   */
  lemma {:induction false} DefaultsSetExactly(d: DefaultValues, m: Fields, c: Column)
    ensures var stop, after := StopAt(d, m, DEFAULTED), DefaultsOf(d, m);
      && (c in after <==> c in m || (c in d && c in DEFAULTED[..stop]))
      && (c in m ==> after[c] == m[c])
      && (c in after && c !in m ==> after[c] == d[c])
      && (stop < |DEFAULTED| ==> IsGuarded(DEFAULTED[stop]))
  {
    hide FillIn;
    var stop := StopAt(d, m, DEFAULTED);
    FillInExactly(d, m, DEFAULTED[..stop], c);
    if stop < |DEFAULTED| { assert DEFAULTED[stop] in DEFAULTED; }
  }

  /** A field that defaults() can leave set, given all that is set before. */
  ghost predicate Ready(d: DefaultValues, m: Fields, c: Column) {
    c in m || c in d
  }

  lemma StopsAt(d: DefaultValues, m: Fields)
    ensures StopAt(d, m, DEFAULTED) ==
      if !Ready(d, m, CreatedAt) then 0 else if !Ready(d, m, UpdatedAt) then 1
      else if !Ready(d, m, Credentials) then 2 else if !Ready(d, m, Extra) then 3 else 10
  {
    var k := StopAt(d, m, DEFAULTED);
    assert DEFAULTED[0] == CreatedAt && DEFAULTED[1] == UpdatedAt && DEFAULTED[2] == Credentials && DEFAULTED[3] == Extra;
    if k < 10 { assert DEFAULTED[k] in DEFAULTED && IsGuarded(DEFAULTED[k]); }
  }

  /** defaults() gets to a field: four have a default function, each behind the ones before it, and six a value. */
  ghost predicate Reaches(d: DefaultValues, m: Fields, c: Column) {
    match c
    case CreatedAt => true
    case UpdatedAt => Ready(d, m, CreatedAt)
    case Credentials => Ready(d, m, CreatedAt) && Ready(d, m, UpdatedAt)
    case Extra => Ready(d, m, CreatedAt) && Ready(d, m, UpdatedAt) && Ready(d, m, Credentials)
    case Concurrency | Priority | RateMultiplier | Status | AutoPauseOnExpired | Schedulable =>
      Ready(d, m, CreatedAt) && Ready(d, m, UpdatedAt) && Ready(d, m, Credentials) && Ready(d, m, Extra)
    case _ => false
  }

  /** defaults() column by column. */
  lemma DefaultsByColumn(d: DefaultValues, m: Fields, c: Column)
    ensures var after := DefaultsOf(d, m);
      && (c in after <==> c in m || (c in d && Reaches(d, m, c)))
      && (c in after ==> after[c] == if c in m then m[c] else d[c])
  {
    hide DefaultsOf, StopAt;
    DefaultsSetExactly(d, m, c);
    StopsAt(d, m);
    assert DEFAULTED[..0] == [] && DEFAULTED[..1] == [CreatedAt] && DEFAULTED[..2] == [CreatedAt, UpdatedAt];
    assert DEFAULTED[..3] == [CreatedAt, UpdatedAt, Credentials] && DEFAULTED[..10] == DEFAULTED;
    InDefaulted(c);
  }

  lemma InDefaulted(c: Column)
    ensures c in DEFAULTED <==> c in {CreatedAt, UpdatedAt, Credentials, Extra, Concurrency, Priority, RateMultiplier,
                                      Status, AutoPauseOnExpired, Schedulable}
  {
    forall k | 0 <= k < 10
      ensures DEFAULTED[k] in {CreatedAt, UpdatedAt, Credentials, Extra, Concurrency, Priority, RateMultiplier, Status,
                               AutoPauseOnExpired, Schedulable}
    {
      assert k in {0, 1, 2, 3, 4, 5, 6, 7, 8, 9};
    }
    if c == Concurrency { assert DEFAULTED[4] == c; }
    if c == Priority { assert DEFAULTED[5] == c; }
    if c == RateMultiplier { assert DEFAULTED[6] == c; }
    if c == Status { assert DEFAULTED[7] == c; }
    if c == AutoPauseOnExpired { assert DEFAULTED[8] == c; }
    if c == Schedulable { assert DEFAULTED[9] == c; }
  }

  lemma FillInExactly(d: map<Column, Value>, m: Fields, columns: seq<Column>, c: Column)
    ensures var after := FillIn(d, m, columns);
      && (c in after <==> c in m || (c in d && c in columns))
      && (c in m ==> after[c] == m[c])
      && (c in after && c !in m ==> after[c] == d[c])
  {
  }

  method FillFromFront(d: map<Column, Value>, m: Fields, columns: seq<Column>) returns (m': Fields, ok: bool)
    ensures m' == FillIn(d, m, columns[..StopAt(d, m, columns)])
    ensures ok <==> StopAt(d, m, columns) == |columns|
  {
    hide FillIn;
    m', ok := m, true;
    FillInNothing(d, m);
    assert columns[..|columns|] == columns;
    ghost var stop := StopAt(d, m, columns);
    for i := 0 to |columns|
      invariant i <= stop
      invariant m' == FillIn(d, m, columns[..i])
    {
      var c := columns[i];
      FillInNext(d, m, columns, i);
      if c !in m' {
        if c !in d { return m', false; }
        m' := m'[c := d[c]];
      }
    }
  }

  // ----- check -----

  datatype Rule = Rule(column: Column, required: bool, validated: bool)

  /** What check() looks at, in its order. */
  const RULES: seq<Rule> := [
    Rule(CreatedAt, true, false), Rule(UpdatedAt, true, false), Rule(Name, true, true), Rule(Platform, true, true),
    Rule(Type, true, true), Rule(Credentials, true, false), Rule(Extra, true, false), Rule(Concurrency, true, false),
    Rule(Priority, true, false), Rule(RateMultiplier, true, false), Rule(Status, true, true),
    Rule(AutoPauseOnExpired, true, false), Rule(Schedulable, true, false), Rule(SessionWindowStatus, false, true)]

  datatype ValidationError = MissingField(column: Column) | InvalidField(column: Column)

  /** The validators of the schema, for the columns that have one. */
  type Validators = (Column, Value) -> bool

  function Violation(valid: Validators, m: Fields, r: Rule): Option<ValidationError> {
    if r.required && r.column !in m then Some(MissingField(r.column))
    else if r.validated && r.column in m && !valid(r.column, m[r.column]) then Some(InvalidField(r.column))
    else None
  }

  /** The first violation. */
  function CheckRules(valid: Validators, m: Fields, rules: seq<Rule>): Option<ValidationError> {
    if rules == [] then None
    else if Violation(valid, m, rules[0]).Some? then Violation(valid, m, rules[0])
    else CheckRules(valid, m, rules[1..])
  }

  /** check() */
  function Check(valid: Validators, m: Fields): Option<ValidationError> {
    CheckRules(valid, m, RULES)
  }

  lemma {:induction false} CheckRulesExactly(valid: Validators, m: Fields, rules: seq<Rule>)
    ensures CheckRules(valid, m, rules).None? <==> forall r :: r in rules ==> Violation(valid, m, r).None?
  {
    if rules != [] {
      CheckRulesExactly(valid, m, rules[1..]);
      assert forall r :: r in rules <==> r == rules[0] || r in rules[1..];
    }
  }

  /** A mutation passes when every required field is set and every set field with a validator is valid. */
  lemma CheckExactly(valid: Validators, m: Fields)
    ensures Check(valid, m).None? <==>
      forall r :: r in RULES ==>
        && (r.required ==> r.column in m)
        && (r.validated && r.column in m ==> valid(r.column, m[r.column]))
  {
    CheckRulesExactly(valid, m, RULES);
  }

  /** The error of check() is the violation of the first rule, in the order of the source, that is violated. */
  lemma {:induction false} CheckReportsFirst(valid: Validators, m: Fields, rules: seq<Rule>) returns (k: nat)
    requires CheckRules(valid, m, rules).Some?
    ensures k < |rules| && CheckRules(valid, m, rules) == Violation(valid, m, rules[k])
    ensures forall j :: 0 <= j < k ==> Violation(valid, m, rules[j]).None?
  {
    if Violation(valid, m, rules[0]).Some? {
      k := 0;
    } else {
      k := CheckReportsFirst(valid, m, rules[1..]);
      k := k + 1;
    }
  }

  lemma DefaultedAreRequired(c: Column)
    requires c in DEFAULTED
    ensures Rule(c, true, c == Status) in RULES
  {
    match c {
      case CreatedAt => assert RULES[0] == Rule(c, true, false);
      case UpdatedAt => assert RULES[1] == Rule(c, true, false);
      case Credentials => assert RULES[5] == Rule(c, true, false);
      case Extra => assert RULES[6] == Rule(c, true, false);
      case Concurrency => assert RULES[7] == Rule(c, true, false);
      case Priority => assert RULES[8] == Rule(c, true, false);
      case RateMultiplier => assert RULES[9] == Rule(c, true, false);
      case Status => assert RULES[10] == Rule(c, true, true);
      case AutoPauseOnExpired => assert RULES[11] == Rule(c, true, false);
      case Schedulable => assert RULES[12] == Rule(c, true, false);
      case _ =>
    }
  }

  /**
    Ignoring the error of defaults() is safe: a mutation that passes check() has every field that
    defaults() could have left unset, whatever hooks did to it in between.
   */
  lemma CheckCoversDefaults(valid: Validators, m: Fields)
    requires Check(valid, m).None?
    ensures forall c :: c in DEFAULTED ==> c in m
  {
    CheckExactly(valid, m);
    forall c | c in DEFAULTED ensures c in m { DefaultedAreRequired(c); }
  }

  ghost predicate IsRequired(c: Column) {
    c in {CreatedAt, UpdatedAt, Name, Platform, Type, Credentials, Extra, Concurrency, Priority, RateMultiplier, Status,
          AutoPauseOnExpired, Schedulable}
  }

  ghost predicate IsValidated(c: Column) {
    c in {Name, Platform, Type, Status, SessionWindowStatus}
  }

  lemma RuleAt(k: nat)
    requires k < |RULES|
    ensures RULES[k] == Rule(RULES[k].column, IsRequired(RULES[k].column), IsValidated(RULES[k].column))
  {
    assert |RULES| == 14;
    assert k in {0, 1, 2, 3, 4, 5, 6, 7, 8, 9, 10, 11, 12, 13};
  }

  lemma RuleOf(c: Column)
    requires IsRequired(c) || IsValidated(c)
    ensures Rule(c, IsRequired(c), IsValidated(c)) in RULES
  {
    if c in DEFAULTED {
      DefaultedAreRequired(c);
    } else {
      match c {
        case Name => assert RULES[2] == Rule(c, true, true);
        case Platform => assert RULES[3] == Rule(c, true, true);
        case Type => assert RULES[4] == Rule(c, true, true);
        case SessionWindowStatus => assert RULES[13] == Rule(c, false, true);
        case _ =>
      }
    }
  }

  /** check() column by column: thirteen fields are required, and five are validated when they are set. */
  lemma CheckPassesExactly(valid: Validators, m: Fields)
    ensures Check(valid, m).None? <==>
      && CreatedAt in m && UpdatedAt in m && Name in m && Platform in m && Type in m && Credentials in m
      && Extra in m && Concurrency in m && Priority in m && RateMultiplier in m && Status in m
      && AutoPauseOnExpired in m && Schedulable in m
      && forall c :: c in m && c in {Name, Platform, Type, Status, SessionWindowStatus} ==> valid(c, m[c])
  {
    CheckExactly(valid, m);
    assert (forall c :: IsRequired(c) ==> c in m) <==>
      && CreatedAt in m && UpdatedAt in m && Name in m && Platform in m && Type in m && Credentials in m
      && Extra in m && Concurrency in m && Priority in m && RateMultiplier in m && Status in m
      && AutoPauseOnExpired in m && Schedulable in m;
    if Check(valid, m).None? {
      forall c | IsRequired(c) || IsValidated(c)
        ensures (IsRequired(c) ==> c in m) && (IsValidated(c) && c in m ==> valid(c, m[c]))
      {
        RuleOf(c);
      }
    }
    if (forall c :: IsRequired(c) ==> c in m) && forall c :: c in m && IsValidated(c) ==> valid(c, m[c]) {
      forall r | r in RULES
        ensures (r.required ==> r.column in m) && (r.validated && r.column in m ==> valid(r.column, m[r.column]))
      {
        var k :| 0 <= k < |RULES| && RULES[k] == r;
        RuleAt(k);
      }
    }
  }

  /** What check() has against a column, read off the mutation. */
  ghost predicate Wrong(valid: Validators, m: Fields, c: Column, e: ValidationError) {
    || (e == MissingField(c) && IsRequired(c) && c !in m)
    || (e == InvalidField(c) && IsValidated(c) && c in m && !valid(c, m[c]))
  }

  lemma RulesInOrder(j: nat, k: nat)
    requires j < |RULES| && k < |RULES|
    ensures j < k <==> Place(RULES[j].column) < Place(RULES[k].column)
  {
    RulePlace(j);
    RulePlace(k);
  }

  lemma RulePlace(k: nat)
    requires k < |RULES|
    ensures Place(RULES[k].column) == [1, 2, 4, 6, 7, 8, 9, 13, 15, 16, 17, 21, 22, 30][k]
  {
    assert k in {0, 1, 2, 3, 4, 5, 6, 7, 8, 9, 10, 11, 12, 13};
  }

  lemma ViolationIsWrong(valid: Validators, m: Fields, k: nat, e: ValidationError)
    requires k < |RULES|
    ensures Violation(valid, m, RULES[k]) == Some(e) <==> Wrong(valid, m, RULES[k].column, e)
  {
    RuleAt(k);
  }

  /** The error is that of the first column, in the order of the schema, that something is wrong with. */
  lemma CheckReportsInOrder(valid: Validators, m: Fields, c: Column, e: ValidationError)
    requires Wrong(valid, m, c, e)
    requires forall b, x :: Place(b) < Place(c) ==> !Wrong(valid, m, b, x)
    ensures Check(valid, m) == Some(e)
  {
    var r := Rule(c, IsRequired(c), IsValidated(c));
    RuleOf(c);
    var j :| 0 <= j < |RULES| && RULES[j] == r;
    ViolationIsWrong(valid, m, j, e);
    hide Wrong, Violation, CheckRules, Place;
    CheckRulesExactly(valid, m, RULES);
    var k := CheckReportsFirst(valid, m, RULES);
    ViolationIsWrong(valid, m, k, Check(valid, m).value);
    RulesInOrder(k, j);
  }

  // ----- createSpec -----

  /** The columns that createSpec writes as fields, in its order. */
  const SPEC_COLUMNS: seq<Column> := [
    CreatedAt, UpdatedAt, DeletedAt, Name, Notes, Platform, Type, Credentials, Extra, ModelAttributes,
    ProxyFallbackOriginID, Concurrency, LoadFactor, Priority, RateMultiplier, Status, ErrorMessage, LastUsedAt,
    ExpiresAt, AutoPauseOnExpired, Schedulable, RateLimitedAt, RateLimitResetAt, OverloadUntil,
    TempUnschedulableUntil, TempUnschedulableReason, SessionWindowStart, SessionWindowEnd, SessionWindowStatus]

  /** The insert: the fields in order, and the proxy edge, whose foreign key is a column of the row. */
  datatype Spec = Spec(fields: seq<(Column, Value)>, proxy: Option<Value>)

  /** The node and the spec of createSpec, from the same mutation. */
  method CreateSpec(m: Fields) returns (node: Entity, spec: Spec)
    ensures node == NodeOf(m)
    ensures spec == SpecOf(m)
  {
    hide Restricted, Fresh, FieldsOf;
    var fields;
    node, fields := WriteFields(m, SPEC_COLUMNS);
    RestrictedNext(m, SPEC_COLUMNS, ProxyID);
    var proxy := None;
    if ProxyID in m {
      proxy := Some(m[ProxyID]);
      node := node[ProxyID := m[ProxyID]];
    }
    spec := Spec(fields, proxy);
  }

  lemma RestrictedNext(m: Fields, columns: seq<Column>, c: Column)
    ensures Fresh() + Restricted(m, columns + [c]) ==
      if c in m then (Fresh() + Restricted(m, columns))[c := m[c]] else Fresh() + Restricted(m, columns)
  {
    hide Fresh;
  }

  method WriteFields(m: Fields, columns: seq<Column>) returns (node: Entity, fields: seq<(Column, Value)>)
    ensures node == Fresh() + Restricted(m, columns)
    ensures fields == FieldsOf(m, columns)
  {
    hide Fresh, FieldsOf, Restricted;
    node, fields := Fresh(), [];
    WriteNothing(m);
    for i := 0 to |columns|
      invariant fields == FieldsOf(m, columns[..i])
      invariant node == Fresh() + Restricted(m, columns[..i])
    {
      var c := columns[i];
      WriteNext(m, columns, i);
      if c in m {
        fields := fields + [(c, m[c])];
        node := node[c := m[c]];
      }
    }
    assert columns[..|columns|] == columns;
  }

  lemma WriteNothing(m: Fields)
    ensures FieldsOf(m, []) == [] && Restricted(m, []) == map[]
    ensures Fresh() + map[] == Fresh()
  {
    hide Fresh;
  }

  lemma {:induction false} WriteNext(m: Fields, columns: seq<Column>, i: nat)
    requires i < |columns|
    ensures var c, fields, node := columns[i], FieldsOf(m, columns[..i]), Fresh() + Restricted(m, columns[..i]);
      && FieldsOf(m, columns[..i + 1]) == (if c in m then fields + [(c, m[c])] else fields)
      && Fresh() + Restricted(m, columns[..i + 1]) == if c in m then node[c := m[c]] else node
  {
    hide Fresh, Restricted;
    RestrictedNext(m, columns[..i], columns[i]);
    assert columns[..i + 1] == columns[..i] + [columns[i]];
    assert columns[..i + 1][..i] == columns[..i];
  }

  function FieldsOf(m: Fields, columns: seq<Column>): seq<(Column, Value)> {
    if columns == [] then []
    else
      var c := columns[|columns| - 1];
      FieldsOf(m, columns[..|columns| - 1]) + if c in m then [(c, m[c])] else []
  }

  function Restricted(m: Fields, columns: seq<Column>): Fields {
    map c | c in m && c in columns :: m[c]
  }

  function SpecOf(m: Fields): Spec {
    Spec(FieldsOf(m, SPEC_COLUMNS), if ProxyID in m then Some(m[ProxyID]) else None)
  }

  function NodeOf(m: Fields): Entity {
    Fresh() + Restricted(m, SPEC_COLUMNS + [ProxyID])
  }

  // ----- Writing and reading back -----

  function Encode(codec: Codec, v: Value): Cell {
    match v
    case JsonValue(j) => Raw(codec.marshal(j))
    case _ => Plain(v)
  }

  function FieldCells(codec: Codec, fields: seq<(Column, Value)>): Row {
    if fields == [] then map[]
    else
      var f := fields[|fields| - 1];
      FieldCells(codec, fields[..|fields| - 1])[f.0 := Encode(codec, f.1)]
  }

  /** The row that inserting a spec under an id creates; unset columns are NULL. */
  function RowOf(codec: Codec, spec: Spec, id: int): Row {
    var row := FieldCells(codec, spec.fields)[ID := Plain(IntValue(id))];
    if spec.proxy.Some? then row[ProxyID := Encode(codec, spec.proxy.value)] else row
  }

  /** Go's types: a mutation sets columns of the schema to values of their type, and never the id. */
  ghost predicate WellTyped(m: Fields) {
    forall c :: c in m ==> !c.Selected? && c != ID && HasKind(m[c], ScanKind(c))
  }

  lemma {:induction false} FieldCellsStored(codec: Codec, m: Fields, columns: seq<Column>)
    ensures var row := FieldCells(codec, FieldsOf(m, columns));
      forall c :: (c in row <==> c in m && c in columns) && (c in row ==> row[c] == Encode(codec, m[c]))
  {
    if columns != [] {
      var init, last := columns[..|columns| - 1], columns[|columns| - 1];
      FieldCellsStored(codec, m, init);
      assert columns == init + [last];
      var fs := FieldsOf(m, init);
      if last in m { assert (fs + [(last, m[last])])[..|fs|] == fs; } else { assert fs + [] == fs; }
    }
  }

  /** createSpec writes the fields in the order of the schema, but the proxy, which is an edge. */
  lemma SpecColumnsInOrder(i: nat)
    requires i < |SPEC_COLUMNS|
    ensures |SPEC_COLUMNS| == 29 && Place(SPEC_COLUMNS[i]) == if i < 10 then i + 1 else i + 2
  {
    if i < 14 { EarlySpecColumns(i); } else { LateSpecColumns(i); }
  }

  lemma EarlySpecColumns(i: nat)
    requires i < 14
    ensures |SPEC_COLUMNS| == 29 && Place(SPEC_COLUMNS[i]) == if i < 10 then i + 1 else i + 2
  {
    assert i in {0, 1, 2, 3, 4, 5, 6, 7, 8, 9, 10, 11, 12, 13};
  }

  lemma LateSpecColumns(i: nat)
    requires 14 <= i < 29
    ensures |SPEC_COLUMNS| == 29 && Place(SPEC_COLUMNS[i]) == i + 2
  {
    assert i in {14, 15, 16, 17, 18, 19, 20, 21, 22, 23, 24, 25, 26, 27, 28};
  }

  /** createSpec leaves no settable column out. */
  lemma EveryColumnIsWritten(c: Column)
    requires !c.Selected? && c != ID && c != ProxyID
    ensures c in SPEC_COLUMNS
  {
    ColumnsInOrder(c);
    var i := if Place(c) < 11 then Place(c) - 1 else Place(c) - 2;
    SpecColumnsInOrder(i);
    ColumnsInOrder(SPEC_COLUMNS[i]);
  }

  /** The fields of the insert: what the mutation has set, the proxy aside, in the order of the schema. */
  lemma SpecFieldsInOrder(m: Fields)
    requires WellTyped(m)
    ensures var fs := SpecOf(m).fields;
      && (forall i, j :: 0 <= i < j < |fs| ==> Place(fs[i].0) < Place(fs[j].0))
      && (forall c, v :: (c, v) in fs <==> c in m && c != ProxyID && v == m[c])
  {
    hide Place;
    forall i, j | 0 <= i < j < |SPEC_COLUMNS| ensures Place(SPEC_COLUMNS[i]) < Place(SPEC_COLUMNS[j]) {
      SpecColumnsInOrder(i);
      SpecColumnsInOrder(j);
    }
    FieldsInOrder(m, SPEC_COLUMNS);
    forall c | c in m && c != ProxyID ensures c in SPEC_COLUMNS { EveryColumnIsWritten(c); }
    ProxyIsNoField();
  }

  lemma ProxyIsNoField()
    ensures ProxyID !in SPEC_COLUMNS
  {
  }

  lemma {:induction false} FieldsInOrder(m: Fields, columns: seq<Column>)
    requires forall i, j :: 0 <= i < j < |columns| ==> Place(columns[i]) < Place(columns[j])
    ensures var fs := FieldsOf(m, columns);
      && (forall i, j :: 0 <= i < j < |fs| ==> Place(fs[i].0) < Place(fs[j].0))
      && (forall c, v :: (c, v) in fs <==> c in m && c in columns && v == m[c])
  {
    hide Place;
    if columns != [] {
      var init, last := columns[..|columns| - 1], columns[|columns| - 1];
      FieldsInOrder(m, init);
      assert columns == init + [last];
      var fs := FieldsOf(m, init);
      forall i | 0 <= i < |fs| ensures Place(fs[i].0) < Place(last) {
        assert (fs[i].0, fs[i].1) in fs;
        var k :| 0 <= k < |init| && init[k] == fs[i].0;
        assert columns[k] == init[k];
      }
    }
  }

  lemma EveryFieldIsWritten(m: Fields)
    requires WellTyped(m)
    ensures ID !in m && forall c :: c in m && c != ProxyID ==> c in SPEC_COLUMNS
  {
    hide HasKind, ScanKind;
    forall c | c in m && c != ProxyID ensures c in SPEC_COLUMNS { EveryColumnIsWritten(c); }
  }

  lemma RowOfFields(codec: Codec, m: Fields, id: int, columns: seq<Column>)
    requires ID !in m && forall c :: c in m && c != ProxyID ==> c in columns
    ensures RowOf(codec, Spec(FieldsOf(m, columns), if ProxyID in m then Some(m[ProxyID]) else None), id) ==
      map c | c in m.Keys + {ID} :: if c == ID then Plain(IntValue(id)) else Encode(codec, m[c])
  {
    hide Encode, FieldCells, FieldsOf;
    FieldCellsStored(codec, m, columns);
  }

  /** The stored row is exactly the encoded mutation and the id. */
  lemma RowStores(codec: Codec, m: Fields, id: int)
    requires WellTyped(m)
    ensures RowOf(codec, SpecOf(m), id) == map c | c in m.Keys + {ID} :: if c == ID then Plain(IntValue(id)) else Encode(codec, m[c])
  {
    hide WellTyped, Encode, RowOf, FieldCells, FieldsOf;
    EveryFieldIsWritten(m);
    RowOfFields(codec, m, id, SPEC_COLUMNS);
  }

  /** The node holds every field of the mutation, and initial values elsewhere. */
  lemma NodeHoldsMutation(m: Fields)
    requires WellTyped(m)
    ensures NodeOf(m) == Fresh() + m
  {
    EveryFieldIsWritten(m);
    assert Restricted(m, SPEC_COLUMNS + [ProxyID]) == m;
  }

  /** The codec reads a value back from its text; of an empty text nothing is read. */
  ghost predicate ReadsBack(codec: Codec, j: Json) {
    var text := codec.marshal(j);
    if text == [] then j == JsonNull else codec.unmarshal(text) == Some(j)
  }

  /** The codec reads back every JSON field of the mutation. */
  ghost predicate FieldsReadBack(codec: Codec, m: Fields) {
    forall c :: c in m && m[c].JsonValue? ==> ReadsBack(codec, m[c].j)
  }

  /** The row can be read as far as the texts in it can. */
  lemma RowReadable(codec: Codec, m: Fields, id: int)
    requires WellTyped(m)
    ensures Readable(codec, RowOf(codec, SpecOf(m), id)) <==>
      forall c :: c in m && m[c].JsonValue? ==> TextReadable(codec, m[c].j)
  {
    hide RowOf, SpecOf;
    RowStores(codec, m, id);
    assert HasKind(IntValue(id), ScanKind(ID));
    var row := RowOf(codec, SpecOf(m), id);
    forall c | c in m && m[c].JsonValue? ensures row[c] == Raw(codec.marshal(m[c].j)) {}
  }

  ghost predicate TextReadable(codec: Codec, j: Json) {
    codec.marshal(j) == [] || codec.unmarshal(codec.marshal(j)).Some?
  }

  /** Reading succeeds exactly when all texts in the row can be read. */
  lemma RowDecodes(codec: Codec, m: Fields, id: int, columns: seq<Column>)
    requires WellTyped(m)
    requires forall c: Column :: !c.Selected? ==> c in columns
    ensures var row := RowOf(codec, SpecOf(m), id);
      Decode(codec, row, columns).Some? <==> Readable(codec, row)
  {
    hide RowOf, SpecOf;
    var row := RowOf(codec, SpecOf(m), id);
    RowStores(codec, m, id);
    RowReadable(codec, m, id);
    if Readable(codec, row) {
      DecodeReadsSelectedColumns(codec, row, columns);
    } else {
      var c :| c in m && m[c].JsonValue? && !TextReadable(codec, m[c].j);
      UnreadableStops(codec, row, columns, Fresh(), c);
    }
  }

  /**
    Create and read back: for every mutation and every order of columns that leaves none out, reading
    the inserted row yields the node that createSpec returned, with its id, exactly when the codec
    reads back the JSON fields of the mutation.
   */
  lemma CreateReadRoundTrip(codec: Codec, m: Fields, id: int, columns: seq<Column>)
    requires WellTyped(m)
    requires forall c: Column :: !c.Selected? ==> c in columns
    ensures Decode(codec, RowOf(codec, SpecOf(m), id), columns) == Some(NodeOf(m)[ID := IntValue(id)]) <==>
      FieldsReadBack(codec, m)
  {
    hide RowOf, SpecOf, NodeOf, Decode, Fresh;
    var row := RowOf(codec, SpecOf(m), id);
    NodeHoldsMutation(m);
    RowDecodes(codec, m, id, columns);
    RowReadable(codec, m, id);
    if FieldsReadBack(codec, m) {
      assert forall c :: c in m && m[c].JsonValue? ==> ReadsBack(codec, m[c].j);
      assert Readable(codec, row);
    }
    if Readable(codec, row) {
      DecodeReadsSelectedColumns(codec, row, columns);
      ReadIsMutation(codec, m, id, columns, Decode(codec, row, columns).value);
    }
  }

  lemma ReadIsMutation(codec: Codec, m: Fields, id: int, columns: seq<Column>, e: Entity)
    requires WellTyped(m)
    requires forall c: Column :: !c.Selected? ==> c in columns
    requires Readable(codec, RowOf(codec, SpecOf(m), id))
    requires Decoded(codec, RowOf(codec, SpecOf(m), id), columns, Fresh(), e)
    ensures e == (Fresh() + m)[ID := IntValue(id)] <==> FieldsReadBack(codec, m)
  {
    hide RowOf, SpecOf, Readable, Fresh, FieldOf;
    var wanted := (Fresh() + m)[ID := IntValue(id)];
    forall c: Column
      ensures (c in e <==> c in wanted)
      ensures c in e ==> (e[c] == wanted[c] <==> (c in m && m[c].JsonValue? ==> ReadsBack(codec, m[c].j)))
    {
      FieldIsStored(codec, m, id, c);
    }
  }

  /** What the row stores for a field: what was set, and nothing for the others. */
  lemma FieldIsStored(codec: Codec, m: Fields, id: int, c: Column)
    requires WellTyped(m) && Readable(codec, RowOf(codec, SpecOf(m), id))
    ensures FieldOf(codec, RowOf(codec, SpecOf(m), id), c) ==
      if c == ID then Some(IntValue(id))
      else if c !in m then None
      else if !m[c].JsonValue? then Some(m[c])
      else StoredJson(codec, m[c].j)
    ensures c in m && m[c].JsonValue? ==>
      TextReadable(codec, m[c].j) && c in Fresh() && Fresh()[c] == JsonValue(JsonNull)
  {
    hide RowOf, SpecOf, Readable;
    RowStores(codec, m, id);
    RowReadable(codec, m, id);
  }

  ghost function StoredJson(codec: Codec, j: Json): Option<Value> {
    var text := codec.marshal(j);
    if text == [] || codec.unmarshal(text).None? then None else Some(JsonValue(codec.unmarshal(text).value))
  }

  /** For every mutation there is such a codec. */
  lemma SomeCodecReadsBack(m: Fields) returns (codec: Codec)
    requires WellTyped(m)
    ensures FieldsReadBack(codec, m)
  {
    var at := (c: Column) => if c in m && m[c].JsonValue? then m[c].j else JsonNull;
    codec := Codec(
      (j: Json) => if j == at(Credentials) then [0] else if j == at(Extra) then [1] else [2],
      (text: seq<bv8>) =>
        Some(at(if text == [0] then Credentials else if text == [1] then Extra else ModelAttributes)));
    forall c | c in m && m[c].JsonValue? ensures ReadsBack(codec, m[c].j) {
      assert c in {Credentials, Extra, ModelAttributes};
    }
  }
}
