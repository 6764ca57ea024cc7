/** The Account entity: its columns, and how a row of the database becomes field values. */
module AccountEntity {
  import opened Wrappers

  datatype Column =
    | ID | CreatedAt | UpdatedAt | DeletedAt | Name | Notes | Platform | Type | Credentials | Extra
    | ModelAttributes | ProxyID | ProxyFallbackOriginID | Concurrency | LoadFactor | Priority
    | RateMultiplier | Status | ErrorMessage | LastUsedAt | ExpiresAt | AutoPauseOnExpired | Schedulable
    | RateLimitedAt | RateLimitResetAt | OverloadUntil | TempUnschedulableUntil | TempUnschedulableReason
    | SessionWindowStart | SessionWindowEnd | SessionWindowStatus
    | Selected(name: string)  // any other name: a value selected by a modifier

  /** account.Columns: the ID, then the fields in the order of the schema. */
  const COLUMNS: seq<Column> := [ID] + FIELDS

  const FIELDS: seq<Column> := [
    CreatedAt, UpdatedAt, DeletedAt, Name, Notes, Platform, Type, Credentials, Extra,
    ModelAttributes, ProxyID, ProxyFallbackOriginID, Concurrency, LoadFactor, Priority,
    RateMultiplier, Status, ErrorMessage, LastUsedAt, ExpiresAt, AutoPauseOnExpired, Schedulable,
    RateLimitedAt, RateLimitResetAt, OverloadUntil, TempUnschedulableUntil, TempUnschedulableReason,
    SessionWindowStart, SessionWindowEnd, SessionWindowStatus]

  /** The place of a field in the schema and in the struct. */
  function Place(c: Column): nat {
    match c
    case ID => 0
    case CreatedAt => 1
    case UpdatedAt => 2
    case DeletedAt => 3
    case Name => 4
    case Notes => 5
    case Platform => 6
    case Type => 7
    case Credentials => 8
    case Extra => 9
    case ModelAttributes => 10
    case ProxyID => 11
    case ProxyFallbackOriginID => 12
    case Concurrency => 13
    case LoadFactor => 14
    case Priority => 15
    case RateMultiplier => 16
    case Status => 17
    case ErrorMessage => 18
    case LastUsedAt => 19
    case ExpiresAt => 20
    case AutoPauseOnExpired => 21
    case Schedulable => 22
    case RateLimitedAt => 23
    case RateLimitResetAt => 24
    case OverloadUntil => 25
    case TempUnschedulableUntil => 26
    case TempUnschedulableReason => 27
    case SessionWindowStart => 28
    case SessionWindowEnd => 29
    case SessionWindowStatus => 30
    case Selected(_) => 31
  }

  lemma PlaceOfField(i: nat)
    requires i < 15
    ensures |FIELDS| == 30 && Place(FIELDS[i]) == i + 1
  {
    assert i in {0, 1, 2, 3, 4, 5, 6, 7, 8, 9, 10, 11, 12, 13, 14};
  }

  lemma PlaceOfLaterField(i: nat)
    requires 15 <= i < 30
    ensures |FIELDS| == 30 && Place(FIELDS[i]) == i + 1
  {
    assert i in {15, 16, 17, 18, 19, 20, 21, 22, 23, 24, 25, 26, 27, 28, 29};
  }

  /** Every field is a column, once and at its place. */
  lemma ColumnsInOrder(c: Column)
    requires !c.Selected?
    ensures |COLUMNS| == 31 && COLUMNS[Place(c)] == c
    ensures forall i :: 0 <= i < |COLUMNS| && COLUMNS[i] == c ==> i == Place(c)
  {
    forall i | 0 <= i < |COLUMNS| ensures Place(COLUMNS[i]) == i { PlaceOfColumn(i); }
    ColumnAtPlace(c);
  }

  lemma PlaceOfColumn(i: nat)
    requires i < |COLUMNS|
    ensures Place(COLUMNS[i]) == i
  {
    hide Place;
    assert Place(ID) == 0 by { PlaceOfId(); }
    if 0 < i < 16 { PlaceOfField(i - 1); } else if i > 0 { PlaceOfLaterField(i - 1); }
    assert i > 0 ==> COLUMNS[i] == FIELDS[i - 1];
  }

  lemma PlaceOfId()
    ensures Place(ID) == 0
  {
  }

  lemma ColumnAtPlace(c: Column)
    requires !c.Selected?
    ensures |COLUMNS| == 31 && COLUMNS[Place(c)] == c
  {
  }

  datatype Json =
    | JsonNull | JsonBool(b: bool) | JsonNumber(r: real) | JsonString(s: string)
    | JsonArray(items: seq<Json>) | JsonObject(members: map<string, Json>)

  datatype Value =
    | IntValue(n: int) | StringValue(s: string) | BoolValue(b: bool) | FloatValue(r: real)
    | TimeValue(t: int) | JsonValue(j: Json)

  /** The types of the scan targets, by their Go names. */
  datatype Kind = NullInt64 | NullString | NullBool | NullFloat64 | NullTime | Bytes | UnknownType

  /** encoding/json: the text of a value, and the value that a text is read as, if any. */
  datatype Codec = Codec(marshal: Json -> seq<bv8>, unmarshal: seq<bv8> -> Option<Json>)

  /** A value in a row; JSON is stored as its text. */
  datatype Cell = Null | Plain(value: Value) | Raw(bytes: seq<bv8>)

  /** A scan target after scanning; an invalid one holds Null. */
  datatype Holder = Holder(kind: Kind, cell: Cell)

  /** scanValues: the scan target for a column. */
  function ScanKind(c: Column): Kind {
    if c in {Credentials, Extra, ModelAttributes} then Bytes
    else if c in {AutoPauseOnExpired, Schedulable} then NullBool
    else if c in {RateMultiplier} then NullFloat64
    else if c in {ID, ProxyID, ProxyFallbackOriginID, Concurrency, LoadFactor, Priority} then NullInt64
    else if c in {Name, Notes, Platform, Type, Status, ErrorMessage, TempUnschedulableReason, SessionWindowStatus} then
      NullString
    else if c in {CreatedAt, UpdatedAt, DeletedAt, LastUsedAt, ExpiresAt, RateLimitedAt, RateLimitResetAt,
                  OverloadUntil, TempUnschedulableUntil, SessionWindowStart, SessionWindowEnd} then
      NullTime
    else UnknownType
  }

  /** The scan target that assignValues expects for a column; None for the columns it keeps apart. */
  function AssignKind(c: Column): Option<Kind> {
    match c
    case ID => Some(NullInt64)
    case CreatedAt | UpdatedAt | DeletedAt => Some(NullTime)
    case Name | Notes | Platform | Type => Some(NullString)
    case Credentials | Extra | ModelAttributes => Some(Bytes)
    case ProxyID | ProxyFallbackOriginID | Concurrency | LoadFactor | Priority => Some(NullInt64)
    case RateMultiplier => Some(NullFloat64)
    case Status | ErrorMessage => Some(NullString)
    case LastUsedAt | ExpiresAt => Some(NullTime)
    case AutoPauseOnExpired | Schedulable => Some(NullBool)
    case RateLimitedAt | RateLimitResetAt | OverloadUntil | TempUnschedulableUntil => Some(NullTime)
    case TempUnschedulableReason => Some(NullString)
    case SessionWindowStart | SessionWindowEnd => Some(NullTime)
    case SessionWindowStatus => Some(NullString)
    case Selected(_) => None
  }

  /** The Go type of a field, pointers aside. */
  predicate HasKind(v: Value, k: Kind) {
    match v
    case IntValue(_) => k == NullInt64
    case StringValue(_) => k == NullString
    case BoolValue(_) => k == NullBool
    case FloatValue(_) => k == NullFloat64
    case TimeValue(_) => k == NullTime
    case JsonValue(_) => k == Bytes
  }

  function Zero(k: Kind): Value {
    match k
    case NullInt64 => IntValue(0)
    case NullString => StringValue("")
    case NullBool => BoolValue(false)
    case NullFloat64 => FloatValue(0.0)
    case NullTime => TimeValue(0)
    case _ => JsonValue(JsonNull)
  }

  /** The fields of an Account; a nil pointer has no entry. */
  type Entity = map<Column, Value>

  /** &Account{}: every field that is not a pointer has its zero value. */
  function Fresh(): Entity {
    map c | c in {ID, CreatedAt, UpdatedAt, Name, Platform, Type, Credentials, Extra, ModelAttributes, Concurrency,
                  Priority, RateMultiplier, Status, AutoPauseOnExpired, Schedulable} :: Zero(ScanKind(c))
  }

  /** The effect of one column; None for the error returns. */
  function AssignOne(codec: Codec, e: Entity, c: Column, h: Holder): Option<Entity> {
    if AssignKind(c).None? then Some(e)
    else if h.kind != AssignKind(c).value then None
    else
      match h.cell
      case Null => Some(if c == ID then e[ID := IntValue(0)] else e)
      case Plain(v) => Some(e[c := v])
      case Raw(bytes) =>
        if bytes == [] then Some(e)
        else
          var j := codec.unmarshal(bytes);
          if j.None? then None else Some(e[c := JsonValue(j.value)])
  }

  function AssignAll(codec: Codec, e: Entity, columns: seq<Column>, values: seq<Holder>): Option<Entity>
    requires |columns| <= |values|
    decreases columns
  {
    if columns == [] then Some(e)
    else
      var e' := AssignOne(codec, e, columns[0], values[0]);
      if e'.None? then None else AssignAll(codec, e'.value, columns[1..], values[1..])
  }

  /** The values selected by modifiers, after the first `n` columns; a later column replaces an earlier one. */
  function SelectedAfter(columns: seq<Column>, values: seq<Holder>, n: nat): map<string, Holder>
    requires n <= |columns| <= |values|
  {
    if n == 0 then map[]
    else
      var before, c := SelectedAfter(columns, values, n - 1), columns[n - 1];
      if c.Selected? then before[c.name := values[n - 1]] else before
  }

  /** Every selected name keeps what was scanned for its last column. */
  lemma {:induction false} SelectedHoldsLast(columns: seq<Column>, values: seq<Holder>, n: nat, name: string)
    requires n <= |columns| <= |values|
    ensures var selected := SelectedAfter(columns, values, n);
      && (name in selected <==> exists i :: 0 <= i < n && columns[i] == Selected(name))
      && (name in selected ==> exists i :: 0 <= i < n && IsLastOf(columns, n, i, name) && selected[name] == values[i])
  {
    if n > 0 {
      SelectedHoldsLast(columns, values, n - 1, name);
      if columns[n - 1] == Selected(name) {
        assert IsLastOf(columns, n, n - 1, name);
      } else if name in SelectedAfter(columns, values, n - 1) {
        var i :| 0 <= i < n - 1 && IsLastOf(columns, n - 1, i, name)
          && SelectedAfter(columns, values, n - 1)[name] == values[i];
        assert IsLastOf(columns, n, i, name);
      }
    }
  }

  ghost predicate IsLastOf(columns: seq<Column>, n: nat, i: nat, name: string)
    requires i < n <= |columns|
  {
    columns[i] == Selected(name) && forall j :: i < j < n ==> columns[j] != Selected(name)
  }

  /** assignValues on the fields and the selected values of an Account. */
  method AssignValues(codec: Codec, fields: Entity, columns: seq<Column>, values: seq<Holder>)
    returns (result: Option<Entity>, selected: map<string, Holder>)
    ensures result == if |values| < |columns| then None else AssignAll(codec, fields, columns, values)
    ensures result.Some? ==> selected == SelectedAfter(columns, values, |columns|)
  {
    selected := map[];
    if |values| < |columns| { return None, selected; }
    var e := fields;
    assert columns[0..] == columns && values[0..] == values;
    for i := 0 to |columns|
      invariant AssignAll(codec, fields, columns, values) == AssignAll(codec, e, columns[i..], values[i..])
      invariant selected == SelectedAfter(columns, values, i)
    {
      assert columns[i..][1..] == columns[i + 1..] && values[i..][1..] == values[i + 1..];
      var next := AssignOne(codec, e, columns[i], values[i]);
      if next.None? { return None, selected; }
      e := next.value;
      if columns[i].Selected? {
        selected := selected[columns[i].name := values[i]];
      }
    }
    return Some(e), selected;
  }

  // ----- Reading rows -----

  /** A row: what the table stores for each column. */
  type Row = map<Column, Cell>

  /** What the driver delivers for a column: the stored value, in the target that scanValues chose. */
  function Scanned(row: Row, c: Column): Holder {
    Holder(ScanKind(c), if c in row then row[c] else Null)
  }

  function ScanRow(row: Row, columns: seq<Column>): seq<Holder> {
    seq(|columns|, i requires 0 <= i < |columns| => Scanned(row, columns[i]))
  }

  /** Reading a row through the given columns into a new Account. */
  function Decode(codec: Codec, row: Row, columns: seq<Column>): Option<Entity> {
    AssignAll(codec, Fresh(), columns, ScanRow(row, columns))
  }

  /** A row that the driver can scan and the codec can read. */
  ghost predicate Readable(codec: Codec, row: Row) {
    forall c :: c in row ==>
      match row[c]
      case Null => true
      case Plain(v) => HasKind(v, ScanKind(c)) && !v.JsonValue?
      case Raw(bytes) => ScanKind(c) == Bytes && (bytes != [] ==> codec.unmarshal(bytes).Some?)
  }

  /** The two switches agree: every scan target is one that assignValues accepts. */
  lemma ScanTargetsAreExpected(c: Column)
    ensures AssignKind(c) == if c.Selected? then None else Some(ScanKind(c))
    ensures ScanKind(c) == UnknownType <==> c.Selected?
  {
    match c {
      case Selected(_) =>
      case _ =>
    }
  }

  /** The field that a stored cell amounts to; None where the field keeps its initial value. */
  function FieldOf(codec: Codec, row: Row, c: Column): Option<Value> {
    if c !in row then (if c == ID then Some(IntValue(0)) else None)
    else
      match row[c]
      case Null => if c == ID then Some(IntValue(0)) else None
      case Plain(v) => Some(v)
      case Raw(bytes) =>
        if bytes == [] || codec.unmarshal(bytes).None? then None else Some(JsonValue(codec.unmarshal(bytes).value))
  }

  ghost predicate Decoded(codec: Codec, row: Row, columns: seq<Column>, before: Entity, after: Entity) {
    forall c: Column ::
      if c in columns && !c.Selected? && FieldOf(codec, row, c).Some? then
        c in after && after[c] == FieldOf(codec, row, c).value
      else (c in after <==> c in before) && (c in before ==> after[c] == before[c])
  }

  lemma {:induction false} AssignAllDecodes(codec: Codec, row: Row, columns: seq<Column>, e: Entity)
    requires Readable(codec, row)
    ensures var r := AssignAll(codec, e, columns, ScanRow(row, columns));
      r.Some? && Decoded(codec, row, columns, e, r.value)
    decreases columns
  {
    if columns != [] {
      var c := columns[0];
      ScanTargetsAreExpected(c);
      assert ScanRow(row, columns)[1..] == ScanRow(row, columns[1..]);
      var e' := AssignOne(codec, e, c, Scanned(row, c));
      AssignAllDecodes(codec, row, columns[1..], e'.value);
      assert columns == [c] + columns[1..];
    }
  }

  /** A text that the codec cannot read stops the reading. */
  lemma {:induction false} UnreadableStops(codec: Codec, row: Row, columns: seq<Column>, e: Entity, c: Column)
    requires c in columns && c in row && ScanKind(c) == Bytes
    requires row[c].Raw? && row[c].bytes != [] && codec.unmarshal(row[c].bytes).None?
    ensures AssignAll(codec, e, columns, ScanRow(row, columns)) == None
    decreases columns
  {
    ScanTargetsAreExpected(c);
    assert ScanRow(row, columns)[1..] == ScanRow(row, columns[1..]);
    var e' := AssignOne(codec, e, columns[0], Scanned(row, columns[0]));
    if c != columns[0] && e'.Some? {
      assert columns == [columns[0]] + columns[1..];
      UnreadableStops(codec, row, columns[1..], e'.value, c);
    }
  }

  /**
    Reading never hits a type mismatch, whatever columns are selected in whatever order, and sets
    exactly the selected fields to what the row stores for them.
   */
  lemma DecodeReadsSelectedColumns(codec: Codec, row: Row, columns: seq<Column>)
    requires Readable(codec, row)
    ensures var e := Decode(codec, row, columns);
      e.Some? && Decoded(codec, row, columns, Fresh(), e.value)
  {
    AssignAllDecodes(codec, row, columns, Fresh());
  }

  // ----- The struct -----

  datatype GoType = GoInt | GoInt64 | GoString | GoBool | GoFloat64 | GoTime | GoMap

  /** The type of a field of the struct, without its pointer. */
  ghost function StructType(c: Column): GoType
    requires !c.Selected?
  {
    match c
    case ID | ProxyID | ProxyFallbackOriginID => GoInt64
    case Concurrency | LoadFactor | Priority => GoInt
    case Name | Notes | Platform | Type | Status | ErrorMessage | TempUnschedulableReason | SessionWindowStatus => GoString
    case AutoPauseOnExpired | Schedulable => GoBool
    case RateMultiplier => GoFloat64
    case CreatedAt | UpdatedAt | DeletedAt | LastUsedAt | ExpiresAt | RateLimitedAt | RateLimitResetAt => GoTime
    case OverloadUntil | TempUnschedulableUntil | SessionWindowStart | SessionWindowEnd => GoTime
    case Credentials | Extra | ModelAttributes => GoMap
  }

  ghost predicate IsPointer(c: Column) {
    c in {DeletedAt, Notes, ProxyID, ProxyFallbackOriginID, LoadFactor, ErrorMessage, LastUsedAt, ExpiresAt, RateLimitedAt,
          RateLimitResetAt, OverloadUntil, TempUnschedulableUntil, TempUnschedulableReason, SessionWindowStart,
          SessionWindowEnd, SessionWindowStatus}
  }

  ghost predicate HasType(v: Value, t: GoType) {
    match t
    case GoInt | GoInt64 => v.IntValue?
    case GoString => v.StringValue?
    case GoBool => v.BoolValue?
    case GoFloat64 => v.FloatValue?
    case GoTime => v.TimeValue?
    case GoMap => v.JsonValue?
  }

  ghost function ZeroOf(t: GoType): Value {
    match t
    case GoInt | GoInt64 => IntValue(0)
    case GoString => StringValue("")
    case GoBool => BoolValue(false)
    case GoFloat64 => FloatValue(0.0)
    case GoTime => TimeValue(0)
    case GoMap => JsonValue(JsonNull)
  }

  /** The scan target of a column takes exactly the values that its field of the struct can hold. */
  lemma ScanTargetsFitTheStruct(c: Column, v: Value)
    requires !c.Selected?
    ensures HasKind(v, ScanKind(c)) <==> HasType(v, StructType(c))
  {
  }

  lemma FreshField(c: Column)
    requires !c.Selected?
    ensures c in Fresh() <==> !IsPointer(c)
    ensures c in Fresh() ==> Fresh()[c] == ZeroOf(StructType(c))
  {
  }

  /**
    A node that was read, field by field: the value that the row stores, if the column is selected and
    not NULL; otherwise a pointer stays nil, and any other field keeps the zero value of its type.
   */
  lemma FieldIsRead(codec: Codec, row: Row, columns: seq<Column>, c: Column)
    requires Readable(codec, row) && !c.Selected?
    ensures var r := Decode(codec, row, columns);
      && r.Some?
      && if c in columns && c in row && row[c].Plain? then
           c in r.value && r.value[c] == row[c].value
         else if c in columns && c in row && row[c].Raw? && row[c].bytes != [] then
           c in r.value && r.value[c].JsonValue? && codec.unmarshal(row[c].bytes) == Some(r.value[c].j)
         else
           && (c in r.value <==> !IsPointer(c))
           && (c in r.value ==> r.value[c] == ZeroOf(StructType(c)))
  {
    hide Fresh, Decode;
    DecodeReadsSelectedColumns(codec, row, columns);
    FreshField(c);
  }
}
