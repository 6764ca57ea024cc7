/** The line parser for the list of audit exceptions. */
module ExceptionParser {
  import opened Wrappers

  type Record = map<string, string>

  // ----- Python string operations -----

  /** str.isspace for one character. */
  predicate IsSpace(c: char) {
    var v := c as int;
    || 0x09 <= v <= 0x0D || 0x1C <= v <= 0x20 || v == 0x85 || v == 0xA0 || v == 0x1680
    || 0x2000 <= v <= 0x200A || v == 0x2028 || v == 0x2029 || v == 0x202F || v == 0x205F || v == 0x3000
  }

  /** The 29 characters that count as white space, by their codes. */
  lemma SpacesExactly(c: char)
    ensures IsSpace(c) <==>
      c as int in {0x09, 0x0A, 0x0B, 0x0C, 0x0D, 0x1C, 0x1D, 0x1E, 0x1F, 0x20, 0x85, 0xA0, 0x1680, 0x2000, 0x2001,
                   0x2002, 0x2003, 0x2004, 0x2005, 0x2006, 0x2007, 0x2008, 0x2009, 0x200A, 0x2028, 0x2029, 0x202F,
                   0x205F, 0x3000}
  {
  }

  /** str.strip without arguments. */
  function Strip(s: string): string {
    if s == [] then []
    else if IsSpace(s[0]) then Strip(s[1..])
    else if IsSpace(s[|s| - 1]) then Strip(s[..|s| - 1])
    else s
  }

  predicate Trimmed(s: string) {
    s == [] || (!IsSpace(s[0]) && !IsSpace(s[|s| - 1]))
  }

  ghost predicate AllSpace(s: string) {
    forall i :: 0 <= i < |s| ==> IsSpace(s[i])
  }

  /** Strip removes exactly the white space around a trimmed text. */
  lemma {:induction false} StripPadded(left: string, s: string, right: string)
    requires AllSpace(left) && AllSpace(right) && Trimmed(s)
    ensures Strip(left + s + right) == s
    decreases |left| + |right|, |right|
  {
    var t := left + s + right;
    if left != [] {
      assert t[1..] == left[1..] + s + right;
      StripPadded(left[1..], s, right);
    } else if s == [] && right != [] {
      assert t == right && t[1..] == [] + [] + right[1..];
      StripPadded([], [], right[1..]);
    } else if right != [] {
      assert t[..|t| - 1] == left + s + right[..|right| - 1];
      StripPadded(left, s, right[..|right| - 1]);
    } else {
      assert t == s;
    }
  }

  /** str.split(":", 1) needs the first colon. */
  function FirstColon(s: string): (n: nat)
    ensures n <= |s|
    ensures ':' !in s[..n]
    ensures n < |s| ==> s[n] == ':'
  {
    if s == [] || s[0] == ':' then 0
    else
      var n := 1 + FirstColon(s[1..]);
      assert s[..n] == [s[0]] + s[1..][..n - 1];
      n
  }

  lemma {:induction false} FirstColonAt(s: string, n: nat)
    requires n < |s| && s[n] == ':' && ':' !in s[..n]
    ensures FirstColon(s) == n
  {
    if n > 0 {
      assert s[0] in s[..n];
      assert s[1..][..n - 1] == s[..n][1..];
      FirstColonAt(s[1..], n - 1);
    }
  }

  // ----- One line -----

  predicate IsQuoted(v: string) {
    v != [] && v[0] == v[|v| - 1] && v[0] in {'"', '\''}
  }

  /** value[1:-1], which is empty for a single quote character. */
  function Unquote(v: string): string {
    if !IsQuoted(v) then v else if |v| == 1 then [] else v[1..|v| - 1]
  }

  /** None where the unpacking of a line without a colon raises ValueError. */
  function SplitKv(line: string): Option<(string, string)> {
    var n := FirstColon(line);
    if n == |line| then None
    else Some((Strip(line[..n]), Unquote(Strip(line[n + 1..]))))
  }

  datatype State = State(exceptions: seq<Record>, current: Option<Record>)

  /** `if current`: neither None nor an empty dictionary. */
  function Flush(st: State): seq<Record> {
    if st.current.Some? && st.current.value != map[] then st.exceptions + [st.current.value] else st.exceptions
  }

  predicate IsSkipped(line: string) {
    line == [] || "#" <= line || "version:" <= line || "exceptions:" <= line
  }

  /** The effect of one line; None for the ValueError that ends the program. */
  function Step(st: State, raw: string): Option<State> {
    var line := Strip(raw);
    if IsSkipped(line) then Some(st)
    else if "- " <= line then
      var rest := Strip(line[2..]);
      if rest == [] then Some(State(Flush(st), Some(map[])))
      else
        var kv := SplitKv(rest);
        if kv.None? then None else Some(State(Flush(st), Some(map[kv.value.0 := kv.value.1])))
    else if st.current.Some? && ':' in line then
      var kv := SplitKv(line);
      if kv.None? then None else Some(st.(current := Some(st.current.value[kv.value.0 := kv.value.1])))
    else Some(st)
  }

  function Run(st: State, lines: seq<string>): Option<State>
    decreases lines
  {
    if lines == [] then Some(st)
    else
      var st' := Step(st, lines[0]);
      if st'.None? then None else Run(st'.value, lines[1..])
  }

  const START := State([], None)

  function Parse(lines: seq<string>): Option<seq<Record>> {
    var st := Run(START, lines);
    if st.None? then None else Some(Flush(st.value))
  }

  /** parse_exceptions over the lines of the file. */
  method ParseExceptions(lines: seq<string>) returns (result: Option<seq<Record>>)
    ensures result == Parse(lines)
  {
    var exceptions: seq<Record> := [];
    var current: Option<Record> := None;
    assert lines[0..] == lines;
    for i := 0 to |lines|
      invariant Run(START, lines) == Run(State(exceptions, current), lines[i..])
    {
      ghost var st := State(exceptions, current);
      assert lines[i..][1..] == lines[i + 1..];
      var line := Strip(lines[i]);
      if line == [] || "#" <= line { continue; }
      if "version:" <= line || "exceptions:" <= line { continue; }
      if "- " <= line {
        if current.Some? && current.value != map[] {
          exceptions := exceptions + [current.value];
        }
        current := Some(map[]);
        line := Strip(line[2..]);
        if line != [] {
          var kv := SplitKv(line);
          if kv.None? { return None; }
          current := Some(current.value[kv.value.0 := kv.value.1]);
        }
        continue;
      }
      if current.Some? && ':' in line {
        var kv := SplitKv(line);
        if kv.None? { return None; }
        current := Some(current.value[kv.value.0 := kv.value.1]);
      }
    }
    if current.Some? && current.value != map[] {
      exceptions := exceptions + [current.value];
    }
    return Some(exceptions);
  }

  // ----- The lines of a file -----

  /** The length of the line end at the front of `s`: LF, CR, or CR LF. */
  function LineEnd(s: string): (n: nat)
    ensures n <= |s|
  {
    if s == [] then 0
    else if s[0] == '\n' then 1
    else if s[0] == '\r' then if |s| > 1 && s[1] == '\n' then 2 else 1
    else 0
  }

  /** Iteration over a text file, behind the part `line` of the current line; every line end becomes LF. */
  function LinesFrom(line: string, text: string): seq<string>
    decreases |text|
  {
    if text == [] then if line == [] then [] else [line]
    else if LineEnd(text) > 0 then [line + "\n"] + LinesFrom([], text[LineEnd(text)..])
    else LinesFrom(line + [text[0]], text[1..])
  }

  /** parse_exceptions on the contents of a file. */
  function ParseText(text: string): Option<seq<Record>> {
    Parse(LinesFrom([], text))
  }

  predicate SingleLine(s: string) {
    '\n' !in s && '\r' !in s
  }

  /** A file with the given lines. */
  function TextOf(lines: seq<string>): string {
    if lines == [] then [] else lines[0] + "\n" + TextOf(lines[1..])
  }

  function Ended(lines: seq<string>): seq<string> {
    seq(|lines|, i requires 0 <= i < |lines| => lines[i] + "\n")
  }

  lemma {:induction false} NextLine(start: string, line: string, rest: string)
    requires SingleLine(line)
    ensures LinesFrom(start, line + "\n" + rest) == [start + line + "\n"] + LinesFrom([], rest)
    decreases |line|
  {
    var text := line + "\n" + rest;
    if line == [] {
      assert text == "\n" + rest && text[1..] == rest && start + line == start;
    } else {
      assert text[0] == line[0] && text[1..] == line[1..] + "\n" + rest;
      assert line[0] in line;
      NextLine(start + [line[0]], line[1..], rest);
      assert start + [line[0]] + line[1..] == start + line;
    }
  }

  /** CR LF, CR, and LF all end a line. */
  lemma {:induction false} LineEndsAlike(start: string, line: string, rest: string)
    requires SingleLine(line)
    ensures LinesFrom(start, line + "\r\n" + rest) == [start + line + "\n"] + LinesFrom([], rest)
    ensures (rest != [] ==> rest[0] != '\n') ==>
      LinesFrom(start, line + "\r" + rest) == [start + line + "\n"] + LinesFrom([], rest)
    decreases |line|
  {
    var crlf, cr := line + "\r\n" + rest, line + "\r" + rest;
    if line == [] {
      assert crlf == "\r\n" + rest && crlf[2..] == rest && cr == "\r" + rest && cr[1..] == rest && start + line == start;
    } else {
      assert crlf[0] == line[0] && crlf[1..] == line[1..] + "\r\n" + rest;
      assert cr[0] == line[0] && cr[1..] == line[1..] + "\r" + rest;
      assert line[0] in line;
      LineEndsAlike(start + [line[0]], line[1..], rest);
      assert start + [line[0]] + line[1..] == start + line;
    }
  }

  lemma {:induction false} LinesOfText(lines: seq<string>)
    requires forall l :: l in lines ==> SingleLine(l)
    ensures LinesFrom([], TextOf(lines)) == Ended(lines)
  {
    if lines != [] {
      LinesOfText(lines[1..]);
      NextLine([], lines[0], TextOf(lines[1..]));
      assert [] + lines[0] == lines[0];
      assert Ended(lines) == [lines[0] + "\n"] + Ended(lines[1..]);
    }
  }

  lemma {:induction false} StripTrailing(s: string, c: char)
    requires IsSpace(c)
    ensures Strip(s + [c]) == Strip(s)
  {
    var t := s + [c];
    if s == [] {
      assert t[1..] == [];
    } else if IsSpace(s[0]) {
      assert t[1..] == s[1..] + [c];
      StripTrailing(s[1..], c);
    } else {
      assert t[..|t| - 1] == s;
    }
  }

  lemma {:induction false} RunEnded(st: State, lines: seq<string>)
    ensures Run(st, Ended(lines)) == Run(st, lines)
    decreases lines
  {
    if lines != [] {
      StripTrailing(lines[0], '\n');
      assert Ended(lines)[1..] == Ended(lines[1..]);
      var st' := Step(st, lines[0]);
      assert Step(st, lines[0] + "\n") == st';
      if st'.Some? { RunEnded(st'.value, lines[1..]); }
    }
  }

  /** A file is parsed as its lines are. */
  lemma TextParsesAsLines(lines: seq<string>)
    requires forall l :: l in lines ==> SingleLine(l)
    ensures ParseText(TextOf(lines)) == Parse(lines)
  {
    LinesOfText(lines);
    RunEnded(START, lines);
  }

  // ----- Rendering -----

  datatype Style = Bare | SingleQuoted | DoubleQuoted

  datatype Field = Field(key: string, value: string, style: Style)

  function Rendered(f: Field): string {
    match f.style
    case Bare => f.value
    case SingleQuoted => "'" + f.value + "'"
    case DoubleQuoted => "\"" + f.value + "\""
  }

  /** A field that can be written on one line; quoted values are otherwise free, colons included. */
  ghost predicate Writable(f: Field) {
    && SingleLine(f.key) && SingleLine(f.value)
    && ':' !in f.key && Trimmed(f.key)
    && (f.style.Bare? ==> Trimmed(f.value) && !IsQuoted(f.value))
  }

  /** Keys that the parser takes for something else when they start a line. */
  predicate Reserved(key: string) {
    key == "version" || key == "exceptions" || "#" <= key || "- " <= key
  }

  function FieldLine(indent: string, f: Field): string {
    indent + f.key + ": " + Rendered(f)
  }

  function RecordLines(fields: seq<Field>): seq<string> {
    if fields == [] then []
    else
      var indent := if |fields| == 1 then "  - " else "    ";
      RecordLines(fields[..|fields| - 1]) + [FieldLine(indent, fields[|fields| - 1])]
  }

  function RecordsLines(records: seq<seq<Field>>): seq<string> {
    if records == [] then [] else RecordsLines(records[..|records| - 1]) + RecordLines(records[|records| - 1])
  }

  /** The file for a list of records, one field per line. */
  function Render(records: seq<seq<Field>>): seq<string> {
    ["version: 1", "exceptions:"] + RecordsLines(records)
  }

  function RecordOf(fields: seq<Field>): Record {
    if fields == [] then map[]
    else
      var f := fields[|fields| - 1];
      RecordOf(fields[..|fields| - 1])[f.key := f.value]
  }

  function RecordsOf(records: seq<seq<Field>>): seq<Record> {
    seq(|records|, i requires 0 <= i < |records| => RecordOf(records[i]))
  }

  /** A key and its value as they stand between the white space of a line. */
  function Core(f: Field): string {
    f.key + ":" + if Rendered(f) == [] then [] else " " + Rendered(f)
  }

  lemma RenderedTrimmed(f: Field)
    requires Writable(f)
    ensures Trimmed(Rendered(f)) && Unquote(Rendered(f)) == f.value
  {
  }

  lemma CoreSplits(f: Field)
    requires Writable(f)
    ensures SplitKv(Core(f)) == Some((f.key, f.value))
  {
    RenderedTrimmed(f);
    var c, n := Core(f), |f.key|;
    assert c[n] == ':' && c[..n] == f.key;
    FirstColonAt(c, n);
    StripPadded([], f.key, []);
    assert [] + f.key + [] == f.key;
    var r := c[n + 1..];
    var pad := if Rendered(f) == [] then [] else " ";
    assert r == pad + Rendered(f) + [];
    StripPadded(pad, Rendered(f), []);
  }

  /** A value is read the same bare, in single quotes and in double quotes. */
  lemma QuotesAreStripped(key: string, value: string)
    requires SingleLine(key) && SingleLine(value) && ':' !in key && Trimmed(key)
    ensures SplitKv(key + ": '" + value + "'") == Some((key, value))
    ensures SplitKv(key + ": \"" + value + "\"") == Some((key, value))
    ensures Trimmed(value) && value != [] && value[0] !in {'"', '\''} ==> SplitKv(key + ": " + value) == Some((key, value))
  {
    hide SplitKv, Core, Trimmed;
    SplitsAsWritten(Field(key, value, SingleQuoted));
    SplitsAsWritten(Field(key, value, DoubleQuoted));
    assert key + ": " + ("'" + value + "'") == key + ": '" + value + "'";
    assert key + ": " + ("\"" + value + "\"") == key + ": \"" + value + "\"";
    if Trimmed(value) && value != [] && value[0] !in {'"', '\''} { SplitsAsWritten(Field(key, value, Bare)); }
  }

  lemma SplitsAsWritten(f: Field)
    requires Writable(f) && Rendered(f) != []
    ensures SplitKv(f.key + ": " + Rendered(f)) == Some((f.key, f.value))
  {
    hide SplitKv, Rendered, Writable;
    CoreSplits(f);
    assert f.key + ":" + (" " + Rendered(f)) == f.key + ": " + Rendered(f);
  }

  lemma CoreTrimmed(f: Field)
    requires Writable(f)
    ensures Core(f) != [] && Trimmed(Core(f)) && Trimmed("- " + Core(f))
  {
    RenderedTrimmed(f);
    var c := Core(f);
    assert c[0] == if f.key == [] then ':' else f.key[0];
    assert c[|c| - 1] == if Rendered(f) == [] then ':' else Rendered(f)[|Rendered(f)| - 1];
  }

  lemma LineStrips(left: string, mark: string, f: Field)
    requires AllSpace(left) && Trimmed(mark + Core(f))
    ensures Strip(FieldLine(left + mark, f)) == mark + Core(f)
  {
    hide IsSpace, Trimmed, Strip, Rendered;
    var right := if Rendered(f) == [] then " " else [];
    assert FieldLine(left + mark, f) == left + (mark + Core(f)) + right;
    assert AllSpace(right) by { BlankIsSpace(); }
    StripPadded(left, mark + Core(f), right);
  }

  lemma BlankIsSpace()
    ensures IsSpace(' ')
  {
  }

  lemma FirstStrips(f: Field)
    requires Writable(f)
    ensures Strip(FieldLine("  - ", f)) == "- " + Core(f)
    ensures Core(f) != [] && Strip(Core(f)) == Core(f)
  {
    hide IsSpace, Trimmed, Strip, Core, FieldLine, Writable;
    CoreTrimmed(f);
    BlankIsSpace();
    assert "  - " == "  " + "- ";
    LineStrips("  ", "- ", f);
    StripPadded([], Core(f), []);
    assert [] + Core(f) + [] == Core(f);
  }

  /** The first line of a record ends the one before it and starts a new one. */
  lemma FirstLine(st: State, f: Field)
    requires Writable(f)
    ensures Step(st, FieldLine("  - ", f)) == Some(State(Flush(st), Some(map[f.key := f.value])))
  {
    hide Strip, Core, FieldLine, Writable, SplitKv, Flush;
    FirstStrips(f);
    CoreSplits(f);
    var line := "- " + Core(f);
    assert line[0] == '-' && line[2..] == Core(f);
    assert map[][f.key := f.value] == map[f.key := f.value];
  }

  lemma CoreIsReserved(f: Field)
    requires Writable(f)
    ensures Reserved(f.key) <==> IsSkipped(Core(f)) || "- " <= Core(f)
  {
    hide IsSpace, Trimmed, IsQuoted, Rendered;
    var c := Core(f);
    assert c[|f.key|] == ':' && f.key == c[..|f.key|];
    assert "version:" <= c <==> f.key == "version" by { PrefixIsKey(f, "version"); }
    assert "exceptions:" <= c <==> f.key == "exceptions" by { PrefixIsKey(f, "exceptions"); }
  }

  lemma PrefixIsKey(f: Field, word: string)
    requires ':' !in f.key && ':' !in word
    ensures word + ":" <= Core(f) <==> f.key == word
  {
    var c := Core(f);
    assert c[|f.key|] == ':' && c[..|f.key|] == f.key;
    FirstColonAt(c, |f.key|);
    if word + ":" <= c {
      assert c[|word|] == (word + ":")[|word|] && c[..|word|] == word;
      FirstColonAt(c, |word|);
    }
  }

  /** A further line of a record adds its field, unless its key is reserved. */
  lemma FurtherLine(st: State, f: Field)
    requires Writable(f) && !Reserved(f.key) && st.current.Some?
    ensures Step(st, FieldLine("    ", f)) == Some(st.(current := Some(st.current.value[f.key := f.value])))
  {
    assert "    " == "    " + [];
    FurtherStrips(f);
    CoreSplits(f);
    CoreIsReserved(f);
    assert Core(f)[|f.key|] == ':';
  }

  lemma {:induction false} RunConcat(st: State, a: seq<string>, b: seq<string>)
    ensures Run(st, a + b) == if Run(st, a).None? then None else Run(Run(st, a).value, b)
    decreases a
  {
    if a == [] {
      assert a + b == b;
    } else {
      assert (a + b)[0] == a[0] && (a + b)[1..] == a[1..] + b;
      var st' := Step(st, a[0]);
      if st'.Some? { RunConcat(st'.value, a[1..], b); }
    }
  }

  // ----- The round trip -----

  /** A non-empty record whose fields can all be written on a line. */
  ghost predicate WritableRecord(fields: seq<Field>) {
    fields != [] && forall i :: 0 <= i < |fields| ==> Writable(fields[i])
  }

  /** No key after the first of its record is reserved. */
  ghost predicate Plain(fields: seq<Field>) {
    forall i :: 1 <= i < |fields| ==> !Reserved(fields[i].key)
  }

  /** The fields that survive when no key starts a new record. */
  ghost function Kept(fields: seq<Field>): seq<Field> {
    if |fields| <= 1 then fields
    else
      var f := fields[|fields| - 1];
      Kept(fields[..|fields| - 1]) + if Reserved(f.key) then [] else [f]
  }

  /** The number of keys that the parser takes for the start of a new record. */
  ghost function Dashes(fields: seq<Field>): nat {
    if |fields| <= 1 then 0
    else Dashes(fields[..|fields| - 1]) + if "- " <= fields[|fields| - 1].key then 1 else 0
  }

  lemma {:induction false} StripKeepsColon(s: string)
    requires ':' in s
    ensures ':' in Strip(s)
  {
    if s != [] {
      assert s == [s[0]] + s[1..] == s[..|s| - 1] + [s[|s| - 1]];
      if IsSpace(s[0]) { StripKeepsColon(s[1..]); }
      else if IsSpace(s[|s| - 1]) { StripKeepsColon(s[..|s| - 1]); }
    }
  }

  lemma FurtherStrips(f: Field)
    requires Writable(f)
    ensures Strip(FieldLine("    ", f)) == Core(f)
  {
    hide IsSpace, Trimmed, Strip, Core, FieldLine, Writable;
    CoreTrimmed(f);
    BlankIsSpace();
    assert "    " + [] == "    " && [] + Core(f) == Core(f);
    LineStrips("    ", [], f);
  }

  /** A reserved key is skipped with its value, or starts a record of its own. */
  lemma ReservedLine(st: State, f: Field, raw: string)
    requires Writable(f) && Reserved(f.key) && Strip(raw) == Core(f)
    ensures !("- " <= f.key) ==> Step(st, raw) == Some(st)
    ensures "- " <= f.key ==>
      var st' := Step(st, raw);
      && st'.Some? && st'.value.exceptions == Flush(st)
      && st'.value.current.Some? && st'.value.current.value != map[]
  {
    CoreIsReserved(f);
    DashIsInKey(f);
    if "- " <= f.key { DashLine(st, f, raw); } else { IgnoredStep(st, raw); }
  }

  /** Lines without effect: blank lines, comments, headers, and text that is no field. */
  ghost predicate Ignored(raw: string) {
    var line := Strip(raw);
    IsSkipped(line) || (!("- " <= line) && ':' !in line)
  }

  lemma IgnoredStep(st: State, raw: string)
    requires Ignored(raw)
    ensures Step(st, raw) == Some(st)
  {
  }

  lemma DashIsInKey(f: Field)
    ensures "- " <= f.key <==> "- " <= Core(f)
  {
    assert Core(f)[|f.key|] == ':' && Core(f)[..|f.key|] == f.key;
    assert "- "[0] == '-' && "- "[1] == ' ';
  }

  lemma {:induction false} DashLine(st: State, f: Field, raw: string)
    requires Strip(raw) == Core(f) && "- " <= f.key && "- " <= Core(f)
    ensures var st' := Step(st, raw);
      && st'.Some? && st'.value.exceptions == Flush(st)
      && st'.value.current.Some? && st'.value.current.value != map[]
  {
    var rest := Core(f)[2..];
    assert rest[|f.key| - 2] == ':';
    StripKeepsColon(rest);
    assert Core(f)[0] == '-';
    var n := FirstColon(Strip(rest));
    assert Strip(rest)[..|Strip(rest)|] == Strip(rest);
    var kv := SplitKv(Strip(rest)).value;
    assert kv.0 in map[][kv.0 := kv.1];
  }

  lemma {:induction false} RunRecord(st: State, fields: seq<Field>)
    requires WritableRecord(fields)
    ensures var st' := Run(st, RecordLines(fields));
      && st'.Some? && st'.value.current.Some? && st'.value.current.value != map[]
      && |Flush(st'.value)| == |Flush(st)| + 1 + Dashes(fields)
      && (Dashes(fields) == 0 ==> st'.value == State(Flush(st), Some(RecordOf(Kept(fields)))))
  {
    var init, f := fields[..|fields| - 1], fields[|fields| - 1];
    var line := FieldLine(if |fields| == 1 then "  - " else "    ", f);
    RunConcat(st, RecordLines(init), [line]);
    assert [line][1..] == [];
    if |fields| == 1 {
      FirstLine(st, f);
      assert init == [] && Kept(fields) == fields && RecordOf(init) == map[];
      assert f.key in map[f.key := f.value];
    } else {
      RunRecord(st, init);
      var mid := Run(st, RecordLines(init)).value;
      if Reserved(f.key) {
        FurtherStrips(f);
        ReservedLine(mid, f, line);
        assert Kept(init) + [] == Kept(init);
      } else {
        FurtherLine(mid, f);
        assert (Kept(init) + [f])[..|Kept(init)|] == Kept(init);
        assert f.key in mid.current.value[f.key := f.value];
      }
    }
  }

  lemma FlushRecord(st: State, fields: seq<Field>)
    requires WritableRecord(fields)
    ensures var st' := Run(st, RecordLines(fields));
      && st'.Some?
      && |Flush(st'.value)| == |Flush(st)| + 1 + Dashes(fields)
      && (Dashes(fields) == 0 ==> Flush(st'.value) == Flush(st) + [RecordOf(Kept(fields))])
  {
    RunRecord(st, fields);
  }

  ghost function KeptRecords(records: seq<seq<Field>>): seq<Record> {
    seq(|records|, i requires 0 <= i < |records| => RecordOf(Kept(records[i])))
  }

  ghost function TotalDashes(records: seq<seq<Field>>): nat {
    if records == [] then 0 else TotalDashes(records[..|records| - 1]) + Dashes(records[|records| - 1])
  }

  ghost predicate Loaded(st: Option<State>, records: seq<seq<Field>>) {
    && st.Some?
    && |Flush(st.value)| == |records| + TotalDashes(records)
    && (TotalDashes(records) == 0 ==> Flush(st.value) == KeptRecords(records))
  }

  lemma LoadOne(st: Option<State>, init: seq<seq<Field>>, r: seq<Field>)
    requires Loaded(st, init) && WritableRecord(r)
    ensures Loaded(Run(st.value, RecordLines(r)), init + [r])
  {
    var records := init + [r];
    FlushRecord(st.value, r);
    assert records[..|records| - 1] == init;
    assert KeptRecords(records) == KeptRecords(init) + [RecordOf(Kept(r))];
  }

  lemma {:induction false} RunRecords(records: seq<seq<Field>>)
    requires forall r :: r in records ==> WritableRecord(r)
    ensures Loaded(Run(START, RecordsLines(records)), records)
  {
    hide WritableRecord, RecordLines, Step;
    if records != [] {
      var init, r := records[..|records| - 1], records[|records| - 1];
      assert r in records && forall r' :: r' in init ==> r' in records;
      RunRecords(init);
      RunConcat(START, RecordsLines(init), RecordLines(r));
      LoadOne(Run(START, RecordsLines(init)), init, r);
      assert records == init + [r];
    }
  }

  lemma {:induction false} NoDashes(records: seq<seq<Field>>)
    requires forall r :: r in records ==> Plain(r)
    ensures TotalDashes(records) == 0 && KeptRecords(records) == RecordsOf(records)
  {
    if records != [] {
      var init, r := records[..|records| - 1], records[|records| - 1];
      assert r in records && forall r' :: r' in init ==> r' in records;
      NoDashes(init);
      PlainKeepsAll(r);
      assert KeptRecords(records) == KeptRecords(init) + [RecordOf(Kept(r))];
      assert RecordsOf(records) == RecordsOf(init) + [RecordOf(r)];
    }
  }

  lemma {:induction false} RecordKeys(fields: seq<Field>, key: string)
    ensures key in RecordOf(fields) <==> exists i :: 0 <= i < |fields| && fields[i].key == key
  {
    if fields != [] {
      var init := fields[..|fields| - 1];
      RecordKeys(init, key);
      if key in RecordOf(init) {
        var i :| 0 <= i < |init| && init[i].key == key;
        assert fields[i].key == key;
      }
      if i :| 0 <= i < |fields| && fields[i].key == key {
        assert i < |init| ==> init[i].key == key;
      }
    }
  }

  lemma {:induction false} PlainKeepsAll(fields: seq<Field>)
    requires Plain(fields)
    ensures Kept(fields) == fields && Dashes(fields) == 0
  {
    hide Reserved;
    if |fields| > 1 {
      var init := fields[..|fields| - 1];
      assert forall i :: 0 <= i < |init| ==> init[i] == fields[i];
      PlainKeepsAll(init);
      DashIsReserved(fields[|fields| - 1].key);
      assert fields == init + [fields[|fields| - 1]];
    }
  }

  lemma DashIsReserved(key: string)
    ensures "- " <= key ==> Reserved(key)
  {
  }

  lemma {:induction false} KeptMembers(fields: seq<Field>, f: Field)
    requires f in Kept(fields)
    ensures exists i :: 0 <= i < |fields| && fields[i] == f && (i == 0 || !Reserved(f.key))
  {
    if |fields| <= 1 {
    } else if f in Kept(fields[..|fields| - 1]) {
      KeptMembers(fields[..|fields| - 1], f);
    } else {
      assert fields[|fields| - 1] == f;
    }
  }

  ghost predicate DistinctKeys(fields: seq<Field>) {
    forall i, j :: 0 <= i < j < |fields| ==> fields[i].key != fields[j].key
  }

  lemma KeptLosesReserved(fields: seq<Field>)
    requires DistinctKeys(fields) && RecordOf(Kept(fields)) == RecordOf(fields)
    ensures Plain(fields)
  {
    forall i | 1 <= i < |fields| ensures !Reserved(fields[i].key) {
      var key := fields[i].key;
      RecordKeys(fields, key);
      RecordKeys(Kept(fields), key);
      var j :| 0 <= j < |Kept(fields)| && Kept(fields)[j].key == key;
      KeptMembers(fields, Kept(fields)[j]);
    }
  }

  lemma HeadersIgnored(lines: seq<string>)
    ensures Run(START, ["version: 1", "exceptions:"] + lines) == Run(START, lines)
  {
    var headers := ["version: 1", "exceptions:"];
    StripPadded([], headers[0], []);
    StripPadded([], headers[1], []);
    assert [] + headers[0] + [] == headers[0] && [] + headers[1] + [] == headers[1];
    var all := headers + lines;
    assert all[0] == headers[0] && all[1..][0] == headers[1] && all[1..][1..] == lines;
  }

  lemma FieldLineIsSingle(indent: string, f: Field)
    requires Writable(f) && SingleLine(indent)
    ensures SingleLine(FieldLine(indent, f))
  {
    hide Trimmed;
  }

  lemma {:induction false} RecordLinesAreSingle(fields: seq<Field>, line: string)
    requires forall i :: 0 <= i < |fields| ==> Writable(fields[i])
    requires line in RecordLines(fields)
    ensures SingleLine(line)
  {
    hide Writable, FieldLine;
    var init := fields[..|fields| - 1];
    if line in RecordLines(init) { RecordLinesAreSingle(init, line); }
    else { FieldLineIsSingle(if |fields| == 1 then "  - " else "    ", fields[|fields| - 1]); }
  }

  lemma {:induction false} RecordsLinesAreSingle(records: seq<seq<Field>>, line: string)
    requires forall r :: r in records ==> WritableRecord(r)
    requires line in RecordsLines(records)
    ensures SingleLine(line)
  {
    hide Writable;
    var init, r := records[..|records| - 1], records[|records| - 1];
    assert r in records && WritableRecord(r) && forall x :: x in init ==> x in records;
    if line in RecordsLines(init) { RecordsLinesAreSingle(init, line); } else { RecordLinesAreSingle(r, line); }
  }

  /** The file for a list of records. */
  function RenderText(records: seq<seq<Field>>): string {
    TextOf(Render(records))
  }

  lemma RenderedTextParses(records: seq<seq<Field>>)
    requires forall r :: r in records ==> WritableRecord(r)
    ensures ParseText(RenderText(records)) == Parse(Render(records))
  {
    forall l | l in Render(records) ensures SingleLine(l) {
      if l in RecordsLines(records) { RecordsLinesAreSingle(records, l); }
    }
    TextParsesAsLines(Render(records));
  }

  /**
    Rendering a list of records to a file and parsing it back gives the same list, for all fields that
    fit on a line and all three ways to write a value, exactly when no key after the first of its
    record is one that the parser reserves.
   */
  lemma RoundTripExactly(records: seq<seq<Field>>)
    requires forall r :: r in records ==> WritableRecord(r) && DistinctKeys(r)
    ensures ParseText(RenderText(records)) == Some(RecordsOf(records)) <==> forall r :: r in records ==> Plain(r)
  {
    hide WritableRecord, DistinctKeys;
    RenderedTextParses(records);
    HeadersIgnored(RecordsLines(records));
    RunRecords(records);
    if forall r :: r in records ==> Plain(r) { NoDashes(records); }
    if Parse(Render(records)) == Some(RecordsOf(records)) {
      forall r | r in records ensures Plain(r) {
        var i :| 0 <= i < |records| && records[i] == r;
        assert RecordsOf(records)[i] == KeptRecords(records)[i];
        KeptLosesReserved(r);
      }
    }
  }

  /** Comments, blank lines and headers can stand anywhere. */
  lemma IgnoredLinesHaveNoEffect(before: seq<string>, raw: string, after: seq<string>)
    requires Ignored(raw)
    ensures Parse(before + [raw] + after) == Parse(before + after)
  {
    assert before + [raw] + after == before + ([raw] + after);
    RunConcat(START, before, [raw] + after);
    RunConcat(START, before, after);
    if st :| Run(START, before) == Some(st) {
      IgnoredStep(st, raw);
      assert ([raw] + after)[1..] == after;
    }
  }

  /** A dash alone on its line starts no record: the fields below it join the record above. */
  lemma BareDashIsIgnored(left: string, right: string)
    requires AllSpace(left) && AllSpace(right)
    ensures Ignored(left + "-" + right)
  {
    StripPadded(left, "-", right);
  }

  // ----- A dash on a line of its own -----

  /** The lines of a record, all of them below its dash. */
  function BelowDash(fields: seq<Field>): seq<string> {
    if fields == [] then [] else BelowDash(fields[..|fields| - 1]) + [FieldLine("    ", fields[|fields| - 1])]
  }

  function DashedLines(records: seq<seq<Field>>): seq<string> {
    if records == [] then []
    else DashedLines(records[..|records| - 1]) + ["  -"] + BelowDash(records[|records| - 1])
  }

  /** The same list with every dash on a line of its own. */
  function RenderDashed(records: seq<seq<Field>>): seq<string> {
    ["version: 1", "exceptions:"] + DashedLines(records)
  }

  ghost predicate NoDashKeys(fields: seq<Field>) {
    forall i :: 0 <= i < |fields| ==> Writable(fields[i]) && !("- " <= fields[i].key)
  }

  lemma {:induction false} BelowDashIgnored(fields: seq<Field>)
    requires NoDashKeys(fields)
    ensures Run(START, BelowDash(fields)) == Some(START)
  {
    if fields != [] {
      var init, f := fields[..|fields| - 1], fields[|fields| - 1];
      BelowDashIgnored(init);
      RunConcat(START, BelowDash(init), [FieldLine("    ", f)]);
      assert [FieldLine("    ", f)][1..] == [];
      FurtherStrips(f);
      DashIsInKey(f);
    }
  }

  lemma {:induction false} DashedIgnored(records: seq<seq<Field>>)
    requires forall r :: r in records ==> NoDashKeys(r)
    ensures Run(START, DashedLines(records)) == Some(START)
  {
    hide NoDashKeys, BelowDash, Step, Ignored;
    if records != [] {
      var init, r := records[..|records| - 1], records[|records| - 1];
      assert r in records && forall x :: x in init ==> x in records;
      DashedIgnored(init);
      RunConcat(START, DashedLines(init), ["  -"]);
      RunConcat(START, DashedLines(init) + ["  -"], BelowDash(r));
      BelowDashIgnored(r);
      BareDashStep();
      assert ["  -"][1..] == [];
    }
  }

  lemma BareDashStep()
    ensures Step(START, "  -") == Some(START)
  {
    hide Strip, IsSpace;
    BlankIsSpace();
    assert "  " + "-" + [] == "  -";
    BareDashIsIgnored("  ", []);
    IgnoredStep(START, "  -");
  }

  lemma {:induction false} BelowDashHolds(fields: seq<Field>, k: nat)
    requires k < |fields|
    ensures FieldLine("    ", fields[k]) in BelowDash(fields)
  {
    if k < |fields| - 1 { BelowDashHolds(fields[..|fields| - 1], k); }
  }

  /** That text does hold every field of every record, and the dashes. */
  lemma {:induction false} DashedHoldsAll(records: seq<seq<Field>>, i: nat, k: nat)
    requires i < |records| && k < |records[i]|
    ensures "  -" in RenderDashed(records) && FieldLine("    ", records[i][k]) in RenderDashed(records)
  {
    hide BelowDash;
    var n := |records| - 1;
    if i < n { DashedHoldsAll(records[..n], i, k); } else { BelowDashHolds(records[i], k); }
    assert RenderDashed(records) == ["version: 1", "exceptions:"] + DashedLines(records);
  }

  /**
    Written with every dash on a line of its own, a list of records is read back as the empty list: it
    comes back only when there are no records.
   */
  lemma DashedRecordsAreLost(records: seq<seq<Field>>)
    requires forall r :: r in records ==> NoDashKeys(r)
    ensures Parse(RenderDashed(records)) == Some([])
    ensures Parse(RenderDashed(records)) == Some(RecordsOf(records)) <==> records == []
  {
    HeadersIgnored(DashedLines(records));
    DashedIgnored(records);
    assert |RecordsOf(records)| == |records|;
  }
}
