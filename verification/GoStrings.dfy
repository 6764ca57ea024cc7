/**
  Go's string literals: what strconv.Unquote makes of their text, and what the rewrite of `$n` in that
  text does to it.
 */
module GoStrings {
  import opened Wrappers
  import opened Numerals
  import opened Placeholders

  // ----- Escapes -----

  /** The value of a hexadecimal digit; 16 for any other character. */
  function HexValue(c: char): nat {
    if '0' <= c <= '9' then c as int - '0' as int
    else if 'a' <= c <= 'f' then c as int - 'a' as int + 10
    else if 'A' <= c <= 'F' then c as int - 'A' as int + 10
    else 16
  }

  predicate AllBelow(digits: string, base: nat) {
    forall i :: 0 <= i < |digits| ==> HexValue(digits[i]) < base
  }

  function CodeOf(digits: string, base: nat): nat {
    if digits == [] then 0 else base * CodeOf(digits[..|digits| - 1], base) + HexValue(digits[|digits| - 1])
  }

  predicate IsRune(code: nat) {
    code < 0xD800 || 0xE000 <= code <= 0x10FFFF
  }

  /** A numeric escape with `n` digits behind `start`, up to a limit; its length and its character. */
  function Coded(s: string, start: nat, n: nat, base: nat, limit: nat): Option<(nat, char)> {
    if |s| < start + n || !AllBelow(s[start..start + n], base) then None
    else
      var code := CodeOf(s[start..start + n], base);
      if code <= limit && IsRune(code) then Some((start + n, code as char)) else None
  }

  /** The escapes with one letter; inside double quotes a single quote cannot be escaped. */
  function Letter(c: char): Option<char> {
    match c
    case 'a' => Some(7 as char)
    case 'b' => Some(8 as char)
    case 'f' => Some(12 as char)
    case 'n' => Some('\n')
    case 'r' => Some('\r')
    case 't' => Some('\t')
    case 'v' => Some(11 as char)
    case '\\' => Some('\\')
    case '"' => Some('"')
    case _ => None
  }

  /** The escape at the front of `s`, which starts with a backslash: its length and its character. */
  function EscapeAt(s: string): Option<(nat, char)> {
    if |s| < 2 then None
    else if Letter(s[1]).Some? then Some((2, Letter(s[1]).value))
    else if s[1] == 'x' then Coded(s, 2, 2, 16, 255)
    else if s[1] == 'u' then Coded(s, 2, 4, 16, 0x10FFFF)
    else if s[1] == 'U' then Coded(s, 2, 8, 16, 0x10FFFF)
    else Coded(s, 1, 3, 8, 255)
  }

  lemma CodedIsLocal(s: string, start: nat, n: nat, base: nat, limit: nat, t: string)
    requires base <= 16 && start <= |s| && '$' !in s[..start] && Coded(s, start, n, base, limit).Some?
    ensures var (len, c) := Coded(s, start, n, base, limit).value;
      && len == start + n <= |s| && '$' !in s[..len]
      && Coded(s[..len] + t, start, n, base, limit) == Some((len, c))
  {
    var len := start + n;
    assert (s[..len] + t)[start..len] == s[start..len];
    forall i | 0 <= i < len ensures s[i] != '$' {
      if i < start { assert s[i] in s[..start]; } else { assert HexValue(s[start..len][i - start]) < base; }
    }
  }

  /** An escape is recognised by its own characters alone, and none of them is a dollar sign. */
  lemma EscapeIsLocal(s: string, t: string)
    requires s != [] && s[0] == '\\' && EscapeAt(s).Some?
    ensures var (n, c) := EscapeAt(s).value;
      2 <= n <= |s| && '$' !in s[..n] && EscapeAt(s[..n] + t) == Some((n, c))
  {
    hide CodeOf, AllBelow;
    assert '$' !in s[..1];
    if Letter(s[1]).Some? {
      assert (s[..2] + t)[1] == s[1];
    } else if s[1] == 'x' || s[1] == 'u' || s[1] == 'U' {
      assert '$' !in s[..2];
      var n := if s[1] == 'x' then 2 else if s[1] == 'u' then 4 else 8;
      CodedIsLocal(s, 2, n, 16, if s[1] == 'x' then 255 else 0x10FFFF, t);
      assert (s[..2 + n] + t)[1] == s[1];
    } else {
      CodedIsLocal(s, 1, 3, 8, 255, t);
      assert (s[..4] + t)[1] == s[1];
    }
  }

  /** The letters that can stand behind a backslash, and what they mean. */
  lemma LettersExactly(c: char, v: char)
    ensures EscapeAt(['\\', c]) == Some((2, v)) <==>
      (c, v) in {('a', 7 as char), ('b', 8 as char), ('t', 9 as char), ('n', 10 as char), ('v', 11 as char),
                 ('f', 12 as char), ('r', 13 as char), ('\\', '\\'), ('"', '"')}
  {
  }

  /** The digits of a number, in lower or upper case, filled up with zeros to `n` places. */
  ghost function Digits(code: nat, base: nat, n: nat, upper: bool): string
    requires 2 <= base <= 16
  {
    if n == 0 then [] else Digits(code / base, base, n - 1, upper) + [DigitOf(code % base, upper)]
  }

  ghost function DigitOf(d: nat, upper: bool): char
    requires d < 16
  {
    if upper then "0123456789ABCDEF"[d] else "0123456789abcdef"[d]
  }

  lemma DigitOfValue(d: nat, upper: bool)
    requires d < 16
    ensures HexValue(DigitOf(d, upper)) == d
  {
    assert d in {0, 1, 2, 3, 4, 5, 6, 7, 8, 9, 10, 11, 12, 13, 14, 15};
  }

  /** Nothing else is a hexadecimal digit. */
  lemma HexDigitsExactly(c: char)
    ensures HexValue(c) < 16 <==> exists d, upper :: 0 <= d < 16 && c == DigitOf(d, upper)
  {
    if HexValue(c) < 16 {
      DigitOfValue(HexValue(c), true);
      DigitOfValue(HexValue(c), false);
      assert c == DigitOf(HexValue(c), 'A' <= c <= 'F');
    }
    if d, upper :| 0 <= d < 16 && c == DigitOf(d, upper) { DigitOfValue(d, upper); }
  }

  ghost function Power(base: nat, n: nat): nat {
    if n == 0 then 1 else base * Power(base, n - 1)
  }

  lemma {:induction false} CodeOfDigits(code: nat, base: nat, n: nat, upper: bool)
    requires 2 <= base <= 16 && code < Power(base, n)
    ensures var s := Digits(code, base, n, upper); |s| == n && AllBelow(s, base) && CodeOf(s, base) == code
  {
    hide HexValue, DigitOf, CodeOf, AllBelow, Power, Digits;
    if n > 0 {
      var q, d := LastDigit(code, base, n, upper);
      CodeOfDigits(q, base, n - 1, upper);
      CodeOfNextDigit(Digits(q, base, n - 1, upper), d, base, upper);
    } else {
      CodeOfNone(code, base, upper);
    }
  }

  lemma LastDigit(code: nat, base: nat, n: nat, upper: bool) returns (q: nat, d: nat)
    requires 2 <= base <= 16 && n > 0 && code < Power(base, n)
    ensures d < base && q < Power(base, n - 1) && code == base * q + d
    ensures Digits(code, base, n, upper) == Digits(q, base, n - 1, upper) + [DigitOf(d, upper)]
  {
    q, d := code / base, code % base;
    QuotientBelow(code, base, Power(base, n - 1));
  }

  lemma CodeOfNextDigit(s: string, d: nat, base: nat, upper: bool)
    requires AllBelow(s, base) && d < base <= 16
    ensures var t := s + [DigitOf(d, upper)]; AllBelow(t, base) && CodeOf(t, base) == base * CodeOf(s, base) + d
  {
    hide DigitOf;
    DigitOfValue(d, upper);
    CodeOfNext(s, DigitOf(d, upper), base);
  }

  lemma CodeOfNone(code: nat, base: nat, upper: bool)
    requires 2 <= base <= 16 && code < Power(base, 0)
    ensures code == 0 && Digits(code, base, 0, upper) == [] && AllBelow([], base) && CodeOf([], base) == 0
  {
  }

  lemma CodeOfNext(s: string, c: char, base: nat)
    requires AllBelow(s, base) && HexValue(c) < base
    ensures AllBelow(s + [c], base) && CodeOf(s + [c], base) == base * CodeOf(s, base) + HexValue(c)
  {
    assert (s + [c])[..|s|] == s;
  }

  lemma QuotientBelow(code: nat, base: nat, p: nat)
    requires 0 < base && code < base * p
    ensures code / base < p && code == base * (code / base) + code % base
  {
    if code / base >= p {
      MoreTimes(base, p, code / base);
      assert false;
    }
  }

  lemma MoreTimes(base: nat, p: nat, q: nat)
    requires p <= q
    ensures base * p <= base * q
  {
  }

  /** A code that an escape of a given form can express, as a character. */
  ghost function Meant(code: nat, limit: nat, n: nat): Option<(nat, char)> {
    if code <= limit && (code < 0xD800 || 0xE000 <= code <= 0x10FFFF) then Some((n, code as char)) else None
  }

  lemma CodedDigits(head: string, code: nat, n: nat, base: nat, limit: nat, upper: bool)
    requires 2 <= base <= 16 && code < Power(base, n)
    ensures Coded(head + Digits(code, base, n, upper), |head|, n, base, limit) == Meant(code, limit, |head| + n)
  {
    CodeOfDigits(code, base, n, upper);
    var s := head + Digits(code, base, n, upper);
    assert s[|head|..|head| + n] == Digits(code, base, n, upper);
  }

  /**
    A numeric escape stands for the character with its code: two hexadecimal digits, four, or eight, or
    three octal digits. Octal escapes end at 255, and surrogates have none.
   */
  lemma NumericEscapes(code: nat, upper: bool)
    ensures code < 0x100 ==> EscapeAt("\\x" + Digits(code, 16, 2, upper)) == Meant(code, 255, 4)
    ensures code < 0x1_0000 ==> EscapeAt("\\u" + Digits(code, 16, 4, upper)) == Meant(code, 0x10FFFF, 6)
    ensures code < 0x1_0000_0000 ==> EscapeAt("\\U" + Digits(code, 16, 8, upper)) == Meant(code, 0x10FFFF, 10)
    ensures code < 0x200 ==> EscapeAt("\\" + Digits(code, 8, 3, upper)) == Meant(code, 255, 4)
  {
    hide CodeOf, AllBelow, Digits, Meant, Coded, IsRune, Power;
    Powers();
    if code < 0x100 { CodedDigits("\\x", code, 2, 16, 255, upper); }
    if code < 0x1_0000 { CodedDigits("\\u", code, 4, 16, 0x10FFFF, upper); }
    if code < 0x1_0000_0000 { CodedDigits("\\U", code, 8, 16, 0x10FFFF, upper); }
    if code < 0x200 {
      CodedDigits("\\", code, 3, 8, 255, upper);
      OctalIsNoLetter(code, upper);
    }
  }

  lemma Powers()
    ensures Power(16, 2) == 0x100 && Power(16, 4) == 0x1_0000 && Power(16, 8) == 0x1_0000_0000 && Power(8, 3) == 0x200
  {
    assert Power(16, 1) == 16 && Power(16, 3) == 0x1000 && Power(16, 5) == 0x10_0000;
    assert Power(16, 6) == 0x100_0000 && Power(16, 7) == 0x1000_0000;
    assert Power(8, 1) == 8 && Power(8, 2) == 64;
  }

  lemma OctalIsNoLetter(code: nat, upper: bool)
    requires code < 0x200
    ensures var s := Digits(code, 8, 3, upper); |s| == 3 && Letter(s[0]).None? && s[0] !in {'x', 'u', 'U'}
  {
    hide CodeOf;
    Powers();
    CodeOfDigits(code, 8, 3, upper);
  }

  // ----- Units -----

  /** What the body of a literal consists of: characters that stand for themselves, and escapes. */
  datatype Unit = Plain(c: char) | Escape(text: string, c: char)

  function UnitText(u: Unit): string {
    if u.Plain? then [u.c] else u.text
  }

  function TextOf(us: seq<Unit>): string {
    if us == [] then [] else UnitText(us[0]) + TextOf(us[1..])
  }

  function CharsOf(us: seq<Unit>): (s: string)
    ensures |s| == |us| && forall i :: 0 <= i < |us| ==> s[i] == us[i].c
  {
    if us == [] then [] else [us[0].c] + CharsOf(us[1..])
  }

  /** The units of a body between double quotes. */
  function UnitsOf(body: string): Option<seq<Unit>>
    decreases |body|
  {
    if body == [] then Some([])
    else if body[0] in {'"', '\n'} then None
    else if body[0] != '\\' then Before(Plain(body[0]), UnitsOf(body[1..]))
    else
      var e := EscapeAt(body);
      if e.None? then None
      else
        EscapeIsLocal(body, []);
        Before(Escape(body[..e.value.0], e.value.1), UnitsOf(body[e.value.0..]))
  }

  function Before(u: Unit, rest: Option<seq<Unit>>): Option<seq<Unit>> {
    if rest.None? then None else Some([u] + rest.value)
  }

  /** A raw literal without its carriage returns, which Go discards. */
  function Drop(s: string): (t: string)
    ensures |t| <= |s| && '\r' !in t
  {
    if s == [] then [] else (if s[0] == '\r' then [] else [s[0]]) + Drop(s[1..])
  }

  /** strconv.Unquote on the text of a string literal. */
  function Unquote(text: string): Option<string> {
    if |text| < 2 || text[0] != text[|text| - 1] then None
    else
      var body := text[1..|text| - 1];
      if text[0] == '`' then if '`' in body then None else Some(Drop(body))
      else if text[0] != '"' || UnitsOf(body).None? then None
      else Some(CharsOf(UnitsOf(body).value))
  }

  predicate IsUnit(u: Unit) {
    if u.Plain? then u.c !in {'"', '\n', '\\'}
    else u.text != [] && u.text[0] == '\\' && '$' !in u.text && EscapeAt(u.text) == Some((|u.text|, u.c))
  }

  predicate AreUnits(us: seq<Unit>) {
    forall i :: 0 <= i < |us| ==> IsUnit(us[i])
  }

  lemma {:induction false} UnitsOfText(us: seq<Unit>)
    requires AreUnits(us)
    ensures UnitsOf(TextOf(us)) == Some(us)
  {
    if us != [] {
      var u, rest := us[0], us[1..];
      UnitsOfText(rest);
      var t := TextOf(us);
      assert us == [u] + rest && IsUnit(u);
      if u.Plain? {
        assert t[1..] == TextOf(rest);
      } else {
        assert u.text[..|u.text|] == u.text;
        EscapeIsLocal(u.text, TextOf(rest));
        assert t[..|u.text|] == u.text && t[|u.text|..] == TextOf(rest);
      }
    }
  }

  lemma {:induction false} TextOfUnits(body: string)
    requires UnitsOf(body).Some?
    ensures AreUnits(UnitsOf(body).value) && TextOf(UnitsOf(body).value) == body
    decreases |body|
  {
    if body != [] {
      var us := UnitsOf(body).value;
      if body[0] != '\\' {
        TextOfUnits(body[1..]);
        assert us[1..] == UnitsOf(body[1..]).value;
      } else {
        EscapeIsLocal(body, []);
        var n := EscapeAt(body).value.0;
        TextOfUnits(body[n..]);
        assert us[1..] == UnitsOf(body[n..]).value;
        assert body[..n] + [] == body[..n] && body == body[..n] + body[n..];
      }
    }
  }

  // ----- The rewrite of the text -----

  predicate IsPlainDigit(u: Unit) {
    u.Plain? && IsDigit(u.c)
  }

  function PlainDigits(us: seq<Unit>): (n: nat)
    ensures n <= |us|
    ensures forall i :: 0 <= i < n ==> IsPlainDigit(us[i])
    ensures n < |us| ==> !IsPlainDigit(us[n])
  {
    if us == [] || !IsPlainDigit(us[0]) then 0
    else
      var n := PlainDigits(us[1..]);
      assert forall i :: 1 <= i < n + 1 ==> us[i] == us[1..][i - 1];
      assert n + 1 < |us| ==> us[n + 1] == us[1..][n];
      n + 1
  }

  /** A placeholder that is written without escapes. */
  predicate StartsPlain(us: seq<Unit>) {
    |us| >= 2 && us[0] == Plain('$') && us[1].Plain? && '1' <= us[1].c <= '9'
  }

  function PlainLength(us: seq<Unit>): (n: nat)
    requires StartsPlain(us)
    ensures 2 <= n <= |us|
  {
    1 + PlainDigits(us[1..])
  }

  /** What the rewrite of a literal's text makes of its units. */
  function RewriteUnits(us: seq<Unit>): seq<Unit> {
    if us == [] then []
    else if StartsPlain(us) then [Plain('?')] + RewriteUnits(us[PlainLength(us)..])
    else [us[0]] + RewriteUnits(us[1..])
  }

  lemma {:induction false} RewriteUnitsAreUnits(us: seq<Unit>)
    requires AreUnits(us)
    ensures AreUnits(RewriteUnits(us))
  {
    if us != [] {
      if StartsPlain(us) { RewriteUnitsAreUnits(us[PlainLength(us)..]); } else { RewriteUnitsAreUnits(us[1..]); }
    }
  }

  lemma {:induction false} DigitsOfText(us: seq<Unit>)
    requires AreUnits(us)
    ensures DigitRun(TextOf(us)) == PlainDigits(us)
  {
    if us != [] {
      assert IsUnit(us[0]);
      if us[0].Plain? {
        assert TextOf(us)[1..] == TextOf(us[1..]);
        DigitsOfText(us[1..]);
      } else {
        assert TextOf(us)[0] == '\\';
      }
    }
  }

  lemma {:induction false} TextBehindPlain(us: seq<Unit>, n: nat)
    requires n <= |us| && forall i :: 0 <= i < n ==> us[i].Plain?
    ensures n <= |TextOf(us)| && TextOf(us)[n..] == TextOf(us[n..])
  {
    if n > 0 {
      TextBehindPlain(us[1..], n - 1);
      assert TextOf(us)[1..] == TextOf(us[1..]);
      assert TextOf(us)[n..] == TextOf(us[1..])[n - 1..] && us[1..][n - 1..] == us[n..];
    }
  }

  lemma StartOfText(us: seq<Unit>)
    requires AreUnits(us) && us != [] && us[0].Plain?
    ensures StartsPlaceholder(TextOf(us)) <==> StartsPlain(us)
    ensures StartsPlain(us) ==>
      PlaceholderLength(TextOf(us)) == PlainLength(us) && TextOf(us)[PlainLength(us)..] == TextOf(us[PlainLength(us)..])
  {
    var t, rest := TextOf(us), us[1..];
    assert t[0] == us[0].c && t[1..] == TextOf(rest);
    if rest != [] {
      assert IsUnit(us[1]);
      assert t[1] == if us[1].Plain? then us[1].c else '\\';
    }
    if StartsPlain(us) {
      DigitsOfText(rest);
      var n := PlainDigits(rest);
      forall i | 0 <= i < 1 + n ensures us[i].Plain? { assert i > 0 ==> us[i] == rest[i - 1]; }
      TextBehindPlain(us, 1 + n);
    }
  }

  /** Rewriting the text of a literal rewrites its units, and leaves the escapes whole. */
  lemma {:induction false} RewriteOfText(us: seq<Unit>)
    requires AreUnits(us)
    ensures Rewrite(TextOf(us)) == TextOf(RewriteUnits(us))
  {
    if us == [] {
    } else if us[0].Escape? {
      RewriteOfText(us[1..]);
      assert IsUnit(us[0]);
      DollarFreeRewrite(us[0].text, TextOf(us[1..]));
      assert ([us[0]] + RewriteUnits(us[1..]))[1..] == RewriteUnits(us[1..]);
    } else {
      StartOfText(us);
      if StartsPlain(us) {
        var rest := us[PlainLength(us)..];
        RewriteOfText(rest);
        assert ([Plain('?')] + RewriteUnits(rest))[1..] == RewriteUnits(rest);
      } else {
        RewriteOfText(us[1..]);
        assert TextOf(us)[1..] == TextOf(us[1..]) && TextOf(us)[0] == us[0].c;
        assert ([us[0]] + RewriteUnits(us[1..]))[1..] == RewriteUnits(us[1..]);
      }
    }
  }

  // ----- Against the rewrite of the value -----

  /** A placeholder at the front of the value is written without escapes. */
  ghost predicate Whole(us: seq<Unit>) {
    StartsPlaceholder(CharsOf(us)) ==> AllPlain(us, PlaceholderLength(CharsOf(us)))
  }

  ghost predicate AllPlain(us: seq<Unit>, n: nat) {
    forall k :: 0 <= k < n && k < |us| ==> us[k].Plain?
  }

  /** No placeholder of the value is written with an escape. */
  ghost predicate Intact(us: seq<Unit>) {
    forall i :: 0 <= i <= |us| ==> Whole(us[i..])
  }

  lemma CharsFrom(us: seq<Unit>, n: nat)
    requires n <= |us|
    ensures CharsOf(us[n..]) == CharsOf(us)[n..]
  {
  }

  lemma IntactShift(us: seq<Unit>, n: nat)
    requires n <= |us| && forall i :: 0 <= i < n ==> Whole(us[i..])
    ensures Intact(us) <==> Intact(us[n..])
  {
    hide Whole;
    var vs := us[n..];
    if Intact(us) {
      forall i | 0 <= i <= |vs| ensures Whole(vs[i..]) { assert vs[i..] == us[i + n..]; }
    }
    if Intact(vs) {
      forall i | 0 <= i <= |us| ensures Whole(us[i..]) {
        if i >= n { assert us[i..] == vs[i - n..]; }
      }
    }
  }

  lemma {:induction false} DigitUnitsKept(us: seq<Unit>, k: nat)
    requires k <= |us| && forall i :: 0 <= i < k ==> IsDigit(us[i].c)
    ensures RewriteUnits(us) == us[..k] + RewriteUnits(us[k..])
  {
    if k > 0 {
      DigitUnitsKept(us[1..], k - 1);
      assert us[1..][k - 1..] == us[k..] && us[..k] == [us[0]] + us[1..][..k - 1];
    }
  }

  lemma DigitsWithin(s: string)
    requires StartsPlaceholder(s)
    ensures forall i :: 1 <= i < PlaceholderLength(s) ==> IsDigit(s[i])
  {
    var n := PlaceholderLength(s);
    forall i | 1 <= i < n ensures IsDigit(s[i]) { assert IsDigit(s[..n][1..][i - 1]); }
  }

  lemma {:induction false} PlaceholderChars(us: seq<Unit>)
    requires StartsPlaceholder(CharsOf(us))
    ensures var n := PlaceholderLength(CharsOf(us));
      && us[0].c == '$' && (forall i :: 1 <= i < n ==> IsDigit(us[i].c)) && (n < |us| ==> !IsDigit(us[n].c))
  {
    hide CharsOf, IsPlaceholder, IsDigit, PlaceholderLength;
    var s := CharsOf(us);
    var n := PlaceholderLength(s);
    DigitsWithin(s);
    assert s[0] == us[0].c;
    assert n < |us| ==> s[n] == us[n].c;
    forall i | 1 <= i < n ensures IsDigit(us[i].c) { assert s[i] == us[i].c; }
  }

  lemma PlainPrefix(us: seq<Unit>)
    requires StartsPlain(us)
    ensures forall i :: 0 <= i < PlainLength(us) ==> us[i].Plain?
  {
    forall i | 1 <= i < PlainLength(us) ensures us[i].Plain? { assert IsPlainDigit(us[1..][i - 1]); }
  }

  /** Units that make up the end of a placeholder are kept when its front is gone or broken. */
  lemma EndKept(us: seq<Unit>, m: nat, n: nat)
    requires 1 <= m <= n <= |us| && forall i :: 1 <= i < n ==> IsDigit(us[i].c)
    ensures |RewriteUnits(us[m..])| == n - m + |RewriteUnits(us[n..])|
  {
    var vs := us[m..];
    forall i | 0 <= i < n - m ensures IsDigit(vs[i].c) { assert vs[i] == us[m + i]; }
    DigitUnitsKept(vs, n - m);
    assert vs[n - m..] == us[n..];
  }

  /** An escape inside a placeholder keeps some of its characters in the text. */
  lemma BrokenPlaceholder(us: seq<Unit>)
    requires StartsPlaceholder(CharsOf(us)) && !AllPlain(us, PlaceholderLength(CharsOf(us)))
    ensures |RewriteUnits(us)| >= 2 + |RewriteUnits(us[PlaceholderLength(CharsOf(us))..])|
  {
    hide IsPlaceholder, StartsPlaceholder, CharsOf, StartsPlain, PlainLength;
    PlaceholderChars(us);
    var n := PlaceholderLength(CharsOf(us));
    if StartsPlain(us) {
      PlainPrefix(us);
      EndKept(us, PlainLength(us), n);
    } else {
      EndKept(us, 1, n);
    }
  }

  lemma {:induction false} WholePlaceholder(us: seq<Unit>)
    requires StartsPlaceholder(CharsOf(us)) && AllPlain(us, PlaceholderLength(CharsOf(us)))
    ensures StartsPlain(us) && PlainLength(us) == PlaceholderLength(CharsOf(us))
  {
    PlaceholderChars(us);
    var n, m := PlaceholderLength(CharsOf(us)), PlainLength(us);
    assert forall i :: 1 <= i < |us| ==> us[i] == us[1..][i - 1];
    assert m < |us| ==> !IsPlainDigit(us[m]);
  }

  lemma NoStartWithin(s: string, i: nat)
    requires StartsPlaceholder(s) && 0 < i < PlaceholderLength(s)
    ensures !StartsPlaceholder(s[i..])
  {
    assert IsDigit(s[..PlaceholderLength(s)][1..][i - 1]);
  }

  lemma IntactBehindPlaceholder(us: seq<Unit>)
    requires StartsPlaceholder(CharsOf(us)) && AllPlain(us, PlaceholderLength(CharsOf(us)))
    ensures Intact(us) <==> Intact(us[PlaceholderLength(CharsOf(us))..])
  {
    hide AllPlain, IsPlaceholder;
    var n := PlaceholderLength(CharsOf(us));
    assert us[0..] == us;
    forall i | 0 <= i < n ensures Whole(us[i..]) {
      if i > 0 {
        NoStartWithin(CharsOf(us), i);
        CharsFrom(us, i);
      }
    }
    IntactShift(us, n);
  }

  lemma {:induction false} IntactBehindCharacter(us: seq<Unit>)
    requires us != [] && !StartsPlaceholder(CharsOf(us))
    ensures Intact(us) <==> Intact(us[1..])
  {
    assert us[0..] == us;
    IntactShift(us, 1);
  }

  /**
    Rewriting the text of a literal and rewriting its value come to the same exactly when no
    placeholder of the value is written with an escape; otherwise too much is left.
   */
  lemma {:induction false} RewriteUnitsExactly(us: seq<Unit>)
    ensures CharsOf(RewriteUnits(us)) == Rewrite(CharsOf(us)) <==> Intact(us)
    ensures |RewriteUnits(us)| >= |Rewrite(CharsOf(us))|
    ensures |RewriteUnits(us)| == |Rewrite(CharsOf(us))| ==> Intact(us)
  {
    hide Intact, IsPlaceholder, StartsPlaceholder, StartsPlain, AllPlain, PlainLength;
    var s := CharsOf(us);
    if us == [] {
      NothingIsIntact();
    } else if StartsPlaceholder(s) {
      var n := PlaceholderLength(s);
      var rest := us[n..];
      CharsFrom(us, n);
      RewriteUnitsExactly(rest);
      assert Rewrite(s) == "?" + Rewrite(CharsOf(rest));
      if AllPlain(us, n) {
        WholePlaceholder(us);
        IntactBehindPlaceholder(us);
        CharsBehind(Plain('?'), RewriteUnits(rest), Rewrite(CharsOf(rest)));
      } else {
        BrokenPlaceholder(us);
        NotIntactAtFront(us);
      }
    } else {
      CharsFrom(us, 1);
      RewriteUnitsExactly(us[1..]);
      IntactBehindCharacter(us);
      PlainIsPlaceholder(us);
      CharsBehind(us[0], RewriteUnits(us[1..]), Rewrite(CharsOf(us[1..])));
    }
  }

  lemma NothingIsIntact()
    ensures Intact([])
  {
  }

  lemma NotIntactAtFront(us: seq<Unit>)
    requires StartsPlaceholder(CharsOf(us)) && !AllPlain(us, PlaceholderLength(CharsOf(us)))
    ensures !Intact(us)
  {
    assert us[0..] == us;
  }

  lemma PlainIsPlaceholder(us: seq<Unit>)
    ensures StartsPlain(us) ==> StartsPlaceholder(CharsOf(us))
  {
  }

  lemma CharsBehind(u: Unit, us: seq<Unit>, s: string)
    ensures CharsOf([u] + us) == [u.c] + s <==> CharsOf(us) == s
  {
    assert CharsOf([u] + us) == [u.c] + CharsOf(us);
    assert ([u.c] + s)[1..] == s && ([u.c] + CharsOf(us))[1..] == CharsOf(us);
  }

  // ----- Raw literals -----

  /** A placeholder of the value that begins here stands in the text as it is, without carriage returns in it. */
  ghost predicate Contiguous(s: string) {
    StartsPlaceholder(Drop(s)) ==> StartsPlaceholder(s) && PlaceholderLength(s) == PlaceholderLength(Drop(s))
  }

  /** No placeholder of the value of a raw literal has a carriage return inside it. */
  ghost predicate Unbroken(body: string) {
    forall i :: 0 <= i < |body| && body[i] == '$' ==> Contiguous(body[i..])
  }

  lemma {:induction false} DropConcat(a: string, b: string)
    ensures Drop(a + b) == Drop(a) + Drop(b)
  {
    if a == [] {
      assert a + b == b;
    } else {
      assert (a + b)[0] == a[0] && (a + b)[1..] == a[1..] + b;
      DropConcat(a[1..], b);
    }
  }

  lemma {:induction false} DropNothing(s: string)
    requires '\r' !in s
    ensures Drop(s) == s
  {
    if s != [] {
      assert s[0] in s && forall c :: c in s[1..] ==> c in s;
      DropNothing(s[1..]);
    }
  }

  lemma {:induction false} DropMembers(s: string, c: char)
    ensures c in Drop(s) <==> c in s && c != '\r'
  {
    if s != [] {
      DropMembers(s[1..], c);
      assert s == [s[0]] + s[1..];
    }
  }

  /** Where the first `n` characters of the value end in the text. */
  lemma {:induction false} EndInText(s: string, n: nat) returns (p: nat)
    requires n <= |Drop(s)|
    ensures n <= p <= |s| && Drop(s[..p]) == Drop(s)[..n] && Drop(s[p..]) == Drop(s)[n..]
  {
    hide Drop;
    if n == |Drop(s)| {
      p := |s|;
      assert s[..p] == s && s[p..] == [];
      DropNothing([]);
    } else {
      var init, last := s[..|s| - 1], [s[|s| - 1]];
      assert s == init + last;
      DropConcat(init, last);
      p := EndInText(init, n);
      assert s[..p] == init[..p] && s[p..] == init[p..] + last;
      DropConcat(init[p..], last);
    }
  }

  lemma PlaceholderHasDigits(s: string)
    requires StartsPlaceholder(s)
    ensures forall c :: c in s[..PlaceholderLength(s)][1..] ==> IsDigit(c)
    ensures s[..PlaceholderLength(s)] == "$" + s[..PlaceholderLength(s)][1..]
  {
  }

  /** A placeholder of the text is at least the front of a placeholder of the value. */
  lemma {:induction false} TextPlaceholder(s: string)
    requires StartsPlaceholder(s)
    ensures StartsPlaceholder(Drop(s)) && PlaceholderLength(Drop(s)) >= PlaceholderLength(s)
    ensures Drop(s[..PlaceholderLength(s)]) == s[..PlaceholderLength(s)]
    ensures Drop(s) == s[..PlaceholderLength(s)] + Drop(s[PlaceholderLength(s)..])
  {
    var n := PlaceholderLength(s);
    PlaceholderHasDigits(s);
    var w := s[..n];
    forall c | c in w ensures c != '\r' {
      if c != '$' { assert c in w[1..]; }
    }
    DropNothing(w);
    assert s == w + s[n..];
    DropConcat(w, s[n..]);
    var t := Drop(s);
    assert t[0] == w[0] && t[1] == w[1] && s[1] == w[1];
    LongEnough(t, w);
  }

  lemma LongEnough(t: string, w: string)
    requires StartsPlaceholder(t) && w <= t && |w| >= 1 && forall c :: c in w[1..] ==> IsDigit(c)
    ensures PlaceholderLength(t) >= |w|
  {
    forall i | 1 <= i < |w| ensures IsDigit(t[i]) { assert w[1..][i - 1] == t[i]; }
  }

  /** A placeholder that is broken in the text leaves one of its digits behind, or is missed altogether. */
  lemma {:induction false} BrokenRaw(s: string, p: nat)
    requires s != [] && s[0] == '$' && StartsPlaceholder(Drop(s)) && !Contiguous(s)
    requires p <= |s| && Drop(s[..p]) == Drop(s)[..PlaceholderLength(Drop(s))]
    ensures |Drop(Rewrite(s))| >= 2 + |Drop(Rewrite(s[p..]))|
  {
    var n := PlaceholderLength(Drop(s));
    if StartsPlaceholder(s) {
      TextPlaceholder(s);
      var m := PlaceholderLength(s);
      BrokenEnd(s, p, m);
      assert Rewrite(s) == "?" + Rewrite(s[m..]);
      DropConcat("?", Rewrite(s[m..]));
      DropNothing("?");
    } else {
      BrokenEnd(s, p, 1);
      assert Rewrite(s) == [s[0]] + Rewrite(s[1..]);
      DropConcat([s[0]], Rewrite(s[1..]));
      DropNothing([s[0]]);
    }
  }

  /** The end of a broken placeholder holds no dollar sign, so it is copied. */
  lemma {:induction false} BrokenEnd(s: string, p: nat, m: nat)
    requires s != [] && s[0] == '$' && StartsPlaceholder(Drop(s))
    requires p <= |s| && Drop(s[..p]) == Drop(s)[..PlaceholderLength(Drop(s))]
    requires 1 <= m <= |s| && Drop(s[..m]) == s[..m] && m < PlaceholderLength(Drop(s))
    ensures m < p && |Drop(Rewrite(s[m..]))| >= 1 + |Drop(Rewrite(s[p..]))|
  {
    hide Drop, Rewrite, StartsPlaceholder;
    var n := PlaceholderLength(Drop(s));
    assert |Drop(s[..p])| == n;
    if p <= m { DropPrefix(s, p, m); }
    var w := s[m..p];
    assert s[..p] == s[..m] + w;
    DropConcat(s[..m], w);
    EndIsDigits(s, p, m);
    assert s[m..] == w + s[p..];
    DollarFreeRewrite(w, s[p..]);
    DropConcat(w, Rewrite(s[p..]));
  }

  lemma DropPrefix(s: string, p: nat, m: nat)
    requires p <= m <= |s|
    ensures |Drop(s[..p])| <= |Drop(s[..m])|
  {
    assert s[..m] == s[..p] + s[p..m];
    DropConcat(s[..p], s[p..m]);
  }

  lemma {:induction false} EndIsDigits(s: string, p: nat, m: nat)
    requires s != [] && s[0] == '$' && StartsPlaceholder(Drop(s))
    requires 1 <= m < p <= |s| && Drop(s[..p]) == Drop(s)[..PlaceholderLength(Drop(s))]
    ensures '$' !in s[m..p]
  {
    hide Drop, StartsPlaceholder, IsPlaceholder;
    var v := s[1..p];
    assert s[..p] == ['$'] + v;
    DropConcat(['$'], v);
    DropNothing(['$']);
    PlaceholderHasDigits(Drop(s));
    assert Drop(s[..p])[1..] == Drop(v);
    NoDollarInText(v);
    assert s[m..p] == v[m - 1..];
  }

  lemma NoDollarInText(v: string)
    requires forall c :: c in Drop(v) ==> IsDigit(c)
    ensures '$' !in v
  {
    DropMembers(v, '$');
  }

  lemma UnbrokenShift(s: string, n: nat)
    requires n <= |s|
    requires forall i :: 0 <= i < n && s[i] == '$' ==> Contiguous(s[i..])
    ensures Unbroken(s) <==> Unbroken(s[n..])
  {
    hide Contiguous;
    var t := s[n..];
    if Unbroken(s) {
      forall i | 0 <= i < |t| && t[i] == '$' ensures Contiguous(t[i..]) { assert t[i..] == s[i + n..] && s[i + n] == '$'; }
    }
    if Unbroken(t) {
      forall i | 0 <= i < |s| && s[i] == '$' ensures Contiguous(s[i..]) {
        if i >= n { assert s[i..] == t[i - n..] && t[i - n] == '$'; }
      }
    }
  }

  /**
    For raw literals: dropping the carriage returns of the rewritten text gives the rewritten value
    exactly when no placeholder of the value has one inside it; otherwise too much is left.
   */
  lemma {:induction false} RewriteRawExactly(s: string)
    ensures Drop(Rewrite(s)) == Rewrite(Drop(s)) <==> Unbroken(s)
    ensures |Drop(Rewrite(s))| >= |Rewrite(Drop(s))|
    ensures |Drop(Rewrite(s))| == |Rewrite(Drop(s))| ==> Unbroken(s)
    decreases |s|
  {
    if s == [] {
    } else if s[0] != '$' || !StartsPlaceholder(Drop(s)) {
      RewriteRawExactly(s[1..]);
      RawCharacter(s);
    } else if Contiguous(s) {
      RewriteRawExactly(s[PlaceholderLength(s)..]);
      RawPlaceholder(s);
    } else {
      var p := EndInText(s, PlaceholderLength(Drop(s)));
      RewriteRawExactly(s[p..]);
      BrokenRaw(s, p);
      assert s[0..] == s && !Unbroken(s);
      assert Rewrite(Drop(s)) == "?" + Rewrite(Drop(s)[PlaceholderLength(Drop(s))..]);
    }
  }

  lemma {:induction false} RawCharacter(s: string)
    requires s != [] && (s[0] != '$' || !StartsPlaceholder(Drop(s)))
    ensures Unbroken(s) <==> Unbroken(s[1..])
    ensures var c := if s[0] == '\r' then [] else [s[0]];
      Drop(Rewrite(s)) == c + Drop(Rewrite(s[1..])) && Rewrite(Drop(s)) == c + Rewrite(Drop(s[1..]))
  {
    hide Unbroken, Drop, Rewrite, IsPlaceholder;
    assert s[0..] == s;
    if StartsPlaceholder(s) { TextPlaceholder(s); }
    UnbrokenShift(s, 1);
    CharacterOfText(s);
    CharacterOfValue(s);
  }

  lemma CharacterOfText(s: string)
    requires s != [] && !StartsPlaceholder(s)
    ensures Drop(Rewrite(s)) == (if s[0] == '\r' then [] else [s[0]]) + Drop(Rewrite(s[1..]))
  {
    hide StartsPlaceholder;
    assert Rewrite(s) == [s[0]] + Rewrite(s[1..]);
    assert ([s[0]] + Rewrite(s[1..]))[1..] == Rewrite(s[1..]);
  }

  lemma {:induction false} CharacterOfValue(s: string)
    requires s != [] && (s[0] != '$' || !StartsPlaceholder(Drop(s)))
    ensures Rewrite(Drop(s)) == (if s[0] == '\r' then [] else [s[0]]) + Rewrite(Drop(s[1..]))
  {
    hide IsPlaceholder;
    var t := Drop(s[1..]);
    assert Drop(s) == (if s[0] == '\r' then [] else [s[0]]) + t;
    assert ([s[0]] + t)[1..] == t && [] + t == t && [] + Rewrite(t) == Rewrite(t);
  }

  lemma RawPlaceholder(s: string)
    requires s != [] && s[0] == '$' && StartsPlaceholder(Drop(s)) && Contiguous(s)
    ensures var n := PlaceholderLength(s);
      && (Unbroken(s) <==> Unbroken(s[n..]))
      && Drop(Rewrite(s)) == "?" + Drop(Rewrite(s[n..]))
      && Rewrite(Drop(s)) == "?" + Rewrite(Drop(s[n..]))
  {
    hide Unbroken;
    var n := PlaceholderLength(s);
    TextPlaceholder(s);
    DigitsWithin(s);
    assert s[0..] == s;
    UnbrokenShift(s, n);
    DropConcat("?", Rewrite(s[n..]));
    DropNothing("?");
    assert Drop(s)[n..] == Drop(s[n..]);
  }
}
