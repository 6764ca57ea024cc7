/** Decimal numerals without leading zeros: the text captured by a numbered placeholder. */
module Numerals {

  predicate IsDigit(c: char) {
    '0' <= c <= '9'
  }

  function DigitValue(c: char): nat
    requires IsDigit(c)
  {
    c as int - '0' as int
  }

  predicate AllDigits(s: string) {
    forall i :: 0 <= i < |s| ==> IsDigit(s[i])
  }

  /** A non-empty run of digits that does not start with '0'. */
  predicate IsNumeral(s: string) {
    s != [] && AllDigits(s) && s[0] != '0'
  }

  type Numeral = s: string | IsNumeral(s) witness "1"

  function Value(s: string): nat
    requires AllDigits(s)
  {
    if s == [] then 0 else 10 * Value(s[..|s| - 1]) + DigitValue(s[|s| - 1])
  }

  lemma {:induction false} ValuePositive(s: Numeral)
    ensures Value(s) >= 1
  {
    if |s| > 1 {
      ValuePositive(s[..|s| - 1]);
    } else {
      assert s[..|s| - 1] == [];
    }
  }

  /** Distinct numerals denote distinct numbers, so counting numerals as text counts indices. */
  lemma {:induction false} ValueInjective(s: Numeral, t: Numeral)
    ensures Value(s) == Value(t) <==> s == t
  {
    if Value(s) == Value(t) {
      var s', t' := s[..|s| - 1], t[..|t| - 1];
      assert s == s' + [s[|s| - 1]] && t == t' + [t[|t| - 1]];
      assert Value(s') == Value(t');
      if |s| == 1 { assert s' == []; } else { ValuePositive(s'); }
      if |t| == 1 { assert t' == []; } else { ValuePositive(t'); }
      if |s| > 1 {
        ValueInjective(s', t');
      }
    }
  }

  function DigitChar(v: nat): (c: char)
    requires v < 10
    ensures IsDigit(c) && DigitValue(c) == v
  {
    (v + '0' as int) as char
  }

  /** The numeral of a positive number; with ValueInjective, the only one. */
  function Decimal(n: nat): (d: Numeral)
    requires n >= 1
    ensures Value(d) == n
  {
    if n < 10 then
      assert [DigitChar(n)][..0] == [];
      [DigitChar(n)]
    else
      var d := Decimal(n / 10) + [DigitChar(n % 10)];
      assert d[..|d| - 1] == Decimal(n / 10);
      d
  }
}
