/**
  The rewrite of dynamically numbered placeholders, which keeps the `%d` verb inside a comment, and
  the algebra it forms with the rewrite of module Placeholders.
 */
module DynamicRewrite {
  import opened Wrappers
  import opened Numerals
  import opened Placeholders

  /** bytes.ReplaceAll for a non-empty word: leftmost, non-overlapping occurrences. */
  function ReplaceAll(s: string, word: string, repl: string): string
    requires word != []
    decreases |s|
  {
    if s == [] then []
    else if word <= s then repl + ReplaceAll(s[|word|..], word, repl)
    else [s[0]] + ReplaceAll(s[1..], word, repl)
  }

  ghost predicate Contains(s: string, word: string) {
    exists i :: 0 <= i <= |s| && word <= s[i..]
  }

  const VERB := "$%d"
  const MARKED := "?/*%d*/"

  /** The rewrite-dynamic mode. */
  function RewriteDynamic(s: string): string {
    ReplaceAll(s, VERB, MARKED)
  }

  /** The replacement in the other direction. */
  function RestoreDynamic(s: string): string {
    ReplaceAll(s, MARKED, VERB)
  }

  // ----- Replacing one word by another -----

  /** The first character of each word occurs nowhere else in the two words. */
  predicate Separated(word: string, repl: string) {
    && word != [] && repl != []
    && word[0] !in repl && word[0] !in word[1..]
    && repl[0] !in word && repl[0] !in repl[1..]
  }

  lemma PrefixByHead(a: string, b: string)
    requires a != [] && b != []
    ensures a <= b <==> a[0] == b[0] && a[1..] <= b[1..]
  {
    assert a == [a[0]] + a[1..] && b == [b[0]] + b[1..];
  }

  /** A front free of both first characters is untouched by the replacement. */
  lemma {:induction false} FrontKept(s: string, word: string, repl: string, front: string)
    requires word != [] && repl != []
    requires word[0] !in front && repl[0] !in front
    ensures front <= ReplaceAll(s, word, repl) <==> front <= s
  {
    if front != [] && s != [] {
      PrefixByHead(front, s);
      PrefixByHead(front, ReplaceAll(s, word, repl));
      assert front[0] in front;
      if !(word <= s) {
        assert forall c :: c in front[1..] ==> c in front;
        FrontKept(s[1..], word, repl, front[1..]);
      }
    }
  }

  lemma {:induction false} NoneLeft(s: string, word: string, repl: string, i: nat)
    requires Separated(word, repl)
    requires i <= |ReplaceAll(s, word, repl)|
    ensures !(word <= ReplaceAll(s, word, repl)[i..])
    decreases |s|
  {
    var r := ReplaceAll(s, word, repl);
    if s == [] {
    } else if word <= s {
      var rest := s[|word|..];
      if i < |repl| {
        assert r[i..][0] == repl[i];
      } else {
        assert r[i..] == ReplaceAll(rest, word, repl)[i - |repl|..];
        NoneLeft(rest, word, repl, i - |repl|);
      }
    } else if i == 0 {
      FrontKept(s[1..], word, repl, word[1..]);
      assert word == [word[0]] + word[1..] && s == [s[0]] + s[1..];
      assert r[0..] == [s[0]] + ReplaceAll(s[1..], word, repl);
    } else {
      assert r[i..] == ReplaceAll(s[1..], word, repl)[i - 1..];
      NoneLeft(s[1..], word, repl, i - 1);
    }
  }

  lemma ContainsInRest(s: string, word: string, k: nat)
    requires k <= |s|
    ensures Contains(s[k..], word) ==> Contains(s, word)
  {
    if i :| 0 <= i <= |s[k..]| && word <= s[k..][i..] { assert s[k + i..] == s[k..][i..]; }
  }

  lemma {:induction false} NothingToReplace(s: string, word: string, repl: string)
    requires word != [] && !Contains(s, word)
    ensures ReplaceAll(s, word, repl) == s
  {
    if s != [] {
      assert s[0..] == s;
      ContainsInRest(s, word, 1);
      NothingToReplace(s[1..], word, repl);
    }
  }

  lemma {:induction false} ReplaceBack(s: string, word: string, repl: string)
    requires Separated(word, repl) && !Contains(s, repl)
    ensures ReplaceAll(ReplaceAll(s, word, repl), repl, word) == s
    decreases |s|
  {
    if s == [] {
    } else if word <= s {
      var rest := s[|word|..];
      ContainsInRest(s, repl, |word|);
      ReplaceBack(rest, word, repl);
      assert (repl + ReplaceAll(rest, word, repl))[|repl|..] == ReplaceAll(rest, word, repl);
      assert s == word + rest;
    } else {
      var rest := s[1..];
      ContainsInRest(s, repl, 1);
      ReplaceBack(rest, word, repl);
      assert s[0..] == s;
      ReplaceBackStep(s, word, repl);
    }
  }

  lemma {:induction false} ReplaceBackStep(s: string, word: string, repl: string)
    requires Separated(word, repl) && s != [] && !(word <= s) && !(repl <= s)
    ensures var r := ReplaceAll(s[1..], word, repl);
      ReplaceAll(ReplaceAll(s, word, repl), repl, word) == [s[0]] + ReplaceAll(r, repl, word)
  {
    var rest := s[1..];
    var r := ReplaceAll(rest, word, repl);
    if repl <= [s[0]] + r {
      PrefixByHead(repl, [s[0]] + r);
      PrefixByHead(repl, s);
      FrontKept(rest, word, repl, repl[1..]);
    }
    assert ([s[0]] + r)[1..] == r;
  }

  // ----- The laws -----

  /** The dynamic rewrite leaves nothing to rewrite, so running it again changes nothing. */
  lemma DynamicIdempotent(s: string)
    ensures !Contains(RewriteDynamic(s), VERB)
    ensures RewriteDynamic(RewriteDynamic(s)) == RewriteDynamic(s)
  {
    forall i | 0 <= i <= |RewriteDynamic(s)| ensures !(VERB <= RewriteDynamic(s)[i..]) {
      NoneLeft(s, VERB, MARKED, i);
    }
    NothingToReplace(RewriteDynamic(s), VERB, MARKED);
  }

  /** The reverse replacement undoes it on exactly the texts that did not hold the marked form already. */
  lemma DynamicUndoneExactly(s: string)
    ensures RestoreDynamic(RewriteDynamic(s)) == s <==> !Contains(s, MARKED)
  {
    if !Contains(s, MARKED) { ReplaceBack(s, VERB, MARKED); }
    var r := RestoreDynamic(RewriteDynamic(s));
    forall i | 0 <= i <= |r| ensures !(MARKED <= r[i..]) { NoneLeft(RewriteDynamic(s), MARKED, VERB, i); }
  }

  lemma {:induction false} UncapturedIsFixed(s: string)
    requires Captures(s) == []
    ensures Rewrite(s) == s
  {
    if s != [] { UncapturedIsFixed(s[1..]); }
  }

  lemma RewriteHead(s: string)
    ensures s == [] <==> Rewrite(s) == []
    ensures s != [] ==> Rewrite(s)[0] == if StartsPlaceholder(s) then '?' else s[0]
  {
  }

  lemma {:induction false} RewriteLeavesNoMatch(s: string)
    ensures Captures(Rewrite(s)) == []
  {
    if s == [] {
    } else if StartsPlaceholder(s) {
      var rest := s[PlaceholderLength(s)..];
      RewriteLeavesNoMatch(rest);
      assert Rewrite(s)[1..] == Rewrite(rest);
    } else {
      RewriteLeavesNoMatch(s[1..]);
      RewriteHead(s[1..]);
      assert Rewrite(s)[1..] == Rewrite(s[1..]);
    }
  }

  /** The numbered rewrite leaves nothing to rewrite either. */
  lemma RewriteIdempotent(s: string)
    ensures Captures(Rewrite(s)) == [] && Rewrite(Rewrite(s)) == Rewrite(s)
  {
    RewriteLeavesNoMatch(s);
    UncapturedIsFixed(Rewrite(s));
  }

  lemma {:induction false} DollarFreeFront(front: string, rest: string)
    requires '$' !in front
    ensures Rewrite(front + rest) == front + Rewrite(rest)
    ensures RewriteDynamic(front + rest) == front + RewriteDynamic(rest)
  {
    if front == [] {
      assert front + rest == rest;
    } else {
      DollarFreeRewrite(front, rest);
      assert (front + rest)[0] == front[0] != VERB[0];
      assert (front + rest)[1..] == front[1..] + rest;
      DollarFreeFront(front[1..], rest);
    }
  }

  lemma PlaceholderLengthIs(t: string, n: nat)
    requires n <= |t| && IsPlaceholder(t[..n])
    requires n < |t| ==> !IsDigit(t[n])
    ensures StartsPlaceholder(t) && PlaceholderLength(t) == n
  {
    assert t[..n][1..][0] == t[1] && IsDigit(t[..n][1..][0]);
    var m := PlaceholderLength(t);
    forall k | 1 <= k < n ensures IsDigit(t[k]) { assert IsDigit(t[..n][1..][k - 1]); }
    forall k | 1 <= k < m ensures IsDigit(t[k]) { assert IsDigit(t[..m][1..][k - 1]); }
  }

  lemma RewriteVerb(rest: string)
    ensures Rewrite(VERB + rest) == VERB + Rewrite(rest)
  {
    var t := VERB + rest;
    assert t[1] == '%' && t[1..] == "%d" + rest;
    DollarFreeFront("%d", rest);
  }

  /** The mode in plain words: text without a dollar sign stays, and each `$%d` becomes `?` with the verb in a comment. */
  lemma {:induction false} VerbIsMarked(front: string, rest: string)
    requires '$' !in front
    ensures RewriteDynamic(front) == front
    ensures RewriteDynamic(front + "$%d" + rest) == front + "?/*%d*/" + RewriteDynamic(rest)
  {
    var s := front + "$%d" + rest;
    if front == [] {
      assert s == VERB + rest && s[3..] == rest;
    } else {
      assert front[0] in front && s[0] == front[0] && s[1..] == front[1..] + "$%d" + rest;
      assert forall c :: c in front[1..] ==> c in front;
      VerbIsMarked(front[1..], rest);
    }
  }

  /** The numbered rewrite neither makes nor breaks a front without `$`, `?` and digits. */
  lemma {:induction false} RewriteFrontKept(s: string, front: string)
    requires '$' !in front && '?' !in front
    ensures front <= Rewrite(s) <==> front <= s
  {
    if front != [] && s != [] {
      PrefixByHead(front, s);
      PrefixByHead(front, Rewrite(s));
      assert front[0] in front;
      if !StartsPlaceholder(s) {
        assert forall c :: c in front[1..] ==> c in front;
        RewriteFrontKept(s[1..], front[1..]);
      }
    }
  }

  /** The two modes can run in either order. */
  lemma {:induction false} RewritesCommute(s: string)
    ensures Rewrite(RewriteDynamic(s)) == RewriteDynamic(Rewrite(s))
    decreases |s|
  {
    if s == [] {
    } else if VERB <= s {
      var rest := s[3..];
      assert s == VERB + rest;
      RewritesCommute(rest);
      RewriteVerb(rest);
      assert RewriteDynamic(VERB + Rewrite(rest)) == MARKED + RewriteDynamic(Rewrite(rest)) by {
        assert (VERB + Rewrite(rest))[3..] == Rewrite(rest);
      }
      DollarFreeFront(MARKED, RewriteDynamic(rest));
    } else if StartsPlaceholder(s) {
      CommutePastPlaceholder(s);
      RewritesCommute(s[PlaceholderLength(s)..]);
    } else {
      CommutePastCharacter(s);
      RewritesCommute(s[1..]);
    }
  }

  lemma CommutePastPlaceholder(s: string)
    requires StartsPlaceholder(s)
    ensures var rest := s[PlaceholderLength(s)..];
      && Rewrite(RewriteDynamic(s)) == "?" + Rewrite(RewriteDynamic(rest))
      && RewriteDynamic(Rewrite(s)) == "?" + RewriteDynamic(Rewrite(rest))
  {
    var n := PlaceholderLength(s);
    var digits, rest := s[..n][1..], s[n..];
    assert s[1..] == digits + rest;
    forall i | 0 <= i < |digits| ensures digits[i] != '$' { assert IsDigit(digits[i]); }
    DollarFreeFront(digits, rest);
    assert !(VERB <= s) by { assert s[1] != '%'; }
    var d := RewriteDynamic(s);
    assert d == [s[0]] + (digits + RewriteDynamic(rest)) == s[..n] + RewriteDynamic(rest);
    assert d[..n] == s[..n] && d[n..] == RewriteDynamic(rest);
    assert rest != [] ==> RewriteDynamic(rest)[0] in {rest[0], '?'};
    PlaceholderLengthIs(d, n);
    DollarFreeFront("?", Rewrite(rest));
  }

  lemma CommutePastCharacter(s: string)
    requires s != [] && !(VERB <= s) && !StartsPlaceholder(s)
    ensures Rewrite(RewriteDynamic(s)) == [s[0]] + Rewrite(RewriteDynamic(s[1..]))
    ensures RewriteDynamic(Rewrite(s)) == [s[0]] + RewriteDynamic(Rewrite(s[1..]))
  {
    var rest := s[1..];
    var d, r := RewriteDynamic(rest), Rewrite(rest);
    assert rest != [] ==> d[0] in {rest[0], '?'};
    assert rest == [] ==> d == [];
    assert ([s[0]] + d)[1..] == d && ([s[0]] + r)[1..] == r;
    assert s == [s[0]] + rest && VERB == ['$'] + "%d";
    RewriteFrontKept(rest, "%d");
    assert VERB <= [s[0]] + r ==> "%d" <= r;
  }

  // ----- Format directives -----

  predicate IsFlag(c: char) {
    c in {'+', '-', '#', ' ', '0'}
  }

  function FlagsLength(s: string): (n: nat)
    ensures n <= |s|
  {
    if s == [] || !IsFlag(s[0]) then 0 else 1 + FlagsLength(s[1..])
  }

  /** The length of a width or precision: a star or digits. */
  function NumberLength(s: string): (n: nat)
    ensures n <= |s|
  {
    if s != [] && s[0] == '*' then 1 else DigitRun(s)
  }

  function PrecisionLength(s: string): (n: nat)
    ensures n <= |s|
  {
    if s == [] || s[0] != '.' then 0 else 1 + NumberLength(s[1..])
  }

  /** The flags, width and precision between a percent sign and its verb. */
  function ModifiersLength(s: string): (n: nat)
    ensures n <= |s|
  {
    var f := FlagsLength(s);
    var w := NumberLength(s[f..]);
    f + w + PrecisionLength(s[f + w..])
  }

  /** A directive; without a verb at the end of the text. */
  datatype Directive = Directive(modifiers: string, verb: Option<char>)

  /** The directives that fmt finds in a format text, in order. */
  function Directives(s: string): seq<Directive>
    decreases |s|
  {
    if s == [] then []
    else if s[0] != '%' then Directives(s[1..])
    else
      var n := 1 + ModifiersLength(s[1..]);
      if n == |s| then [Directive(s[1..], None)]
      else [Directive(s[1..n], Some(s[n]))] + Directives(s[n + 1..])
  }

  /** Flags, and a width or precision, as fmt has them. */
  ghost predicate IsFlags(s: string) {
    forall c :: c in s ==> c in {'+', '-', '#', ' ', '0'}
  }

  ghost predicate IsNumber(s: string) {
    s == "*" || AllDigits(s)
  }

  ghost predicate IsPrecision(s: string) {
    s == [] || (s[0] == '.' && IsNumber(s[1..]))
  }

  /** The character behind the modifiers is the verb. */
  ghost predicate IsVerb(c: char) {
    c !in {'+', '-', '#', ' ', '*', '.', '0', '1', '2', '3', '4', '5', '6', '7', '8', '9'}
  }

  lemma {:induction false} FlagsParsed(flags: string, rest: string)
    requires IsFlags(flags) && (rest != [] ==> rest[0] !in {'+', '-', '#', ' ', '0'})
    ensures FlagsLength(flags + rest) == |flags|
  {
    if flags == [] {
      assert flags + rest == rest;
    } else {
      assert flags[0] in flags && (flags + rest)[1..] == flags[1..] + rest;
      assert forall c :: c in flags[1..] ==> c in flags;
      FlagsParsed(flags[1..], rest);
    }
  }

  lemma {:induction false} DigitsParsed(s: string, rest: string)
    requires AllDigits(s) && (rest != [] ==> !IsDigit(rest[0]))
    ensures DigitRun(s + rest) == |s|
  {
    if s == [] {
      assert s + rest == rest;
    } else {
      assert (s + rest)[1..] == s[1..] + rest;
      DigitsParsed(s[1..], rest);
    }
  }

  lemma NumberParsed(s: string, rest: string)
    requires IsNumber(s) && (rest != [] ==> !IsDigit(rest[0]) && rest[0] != '*')
    ensures NumberLength(s + rest) == |s|
  {
    if s != "*" { DigitsParsed(s, rest); }
  }

  lemma ModifiersParsed(flags: string, width: string, precision: string, t: string)
    requires IsFlags(flags) && IsNumber(width) && (width != [] ==> width[0] != '0') && IsPrecision(precision)
    requires t != [] && IsVerb(t[0])
    ensures var m := flags + width + precision; ModifiersLength(m + t) == |m|
  {
    hide FlagsLength, NumberLength, PrecisionLength, IsNumber, IsPrecision, IsFlags;
    var s := flags + width + precision + t;
    assert s == flags + (width + precision + t) && width + precision + t == width + (precision + t);
    assert s[|flags|..] == width + (precision + t) && s[|flags| + |width|..] == precision + t;
    NoFlagBehind(width, precision, t);
    FlagsParsed(flags, width + precision + t);
    NumberParsed(width, precision + t);
    PrecisionParsed(precision, t);
  }

  lemma NoFlagBehind(width: string, precision: string, t: string)
    requires IsNumber(width) && (width != [] ==> width[0] != '0') && IsPrecision(precision)
    requires t != [] && IsVerb(t[0])
    ensures (width + precision + t)[0] !in {'+', '-', '#', ' ', '0'}
    ensures !IsDigit((precision + t)[0]) && (precision + t)[0] != '*'
  {
  }

  lemma PrecisionParsed(precision: string, t: string)
    requires IsPrecision(precision) && t != [] && IsVerb(t[0])
    ensures PrecisionLength(precision + t) == |precision|
  {
    if precision != [] {
      NumberParsed(precision[1..], t);
      assert (precision + t)[1..] == precision[1..] + t;
    }
  }

  /** A directive is parsed as it is written: flags, width, precision, verb. */
  lemma DirectiveParsed(flags: string, width: string, precision: string, verb: char, rest: string)
    requires IsFlags(flags) && IsNumber(width) && (width != [] ==> width[0] != '0') && IsPrecision(precision) && IsVerb(verb)
    ensures var m := flags + width + precision;
      Directives("%" + m + [verb] + rest) == [Directive(m, Some(verb))] + Directives(rest)
  {
    hide ModifiersLength;
    var m := flags + width + precision;
    var s := "%" + m + [verb] + rest;
    ModifiersParsed(flags, width, precision, [verb] + rest);
    assert s[1..] == m + ([verb] + rest);
    assert s[1..1 + |m|] == m && s[1 + |m|] == verb && s[2 + |m|..] == rest;
  }

  /** The same directive, except that an invalid verb `$` has become the invalid verb `?`. */
  predicate SameDirective(a: Directive, b: Directive) {
    a.modifiers == b.modifiers && (a.verb == b.verb || (a.verb == Some('$') && b.verb == Some('?')))
  }

  predicate SameDirectives(a: seq<Directive>, b: seq<Directive>) {
    |a| == |b| && forall i :: 0 <= i < |a| ==> SameDirective(a[i], b[i])
  }

  /** No modifier starts here. */
  predicate Stops(s: string) {
    s != [] ==> !IsFlag(s[0]) && !IsDigit(s[0]) && s[0] != '*' && s[0] != '.'
  }

  /** The same next character, or one that is no modifier. */
  predicate SameNext(t: string, t': string) {
    Stops(t') || (t != [] && t' != [] && t[0] == t'[0])
  }

  lemma {:induction false} FlagsLocal(m: string, t: string, t': string)
    requires SameNext(t, t')
    ensures FlagsLength(m + t) <= |m| ==> FlagsLength(m + t') == FlagsLength(m + t)
  {
    if m == [] {
      assert m + t == t && m + t' == t';
    } else {
      assert (m + t)[1..] == m[1..] + t && (m + t')[1..] == m[1..] + t';
      FlagsLocal(m[1..], t, t');
    }
  }

  lemma {:induction false} DigitsLocal(m: string, t: string, t': string)
    requires SameNext(t, t')
    ensures DigitRun(m + t) <= |m| ==> DigitRun(m + t') == DigitRun(m + t)
  {
    if m == [] {
      assert m + t == t && m + t' == t';
    } else {
      assert (m + t)[1..] == m[1..] + t && (m + t')[1..] == m[1..] + t';
      DigitsLocal(m[1..], t, t');
    }
  }

  lemma NumberLocal(m: string, t: string, t': string)
    requires SameNext(t, t') && NumberLength(m + t) <= |m|
    ensures NumberLength(m + t') == NumberLength(m + t)
  {
    DigitsLocal(m, t, t');
    if m == [] { assert m + t == t && m + t' == t'; }
  }

  lemma PrecisionLocal(m: string, t: string, t': string)
    requires SameNext(t, t') && PrecisionLength(m + t) <= |m|
    ensures PrecisionLength(m + t') == PrecisionLength(m + t)
  {
    if m == [] {
      assert m + t == t && m + t' == t';
    } else {
      assert (m + t)[1..] == m[1..] + t && (m + t')[1..] == m[1..] + t';
      if m[0] == '.' { NumberLocal(m[1..], t, t'); }
    }
  }

  /** Modifiers are found by their own characters and the one behind them. */
  lemma ModifiersLocal(m: string, t: string, t': string)
    requires SameNext(t, t') && ModifiersLength(m + t) == |m|
    ensures ModifiersLength(m + t') == |m|
  {
    hide FlagsLength, NumberLength, PrecisionLength, SameNext;
    var s, s' := m + t, m + t';
    var f := FlagsLength(s);
    FlagsLocal(m, t, t');
    assert s[f..] == m[f..] + t && s'[f..] == m[f..] + t';
    var w := NumberLength(s[f..]);
    NumberLocal(m[f..], t, t');
    assert s[f + w..] == m[f + w..] + t && s'[f + w..] == m[f + w..] + t';
    PrecisionLocal(m[f + w..], t, t');
  }

  lemma {:induction false} FlagChars(s: string, i: nat)
    requires i < FlagsLength(s)
    ensures IsFlag(s[i])
  {
    if i > 0 { FlagChars(s[1..], i - 1); }
  }

  lemma ModifierChars(s: string)
    ensures '$' !in s[..ModifiersLength(s)]
  {
    hide FlagsLength, DigitRun;
    var f := FlagsLength(s);
    var w := NumberLength(s[f..]);
    forall i | 0 <= i < ModifiersLength(s) ensures s[i] != '$' {
      if i < f { FlagChars(s, i); }
      else if i < f + w { NumberChars(s[f..], i - f); }
      else {
        assert s[i] == s[f + w..][i - f - w];
        if i > f + w {
          assert s[f + w..][1..][i - f - w - 1] == s[i];
          NumberChars(s[f + w..][1..], i - f - w - 1);
        }
      }
    }
  }

  lemma NumberChars(s: string, i: nat)
    requires i < NumberLength(s)
    ensures s[i] != '$'
  {
    if s[0] != '*' { assert IsDigit(s[..DigitRun(s)][i]); }
  }

  lemma {:induction false} DirectivesSkip(front: string, rest: string)
    requires '%' !in front
    ensures Directives(front + rest) == Directives(rest)
  {
    if front == [] {
      assert front + rest == rest;
    } else {
      assert front[0] in front && (front + rest)[0] == front[0] && (front + rest)[1..] == front[1..] + rest;
      DirectivesSkip(front[1..], rest);
    }
  }

  /** The verb that the rewrite moves into a comment is found on both sides. */
  lemma DirectivesOfVerb(rest: string, rest': string)
    requires SameDirectives(Directives(rest), Directives(rest'))
    ensures SameDirectives(Directives("%d" + rest), Directives("/*%d*/" + rest'))
  {
    hide Directives, SameDirectives;
    assert "/*%d*/" + rest' == "/*" + ("%d" + ("*/" + rest'));
    DirectivesSkip("/*", "%d" + ("*/" + rest'));
    DirectivesSkip("*/", rest');
    VerbAtFront(rest);
    VerbAtFront("*/" + rest');
    var x := Directive("", Some('d'));
    SameBehind(x, Directives(rest), x, Directives(rest'));
  }

  lemma SameBehind(x: Directive, a: seq<Directive>, y: Directive, b: seq<Directive>)
    requires SameDirective(x, y)
    ensures SameDirectives([x] + a, [y] + b) <==> SameDirectives(a, b)
  {
    if SameDirectives([x] + a, [y] + b) {
      forall i | 0 <= i < |a| ensures SameDirective(a[i], b[i]) {
        assert SameDirective(([x] + a)[i + 1], ([y] + b)[i + 1]);
      }
    }
  }

  lemma VerbAtFront(rest: string)
    ensures Directives("%d" + rest) == [Directive("", Some('d'))] + Directives(rest)
  {
    var s := "%d" + rest;
    assert s[1..] == "d" + rest && ("d" + rest)[0..] == "d" + rest && s[2..] == rest && s[1..1] == "";
    assert DigitRun("d" + rest) == 0;
  }

  /**
    The dynamic rewrite keeps every directive and their order, so the same arguments feed the same
    verbs: only the invalid verb `$` can become the invalid verb `?`.
   */
  lemma {:induction false} DynamicKeepsVerbs(s: string)
    ensures SameDirectives(Directives(s), Directives(RewriteDynamic(s)))
    decreases |s|, 1
  {
    if s == [] {
    } else if VERB <= s {
      DynamicKeepsVerbs(s[3..]);
      AtVerb(s);
      DirectivesSkip("$", s[1..]);
      assert s == "$" + s[1..];
      DirectivesSkip("?", RewriteDynamic(s)[1..]);
      assert RewriteDynamic(s) == "?" + RewriteDynamic(s)[1..];
    } else if s[0] != '%' {
      DynamicKeepsVerbs(s[1..]);
      assert RewriteDynamic(s)[1..] == RewriteDynamic(s[1..]);
    } else {
      KeepsAfterPercent(s);
    }
  }

  lemma AtVerb(s: string)
    requires VERB <= s
    requires SameDirectives(Directives(s[3..]), Directives(RewriteDynamic(s[3..])))
    ensures RewriteDynamic(s) != [] && s[0] == '$' && RewriteDynamic(s)[0] == '?'
    ensures SameDirectives(Directives(s[1..]), Directives(RewriteDynamic(s)[1..]))
  {
    var rest := s[3..];
    assert RewriteDynamic(s) == MARKED + RewriteDynamic(rest) == "?" + ("/*%d*/" + RewriteDynamic(rest));
    assert RewriteDynamic(s)[1..] == "/*%d*/" + RewriteDynamic(rest);
    assert s[1..] == "%d" + rest;
    DirectivesOfVerb(rest, RewriteDynamic(rest));
  }

  lemma {:induction false} KeepsAfterPercent(s: string)
    requires s != [] && s[0] == '%'
    ensures SameDirectives(Directives(s), Directives(RewriteDynamic(s)))
    decreases |s|, 0
  {
    hide ModifiersLength, Directives, SameDirectives, SameNext, RewriteDynamic;
    var m := s[1..1 + ModifiersLength(s[1..])];
    var t := s[1 + |m|..];
    assert s[1..] == m + t && s == "%" + m + t;
    ModifierChars(s[1..]);
    DollarFreeFront("%" + m, t);
    var t' := RewriteDynamic(t);
    NextKept(t);
    ModifiersLocal(m, t, t');
    AtPercent(m, t);
    AtPercent(m, t');
    if t == [] {
      SameAlone(Directive(m, None));
    } else {
      if VERB <= t {
        DynamicKeepsVerbs(t[3..]);
        AtVerb(t);
      } else {
        DynamicKeepsVerbs(t[1..]);
      }
      SameBehind(Directive(m, Some(t[0])), Directives(t[1..]), Directive(m, Some(t'[0])), Directives(t'[1..]));
    }
  }

  lemma SameAlone(x: Directive)
    ensures SameDirectives([x], [x])
  {
  }

  lemma {:induction false} AtPercent(m: string, t: string)
    requires ModifiersLength(m + t) == |m|
    ensures Directives("%" + m + t) ==
      if t == [] then [Directive(m, None)] else [Directive(m, Some(t[0]))] + Directives(t[1..])
  {
    hide ModifiersLength;
    var s := "%" + m + t;
    assert s[1..] == m + t && s[1..1 + |m|] == m;
    if t == [] {
      assert s[1..] == m;
    } else {
      assert s[1 + |m|] == t[0] && s[|m| + 2..] == t[1..];
    }
  }

  lemma NextKept(t: string)
    ensures t == [] <==> RewriteDynamic(t) == []
    ensures t != [] && !(VERB <= t) ==> RewriteDynamic(t)[0] == t[0]
    ensures t != [] && !(VERB <= t) ==> RewriteDynamic(t)[1..] == RewriteDynamic(t[1..])
    ensures SameNext(t, RewriteDynamic(t))
  {
    assert VERB <= t ==> RewriteDynamic(t)[0] == '?';
  }
}
