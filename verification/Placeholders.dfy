/**
  Numbered SQL placeholders `$n`: the scanner behind the regular expression `\$([1-9][0-9]*)`,
  the rewrite to positional `?`, and the two ways a driver binds arguments to a text.
 */
module Placeholders {
  import opened Wrappers
  import opened Numerals

  /** The regular expression as a set of words. */
  ghost predicate IsPlaceholder(w: string) {
    |w| >= 2 && w[0] == '$' && IsNumeral(w[1..])
  }

  predicate StartsPlaceholder(s: string) {
    |s| >= 2 && s[0] == '$' && '1' <= s[1] <= '9'
  }

  /** The number of digits at the front of `s`. */
  function DigitRun(s: string): (n: nat)
    ensures n <= |s|
    ensures AllDigits(s[..n])
    ensures n < |s| ==> !IsDigit(s[n])
  {
    if s == [] || !IsDigit(s[0]) then 0
    else
      var n := DigitRun(s[1..]);
      assert forall i :: 1 <= i <= n ==> s[i] == s[1..][..n][i - 1];
      assert n + 1 < |s| ==> s[n + 1] == s[1..][n];
      1 + n
  }

  /** The length of the placeholder at the front of `s`; the digits are taken greedily. */
  function PlaceholderLength(s: string): (n: nat)
    requires StartsPlaceholder(s)
    ensures 2 <= n <= |s|
    ensures IsPlaceholder(s[..n])
    ensures n < |s| ==> !IsDigit(s[n])
  {
    var n := 1 + DigitRun(s[1..]);
    assert s[..n][1..] == s[1..][..n - 1];
    assert n < |s| ==> s[n] == s[1..][n - 1];
    n
  }

  datatype Match = Match(start: nat, digits: Numeral) {
    function End(): nat {
      start + 1 + |digits|
    }
  }

  /** All matches in `s` from position `from` on, scanned left to right. */
  function FindAll(s: string, from: nat): (ms: seq<Match>)
    requires from <= |s|
    ensures ms != [] ==> from <= ms[0].start < ms[0].End() <= |s|
    decreases |s| - from
  {
    if from == |s| then []
    else if StartsPlaceholder(s[from..]) then
      var n := PlaceholderLength(s[from..]);
      [Match(from, s[from..][..n][1..])] + FindAll(s, from + n)
    else FindAll(s, from + 1)
  }

  /**
    Leftmost, non-overlapping search with greedy digits, which for this expression means the longest
    match: each match is a word of the language, no longer word starts where it starts, and no word
    starts between the end of one match (or the origin of the search) and the start of the next.
   */
  ghost predicate IsMatchList(s: string, from: nat, ms: seq<Match>)
    decreases ms
  {
    && from <= |s|
    && if ms == [] then NoWordStarts(s, from, |s|)
       else
         && from <= ms[0].start < ms[0].End() <= |s|
         && NoWordStarts(s, from, ms[0].start)
         && s[ms[0].start..ms[0].End()] == "$" + ms[0].digits
         && IsPlaceholder(s[ms[0].start..ms[0].End()])
         && (forall j :: ms[0].End() < j <= |s| ==> !IsPlaceholder(s[ms[0].start..j]))
         && IsMatchList(s, ms[0].End(), ms[1..])
  }

  ghost predicate NoWordStarts(s: string, lo: nat, hi: nat)
    requires hi <= |s|
  {
    forall i, j :: lo <= i < hi && i <= j <= |s| ==> !IsPlaceholder(s[i..j])
  }

  lemma WordStarts(s: string, i: nat, j: nat)
    requires i <= j <= |s| && IsPlaceholder(s[i..j])
    ensures StartsPlaceholder(s[i..])
  {
    var w := s[i..j];
    assert w[1..][0] == w[1] == s[i..][1] && w[0] == s[i..][0];
    assert IsDigit(w[1..][0]);
  }

  lemma LongestWord(s: string, i: nat)
    requires i <= |s| && StartsPlaceholder(s[i..])
    ensures var n := PlaceholderLength(s[i..]);
      && i + n <= |s|
      && IsPlaceholder(s[i..i + n])
      && s[i..i + n] == s[i..][..n] == "$" + s[i..][..n][1..]
      && forall j :: i + n < j <= |s| ==> !IsPlaceholder(s[i..j])
  {
    var n := PlaceholderLength(s[i..]);
    assert s[i..i + n] == s[i..][..n];
    forall j | i + n < j <= |s| ensures !IsPlaceholder(s[i..j]) {
      assert s[i..j][1..][n - 1] == s[i..][n];
    }
  }

  lemma NoWord(s: string, i: nat)
    requires i <= |s| && !StartsPlaceholder(s[i..])
    ensures forall j :: i <= j <= |s| ==> !IsPlaceholder(s[i..j])
  {
    forall j | i <= j <= |s| ensures !IsPlaceholder(s[i..j]) {
      if IsPlaceholder(s[i..j]) { WordStarts(s, i, j); }
    }
  }

  /** The scanner computes exactly the matches of the regular expression search. */
  lemma {:induction false} FindAllCorrect(s: string, from: nat)
    requires from <= |s|
    ensures IsMatchList(s, from, FindAll(s, from))
    decreases |s| - from
  {
    var ms := FindAll(s, from);
    if from == |s| {
    } else if StartsPlaceholder(s[from..]) {
      LongestWord(s, from);
      var n := PlaceholderLength(s[from..]);
      FindAllCorrect(s, from + n);
      assert ms[0].End() == from + n && ms[1..] == FindAll(s, from + n);
    } else {
      FindAllCorrect(s, from + 1);
      NoWord(s, from);
    }
  }

  /** There is at most one match list, so IsMatchList determines the scanner's result. */
  lemma {:induction false} MatchListUnique(s: string, from: nat, ms: seq<Match>, ms': seq<Match>)
    requires IsMatchList(s, from, ms) && IsMatchList(s, from, ms')
    ensures ms == ms'
    decreases ms
  {
    if ms != [] && ms' != [] {
      var m, m' := ms[0], ms'[0];
      assert !(m.start < m'.start) && !(m'.start < m.start);
      assert m.End() == m'.End();
      assert m.digits == s[m.start..m.End()][1..];
      assert m'.digits == s[m.start..m.End()][1..];
      MatchListUnique(s, m.End(), ms[1..], ms'[1..]);
      assert ms == [m] + ms[1..] && ms' == [m'] + ms'[1..];
    }
  }

  // ----- The rewrite -----

  /** Every match becomes a single `?`; all other text is kept. */
  function Rewrite(s: string): string {
    if s == [] then []
    else if StartsPlaceholder(s) then "?" + Rewrite(s[PlaceholderLength(s)..])
    else [s[0]] + Rewrite(s[1..])
  }

  /** The numerals captured by the matches of `s`, in order. */
  function Captures(s: string): seq<Numeral> {
    if s == [] then []
    else if StartsPlaceholder(s) then
      var n := PlaceholderLength(s);
      [s[..n][1..]] + Captures(s[n..])
    else Captures(s[1..])
  }

  /** Text without a dollar sign is copied. */
  lemma {:induction false} DollarFreeRewrite(front: string, rest: string)
    requires '$' !in front
    ensures Rewrite(front + rest) == front + Rewrite(rest)
  {
    if front == [] {
      assert front + rest == rest;
    } else {
      assert front[0] in front && (front + rest)[0] == front[0] && (front + rest)[1..] == front[1..] + rest;
      DollarFreeRewrite(front[1..], rest);
    }
  }

  /** The text `s[from..]` with the given matches replaced by `?`. */
  ghost function Splice(s: string, from: nat, ms: seq<Match>): string
    decreases ms
  {
    if from > |s| then []
    else if ms == [] then s[from..]
    else if from <= ms[0].start <= |s| then s[from..ms[0].start] + "?" + Splice(s, ms[0].End(), ms[1..])
    else []
  }

  lemma SpliceNext(s: string, from: nat, ms: seq<Match>)
    requires from < |s| && (ms != [] ==> from < ms[0].start <= |s|)
    ensures Splice(s, from, ms) == [s[from]] + Splice(s, from + 1, ms)
  {
    if ms == [] {
      assert s[from..] == [s[from]] + s[from + 1..];
    } else {
      var rest := Splice(s, ms[0].End(), ms[1..]);
      assert s[from..ms[0].start] == [s[from]] + s[from + 1..ms[0].start];
      assert s[from..ms[0].start] + "?" + rest == [s[from]] + (s[from + 1..ms[0].start] + "?" + rest);
    }
  }

  lemma SpliceMatch(s: string, from: nat, ms: seq<Match>)
    requires from <= |s| && ms != [] && ms[0].start == from
    ensures Splice(s, from, ms) == "?" + Splice(s, ms[0].End(), ms[1..])
  {
    assert s[from..from] + "?" == "?";
  }

  /** One step of the scan, the rewrite and the captures, at a match and elsewhere. */
  lemma StepAtMatch(s: string, from: nat)
    requires from <= |s| && StartsPlaceholder(s[from..])
    ensures var n, ms := PlaceholderLength(s[from..]), FindAll(s, from);
      && from + n <= |s|
      && ms != [] && ms[0].start == from && ms[0].End() == from + n && ms[1..] == FindAll(s, from + n)
      && Rewrite(s[from..]) == "?" + Rewrite(s[from + n..])
      && Captures(s[from..]) == [ms[0].digits] + Captures(s[from + n..])
  {
    hide IsPlaceholder, DigitRun, PlaceholderLength;
    var t := s[from..];
    assert t[PlaceholderLength(t)..] == s[from + PlaceholderLength(t)..];
  }

  lemma StepAtText(s: string, from: nat)
    requires from < |s| && !StartsPlaceholder(s[from..])
    ensures FindAll(s, from) == FindAll(s, from + 1)
    ensures Rewrite(s[from..]) == [s[from]] + Rewrite(s[from + 1..])
    ensures Captures(s[from..]) == Captures(s[from + 1..])
  {
    hide IsPlaceholder, DigitRun, PlaceholderLength, StartsPlaceholder;
    assert s[from..][1..] == s[from + 1..];
  }

  lemma {:induction false} RewriteIsSplice(s: string, from: nat)
    requires from <= |s|
    ensures Rewrite(s[from..]) == Splice(s, from, FindAll(s, from))
    decreases |s| - from
  {
    hide IsPlaceholder, DigitRun, StartsPlaceholder, PlaceholderLength;
    var ms := FindAll(s, from);
    if from == |s| {
    } else if StartsPlaceholder(s[from..]) {
      hide FindAll, Rewrite, Splice;
      StepAtMatch(s, from);
      RewriteIsSplice(s, ms[0].End());
      SpliceMatch(s, from, ms);
    } else {
      assert ms != [] ==> from < ms[0].start <= |s|;
      hide FindAll, Rewrite, Splice;
      StepAtText(s, from);
      RewriteIsSplice(s, from + 1);
      SpliceNext(s, from, ms);
    }
  }

  lemma {:induction false} CapturesAreDigits(s: string, from: nat)
    requires from <= |s|
    ensures |Captures(s[from..])| == |FindAll(s, from)|
    ensures forall k :: 0 <= k < |FindAll(s, from)| ==> Captures(s[from..])[k] == FindAll(s, from)[k].digits
    decreases |s| - from
  {
    hide IsPlaceholder, DigitRun, StartsPlaceholder, PlaceholderLength;
    if from == |s| {
    } else if StartsPlaceholder(s[from..]) {
      hide FindAll, Captures;
      StepAtMatch(s, from);
      CapturesAreDigits(s, FindAll(s, from)[0].End());
    } else {
      hide FindAll, Captures;
      StepAtText(s, from);
      CapturesAreDigits(s, from + 1);
    }
  }

  /** The rewrite replaces, and the captures list, exactly the matches of the regular expression search. */
  lemma RewriteReplacesMatches(s: string, ms: seq<Match>)
    requires IsMatchList(s, 0, ms)
    ensures Rewrite(s) == Splice(s, 0, ms)
    ensures |Captures(s)| == |ms| && forall k :: 0 <= k < |ms| ==> Captures(s)[k] == ms[k].digits
  {
    assert s[0..] == s;
    RewriteIsSplice(s, 0);
    CapturesAreDigits(s, 0);
    FindAllCorrect(s, 0);
    MatchListUnique(s, 0, ms, FindAll(s, 0));
  }

  // ----- Binding -----

  /** A query as the server sees it after binding: text with values in place of placeholders. */
  datatype Piece<T> = Text(c: char) | Arg(value: T)

  /** `s` with its k-th placeholder replaced by `vals[k]`. */
  ghost function Fill<T>(s: string, vals: seq<T>): seq<Piece<T>>
    requires |vals| == |Captures(s)|
  {
    if s == [] then []
    else if StartsPlaceholder(s) then [Arg(vals[0])] + Fill(s[PlaceholderLength(s)..], vals[1..])
    else [Text(s[0])] + Fill(s[1..], vals)
  }

  function MaxIndex(ds: seq<Numeral>): nat
  {
    if ds == [] then 0
    else
      var m := MaxIndex(ds[..|ds| - 1]);
      if Value(ds[|ds| - 1]) > m then Value(ds[|ds| - 1]) else m
  }

  /** Placeholder `$n` stands for the n-th argument, whatever its place in the text. */
  ghost function SelectArgs<T>(ds: seq<Numeral>, args: seq<T>): seq<T>
    requires forall d :: d in ds ==> 1 <= Value(d) <= |args|
  {
    seq(|ds|, k requires 0 <= k < |ds| => args[Value(ds[k]) - 1])
  }

  lemma {:induction false} MaxIndexBounds(ds: seq<Numeral>)
    ensures forall d :: d in ds ==> 1 <= Value(d) <= MaxIndex(ds)
  {
    if ds != [] {
      var init, last := ds[..|ds| - 1], ds[|ds| - 1];
      MaxIndexBounds(init);
      forall d | d in ds ensures 1 <= Value(d) <= MaxIndex(ds) {
        assert d in init || d == last;
        ValuePositive(d);
      }
    }
  }

  lemma {:induction false} MaxIndexAttained(ds: seq<Numeral>) returns (k: nat)
    requires ds != []
    ensures k < |ds| && Value(ds[k]) == MaxIndex(ds)
  {
    var n := |ds| - 1;
    k := n;
    if Value(ds[n]) <= MaxIndex(ds[..n]) {
      if n == 0 { ValuePositive(ds[0]); } else { k := MaxIndexAttained(ds[..n]); }
    }
  }

  /**
    Binding by number. The statement takes as many arguments as its highest index, as the
    prepared statements of PostgreSQL do.
   */
  ghost function BindNumbered<T>(s: string, args: seq<T>): Option<seq<Piece<T>>> {
    if |args| != MaxIndex(Captures(s)) then None
    else
      MaxIndexBounds(Captures(s));
      Some(Fill(s, SelectArgs(Captures(s), args)))
  }

  /** Binding by position: the k-th `?` stands for the k-th argument, and none may be left over. */
  ghost function BindPositional<T>(s: string, args: seq<T>): Option<seq<Piece<T>>> {
    if s == [] then if args == [] then Some([]) else None
    else if s[0] == '?' then
      if args == [] then None else Prepend(Arg(args[0]), BindPositional(s[1..], args[1..]))
    else Prepend(Text(s[0]), BindPositional(s[1..], args))
  }

  ghost function Prepend<T>(p: T, rest: Option<seq<T>>): Option<seq<T>> {
    if rest.None? then None else Some([p] + rest.value)
  }

  // ----- When the rewrite keeps the meaning -----

  /** Both bindings accept the same argument lists and build the same query from them. */
  ghost predicate Faithful(s: string) {
    forall args: seq<int> :: BindPositional(Rewrite(s), args) == BindNumbered(s, args)
  }

  /** The placeholders are numbered 1, 2, 3, ... in the order of the text. */
  ghost predicate InOrder(ds: seq<Numeral>)
  {
    forall k :: 0 <= k < |ds| ==> Value(ds[k]) == k + 1
  }

  lemma {:induction false} BindRewritten<T>(s: string, args: seq<T>)
    requires '?' !in s
    ensures BindPositional(Rewrite(s), args) == if |args| == |Captures(s)| then Some(Fill(s, args)) else None
  {
    if s != [] {
      if StartsPlaceholder(s) {
        var rest := s[PlaceholderLength(s)..];
        assert Rewrite(s)[1..] == Rewrite(rest);
        if args != [] { BindRewritten(rest, args[1..]); }
      } else {
        assert Rewrite(s)[1..] == Rewrite(s[1..]);
        BindRewritten(s[1..], args);
      }
    }
  }

  lemma {:induction false} FillInjective<T>(s: string, vals: seq<T>, vals': seq<T>)
    requires |vals| == |vals'| == |Captures(s)|
    requires Fill(s, vals) == Fill(s, vals')
    ensures vals == vals'
  {
    if s != [] {
      if StartsPlaceholder(s) {
        var rest := s[PlaceholderLength(s)..];
        var p, p' := Fill(s, vals), Fill(s, vals');
        assert p[1..] == Fill(rest, vals[1..]) && p'[1..] == Fill(rest, vals'[1..]);
        assert p[0] == p'[0];
        FillInjective(rest, vals[1..], vals'[1..]);
        assert vals == [vals[0]] + vals[1..] && vals' == [vals'[0]] + vals'[1..];
      } else {
        assert Fill(s, vals)[1..] == Fill(s[1..], vals) && Fill(s, vals')[1..] == Fill(s[1..], vals');
        FillInjective(s[1..], vals, vals');
      }
    }
  }

  /** A rewritten text without a `?` of its own binds alike for arguments of every type. */
  lemma InOrderIsFaithful<T>(s: string, args: seq<T>)
    requires '?' !in s && InOrder(Captures(s))
    ensures BindPositional(Rewrite(s), args) == BindNumbered(s, args)
  {
    var ds := Captures(s);
    BindRewritten(s, args);
    MaxIndexBounds(ds);
    if ds != [] {
      var k := MaxIndexAttained(ds);
      assert ds[|ds| - 1] in ds;
    }
    if |args| == |ds| {
      assert SelectArgs(ds, args) == args;
    }
  }

  ghost function CountArgs<T>(ps: seq<Piece<T>>): nat {
    if ps == [] then 0 else (if ps[0].Arg? then 1 else 0) + CountArgs(ps[1..])
  }

  lemma {:induction false} FillCount<T>(s: string, vals: seq<T>)
    requires |vals| == |Captures(s)|
    ensures CountArgs(Fill(s, vals)) == |vals|
  {
    if s != [] {
      if StartsPlaceholder(s) {
        var rest := s[PlaceholderLength(s)..];
        assert Fill(s, vals)[1..] == Fill(rest, vals[1..]);
        FillCount(rest, vals[1..]);
      } else {
        assert Fill(s, vals)[1..] == Fill(s[1..], vals);
        FillCount(s[1..], vals);
      }
    }
  }

  ghost function QuestionMarks(s: string): nat {
    if s == [] then 0 else (if s[0] == '?' then 1 else 0) + QuestionMarks(s[1..])
  }

  lemma {:induction false} PositionalCount<T>(s: string, args: seq<T>)
    ensures BindPositional(s, args).Some? <==> |args| == QuestionMarks(s)
    ensures |args| == QuestionMarks(s) ==> CountArgs(BindPositional(s, args).value) == |args|
  {
    if s != [] {
      var r := BindPositional(s, args);
      if s[0] != '?' {
        PositionalCount(s[1..], args);
        if r.Some? { assert r.value[1..] == BindPositional(s[1..], args).value; }
      } else if args != [] {
        PositionalCount(s[1..], args[1..]);
        if r.Some? { assert r.value[1..] == BindPositional(s[1..], args[1..]).value; }
      }
    }
  }

  lemma QuestionMarkBehind(s: string)
    requires StartsPlaceholder(s)
    ensures '?' in s <==> '?' in s[PlaceholderLength(s)..]
  {
    var n := PlaceholderLength(s);
    forall i | 1 <= i < n ensures s[i] != '?' { assert IsDigit(s[..n][1..][i - 1]); }
    assert s == s[..n] + s[n..];
  }

  /** Rewriting turns every placeholder into a `?` and keeps the ones that were there. */
  lemma {:induction false} RewriteQuestionMarks(s: string)
    ensures QuestionMarks(Rewrite(s)) >= |Captures(s)|
    ensures '?' in s ==> QuestionMarks(Rewrite(s)) > |Captures(s)|
  {
    if s != [] {
      if StartsPlaceholder(s) {
        var n := PlaceholderLength(s);
        assert Rewrite(s)[1..] == Rewrite(s[n..]);
        RewriteQuestionMarks(s[n..]);
        QuestionMarkBehind(s);
      } else {
        assert Rewrite(s)[1..] == Rewrite(s[1..]);
        RewriteQuestionMarks(s[1..]);
      }
    }
  }

  lemma FaithfulIsInOrder(s: string)
    requires Faithful(s)
    ensures '?' !in s && InOrder(Captures(s))
  {
    var ds := Captures(s);
    var n := QuestionMarks(Rewrite(s));
    var args := seq(n, k => k);
    PositionalCount(Rewrite(s), args);
    assert BindNumbered(s, args) == BindPositional(Rewrite(s), args);
    MaxIndexBounds(ds);
    FillCount(s, SelectArgs(ds, args));
    RewriteQuestionMarks(s);
    BindRewritten(s, args);
    FillInjective(s, SelectArgs(ds, args), args);
    forall k | 0 <= k < |ds| ensures Value(ds[k]) == k + 1 {
      assert SelectArgs(ds, args)[k] == args[k];
    }
  }

  /**
    The rewrite keeps the meaning of a text, for all argument lists, exactly when the text holds no
    `?` and its placeholders are numbered in order.
   */
  lemma FaithfulExactly(s: string)
    ensures Faithful(s) <==> '?' !in s && InOrder(Captures(s))
  {
    if Faithful(s) { FaithfulIsInOrder(s); }
    if '?' !in s && InOrder(Captures(s)) {
      forall args: seq<int> ensures BindPositional(Rewrite(s), args) == BindNumbered(s, args) {
        InOrderIsFaithful(s, args);
      }
    }
  }
}
