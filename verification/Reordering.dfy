/** First occurrences per key in a sequence, and how a permutation can change which ones they are. */
module Reordering {
  import opened Sequences

  /** Element `i` counts and no earlier element that counts has its key. */
  ghost predicate IsFirst<T, K>(s: seq<T>, counts: T -> bool, key: T -> K, i: nat)
    requires i < |s|
  {
    counts(s[i]) && forall j :: 0 <= j < i && counts(s[j]) ==> key(s[j]) != key(s[i])
  }

  ghost predicate FirstsGood<T, K>(s: seq<T>, counts: T -> bool, key: T -> K, good: T -> bool) {
    forall i :: 0 <= i < |s| && IsFirst(s, counts, key, i) ==> good(s[i])
  }

  ghost predicate EachKeyGoodOnce<T, K>(s: seq<T>, counts: T -> bool, key: T -> K, good: T -> bool) {
    forall x {:trigger HasGood(s, counts, key, good, x)} :: x in s && counts(x) ==> HasGood(s, counts, key, good, x)
  }

  /** Some element that counts is good and has the key of `x`. */
  ghost predicate HasGood<T, K>(s: seq<T>, counts: T -> bool, key: T -> K, good: T -> bool, x: T) {
    exists y :: y in s && counts(y) && key(y) == key(x) && good(y)
  }

  lemma {:induction false} FirstOf<T, K>(s: seq<T>, counts: T -> bool, key: T -> K, i: nat) returns (j: nat)
    requires i < |s| && counts(s[i])
    ensures j <= i && IsFirst(s, counts, key, j) && key(s[j]) == key(s[i])
    decreases i
  {
    if k :| 0 <= k < i && counts(s[k]) && key(s[k]) == key(s[i]) {
      j := FirstOf(s, counts, key, k);
    } else {
      j := i;
    }
  }

  ghost function Part<T>(s: seq<T>, good: T -> bool, wanted: bool): seq<T> {
    if s == [] then [] else (if good(s[0]) == wanted then [s[0]] else []) + Part(s[1..], good, wanted)
  }

  lemma {:induction false} PartMembers<T>(s: seq<T>, good: T -> bool, wanted: bool)
    ensures forall x :: x in Part(s, good, wanted) <==> x in s && good(x) == wanted
  {
    if s != [] { PartMembers(s[1..], good, wanted); }
  }

  lemma {:induction false} PartsPermute<T>(s: seq<T>, good: T -> bool)
    ensures multiset(Part(s, good, true)) + multiset(Part(s, good, false)) == multiset(s)
  {
    if s != [] {
      PartsPermute(s[1..], good);
      assert s == [s[0]] + s[1..];
    }
  }

  lemma GoodInFront<T(!new), K>(s: seq<T>, counts: T -> bool, key: T -> K, good: T -> bool) returns (t: seq<T>)
    requires EachKeyGoodOnce(s, counts, key, good)
    ensures Permutation(s, t) && FirstsGood(t, counts, key, good)
  {
    var front, back := Part(s, good, true), Part(s, good, false);
    t := front + back;
    PartsPermute(s, good);
    PartMembers(s, good, true);
    PartMembers(s, good, false);
    assert Permutation(s, t);
    forall i | 0 <= i < |t| && IsFirst(t, counts, key, i) ensures good(t[i]) {
      if i < |front| {
        assert t[i] in front;
      } else {
        assert back[i - |front|] in back;
        NotFirstBehind(s, front, back, counts, key, good, i - |front|);
      }
    }
  }

  lemma NotFirstBehind<T, K>(
    s: seq<T>, front: seq<T>, back: seq<T>, counts: T -> bool, key: T -> K, good: T -> bool, i: nat)
    requires EachKeyGoodOnce(s, counts, key, good)
    requires forall x :: x in front <==> x in s && good(x)
    requires i < |back| && back[i] in s
    ensures !IsFirst(front + back, counts, key, |front| + i)
  {
    var t := front + back;
    if counts(back[i]) {
      assert HasGood(s, counts, key, good, back[i]);
      var y :| y in s && counts(y) && key(y) == key(back[i]) && good(y);
      var j :| 0 <= j < |front| && front[j] == y;
      assert t[j] == y;
    }
  }

  /** Some order makes all firsts good exactly when each key has a good element. */
  lemma SomeOrderGood<T(!new), K>(s: seq<T>, counts: T -> bool, key: T -> K, good: T -> bool)
    ensures (exists t :: Permutation(s, t) && FirstsGood(t, counts, key, good)) <==> EachKeyGoodOnce(s, counts, key, good)
  {
    if t :| Permutation(s, t) && FirstsGood(t, counts, key, good) {
      SameMembers(s, t);
      forall x | x in s && counts(x) ensures HasGood(s, counts, key, good, x) {
        var i :| 0 <= i < |t| && t[i] == x;
        var j := FirstOf(t, counts, key, i);
        assert t[j] in s;
      }
    }
    if EachKeyGoodOnce(s, counts, key, good) { var t := GoodInFront(s, counts, key, good); }
  }

  /** Some order has a first that is not good exactly when some element that counts is not good. */
  lemma SomeOrderBad<T(!new), K>(s: seq<T>, counts: T -> bool, key: T -> K, good: T -> bool)
    ensures (exists t :: Permutation(s, t) && !FirstsGood(t, counts, key, good)) <==>
      exists x :: x in s && counts(x) && !good(x)
  {
    if t :| Permutation(s, t) && !FirstsGood(t, counts, key, good) {
      SameMembers(s, t);
      var i :| 0 <= i < |t| && IsFirst(t, counts, key, i) && !good(t[i]);
      assert t[i] in s;
    }
    if x :| x in s && counts(x) && !good(x) {
      var t := InFront(s, x);
      assert IsFirst(t, counts, key, 0);
      assert Permutation(s, t) && !FirstsGood(t, counts, key, good);
    }
  }

  // ----- Blocks that stay together -----

  /** Some element that counts has the key. */
  ghost predicate HasKey<T, K>(s: seq<T>, counts: T -> bool, key: T -> K, k: K) {
    exists y :: y in s && counts(y) && key(y) == k
  }

  /** Elements that count and share a key are alike. */
  ghost predicate Uniform<T, K>(s: seq<T>, counts: T -> bool, key: T -> K, good: T -> bool) {
    forall x, y :: x in s && y in s && counts(x) && counts(y) && key(x) == key(y) ==> good(x) == good(y)
  }

  /** What a block brings that has no key from before it is good. */
  ghost predicate GoodAfter<T, K>(before: seq<T>, block: seq<T>, counts: T -> bool, key: T -> K, good: T -> bool) {
    forall x :: x in block && counts(x) && !HasKey(before, counts, key, key(x)) ==> good(x)
  }

  lemma FirstsGoodAppend<T(!new), K>(s: seq<T>, block: seq<T>, counts: T -> bool, key: T -> K, good: T -> bool)
    requires Uniform(block, counts, key, good)
    ensures FirstsGood(s + block, counts, key, good) <==>
      FirstsGood(s, counts, key, good) && GoodAfter(s, block, counts, key, good)
  {
    var t := s + block;
    if FirstsGood(t, counts, key, good) {
      forall i | 0 <= i < |s| && IsFirst(s, counts, key, i) ensures good(s[i]) {
        assert IsFirst(t, counts, key, i) by { FirstInFront(s, block, counts, key, i); }
      }
      forall x | x in block && counts(x) && !HasKey(s, counts, key, key(x)) ensures good(x) {
        var j :| 0 <= j < |block| && block[j] == x;
        var i := FirstOf(block, counts, key, j);
        FirstBehind(s, block, counts, key, i);
        assert t[|s| + i] == block[i];
      }
    }
    if FirstsGood(s, counts, key, good) && GoodAfter(s, block, counts, key, good) {
      forall i | 0 <= i < |t| && IsFirst(t, counts, key, i) ensures good(t[i]) {
        FirstInWhole(s, block, counts, key, i);
      }
    }
  }

  lemma FirstBehind<T, K>(s: seq<T>, block: seq<T>, counts: T -> bool, key: T -> K, i: nat)
    requires i < |block| && IsFirst(block, counts, key, i) && !HasKey(s, counts, key, key(block[i]))
    ensures IsFirst(s + block, counts, key, |s| + i)
  {
    var t := s + block;
    forall j | 0 <= j < |s| + i && counts(t[j]) ensures key(t[j]) != key(block[i]) {
      if j < |s| { assert t[j] in s; } else { assert t[j] == block[j - |s|]; }
    }
  }

  lemma FirstInFront<T, K>(s: seq<T>, block: seq<T>, counts: T -> bool, key: T -> K, i: nat)
    requires i < |s|
    ensures IsFirst(s, counts, key, i) <==> IsFirst(s + block, counts, key, i)
  {
    assert forall j :: 0 <= j <= i ==> (s + block)[j] == s[j];
  }

  lemma FirstInWhole<T, K>(s: seq<T>, block: seq<T>, counts: T -> bool, key: T -> K, i: nat)
    requires i < |s + block| && IsFirst(s + block, counts, key, i)
    ensures if i < |s| then IsFirst(s, counts, key, i)
      else block[i - |s|] in block && !HasKey(s, counts, key, key(block[i - |s|]))
  {
    if i < |s| {
      FirstInFront(s, block, counts, key, i);
    } else {
      forall y | y in s && counts(y) ensures key(y) != key(block[i - |s|]) {
        var j :| 0 <= j < |s| && s[j] == y;
        assert (s + block)[j] == y;
      }
    }
  }

  /** Every block is good after the head and the blocks before it. */
  ghost predicate BlocksGood<V, T, K>(
    head: seq<T>, vs: seq<V>, f: V -> seq<T>, counts: T -> bool, key: T -> K, good: T -> bool)
  {
    forall i :: 0 <= i < |vs| ==> GoodAfter(head + FlatMap(vs[..i], f), f(vs[i]), counts, key, good)
  }

  lemma {:induction false} FirstsGoodBlocks<V, T(!new), K>(
    head: seq<T>, vs: seq<V>, f: V -> seq<T>, counts: T -> bool, key: T -> K, good: T -> bool)
    requires forall v :: v in vs ==> Uniform(f(v), counts, key, good)
    ensures FirstsGood(head + FlatMap(vs, f), counts, key, good) <==>
      FirstsGood(head, counts, key, good) && BlocksGood(head, vs, f, counts, key, good)
  {
    hide FirstsGood, GoodAfter, Uniform;
    if vs == [] {
      assert head + FlatMap(vs, f) == head;
    } else {
      var init, v := vs[..|vs| - 1], vs[|vs| - 1];
      assert vs == init + [v] && forall w :: w in init ==> w in vs;
      FirstsGoodBlocks(head, init, f, counts, key, good);
      FlatMapLast(init, v, f);
      assert head + FlatMap(vs, f) == head + FlatMap(init, f) + f(v);
      assert v in vs;
      FirstsGoodAppend(head + FlatMap(init, f), f(v), counts, key, good);
      BlocksGoodLast(head, init, v, f, counts, key, good);
    }
  }

  lemma {:induction false} BlocksGoodLast<V, T, K>(
    head: seq<T>, init: seq<V>, v: V, f: V -> seq<T>, counts: T -> bool, key: T -> K, good: T -> bool)
    ensures BlocksGood(head, init + [v], f, counts, key, good) <==>
      BlocksGood(head, init, f, counts, key, good) && GoodAfter(head + FlatMap(init, f), f(v), counts, key, good)
  {
    hide GoodAfter;
    var vs := init + [v];
    forall i | 0 <= i < |init| ensures vs[..i] == init[..i] && vs[i] == init[i] {}
    assert vs[..|init|] == init && vs[|init|] == v;
  }

  /**
    However the blocks are divided into some that have been placed and a rest, some block of the rest
    can come next.
   */
  ghost predicate NeverStuck<V(!new), T, K>(
    head: seq<T>, vs: seq<V>, f: V -> seq<T>, counts: T -> bool, key: T -> K, good: T -> bool)
  {
    forall placed, rest :: Permutation(vs, placed + rest) && rest != [] ==>
      CanGoOn(head, placed, rest, f, counts, key, good)
  }

  ghost predicate CanGoOn<V, T, K>(
    head: seq<T>, placed: seq<V>, rest: seq<V>, f: V -> seq<T>, counts: T -> bool, key: T -> K, good: T -> bool)
  {
    exists v :: v in rest && GoodAfter(head + FlatMap(placed, f), f(v), counts, key, good)
  }

  lemma {:induction false} PlaceRest<V(!new), T, K>(
    head: seq<T>, vs: seq<V>, placed: seq<V>, rest: seq<V>, f: V -> seq<T>,
    counts: T -> bool, key: T -> K, good: T -> bool) returns (ws: seq<V>)
    requires NeverStuck(head, vs, f, counts, key, good)
    requires Permutation(vs, placed + rest) && BlocksGood(head, placed, f, counts, key, good)
    ensures Permutation(vs, ws) && BlocksGood(head, ws, f, counts, key, good)
    decreases |rest|
  {
    hide GoodAfter, BlocksGood, NeverStuck;
    if rest == [] {
      assert placed + rest == placed;
      ws := placed;
    } else {
      var i := NextBlock(head, vs, placed, rest, f, counts, key, good);
      BlocksGoodLast(head, placed, rest[i], f, counts, key, good);
      MoveOver(vs, placed, rest, i);
      ws := PlaceRest(head, vs, placed + [rest[i]], rest[..i] + rest[i + 1..], f, counts, key, good);
    }
  }

  lemma NextBlock<V(!new), T, K>(
    head: seq<T>, vs: seq<V>, placed: seq<V>, rest: seq<V>, f: V -> seq<T>,
    counts: T -> bool, key: T -> K, good: T -> bool) returns (i: nat)
    requires NeverStuck(head, vs, f, counts, key, good)
    requires Permutation(vs, placed + rest) && rest != []
    ensures i < |rest| && GoodAfter(head + FlatMap(placed, f), f(rest[i]), counts, key, good)
  {
    hide GoodAfter;
    assert CanGoOn(head, placed, rest, f, counts, key, good);
    var v :| v in rest && GoodAfter(head + FlatMap(placed, f), f(v), counts, key, good);
    i :| 0 <= i < |rest| && rest[i] == v;
  }

  lemma MoveOver<V>(vs: seq<V>, placed: seq<V>, rest: seq<V>, i: nat)
    requires Permutation(vs, placed + rest) && i < |rest|
    ensures Permutation(vs, placed + [rest[i]] + (rest[..i] + rest[i + 1..]))
  {
    assert rest == rest[..i] + [rest[i]] + rest[i + 1..];
  }

  /** More keys before a block make it no worse. */
  lemma GoodAfterMore<T, K>(a: seq<T>, b: seq<T>, block: seq<T>, counts: T -> bool, key: T -> K, good: T -> bool)
    requires forall x :: x in a ==> x in b
    requires GoodAfter(a, block, counts, key, good)
    ensures GoodAfter(b, block, counts, key, good)
  {
  }

  lemma FlatMapSubset<V, T>(head: seq<T>, vs: seq<V>, ws: seq<V>, f: V -> seq<T>)
    requires forall v :: v in vs ==> v in ws
    ensures forall x :: x in head + FlatMap(vs, f) ==> x in head + FlatMap(ws, f)
  {
    forall x | x in FlatMap(vs, f) ensures x in FlatMap(ws, f) {
      FlatMapMembers(vs, f, x);
      FlatMapMembers(ws, f, x);
    }
  }

  /** The first element of `ws` that takes more than `placed` has. */
  lemma {:induction false} FirstBeyond<V>(ws: seq<V>, placed: seq<V>, rest: seq<V>, n: nat) returns (i: nat)
    requires Permutation(ws, placed + rest) && rest != []
    requires n <= |ws| && multiset(ws[..n]) <= multiset(placed)
    ensures i < |ws| && ws[i] in rest && multiset(ws[..i]) <= multiset(placed)
    decreases |ws| - n
  {
    BeyondPlaced(ws, placed, rest);
    assert ws[..|ws|] == ws;
    if ws[n] in rest {
      i := n;
    } else {
      NoMoreThan(ws, placed, rest, n);
      i := FirstBeyond(ws, placed, rest, n + 1);
    }
  }

  lemma BeyondPlaced<V>(ws: seq<V>, placed: seq<V>, rest: seq<V>)
    requires Permutation(ws, placed + rest) && rest != []
    ensures !(multiset(ws) <= multiset(placed))
  {
    assert |multiset(ws)| == |multiset(placed)| + |multiset(rest)|;
    if multiset(ws) <= multiset(placed) { SubsetSize(multiset(ws), multiset(placed)); }
  }

  lemma NoMoreThan<V>(ws: seq<V>, placed: seq<V>, rest: seq<V>, n: nat)
    requires Permutation(ws, placed + rest) && n < |ws| && ws[n] !in rest
    requires multiset(ws[..n]) <= multiset(placed)
    ensures multiset(ws[..n + 1]) <= multiset(placed)
  {
    var v := ws[n];
    assert ws == ws[..n + 1] + ws[n + 1..] && ws[..n + 1] == ws[..n] + [v];
    assert multiset(ws)[v] == multiset(placed)[v] + multiset(rest)[v];
    assert multiset(rest)[v] == 0;
    assert multiset(ws[..n + 1])[v] <= multiset(ws)[v];
  }

  lemma SubsetSize<V>(a: multiset<V>, b: multiset<V>)
    requires a <= b
    ensures |a| <= |b|
  {
    assert b == a + (b - a);
  }

  /** The blocks have an order in which all are good exactly when one never gets stuck. */
  lemma BlocksHaveOrder<V(!new), T, K>(
    head: seq<T>, vs: seq<V>, f: V -> seq<T>, counts: T -> bool, key: T -> K, good: T -> bool)
    ensures (exists ws :: Permutation(vs, ws) && BlocksGood(head, ws, f, counts, key, good)) <==>
      NeverStuck(head, vs, f, counts, key, good)
  {
    hide GoodAfter;
    if ws :| Permutation(vs, ws) && BlocksGood(head, ws, f, counts, key, good) {
      forall placed, rest | Permutation(vs, placed + rest) && rest != []
        ensures CanGoOn(head, placed, rest, f, counts, key, good)
      {
        var i := FirstBeyond(ws, placed, rest, 0);
        forall v | v in ws[..i] ensures v in placed { assert v in multiset(ws[..i]); }
        FlatMapSubset(head, ws[..i], placed, f);
        GoodAfterMore(head + FlatMap(ws[..i], f), head + FlatMap(placed, f), f(ws[i]), counts, key, good);
      }
    }
    if NeverStuck(head, vs, f, counts, key, good) {
      assert [] + vs == vs;
      var ws := PlaceRest(head, vs, [], vs, f, counts, key, good);
    }
  }
}
