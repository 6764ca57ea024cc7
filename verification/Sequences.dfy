/** Permutations of sequences, and sequences put together from parts. */
module Sequences {

  ghost predicate Permutation<T>(a: seq<T>, b: seq<T>) {
    multiset(a) == multiset(b)
  }

  lemma SameMembers<T>(a: seq<T>, b: seq<T>)
    requires Permutation(a, b)
    ensures forall x :: x in a <==> x in b
  {
    forall x ensures x in a <==> x in b { assert x in a <==> x in multiset(a); }
  }

  lemma InFront<T>(s: seq<T>, x: T) returns (t: seq<T>)
    requires x in s
    ensures Permutation(s, t) && t != [] && t[0] == x
  {
    var i :| 0 <= i < |s| && s[i] == x;
    t := [x] + (s[..i] + s[i + 1..]);
    assert s == s[..i] + [x] + s[i + 1..];
  }

  /** f(s[0]) + f(s[1]) + ... */
  ghost function FlatMap<A, B>(s: seq<A>, f: A -> seq<B>): seq<B> {
    if s == [] then [] else f(s[0]) + FlatMap(s[1..], f)
  }

  lemma {:induction false} FlatMapConcat<A, B>(s: seq<A>, t: seq<A>, f: A -> seq<B>)
    ensures FlatMap(s + t, f) == FlatMap(s, f) + FlatMap(t, f)
  {
    if s == [] {
      assert s + t == t;
    } else {
      assert (s + t)[0] == s[0] && (s + t)[1..] == s[1..] + t;
      FlatMapConcat(s[1..], t, f);
      assert f(s[0]) + (FlatMap(s[1..], f) + FlatMap(t, f)) == f(s[0]) + FlatMap(s[1..], f) + FlatMap(t, f);
    }
  }

  lemma {:induction false} FlatMapMembers<A, B>(s: seq<A>, f: A -> seq<B>, b: B)
    ensures b in FlatMap(s, f) <==> exists a :: a in s && b in f(a)
  {
    if s != [] {
      FlatMapMembers(s[1..], f, b);
      assert forall a :: a in s <==> a == s[0] || a in s[1..];
    }
  }

  /** Permuting the parts permutes the whole. */
  lemma {:induction false} FlatMapPermutes<A, B>(s: seq<A>, t: seq<A>, f: A -> seq<B>)
    requires Permutation(s, t)
    ensures Permutation(FlatMap(s, f), FlatMap(t, f))
  {
    hide Permutation;
    if s == [] {
      PermutationOfEmpty(t);
      Reflexive(FlatMap(s, f));
    } else {
      var i := IndexOfFirst(s, t);
      var u, v := t[..i], t[i + 1..];
      assert t == u + [s[0]] + v && s == [s[0]] + s[1..];
      FlatMapPermutes(s[1..], u + v, f);
      FlatMapConcat(u, [s[0]] + v, f);
      FlatMapConcat(u, v, f);
      assert t == u + ([s[0]] + v) && ([s[0]] + v)[1..] == v;
      MovedInFront(f(s[0]), FlatMap(s[1..], f), FlatMap(u, f), FlatMap(v, f));
    }
  }

  lemma MovedInFront<T>(x: seq<T>, s: seq<T>, u: seq<T>, v: seq<T>)
    requires Permutation(s, u + v)
    ensures Permutation(x + s, u + (x + v))
  {
  }

  lemma Reflexive<T>(s: seq<T>)
    ensures Permutation(s, s)
  {
  }

  lemma PermutationOfEmpty<T>(t: seq<T>)
    requires Permutation([], t)
    ensures t == []
  {
    assert |multiset(t)| == |t|;
  }

  lemma IndexOfFirst<A>(s: seq<A>, t: seq<A>) returns (i: nat)
    requires Permutation(s, t) && s != []
    ensures i < |t| && t[i] == s[0]
    ensures Permutation(s[1..], t[..i] + t[i + 1..])
  {
    SameMembers(s, t);
    assert s[0] in t;
    i :| 0 <= i < |t| && t[i] == s[0];
    assert t == t[..i] + [t[i]] + t[i + 1..] && s == [s[0]] + s[1..];
    Cancel(s[0], multiset(s[1..]), multiset(t[..i] + t[i + 1..]));
  }

  lemma Cancel<A>(x: A, a: multiset<A>, b: multiset<A>)
    requires multiset{x} + a == multiset{x} + b
    ensures a == b
  {
    assert a == multiset{x} + a - multiset{x} && b == multiset{x} + b - multiset{x};
  }

  lemma FlatMapLast<A, B>(s: seq<A>, a: A, f: A -> seq<B>)
    ensures FlatMap(s + [a], f) == FlatMap(s, f) + f(a)
  {
    FlatMapConcat(s, [a], f);
    assert [a][1..] == [] && FlatMap([a], f) == f(a) + [];
  }

  function Alone<A, B>(f: A -> B): A -> seq<B> {
    a => [f(a)]
  }

  /** Every order of the images is that of some order of the originals. */
  lemma {:induction false} LiftPermutation<A, B>(s: seq<A>, f: A -> B, t: seq<B>) returns (u: seq<A>)
    requires Permutation(FlatMap(s, Alone(f)), t)
    ensures Permutation(s, u) && FlatMap(u, Alone(f)) == t
    decreases |t|
  {
    hide FlatMap, Alone;
    var g := Alone(f);
    assert |multiset(FlatMap(s, g))| == |FlatMap(s, g)|;
    AloneMembers(s, f);
    if t == [] {
      u := s;
    } else {
      SameMembers(FlatMap(s, g), t);
      assert t[0] in FlatMap(s, g);
      var i :| 0 <= i < |s| && f(s[i]) == t[0];
      var left := s[..i] + s[i + 1..];
      TakeOut(s, i, g);
      assert g(s[i]) == [t[0]] && t == [t[0]] + t[1..];
      Cancel(t[0], multiset(FlatMap(left, g)), multiset(t[1..]));
      var v := LiftPermutation(left, f, t[1..]);
      FlatMapFirst(s[i], v, g);
      u := [s[i]] + v;
      assert s == s[..i] + [s[i]] + s[i + 1..];
    }
  }

  lemma AloneMembers<A, B>(s: seq<A>, f: A -> B)
    ensures |FlatMap(s, Alone(f))| == |s|
    ensures forall b :: b in FlatMap(s, Alone(f)) ==> exists i :: 0 <= i < |s| && f(s[i]) == b
    ensures forall a :: Alone(f)(a) == [f(a)]
  {
    if s != [] {
      AloneMembers(s[1..], f);
      forall b | b in FlatMap(s, Alone(f)) ensures exists i :: 0 <= i < |s| && f(s[i]) == b {
        if b != f(s[0]) {
          var i :| 0 <= i < |s[1..]| && f(s[1..][i]) == b;
          assert f(s[i + 1]) == b;
        }
      }
    }
  }

  lemma FlatMapFirst<A, B>(a: A, s: seq<A>, f: A -> seq<B>)
    ensures FlatMap([a] + s, f) == f(a) + FlatMap(s, f)
  {
    assert ([a] + s)[1..] == s;
  }

  lemma {:induction false} TakeOut<A, B>(s: seq<A>, i: nat, f: A -> seq<B>)
    requires i < |s|
    ensures multiset(FlatMap(s, f)) == multiset(f(s[i])) + multiset(FlatMap(s[..i] + s[i + 1..], f))
  {
    var u, v := s[..i], s[i + 1..];
    assert s == u + [s[i]] + v;
    FlatMapConcat(u + [s[i]], v, f);
    FlatMapLast(u, s[i], f);
    FlatMapConcat(u, v, f);
  }
}
