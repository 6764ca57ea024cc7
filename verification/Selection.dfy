/** Rows selected by a predicate, and the rows of one batched query handed out to their parents. */
module Selection {
  import opened Wrappers

  /** The elements that satisfy `p`, in order. */
  function Filter<T>(s: seq<T>, p: T -> bool): seq<T> {
    if s == [] then []
    else
      var x := s[|s| - 1];
      Filter(s[..|s| - 1], p) + if p(x) then [x] else []
  }

  lemma {:induction false} FilterMembers<T>(s: seq<T>, p: T -> bool)
    ensures forall x :: x in Filter(s, p) <==> x in s && p(x)
  {
    if s != [] { FilterMembers(s[..|s| - 1], p); }
  }

  lemma {:induction false} FilterConcat<T>(a: seq<T>, b: seq<T>, p: T -> bool)
    ensures Filter(a + b, p) == Filter(a, p) + Filter(b, p)
  {
    if b == [] {
      assert a + b == a;
    } else {
      assert (a + b)[..|a + b| - 1] == a + b[..|b| - 1];
      FilterConcat(a, b[..|b| - 1], p);
    }
  }

  lemma {:induction false} FilterTwice<T>(s: seq<T>, p: T -> bool, q: T -> bool, r: T -> bool)
    requires forall x :: r(x) <==> p(x) && q(x)
    ensures Filter(Filter(s, p), q) == Filter(s, r)
  {
    if s != [] {
      var init, x := s[..|s| - 1], s[|s| - 1];
      FilterTwice(init, p, q, r);
      var f := Filter(init, p);
      if p(x) { assert (f + [x])[..|f|] == f; } else { assert f + [] == f; }
    }
  }

  lemma {:induction false} FilterSame<T>(s: seq<T>, p: T -> bool, q: T -> bool)
    requires forall x :: x in s ==> p(x) == q(x)
    ensures Filter(s, p) == Filter(s, q)
  {
    if s != [] { FilterSame(s[..|s| - 1], p, q); }
  }

  lemma {:induction false} FilterNone<T>(s: seq<T>, p: T -> bool)
    requires forall x :: x in s ==> !p(x)
    ensures Filter(s, p) == []
  {
    if s != [] { FilterNone(s[..|s| - 1], p); }
  }

  /** The rows of one parent. */
  function OfParent<C>(key: C -> Option<int>, id: int): C -> bool {
    c => key(c) == Some(id)
  }

  /** The rows that one parent's own query selects. */
  function Naive<C>(key: C -> Option<int>, visible: C -> bool, id: int): C -> bool {
    c => visible(c) && key(c) == Some(id)
  }

  /** The rows that the batched query selects; a NULL key satisfies no IN predicate. */
  function Batched<C>(key: C -> Option<int>, visible: C -> bool, ids: seq<int>): C -> bool {
    c => visible(c) && key(c).Some? && key(c).value in ids
  }

  /** A parent in the batch gets from it what its own query would select, in the same order. */
  lemma BatchedIsNaive<C(!new)>(table: seq<C>, key: C -> Option<int>, visible: C -> bool, ids: seq<int>, id: int)
    requires id in ids
    ensures Filter(Filter(table, Batched(key, visible, ids)), OfParent(key, id)) == Filter(table, Naive(key, visible, id))
  {
    FilterTwice(table, Batched(key, visible, ids), OfParent(key, id), Naive(key, visible, id));
  }

  /** The number of rows handed out when the last parent of each ID gets the rows with that ID. */
  ghost function HandedOut<C>(ids: seq<int>, rows: seq<C>, key: C -> Option<int>): nat {
    if ids == [] then 0
    else (if ids[0] in ids[1..] then 0 else |Filter(rows, OfParent(key, ids[0]))|) + HandedOut(ids[1..], rows, key)
  }

  lemma {:induction false} HandOutOne<C>(ids: seq<int>, rows: seq<C>, key: C -> Option<int>)
    requires rows != []
    ensures var k := key(rows[|rows| - 1]);
      HandedOut(ids, rows, key) ==
        HandedOut(ids, rows[..|rows| - 1], key) + if k.Some? && k.value in ids then 1 else 0
  {
    if ids != [] {
      HandOutOne(ids[1..], rows, key);
      assert ids == [ids[0]] + ids[1..];
    }
  }

  /** Conservation: every row of the batch is handed out exactly once. */
  lemma {:induction false} EveryRowHandedOutOnce<C>(ids: seq<int>, rows: seq<C>, key: C -> Option<int>)
    requires forall c :: c in rows ==> key(c).Some? && key(c).value in ids
    ensures HandedOut(ids, rows, key) == |rows|
  {
    if rows == [] {
      NothingToHandOut(ids, rows, key);
    } else {
      HandOutOne(ids, rows, key);
      EveryRowHandedOutOnce(ids, rows[..|rows| - 1], key);
    }
  }

  lemma {:induction false} NothingToHandOut<C>(ids: seq<int>, rows: seq<C>, key: C -> Option<int>)
    requires rows == []
    ensures HandedOut(ids, rows, key) == 0
  {
    if ids != [] { NothingToHandOut(ids[1..], rows, key); }
  }
}
