/** The order in which the groups of an account arrive, against the order of the account's own query. */
module GroupOrder {
  import opened Selection
  import opened AccountQuery
  import opened AccountGroups

  lemma NeighborsNext(init: seq<JoinRow>, r: JoinRow, columns: seq<string>)
    ensures Neighbors(init + [r], columns) ==
      Neighbors(init, columns) + if HasGroup(init, r.group.id) then [] else [Projected(r.group, columns)]
  {
    assert (init + [r])[..|init|] == init;
  }

  lemma FilterNext<T>(init: seq<T>, x: T, p: T -> bool)
    ensures Filter(init + [x], p) == Filter(init, p) + if p(x) then [x] else []
  {
    assert (init + [x])[..|init|] == init;
  }

  lemma NeighborsOfTwo(r: JoinRow, s: JoinRow, columns: seq<string>)
    requires r.group.id != s.group.id
    ensures Neighbors([r, s], columns) == [Projected(r.group, columns), Projected(s.group, columns)]
  {
    hide Projected;
    NeighborsNext([], r, columns);
    NeighborsNext([r], s, columns);
    assert [] + [r] == [r] && [r] + [s] == [r, s];
  }

  lemma FilterOfThree<T>(x: T, y: T, z: T, p: T -> bool)
    requires p(y) && p(z)
    ensures Filter([x, y, z], p) == if p(x) then [x, y, z] else [y, z]
  {
    FilterNext([], x, p);
    FilterNext([x], y, p);
    FilterNext([x, y], z, p);
    assert [] + [x] == [x] && [x] + [y] == [x, y] && [x, y] + [z] == [x, y, z];
  }

  lemma BatchOrder(r1: JoinRow, r2: JoinRow, r3: JoinRow, columns: seq<string>)
    requires r1.group.id != r2.group.id && r3.group == r1.group && r2.accountId == r3.accountId
    ensures BatchedGroups([r1, r2, r3], columns, r2.accountId) == [Projected(r1.group, columns), Projected(r2.group, columns)]
  {
    var rows := [r1, r2, r3];
    NeighborsOfTwo(r1, r2, columns);
    NeighborsNext([r1, r2], r3, columns);
    assert [r1, r2] + [r3] == rows && r1 in [r1, r2];
    var pa, pb, joined := Projected(r1.group, columns), Projected(r2.group, columns), JoinedTo(rows, r2.accountId);
    assert HasGroup([r1, r2], r3.group.id);
    assert Neighbors(rows, columns) == [pa, pb];
    assert r2 in rows && r3 in rows;
    assert joined(pa) && joined(pb);
    FilterNext([], pa, joined);
    FilterNext([pa], pb, joined);
    assert [] + [pa] == [pa] && [pa] + [pb] == [pa, pb];
  }

  /** The order can differ from the account's own query: it is that of the whole stream. */
  lemma OrderCanDiffer(a: Group, b: Group, table: seq<JoinRow>, visible: Group -> bool)
    requires a.id != b.id && visible(a) && visible(b)
    requires table == [JoinRow(1, a), JoinRow(2, b), JoinRow(2, a)]
    ensures BatchedGroups(Filter(table, InBatch(visible, [1, 2])), ["id"], 2) == [Projected(a, ["id"]), Projected(b, ["id"])]
    ensures NaiveGroups(table, visible, ["id"], 2) == [Projected(b, ["id"]), Projected(a, ["id"])]
  {
    var r1, r2, r3 := JoinRow(1, a), JoinRow(2, b), JoinRow(2, a);
    FilterOfThree(r1, r2, r3, InBatch(visible, [1, 2]));
    FilterOfThree(r1, r2, r3, InOwn(visible, 2));
    NeighborsOfTwo(r2, r3, ["id"]);
    BatchOrder(r1, r2, r3, ["id"]);
  }

  // ----- When the order differs -----

  /**
    Row `k` is the account's first row of its group, the account has row `j` of another group before
    it, and in the whole stream that group appears after row `i` of the first one.
   */
  ghost predicate OutOfOrderAt(rows: seq<JoinRow>, id: int, i: nat, j: nat, k: nat)
    requires i < j < k < |rows|
  {
    && rows[j].accountId == id && rows[k].accountId == id
    && rows[i].group.id == rows[k].group.id != rows[j].group.id
    && (forall l :: 0 <= l < k && rows[l].accountId == id ==> rows[l].group.id != rows[k].group.id)
    && (forall l :: 0 <= l < i ==> rows[l].group.id != rows[j].group.id)
  }

  ghost predicate OutOfOrder(rows: seq<JoinRow>, id: int) {
    exists i, j, k :: 0 <= i < j < k < |rows| && OutOfOrderAt(rows, id, i, j, k)
  }

  /** Group `g` has a row before the first row of group `h`. */
  ghost predicate Precedes(rows: seq<JoinRow>, g: int, h: int) {
    exists i :: 0 <= i < |rows| && FirstAfter(rows, g, h, i)
  }

  ghost predicate FirstAfter(rows: seq<JoinRow>, g: int, h: int, i: nat)
    requires i < |rows|
  {
    rows[i].group.id == g && forall l :: 0 <= l < i ==> rows[l].group.id != h
  }

  /** A row brings its account a group that stands before another group of the account. */
  ghost predicate LateRow(init: seq<JoinRow>, r: JoinRow, id: int) {
    r.accountId == id && !Joined(init, id, r.group.id) && exists h :: Overtaken(init, r, id, h)
  }

  ghost predicate Overtaken(init: seq<JoinRow>, r: JoinRow, id: int, h: int) {
    h != r.group.id && Joined(init, id, h) && Precedes(init, r.group.id, h)
  }

  lemma OutOfOrderNext(init: seq<JoinRow>, r: JoinRow, id: int)
    ensures OutOfOrder(init + [r], id) <==> OutOfOrder(init, id) || LateRow(init, r, id)
  {
    var rows := init + [r];
    if i, j, k :| 0 <= i < j < k < |rows| && OutOfOrderAt(rows, id, i, j, k) {
      if k < |init| { OutOfOrderKept(init, r, id, i, j, k); } else { LateRowFrom(init, r, id, i, j); }
    }
    if i, j, k :| 0 <= i < j < k < |init| && OutOfOrderAt(init, id, i, j, k) {
      OutOfOrderKept(init, r, id, i, j, k);
    }
    if LateRow(init, r, id) { LateRowIsOutOfOrder(init, r, id); }
  }

  lemma OutOfOrderKept(init: seq<JoinRow>, r: JoinRow, id: int, i: nat, j: nat, k: nat)
    requires i < j < k < |init|
    ensures OutOfOrderAt(init + [r], id, i, j, k) <==> OutOfOrderAt(init, id, i, j, k)
  {
    assert forall l :: 0 <= l < |init| ==> (init + [r])[l] == init[l];
  }

  lemma LateRowFrom(init: seq<JoinRow>, r: JoinRow, id: int, i: nat, j: nat)
    requires i < j < |init| && OutOfOrderAt(init + [r], id, i, j, |init|)
    ensures LateRow(init, r, id)
  {
    var rows := init + [r];
    assert rows[|init|] == r && rows[i] == init[i] && rows[j] == init[j];
    forall s | s in init && s.accountId == id ensures s.group.id != r.group.id {
      var l :| 0 <= l < |init| && init[l] == s;
      assert rows[l] == s;
    }
    forall l | 0 <= l < i ensures init[l].group.id != init[j].group.id { assert rows[l] == init[l]; }
    assert FirstAfter(init, r.group.id, init[j].group.id, i);
    assert Overtaken(init, r, id, init[j].group.id);
  }

  lemma LateRowIsOutOfOrder(init: seq<JoinRow>, r: JoinRow, id: int)
    requires LateRow(init, r, id)
    ensures OutOfOrder(init + [r], id)
  {
    var h :| Overtaken(init, r, id, h);
    var s :| s in init && s.accountId == id && s.group.id == h;
    var j :| 0 <= j < |init| && init[j] == s;
    var i :| 0 <= i < |init| && FirstAfter(init, r.group.id, h, i);
    assert i < j;
    assert OutOfOrderAt(init + [r], id, i, j, |init|);
  }

  // ----- Where a group stands -----

  lemma PrecedesNext(init: seq<JoinRow>, r: JoinRow, g: int, h: int)
    ensures Precedes(init + [r], g, h) <==> Precedes(init, g, h) || (r.group.id == g && !HasGroup(init, h))
  {
    var rows := init + [r];
    if i :| 0 <= i < |rows| && FirstAfter(rows, g, h, i) {
      if i < |init| {
        assert forall l :: 0 <= l < i ==> rows[l] == init[l];
        assert FirstAfter(init, g, h, i);
      } else {
        assert forall l :: 0 <= l < i ==> rows[l] == init[l];
      }
    }
    if i :| 0 <= i < |init| && FirstAfter(init, g, h, i) { assert FirstAfter(rows, g, h, i); }
    if r.group.id == g && !HasGroup(init, h) {
      assert forall l :: 0 <= l < |init| ==> init[l] in init;
      assert FirstAfter(rows, g, h, |init|);
    }
  }

  /** The list splits at a group, and behind it stand exactly the groups that it precedes. */
  ghost predicate SplitsAt(rows: seq<JoinRow>, columns: seq<string>, g: int, x: seq<Group>, p: Group, y: seq<Group>) {
    && Neighbors(rows, columns) == x + [p] + y && p.id == g
    && forall h :: h != g && HasGroup(rows, h) ==> (HasId(y, h) <==> Precedes(rows, g, h))
  }

  ghost predicate HasId(gs: seq<Group>, h: int) {
    exists q :: q in gs && q.id == h
  }

  lemma {:induction false} SplitAt(rows: seq<JoinRow>, columns: seq<string>, g: int)
    returns (x: seq<Group>, p: Group, y: seq<Group>)
    requires HasGroup(rows, g)
    ensures SplitsAt(rows, columns, g, x, p, y)
  {
    var init, r := rows[..|rows| - 1], rows[|rows| - 1];
    assert rows == init + [r];
    HasGroupNext(init, r);
    forall h ensures Precedes(rows, g, h) <==> Precedes(init, g, h) || (r.group.id == g && !HasGroup(init, h)) {
      PrecedesNext(init, r, g, h);
    }
    if !HasGroup(init, g) {
      x, p, y := Neighbors(init, columns), Projected(r.group, columns), [];
      NothingPrecedes(init, g);
      assert x + [p] == x + [p] + y;
    } else {
      x, p, y := SplitAt(init, columns, g);
      if !HasGroup(init, r.group.id) {
        var last := Projected(r.group, columns);
        SplitGrows(init, r, columns, g, x, p, y);
        assert x + [p] + y + [last] == x + [p] + (y + [last]);
        y := y + [last];
      } else {
        assert Neighbors(init, columns) + [] == Neighbors(init, columns);
      }
    }
  }

  lemma HasGroupNext(init: seq<JoinRow>, r: JoinRow)
    ensures forall h :: HasGroup(init + [r], h) <==> HasGroup(init, h) || h == r.group.id
  {
    assert forall s :: s in init + [r] <==> s in init || s == r;
  }

  lemma NothingPrecedes(rows: seq<JoinRow>, g: int)
    requires !HasGroup(rows, g)
    ensures forall h :: !Precedes(rows, g, h)
  {
    forall i | 0 <= i < |rows| ensures rows[i].group.id != g { assert rows[i] in rows; }
  }

  /** A new group at the end is behind every group that is there already. */
  lemma SplitGrows(init: seq<JoinRow>, r: JoinRow, columns: seq<string>, g: int, x: seq<Group>, p: Group, y: seq<Group>)
    requires SplitsAt(init, columns, g, x, p, y) && HasGroup(init, g) && !HasGroup(init, r.group.id)
    ensures forall h :: h != g && (HasGroup(init, h) || h == r.group.id) ==>
      (HasId(y + [Projected(r.group, columns)], h) <==> Precedes(init, g, h))
  {
    var last := Projected(r.group, columns);
    forall h ensures HasId(y + [last], h) <==> HasId(y, h) || h == r.group.id {
      if HasId(y, h) { var q :| q in y && q.id == h; assert q in y + [last]; }
      if h == r.group.id { assert last in y + [last]; }
    }
    forall s | s in init ensures s.group.id != r.group.id {}
    var s :| s in init && s.group.id == g;
    var i :| 0 <= i < |init| && init[i] == s;
    assert forall l :: 0 <= l < |init| ==> init[l] in init;
    assert FirstAfter(init, g, r.group.id, i);
  }

  // ----- One more row -----

  lemma OwnNext(init: seq<JoinRow>, r: JoinRow, id: int)
    ensures Filter(init + [r], OfAccount(id)) == Filter(init, OfAccount(id)) + if r.accountId == id then [r] else []
  {
    assert (init + [r])[..|init|] == init;
  }

  lemma OwnHasGroup(rows: seq<JoinRow>, id: int, gid: int)
    ensures HasGroup(Filter(rows, OfAccount(id)), gid) <==> Joined(rows, id, gid)
  {
    FilterMembers(rows, OfAccount(id));
    if Joined(rows, id, gid) {
      var s :| s in rows && s.accountId == id && s.group.id == gid;
      assert s in Filter(rows, OfAccount(id));
    }
  }

  lemma JoinedNext(init: seq<JoinRow>, r: JoinRow, id: int, gid: int)
    ensures Joined(init + [r], id, gid) <==> Joined(init, id, gid) || (r.accountId == id && r.group.id == gid)
  {
    assert forall x :: x in init + [r] <==> x in init || x == r;
  }

  ghost predicate SameOrder(rows: seq<JoinRow>, columns: seq<string>, id: int) {
    BatchedGroups(rows, columns, id) == Neighbors(Filter(rows, OfAccount(id)), columns)
  }

  /** A row of a new group appends it to both lists, or to neither. */
  lemma NewGroupStep(init: seq<JoinRow>, r: JoinRow, columns: seq<string>, id: int)
    requires !HasGroup(init, r.group.id)
    ensures SameOrder(init + [r], columns, id) <==> SameOrder(init, columns, id)
    ensures !LateRow(init, r, id)
  {
    var rows, ns, own := init + [r], Neighbors(init, columns), Filter(init, OfAccount(id));
    NeighborsNext(init, r, columns);
    forall x | x in ns ensures JoinedTo(rows, id)(x) == JoinedTo(init, id)(x) {
      NeighborsHaveRows(init, columns, x);
      JoinedNext(init, r, id, x.id);
    }
    FilterSame(ns, JoinedTo(rows, id), JoinedTo(init, id));
    var p := Projected(r.group, columns);
    JoinedNext(init, r, id, r.group.id);
    FilterNext(ns, p, JoinedTo(rows, id));
    OwnNext(init, r, id);
    OwnHasGroup(init, id, r.group.id);
    NothingPrecedes(init, r.group.id);
    var batched, naive := Filter(ns, JoinedTo(init, id)), Neighbors(own, columns);
    if r.accountId == id {
      NeighborsNext(own, r, columns);
      SameEnd(batched, naive, p);
    } else {
      assert own + [] == own && batched + [] == batched;
    }
  }

  lemma SameEnd<T>(a: seq<T>, b: seq<T>, x: T)
    ensures a + [x] == b + [x] <==> a == b
  {
    assert (a + [x])[..|a|] == a && (b + [x])[..|b|] == b;
  }

  /** A row that brings its account nothing new changes neither list. */
  lemma KnownGroupStep(init: seq<JoinRow>, r: JoinRow, columns: seq<string>, id: int)
    requires HasGroup(init, r.group.id)
    requires r.accountId != id || Joined(init, id, r.group.id)
    ensures SameOrder(init + [r], columns, id) <==> SameOrder(init, columns, id)
    ensures !LateRow(init, r, id)
  {
    var rows, ns, own := init + [r], Neighbors(init, columns), Filter(init, OfAccount(id));
    NeighborsNext(init, r, columns);
    assert ns + [] == ns;
    forall x | x in ns ensures JoinedTo(rows, id)(x) == JoinedTo(init, id)(x) { JoinedNext(init, r, id, x.id); }
    FilterSame(ns, JoinedTo(rows, id), JoinedTo(init, id));
    OwnNext(init, r, id);
    OwnHasGroup(init, id, r.group.id);
    if r.accountId == id {
      NeighborsNext(own, r, columns);
      assert Neighbors(own, columns) + [] == Neighbors(own, columns);
    } else {
      assert own + [] == own;
    }
  }

  /** The two lists around the group that a late row brings. */
  lemma LateJoinParts(init: seq<JoinRow>, r: JoinRow, columns: seq<string>, id: int)
    returns (a: seq<Group>, b: seq<Group>)
    requires HasGroup(init, r.group.id) && GroupsHaveKey(init + [r])
    requires r.accountId == id && !Joined(init, id, r.group.id)
    ensures BatchedGroups(init, columns, id) == a + b
    ensures BatchedGroups(init + [r], columns, id) == a + [Projected(r.group, columns)] + b
    ensures r.group.id !in IdsIn(b)
    ensures b != [] <==> LateRow(init, r, id)
  {
    hide HasGroup, Joined, GroupsHaveKey, Projected, DistinctIds, JoinedTo, LateRow, Precedes, Neighbors;
    var g, before := r.group.id, JoinedTo(init, id);
    var x, p, y := SplitAt(init, columns, g);
    NeighborsNext(init, r, columns);
    assert Neighbors(init, columns) + [] == Neighbors(init, columns);
    NeighborsDistinct(init, columns);
    GroupIsKnown(init, r, columns, p);
    a, b := Filter(x, before), Filter(y, before);
    LateFilters(init, r, id, x, p, y);
    LateMembers(init, id, x, p, y);
    LateRowBehind(init, r, columns, id, x, p, y, b);
  }

  lemma LateMembers(init: seq<JoinRow>, id: int, x: seq<Group>, p: Group, y: seq<Group>)
    requires DistinctIds(x + [p] + y)
    ensures var b := Filter(y, JoinedTo(init, id));
      && p.id !in IdsIn(b)
      && (forall q :: q in b <==> q in y && Joined(init, id, q.id))
      && (forall q :: q in y ==> q.id != p.id)
  {
    FilterMembers(y, JoinedTo(init, id));
    forall q | q in y ensures q.id != p.id { OthersDiffer(x, p, y, q); }
  }

  lemma LateFilters(init: seq<JoinRow>, r: JoinRow, id: int, x: seq<Group>, p: Group, y: seq<Group>)
    requires DistinctIds(x + [p] + y) && p.id == r.group.id
    requires r.accountId == id && !Joined(init, id, p.id)
    ensures var before := JoinedTo(init, id);
      && Filter(x + [p] + y, before) == Filter(x, before) + Filter(y, before)
      && Filter(x + [p] + y, JoinedTo(init + [r], id)) == Filter(x, before) + [p] + Filter(y, before)
  {
    hide DistinctIds;
    var before, now := JoinedTo(init, id), JoinedTo(init + [r], id);
    forall q | q in x || q in y ensures now(q) == before(q) {
      OthersDiffer(x, p, y, q);
      JoinedNext(init, r, id, q.id);
    }
    FilterSame(x, now, before);
    FilterSame(y, now, before);
    JoinedNext(init, r, id, p.id);
    FilterThree(x, p, y, before);
    FilterThree(x, p, y, now);
    assert Filter(x, before) + [] == Filter(x, before);
  }

  ghost function IdsIn(gs: seq<Group>): set<int> {
    set q | q in gs :: q.id
  }

  lemma OthersDiffer(x: seq<Group>, p: Group, y: seq<Group>, q: Group)
    requires DistinctIds(x + [p] + y) && (q in x || q in y)
    ensures q.id != p.id
  {
    var all := x + [p] + y;
    assert all[|x|] == p;
    if q in x {
      var i :| 0 <= i < |x| && x[i] == q;
      assert all[i] == q;
    } else {
      var i :| 0 <= i < |y| && y[i] == q;
      assert all[|x| + 1 + i] == q;
    }
  }

  lemma GroupIsKnown(init: seq<JoinRow>, r: JoinRow, columns: seq<string>, p: Group)
    requires GroupsHaveKey(init + [r]) && p in Neighbors(init, columns) && p.id == r.group.id
    ensures p == Projected(r.group, columns)
  {
    NeighborsHaveRows(init, columns, p);
    var s :| s in init && p == Projected(s.group, columns);
    assert s in init + [r] && r in init + [r];
  }

  lemma FilterThree(x: seq<Group>, p: Group, y: seq<Group>, f: Group -> bool)
    ensures Filter(x + [p] + y, f) == Filter(x, f) + (if f(p) then [p] else []) + Filter(y, f)
  {
    FilterConcat(x + [p], y, f);
    FilterNext(x, p, f);
  }

  lemma LateRowBehind(
    init: seq<JoinRow>, r: JoinRow, columns: seq<string>, id: int, x: seq<Group>, p: Group, y: seq<Group>,
    b: seq<Group>)
    requires SplitsAt(init, columns, r.group.id, x, p, y)
    requires r.accountId == id && !Joined(init, id, r.group.id)
    requires forall q :: q in b <==> q in y && Joined(init, id, q.id)
    requires forall q :: q in y ==> q.id != r.group.id
    ensures b != [] <==> LateRow(init, r, id)
  {
    if b != [] {
      var q := b[0];
      assert q in b && HasId(y, q.id) && HasGroup(init, q.id);
      assert Overtaken(init, r, id, q.id);
    }
    if LateRow(init, r, id) {
      var h :| Overtaken(init, r, id, h);
      assert HasGroup(init, h);
      var q :| q in y && q.id == h;
      assert q in b;
    }
  }

  /** A row that brings a known group late keeps the order exactly when nothing of the account stands behind it. */
  lemma LateJoinStep(init: seq<JoinRow>, r: JoinRow, columns: seq<string>, id: int)
    requires HasGroup(init, r.group.id) && GroupsHaveKey(init + [r])
    requires r.accountId == id && !Joined(init, id, r.group.id)
    ensures SameOrder(init + [r], columns, id) <==> SameOrder(init, columns, id) && !LateRow(init, r, id)
  {
    var own, p := Filter(init, OfAccount(id)), Projected(r.group, columns);
    var a, b := LateJoinParts(init, r, columns, id);
    OwnNext(init, r, id);
    OwnHasGroup(init, id, r.group.id);
    NeighborsNext(own, r, columns);
    var naive := Neighbors(own, columns);
    assert Neighbors(own + [r], columns) == naive + [p];
    if b == [] {
      assert a + b == a && a + [p] + b == a + [p];
      SameEnd(a, naive, p);
    } else {
      var now := a + [p] + b;
      assert now[|now| - 1] == b[|b| - 1] && b[|b| - 1].id in IdsIn(b);
      assert (naive + [p])[|naive|] == p;
    }
  }

  /**
    Over any stream of rows: the batched edge has the order of the account's own rows exactly when no
    row of the account is out of order.
   */
  lemma {:induction false} SameOrderExactly(rows: seq<JoinRow>, columns: seq<string>, id: int)
    requires GroupsHaveKey(rows)
    ensures SameOrder(rows, columns, id) <==> !OutOfOrder(rows, id)
  {
    if rows != [] {
      var init, r := rows[..|rows| - 1], rows[|rows| - 1];
      assert rows == init + [r];
      assert forall s :: s in init ==> s in rows;
      SameOrderExactly(init, columns, id);
      OutOfOrderNext(init, r, id);
      if !HasGroup(init, r.group.id) { NewGroupStep(init, r, columns, id); }
      else if r.accountId != id || Joined(init, id, r.group.id) { KnownGroupStep(init, r, columns, id); }
      else { LateJoinStep(init, r, columns, id); }
    }
  }

  /** Exactly when the batched edge differs from the account's own query. */
  lemma OrderDiffersExactly(table: seq<JoinRow>, visible: Group -> bool, columns: seq<string>, ids: seq<int>, id: int)
    requires GroupsHaveKey(table) && id in ids
    ensures var rows := Filter(table, InBatch(visible, ids));
      BatchedGroups(rows, columns, id) != NaiveGroups(table, visible, columns, id) <==> OutOfOrder(rows, id)
  {
    FilterMembers(table, InBatch(visible, ids));
    FilterTwice(table, InBatch(visible, ids), OfAccount(id), InOwn(visible, id));
    SameOrderExactly(Filter(table, InBatch(visible, ids)), columns, id);
  }

  /** The rows of each group are next to each other, as when the query is ordered by group. */
  ghost predicate Grouped(rows: seq<JoinRow>) {
    forall i, j, k :: 0 <= i < j < k < |rows| && rows[i].group.id == rows[k].group.id ==> rows[j].group.id == rows[i].group.id
  }

  /** Under a query ordered by group the batched edge equals the account's own query, order included. */
  lemma OrderedBatchedGroupsEqual(
    table: seq<JoinRow>, visible: Group -> bool, columns: seq<string>, ids: seq<int>, id: int)
    requires GroupsHaveKey(table) && id in ids
    requires Grouped(Filter(table, InBatch(visible, ids)))
    ensures BatchedGroups(Filter(table, InBatch(visible, ids)), columns, id) == NaiveGroups(table, visible, columns, id)
  {
    OrderDiffersExactly(table, visible, columns, ids, id);
  }
}
