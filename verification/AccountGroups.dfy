/** loadGroups: the many-to-many edge of Account, read from one join with an extra leading column. */
module AccountGroups {
  import opened Sequences
  import opened Selection
  import opened NodeIndex
  import opened AccountEntity
  import opened AccountQuery

  /** A row of the join of account_groups and groups. */
  datatype JoinRow = JoinRow(accountId: int, group: Group)

  /** The groups in a join row hold their own ID, as the column "id". */
  ghost predicate WellFormed(table: seq<JoinRow>) {
    forall r :: r in table ==> "id" in r.group.cells && r.group.cells["id"] == Plain(IntValue(r.group.id))
  }

  function CellOf(g: Group, column: string): Cell {
    if column in g.cells then g.cells[column] else Null
  }

  /** A group as read through some columns. */
  function Projected(g: Group, columns: seq<string>): Group {
    Group(g.id, map c | c in columns :: CellOf(g, c))
  }

  function GroupCells(g: Group, columns: seq<string>): seq<Cell> {
    seq(|columns|, i requires 0 <= i < |columns| => CellOf(g, columns[i]))
  }

  /** What the driver delivers for a join row: the account's ID in front of the group's columns. */
  function RowValues(r: JoinRow, columns: seq<string>): seq<Cell> {
    [Plain(IntValue(r.accountId))] + GroupCells(r.group, columns)
  }

  function IntOf(c: Cell): int {
    if c.Plain? && c.value.IntValue? then c.value.n else 0
  }

  /** The group query's own Assign: a new group from the columns and their values. */
  function GroupFrom(columns: seq<string>, values: seq<Cell>): Group
    requires |columns| == |values|
  {
    if columns == [] then Group(0, map[])
    else
      var n := |columns| - 1;
      var g := GroupFrom(columns[..n], values[..n]);
      Group(if columns[n] == "id" then IntOf(values[n]) else g.id, g.cells[columns[n] := values[n]])
  }

  lemma {:induction false} GroupFromCells(g: Group, columns: seq<string>)
    requires "id" in g.cells && g.cells["id"] == Plain(IntValue(g.id))
    ensures GroupFrom(columns, GroupCells(g, columns)) ==
      Projected(g, columns).(id := if "id" in columns then g.id else 0)
  {
    if columns != [] {
      var n := |columns| - 1;
      GroupFromCells(g, columns[..n]);
      assert GroupCells(g, columns)[..n] == GroupCells(g, columns[..n]);
      assert columns == columns[..n] + [columns[n]];
    }
  }

  /** Cutting off the leading column on both sides keeps columns and values aligned. */
  lemma WrappedAssignAligned(r: JoinRow, columns: seq<string>)
    requires WellFormed([r]) && columns != [] && columns[0] == "id"
    ensures var values, all := RowValues(r, columns), ["account_id"] + columns;
      && |values| == |all|
      && IntOf(values[0]) == r.accountId && IntOf(values[1]) == r.group.id
      && GroupFrom(all[1..], values[1..]) == Projected(r.group, columns)
  {
    assert r in [r];
    GroupFromCells(r.group, columns);
    assert (["account_id"] + columns)[1..] == columns;
    assert RowValues(r, columns)[1..] == GroupCells(r.group, columns);
  }

  // ----- What the edge should hold -----

  ghost predicate HasGroup(rows: seq<JoinRow>, gid: int) {
    exists r :: r in rows && r.group.id == gid
  }

  ghost predicate Joined(rows: seq<JoinRow>, id: int, gid: int) {
    exists r :: r in rows && r.accountId == id && r.group.id == gid
  }

  /** The groups of the rows, each once, in the order of first appearance. */
  ghost function Neighbors(rows: seq<JoinRow>, columns: seq<string>): seq<Group> {
    if rows == [] then []
    else
      var init, r := rows[..|rows| - 1], rows[|rows| - 1];
      Neighbors(init, columns) + if HasGroup(init, r.group.id) then [] else [Projected(r.group, columns)]
  }

  ghost function JoinedTo(rows: seq<JoinRow>, id: int): Group -> bool {
    (g: Group) => Joined(rows, id, g.id)
  }

  function InBatch(visible: Group -> bool, ids: seq<int>): JoinRow -> bool {
    (r: JoinRow) => visible(r.group) && r.accountId in ids
  }

  function InOwn(visible: Group -> bool, id: int): JoinRow -> bool {
    (r: JoinRow) => visible(r.group) && r.accountId == id
  }

  function OfAccount(id: int): JoinRow -> bool {
    (r: JoinRow) => r.accountId == id
  }

  /** The edge after the batched query. */
  ghost function BatchedGroups(rows: seq<JoinRow>, columns: seq<string>, id: int): seq<Group> {
    Filter(Neighbors(rows, columns), JoinedTo(rows, id))
  }

  // ----- The loader -----

  /** The nodes that wait for each group, after some rows. */
  ghost predicate Waiting(nids: map<int, set<Account>>, byID: map<int, Account>, rows: seq<JoinRow>) {
    && (forall g :: g in nids <==> HasGroup(rows, g))
    && (forall g :: g in nids ==> nids[g] == set r | r in rows && r.group.id == g && r.accountId in byID :: byID[r.accountId])
  }

  /** The wrapped Assign: notes who waits for the group, and lets a group through at its first row only. */
  method AssignRow(columns: seq<string>, values: seq<Cell>, byID: map<int, Account>, nids: map<int, set<Account>>)
    returns (nids': map<int, set<Account>>, found: seq<Group>)
    requires |columns| == |values| >= 2 && IntOf(values[0]) in byID
    ensures var g, a := IntOf(values[1]), byID[IntOf(values[0])];
      && nids' == nids[g := (if g in nids then nids[g] else {}) + {a}]
      && found == if g in nids then [] else [GroupFrom(columns[1..], values[1..])]
  {
    var outValue := IntOf(values[0]);
    var inValue := IntOf(values[1]);
    if inValue !in nids {
      assert {} + {byID[outValue]} == {byID[outValue]};
      return nids[inValue := {byID[outValue]}], [GroupFrom(columns[1..], values[1..])];
    }
    return nids[inValue := nids[inValue] + {byID[outValue]}], [];
  }

  lemma WaitingNext(nids: map<int, set<Account>>, byID: map<int, Account>, rows: seq<JoinRow>, r: JoinRow)
    requires Waiting(nids, byID, rows) && r.accountId in byID
    ensures var g := r.group.id;
      Waiting(nids[g := (if g in nids then nids[g] else {}) + {byID[r.accountId]}], byID, rows + [r])
  {
    var g := r.group.id;
    assert forall x :: x in rows + [r] <==> x in rows || x == r;
    assert forall h :: HasGroup(rows + [r], h) <==> HasGroup(rows, h) || h == g by {
      forall h ensures HasGroup(rows + [r], h) <==> HasGroup(rows, h) || h == g {
        if h == g { assert r in rows + [r]; }
      }
    }
  }

  /** One round over the nodes of a group, in whatever order the set yields them. */
  method Attach(nodes: seq<Account>, targets: set<Account>, g: Group)
    requires forall a :: a in targets ==> a in nodes
    modifies nodes`groups
    ensures forall a :: a in nodes ==> a.groups == old(a.groups) + if a in targets then [g] else []
  {
    var rest := targets;
    while rest != {}
      invariant rest <= targets
      invariant forall a :: a in nodes ==> a.groups == old(a.groups) + if a in targets && a !in rest then [g] else []
      decreases |rest|
    {
      var kn :| kn in rest;
      assert kn in nodes;
      kn.groups := kn.groups + [g];
      rest := rest - {kn};
    }
  }

  /** The first part of loadGroups: the rows of the join become the distinct groups and who waits for them. */
  method ReadRows(rows: seq<JoinRow>, columns: seq<string>, byID: map<int, Account>)
    returns (nids: map<int, set<Account>>, neighbors: seq<Group>)
    requires WellFormed(rows) && columns != [] && columns[0] == "id"
    requires forall r :: r in rows ==> r.accountId in byID
    ensures neighbors == Neighbors(rows, columns)
    ensures Waiting(nids, byID, rows)
  {
    nids, neighbors := map[], [];
    for k := 0 to |rows|
      invariant neighbors == Neighbors(rows[..k], columns)
      invariant Waiting(nids, byID, rows[..k])
    {
      var r := rows[k];
      var values := RowValues(r, columns);
      assert r in rows;
      WrappedAssignAligned(r, columns);
      WaitingNext(nids, byID, rows[..k], r);
      assert rows[..k + 1] == rows[..k] + [r];
      var found;
      nids, found := AssignRow(["account_id"] + columns, values, byID, nids);
      neighbors := neighbors + found;
    }
    assert rows[..|rows|] == rows;
  }

  method LoadGroups(nodes: seq<Account>, table: seq<JoinRow>, visible: Group -> bool, columns: seq<string>)
    returns (ok: bool)
    requires DistinctNodes(nodes) && WellFormed(table)
    requires columns != [] && columns[0] == "id"
    modifies nodes`groups
    ensures ok
    ensures var rows := Filter(table, InBatch(visible, IdsOf(nodes, NodeId())));
      forall i :: 0 <= i < |nodes| ==>
        nodes[i].groups == if IsLast(nodes, NodeId(), i) then BatchedGroups(rows, columns, nodes[i].Id()) else []
  {
    var edgeIDs, byID := IndexById(nodes, NodeId());
    for i := 0 to |nodes|
      invariant forall j :: 0 <= j < i ==> nodes[j].groups == []
    {
      nodes[i].groups := [];
    }
    var rows := Filter(table, InBatch(visible, edgeIDs));
    FilterMembers(table, InBatch(visible, edgeIDs));
    var nids, neighbors := ReadRows(rows, columns, byID);
    forall g | g in neighbors ensures g.id in nids && forall a :: a in nids[g.id] ==> a in nodes {
      NeighborsHaveRows(rows, columns, g);
      WaitersAreNodes(nids, byID, nodes, rows, g.id);
    }
    ok := AttachAll(nodes, nids, neighbors);
    forall i | 0 <= i < |nodes|
      ensures nodes[i].groups == if IsLast(nodes, NodeId(), i) then BatchedGroups(rows, columns, nodes[i].Id()) else []
    {
      assert nodes[i] in nodes;
      WaitsExactly(nids, byID, nodes, rows, columns, i);
    }
  }

  function WaitsIn(nids: map<int, set<Account>>, a: Account): Group -> bool {
    (g: Group) => g.id in nids && a in nids[g.id]
  }

  /** The last part of loadGroups: every distinct group goes to the nodes that wait for it. */
  method AttachAll(nodes: seq<Account>, nids: map<int, set<Account>>, neighbors: seq<Group>) returns (ok: bool)
    requires forall g :: g in neighbors && g.id in nids ==> forall a :: a in nids[g.id] ==> a in nodes
    requires forall a :: a in nodes ==> a.groups == []
    modifies nodes`groups
    ensures ok <==> forall g :: g in neighbors ==> g.id in nids
    ensures ok ==> forall a :: a in nodes ==> a.groups == Filter(neighbors, WaitsIn(nids, a))
  {
    for k := 0 to |neighbors|
      invariant forall j :: 0 <= j < k ==> neighbors[j].id in nids
      invariant forall a :: a in nodes ==> a.groups == Filter(neighbors[..k], WaitsIn(nids, a))
    {
      var g := neighbors[k];
      assert g in neighbors;
      if g.id !in nids { return false; }
      Attach(nodes, nids[g.id], g);
      assert neighbors[..k + 1][..k] == neighbors[..k];
    }
    assert neighbors[..|neighbors|] == neighbors;
    ok := true;
  }

  lemma {:induction false} WaitsExactly(
    nids: map<int, set<Account>>, byID: map<int, Account>, nodes: seq<Account>, rows: seq<JoinRow>,
    columns: seq<string>, i: nat)
    requires Waiting(nids, byID, rows) && Indexes(byID, nodes, NodeId(), |nodes|) && i < |nodes|
    ensures Filter(Neighbors(rows, columns), WaitsIn(nids, nodes[i])) ==
      if IsLast(nodes, NodeId(), i) then BatchedGroups(rows, columns, nodes[i].Id()) else []
  {
    var neighbors, id := Neighbors(rows, columns), nodes[i].Id();
    forall g | g in neighbors
      ensures WaitsIn(nids, nodes[i])(g) <==> IsLast(nodes, NodeId(), i) && JoinedTo(rows, id)(g)
    {
      NeighborsHaveRows(rows, columns, g);
      WaitsForGroup(nids, byID, nodes, rows, g.id, i);
    }
    if IsLast(nodes, NodeId(), i) {
      FilterSame(neighbors, WaitsIn(nids, nodes[i]), JoinedTo(rows, id));
    } else {
      FilterNone(neighbors, WaitsIn(nids, nodes[i]));
    }
  }

  lemma WaitersAreNodes(
    nids: map<int, set<Account>>, byID: map<int, Account>, nodes: seq<Account>, rows: seq<JoinRow>, g: int)
    requires Waiting(nids, byID, rows) && Indexes(byID, nodes, NodeId(), |nodes|) && g in nids
    ensures forall a :: a in nids[g] ==> a in nodes
  {
    assert nodes[..|nodes|] == nodes;
  }

  lemma {:induction false} NeighborsHaveRows(rows: seq<JoinRow>, columns: seq<string>, g: Group)
    requires g in Neighbors(rows, columns)
    ensures exists r :: r in rows && g == Projected(r.group, columns)
    ensures HasGroup(rows, g.id)
  {
    var init := rows[..|rows| - 1];
    if g in Neighbors(init, columns) { NeighborsHaveRows(init, columns, g); }
  }

  lemma WaitsForGroup(
    nids: map<int, set<Account>>, byID: map<int, Account>, nodes: seq<Account>, rows: seq<JoinRow>, g: int, i: nat)
    requires Waiting(nids, byID, rows) && Indexes(byID, nodes, NodeId(), |nodes|) && g in nids && i < |nodes|
    ensures nodes[i] in nids[g] <==> IsLast(nodes, NodeId(), i) && Joined(rows, nodes[i].Id(), g)
  {
    assert nodes[..|nodes|] == nodes;
  }

  // ----- Agreement with one query per account -----

  /** One account's own query over the join. */
  ghost function NaiveGroups(table: seq<JoinRow>, visible: Group -> bool, columns: seq<string>, id: int): seq<Group> {
    Neighbors(Filter(table, InOwn(visible, id)), columns)
  }

  /** groups has a primary key: rows of the join with the same group ID hold the same group. */
  ghost predicate GroupsHaveKey(table: seq<JoinRow>) {
    forall r, s :: r in table && s in table && r.group.id == s.group.id ==> r.group == s.group
  }

  ghost predicate DistinctIds(gs: seq<Group>) {
    forall i, j :: 0 <= i < j < |gs| ==> gs[i].id != gs[j].id
  }

  lemma {:induction false} NeighborsDistinct(rows: seq<JoinRow>, columns: seq<string>)
    ensures DistinctIds(Neighbors(rows, columns))
    ensures forall gid :: HasGroup(rows, gid) <==> exists g :: g in Neighbors(rows, columns) && g.id == gid
  {
    if rows != [] {
      var init, r := rows[..|rows| - 1], rows[|rows| - 1];
      NeighborsDistinct(init, columns);
      assert rows == init + [r];
      forall gid ensures HasGroup(rows, gid) <==> HasGroup(init, gid) || gid == r.group.id {
        if gid == r.group.id { assert r in rows; }
      }
      forall gid ensures HasGroup(rows, gid) <==> exists g :: g in Neighbors(rows, columns) && g.id == gid {
        if gid == r.group.id && !HasGroup(init, gid) { assert Projected(r.group, columns) in Neighbors(rows, columns); }
        if HasGroup(init, gid) {
          var g :| g in Neighbors(init, columns) && g.id == gid;
          assert g in Neighbors(rows, columns);
        }
      }
    }
  }

  lemma {:induction false} FilterDistinct(gs: seq<Group>, p: Group -> bool)
    requires DistinctIds(gs)
    ensures DistinctIds(Filter(gs, p))
  {
    if gs != [] {
      var init, last := gs[..|gs| - 1], gs[|gs| - 1];
      FilterDistinct(init, p);
      FilterMembers(init, p);
      forall x | x in init ensures x.id != last.id {
        var i :| 0 <= i < |init| && init[i] == x;
        assert gs[i].id != last.id;
      }
      var f := Filter(init, p);
      forall i | 0 <= i < |f| ensures f[i].id != last.id { assert f[i] in f; }
    }
  }

  lemma {:induction false} DistinctCounts(gs: seq<Group>, g: Group)
    requires DistinctIds(gs)
    ensures multiset(gs)[g] == if g in gs then 1 else 0
  {
    if gs != [] {
      var init, last := gs[..|gs| - 1], gs[|gs| - 1];
      DistinctCounts(init, g);
      assert gs == init + [last];
      if g in init { var i :| 0 <= i < |init| && init[i] == g; assert gs[i].id != last.id; }
    }
  }

  lemma NeighborsMembers(rows: seq<JoinRow>, columns: seq<string>, g: Group)
    requires GroupsHaveKey(rows)
    ensures g in Neighbors(rows, columns) <==> exists r :: r in rows && g == Projected(r.group, columns)
  {
    if g in Neighbors(rows, columns) { NeighborsHaveRows(rows, columns, g); }
    if r :| r in rows && g == Projected(r.group, columns) {
      NeighborsDistinct(rows, columns);
      assert HasGroup(rows, r.group.id);
      var h :| h in Neighbors(rows, columns) && h.id == r.group.id;
      NeighborsHaveRows(rows, columns, h);
    }
  }

  /**
    The batched edge holds exactly the groups that the account's own query finds, each once even
    when the join has the row several times.
   */
  lemma BatchedGroupsAgree(table: seq<JoinRow>, visible: Group -> bool, columns: seq<string>, ids: seq<int>, id: int)
    requires GroupsHaveKey(table) && id in ids
    ensures var batched := BatchedGroups(Filter(table, InBatch(visible, ids)), columns, id);
      && DistinctIds(batched)
      && Permutation(batched, NaiveGroups(table, visible, columns, id))
  {
    var rows, own := Filter(table, InBatch(visible, ids)), Filter(table, InOwn(visible, id));
    FilterMembers(table, InBatch(visible, ids));
    FilterMembers(table, InOwn(visible, id));
    var all := Neighbors(rows, columns);
    var batched, naive := BatchedGroups(rows, columns, id), Neighbors(own, columns);
    NeighborsDistinct(rows, columns);
    NeighborsDistinct(own, columns);
    FilterDistinct(all, JoinedTo(rows, id));
    FilterMembers(all, JoinedTo(rows, id));
    forall g ensures multiset(batched)[g] == multiset(naive)[g] {
      DistinctCounts(batched, g);
      DistinctCounts(naive, g);
      NeighborsMembers(rows, columns, g);
      NeighborsMembers(own, columns, g);
      BatchedMember(table, visible, columns, ids, id, g);
    }
  }

  lemma BatchedMember(
    table: seq<JoinRow>, visible: Group -> bool, columns: seq<string>, ids: seq<int>, id: int, g: Group)
    requires GroupsHaveKey(table) && id in ids
    ensures var rows, own := Filter(table, InBatch(visible, ids)), Filter(table, InOwn(visible, id));
      (exists r :: r in rows && g == Projected(r.group, columns)) && Joined(rows, id, g.id) <==>
      exists r :: r in own && g == Projected(r.group, columns)
  {
    var rows, own := Filter(table, InBatch(visible, ids)), Filter(table, InOwn(visible, id));
    FilterMembers(table, InBatch(visible, ids));
    FilterMembers(table, InOwn(visible, id));
    if (exists r :: r in rows && g == Projected(r.group, columns)) && Joined(rows, id, g.id) {
      var r :| r in rows && g == Projected(r.group, columns);
      var s :| s in rows && s.accountId == id && s.group.id == g.id;
      assert s in own && s.group == r.group;
    }
    if r :| r in own && g == Projected(r.group, columns) {
      assert r in rows && r.accountId == id;
    }
  }
}
