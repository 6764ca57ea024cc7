/**
  Eager loading of Account: one batched query per edge and in-memory index maps, against the lookup
  of each node's neighbours one by one.
 */
module AccountQuery {
  import opened Wrappers
  import opened Selection
  import opened NodeIndex
  import opened AccountEntity

  // ----- Entities -----

  /** A row of the groups table as read through some columns. */
  datatype Group = Group(id: int, cells: map<string, Cell>)

  datatype Proxy = Proxy(id: int, name: string)

  datatype UsageLog = UsageLog(id: int, accountId: int)

  /** A row of account_groups, which has no ID of its own. */
  datatype Membership = Membership(accountId: int, groupId: int)

  function IdOf(e: Entity): int {
    if ID in e && e[ID].IntValue? then e[ID].n else 0
  }

  function ProxyIdOf(e: Entity): Option<int> {
    if ProxyID in e && e[ProxyID].IntValue? then Some(e[ProxyID].n) else None
  }

  datatype Loaded = Loaded(groups: bool, proxy: bool, usageLogs: bool, accountGroups: bool)

  /** An Account node: its fields are final once assigned, its edges are filled in by the loaders. */
  class Account {
    const fields: Entity
    const loaded: Loaded
    var groups: seq<Group>
    var proxy: Option<Proxy>
    var usageLogs: seq<UsageLog>
    var accountGroups: seq<Membership>

    constructor (e: Entity, l: Loaded)
      ensures fields == e && loaded == l && groups == [] && proxy == None && usageLogs == [] && accountGroups == []
    {
      fields, loaded := e, l;
      groups, proxy, usageLogs, accountGroups := [], None, [], [];
    }

    function Id(): int {
      IdOf(fields)
    }

    function ProxyId(): Option<int> {
      ProxyIdOf(fields)
    }

    /** ProxyOrErr */
    function ProxyOrErr(): EdgeResult<Proxy>
      reads this`proxy
    {
      if proxy.Some? then Found(proxy.value) else if loaded.proxy then NotFound else NotLoaded
    }
  }

  datatype EdgeResult<T> = Found(value: T) | NotFound | NotLoaded

  function NodeId(): Account -> int {
    (a: Account) => a.Id()
  }

  // ----- querySpec -----

  lemma AllColumns()
    ensures COLUMNS != [] && COLUMNS[0] == ID && ID !in COLUMNS[1..] && ProxyID in COLUMNS
  {
    assert FIELDS[10] == ProxyID && COLUMNS[11] == ProxyID;
    assert COLUMNS[1..] == FIELDS;
    assert ID !in FIELDS;
  }

  function IsNot(c: Column): Column -> bool {
    (d: Column) => d != c
  }

  /** The columns to select: the ID first and once, what was asked for in its order, and the key that the proxy edge needs. */
  method QuerySpecColumns(fields: seq<Column>, withProxy: bool) returns (columns: seq<Column>)
    ensures columns != [] && columns[0] == ID && ID !in columns[1..]
    ensures fields == [] ==> columns == COLUMNS
    ensures fields != [] ==>
      columns == [ID] + Filter(fields, IsNot(ID)) + if withProxy && ProxyID !in fields then [ProxyID] else []
    ensures forall c: Column :: c in columns && !c.Selected? <==> IsChosen(fields, withProxy, c)
  {
    if |fields| == 0 {
      AllColumns();
      forall c: Column | !c.Selected? ensures c in COLUMNS { ColumnsInOrder(c); }
      return COLUMNS;
    }
    columns := ChosenColumns(fields, withProxy);
  }

  /** A field of the entity that a query selects: everything when nothing is asked for. */
  ghost predicate IsChosen(fields: seq<Column>, withProxy: bool, c: Column) {
    !c.Selected? && (fields == [] || c in fields || c == ID || (withProxy && c == ProxyID))
  }

  method ChosenColumns(fields: seq<Column>, withProxy: bool) returns (columns: seq<Column>)
    ensures columns == [ID] + Filter(fields, IsNot(ID)) + if withProxy && ProxyID !in fields then [ProxyID] else []
    ensures ID !in columns[1..]
    ensures forall c :: c in columns <==> c in fields || c == ID || (withProxy && c == ProxyID)
  {
    hide IsNot, Filter;
    columns := IdAndOthers(fields);
    ChosenMembers(fields, [], ProxyID);
    ChosenMembers(fields, [ProxyID], ProxyID);
    assert columns == columns + [];
    if withProxy && ProxyID !in columns {
      columns := columns + [ProxyID];
    }
  }

  lemma OthersNext(fields: seq<Column>, i: nat)
    requires i < |fields|
    ensures Filter(fields[..i + 1], IsNot(ID)) == Filter(fields[..i], IsNot(ID)) + if fields[i] != ID then [fields[i]] else []
  {
    assert fields[..i + 1][..i] == fields[..i];
  }

  method IdAndOthers(fields: seq<Column>) returns (columns: seq<Column>)
    ensures columns == [ID] + Filter(fields, IsNot(ID))
  {
    hide Filter, IsNot;
    assert Filter(fields[..0], IsNot(ID)) == [] by { FilterNone(fields[..0], IsNot(ID)); }
    columns := [ID];
    for i := 0 to |fields|
      invariant columns == [ID] + Filter(fields[..i], IsNot(ID))
    {
      OthersNext(fields, i);
      if fields[i] != ID {
        columns := columns + [fields[i]];
      }
    }
    assert fields[..|fields|] == fields;
  }

  lemma ChosenMembers(fields: seq<Column>, added: seq<Column>, key: Column)
    requires ID !in added && key != ID
    ensures var columns := [ID] + Filter(fields, IsNot(ID)) + added;
      && ID !in columns[1..]
      && (forall c :: c in columns <==> c in fields || c == ID || c in added)
  {
    var chosen := Filter(fields, IsNot(ID));
    FilterMembers(fields, IsNot(ID));
    hide Filter;
    assert forall c :: c in chosen <==> c in fields && c != ID;
    assert ([ID] + chosen + added)[1..] == chosen + added;
    assert forall c :: c in [ID] + chosen + added <==> c == ID || c in chosen || c in added;
  }

  // ----- loadProxy: many to one -----

  /** The keys of the first `n` nodes, each once, in the order of first appearance. */
  ghost function KeysOf(nodes: seq<Account>, n: nat): seq<int>
    requires n <= |nodes|
  {
    if n == 0 then []
    else
      var keys, k := KeysOf(nodes, n - 1), nodes[n - 1].ProxyId();
      if k.Some? && k.value !in keys then keys + [k.value] else keys
  }

  /** The answer of `SELECT ... WHERE id IN (ids)` under the query's own predicates. */
  function ProxiesIn(table: seq<Proxy>, visible: Proxy -> bool, ids: seq<int>): seq<Proxy> {
    if table == [] then []
    else
      var p := table[|table| - 1];
      ProxiesIn(table[..|table| - 1], visible, ids) + if p.id in ids && visible(p) then [p] else []
  }

  /** Looking up the proxy of one key on its own; with a primary key there is at most one row. */
  function ProxyByKey(table: seq<Proxy>, visible: Proxy -> bool, key: int): Option<Proxy> {
    if table == [] then None
    else
      var p := table[|table| - 1];
      if p.id == key && visible(p) then Some(p) else ProxyByKey(table[..|table| - 1], visible, key)
  }

  /** What one node's own lookup finds; a nil key finds nothing. */
  function ProxyOf(table: seq<Proxy>, visible: Proxy -> bool, key: Option<int>): Option<Proxy> {
    if key.None? then None else ProxyByKey(table, visible, key.value)
  }

  /** Batched loading of the proxy edge; `requested` is the list of the IN predicate. */
  method LoadProxy(nodes: seq<Account>, table: seq<Proxy>, visible: Proxy -> bool)
    returns (ok: bool, requested: seq<int>)
    modifies nodes`proxy
    ensures ok
    ensures requested == KeysOf(nodes, |nodes|)
    ensures forall i :: 0 <= i < |nodes| ==>
      var found := ProxyOf(table, visible, nodes[i].ProxyId());
      nodes[i].proxy == if found.Some? then found else old(nodes[i].proxy)
  {
    hide ByKey;
    var ids, nodeids := IndexByKey(nodes);
    requested := ids;
    forall i | 0 <= i < |nodes| && nodes[i].ProxyId().Some? ensures nodes[i].ProxyId().value in ids {
      KeyWaits(nodeids, nodes, i);
    }
    if |ids| == 0 {
      return true, requested;
    }
    var neighbors := ProxiesIn(table, visible, ids);
    AnswerMembers(table, visible, ids);
    ok := AssignProxies(nodes, nodeids, neighbors);
    forall i | 0 <= i < |nodes| && nodes[i].ProxyId().Some?
      ensures LastOf(neighbors, nodes[i].ProxyId().value) == ProxyByKey(table, visible, nodes[i].ProxyId().value)
    {
      AnswerAgrees(table, visible, ids, nodes[i].ProxyId().value);
    }
  }

  /** The loop over the answer. */
  method AssignProxies(nodes: seq<Account>, nodeids: map<int, seq<Account>>, neighbors: seq<Proxy>) returns (ok: bool)
    requires ByKey(nodeids, nodes, |nodes|)
    modifies nodes`proxy
    ensures ok <==> forall p :: p in neighbors ==> p.id in nodeids
    ensures ok ==> forall i :: 0 <= i < |nodes| ==>
      nodes[i].proxy == Assigned(neighbors, nodes[i].ProxyId(), old(nodes[i].proxy))
  {
    hide ByKey, Assigned;
    AssignedNone();
    for k := 0 to |neighbors|
      invariant forall i :: 0 <= i < |nodes| ==>
        nodes[i].proxy == Assigned(neighbors[..k], nodes[i].ProxyId(), old(nodes[i].proxy))
      invariant forall j :: 0 <= j < k ==> neighbors[j].id in nodeids
    {
      var p := neighbors[k];
      assert p in neighbors;
      if p.id !in nodeids { return false; }
      WaitersHaveKey(nodeids, nodes, p.id);
      AssignedNext(neighbors, k);
      AssignProxy(nodes, nodeids[p.id], p);
    }
    assert neighbors[..|neighbors|] == neighbors;
    ok := true;
  }

  lemma WaitersHaveKey(nodeids: map<int, seq<Account>>, nodes: seq<Account>, k: int)
    requires ByKey(nodeids, nodes, |nodes|) && k in nodeids
    ensures forall a :: a in nodeids[k] ==> a in nodes
    ensures forall i :: 0 <= i < |nodes| ==> (nodes[i] in nodeids[k] <==> nodes[i].ProxyId() == Some(k))
  {
    assert nodes[..|nodes|] == nodes;
  }

  lemma KeyWaits(nodeids: map<int, seq<Account>>, nodes: seq<Account>, i: nat)
    requires ByKey(nodeids, nodes, |nodes|) && i < |nodes| && nodes[i].ProxyId().Some?
    ensures nodes[i].ProxyId().value in nodeids
  {
  }

  lemma AssignedNone()
    ensures forall key, before :: Assigned([], key, before) == before
  {
  }

  lemma AssignedNext(ps: seq<Proxy>, k: nat)
    requires k < |ps|
    ensures forall key, before ::
      Assigned(ps[..k + 1], key, before) == AfterNext(ps[k], key, Assigned(ps[..k], key, before))
  {
    forall key, before
      ensures Assigned(ps[..k + 1], key, before) == AfterNext(ps[k], key, Assigned(ps[..k], key, before))
    {
      assert ps[..k + 1][..k] == ps[..k];
    }
  }

  ghost function AfterNext(p: Proxy, key: Option<int>, before: Option<Proxy>): Option<Proxy> {
    if key == Some(p.id) then Some(p) else before
  }

  /** The keys to request and the nodes that wait for each of them. */
  method IndexByKey(nodes: seq<Account>) returns (ids: seq<int>, nodeids: map<int, seq<Account>>)
    ensures ids == KeysOf(nodes, |nodes|)
    ensures forall k :: k in ids <==> k in nodeids
    ensures ByKey(nodeids, nodes, |nodes|)
  {
    hide ByKey;
    ids, nodeids := [], map[];
    ByKeyNone(nodes);
    for i := 0 to |nodes|
      invariant ids == KeysOf(nodes, i)
      invariant forall k :: k in ids <==> k in nodeids
      invariant ByKey(nodeids, nodes, i)
    {
      var key := nodes[i].ProxyId();
      ByKeyNext(nodeids, nodes, i);
      if key.None? { continue; }
      var fk := key.value;
      if fk !in nodeids {
        ids := ids + [fk];
        assert nodeids[fk := []][fk := [] + [nodes[i]]] == nodeids[fk := [] + [nodes[i]]];
        nodeids := nodeids[fk := []];
      }
      nodeids := nodeids[fk := nodeids[fk] + [nodes[i]]];
    }
  }

  method AssignProxy(nodes: seq<Account>, targets: seq<Account>, p: Proxy)
    requires forall a :: a in targets ==> a in nodes
    modifies nodes`proxy
    ensures forall a :: a in nodes ==> a.proxy == if a in targets then Some(p) else old(a.proxy)
  {
    for j := 0 to |targets|
      invariant forall a :: a in nodes ==> a.proxy == if a in targets[..j] then Some(p) else old(a.proxy)
    {
      assert targets[..j + 1] == targets[..j] + [targets[j]];
      assert targets[j] in targets && targets[j] in nodes;
      targets[j].proxy := Some(p);
    }
    assert targets[..|targets|] == targets;
  }

  /** The last row with a key. */
  ghost function LastOf(ps: seq<Proxy>, key: int): Option<Proxy> {
    if ps == [] then None
    else if ps[|ps| - 1].id == key then Some(ps[|ps| - 1])
    else LastOf(ps[..|ps| - 1], key)
  }

  /** The edge of a node after the given rows have been assigned. */
  ghost function Assigned(ps: seq<Proxy>, key: Option<int>, before: Option<Proxy>): Option<Proxy> {
    if key.Some? && LastOf(ps, key.value).Some? then LastOf(ps, key.value) else before
  }

  lemma {:induction false} AnswerMembers(table: seq<Proxy>, visible: Proxy -> bool, ids: seq<int>)
    ensures forall p :: p in ProxiesIn(table, visible, ids) <==> p in table && p.id in ids && visible(p)
  {
    if table != [] { AnswerMembers(table[..|table| - 1], visible, ids); }
  }

  lemma {:induction false} AnswerAgrees(table: seq<Proxy>, visible: Proxy -> bool, ids: seq<int>, key: int)
    requires key in ids
    ensures LastOf(ProxiesIn(table, visible, ids), key) == ProxyByKey(table, visible, key)
  {
    if table != [] {
      var init, p := table[..|table| - 1], table[|table| - 1];
      AnswerAgrees(init, visible, ids, key);
      var answer := ProxiesIn(init, visible, ids);
      assert (answer + [p])[..|answer|] == answer;
      assert answer + [] == answer;
    }
  }

  /** The nodes grouped by key, after the first `n` nodes. */
  ghost predicate ByKey(nodeids: map<int, seq<Account>>, nodes: seq<Account>, n: nat)
    requires n <= |nodes|
  {
    && (forall k, a :: k in nodeids && a in nodeids[k] ==> a in nodes[..n] && a.ProxyId() == Some(k))
    && (forall i :: 0 <= i < n && nodes[i].ProxyId().Some? ==>
          nodes[i].ProxyId().value in nodeids && nodes[i] in nodeids[nodes[i].ProxyId().value])
  }

  lemma ByKeyNone(nodes: seq<Account>)
    ensures ByKey(map[], nodes, 0)
  {
  }

  lemma ByKeyNext(nodeids: map<int, seq<Account>>, nodes: seq<Account>, n: nat)
    requires n < |nodes| && ByKey(nodeids, nodes, n)
    ensures nodes[n].ProxyId().None? ==> ByKey(nodeids, nodes, n + 1)
    ensures nodes[n].ProxyId().Some? ==>
      var fk := nodes[n].ProxyId().value;
      var before := if fk in nodeids then nodeids[fk] else [];
      ByKey(nodeids[fk := before + [nodes[n]]], nodes, n + 1)
  {
    assert nodes[..n + 1] == nodes[..n] + [nodes[n]];
  }

  /** The request names every key of the nodes, and names it once. */
  lemma {:induction false} KeysRequestedOnce(nodes: seq<Account>, n: nat)
    requires n <= |nodes|
    ensures var keys := KeysOf(nodes, n);
      && (forall i, j :: 0 <= i < j < |keys| ==> keys[i] != keys[j])
      && (forall k :: k in keys <==> exists i :: 0 <= i < n && nodes[i].ProxyId() == Some(k))
  {
    if n > 0 { KeysRequestedOnce(nodes, n - 1); }
  }

  /** Under a primary key, the lookup finds the visible row with the key if there is one. */
  lemma {:induction false} ProxyByKeyFinds(table: seq<Proxy>, visible: Proxy -> bool, key: int, p: Proxy)
    requires forall i, j :: 0 <= i < j < |table| ==> table[i].id != table[j].id
    ensures ProxyByKey(table, visible, key) == Some(p) <==> p in table && p.id == key && visible(p)
  {
    if table != [] {
      var init := table[..|table| - 1];
      ProxyByKeyFinds(init, visible, key, p);
      if p in init {
        var i :| 0 <= i < |init| && init[i] == p;
        assert table[i] == p;
      }
    }
  }

  // ----- loadUsageLogs: one to many -----

  function LogKey(): UsageLog -> Option<int> {
    (c: UsageLog) => Some(c.accountId)
  }

  method LoadUsageLogs(nodes: seq<Account>, table: seq<UsageLog>, visible: UsageLog -> bool) returns (ok: bool)
    requires DistinctNodes(nodes)
    modifies nodes`usageLogs
    ensures ok
    ensures forall i :: 0 <= i < |nodes| ==>
      var own := Filter(table, OwnLog(visible, nodes[i].Id()));
      nodes[i].usageLogs == if IsLast(nodes, NodeId(), i) then own else []
  {
    var fks, nodeids := IndexById(nodes, NodeId());
    for i := 0 to |nodes|
      invariant forall j :: 0 <= j < i ==> nodes[j].usageLogs == []
    {
      nodes[i].usageLogs := [];
    }
    var neighbors := Filter(table, Batched(LogKey(), visible, fks));
    RowsFindNodes(table, LogKey(), visible, nodeids, nodes, NodeId());
    AllRouted(table, LogKey(), visible, nodeids, nodes, NodeId());
    ok := AssignLogs(nodes, nodeids, neighbors);
    forall i | 0 <= i < |nodes|
      ensures Filter(table, Naive(LogKey(), visible, nodes[i].Id())) == Filter(table, OwnLog(visible, nodes[i].Id()))
    {
      FilterSame(table, Naive(LogKey(), visible, nodes[i].Id()), OwnLog(visible, nodes[i].Id()));
    }
  }

  /** The visible rows of one account. */
  function OwnLog(visible: UsageLog -> bool, id: int): UsageLog -> bool {
    (c: UsageLog) => visible(c) && c.accountId == id
  }

  /** The loop over the answer, for any answer; a row without a node is an error. */
  method AssignLogs(nodes: seq<Account>, nodeids: map<int, Account>, neighbors: seq<UsageLog>) returns (ok: bool)
    requires forall n :: n in neighbors && n.accountId in nodeids ==> nodeids[n.accountId] in nodes
    requires forall a :: a in nodes ==> a.usageLogs == []
    modifies nodes`usageLogs
    ensures ok <==> forall n :: n in neighbors ==> n.accountId in nodeids
    ensures ok ==> forall a :: a in nodes ==> a.usageLogs == Filter(neighbors, RoutedTo(nodeids, LogKey(), a))
  {
    for k := 0 to |neighbors|
      invariant forall j :: 0 <= j < k ==> neighbors[j].accountId in nodeids
      invariant forall a :: a in nodes ==> a.usageLogs == Filter(neighbors[..k], RoutedTo(nodeids, LogKey(), a))
    {
      var n := neighbors[k];
      assert n in neighbors;
      var fk := n.accountId;
      if fk !in nodeids { return false; }
      var node := nodeids[fk];
      assert neighbors[..k + 1][..k] == neighbors[..k];
      node.usageLogs := node.usageLogs + [n];
    }
    assert neighbors[..|neighbors|] == neighbors;
    ok := true;
  }

  // ----- loadAccountGroups: one to many -----

  function MembershipKey(): Membership -> Option<int> {
    (c: Membership) => Some(c.accountId)
  }

  method LoadAccountGroups(nodes: seq<Account>, table: seq<Membership>, visible: Membership -> bool) returns (ok: bool)
    requires DistinctNodes(nodes)
    modifies nodes`accountGroups
    ensures ok
    ensures forall i :: 0 <= i < |nodes| ==>
      var own := Filter(table, OwnMembership(visible, nodes[i].Id()));
      nodes[i].accountGroups == if IsLast(nodes, NodeId(), i) then own else []
  {
    var fks, nodeids := IndexById(nodes, NodeId());
    for i := 0 to |nodes|
      invariant forall j :: 0 <= j < i ==> nodes[j].accountGroups == []
    {
      nodes[i].accountGroups := [];
    }
    var neighbors := Filter(table, Batched(MembershipKey(), visible, fks));
    RowsFindNodes(table, MembershipKey(), visible, nodeids, nodes, NodeId());
    AllRouted(table, MembershipKey(), visible, nodeids, nodes, NodeId());
    ok := AssignMemberships(nodes, nodeids, neighbors);
    forall i | 0 <= i < |nodes|
      ensures Filter(table, Naive(MembershipKey(), visible, nodes[i].Id())) == Filter(table, OwnMembership(visible, nodes[i].Id()))
    {
      FilterSame(table, Naive(MembershipKey(), visible, nodes[i].Id()), OwnMembership(visible, nodes[i].Id()));
    }
  }

  /** The visible rows of one account. */
  function OwnMembership(visible: Membership -> bool, id: int): Membership -> bool {
    (c: Membership) => visible(c) && c.accountId == id
  }

  /** The loop over the answer, for any answer; a row without a node is an error. */
  method AssignMemberships(nodes: seq<Account>, nodeids: map<int, Account>, neighbors: seq<Membership>) returns (ok: bool)
    requires forall n :: n in neighbors && n.accountId in nodeids ==> nodeids[n.accountId] in nodes
    requires forall a :: a in nodes ==> a.accountGroups == []
    modifies nodes`accountGroups
    ensures ok <==> forall n :: n in neighbors ==> n.accountId in nodeids
    ensures ok ==> forall a :: a in nodes ==> a.accountGroups == Filter(neighbors, RoutedTo(nodeids, MembershipKey(), a))
  {
    for k := 0 to |neighbors|
      invariant forall j :: 0 <= j < k ==> neighbors[j].accountId in nodeids
      invariant forall a :: a in nodes ==> a.accountGroups == Filter(neighbors[..k], RoutedTo(nodeids, MembershipKey(), a))
    {
      var n := neighbors[k];
      assert n in neighbors;
      var fk := n.accountId;
      if fk !in nodeids { return false; }
      var node := nodeids[fk];
      assert neighbors[..k + 1][..k] == neighbors[..k];
      node.accountGroups := node.accountGroups + [n];
    }
    assert neighbors[..|neighbors|] == neighbors;
    ok := true;
  }
}
