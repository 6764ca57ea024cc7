/**
  sqlAll: the nodes of one query with their eager-loaded edges, as a function of the stored rows
  alone, whatever columns the query selects.
 */
module AccountSqlAll {
  import opened Wrappers
  import opened Selection
  import opened NodeIndex
  import opened AccountEntity
  import opened AccountQuery
  import opened AccountGroups

  /** The tables behind the edges, and the predicates of the edge queries. */
  datatype Edges = Edges(
    joined: seq<JoinRow>, proxies: seq<Proxy>, usageLogs: seq<UsageLog>, accountGroups: seq<Membership>,
    groupVisible: Group -> bool, proxyVisible: Proxy -> bool, logVisible: UsageLog -> bool,
    membershipVisible: Membership -> bool, groupColumns: seq<string>)

  /** The ID that a row stores. */
  function RowId(codec: Codec, row: Row): int {
    var v := FieldOf(codec, row, ID);
    if v.Some? && v.value.IntValue? then v.value.n else 0
  }

  /** The foreign key that a row stores. */
  function RowProxyId(codec: Codec, row: Row): Option<int> {
    var v := FieldOf(codec, row, ProxyID);
    if v.Some? && v.value.IntValue? then Some(v.value.n) else None
  }

  /** Row keys are the integers that the row stores. */
  lemma RowKeysStored(codec: Codec, row: Row, n: int)
    ensures ID in row && row[ID] == Plain(IntValue(n)) ==> RowId(codec, row) == n
    ensures RowProxyId(codec, row) == Some(n) ==> ProxyID in row
    ensures ProxyID in row && row[ProxyID] == Plain(IntValue(n)) ==> RowProxyId(codec, row) == Some(n)
    ensures ProxyID in row && row[ProxyID] == Null ==> RowProxyId(codec, row) == None
  {
  }

  /** The keys survive every projection that selects their columns. */
  lemma KeysSurviveProjection(codec: Codec, row: Row, columns: seq<Column>)
    requires Readable(codec, row) && ID in columns
    ensures var e := Decode(codec, row, columns);
      && e.Some?
      && IdOf(e.value) == RowId(codec, row)
      && (ProxyID in columns ==> ProxyIdOf(e.value) == RowProxyId(codec, row))
  {
    DecodeReadsSelectedColumns(codec, row, columns);
    FreshHasNoProxy();
  }

  lemma FreshHasNoProxy()
    ensures ProxyID !in Fresh()
  {
  }

  /** A node with the fields of its row and without edges. */
  ghost predicate IsRead(codec: Codec, row: Row, columns: seq<Column>, with: Loaded, n: Account)
    reads n
  {
    && Some(n.fields) == Decode(codec, row, columns) && n.loaded == with
    && n.groups == [] && n.proxy == None && n.usageLogs == [] && n.accountGroups == []
  }

  method ReadNodes(codec: Codec, rows: seq<Row>, columns: seq<Column>, with: Loaded) returns (nodes: Option<seq<Account>>)
    requires forall r :: r in rows ==> Readable(codec, r)
    requires ID in columns
    ensures nodes.Some? && |nodes.value| == |rows| && DistinctNodes(nodes.value) && fresh(nodes.value)
    ensures forall i :: 0 <= i < |rows| ==> IsRead(codec, rows[i], columns, with, nodes.value[i])
  {
    hide Fresh, Readable, AssignAll;
    var list: seq<Account> := [];
    for i := 0 to |rows|
      modifies {}
      invariant |list| == i && DistinctNodes(list) && fresh(list)
      invariant forall j :: 0 <= j < i ==> IsRead(codec, rows[j], columns, with, list[j])
    {
      assert rows[i] in rows;
      var e, _ := AssignValues(codec, Fresh(), columns, ScanRow(rows[i], columns));
      DecodeReadsSelectedColumns(codec, rows[i], columns);
      if e.None? { return None; }
      var node := new Account(e.value, with);
      list := list + [node];
    }
    nodes := Some(list);
  }

  ghost predicate ProxyLoaded(codec: Codec, rows: seq<Row>, edges: Edges, nodes: seq<Account>)
    requires |nodes| == |rows|
    reads nodes`proxy
  {
    forall i :: 0 <= i < |rows| ==>
      nodes[i].proxy == ProxyOf(edges.proxies, edges.proxyVisible, RowProxyId(codec, rows[i]))
  }

  /** The IDs of the rows. */
  function RowIds(codec: Codec, rows: seq<Row>): seq<int> {
    seq(|rows|, i requires 0 <= i < |rows| => RowId(codec, rows[i]))
  }

  /** No later row has the ID of row `i`. */
  ghost predicate LastRow(codec: Codec, rows: seq<Row>, i: nat)
    requires i < |rows|
  {
    forall j :: i < j < |rows| ==> RowId(codec, rows[j]) != RowId(codec, rows[i])
  }

  ghost predicate LogsLoaded(codec: Codec, rows: seq<Row>, edges: Edges, nodes: seq<Account>)
    requires |nodes| == |rows|
    reads nodes`usageLogs
  {
    forall i :: 0 <= i < |rows| ==>
      nodes[i].usageLogs ==
        if LastRow(codec, rows, i) then Filter(edges.usageLogs, OwnLog(edges.logVisible, RowId(codec, rows[i]))) else []
  }

  ghost predicate MembershipsLoaded(codec: Codec, rows: seq<Row>, edges: Edges, nodes: seq<Account>)
    requires |nodes| == |rows|
    reads nodes`accountGroups
  {
    forall i :: 0 <= i < |rows| ==>
      nodes[i].accountGroups ==
        if LastRow(codec, rows, i) then
          Filter(edges.accountGroups, OwnMembership(edges.membershipVisible, RowId(codec, rows[i])))
        else []
  }

  ghost predicate GroupsLoaded(codec: Codec, rows: seq<Row>, edges: Edges, nodes: seq<Account>)
    requires |nodes| == |rows|
    reads nodes`groups
  {
    var joined := Filter(edges.joined, InBatch(edges.groupVisible, RowIds(codec, rows)));
    forall i :: 0 <= i < |rows| ==>
      nodes[i].groups == if LastRow(codec, rows, i) then BatchedGroups(joined, edges.groupColumns, RowId(codec, rows[i])) else []
  }

  /** The nodes have the keys of their rows. */
  ghost predicate KeysRead(codec: Codec, rows: seq<Row>, nodes: seq<Account>, withProxy: bool) {
    && |nodes| == |rows|
    && forall i :: 0 <= i < |rows| ==>
      && nodes[i].Id() == RowId(codec, rows[i])
      && (withProxy ==> nodes[i].ProxyId() == RowProxyId(codec, rows[i]))
  }

  method GroupsOf(codec: Codec, rows: seq<Row>, edges: Edges, nodes: seq<Account>) returns (ok: bool)
    requires KeysRead(codec, rows, nodes, false) && DistinctNodes(nodes)
    requires WellFormed(edges.joined) && edges.groupColumns != [] && edges.groupColumns[0] == "id"
    modifies nodes`groups
    ensures ok && GroupsLoaded(codec, rows, edges, nodes)
  {
    ok := LoadGroups(nodes, edges.joined, edges.groupVisible, edges.groupColumns);
    SameIds(codec, rows, nodes);
  }

  method ProxyFor(codec: Codec, rows: seq<Row>, edges: Edges, nodes: seq<Account>) returns (ok: bool)
    requires KeysRead(codec, rows, nodes, true) && NoProxies(nodes)
    modifies nodes`proxy
    ensures ok && ProxyLoaded(codec, rows, edges, nodes)
  {
    var requested;
    ok, requested := LoadProxy(nodes, edges.proxies, edges.proxyVisible);
  }

  method LogsOf(codec: Codec, rows: seq<Row>, edges: Edges, nodes: seq<Account>) returns (ok: bool)
    requires KeysRead(codec, rows, nodes, false) && DistinctNodes(nodes)
    modifies nodes`usageLogs
    ensures ok && LogsLoaded(codec, rows, edges, nodes)
  {
    ok := LoadUsageLogs(nodes, edges.usageLogs, edges.logVisible);
    SameIds(codec, rows, nodes);
  }

  method MembershipsOf(codec: Codec, rows: seq<Row>, edges: Edges, nodes: seq<Account>) returns (ok: bool)
    requires KeysRead(codec, rows, nodes, false) && DistinctNodes(nodes)
    modifies nodes`accountGroups
    ensures ok && MembershipsLoaded(codec, rows, edges, nodes)
  {
    ok := LoadAccountGroups(nodes, edges.accountGroups, edges.membershipVisible);
    SameIds(codec, rows, nodes);
  }

  ghost predicate NoGroups(nodes: seq<Account>)
    reads nodes`groups
  {
    forall n :: n in nodes ==> n.groups == []
  }

  ghost predicate NoProxies(nodes: seq<Account>)
    reads nodes`proxy
  {
    forall n :: n in nodes ==> n.proxy == None
  }

  ghost predicate NoLogs(nodes: seq<Account>)
    reads nodes`usageLogs
  {
    forall n :: n in nodes ==> n.usageLogs == []
  }

  ghost predicate NoMemberships(nodes: seq<Account>)
    reads nodes`accountGroups
  {
    forall n :: n in nodes ==> n.accountGroups == []
  }

  /** The edges that the query asks for are loaded, and the others stay empty. */
  ghost predicate EdgesLoaded(codec: Codec, rows: seq<Row>, with: Loaded, edges: Edges, nodes: seq<Account>)
    requires |nodes| == |rows|
    reads nodes`groups, nodes`proxy, nodes`usageLogs, nodes`accountGroups
  {
    && (if with.groups then GroupsLoaded(codec, rows, edges, nodes) else NoGroups(nodes))
    && (if with.proxy then ProxyLoaded(codec, rows, edges, nodes) else NoProxies(nodes))
    && (if with.usageLogs then LogsLoaded(codec, rows, edges, nodes) else NoLogs(nodes))
    && (if with.accountGroups then MembershipsLoaded(codec, rows, edges, nodes) else NoMemberships(nodes))
  }

  method LoadEdges(codec: Codec, rows: seq<Row>, with: Loaded, edges: Edges, nodes: seq<Account>) returns (ok: bool)
    requires KeysRead(codec, rows, nodes, false) && KeysRead(codec, rows, nodes, with.proxy) && DistinctNodes(nodes)
    requires WellFormed(edges.joined) && edges.groupColumns != [] && edges.groupColumns[0] == "id"
    requires NoGroups(nodes) && NoProxies(nodes) && NoLogs(nodes) && NoMemberships(nodes)
    modifies nodes`groups, nodes`proxy, nodes`usageLogs, nodes`accountGroups
    ensures ok && EdgesLoaded(codec, rows, with, edges, nodes)
  {
    ok := LoadKeyEdges(codec, rows, with, edges, nodes);
    if !ok { return; }
    ok := LoadChildEdges(codec, rows, with, edges, nodes);
  }

  method LoadChildEdges(codec: Codec, rows: seq<Row>, with: Loaded, edges: Edges, nodes: seq<Account>) returns (ok: bool)
    requires KeysRead(codec, rows, nodes, false) && DistinctNodes(nodes)
    requires NoLogs(nodes) && NoMemberships(nodes)
    modifies nodes`usageLogs, nodes`accountGroups
    ensures ok
    ensures if with.usageLogs then LogsLoaded(codec, rows, edges, nodes) else NoLogs(nodes)
    ensures if with.accountGroups then MembershipsLoaded(codec, rows, edges, nodes) else NoMemberships(nodes)
  {
    if with.usageLogs {
      ok := LogsOf(codec, rows, edges, nodes);
      if !ok { return; }
    }
    if with.accountGroups {
      ok := MembershipsOf(codec, rows, edges, nodes);
      if !ok { return; }
    }
    ok := true;
  }

  method LoadKeyEdges(codec: Codec, rows: seq<Row>, with: Loaded, edges: Edges, nodes: seq<Account>) returns (ok: bool)
    requires KeysRead(codec, rows, nodes, false) && KeysRead(codec, rows, nodes, with.proxy) && DistinctNodes(nodes)
    requires WellFormed(edges.joined) && edges.groupColumns != [] && edges.groupColumns[0] == "id"
    requires NoGroups(nodes) && NoProxies(nodes)
    modifies nodes`groups, nodes`proxy
    ensures ok
    ensures if with.groups then GroupsLoaded(codec, rows, edges, nodes) else NoGroups(nodes)
    ensures if with.proxy then ProxyLoaded(codec, rows, edges, nodes) else NoProxies(nodes)
  {
    if with.groups {
      ok := GroupsOf(codec, rows, edges, nodes);
      if !ok { return; }
    }
    if with.proxy {
      ok := ProxyFor(codec, rows, edges, nodes);
      if !ok { return; }
    }
    ok := true;
  }

  /** The field of a node that a query reads from a row: what is stored, where it is selected and not NULL. */
  ghost predicate HoldsField(codec: Codec, row: Row, selected: bool, e: Entity, c: Column)
    requires !c.Selected?
  {
    if selected && c in row && row[c].Plain? then c in e && e[c] == row[c].value
    else if selected && c in row && row[c].Raw? && row[c].bytes != [] then
      c in e && e[c].JsonValue? && codec.unmarshal(row[c].bytes) == Some(e[c].j)
    else (c in e <==> !IsPointer(c)) && (c in e ==> e[c] == ZeroOf(StructType(c)))
  }

  /** Every field of every node. */
  ghost predicate FieldsRead(codec: Codec, rows: seq<Row>, fields: seq<Column>, withProxy: bool, nodes: seq<Account>) {
    && |nodes| == |rows|
    && forall i, c: Column :: 0 <= i < |rows| && !c.Selected? ==>
      HoldsField(codec, rows[i], IsChosen(fields, withProxy, c), nodes[i].fields, c)
  }

  lemma FieldsAreRead(
    codec: Codec, rows: seq<Row>, columns: seq<Column>, fields: seq<Column>, withProxy: bool, nodes: seq<Account>)
    requires forall r :: r in rows ==> Readable(codec, r)
    requires |nodes| == |rows| && forall i :: 0 <= i < |rows| ==> Some(nodes[i].fields) == Decode(codec, rows[i], columns)
    requires forall c: Column :: c in columns && !c.Selected? <==> IsChosen(fields, withProxy, c)
    ensures FieldsRead(codec, rows, fields, withProxy, nodes)
  {
    hide Decode, Readable, IsChosen;
    forall i, c: Column | 0 <= i < |rows| && !c.Selected?
      ensures HoldsField(codec, rows[i], IsChosen(fields, withProxy, c), nodes[i].fields, c)
    {
      assert rows[i] in rows;
      FieldIsRead(codec, rows[i], columns, c);
    }
  }

  method SelectNodes(codec: Codec, rows: seq<Row>, fields: seq<Column>, with: Loaded) returns (nodes: Option<seq<Account>>)
    requires forall r :: r in rows ==> Readable(codec, r)
    ensures nodes.Some? && DistinctNodes(nodes.value) && fresh(nodes.value)
    ensures KeysRead(codec, rows, nodes.value, false) && KeysRead(codec, rows, nodes.value, with.proxy)
    ensures NoGroups(nodes.value) && NoProxies(nodes.value) && NoLogs(nodes.value) && NoMemberships(nodes.value)
    ensures FieldsRead(codec, rows, fields, with.proxy, nodes.value)
    ensures forall n :: n in nodes.value ==> n.loaded == with
  {
    var columns := QuerySpecColumns(fields, with.proxy);
    nodes := ReadNodes(codec, rows, columns, with);
    FieldsAreRead(codec, rows, columns, fields, with.proxy, nodes.value);
    forall i | 0 <= i < |rows|
      ensures nodes.value[i].Id() == RowId(codec, rows[i])
      ensures with.proxy ==> nodes.value[i].ProxyId() == RowProxyId(codec, rows[i])
    {
      assert rows[i] in rows;
      KeysSurviveProjection(codec, rows[i], columns);
    }
  }

  /**
    The edges of every node are a function of the stored rows: `fields`, the selection, does not occur
    in what they hold.
   */
  method SqlAll(codec: Codec, rows: seq<Row>, fields: seq<Column>, with: Loaded, edges: Edges)
    returns (result: Option<seq<Account>>)
    requires forall r :: r in rows ==> Readable(codec, r)
    requires WellFormed(edges.joined) && edges.groupColumns != [] && edges.groupColumns[0] == "id"
    ensures result.Some? && |result.value| == |rows| && fresh(result.value)
    ensures forall i :: 0 <= i < |rows| ==> result.value[i].Id() == RowId(codec, rows[i]) && result.value[i].loaded == with
    ensures FieldsRead(codec, rows, fields, with.proxy, result.value)
    ensures EdgesLoaded(codec, rows, with, edges, result.value)
  {
    result := SelectNodes(codec, rows, fields, with);
    if result.None? || |result.value| == 0 { return; }
    assert forall i :: 0 <= i < |rows| ==> result.value[i] in result.value;
    var ok := LoadEdges(codec, rows, with, edges, result.value);
    if !ok { return None; }
  }

  lemma SameIds(codec: Codec, rows: seq<Row>, nodes: seq<Account>)
    requires KeysRead(codec, rows, nodes, false)
    ensures IdsOf(nodes, NodeId()) == RowIds(codec, rows)
    ensures forall i :: 0 <= i < |rows| ==> (IsLast(nodes, NodeId(), i) <==> LastRow(codec, rows, i))
  {
  }

  /** After eager loading, the accessor says NotFound exactly when the key is nil or its row is not visible. */
  lemma ProxyOrErrAfterLoading(codec: Codec, rows: seq<Row>, edges: Edges, nodes: seq<Account>, i: nat)
    requires |nodes| == |rows| && i < |rows| && ProxyLoaded(codec, rows, edges, nodes) && nodes[i].loaded.proxy
    ensures nodes[i].ProxyOrErr() != NotLoaded
    ensures nodes[i].ProxyOrErr() == NotFound <==>
      RowProxyId(codec, rows[i]).None? ||
      forall p :: p in edges.proxies && p.id == RowProxyId(codec, rows[i]).value ==> !edges.proxyVisible(p)
  {
    var key := RowProxyId(codec, rows[i]);
    if key.Some? { ProxyByKeyNone(edges.proxies, edges.proxyVisible, key.value); }
  }

  /** proxies has a primary key. */
  ghost predicate DistinctProxies(table: seq<Proxy>) {
    forall j, k :: 0 <= j < k < |table| ==> table[j].id != table[k].id
  }

  /** What the accessor for the proxy says about a node of the result, for every query. */
  lemma ProxyOrErrExactly(codec: Codec, rows: seq<Row>, with: Loaded, edges: Edges, nodes: seq<Account>, i: nat, p: Proxy)
    requires |nodes| == |rows| && i < |rows| && nodes[i].loaded == with && EdgesLoaded(codec, rows, with, edges, nodes)
    ensures nodes[i].ProxyOrErr() == NotLoaded <==> !with.proxy
    ensures nodes[i].ProxyOrErr() == Found(p) <==>
      with.proxy && ProxyOf(edges.proxies, edges.proxyVisible, RowProxyId(codec, rows[i])) == Some(p)
    ensures DistinctProxies(edges.proxies) ==>
      (nodes[i].ProxyOrErr() == Found(p) <==>
        && with.proxy && RowProxyId(codec, rows[i]) == Some(p.id)
        && p in edges.proxies && edges.proxyVisible(p))
  {
    assert nodes[i] in nodes;
    var key := RowProxyId(codec, rows[i]);
    if key.Some? && DistinctProxies(edges.proxies) { ProxyByKeyFinds(edges.proxies, edges.proxyVisible, key.value, p); }
  }

  lemma {:induction false} ProxyByKeyNone(table: seq<Proxy>, visible: Proxy -> bool, key: int)
    ensures ProxyByKey(table, visible, key).None? <==> forall p :: p in table && p.id == key ==> !visible(p)
  {
    if table != [] {
      var init, last := table[..|table| - 1], table[|table| - 1];
      ProxyByKeyNone(init, visible, key);
      assert table == init + [last];
    }
  }
}
