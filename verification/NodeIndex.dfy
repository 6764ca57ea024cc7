/** The index of nodes by ID that the eager loaders build: a later node replaces an earlier one. */
module NodeIndex {
  import opened Wrappers
  import opened Selection

  /** No later node has the ID of node `i`. */
  ghost predicate IsLast<T>(nodes: seq<T>, id: T -> int, i: nat)
    requires i < |nodes|
  {
    forall j :: i < j < |nodes| ==> id(nodes[j]) != id(nodes[i])
  }

  ghost predicate DistinctNodes<T>(nodes: seq<T>) {
    forall i, j :: 0 <= i < j < |nodes| ==> nodes[i] != nodes[j]
  }

  function IdsOf<T>(nodes: seq<T>, id: T -> int): seq<int> {
    seq(|nodes|, i requires 0 <= i < |nodes| => id(nodes[i]))
  }

  /** The index holds the last node of each ID among the first `n` nodes. */
  ghost predicate Indexes<T>(byID: map<int, T>, nodes: seq<T>, id: T -> int, n: nat)
    requires n <= |nodes|
  {
    && (forall i :: 0 <= i < n ==> id(nodes[i]) in byID)
    && (forall k :: k in byID ==> id(byID[k]) == k && byID[k] in nodes[..n])
    && (forall i :: 0 <= i < n ==> (byID[id(nodes[i])] == nodes[i] <==> IsLast(nodes[..n], id, i)))
  }

  lemma IndexNext<T>(byID: map<int, T>, nodes: seq<T>, id: T -> int, n: nat)
    requires n < |nodes| && DistinctNodes(nodes) && Indexes(byID, nodes, id, n)
    ensures Indexes(byID[id(nodes[n]) := nodes[n]], nodes, id, n + 1)
  {
    var a, b := nodes[..n], nodes[..n + 1];
    assert b == a + [nodes[n]];
    forall i | 0 <= i < n ensures IsLast(b, id, i) <==> IsLast(a, id, i) && id(nodes[n]) != id(nodes[i]) {
      if IsLast(b, id, i) {
        assert id(b[n]) != id(b[i]);
        forall j | i < j < n ensures id(a[j]) != id(a[i]) { assert id(b[j]) != id(b[i]); }
      }
    }
  }

  /** The list of the IN predicate and the index. */
  method IndexById<T>(nodes: seq<T>, id: T -> int) returns (ids: seq<int>, byID: map<int, T>)
    requires DistinctNodes(nodes)
    ensures ids == IdsOf(nodes, id)
    ensures Indexes(byID, nodes, id, |nodes|)
  {
    ids, byID := [], map[];
    for i := 0 to |nodes|
      invariant ids == IdsOf(nodes, id)[..i]
      invariant Indexes(byID, nodes, id, i)
    {
      IndexNext(byID, nodes, id, i);
      ids := ids + [id(nodes[i])];
      byID := byID[id(nodes[i]) := nodes[i]];
    }
  }

  /** The rows that the index routes to a node. */
  function RoutedTo<C, T(==)>(byID: map<int, T>, key: C -> Option<int>, node: T): C -> bool {
    c => key(c).Some? && key(c).value in byID && byID[key(c).value] == node
  }

  /** Every row of the batch finds a node. */
  lemma RowsFindNodes<C, T>(
    table: seq<C>, key: C -> Option<int>, visible: C -> bool, byID: map<int, T>, nodes: seq<T>, id: T -> int)
    requires Indexes(byID, nodes, id, |nodes|)
    ensures forall c :: c in Filter(table, Batched(key, visible, IdsOf(nodes, id))) ==>
      key(c).Some? && key(c).value in byID && byID[key(c).value] in nodes
  {
    FilterMembers(table, Batched(key, visible, IdsOf(nodes, id)));
    assert nodes[..|nodes|] == nodes;
  }

  /**
    Routing the batch through the index gives the last node of each ID what its own query would
    select, in the same order, and gives nothing to the nodes that it replaced.
   */
  lemma RoutedExactly<C(!new), T>(
    table: seq<C>, key: C -> Option<int>, visible: C -> bool, byID: map<int, T>, nodes: seq<T>, id: T -> int, i: nat)
    requires Indexes(byID, nodes, id, |nodes|) && i < |nodes|
    ensures var own := Filter(table, Naive(key, visible, id(nodes[i])));
      Filter(Filter(table, Batched(key, visible, IdsOf(nodes, id))), RoutedTo(byID, key, nodes[i])) ==
        if IsLast(nodes, id, i) then own else []
  {
    var batch := Filter(table, Batched(key, visible, IdsOf(nodes, id)));
    RoutedByIndex(batch, key, byID, nodes, id, i);
    if IsLast(nodes, id, i) {
      FilterSame(batch, RoutedTo(byID, key, nodes[i]), OfParent(key, id(nodes[i])));
      assert IdsOf(nodes, id)[i] == id(nodes[i]);
      BatchedIsNaive(table, key, visible, IdsOf(nodes, id), id(nodes[i]));
    } else {
      FilterNone(batch, RoutedTo(byID, key, nodes[i]));
    }
  }

  /** So for all nodes, as the loaders for the one-to-many edges need it. */
  lemma {:induction false} AllRouted<C(!new), T>(
    table: seq<C>, key: C -> Option<int>, visible: C -> bool, byID: map<int, T>, nodes: seq<T>, id: T -> int)
    requires Indexes(byID, nodes, id, |nodes|)
    ensures var batch := Filter(table, Batched(key, visible, IdsOf(nodes, id)));
      forall i :: 0 <= i < |nodes| ==>
        && nodes[i] in nodes
        && Filter(batch, RoutedTo(byID, key, nodes[i])) ==
           if IsLast(nodes, id, i) then Filter(table, Naive(key, visible, id(nodes[i]))) else []
  {
    forall i | 0 <= i < |nodes|
      ensures Filter(Filter(table, Batched(key, visible, IdsOf(nodes, id))), RoutedTo(byID, key, nodes[i])) ==
        if IsLast(nodes, id, i) then Filter(table, Naive(key, visible, id(nodes[i]))) else []
    {
      RoutedExactly(table, key, visible, byID, nodes, id, i);
    }
  }

  lemma RoutedByIndex<C, T>(
    batch: seq<C>, key: C -> Option<int>, byID: map<int, T>, nodes: seq<T>, id: T -> int, i: nat)
    requires Indexes(byID, nodes, id, |nodes|) && i < |nodes|
    ensures forall c :: c in batch ==>
      RoutedTo(byID, key, nodes[i])(c) == (IsLast(nodes, id, i) && OfParent(key, id(nodes[i]))(c))
  {
    assert nodes[..|nodes|] == nodes;
    forall c | c in batch
      ensures RoutedTo(byID, key, nodes[i])(c) == (IsLast(nodes, id, i) && OfParent(key, id(nodes[i]))(c))
    {
      var k := key(c);
      if k.Some? && k.value in byID { assert id(byID[k.value]) == k.value; }
    }
  }
}
