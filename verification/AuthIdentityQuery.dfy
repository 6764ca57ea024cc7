/** The adoption decisions of an AuthIdentity: a one-to-many edge over a foreign key that can be NULL. */
module AuthIdentityQuery {
  import opened Wrappers
  import opened Selection
  import opened NodeIndex

  datatype Decision = Decision(id: int, identityId: Option<int>)

  class AuthIdentity {
    const id: int
    var adoptionDecisions: seq<Decision>

    constructor (i: int)
      ensures id == i && adoptionDecisions == []
    {
      id, adoptionDecisions := i, [];
    }
  }

  function NodeId(): AuthIdentity -> int {
    (a: AuthIdentity) => a.id
  }

  function DecisionKey(): Decision -> Option<int> {
    (d: Decision) => d.identityId
  }

  datatype LoadError = NilKey(id: int) | UnexpectedKey(key: int, id: int)

  /** Neither error can occur: the IN predicate lets no NULL key and no foreign key through. */
  method LoadAdoptionDecisions(nodes: seq<AuthIdentity>, table: seq<Decision>, visible: Decision -> bool)
    returns (error: Option<LoadError>)
    requires DistinctNodes(nodes)
    modifies nodes`adoptionDecisions
    ensures error == None
    ensures forall i :: 0 <= i < |nodes| ==>
      var own := Filter(table, OwnDecision(visible, nodes[i].id));
      nodes[i].adoptionDecisions == if IsLast(nodes, NodeId(), i) then own else []
  {
    var fks, nodeids := IndexById(nodes, NodeId());
    for i := 0 to |nodes|
      invariant forall j :: 0 <= j < i ==> nodes[j].adoptionDecisions == []
    {
      nodes[i].adoptionDecisions := [];
    }
    var neighbors := Filter(table, Batched(DecisionKey(), visible, fks));
    RowsFindNodes(table, DecisionKey(), visible, nodeids, nodes, NodeId());
    AllRouted(table, DecisionKey(), visible, nodeids, nodes, NodeId());
    error := AssignDecisions(nodes, nodeids, neighbors);
    forall i | 0 <= i < |nodes|
      ensures Filter(table, Naive(DecisionKey(), visible, nodes[i].id)) == Filter(table, OwnDecision(visible, nodes[i].id))
    {
      FilterSame(table, Naive(DecisionKey(), visible, nodes[i].id), OwnDecision(visible, nodes[i].id));
    }
  }

  /** The visible decisions of one identity. */
  function OwnDecision(visible: Decision -> bool, id: int): Decision -> bool {
    (d: Decision) => visible(d) && d.identityId == Some(id)
  }

  /**
    The loop over the answer, for any answer: it stops at the first row that has no node, and up to
    there every row has gone to the node of its key.
   */
  method AssignDecisions(nodes: seq<AuthIdentity>, nodeids: map<int, AuthIdentity>, neighbors: seq<Decision>)
    returns (error: Option<LoadError>)
    requires forall n :: n in neighbors && HasNode(nodeids, n) ==> nodeids[n.identityId.value] in nodes
    requires forall a :: a in nodes ==> a.adoptionDecisions == []
    modifies nodes`adoptionDecisions
    ensures error == None <==> forall n :: n in neighbors ==> HasNode(nodeids, n)
    ensures error == None ==>
      forall a :: a in nodes ==> a.adoptionDecisions == Filter(neighbors, RoutedTo(nodeids, DecisionKey(), a))
    ensures error.Some? ==> exists k ::
      && 0 <= k < |neighbors| && FirstWithoutNode(nodeids, neighbors, k)
      && error.value ==
         (match neighbors[k].identityId
          case None => NilKey(neighbors[k].id)
          case Some(key) => UnexpectedKey(key, neighbors[k].id))
      && forall a :: a in nodes ==> a.adoptionDecisions == Filter(neighbors[..k], RoutedTo(nodeids, DecisionKey(), a))
  {
    for k := 0 to |neighbors|
      invariant forall j :: 0 <= j < k ==> HasNode(nodeids, neighbors[j])
      invariant forall a :: a in nodes ==> a.adoptionDecisions == Filter(neighbors[..k], RoutedTo(nodeids, DecisionKey(), a))
    {
      var n := neighbors[k];
      assert n in neighbors;
      var fk := n.identityId;
      assert !HasNode(nodeids, n) ==> FirstWithoutNode(nodeids, neighbors, k);
      if fk.None? { return Some(NilKey(n.id)); }
      if fk.value !in nodeids { return Some(UnexpectedKey(fk.value, n.id)); }
      var node := nodeids[fk.value];
      assert HasNode(nodeids, n) && node in nodes;
      DecisionNext(nodeids, neighbors, k);
      node.adoptionDecisions := node.adoptionDecisions + [n];
    }
    assert neighbors[..|neighbors|] == neighbors;
    error := None;
  }

  lemma DecisionNext(nodeids: map<int, AuthIdentity>, ds: seq<Decision>, k: nat)
    requires k < |ds| && HasNode(nodeids, ds[k])
    ensures forall a ::
      Filter(ds[..k + 1], RoutedTo(nodeids, DecisionKey(), a)) ==
        Filter(ds[..k], RoutedTo(nodeids, DecisionKey(), a)) +
        if nodeids[ds[k].identityId.value] == a then [ds[k]] else []
  {
    assert ds[..k + 1][..k] == ds[..k];
  }

  predicate HasNode(nodeids: map<int, AuthIdentity>, d: Decision) {
    d.identityId.Some? && d.identityId.value in nodeids
  }

  ghost predicate FirstWithoutNode(nodeids: map<int, AuthIdentity>, ds: seq<Decision>, k: nat)
    requires k < |ds|
  {
    !HasNode(nodeids, ds[k]) && forall j :: 0 <= j < k ==> HasNode(nodeids, ds[j])
  }

  /** A stable partition: the decisions handed out are all that the batched query returns, NULL keys apart. */
  lemma DecisionsConserved(ids: seq<int>, table: seq<Decision>, visible: Decision -> bool)
    ensures HandedOut(ids, Filter(table, Batched(DecisionKey(), visible, ids)), DecisionKey()) ==
      |Filter(table, Batched(DecisionKey(), visible, ids))|
  {
    FilterMembers(table, Batched(DecisionKey(), visible, ids));
    EveryRowHandedOutOnce(ids, Filter(table, Batched(DecisionKey(), visible, ids)), DecisionKey());
  }
}
