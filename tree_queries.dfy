/**
 * The read-only queries the optimizer asks of a query tree: pre-order
 * listings, restrictive weights, relation containment, accessible
 * attributes and the link check.  Every query follows child links from a
 * node; on a structure with a cycle the C# recursion never ends, and here
 * the walk stops with `Diverges` once its fuel (a number of levels) is spent.
 */
module TreeQueries {
  import opened Wrappers
  import opened QueryModel
  import opened Statements
  import opened RelationalModel
  import opened Heap
  import opened Text

  // ---------------------------------------------------------------- pre-order listing

  /**
   * Does every downward path from `p` end within `fuel` levels?  On a tree
   * of `n` nodes `n` levels always suffice; only a cycle of child links
   * needs more.
   */
  predicate Finite(nodes: Nodes, p: Ptr, fuel: nat)
    decreases fuel
  {
    !Live(nodes, p)
    || (fuel > 0 && Finite(nodes, nodes[p.index].left, fuel - 1) && Finite(nodes, nodes[p.index].right, fuel - 1))
  }

  /**
   * The recursion of `GetNodesList` followed for `fuel` levels: the node,
   * then the listing of its left subtree, then that of its right subtree;
   * a null child contributes nothing.
   */
  function Listing(nodes: Nodes, p: Ptr, fuel: nat): (r: seq<nat>)
    ensures !Live(nodes, p) || fuel == 0 ==> r == []
    ensures Live(nodes, p) && fuel > 0 ==> |r| > 0 && r[0] == p.index
    decreases fuel
  {
    if !Live(nodes, p) || fuel == 0 then []
    else
      var x := nodes[p.index];
      [p.index] + Listing(nodes, x.left, fuel - 1) + Listing(nodes, x.right, fuel - 1)
  }

  /** Every entry of a listing is a node of the heap. */
  lemma {:induction false} ListingInHeap(nodes: Nodes, p: Ptr, fuel: nat)
    ensures forall i :: 0 <= i < |Listing(nodes, p, fuel)| ==> Listing(nodes, p, fuel)[i] < |nodes|
    decreases fuel
  {
    if Live(nodes, p) && fuel > 0 {
      var x := nodes[p.index];
      ListingInHeap(nodes, x.left, fuel - 1);
      ListingInHeap(nodes, x.right, fuel - 1);
      ListingJoins(nodes, p, fuel);
      JoinBelow(p.index, Listing(nodes, x.left, fuel - 1), Listing(nodes, x.right, fuel - 1), |nodes|);
    }
  }

  /** A listing from a live node is that node, then the listing of its left subtree, then of its right. */
  lemma ListingJoins(nodes: Nodes, p: Ptr, fuel: nat)
    requires Live(nodes, p) && fuel > 0
    ensures Listing(nodes, p, fuel)
      == [p.index] + Listing(nodes, nodes[p.index].left, fuel - 1) + Listing(nodes, nodes[p.index].right, fuel - 1)
  {
  }

  /** An entry and two sequences whose entries all lie below `n`, joined, lie below `n`. */
  lemma JoinBelow(x: nat, a: seq<nat>, b: seq<nat>, n: nat)
    requires x < n
    requires forall i :: 0 <= i < |a| ==> a[i] < n
    requires forall i :: 0 <= i < |b| ==> b[i] < n
    ensures forall i :: 0 <= i < |[x] + a + b| ==> ([x] + a + b)[i] < n
  {
    forall i | 0 <= i < |[x] + a + b|
      ensures ([x] + a + b)[i] < n
    {
      if 1 <= i < 1 + |a| {
        assert ([x] + a + b)[i] == a[i - 1];
      } else if 1 + |a| <= i {
        assert ([x] + a + b)[i] == b[i - 1 - |a|];
      }
    }
  }

  /** `GetNodesList` from a node reference: a null node throws. */
  function GetNodesList(nodes: Nodes, p: Ptr): (r: Result<seq<nat>>)
    ensures !Live(nodes, p) ==> r == Failure(NullReference)
    ensures Live(nodes, p) && !Finite(nodes, p, |nodes|) ==> r == Failure(Diverges)
    ensures r.Success? ==> |r.value| > 0 && r.value[0] == p.index
    ensures r.Success? ==> forall i :: 0 <= i < |r.value| ==> r.value[i] < |nodes|
  {
    ListingInHeap(nodes, p, |nodes|);
    if !Live(nodes, p) then Failure(NullReference)
    else if !Finite(nodes, p, |nodes|) then Failure(Diverges)
    else Success(Listing(nodes, p, |nodes|))
  }

  /** Which nodes a `GetAll*Nodes` listing keeps. */
  datatype Kind = CartesianKind | RelationKind | SelectionKind | ProjectionKind

  /** Does content `c` belong to `kind`? */
  predicate OfKind(c: Content, kind: Kind)
  {
    match kind
    case CartesianKind => c.SetOpContent? && c.op == CartesianProduct
    case RelationKind => c.RelationContent?
    case SelectionKind => c.SelectionContent?
    case ProjectionKind => c.ProjectionContent?
  }

  /** Is node `k` kept by a listing of `kind` that leaves out the node `skip`? */
  predicate Kept(nodes: Nodes, k: nat, kind: Kind, skip: Ptr)
  {
    k < |nodes| && OfKind(nodes[k].content, kind) && skip != Ref(k)
  }

  /** The nodes of a listing that are kept, in order. */
  function Filter(nodes: Nodes, ks: seq<nat>, kind: Kind, skip: Ptr): (r: seq<nat>)
    ensures |r| <= |ks|
  {
    if |ks| == 0 then []
    else (if Kept(nodes, ks[0], kind, skip) then [ks[0]] else []) + Filter(nodes, ks[1..], kind, skip)
  }

  /** A node is in the filtered listing exactly when it is in the listing and is kept. */
  lemma {:induction false} FilterMembers(nodes: Nodes, ks: seq<nat>, kind: Kind, skip: Ptr, k: nat)
    ensures k in Filter(nodes, ks, kind, skip) <==> k in ks && Kept(nodes, k, kind, skip)
  {
    if |ks| > 0 {
      FilterMembers(nodes, ks[1..], kind, skip, k);
      assert k in ks <==> k == ks[0] || k in ks[1..] by {
        assert ks == [ks[0]] + ks[1..];
      }
    }
  }

  /** Filtering distributes over concatenation. */
  lemma {:induction false} FilterAppend(nodes: Nodes, a: seq<nat>, b: seq<nat>, kind: Kind, skip: Ptr)
    ensures Filter(nodes, a + b, kind, skip) == Filter(nodes, a, kind, skip) + Filter(nodes, b, kind, skip)
  {
    if |a| > 0 {
      var h := if Kept(nodes, a[0], kind, skip) then [a[0]] else [];
      FilterCons(nodes, a + b, a[0], a[1..] + b, kind, skip);
      FilterAppend(nodes, a[1..], b, kind, skip);
      FilterCons(nodes, a, a[0], a[1..], kind, skip);
      Regrouped(h, Filter(nodes, a[1..], kind, skip), Filter(nodes, b, kind, skip));
    } else {
      assert a + b == b;
    }
  }

  /** Filtering a list: its head when kept, then the filtered rest. */
  lemma FilterCons(nodes: Nodes, ks: seq<nat>, x: nat, rest: seq<nat>, kind: Kind, skip: Ptr)
    requires |ks| > 0 && ks[0] == x && ks[1..] == rest
    ensures Filter(nodes, ks, kind, skip) == (if Kept(nodes, x, kind, skip) then [x] else []) + Filter(nodes, rest, kind, skip)
  {
  }

  /**
   * The shape shared by `GetAllCartesianProductNodes`, `GetAllSelectionNodes`
   * and both `GetAllProjectionNodes`, followed for `fuel` levels: the node
   * itself when it is kept, then the kept nodes of the left subtree, then
   * those of the right subtree.
   */
  function Gathered(nodes: Nodes, p: Ptr, kind: Kind, skip: Ptr, fuel: nat): (r: seq<nat>)
    ensures forall i :: 0 <= i < |r| ==> Kept(nodes, r[i], kind, skip)
    decreases fuel
  {
    if !Live(nodes, p) || fuel == 0 then []
    else
      var x := nodes[p.index];
      (if Kept(nodes, p.index, kind, skip) then [p.index] else [])
      + Gathered(nodes, x.left, kind, skip, fuel - 1) + Gathered(nodes, x.right, kind, skip, fuel - 1)
  }

  /**
   * A listing of one kind is the pre-order listing with the nodes of other
   * kinds (and the skipped node) taken out, in the same order.
   */
  lemma {:induction false} GatheredIsFiltered(nodes: Nodes, p: Ptr, kind: Kind, skip: Ptr, fuel: nat)
    ensures Gathered(nodes, p, kind, skip, fuel) == Filter(nodes, Listing(nodes, p, fuel), kind, skip)
    decreases fuel
  {
    if Live(nodes, p) && fuel > 0 {
      var x := nodes[p.index];
      var a := Listing(nodes, x.left, fuel - 1);
      var b := Listing(nodes, x.right, fuel - 1);
      GatheredIsFiltered(nodes, x.left, kind, skip, fuel - 1);
      GatheredIsFiltered(nodes, x.right, kind, skip, fuel - 1);
      FilterAppend(nodes, [p.index], a, kind, skip);
      FilterAppend(nodes, [p.index] + a, b, kind, skip);
      assert [p.index][1..] == [];
    }
  }

  /** A listing of one kind from a node reference: a null root throws, a cycle never ends. */
  function CollectFrom(nodes: Nodes, p: Ptr, kind: Kind, skip: Ptr): (r: Result<seq<nat>>)
    ensures !Live(nodes, p) ==> r == Failure(NullReference)
    ensures r.Success? <==> GetNodesList(nodes, p).Success?
    ensures r.Success? ==> forall i :: 0 <= i < |r.value| ==> Kept(nodes, r.value[i], kind, skip)
  {
    if !Live(nodes, p) then Failure(NullReference)
    else if !Finite(nodes, p, |nodes|) then Failure(Diverges)
    else Success(Gathered(nodes, p, kind, skip, |nodes|))
  }

  /**
   * Every listing `GetAll*Nodes` returns holds exactly the nodes of the tree's
   * pre-order listing that are of the asked kind and are not the skipped
   * node, in pre-order.
   */
  lemma ListingMembers(nodes: Nodes, p: Ptr, kind: Kind, skip: Ptr)
    requires GetNodesList(nodes, p).Success?
    ensures CollectFrom(nodes, p, kind, skip).Success?
    ensures CollectFrom(nodes, p, kind, skip).value == Filter(nodes, GetNodesList(nodes, p).value, kind, skip)
    ensures forall k :: k in CollectFrom(nodes, p, kind, skip).value <==>
      k in GetNodesList(nodes, p).value && Kept(nodes, k, kind, skip)
  {
    GatheredIsFiltered(nodes, p, kind, skip, |nodes|);
    forall k: nat
      ensures k in CollectFrom(nodes, p, kind, skip).value <==>
        k in GetNodesList(nodes, p).value && Kept(nodes, k, kind, skip)
    {
      FilterMembers(nodes, GetNodesList(nodes, p).value, kind, skip, k);
    }
  }

  /** `GetAllCartesianProductNodes`. */
  function GetAllCartesianProductNodes(nodes: Nodes, p: Ptr): (r: Result<seq<nat>>)
    ensures !Live(nodes, p) ==> r == Failure(NullReference)
    ensures r.Success? ==> forall i :: 0 <= i < |r.value| ==>
      r.value[i] < |nodes| && nodes[r.value[i]].content == SetOpContent(CartesianProduct)
  {
    CollectFrom(nodes, p, CartesianKind, Null)
  }

  /** `GetAllSelectionNodes`. */
  function GetAllSelectionNodes(nodes: Nodes, p: Ptr): (r: Result<seq<nat>>)
    ensures !Live(nodes, p) ==> r == Failure(NullReference)
    ensures r.Success? ==> forall i :: 0 <= i < |r.value| ==>
      r.value[i] < |nodes| && nodes[r.value[i]].content.SelectionContent?
  {
    CollectFrom(nodes, p, SelectionKind, Null)
  }

  /** `GetAllProjectionNodes(root)`: every projection, the root included. */
  function GetAllProjectionNodes(nodes: Nodes, p: Ptr): (r: Result<seq<nat>>)
    ensures !Live(nodes, p) ==> r == Failure(NullReference)
    ensures r.Success? ==> forall i :: 0 <= i < |r.value| ==>
      r.value[i] < |nodes| && nodes[r.value[i]].content.ProjectionContent?
  {
    CollectFrom(nodes, p, ProjectionKind, Null)
  }

  /** `GetAllProjectionNodes(node, root)`: every projection below `p` except `root`. */
  function GetAllProjectionNodesExcept(nodes: Nodes, p: Ptr, root: Ptr): (r: Result<seq<nat>>)
    ensures !Live(nodes, p) ==> r == Failure(NullReference)
    ensures r.Success? ==> forall i :: 0 <= i < |r.value| ==>
      r.value[i] < |nodes| && nodes[r.value[i]].content.ProjectionContent? && Ref(r.value[i]) != root
  {
    CollectFrom(nodes, p, ProjectionKind, root)
  }

  /** The relation nodes of a tree, in pre-order: what `GetAllRelationNodes` is meant to return. */
  function GetAllRelationNodes(nodes: Nodes, p: Ptr): (r: Result<seq<nat>>)
    ensures !Live(nodes, p) ==> r == Failure(NullReference)
    ensures r.Success? ==> forall i :: 0 <= i < |r.value| ==>
      r.value[i] < |nodes| && nodes[r.value[i]].content.RelationContent?
  {
    CollectFrom(nodes, p, RelationKind, Null)
  }

  /**
   * `GetAllRelationNodes` as written: the node itself when it is a relation,
   * but below it the listing of cartesian products, since both recursive
   * calls go to `GetAllCartesianProductNodes`.
   */
  function GetAllRelationNodesAsWritten(nodes: Nodes, p: Ptr): (r: Result<seq<nat>>)
    ensures !Live(nodes, p) ==> r == Failure(NullReference)
    ensures r.Success? <==> GetNodesList(nodes, p).Success?
  {
    if !Live(nodes, p) then Failure(NullReference)
    else if !Finite(nodes, p, |nodes|) then Failure(Diverges)
    else
      var x := nodes[p.index];
      var f := |nodes| - 1;
      Success((if x.content.RelationContent? then [p.index] else [])
        + Gathered(nodes, x.left, CartesianKind, Null, f) + Gathered(nodes, x.right, CartesianKind, Null, f))
  }

  /** Below its root, the as-written listing holds only cartesian products, never a relation. */
  lemma RelationNodesAsWrittenBelowRoot(nodes: Nodes, p: Ptr)
    requires GetAllRelationNodesAsWritten(nodes, p).Success?
    ensures forall i :: 0 <= i < |GetAllRelationNodesAsWritten(nodes, p).value| ==>
      var k := GetAllRelationNodesAsWritten(nodes, p).value[i];
      k == p.index || (k < |nodes| && nodes[k].content == SetOpContent(CartesianProduct))
  {
    var x := nodes[p.index];
    var f := |nodes| - 1;
    var own := if x.content.RelationContent? then [p.index] else [];
    var l := Gathered(nodes, x.left, CartesianKind, Null, f);
    var r := Gathered(nodes, x.right, CartesianKind, Null, f);
    var all := GetAllRelationNodesAsWritten(nodes, p).value;
    assert all == own + l + r;
    forall i | 0 <= i < |all|
      ensures all[i] == p.index || (all[i] < |nodes| && nodes[all[i]].content == SetOpContent(CartesianProduct))
    {
      if i >= |own| + |l| {
        assert all[i] == r[i - |own| - |l|];
      } else if i >= |own| {
        assert all[i] == l[i - |own|];
      }
    }
  }

  /** A projection over one relation: node 0 is the projection, node 1 the relation below it. */
  const ProjectionOverRelation: Nodes :=
    [Node("1", Null, Ref(1), Null, ProjectionContent(Projection([]))),
     Node("2", Ref(0), Null, Null, RelationContent(0))]

  /** On a projection over a relation, the as-written listing is empty, while the relation is there to find. */
  lemma RelationNodesAsWrittenMissesLeaf()
    ensures GetAllRelationNodesAsWritten(ProjectionOverRelation, Ref(0)).Success?
    ensures GetAllRelationNodesAsWritten(ProjectionOverRelation, Ref(0)).value == []
    ensures GetAllRelationNodes(ProjectionOverRelation, Ref(0)).Success?
    ensures GetAllRelationNodes(ProjectionOverRelation, Ref(0)).value == [1]
  {
    var h := ProjectionOverRelation;
    assert Finite(h, Ref(1), 1);
    assert Finite(h, Ref(0), 2);
    assert Gathered(h, Ref(1), CartesianKind, Null, 1) == [];
    assert Gathered(h, Ref(1), RelationKind, Null, 1) == [1];
    assert Gathered(h, Ref(0), RelationKind, Null, 2) == [] + [1] + [];
  }

  // ---------------------------------------------------------------- restrictive weight

  /**
   * What one condition adds to a selection's restrictive weight: 1, plus 1
   * more for `=` and for `!=`.
   */
  function ConditionWeight(c: Condition): (w: int)
    ensures w == 1 || w == 2
    ensures w == 2 <==> c.op == Equals || c.op == NotEqualToExclamation
  {
    if c.op == Equals || c.op == NotEqualToExclamation then 2 else 1
  }

  /** The weight a selection's conditions add, as the loop of `GetRestrictiveWeight` sums them. */
  function ConditionsWeight(cs: seq<Condition>): int
  {
    if |cs| == 0 then 0 else ConditionsWeight(cs[..|cs| - 1]) + ConditionWeight(cs[|cs| - 1])
  }

  /**
   * A selection's conditions weigh between one and two per condition, and
   * two per condition exactly when every one is an equality or inequality.
   */
  lemma {:induction false} ConditionsWeightBounds(cs: seq<Condition>)
    ensures |cs| <= ConditionsWeight(cs) <= 2 * |cs|
    ensures ConditionsWeight(cs) == 2 * |cs| <==>
      forall i :: 0 <= i < |cs| ==> cs[i].op == Equals || cs[i].op == NotEqualToExclamation
  {
    if |cs| > 0 {
      var init := cs[..|cs| - 1];
      ConditionsWeightBounds(init);
      assert forall i :: 0 <= i < |init| ==> init[i] == cs[i];
    }
  }

  /** Content that weighs nothing of its own and passes on no child's weight: a relation, a join, none. */
  predicate Weightless(c: Content)
  {
    !c.SetOpContent? && !c.SelectionContent? && !c.ProjectionContent?
  }

  /**
   * `GetRestrictiveWeight`: a set operator weighs its two children together,
   * a selection its conditions plus its left child, a projection its left
   * child, and a relation or any other content nothing.  A null node where
   * one is read throws (`node.Content` on null).
   */
  function Weight(nodes: Nodes, p: Ptr, fuel: nat): (r: Result<int>)
    ensures !Live(nodes, p) ==> r == Failure(NullReference)
    ensures r.Success? ==> r.value >= 0
    ensures Live(nodes, p) && fuel > 0 && Weightless(nodes[p.index].content) ==> r == Success(0)
    decreases fuel
  {
    if !Live(nodes, p) then Failure(NullReference)
    else if fuel == 0 then Failure(Diverges)
    else
      var x := nodes[p.index];
      match x.content
      case SetOpContent(_) =>
        var l :- Weight(nodes, x.left, fuel - 1);
        var r :- Weight(nodes, x.right, fuel - 1);
        Success(l + r)
      case SelectionContent(s) =>
        ConditionsWeightBounds(s.conditions);
        var l :- Weight(nodes, x.left, fuel - 1);
        Success(ConditionsWeight(s.conditions) + l)
      case ProjectionContent(_) => Weight(nodes, x.left, fuel - 1)
      case _ => Success(0)
  }

  /** `GetRestrictiveWeight(node)` from a node reference. */
  function GetRestrictiveWeight(nodes: Nodes, p: Ptr): (r: Result<int>)
    ensures !Live(nodes, p) ==> r == Failure(NullReference)
    ensures r.Success? ==> r.value >= 0
  {
    Weight(nodes, p, |nodes|)
  }

  /**
   * A selection weighs at least one per condition more than its child, and
   * two per condition more exactly when every condition is `=` or `!=`; a
   * set operator weighs at least as much as either child.
   */
  lemma WeightGrowsUpward(nodes: Nodes, k: nat, fuel: nat)
    requires k < |nodes| && fuel > 0 && Weight(nodes, Ref(k), fuel).Success?
    ensures nodes[k].content.SelectionContent? ==>
      var cs := nodes[k].content.selection.conditions;
      var w := Weight(nodes, Ref(k), fuel).value - Weight(nodes, nodes[k].left, fuel - 1).value;
      |cs| <= w <= 2 * |cs|
      && (w == 2 * |cs| <==> forall i :: 0 <= i < |cs| ==> cs[i].op == Equals || cs[i].op == NotEqualToExclamation)
    ensures nodes[k].content.SetOpContent? ==>
      Weight(nodes, Ref(k), fuel).value >= Weight(nodes, nodes[k].left, fuel - 1).value
      && Weight(nodes, Ref(k), fuel).value >= Weight(nodes, nodes[k].right, fuel - 1).value
    ensures nodes[k].content.ProjectionContent? ==>
      Weight(nodes, Ref(k), fuel) == Weight(nodes, nodes[k].left, fuel - 1)
  {
    if nodes[k].content.SelectionContent? {
      ConditionsWeightBounds(nodes[k].content.selection.conditions);
    }
  }

  // ---------------------------------------------------------------- relation containment

  /**
   * `ContainsRelation`: a null node holds nothing; a node whose relation is
   * the very object sought holds it; otherwise the left subtree is asked,
   * and the right one only when the left said no.
   */
  function ContainsRelation(nodes: Nodes, p: Ptr, rel: nat, fuel: nat): (r: Result<bool>)
    ensures !Live(nodes, p) ==> r == Success(false)
    ensures Live(nodes, p) && nodes[p.index].content == RelationContent(rel) ==> r == Success(true)
    ensures r.Failure? ==> r.error == Diverges
    decreases fuel
  {
    if !Live(nodes, p) then Success(false)
    else if nodes[p.index].content == RelationContent(rel) then Success(true)
    else if fuel == 0 then Failure(Diverges)
    else
      var x := nodes[p.index];
      var l :- if Live(nodes, x.left) then ContainsRelation(nodes, x.left, rel, fuel - 1) else Success(false);
      if l then Success(true)
      else if Live(nodes, x.right) then ContainsRelation(nodes, x.right, rel, fuel - 1)
      else Success(false)
  }

  /** The search with the arena's size as bound answers whether the relation is among the leaves. */
  lemma ContainsMeansLeaf(nodes: Nodes, k: nat, rel: nat)
    requires k < |nodes| && ContainsRelation(nodes, Ref(k), rel, |nodes|).Success?
    ensures ContainsRelation(nodes, Ref(k), rel, |nodes|).value <==> rel in LeafRelations(nodes, k, |nodes| + 1)
  {
    var fuel := |nodes| + 1;
    assert fuel - 1 == |nodes|;
    ContainsRelationMeansLeaf(nodes, k, rel, fuel);
  }

  /**
   * Whenever `ContainsRelation` answers, its answer is whether the relation
   * is among the tree's relation leaves.
   */
  lemma {:induction false} ContainsRelationMeansLeaf(nodes: Nodes, k: nat, rel: nat, fuel: nat)
    requires k < |nodes| && fuel > 0
    requires ContainsRelation(nodes, Ref(k), rel, fuel - 1).Success?
    ensures ContainsRelation(nodes, Ref(k), rel, fuel - 1).value <==> rel in LeafRelations(nodes, k, fuel)
    decreases fuel
  {
    var x := nodes[k];
    if x.content == RelationContent(rel) {
    } else {
      var f := fuel - 1;
      assert f > 0;
      if Live(nodes, x.left) {
        ContainsRelationMeansLeaf(nodes, x.left.index, rel, f);
      }
      if Live(nodes, x.right) && !(Live(nodes, x.left) && ContainsRelation(nodes, x.left, rel, f - 1).value) {
        ContainsRelationMeansLeaf(nodes, x.right.index, rel, f);
      }
    }
  }

  // ---------------------------------------------------------------- conjunctive selections

  /** No operator of the selection is `Or`. */
  predicate Conjunctive(s: Selection)
  {
    forall key :: key in s.operators ==> s.operators[key] != Or
  }

  /** `IsConjunctiveSelectionNode`: a selection none of whose operators is `Or`; a null node throws. */
  function IsConjunctiveSelectionNode(nodes: Nodes, p: Ptr): (r: Result<bool>)
    ensures !Live(nodes, p) ==> r == Failure(NullReference)
    ensures r.Success? ==> (r.value <==>
      nodes[p.index].content.SelectionContent? && Conjunctive(nodes[p.index].content.selection))
  {
    if !Live(nodes, p) then Failure(NullReference)
    else match nodes[p.index].content
      case SelectionContent(s) => Success(Conjunctive(s))
      case _ => Success(false)
  }

  /** A conjunctive selection whose neighbours are all linked renders as its conditions joined by AND. */
  lemma ConjunctiveRendersWithAnd(s: Selection)
    requires Conjunctive(s) && |s.conditions| > 0
    requires AllRendered(s.conditions, |s.conditions|) && AllLinked(s.operators, |s.conditions|)
    ensures s.ToString() == Success("\U{03C3}" + Interleave(ConditionTexts(s.conditions, |s.conditions|), "AND "))
  {
    assert forall i :: 1 <= i < |s.conditions| ==> LinkedBy(s.operators, i, And) by {
      forall i | 1 <= i < |s.conditions|
        ensures LinkedBy(s.operators, i, And)
      {
        assert Linked(s.operators, i);
        assert s.operators[(i - 1, i)] != Or;
      }
    }
    SelectionAllAnd(s);
  }

  // ---------------------------------------------------------------- accessible attributes

  /** The attributes of a relation as the node reads them: each one takes the alias of its query number. */
  function Realiased(r: Relation): (res: Result<seq<Attribute>>)
    ensures res.Success? <==> forall i :: 0 <= i < |r.attributes| ==> 0 <= r.attributes[i].queryNumber < |r.aliases|
    ensures res.Failure? ==> res.error == IndexOutOfRange
    ensures res.Success? ==> |res.value| == |r.attributes| && forall i :: 0 <= i < |r.attributes| ==>
      res.value[i] == r.attributes[i].(alias := r.aliases[r.attributes[i].queryNumber])
  {
    if forall i :: 0 <= i < |r.attributes| ==> 0 <= r.attributes[i].queryNumber < |r.aliases|
    then Success(seq(|r.attributes|, i requires 0 <= i < |r.attributes| =>
      r.attributes[i].(alias := r.aliases[r.attributes[i].queryNumber])))
    else Failure(IndexOutOfRange)
  }

  /** The accessible attributes of a child; a null child adds nothing. */
  function ChildAccessible(nodes: Nodes, p: Ptr, rels: seq<Relation>, fuel: nat): (r: Result<seq<Attribute>>)
    ensures !Live(nodes, p) ==> r == Success([])
    ensures Live(nodes, p) ==> r == AccessibleAttributes(nodes, p.index, rels, fuel)
    decreases fuel, 1
  {
    if Live(nodes, p) then AccessibleAttributes(nodes, p.index, rels, fuel) else Success([])
  }

  /**
   * `GetAccessibleAttributes`: a projection offers its attributes; a
   * relation offers its attributes, each under the alias its query number
   * picks (out of range throws); any other node offers what its left
   * child offers, then what its right child offers.
   */
  function AccessibleAttributes(nodes: Nodes, k: nat, rels: seq<Relation>, fuel: nat): (r: Result<seq<Attribute>>)
    requires k < |nodes|
    ensures fuel > 0 && nodes[k].content.ProjectionContent? ==> r == Success(nodes[k].content.projection.attributes)
    ensures fuel > 0 && nodes[k].content.RelationContent? && nodes[k].content.rel < |rels| ==>
      r == Realiased(rels[nodes[k].content.rel])
    ensures fuel == 0 ==> r == Failure(Diverges)
    decreases fuel, 0
  {
    if fuel == 0 then Failure(Diverges)
    else
      var x := nodes[k];
      match x.content
      case ProjectionContent(pr) => Success(pr.attributes)
      case RelationContent(i) =>
        var rel :- RelationOf(rels, i);
        Realiased(rel)
      case _ =>
        var l :- ChildAccessible(nodes, x.left, rels, fuel - 1);
        var r :- ChildAccessible(nodes, x.right, rels, fuel - 1);
        Success(l + r)
  }

  /** `GetAccessibleAttributes(node)` from a node reference; a null node throws. */
  function GetAccessibleAttributes(nodes: Nodes, p: Ptr, rels: seq<Relation>): (r: Result<seq<Attribute>>)
    ensures !Live(nodes, p) ==> r == Failure(NullReference)
  {
    if Live(nodes, p) then AccessibleAttributes(nodes, p.index, rels, |nodes|) else Failure(NullReference)
  }

  // ---------------------------------------------------------------- link check

  /** The check of one child link: a null child passes. */
  predicate LinkBack(nodes: Nodes, k: nat, p: Ptr)
    requires k < |nodes|
  {
    Live(nodes, p) ==> nodes[p.index].parent == Ref(k)
  }

  /** The check of a child's subtree; a null child passes. */
  function ChildProper(nodes: Nodes, p: Ptr, fuel: nat): (r: Result<bool>)
    ensures !Live(nodes, p) ==> r == Success(true)
    ensures Live(nodes, p) ==> r == DescendentsAreProper(nodes, p.index, fuel)
    decreases fuel, 1
  {
    if Live(nodes, p) then DescendentsAreProper(nodes, p.index, fuel) else Success(true)
  }

  /**
   * The check `DescendentsAreProper` is meant to make: every child below
   * the node has its parent as `Parent`, in both subtrees.
   */
  function DescendentsAreProper(nodes: Nodes, k: nat, fuel: nat): (r: Result<bool>)
    requires k < |nodes|
    ensures fuel == 0 ==> r == Failure(Diverges)
    ensures r.Failure? ==> r.error == Diverges
    ensures r.Success? && !ChildrenPointBack(nodes, k) ==> !r.value
    decreases fuel, 0
  {
    if fuel == 0 then Failure(Diverges)
    else
      var x := nodes[k];
      if !LinkBack(nodes, k, x.left) || !LinkBack(nodes, k, x.right) then Success(false)
      else
        var l :- ChildProper(nodes, x.left, fuel - 1);
        var r :- ChildProper(nodes, x.right, fuel - 1);
        Success(l && r)
  }

  /** Every node of a listing has its children pointing back to it. */
  predicate AllPointBack(nodes: Nodes, ks: seq<nat>)
  {
    forall i :: 0 <= i < |ks| ==> ks[i] < |nodes| && ChildrenPointBack(nodes, ks[i])
  }

  /**
   * Wherever every path down ends within the fuel, the corrected check
   * answers, and holds exactly when every node of the pre-order listing has
   * its children pointing back to it.
   */
  lemma {:induction false} ProperMeansPointBack(nodes: Nodes, p: Ptr, fuel: nat)
    requires Finite(nodes, p, fuel)
    ensures ChildProper(nodes, p, fuel) == Success(AllPointBack(nodes, Listing(nodes, p, fuel)))
    decreases fuel
  {
    if Live(nodes, p) {
      var k := p.index;
      var x := nodes[k];
      var a := Listing(nodes, x.left, fuel - 1);
      var b := Listing(nodes, x.right, fuel - 1);
      ProperMeansPointBack(nodes, x.left, fuel - 1);
      ProperMeansPointBack(nodes, x.right, fuel - 1);
      ProperOfChildren(nodes, k, fuel, AllPointBack(nodes, a), AllPointBack(nodes, b));
      AllPointBackAppend(nodes, k, a, b);
    }
  }

  /** The corrected check of a node whose two subtrees answered `u` and `v`. */
  lemma ProperOfChildren(nodes: Nodes, k: nat, fuel: nat, u: bool, v: bool)
    requires k < |nodes| && fuel > 0
    requires ChildProper(nodes, nodes[k].left, fuel - 1) == Success(u)
    requires ChildProper(nodes, nodes[k].right, fuel - 1) == Success(v)
    ensures ChildProper(nodes, Ref(k), fuel) == Success(ChildrenPointBack(nodes, k) && u && v)
  {
  }

  /** The listing of a node and of its two subtrees points back when each part does. */
  lemma AllPointBackAppend(nodes: Nodes, k: nat, a: seq<nat>, b: seq<nat>)
    requires k < |nodes|
    ensures AllPointBack(nodes, [k] + a + b) <==>
      ChildrenPointBack(nodes, k) && AllPointBack(nodes, a) && AllPointBack(nodes, b)
  {
    var ks := [k] + a + b;
    assert forall i :: 0 <= i < |a| ==> ks[1 + i] == a[i];
    assert forall i :: 0 <= i < |b| ==> ks[1 + |a| + i] == b[i];
    assert ks[0] == k;
    if ChildrenPointBack(nodes, k) && AllPointBack(nodes, a) && AllPointBack(nodes, b) {
      forall i | 0 <= i < |ks|
        ensures ks[i] < |nodes| && ChildrenPointBack(nodes, ks[i])
      {
        if i == 0 {
        } else if i < 1 + |a| {
          assert ks[i] == a[i - 1];
        } else {
          assert ks[i] == b[i - 1 - |a|];
        }
      }
    }
  }

  /** The as-written check of a child's subtree. */
  function ChildProperAsWritten(nodes: Nodes, p: Ptr, fuel: nat): (r: Result<bool>)
    ensures !Live(nodes, p) ==> r == Failure(NullReference)
    decreases fuel, 1
  {
    if Live(nodes, p) then DescendentsAreProperAsWritten(nodes, p.index, fuel) else Failure(NullReference)
  }

  /**
   * `DescendentsAreProper` as written: a child whose `Parent` is not the node
   * answers false at once; otherwise the answer is overwritten by a check
   * of the left subtree, once for the left child and again for the right
   * child, so the right subtree is never examined and a node with only a
   * right child asks about its null left child, which throws.
   */
  function DescendentsAreProperAsWritten(nodes: Nodes, k: nat, fuel: nat): (r: Result<bool>)
    requires k < |nodes|
    ensures fuel == 0 ==> r == Failure(Diverges)
    decreases fuel, 0
  {
    if fuel == 0 then Failure(Diverges)
    else
      var x := nodes[k];
      if Live(nodes, x.left) && !LinkBack(nodes, k, x.left) then Success(false)
      else
        var v1 :- if Live(nodes, x.left) then ChildProperAsWritten(nodes, x.left, fuel - 1) else Success(true);
        if !Live(nodes, x.right) then Success(v1)
        else if !LinkBack(nodes, k, x.right) then Success(false)
        else ChildProperAsWritten(nodes, x.left, fuel - 1)
  }

  /** Node 0 with a right child only, linked both ways. */
  function RightOnly(): (h: Nodes)
    ensures |h| == 2
  {
    [Node("1", Null, Null, Ref(1), SetOpContent(Union)),
     Node("2", Ref(0), Null, Null, RelationContent(0))]
  }

  /** Node 0 with two linked children; node 2 has a child that names node 0 as its parent. */
  function BrokenRight(): (h: Nodes)
    ensures |h| == 4
  {
    [Node("1", Null, Ref(1), Ref(2), SetOpContent(Union)),
     Node("2", Ref(0), Null, Null, RelationContent(0)),
     Node("3", Ref(0), Ref(3), Null, SelectionContent(Selection([], map[]))),
     Node("4", Ref(0), Null, Null, RelationContent(1))]
  }

  /**
   * The as-written check throws on a properly linked node that has only a
   * right child, and passes a tree whose right subtree is broken; the
   * corrected check passes the first and fails the second.
   */
  lemma ProperAsWrittenCounterexamples()
    ensures DescendentsAreProperAsWritten(RightOnly(), 0, 2) == Failure(NullReference)
    ensures DescendentsAreProper(RightOnly(), 0, 2) == Success(true)
    ensures DescendentsAreProperAsWritten(BrokenRight(), 0, 4) == Success(true)
    ensures DescendentsAreProper(BrokenRight(), 0, 4) == Success(false)
  {
    var a := RightOnly();
    assert DescendentsAreProper(a, 1, 1) == Success(true);
    var b := BrokenRight();
    assert DescendentsAreProperAsWritten(b, 1, 3) == Success(true);
    assert !ChildrenPointBack(b, 2);
    assert DescendentsAreProper(b, 2, 3) == Success(false);
    assert DescendentsAreProper(b, 1, 3) == Success(true);
  }
}
