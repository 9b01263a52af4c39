/**
 * The legacy `QueryOptimizer` (Optimizer.cs) as it runs: each rule a
 * method on the arena that performs the source's assignments in their
 * order, proved against the rule's function in `LegacyRules`, and `Run`,
 * the five rules applied in order with nothing caught.
 */
module LegacyOptimizer {
  import opened Wrappers
  import opened QueryModel
  import opened Heap
  import opened TreeQueries
  import opened Rewrites
  import opened LegacyRules
  import OptimizerHelpers
  import SelectionCascade
  import JoinIntroduction
  import ProjectionInsertion

  // ---------------------------------------------------------------- rule 1

  /** The body of the `ApplyOptimizationRule1` loop for one selection node. */
  method CascadeSelection(heap: NodeHeap, k: nat) returns (o: Outcome)
    requires heap.Valid()
    modifies heap
    ensures heap.Valid()
    ensures Follows(o, Cascade(old(heap.nodes), k), heap.nodes)
  {
    var conjunctive := IsConjunctiveSelectionNode(heap.nodes, Ref(k));
    if conjunctive.Failure? {
      return Fail(conjunctive.error);
    }
    if !conjunctive.value {
      return Pass;
    }
    var x := heap.nodes[k];
    o := SelectionCascade.BuildCascade(heap, x.content.selection.conditions, x.parent, x.left);
  }

  /** `ApplyOptimizationRule1(root)`. */
  method ApplyOptimizationRule1(heap: NodeHeap, root: Ptr) returns (o: Outcome)
    requires heap.Valid()
    modifies heap
    ensures heap.Valid()
    ensures Follows(o, Rule1(old(heap.nodes), root), heap.nodes)
  {
    var list := GetAllSelectionNodes(heap.nodes, root);
    if list.Failure? {
      return Fail(list.error);
    }
    var ks := list.value;
    ghost var start := heap.nodes;
    for j := 0 to |ks|
      invariant heap.Valid()
      invariant Rule1(start, root) == CascadeAll(heap.nodes, ks, j)
    {
      o := CascadeSelection(heap, ks[j]);
      if o.Fail? {
        return;
      }
    }
    return Pass;
  }

  // ---------------------------------------------------------------- the relation an attribute names

  /** The legacy `GetRelationForAttribute`: the scan over the candidates. */
  method GetRelationForAttribute(nodes: Nodes, rels: seq<Relation>, attribute: Attribute, relations: seq<nat>) returns (r: Result<Ptr>)
    ensures r == AliasLookup(nodes, rels, attribute, relations)
  {
    for i := 0 to |relations|
      invariant AliasLookup(nodes, rels, attribute, relations) == AliasLookup(nodes, rels, attribute, relations[i..])
    {
      var k := relations[i];
      assert relations[i..][1..] == relations[i + 1..];
      if !OptimizerHelpers.Resolves(nodes, rels, k) {
        return Failure(NullReference);
      }
      if !Indexable(nodes, rels, attribute, k) {
        return Failure(IndexOutOfRange);
      }
      if AliasMatch(nodes, rels, attribute, k) {
        return Success(Ref(k));
      }
    }
    return Success(Null);
  }

  /** The call with a `dynamic` condition side. */
  method GetRelationForSide(nodes: Nodes, rels: seq<Relation>, side: Operand, relations: seq<nat>) returns (r: Result<Ptr>)
    ensures r == SideLookup(nodes, rels, side, relations)
  {
    match side
    case AttrOp(a) =>
      r := GetRelationForAttribute(nodes, rels, a, relations);
    case NullOp =>
      r := if |relations| == 0 then Success(Null) else Failure(NullReference);
    case _ =>
      r := Failure(RuntimeBinder);
  }

  // ---------------------------------------------------------------- rule 2

  /** Selection `k` cut out: its left child hung at its parent's left. */
  method BypassSelection(heap: NodeHeap, k: nat) returns (o: Outcome)
    requires heap.Valid() && k < |heap.nodes|
    modifies heap
    ensures heap.Valid()
    ensures Follows(o, Bypass(old(heap.nodes), k), heap.nodes)
  {
    var x := heap.nodes[k];
    if !Live(heap.nodes, x.parent) {
      return Fail(NullReference);
    }
    heap.Assign(x.parent, LeftField, x.left);
    var child := heap.nodes[k].left;
    if !Live(heap.nodes, child) {
      return Fail(NullReference);
    }
    heap.Assign(child, ParentField, heap.nodes[k].parent);
    return Pass;
  }

  /** The non-join placement of selection `k` above relation node `rel`. */
  method HangSelectionAbove(heap: NodeHeap, k: nat, rel: nat) returns (o: Outcome)
    requires heap.Valid() && k < |heap.nodes| && rel < |heap.nodes|
    modifies heap
    ensures heap.Valid()
    ensures Follows(o, HangAbove(old(heap.nodes), k, rel), heap.nodes)
  {
    heap.Assign(Ref(k), ParentField, heap.nodes[rel].parent);
    heap.Assign(Ref(k), LeftField, Ref(rel));
    var parent := heap.nodes[k].parent;
    if !Live(heap.nodes, parent) {
      return Fail(NullReference);
    }
    var side := if heap.nodes[parent.index].left == Ref(rel) then LeftField else RightField;
    heap.Assign(parent, side, Ref(k));
    var child := heap.nodes[k].left;
    if !Live(heap.nodes, child) {
      return Fail(NullReference);
    }
    heap.Assign(child, ParentField, Ref(k));
    return Pass;
  }

  /**
   * The `while` loop of the join placement: the parent of selection `k`
   * moves up, and its left child follows, until the right child below it
   * is one of the two relations.
   */
  method ClimbToRelation(heap: NodeHeap, k: nat, leftRelation: Ptr, rightRelation: Ptr) returns (o: Outcome)
    requires heap.Valid() && k < |heap.nodes|
    modifies heap
    ensures heap.Valid()
    ensures Follows(o, Ascend(old(heap.nodes), k, leftRelation, rightRelation, |old(heap.nodes)|), heap.nodes)
  {
    ghost var spec := Ascend(heap.nodes, k, leftRelation, rightRelation, |heap.nodes|);
    var fuel: nat := |heap.nodes|;
    while Live(heap.nodes, heap.nodes[k].left) && fuel > 0
        && heap.nodes[heap.nodes[k].left.index].right != rightRelation
        && heap.nodes[heap.nodes[k].left.index].right != leftRelation
      invariant heap.Valid() && k < |heap.nodes|
      invariant spec == Ascend(heap.nodes, k, leftRelation, rightRelation, fuel)
      decreases fuel
    {
      var parent := heap.nodes[k].parent;
      if !Live(heap.nodes, parent) {
        return Fail(NullReference);
      }
      heap.Assign(Ref(k), ParentField, heap.nodes[parent.index].parent);
      var grandparent := heap.nodes[k].parent;
      if !Live(heap.nodes, grandparent) {
        return Fail(NullReference);
      }
      heap.Assign(Ref(k), LeftField, heap.nodes[grandparent.index].left);
      fuel := fuel - 1;
    }
    var child := heap.nodes[k].left;
    if !Live(heap.nodes, child) {
      return Fail(NullReference);
    }
    if heap.nodes[child.index].right == rightRelation || heap.nodes[child.index].right == leftRelation {
      return Pass;
    }
    return Fail(Diverges);
  }

  /** Selection `k` put in as its parent's left child, above its left child. */
  method AdoptSelection(heap: NodeHeap, k: nat) returns (o: Outcome)
    requires heap.Valid() && k < |heap.nodes|
    modifies heap
    ensures heap.Valid()
    ensures Follows(o, Adopt(old(heap.nodes), k), heap.nodes)
  {
    var parent := heap.nodes[k].parent;
    if !Live(heap.nodes, parent) {
      return Fail(NullReference);
    }
    heap.Assign(parent, LeftField, Ref(k));
    var child := heap.nodes[k].left;
    if !Live(heap.nodes, child) {
      return Fail(NullReference);
    }
    heap.Assign(child, ParentField, Ref(k));
    return Pass;
  }

  /** The join placement of a cut-out selection `k`. */
  method PlaceJoinSelection(heap: NodeHeap, k: nat, leftRelation: Ptr, rightRelation: Ptr) returns (o: Outcome)
    requires heap.Valid() && k < |heap.nodes|
    modifies heap
    ensures heap.Valid()
    ensures Follows(o, PlaceJoin(old(heap.nodes), k, leftRelation, rightRelation), heap.nodes)
  {
    if !Live(heap.nodes, rightRelation) {
      return Fail(NullReference);
    }
    var above := heap.nodes[rightRelation.index].parent;
    if !Live(heap.nodes, above) {
      return Fail(NullReference);
    }
    heap.Assign(Ref(k), ParentField, heap.nodes[above.index].parent);
    heap.Assign(Ref(k), LeftField, heap.nodes[rightRelation.index].parent);
    o := ClimbToRelation(heap, k, leftRelation, rightRelation);
    if o.Fail? {
      return;
    }
    o := AdoptSelection(heap, k);
  }

  /** The body of the `ApplyOptimizationRule2` loop for one selection node. */
  method BurySelection(heap: NodeHeap, schema: seq<Relation>, rels: seq<Relation>, relations: seq<nat>, k: nat) returns (o: Outcome)
    requires heap.Valid()
    modifies heap
    ensures heap.Valid()
    ensures Follows(o, Bury(old(heap.nodes), schema, rels, relations, k), heap.nodes)
  {
    if k >= |heap.nodes| {
      return Fail(NullReference);
    }
    var content := heap.nodes[k].content;
    if !content.SelectionContent? {
      return Fail(CastFault(content));
    }
    var conditions := content.selection.conditions;
    if |conditions| == 0 {
      return Fail(NoElements);
    }
    var condition := conditions[0];
    var leftRelation := GetRelationForSide(heap.nodes, rels, condition.left, relations);
    if leftRelation.Failure? {
      return Fail(leftRelation.error);
    }
    if leftRelation.value.Null? {
      return Pass;
    }
    var isJoinCondition := OptimizerHelpers.IsJoinCondition(schema, condition);
    o := BypassSelection(heap, k);
    if o.Fail? {
      return;
    }
    if isJoinCondition {
      var rightRelation := GetRelationForSide(heap.nodes, rels, condition.right, relations);
      if rightRelation.Failure? {
        return Fail(rightRelation.error);
      }
      o := PlaceJoinSelection(heap, k, leftRelation.value, rightRelation.value);
    } else {
      o := HangSelectionAbove(heap, k, leftRelation.value.index);
    }
  }

  /** `ApplyOptimizationRule2(root)`. */
  method ApplyOptimizationRule2(heap: NodeHeap, schema: seq<Relation>, rels: seq<Relation>, root: Ptr) returns (o: Outcome)
    requires heap.Valid()
    modifies heap
    ensures heap.Valid()
    ensures Follows(o, Rule2(old(heap.nodes), schema, rels, root), heap.nodes)
  {
    var treeNodes := GetNodesList(heap.nodes, root);
    if treeNodes.Failure? {
      return Fail(treeNodes.error);
    }
    var treeRelations := Filter(heap.nodes, treeNodes.value, RelationKind, Null);
    var ks := GetAllSelectionNodes(heap.nodes, root).value;
    ghost var start := heap.nodes;
    for j := 0 to |ks|
      invariant heap.Valid()
      invariant Rule2(start, schema, rels, root) == BuryAll(heap.nodes, schema, rels, treeRelations, ks, j)
    {
      o := BurySelection(heap, schema, rels, treeRelations, ks[j]);
      if o.Fail? {
        return;
      }
    }
    return Pass;
  }

  // ---------------------------------------------------------------- rule 3

  /**
   * `GetParentalJoinNode(node)`: the walk up from the node's parent to the
   * first selection holding one join condition; `guarded` is the current
   * revision's early answer for a null node.
   */
  method GetParentalJoinNode(nodes: Nodes, schema: seq<Relation>, node: Ptr, guarded: bool) returns (r: Result<Ptr>)
    ensures r == ParentalJoin(nodes, schema, node, guarded)
  {
    if guarded && node == Null {
      return Success(Null);
    }
    if !Live(nodes, node) {
      return Failure(NullReference);
    }
    var cursor := nodes[node.index].parent;
    var fuel: nat := |nodes|;
    ghost var spec := JoinAbove(nodes, schema, cursor, fuel);
    while Live(nodes, cursor) && fuel > 0 && !JoinSelection(schema, nodes[cursor.index].content)
      invariant spec == JoinAbove(nodes, schema, cursor, fuel)
      decreases fuel
    {
      cursor := nodes[cursor.index].parent;
      fuel := fuel - 1;
    }
    if !Live(nodes, cursor) {
      return Failure(NullReference);
    }
    if !JoinSelection(schema, nodes[cursor.index].content) {
      return Failure(Diverges);
    }
    return Success(cursor);
  }

  /** `((Selection)node.Content).SwapOperators()` on node `j`, in place. */
  method SwapConditions(heap: NodeHeap, j: nat) returns (o: Outcome)
    requires heap.Valid() && j < |heap.nodes|
    modifies heap
    ensures heap.Valid()
    ensures Follows(o, SwapAt(old(heap.nodes), j), heap.nodes)
  {
    var c := heap.nodes[j].content;
    if !c.SelectionContent? {
      return Fail(CastFault(c));
    }
    heap.Store(Ref(j), SelectionContent(c.selection.SwapOperators()));
    return Pass;
  }

  /** The case of one cartesian product for selection `k`. */
  method MoveSelectionLeft(heap: NodeHeap, k: nat) returns (o: Outcome)
    requires heap.Valid() && k < |heap.nodes|
    modifies heap
    ensures heap.Valid()
    ensures Follows(o, MoveLeft(old(heap.nodes), k), heap.nodes)
  {
    var cartesianNode := heap.nodes[k].parent;
    if !Live(heap.nodes, cartesianNode) {
      return Fail(NullReference);
    }
    var c := heap.nodes[cartesianNode.index];
    if !c.content.SetOpContent? || c.right != Ref(k) {
      return Pass;
    }
    heap.Assign(cartesianNode, RightField, c.left);
    heap.Assign(cartesianNode, LeftField, Ref(k));
    var above := heap.nodes[cartesianNode.index].parent;
    if !Live(heap.nodes, above) {
      return Fail(NullReference);
    }
    o := SwapConditions(heap, above.index);
  }

  /** The first five assignments of the case of several cartesians. */
  method CrossRightJoins(heap: NodeHeap, lj: nat, rj: nat, leftRelation: Ptr) returns (o: Outcome)
    requires heap.Valid() && lj < |heap.nodes| && rj < |heap.nodes|
    modifies heap
    ensures heap.Valid()
    ensures Follows(o, CrossRight(old(heap.nodes), lj, rj, leftRelation), heap.nodes)
  {
    var rightParent := heap.nodes[rj].parent;
    if !Live(heap.nodes, rightParent) {
      return Fail(NullReference);
    }
    heap.Assign(rightParent, LeftField, Ref(lj));
    heap.Assign(Ref(lj), ParentField, heap.nodes[rj].parent);
    var below := heap.nodes[rj].left;
    if !Live(heap.nodes, below) {
      return Fail(NullReference);
    }
    heap.Assign(below, LeftField, heap.nodes[below.index].right);
    var below2 := heap.nodes[rj].left;
    if !Live(heap.nodes, below2) {
      return Fail(NullReference);
    }
    heap.Assign(below2, RightField, leftRelation);
    if !Live(heap.nodes, leftRelation) {
      return Fail(NullReference);
    }
    heap.Assign(leftRelation, ParentField, heap.nodes[rj].left);
    return Pass;
  }

  /** The last three assignments of the case of several cartesians. */
  method CrossLeftJoins(heap: NodeHeap, lj: nat, rj: nat) returns (o: Outcome)
    requires heap.Valid() && lj < |heap.nodes| && rj < |heap.nodes|
    modifies heap
    ensures heap.Valid()
    ensures Follows(o, CrossLeft(old(heap.nodes), lj, rj), heap.nodes)
  {
    var below := heap.nodes[lj].left;
    if !Live(heap.nodes, below) {
      return Fail(NullReference);
    }
    heap.Assign(below, RightField, heap.nodes[below.index].left);
    var below2 := heap.nodes[lj].left;
    if !Live(heap.nodes, below2) {
      return Fail(NullReference);
    }
    heap.Assign(below2, LeftField, Ref(rj));
    heap.Assign(Ref(rj), ParentField, heap.nodes[lj].left);
    return Pass;
  }

  /** The case of several cartesians for selection `k`. */
  method InterchangeJoins(heap: NodeHeap, schema: seq<Relation>, rels: seq<Relation>, relations: seq<nat>, k: nat) returns (o: Outcome)
    requires heap.Valid() && k < |heap.nodes|
    modifies heap
    ensures heap.Valid()
    ensures Follows(o, Interchange(old(heap.nodes), schema, rels, relations, k), heap.nodes)
  {
    var parent := heap.nodes[k].parent;
    if !Live(heap.nodes, parent) {
      return Fail(NullReference);
    }
    var grandparent := heap.nodes[parent.index].parent;
    if !Live(heap.nodes, grandparent) {
      return Fail(NullReference);
    }
    var g := heap.nodes[grandparent.index].content;
    if !g.SelectionContent? {
      return Fail(CastFault(g));
    }
    if |g.selection.conditions| == 0 {
      return Fail(NoElements);
    }
    var joinCondition := g.selection.conditions[0];
    var leftRelation := GetRelationForSide(heap.nodes, rels, joinCondition.left, relations);
    if leftRelation.Failure? {
      return Fail(leftRelation.error);
    }
    var rightRelation := GetRelationForSide(heap.nodes, rels, joinCondition.right, relations);
    if rightRelation.Failure? {
      return Fail(rightRelation.error);
    }
    var leftJoin := GetParentalJoinNode(heap.nodes, schema, leftRelation.value, false);
    if leftJoin.Failure? {
      return Fail(leftJoin.error);
    }
    var rightJoin := GetParentalJoinNode(heap.nodes, schema, rightRelation.value, false);
    if rightJoin.Failure? {
      return Fail(rightJoin.error);
    }
    var lj, rj := leftJoin.value.index, rightJoin.value.index;
    o := CrossRightJoins(heap, lj, rj, leftRelation.value);
    if o.Fail? {
      return;
    }
    o := CrossLeftJoins(heap, lj, rj);
    if o.Fail? {
      return;
    }
    o := SwapConditions(heap, rj);
    if o.Fail? {
      return;
    }
    o := SwapConditions(heap, lj);
  }

  /** The body of the `ApplyOptimizationRule3` loop for one selection node. */
  method ReorderSelection(heap: NodeHeap, schema: seq<Relation>, rels: seq<Relation>, relations: seq<nat>, root: Ptr, k: nat)
    returns (o: Outcome)
    requires heap.Valid()
    modifies heap
    ensures heap.Valid()
    ensures Follows(o, Reorder(old(heap.nodes), schema, rels, relations, root, k), heap.nodes)
  {
    if k >= |heap.nodes| {
      return Fail(NullReference);
    }
    var content := heap.nodes[k].content;
    if !content.SelectionContent? {
      return Fail(CastFault(content));
    }
    var containsJoinCondition := OptimizerHelpers.ContainsJoinCondition(schema, content.selection.conditions);
    if containsJoinCondition != Some(false) {
      return Pass;
    }
    var cartesians := GetAllCartesianProductNodes(heap.nodes, root);
    if cartesians.Failure? {
      return Fail(cartesians.error);
    }
    if |cartesians.value| == 1 {
      o := MoveSelectionLeft(heap, k);
    } else {
      o := InterchangeJoins(heap, schema, rels, relations, k);
    }
  }

  /** `ApplyOptimizationRule3(root)`. */
  method ApplyOptimizationRule3(heap: NodeHeap, schema: seq<Relation>, rels: seq<Relation>, root: Ptr) returns (o: Outcome)
    requires heap.Valid()
    modifies heap
    ensures heap.Valid()
    ensures Follows(o, Rule3(old(heap.nodes), schema, rels, root), heap.nodes)
  {
    var nodesInTree := GetNodesList(heap.nodes, root);
    if nodesInTree.Failure? {
      return Fail(nodesInTree.error);
    }
    var treeRelations := Filter(heap.nodes, nodesInTree.value, RelationKind, Null);
    var treeSelections := Filter(heap.nodes, nodesInTree.value, SelectionKind, Null);
    ghost var start := heap.nodes;
    for j := 0 to |treeSelections|
      invariant heap.Valid()
      invariant Rule3(start, schema, rels, root) == ReorderAll(heap.nodes, schema, rels, treeRelations, root, treeSelections, j)
    {
      o := ReorderSelection(heap, schema, rels, treeRelations, root, treeSelections[j]);
      if o.Fail? {
        return;
      }
    }
    return Pass;
  }

  // ---------------------------------------------------------------- rule 4

  /** The body of the `ApplyOptimizationRule4` loop for one cartesian node. */
  method ReplaceCartesian(heap: NodeHeap, k: nat) returns (o: Outcome)
    requires heap.Valid()
    modifies heap
    ensures heap.Valid()
    ensures Follows(o, Replace(old(heap.nodes), k), heap.nodes)
  {
    if !Live(heap.nodes, Ref(k)) {
      return Fail(NullReference);
    }
    var parent := heap.nodes[k].parent;
    if !Live(heap.nodes, parent) {
      return Fail(NullReference);
    }
    var content := heap.nodes[parent.index].content;
    if !content.SelectionContent? {
      return Fail(CastFault(content));
    }
    o := JoinIntroduction.FuseCartesian(heap, k);
  }

  /** `ApplyOptimizationRule4(root)`. */
  method ApplyOptimizationRule4(heap: NodeHeap, root: Ptr) returns (o: Outcome)
    requires heap.Valid()
    modifies heap
    ensures heap.Valid()
    ensures Follows(o, Rule4(old(heap.nodes), root), heap.nodes)
  {
    var list := GetAllCartesianProductNodes(heap.nodes, root);
    if list.Failure? {
      return Fail(list.error);
    }
    var ks := list.value;
    ghost var start := heap.nodes;
    for j := 0 to |ks|
      invariant heap.Valid()
      invariant Rule4(start, root) == ReplaceAll(heap.nodes, ks, j)
    {
      o := ReplaceCartesian(heap, ks[j]);
      if o.Fail? {
        return;
      }
    }
    return Pass;
  }

  // ---------------------------------------------------------------- graphs

  /** A Graphviz node declaration: the node's id, labelled with its content string. */
  datatype Declaration = Declaration(id: string, caption: string)
  {
    /** The declaration as a line of the Graphviz file. */
    function Text(): string
    {
      "\t" + id + " [label=\"" + caption + "\"]"
    }
  }

  /** Every listed node is in the arena and its content string does not throw. */
  predicate Labelled(nodes: Nodes, ks: seq<nat>, rels: seq<Relation>)
  {
    forall i :: 0 <= i < |ks| ==> ks[i] < |nodes| && ContentString(nodes[ks[i]].content, rels).Success?
  }

  /**
   * The node lines of `GenerateGraph` for the listed nodes, in order: the
   * content string of each node is built in turn, and the first one that
   * throws ends the drawing with its exception.
   */
  function NodeLines(nodes: Nodes, ks: seq<nat>, rels: seq<Relation>): (r: Result<seq<Declaration>>)
    requires forall i :: 0 <= i < |ks| ==> ks[i] < |nodes|
    ensures r.Success? ==> |r.value| == |ks|
    decreases |ks|
  {
    if |ks| == 0 then Success([])
    else
      var n := |ks| - 1;
      var init := NodeLines(nodes, ks[..n], rels);
      if init.Failure? then Failure(init.error)
      else
        var caption := ContentString(nodes[ks[n]].content, rels);
        if caption.Failure? then Failure(caption.error)
        else Success(init.value + [Declaration(nodes[ks[n]].id, caption.value)])
  }

  /**
   * The lines are drawn exactly when no listed node has a content string
   * that throws, and then the `i`-th line declares the `i`-th node with
   * its content string.
   */
  lemma {:induction false} NodeLinesMeans(nodes: Nodes, ks: seq<nat>, rels: seq<Relation>)
    requires forall i :: 0 <= i < |ks| ==> ks[i] < |nodes|
    ensures NodeLines(nodes, ks, rels).Success? <==> Labelled(nodes, ks, rels)
    ensures NodeLines(nodes, ks, rels).Success? ==> forall i :: 0 <= i < |ks| ==>
              NodeLines(nodes, ks, rels).value[i] == Declaration(nodes[ks[i]].id, ContentString(nodes[ks[i]].content, rels).value)
    decreases |ks|
  {
    if |ks| > 0 {
      var n := |ks| - 1;
      var init := ks[..n];
      NodeLinesMeans(nodes, init, rels);
      LabelledSnoc(nodes, ks, rels);
      var last := ContentString(nodes[ks[n]].content, rels);
      if NodeLines(nodes, init, rels).Success? && last.Success? {
        var v := NodeLines(nodes, init, rels).value + [Declaration(nodes[ks[n]].id, last.value)];
        assert NodeLines(nodes, ks, rels) == Success(v);
        forall i | 0 <= i < |ks|
          ensures v[i] == Declaration(nodes[ks[i]].id, ContentString(nodes[ks[i]].content, rels).value)
        {
          if i < n {
            assert init[i] == ks[i];
          }
        }
      }
    }
  }

  /** A list is labelled exactly when all of it but its last node is and the last node's content string does not throw. */
  lemma LabelledSnoc(nodes: Nodes, ks: seq<nat>, rels: seq<Relation>)
    requires |ks| > 0 && forall i :: 0 <= i < |ks| ==> ks[i] < |nodes|
    ensures Labelled(nodes, ks, rels) <==>
              Labelled(nodes, ks[..|ks| - 1], rels) && ContentString(nodes[ks[|ks| - 1]].content, rels).Success?
  {
    assert forall i :: 0 <= i < |ks| - 1 ==> ks[..|ks| - 1][i] == ks[i];
  }

  /**
   * A drawing that throws throws the exception of the first listed node
   * whose content string throws: every node before it has its line.
   */
  lemma {:induction false} NodeLinesFirstFailure(nodes: Nodes, ks: seq<nat>, rels: seq<Relation>)
    requires forall i :: 0 <= i < |ks| ==> ks[i] < |nodes|
    requires NodeLines(nodes, ks, rels).Failure?
    ensures exists i :: 0 <= i < |ks| && Labelled(nodes, ks[..i], rels)
                     && ContentString(nodes[ks[i]].content, rels) == Failure(NodeLines(nodes, ks, rels).error)
    decreases |ks|
  {
    var n := |ks| - 1;
    if NodeLines(nodes, ks[..n], rels).Failure? {
      NodeLinesFirstFailure(nodes, ks[..n], rels);
      var i :| 0 <= i < n && Labelled(nodes, ks[..n][..i], rels)
        && ContentString(nodes[ks[..n][i]].content, rels) == Failure(NodeLines(nodes, ks[..n], rels).error);
      assert ks[..n][..i] == ks[..i];
    } else {
      NodeLinesMeans(nodes, ks[..n], rels);
      assert Labelled(nodes, ks[..n], rels);
    }
  }

  /** The lines of one more listed node: those of the nodes before it, then its own. */
  lemma NodeLinesStep(nodes: Nodes, ks: seq<nat>, i: nat, rels: seq<Relation>)
    requires forall j :: 0 <= j < |ks| ==> ks[j] < |nodes|
    requires i < |ks|
    ensures NodeLines(nodes, ks[..i + 1], rels) ==
              if NodeLines(nodes, ks[..i], rels).Failure? then NodeLines(nodes, ks[..i], rels)
              else if ContentString(nodes[ks[i]].content, rels).Failure? then Failure(ContentString(nodes[ks[i]].content, rels).error)
              else Success(NodeLines(nodes, ks[..i], rels).value + [Declaration(nodes[ks[i]].id, ContentString(nodes[ks[i]].content, rels).value)])
  {
    assert ks[..i + 1][..i] == ks[..i];
  }

  /** Once the lines of a prefix of the list throw, the lines of the whole list throw the same. */
  lemma {:induction false} NodeLinesPrefix(nodes: Nodes, ks: seq<nat>, j: nat, rels: seq<Relation>)
    requires forall i :: 0 <= i < |ks| ==> ks[i] < |nodes|
    requires j <= |ks| && NodeLines(nodes, ks[..j], rels).Failure?
    ensures NodeLines(nodes, ks, rels) == NodeLines(nodes, ks[..j], rels)
    decreases |ks|
  {
    if j < |ks| {
      var init := ks[..|ks| - 1];
      assert init[..j] == ks[..j];
      NodeLinesPrefix(nodes, init, j, rels);
    } else {
      assert ks[..j] == ks;
    }
  }

  /**
   * `GenerateGraph(root, …)` up to the text of its node lines: the nodes of
   * the tree below `root` in pre-order, each declared with its content
   * string as label.  A null root throws, a cycle never ends, and a node
   * whose content string throws ends the drawing.
   */
  function Graph(nodes: Nodes, root: Ptr, rels: seq<Relation>): (r: Result<seq<Declaration>>)
    ensures !Live(nodes, root) ==> r == Failure(NullReference)
    ensures Live(nodes, root) && !Finite(nodes, root, |nodes|) ==> r == Failure(Diverges)
  {
    var ks :- GetNodesList(nodes, root);
    NodeLines(nodes, ks, rels)
  }

  /**
   * A drawing succeeds exactly when the tree below the root is finite and
   * no node of it has a content string that throws; it then has one line
   * per node, the root's first.
   */
  lemma GraphMeans(nodes: Nodes, root: Ptr, rels: seq<Relation>)
    ensures Graph(nodes, root, rels).Success? <==> GetNodesList(nodes, root).Success? && Labelled(nodes, GetNodesList(nodes, root).value, rels)
    ensures Graph(nodes, root, rels).Success? ==>
              |Graph(nodes, root, rels).value| == |GetNodesList(nodes, root).value|
              && Graph(nodes, root, rels).value[0] == Declaration(nodes[root.index].id, ContentString(nodes[root.index].content, rels).value)
  {
    var ks := GetNodesList(nodes, root);
    if ks.Success? {
      NodeLinesMeans(nodes, ks.value, rels);
    }
  }

  /**
   * `GenerateGraph`'s loop over the listed nodes, one line each; writing
   * the Graphviz file is left to the caller.
   */
  method GenerateGraph(nodes: Nodes, root: Ptr, rels: seq<Relation>) returns (r: Result<seq<Declaration>>)
    ensures r == Graph(nodes, root, rels)
  {
    var listed := GetNodesList(nodes, root);
    if listed.Failure? {
      return Failure(listed.error);
    }
    r := DeclareNodes(nodes, listed.value, rels);
  }

  /** The loop of `GenerateGraph` over the listed nodes, one declaration each. */
  method DeclareNodes(nodes: Nodes, ks: seq<nat>, rels: seq<Relation>) returns (r: Result<seq<Declaration>>)
    requires forall i :: 0 <= i < |ks| ==> ks[i] < |nodes|
    ensures r == NodeLines(nodes, ks, rels)
  {
    var lines: seq<Declaration> := [];
    for i := 0 to |ks|
      invariant NodeLines(nodes, ks[..i], rels) == Success(lines)
    {
      NodeLinesStep(nodes, ks, i, rels);
      var caption := ContentString(nodes[ks[i]].content, rels);
      if caption.Failure? {
        NodeLinesPrefix(nodes, ks, i + 1, rels);
        return Failure(caption.error);
      }
      lines := lines + [Declaration(nodes[ks[i]].id, caption.value)];
    }
    assert ks[..|ks|] == ks;
    return Success(lines);
  }

  /**
   * The drawings of rule 6, one for each listed projection in order; the
   * first one that throws ends the rule with its exception.
   */
  function Subgraphs(nodes: Nodes, ps: seq<nat>, rels: seq<Relation>): (r: Result<seq<seq<Declaration>>>)
    ensures r.Success? ==> |r.value| == |ps|
    decreases |ps|
  {
    if |ps| == 0 then Success([])
    else
      var n := |ps| - 1;
      var init := Subgraphs(nodes, ps[..n], rels);
      if init.Failure? then Failure(init.error)
      else
        var g := Graph(nodes, Ref(ps[n]), rels);
        if g.Failure? then Failure(g.error)
        else Success(init.value + [g.value])
  }

  /** Every listed projection has a drawing that does not throw. */
  predicate Drawn(nodes: Nodes, ps: seq<nat>, rels: seq<Relation>)
  {
    forall i :: 0 <= i < |ps| ==> Graph(nodes, Ref(ps[i]), rels).Success?
  }

  /** All projections are drawn exactly when all but the last are and the last one is. */
  lemma DrawnSnoc(nodes: Nodes, ps: seq<nat>, rels: seq<Relation>)
    requires |ps| > 0
    ensures Drawn(nodes, ps, rels) <==> Drawn(nodes, ps[..|ps| - 1], rels) && Graph(nodes, Ref(ps[|ps| - 1]), rels).Success?
  {
    assert forall i :: 0 <= i < |ps| - 1 ==> ps[..|ps| - 1][i] == ps[i];
  }

  /**
   * Rule 6 draws every listed projection exactly when no drawing throws,
   * and then the `i`-th drawing is that of the `i`-th projection.
   */
  lemma {:induction false} SubgraphsMeans(nodes: Nodes, ps: seq<nat>, rels: seq<Relation>)
    ensures Subgraphs(nodes, ps, rels).Success? <==> Drawn(nodes, ps, rels)
    ensures Subgraphs(nodes, ps, rels).Success? ==> forall i :: 0 <= i < |ps| ==>
              Subgraphs(nodes, ps, rels).value[i] == Graph(nodes, Ref(ps[i]), rels).value
    decreases |ps|
  {
    if |ps| > 0 {
      var n := |ps| - 1;
      var init := ps[..n];
      SubgraphsMeans(nodes, init, rels);
      DrawnSnoc(nodes, ps, rels);
      var last := Graph(nodes, Ref(ps[n]), rels);
      if Subgraphs(nodes, init, rels).Success? && last.Success? {
        var v := Subgraphs(nodes, init, rels).value + [last.value];
        assert Subgraphs(nodes, ps, rels) == Success(v);
        forall i | 0 <= i < |ps|
          ensures v[i] == Graph(nodes, Ref(ps[i]), rels).value
        {
          if i < n {
            assert init[i] == ps[i];
          }
        }
      }
    }
  }

  /** The drawings of one more projection: those of the projections before it, then its own. */
  lemma SubgraphsStep(nodes: Nodes, ps: seq<nat>, i: nat, rels: seq<Relation>)
    requires i < |ps|
    ensures Subgraphs(nodes, ps[..i + 1], rels) ==
              if Subgraphs(nodes, ps[..i], rels).Failure? then Subgraphs(nodes, ps[..i], rels)
              else if Graph(nodes, Ref(ps[i]), rels).Failure? then Failure(Graph(nodes, Ref(ps[i]), rels).error)
              else Success(Subgraphs(nodes, ps[..i], rels).value + [Graph(nodes, Ref(ps[i]), rels).value])
  {
    assert ps[..i + 1][..i] == ps[..i];
  }

  /** Once the drawings of a prefix of the projections throw, the drawings of all of them throw the same. */
  lemma {:induction false} SubgraphsPrefix(nodes: Nodes, ps: seq<nat>, j: nat, rels: seq<Relation>)
    requires j <= |ps| && Subgraphs(nodes, ps[..j], rels).Failure?
    ensures Subgraphs(nodes, ps, rels) == Subgraphs(nodes, ps[..j], rels)
    decreases |ps|
  {
    if j < |ps| {
      var init := ps[..|ps| - 1];
      assert init[..j] == ps[..j];
      SubgraphsPrefix(nodes, init, j, rels);
    } else {
      assert ps[..j] == ps;
    }
  }

  /**
   * `ApplyOptimizationRule6(root)`: every projection below the root, the
   * root excepted, drawn on its own, in pre-order; the arena is not changed.
   */
  function Rule6(nodes: Nodes, tree: nat, rels: seq<Relation>): (r: Result<seq<seq<Declaration>>>)
    ensures !Live(nodes, Ref(tree)) ==> r == Failure(NullReference)
    ensures r.Success? ==> GetAllProjectionNodesExcept(nodes, Ref(tree), Ref(tree)).Success?
  {
    var ps :- GetAllProjectionNodesExcept(nodes, Ref(tree), Ref(tree));
    Subgraphs(nodes, ps, rels)
  }

  /**
   * When rule 6 ends normally it has drawn each projection below the root,
   * the root excepted, on its own, in the order they are listed.
   */
  lemma Rule6Draws(nodes: Nodes, tree: nat, rels: seq<Relation>)
    requires Rule6(nodes, tree, rels).Success?
    ensures var ps := GetAllProjectionNodesExcept(nodes, Ref(tree), Ref(tree)).value;
      |Rule6(nodes, tree, rels).value| == |ps|
      && forall i :: 0 <= i < |ps| ==>
           nodes[ps[i]].content.ProjectionContent? && Graph(nodes, Ref(ps[i]), rels) == Success(Rule6(nodes, tree, rels).value[i])
  {
    SubgraphsMeans(nodes, GetAllProjectionNodesExcept(nodes, Ref(tree), Ref(tree)).value, rels);
  }

  /** The loop of `ApplyOptimizationRule6`, drawing the projections one by one. */
  method ApplyOptimizationRule6(nodes: Nodes, tree: nat, rels: seq<Relation>) returns (r: Result<seq<seq<Declaration>>>)
    ensures r == Rule6(nodes, tree, rels)
  {
    var listed := GetAllProjectionNodesExcept(nodes, Ref(tree), Ref(tree));
    if listed.Failure? {
      return Failure(listed.error);
    }
    var ps := listed.value;
    var graphs: seq<seq<Declaration>> := [];
    for i := 0 to |ps|
      invariant Subgraphs(nodes, ps[..i], rels) == Success(graphs)
    {
      SubgraphsStep(nodes, ps, i, rels);
      var g := GenerateGraph(nodes, Ref(ps[i]), rels);
      if g.Failure? {
        SubgraphsPrefix(nodes, ps, i + 1, rels);
        return Failure(g.error);
      }
      graphs := graphs + [g.value];
    }
    assert ps[..|ps|] == ps;
    return Success(graphs);
  }

  // ---------------------------------------------------------------- Run

  /**
   * What the legacy rules leave of the nodes present before: each is still
   * there under its id, with its content as it was or, for a selection,
   * with the sides of its conditions exchanged; new nodes go at the end.
   */
  predicate Retains(before: Nodes, after: Nodes)
  {
    |before| <= |after|
    && forall j :: 0 <= j < |before| ==> after[j].id == before[j].id && Swapped(before[j].content, after[j].content)
  }

  lemma {:induction false} RetainsChain(a: Nodes, b: Nodes, c: Nodes)
    requires Retains(a, b) && Retains(b, c)
    ensures Retains(a, c)
  {
    forall j | 0 <= j < |a|
      ensures c[j].id == a[j].id && Swapped(a[j].content, c[j].content)
    {
      SwappedChain(a[j].content, b[j].content, c[j].content);
    }
  }

  /** Rule `n` of the legacy optimizer on the subtree at `root`; rule 5 reads the parental attributes as `Attribute`s. */
  function LegacyRule(n: nat, nodes: Nodes, schema: seq<Relation>, rels: seq<Relation>, root: Ptr): (r: Result<Nodes>)
    requires 1 <= n <= 5
    ensures r.Success? ==> Retains(nodes, r.value)
  {
    if n == 1 then Rule1(nodes, root)
    else if n == 2 then Rule2(nodes, schema, rels, root)
    else if n == 3 then Rule3(nodes, schema, rels, root)
    else if n == 4 then Rule4(nodes, root)
    else ProjectionInsertion.Rule5(nodes, root, rels, true)
  }

  /**
   * One block of `Run`: for a set-operator root the rule on its left child
   * and then on its right child, read after the left one is done;
   * otherwise the rule on the root.  The whole tree is drawn afterwards.
   */
  function Block(n: nat, nodes: Nodes, schema: seq<Relation>, rels: seq<Relation>, tree: nat, setOp: bool): (r: Result<Nodes>)
    requires 1 <= n <= 5 && tree < |nodes|
    ensures r.Success? ==> Retains(nodes, r.value)
    ensures r.Success? ==> Graph(r.value, Ref(tree), rels).Success?
  {
    var b :- if setOp then
        var a :- LegacyRule(n, nodes, schema, rels, nodes[tree].left);
        var b :- LegacyRule(n, a, schema, rels, a[tree].right);
        RetainsChain(nodes, a, b);
        Success(b)
      else LegacyRule(n, nodes, schema, rels, Ref(tree));
    var _ :- Graph(b, Ref(tree), rels);
    Success(b)
  }

  /**
   * The blocks of `Run` from rule `n` on.  The first exception ends the
   * run; a run that ends normally has drawn the tree it leaves.
   */
  function Blocks(n: nat, nodes: Nodes, schema: seq<Relation>, rels: seq<Relation>, tree: nat, setOp: bool): (r: Result<Nodes>)
    requires 1 <= n <= 6 && tree < |nodes|
    ensures r.Success? ==> Retains(nodes, r.value)
    ensures n <= 5 && r.Success? ==> Graph(r.value, Ref(tree), rels).Success?
    decreases 6 - n
  {
    if n == 6 then Success(nodes)
    else
      var a :- Block(n, nodes, schema, rels, tree, setOp);
      var r := Blocks(n + 1, a, schema, rels, tree, setOp);
      if r.Success? then RetainsChain(nodes, a, r.value); r else r
  }

  /** The blocks from rule `n` on are block `n` and then the blocks after it on what it leaves. */
  lemma BlocksStep(n: nat, nodes: Nodes, schema: seq<Relation>, rels: seq<Relation>, tree: nat, setOp: bool)
    requires 1 <= n <= 5 && tree < |nodes|
    ensures Block(n, nodes, schema, rels, tree, setOp).Failure? ==>
              Blocks(n, nodes, schema, rels, tree, setOp) == Failure(Block(n, nodes, schema, rels, tree, setOp).error)
    ensures Block(n, nodes, schema, rels, tree, setOp).Success? ==>
              tree < |Block(n, nodes, schema, rels, tree, setOp).value|
              && Blocks(n, nodes, schema, rels, tree, setOp) == Blocks(n + 1, Block(n, nodes, schema, rels, tree, setOp).value, schema, rels, tree, setOp)
  {
  }

  /**
   * `Run(queryTree, name)` on the tree at `tree`: a null tree throws;
   * otherwise the tree is drawn, then come the five blocks and rule 6,
   * which draws the projections below the root and changes nothing.
   * Whatever the rules do, a node keeps its id, and any content but a
   * selection's stays as it was; a run that ends normally has drawn the
   * tree as it was given and as it is left, and each projection below it.
   */
  function Ran(nodes: Nodes, schema: seq<Relation>, rels: seq<Relation>, tree: Ptr): (r: Result<Nodes>)
    ensures !Live(nodes, tree) ==> r == Failure(NullReference)
    ensures Live(nodes, tree) && Graph(nodes, tree, rels).Failure? ==> r == Failure(Graph(nodes, tree, rels).error)
    ensures r.Success? ==> Retains(nodes, r.value)
    ensures r.Success? ==> forall j :: 0 <= j < |nodes| && !nodes[j].content.SelectionContent? ==> r.value[j].content == nodes[j].content
    ensures r.Success? ==> Graph(nodes, tree, rels).Success? && Graph(r.value, tree, rels).Success?
    ensures r.Success? ==> Rule6(r.value, tree.index, rels).Success?
  {
    if !Live(nodes, tree) then Failure(NullReference)
    else
      var _ :- Graph(nodes, tree, rels);
      var a :- Blocks(1, nodes, schema, rels, tree.index, nodes[tree.index].content.SetOpContent?);
      var _ :- Rule6(a, tree.index, rels);
      Success(a)
  }

  /** `QueryOptimizer`: the schema whose keys decide which conditions are joins. */
  class QueryOptimizer {
    const schema: seq<Relation>

    /** `new QueryOptimizer(schema)`. */
    constructor (schema: seq<Relation>)
      ensures this.schema == schema
    {
      this.schema := schema;
    }

    /** `ApplyOptimizationRuleN(root)` for rule `n`. */
    method ApplyRule(heap: NodeHeap, rels: seq<Relation>, n: nat, root: Ptr) returns (o: Outcome)
      requires heap.Valid() && 1 <= n <= 5
      modifies heap
      ensures heap.Valid()
      ensures Follows(o, LegacyRule(n, old(heap.nodes), schema, rels, root), heap.nodes)
    {
      if n == 1 {
        o := ApplyOptimizationRule1(heap, root);
      } else if n == 2 {
        o := ApplyOptimizationRule2(heap, schema, rels, root);
      } else if n == 3 {
        o := ApplyOptimizationRule3(heap, schema, rels, root);
      } else if n == 4 {
        o := ApplyOptimizationRule4(heap, root);
      } else {
        o := ProjectionInsertion.ApplyRule5(heap, root, rels, true);
      }
    }

    /** One block of `Run`. */
    method RunBlock(heap: NodeHeap, rels: seq<Relation>, n: nat, tree: nat, setOp: bool) returns (o: Outcome)
      requires heap.Valid() && 1 <= n <= 5 && tree < |heap.nodes|
      modifies heap
      ensures heap.Valid()
      ensures Follows(o, Block(n, old(heap.nodes), schema, rels, tree, setOp), heap.nodes)
    {
      if setOp {
        o := ApplyRule(heap, rels, n, heap.nodes[tree].left);
        if o.Pass? {
          o := ApplyRule(heap, rels, n, heap.nodes[tree].right);
        }
      } else {
        o := ApplyRule(heap, rels, n, Ref(tree));
      }
      if o.Pass? {
        var drawn := GenerateGraph(heap.nodes, Ref(tree), rels);
        if drawn.Failure? {
          o := Fail(drawn.error);
        }
      }
    }

    /**
     * The five blocks of `Run` in order on the tree at `tree`; the first
     * exception ends them.
     */
    method RunBlocks(heap: NodeHeap, rels: seq<Relation>, tree: nat, setOp: bool) returns (o: Outcome)
      requires heap.Valid() && tree < |heap.nodes|
      modifies heap
      ensures heap.Valid()
      ensures Follows(o, Blocks(1, old(heap.nodes), schema, rels, tree, setOp), heap.nodes)
    {
      ghost var spec := Blocks(1, heap.nodes, schema, rels, tree, setOp);
      var n := 1;
      while n < 6
        invariant 1 <= n <= 6 && heap.Valid() && tree < |heap.nodes|
        invariant spec == Blocks(n, heap.nodes, schema, rels, tree, setOp)
        decreases 6 - n
      {
        ghost var before := heap.nodes;
        o := RunBlock(heap, rels, n, tree, setOp);
        BlocksStep(n, before, schema, rels, tree, setOp);
        if o.Fail? {
          return;
        }
        n := n + 1;
      }
      o := Pass;
    }

    /**
     * `Run(queryTree, name)`: the tree drawn, then the rules in order, the
     * first exception ending the run; with none, the arena is the one the
     * rules leave.
     */
    method Run(heap: NodeHeap, rels: seq<Relation>, tree: Ptr) returns (o: Outcome)
      requires heap.Valid()
      modifies heap
      ensures heap.Valid()
      ensures Follows(o, Ran(old(heap.nodes), schema, rels, tree), heap.nodes)
    {
      if !Live(heap.nodes, tree) {
        return Fail(NullReference);
      }
      var drawn := GenerateGraph(heap.nodes, tree, rels);
      if drawn.Failure? {
        return Fail(drawn.error);
      }
      o := RunBlocks(heap, rels, tree.index, heap.nodes[tree.index].content.SetOpContent?);
      if o.Pass? {
        var subgraphs := ApplyOptimizationRule6(heap.nodes, tree.index, rels);
        if subgraphs.Failure? {
          o := Fail(subgraphs.error);
        }
      }
    }
  }
}
