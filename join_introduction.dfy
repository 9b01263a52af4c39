/**
 * Optimization rule 4 of `QoOptimizer`: a cartesian product directly
 * below a selection is replaced by a join on the selection's first
 * condition.
 */
module JoinIntroduction {
  import opened Wrappers
  import opened Text
  import opened QueryModel
  import opened Heap
  import opened TreeQueries
  import opened Rewrites

  /**
   * Rule 4 on one cartesian node `k`: when its parent holds a selection, a
   * new join node is made with the selection's first condition, the
   * grandparent as parent and the cartesian's two children; it becomes the
   * grandparent's left child and both children's parent.  The cartesian and
   * the selection are bypassed.  A null parent, grandparent or child throws,
   * and so does `First()` on a selection without conditions.  Nothing checks
   * that the condition relates two relations.
   */
  function Fuse(nodes: Nodes, k: nat): (r: Result<Nodes>)
    ensures r.Success? ==> Extends(nodes, r.value)
  {
    var x :- Get(nodes, Ref(k));
    var parent :- Get(nodes, x.parent);
    if !parent.content.SelectionContent? then Success(nodes)
    else
      var cs := parent.content.selection.conditions;
      if |cs| == 0 then Failure(NoElements)
      else
        var j := Ref(|nodes|);
        var made := Alloc(nodes, JoinContent(Join(cs[0])), parent.parent, x.left, x.right);
        var hung :- Write(made, parent.parent, LeftField, j);
        var left :- Write(hung, hung[k].left, ParentField, j);
        Write(left, left[k].right, ParentField, j)
  }

  /** The loop of `ApplyRule4` from the `i`-th cartesian of the list `ks` on. */
  function FuseAll(nodes: Nodes, ks: seq<nat>, i: nat): (r: Result<Nodes>)
    requires i <= |ks|
    ensures r.Success? ==> Extends(nodes, r.value)
    decreases |ks| - i
  {
    if i == |ks| then Success(nodes)
    else
      var next :- Fuse(nodes, ks[i]);
      var r := FuseAll(next, ks, i + 1);
      if r.Success? then ExtendsChain(nodes, next, r.value); r else r
  }

  /** `ApplyRule4(root)`: every cartesian product of the tree, in pre-order, as listed before the rule began. */
  function Rule4(nodes: Nodes, root: Ptr): (r: Result<Nodes>)
    ensures r.Success? ==> Extends(nodes, r.value)
  {
    var ks :- GetAllCartesianProductNodes(nodes, root);
    FuseAll(nodes, ks, 0)
  }

  /** A cartesian whose parent does not hold a selection is left untouched. */
  lemma FuseSkips(nodes: Nodes, k: nat)
    requires k < |nodes| && Live(nodes, nodes[k].parent)
    requires !nodes[nodes[k].parent.index].content.SelectionContent?
    ensures Fuse(nodes, k) == Success(nodes)
  {
  }

  /** The join node rule 4 makes for cartesian `k` under a selection with conditions `cs`. */
  function JoinNode(nodes: Nodes, k: nat, cs: seq<Condition>): Node
    requires k < |nodes| && Live(nodes, nodes[k].parent) && |cs| > 0
  {
    Node(NatToString(|nodes| + 1), nodes[nodes[k].parent.index].parent, nodes[k].left, nodes[k].right, JoinContent(Join(cs[0])))
  }

  /**
   * When the cartesian, its two children and its grandparent are four
   * different nodes, exactly three of them change: the grandparent's left
   * child and the two children's parent become the new join node, which
   * holds the selection's first condition.
   */
  lemma FuseShape(nodes: Nodes, k: nat)
    requires k < |nodes| && Live(nodes, nodes[k].parent)
    requires var p := nodes[nodes[k].parent.index];
      p.content.SelectionContent? && |p.content.selection.conditions| > 0 && Live(nodes, p.parent)
    requires Live(nodes, nodes[k].left) && Live(nodes, nodes[k].right)
    requires var g := nodes[nodes[k].parent.index].parent.index; var l := nodes[k].left.index; var r := nodes[k].right.index;
      k != g && k != l && k != r && g != l && g != r && l != r
    ensures var p := nodes[nodes[k].parent.index];
      var g := p.parent.index; var l := nodes[k].left.index; var r := nodes[k].right.index;
      var j := Ref(|nodes|);
      Fuse(nodes, k) == Success(
        nodes[g := nodes[g].(left := j)][l := nodes[l].(parent := j)][r := nodes[r].(parent := j)]
        + [JoinNode(nodes, k, p.content.selection.conditions)])
  {
    var p := nodes[nodes[k].parent.index];
    var g := p.parent.index;
    var l := nodes[k].left.index;
    var r := nodes[k].right.index;
    var j := |nodes|;
    var made := Alloc(nodes, JoinContent(Join(p.content.selection.conditions[0])), p.parent, nodes[k].left, nodes[k].right);
    var hung := made[g := made[g].(left := Ref(j))];
    assert Write(made, Ref(g), LeftField, Ref(j)) == Success(hung);
    assert hung[k] == nodes[k];
    var left := hung[l := hung[l].(parent := Ref(j))];
    assert Write(hung, Ref(l), ParentField, Ref(j)) == Success(left);
    assert left[k] == nodes[k];
    var done := left[r := left[r].(parent := Ref(j))];
    assert Write(left, Ref(r), ParentField, Ref(j)) == Success(done);
    assert done == nodes[g := nodes[g].(left := Ref(j))][l := nodes[l].(parent := Ref(j))][r := nodes[r].(parent := Ref(j))]
        + [JoinNode(nodes, k, p.content.selection.conditions)];
  }

  /**
   * In that case the join node agrees with its surroundings: both its
   * children point back to it and the grandparent holds it; the
   * children's `Parent` links point down to them again.
   */
  lemma FuseConsistent(nodes: Nodes, k: nat)
    requires k < |nodes| && Live(nodes, nodes[k].parent)
    requires var p := nodes[nodes[k].parent.index];
      p.content.SelectionContent? && |p.content.selection.conditions| > 0 && Live(nodes, p.parent)
    requires Live(nodes, nodes[k].left) && Live(nodes, nodes[k].right)
    requires var g := nodes[nodes[k].parent.index].parent.index; var l := nodes[k].left.index; var r := nodes[k].right.index;
      k != g && k != l && k != r && g != l && g != r && l != r
    ensures var h := Fuse(nodes, k).value; var j := |nodes|;
      |h| == j + 1 && Consistent(h, j)
      && ParentPointsDown(h, nodes[k].left.index) && ParentPointsDown(h, nodes[k].right.index)
      && h[j].content == JoinContent(Join(nodes[nodes[k].parent.index].content.selection.conditions[0]))
  {
    FuseShape(nodes, k);
  }

  // ---------------------------------------------------------------- the methods

  /** The body of the `ApplyRule4` loop for one cartesian node. */
  method FuseCartesian(heap: NodeHeap, k: nat) returns (o: Outcome)
    requires heap.Valid()
    modifies heap
    ensures heap.Valid()
    ensures Follows(o, Fuse(old(heap.nodes), k), heap.nodes)
  {
    if !Live(heap.nodes, Ref(k)) {
      return Fail(NullReference);
    }
    var x := heap.nodes[k];
    if !Live(heap.nodes, x.parent) {
      return Fail(NullReference);
    }
    var parent := heap.nodes[x.parent.index];
    if !parent.content.SelectionContent? {
      return Pass;
    }
    var cs := parent.content.selection.conditions;
    if |cs| == 0 {
      return Fail(NoElements);
    }
    var newNode := heap.NewNode(JoinContent(Join(cs[0])), parent.parent, x.left, x.right);
    if !Live(heap.nodes, parent.parent) {
      return Fail(NullReference);
    }
    heap.Assign(parent.parent, LeftField, newNode);
    var l := heap.nodes[k].left;
    if !Live(heap.nodes, l) {
      return Fail(NullReference);
    }
    heap.Assign(l, ParentField, newNode);
    var r := heap.nodes[k].right;
    if !Live(heap.nodes, r) {
      return Fail(NullReference);
    }
    heap.Assign(r, ParentField, newNode);
    return Pass;
  }

  /** `ApplyRule4(root)`. */
  method ApplyRule4(heap: NodeHeap, root: Ptr) returns (o: Outcome)
    requires heap.Valid()
    modifies heap
    ensures heap.Valid()
    ensures Follows(o, Rule4(old(heap.nodes), root), heap.nodes)
  {
    var list := GetAllCartesianProductNodes(heap.nodes, root);
    if list.Failure? {
      return Fail(list.error);
    }
    var ks := list.value;
    ghost var start := heap.nodes;
    for i := 0 to |ks|
      invariant heap.Valid()
      invariant Rule4(start, root) == FuseAll(heap.nodes, ks, i)
    {
      o := FuseCartesian(heap, ks[i]);
      if o.Fail? {
        return;
      }
    }
    return Pass;
  }
}
