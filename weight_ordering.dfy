/**
 * Optimization rule 3 of `QoOptimizer`: walking down the left spine, the
 * children of every set operator are put in order of restrictive weight,
 * and a cartesian product sitting between two selections is rotated with
 * the cartesian below it when that brings the lighter subtree up.
 */
module WeightOrdering {
  import opened Wrappers
  import opened Statements
  import opened Heap
  import opened TreeQueries
  import opened OptimizerHelpers
  import opened Rewrites

  /**
   * The rotation of rule 3 at the cartesian `k` (cart1), whose parent is a
   * selection (select1), whose left child is a selection (select2) and whose
   * left grandchild is another cartesian (cart2), as the seven assignments
   * of the C# perform it, one after the other.
   */
  function Rotated(nodes: Nodes, k: nat): (r: Result<Nodes>)
    ensures r.Success? ==> Rewires(nodes, r.value)
  {
    var cart1 :- Get(nodes, Ref(k));
    var select1 := cart1.parent;
    var select2 :- Get(nodes, cart1.left);
    var cart2 := select2.left;
    var c2 :- Get(nodes, cart2);
    var a := Relink(nodes, k, LeftField, cart1.right);
    var b := Relink(a, k, RightField, a[cart2.index].right);
    var c :- Write(b, b[cart2.index].right, ParentField, b[k].right);
    var d :- Write(c, select1, ParentField, cart2);
    var e := Relink(d, cart2.index, RightField, d[cart2.index].left);
    var f := Relink(e, cart2.index, LeftField, select1);
    var s1 :- Get(f, f[k].parent);
    var g := Relink(f, cart1.left.index, ParentField, s1.parent);
    RewiresChain(nodes, a, b);
    WriteExtends(b, b[cart2.index].right, ParentField, b[k].right);
    RewiresChain(nodes, b, c);
    WriteExtends(c, select1, ParentField, cart2);
    RewiresChain(nodes, c, d);
    RewiresChain(nodes, d, e);
    RewiresChain(nodes, e, f);
    RewiresChain(nodes, f, g);
    Success(g)
  }

  /**
   * What the rotation does when cart1, select1, select2, cart2 and cart2's
   * right child are five different nodes: cart1 takes its old right child
   * on the left and cart2's right child on the right; cart2 takes select1
   * on the left and its old left child on the right; select1 and select2
   * both get cart2 as parent, while cart2 keeps select2 as its parent; and
   * cart2's old right child becomes its own parent.  No other node changes.
   */
  lemma RotationAsWritten(nodes: Nodes, k: nat, s1: nat, s2: nat, c2: nat, r2: nat)
    requires k < |nodes| && s1 < |nodes| && s2 < |nodes| && c2 < |nodes| && r2 < |nodes|
    requires nodes[k].parent == Ref(s1) && nodes[k].left == Ref(s2) && nodes[s2].left == Ref(c2) && nodes[c2].right == Ref(r2)
    requires k != s1 && k != s2 && k != c2 && k != r2 && s1 != s2 && s1 != c2 && s1 != r2 && s2 != c2 && s2 != r2 && c2 != r2
    ensures Rotated(nodes, k) == Success(nodes
      [k := nodes[k].(left := nodes[k].right, right := Ref(r2))]
      [r2 := nodes[r2].(parent := Ref(r2))]
      [s1 := nodes[s1].(parent := Ref(c2))]
      [c2 := nodes[c2].(left := Ref(s1), right := nodes[c2].left)]
      [s2 := nodes[s2].(parent := Ref(c2))])
  {
    var a := nodes[k := nodes[k].(left := nodes[k].right)];
    assert Relink(nodes, k, LeftField, nodes[k].right) == a;
    var b := a[k := a[k].(right := Ref(r2))];
    assert a[c2].right == Ref(r2);
    assert Relink(a, k, RightField, a[c2].right) == b;
    var c := b[r2 := b[r2].(parent := Ref(r2))];
    assert b[c2].right == Ref(r2) && b[k].right == Ref(r2);
    assert Write(b, Ref(r2), ParentField, Ref(r2)) == Success(c);
    var d := c[s1 := c[s1].(parent := Ref(c2))];
    assert Write(c, Ref(s1), ParentField, Ref(c2)) == Success(d);
    assert d[c2] == nodes[c2];
    var e := d[c2 := d[c2].(right := nodes[c2].left)];
    assert Relink(d, c2, RightField, d[c2].left) == e;
    var f := e[c2 := e[c2].(left := Ref(s1))];
    assert Relink(e, c2, LeftField, Ref(s1)) == f;
    assert f[k].parent == Ref(s1) && f[s1].parent == Ref(c2);
    assert Get(f, f[k].parent) == Success(f[s1]);
    var g := f[s2 := f[s2].(parent := Ref(c2))];
    assert Relink(f, s2, ParentField, Ref(c2)) == g;
    assert Rotated(nodes, k) == Success(g);
    RotationWritesMerge(nodes, k, s1, s2, c2, r2);
  }

  /** The seven writes of the rotation, merged into one write per node. */
  lemma RotationWritesMerge(nodes: Nodes, k: nat, s1: nat, s2: nat, c2: nat, r2: nat)
    requires k < |nodes| && s1 < |nodes| && s2 < |nodes| && c2 < |nodes| && r2 < |nodes|
    requires k != s1 && k != s2 && k != c2 && k != r2 && s1 != s2 && s1 != c2 && s1 != r2 && s2 != c2 && s2 != r2 && c2 != r2
    ensures var a := nodes[k := nodes[k].(left := nodes[k].right)];
      var b := a[k := a[k].(right := Ref(r2))];
      var c := b[r2 := b[r2].(parent := Ref(r2))];
      var d := c[s1 := c[s1].(parent := Ref(c2))];
      var e := d[c2 := d[c2].(right := nodes[c2].left)];
      var f := e[c2 := e[c2].(left := Ref(s1))];
      f[s2 := f[s2].(parent := Ref(c2))] == nodes
        [k := nodes[k].(left := nodes[k].right, right := Ref(r2))]
        [r2 := nodes[r2].(parent := Ref(r2))]
        [s1 := nodes[s1].(parent := Ref(c2))]
        [c2 := nodes[c2].(left := Ref(s1), right := nodes[c2].left)]
        [s2 := nodes[s2].(parent := Ref(c2))]
  {
    var a := nodes[k := nodes[k].(left := nodes[k].right)];
    var b := a[k := a[k].(right := Ref(r2))];
    var c := b[r2 := b[r2].(parent := Ref(r2))];
    var d := c[s1 := c[s1].(parent := Ref(c2))];
    var e := d[c2 := d[c2].(right := nodes[c2].left)];
    var f := e[c2 := e[c2].(left := Ref(s1))];
    var g := f[s2 := f[s2].(parent := Ref(c2))];
    var t := nodes
      [k := nodes[k].(left := nodes[k].right, right := Ref(r2))]
      [r2 := nodes[r2].(parent := Ref(r2))]
      [s1 := nodes[s1].(parent := Ref(c2))]
      [c2 := nodes[c2].(left := Ref(s1), right := nodes[c2].left)]
      [s2 := nodes[s2].(parent := Ref(c2))];
    forall i | 0 <= i < |g|
      ensures g[i] == t[i]
    {
    }
  }

  /**
   * The consequence for the parent links: cart2's old right child is its
   * own parent, and when cart2's parent was select2 the two are each
   * other's parent, so walking up from either never reaches the root.
   */
  lemma RotationParentCycles(nodes: Nodes, k: nat, s1: nat, s2: nat, c2: nat, r2: nat)
    requires k < |nodes| && s1 < |nodes| && s2 < |nodes| && c2 < |nodes| && r2 < |nodes|
    requires nodes[k].parent == Ref(s1) && nodes[k].left == Ref(s2) && nodes[s2].left == Ref(c2) && nodes[c2].right == Ref(r2)
    requires k != s1 && k != s2 && k != c2 && k != r2 && s1 != s2 && s1 != c2 && s1 != r2 && s2 != c2 && s2 != r2 && c2 != r2
    requires nodes[c2].parent == Ref(s2)
    ensures var h := Rotated(nodes, k).value;
      h[r2].parent == Ref(r2) && h[s2].parent == Ref(c2) && h[c2].parent == Ref(s2)
  {
    RotationAsWritten(nodes, k, s1, s2, c2, r2);
  }

  /**
   * The body of the rule 3 loop at a set operator `k`.  Under a selection,
   * with a selection on the left whose left child is neither a selection nor
   * a relation, four subtrees are weighed (the first weight is not used but
   * may still throw) and the rotation happens when the left-left weight is
   * below the right weight; in every other case the children are ordered by
   * `SwapOnRank`.  Every null on the way throws.
   */
  function Reorder(nodes: Nodes, k: nat): (r: Result<Nodes>)
    ensures r.Success? ==> Rewires(nodes, r.value)
  {
    var x :- Get(nodes, Ref(k));
    var par :- Get(nodes, x.parent);
    if !par.content.SelectionContent? then SwappedOnRank(nodes, Ref(k))
    else
      var l :- Get(nodes, x.left);
      if !l.content.SelectionContent? then SwappedOnRank(nodes, Ref(k))
      else
        var ll :- Get(nodes, l.left);
        if ll.content.SelectionContent? || ll.content.RelationContent? then SwappedOnRank(nodes, Ref(k))
        else
          var leftRank :- GetRestrictiveWeight(nodes, x.left);
          var leftLeftRank :- GetRestrictiveWeight(nodes, ll.left);
          var leftRightRank :- GetRestrictiveWeight(nodes, ll.right);
          var rightRank :- GetRestrictiveWeight(nodes, x.right);
          if leftLeftRank < rightRank then Rotated(nodes, k) else Success(nodes)
  }

  /**
   * Below anything but a selection, the loop body is `SwapOnRank`, so the
   * set operator leaves it with the heavier child on the left.
   */
  lemma ReorderOrders(nodes: Nodes, k: nat)
    requires k < |nodes| && Live(nodes, nodes[k].parent)
    requires !nodes[nodes[k].parent.index].content.SelectionContent?
    requires Reorder(nodes, k).Success?
    ensures var m := Reorder(nodes, k).value;
      GetRestrictiveWeight(nodes, m[k].left).Success? && GetRestrictiveWeight(nodes, m[k].right).Success?
      && GetRestrictiveWeight(nodes, m[k].left).value >= GetRestrictiveWeight(nodes, m[k].right).value
  {
    SwapOnRankOrders(nodes, k);
  }

  /**
   * The rotation is taken exactly when the left-left subtree of the lower
   * cartesian weighs less than the right subtree of the upper one;
   * otherwise the arena is left as it was.
   */
  lemma ReorderRotatesWhenLighter(nodes: Nodes, k: nat)
    requires k < |nodes| && Live(nodes, nodes[k].parent) && Live(nodes, nodes[k].left)
    requires nodes[nodes[k].parent.index].content.SelectionContent?
    requires var l := nodes[nodes[k].left.index];
      l.content.SelectionContent? && Live(nodes, l.left)
      && !nodes[l.left.index].content.SelectionContent? && !nodes[l.left.index].content.RelationContent?
    requires var ll := nodes[nodes[nodes[k].left.index].left.index];
      GetRestrictiveWeight(nodes, nodes[k].left).Success?
      && GetRestrictiveWeight(nodes, ll.left).Success? && GetRestrictiveWeight(nodes, ll.right).Success?
      && GetRestrictiveWeight(nodes, nodes[k].right).Success?
    ensures var ll := nodes[nodes[nodes[k].left.index].left.index];
      var lighter := GetRestrictiveWeight(nodes, ll.left).value < GetRestrictiveWeight(nodes, nodes[k].right).value;
      (lighter ==> Reorder(nodes, k) == Rotated(nodes, k))
      && (!lighter ==> Reorder(nodes, k) == Success(nodes))
  {
  }

  /**
   * The loop of rule 3 from `p` down the left spine until a relation,
   * followed for `fuel` steps: set operators are reordered, then the walk
   * goes on to the left child as it is after the reordering.  A null node
   * on the way throws.
   */
  function Descend(nodes: Nodes, p: Ptr, fuel: nat): (r: Result<Nodes>)
    ensures r.Success? ==> Rewires(nodes, r.value)
    decreases fuel
  {
    var x :- Get(nodes, p);
    if x.content.RelationContent? then Success(nodes)
    else if fuel == 0 then Failure(Diverges)
    else
      var next :- if x.content.SetOpContent? then Reorder(nodes, p.index) else Success(nodes);
      var r := Descend(next, next[p.index].left, fuel - 1);
      if r.Success? then RewiresChain(nodes, next, r.value); r else r
  }

  /** A walk that meets no set operator before the relation changes nothing. */
  lemma {:induction false} DescendWithoutSetOperators(nodes: Nodes, p: Ptr, fuel: nat)
    requires Descend(nodes, p, fuel).Success?
    requires forall j :: 0 <= j < |nodes| ==> !nodes[j].content.SetOpContent?
    ensures Descend(nodes, p, fuel) == Success(nodes)
    decreases fuel
  {
    var x := nodes[p.index];
    if !x.content.RelationContent? {
      DescendWithoutSetOperators(nodes, x.left, fuel - 1);
    }
  }

  /**
   * `ApplyRule3(root)`, with `fuel` bounding the recursion into set
   * operators.  A set operator other than the cartesian product is treated
   * by treating both its children (the right one as read after the left is
   * done).  Otherwise the search loop for the uppermost cartesian, whose
   * condition is the negation of the intended one, never moves: it throws
   * when the root has no left child and is no set operator.  A set operator
   * without left child is left alone, and anything else is walked from the
   * root itself.
   */
  function Rule3(nodes: Nodes, root: Ptr, fuel: nat): (r: Result<Nodes>)
    ensures r.Success? ==> Rewires(nodes, r.value)
    decreases fuel
  {
    var x :- Get(nodes, root);
    if x.content.SetOpContent? && x.content.op != CartesianProduct then
      if fuel == 0 then Failure(Diverges)
      else
        var a :- Rule3(nodes, x.left, fuel - 1);
        var r := Rule3(a, a[root.index].right, fuel - 1);
        if r.Success? then RewiresChain(nodes, a, r.value); r else r
    else if x.left == Null then
      if x.content.SetOpContent? then Success(nodes) else Failure(NullReference)
    else Descend(nodes, root, |nodes|)
  }

  // ---------------------------------------------------------------- the methods

  /** The rotation of the rule 3 loop. */
  method Rotate(heap: NodeHeap, k: nat) returns (o: Outcome)
    requires heap.Valid()
    modifies heap
    ensures heap.Valid()
    ensures Follows(o, Rotated(old(heap.nodes), k), heap.nodes)
  {
    if !Live(heap.nodes, Ref(k)) {
      return Fail(NullReference);
    }
    var cart1 := Ref(k);
    var select1 := heap.nodes[k].parent;
    var select2 := heap.nodes[k].left;
    if !Live(heap.nodes, select2) {
      return Fail(NullReference);
    }
    var cart2 := heap.nodes[select2.index].left;
    if !Live(heap.nodes, cart2) {
      return Fail(NullReference);
    }
    heap.Assign(cart1, LeftField, heap.nodes[k].right);
    heap.Assign(cart1, RightField, heap.nodes[cart2.index].right);
    var r2 := heap.nodes[cart2.index].right;
    if !Live(heap.nodes, r2) {
      return Fail(NullReference);
    }
    heap.Assign(r2, ParentField, heap.nodes[k].right);
    if !Live(heap.nodes, select1) {
      return Fail(NullReference);
    }
    heap.Assign(select1, ParentField, cart2);
    heap.Assign(cart2, RightField, heap.nodes[cart2.index].left);
    heap.Assign(cart2, LeftField, select1);
    var s1 := heap.nodes[k].parent;
    if !Live(heap.nodes, s1) {
      return Fail(NullReference);
    }
    heap.Assign(select2, ParentField, heap.nodes[s1.index].parent);
    return Pass;
  }

  /** The body of the rule 3 loop at a set operator. */
  method ReorderAt(heap: NodeHeap, k: nat) returns (o: Outcome)
    requires heap.Valid()
    modifies heap
    ensures heap.Valid()
    ensures Follows(o, Reorder(old(heap.nodes), k), heap.nodes)
  {
    if !Live(heap.nodes, Ref(k)) {
      return Fail(NullReference);
    }
    var x := heap.nodes[k];
    if !Live(heap.nodes, x.parent) {
      return Fail(NullReference);
    }
    if !heap.nodes[x.parent.index].content.SelectionContent? {
      o := SwapOnRank(heap, Ref(k));
      return;
    }
    if !Live(heap.nodes, x.left) {
      return Fail(NullReference);
    }
    var l := heap.nodes[x.left.index];
    if !l.content.SelectionContent? {
      o := SwapOnRank(heap, Ref(k));
      return;
    }
    if !Live(heap.nodes, l.left) {
      return Fail(NullReference);
    }
    var ll := heap.nodes[l.left.index];
    if ll.content.SelectionContent? || ll.content.RelationContent? {
      o := SwapOnRank(heap, Ref(k));
      return;
    }
    var leftRank := Weigh(heap.nodes, x.left, |heap.nodes|);
    if leftRank.Failure? {
      return Fail(leftRank.error);
    }
    var leftLeftRank := Weigh(heap.nodes, ll.left, |heap.nodes|);
    if leftLeftRank.Failure? {
      return Fail(leftLeftRank.error);
    }
    var leftRightRank := Weigh(heap.nodes, ll.right, |heap.nodes|);
    if leftRightRank.Failure? {
      return Fail(leftRightRank.error);
    }
    var rightRank := Weigh(heap.nodes, x.right, |heap.nodes|);
    if rightRank.Failure? {
      return Fail(rightRank.error);
    }
    if leftLeftRank.value < rightRank.value {
      o := Rotate(heap, k);
    } else {
      o := Pass;
    }
  }

  /** `ApplyRule3(root)`. */
  method ApplyRule3(heap: NodeHeap, root: Ptr, fuel: nat) returns (o: Outcome)
    requires heap.Valid()
    modifies heap
    ensures heap.Valid()
    ensures Follows(o, Rule3(old(heap.nodes), root, fuel), heap.nodes)
    decreases fuel
  {
    if !Live(heap.nodes, root) {
      return Fail(NullReference);
    }
    var x := heap.nodes[root.index];
    if x.content.SetOpContent? && x.content.op != CartesianProduct {
      if fuel == 0 {
        return Fail(Diverges);
      }
      o := ApplyRule3(heap, x.left, fuel - 1);
      if o.Fail? {
        return;
      }
      o := ApplyRule3(heap, heap.nodes[root.index].right, fuel - 1);
      return;
    }
    if x.left == Null {
      if x.content.SetOpContent? {
        return Pass;
      }
      return Fail(NullReference);
    }
    ghost var start := heap.nodes;
    var iter := root;
    var steps: nat := |heap.nodes|;
    while true
      invariant heap.Valid()
      invariant Rule3(start, root, fuel) == Descend(heap.nodes, iter, steps)
      decreases steps
    {
      if !Live(heap.nodes, iter) {
        return Fail(NullReference);
      }
      var c := heap.nodes[iter.index].content;
      if c.RelationContent? {
        return Pass;
      }
      if steps == 0 {
        return Fail(Diverges);
      }
      if c.SetOpContent? {
        o := ReorderAt(heap, iter.index);
        if o.Fail? {
          return;
        }
      }
      iter, steps := heap.nodes[iter.index].left, steps - 1;
    }
  }
}
