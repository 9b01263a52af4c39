/**
 * Optimization rule 5 of `QoOptimizer`: walking up from every relation
 * leaf, a projection is inserted above each node whose parent is not a
 * projection already, keeping only the attributes that the operations
 * above need and that the subtree below can supply.
 */
module ProjectionInsertion {
  import opened Wrappers
  import opened Text
  import opened QueryModel
  import opened RelationalModel
  import opened Heap
  import opened TreeQueries
  import opened OptimizerHelpers
  import opened Rewrites

  // ---------------------------------------------------------------- the attribute intersection

  /** Do two attributes agree in name and alias, the test rule 5 matches them by? */
  predicate SameAttribute(a: Attribute, b: Attribute)
  {
    a.name == b.name && a.alias == b.alias
  }

  /** One copy of `a` for every attribute of `available` that it matches, in order. */
  function Matches(a: Attribute, available: seq<Attribute>): (r: seq<Attribute>)
    ensures forall i :: 0 <= i < |r| ==> r[i] == a
    ensures |r| > 0 <==> exists i :: 0 <= i < |available| && SameAttribute(a, available[i])
  {
    if |available| == 0 then []
    else
      var rest := Matches(a, available[..|available| - 1]);
      assert forall i :: 0 <= i < |available| - 1 ==> available[..|available| - 1][i] == available[i];
      rest + (if SameAttribute(a, available[|available| - 1]) then [a] else [])
  }

  /**
   * The intersection rule 5 projects on: for every item of the parental
   * list that is an attribute (functions and constants are skipped), one
   * copy per accessible attribute with the same name and alias.
   */
  function Intersect(parental: seq<Operand>, available: seq<Attribute>): (r: seq<Attribute>)
  {
    if |parental| == 0 then []
    else
      var last := parental[|parental| - 1];
      Intersect(parental[..|parental| - 1], available) + (if last.AttrOp? then Matches(last.attr, available) else [])
  }

  /**
   * An attribute is kept exactly when it is an attribute item of the
   * parental list and some accessible attribute matches it.
   */
  lemma {:induction false} IntersectMembers(parental: seq<Operand>, available: seq<Attribute>, a: Attribute)
    ensures a in Intersect(parental, available) <==>
      AttrOp(a) in parental && exists i :: 0 <= i < |available| && SameAttribute(a, available[i])
  {
    if |parental| > 0 {
      var init := parental[..|parental| - 1];
      var last := parental[|parental| - 1];
      IntersectMembers(init, available, a);
      assert parental == init + [last];
      if last.AttrOp? {
        var m := Matches(last.attr, available);
        if |m| > 0 {
          assert m[0] == last.attr;
        }
        assert a in m <==> last.attr == a && |m| > 0;
      }
    }
  }

  /** The nested loops of rule 5 that build the intersection. */
  method IntersectAttributes(parental: seq<Operand>, available: seq<Attribute>) returns (r: seq<Attribute>)
    ensures r == Intersect(parental, available)
  {
    r := [];
    for i := 0 to |parental|
      invariant r == Intersect(parental[..i], available)
    {
      assert parental[..i + 1][..i] == parental[..i];
      if parental[i].AttrOp? {
        var m := MatchAttribute(parental[i].attr, available);
        r := r + m;
      }
    }
    assert parental[..|parental|] == parental;
  }

  /** The inner loop of rule 5's intersection: `a` once for every accessible attribute it matches. */
  method MatchAttribute(a: Attribute, available: seq<Attribute>) returns (m: seq<Attribute>)
    ensures m == Matches(a, available)
  {
    m := [];
    for j := 0 to |available|
      invariant m == Matches(a, available[..j])
    {
      assert available[..j + 1][..j] == available[..j];
      if SameAttribute(a, available[j]) {
        m := m + [a];
      }
    }
    assert available[..|available|] == available;
  }

  // ---------------------------------------------------------------- one insertion

  /** The projection node put between `c` and its parent `p`, on `p`'s `side`. */
  function Interposed(nodes: Nodes, c: nat, p: nat, side: Field, attrs: seq<Attribute>): Nodes
    requires c < |nodes| && p < |nodes|
  {
    var j := Ref(|nodes|);
    nodes[p := Rewire(nodes[p], side, j)][c := nodes[c].(parent := j)]
    + [Node(NatToString(|nodes| + 1), Ref(p), Ref(c), Null, ProjectionContent(Projection(attrs)))]
  }

  /**
   * The assignments of one insertion: a projection with parent `parent` and
   * left child `cursor` is made, the parent's `side` child becomes it, and
   * so does the cursor's parent.
   */
  function Interpose(nodes: Nodes, cursor: Ptr, parent: Ptr, side: Field, attrs: seq<Attribute>): (r: Nodes)
    requires Live(nodes, cursor) && Live(nodes, parent) && side != ParentField
    ensures Extends(nodes, r) && |r| == |nodes| + 1
    ensures cursor != parent ==> r == Interposed(nodes, cursor.index, parent.index, side, attrs)
  {
    var j := Ref(|nodes|);
    var made := Alloc(nodes, ProjectionContent(Projection(attrs)), parent, cursor, Null);
    var hung := made[parent.index := Rewire(made[parent.index], side, j)];
    hung[cursor.index := hung[cursor.index].(parent := j)]
  }

  /**
   * The inserted projection agrees with its surroundings: its parent holds
   * it on the chosen side, its only child is the node it was put above and
   * that node's parent is the projection.
   */
  lemma InterposedConsistent(nodes: Nodes, c: nat, p: nat, side: Field, attrs: seq<Attribute>)
    requires c < |nodes| && p < |nodes| && c != p && side != ParentField
    ensures var h := Interposed(nodes, c, p, side, attrs); var j := |nodes|;
      Consistent(h, j) && h[j].content == ProjectionContent(Projection(attrs))
      && h[j].parent == Ref(p) && h[j].left == Ref(c) && h[j].right == Null
  {
  }

  // ---------------------------------------------------------------- the walk from a leaf

  /**
   * The attributes of the projection put above `cursor`: the parental
   * attributes from its parent up, intersected with those accessible from
   * it; either lookup may throw.  The legacy optimizer's loop has no
   * `is Attribute` test: with a `typed` parental list, a null item throws as
   * soon as it is compared with an accessible attribute.
   */
  function Projected(nodes: Nodes, root: Ptr, rels: seq<Relation>, cursor: Ptr, typed: bool): (r: Result<seq<Attribute>>)
    requires Live(nodes, cursor)
  {
    var parental :- Parental(nodes, root, nodes[cursor.index].parent, |nodes|, typed);
    var available :- GetAccessibleAttributes(nodes, cursor, rels);
    if typed && |available| > 0 && NullOp in parental then Failure(NullReference)
    else Success(Intersect(parental, available))
  }

  /** Were only projections added, with every earlier node keeping its id and content? */
  predicate AddsProjections(before: Nodes, after: Nodes)
  {
    Extends(before, after)
    && forall j :: |before| <= j < |after| ==> after[j].content.ProjectionContent?
  }

  lemma AddsProjectionsChain(a: Nodes, b: Nodes, c: Nodes)
    requires AddsProjections(a, b) && AddsProjections(b, c)
    ensures AddsProjections(a, c)
  {
  }

  /**
   * The inner loop of `ApplyRule5` from `cursor` until the root, followed
   * for `fuel` steps (the C# loop never ends on a cycle).  A projection is
   * passed over; a node whose parent is a projection is passed over too;
   * above any other node a projection is inserted on the side the node
   * hangs from (the right side when the parent's left child is not the
   * node), and the walk goes on from the new projection.  Climbing past a
   * null parent throws, and so do the two attribute lookups.
   */
  function Climb(nodes: Nodes, root: Ptr, rels: seq<Relation>, cursor: Ptr, fuel: nat, typed: bool): (r: Result<Nodes>)
    ensures r.Success? ==> AddsProjections(nodes, r.value)
    decreases fuel
  {
    if cursor == root then Success(nodes)
    else if fuel == 0 then Failure(Diverges)
    else
      var x :- Get(nodes, cursor);
      if x.content.ProjectionContent? then Climb(nodes, root, rels, x.parent, fuel - 1, typed)
      else
        var par :- Get(nodes, x.parent);
        if par.content.ProjectionContent? then Climb(nodes, root, rels, x.parent, fuel - 1, typed)
        else
          var attrs :- Projected(nodes, root, rels, cursor, typed);
          var side := if par.left == cursor then LeftField else RightField;
          var next := Interpose(nodes, cursor, x.parent, side, attrs);
          var r := Climb(next, root, rels, Ref(|nodes|), fuel - 1, typed);
          if r.Success? then AddsProjectionsChain(nodes, next, r.value); r else r
  }

  /** The steps allowed for the walk up from one leaf: two per node of the arena, and one more. */
  function Budget(nodes: Nodes): nat
  {
    2 * |nodes| + 1
  }

  /**
   * Above a node (not the root) whose parent is neither itself nor a
   * projection, the walk inserts the projection of the intersection of
   * the parental and the accessible attributes, and goes on from it.
   */
  lemma ClimbInserts(nodes: Nodes, root: Ptr, rels: seq<Relation>, c: nat, fuel: nat, typed: bool)
    requires c < |nodes| && Ref(c) != root && fuel > 0
    requires !nodes[c].content.ProjectionContent?
    requires Live(nodes, nodes[c].parent) && nodes[c].parent != Ref(c)
    requires !nodes[nodes[c].parent.index].content.ProjectionContent?
    requires Parental(nodes, root, nodes[c].parent, |nodes|, typed).Success?
    requires GetAccessibleAttributes(nodes, Ref(c), rels).Success?
    requires typed ==> NullOp !in Parental(nodes, root, nodes[c].parent, |nodes|, typed).value
    ensures var p := nodes[c].parent.index;
      var side := if nodes[p].left == Ref(c) then LeftField else RightField;
      var attrs := Intersect(Parental(nodes, root, nodes[c].parent, |nodes|, typed).value, GetAccessibleAttributes(nodes, Ref(c), rels).value);
      Climb(nodes, root, rels, Ref(c), fuel, typed) == Climb(Interposed(nodes, c, p, side, attrs), root, rels, Ref(|nodes|), fuel - 1, typed)
  {
  }

  /** Once inserted, the new projection is passed over to its parent, so no projection is stacked on it. */
  lemma ClimbPassesProjection(nodes: Nodes, root: Ptr, rels: seq<Relation>, k: nat, fuel: nat, typed: bool)
    requires k < |nodes| && Ref(k) != root && fuel > 0
    requires nodes[k].content.ProjectionContent?
    ensures Climb(nodes, root, rels, Ref(k), fuel, typed) == Climb(nodes, root, rels, nodes[k].parent, fuel - 1, typed)
  {
  }

  /** A node whose parent is a projection gets no projection of its own. */
  lemma ClimbSkipsUnderProjection(nodes: Nodes, root: Ptr, rels: seq<Relation>, c: nat, fuel: nat, typed: bool)
    requires c < |nodes| && Ref(c) != root && fuel > 0
    requires Live(nodes, nodes[c].parent) && nodes[nodes[c].parent.index].content.ProjectionContent?
    ensures Climb(nodes, root, rels, Ref(c), fuel, typed) == Climb(nodes, root, rels, nodes[c].parent, fuel - 1, typed)
  {
  }

  /** The outer loop of `ApplyRule5` from the `i`-th relation leaf on. */
  function ClimbAll(nodes: Nodes, root: Ptr, rels: seq<Relation>, leaves: seq<nat>, i: nat, typed: bool): (r: Result<Nodes>)
    requires i <= |leaves|
    ensures r.Success? ==> AddsProjections(nodes, r.value)
    decreases |leaves| - i
  {
    if i == |leaves| then Success(nodes)
    else
      var next :- Climb(nodes, root, rels, Ref(leaves[i]), Budget(nodes), typed);
      var r := ClimbAll(next, root, rels, leaves, i + 1, typed);
      if r.Success? then AddsProjectionsChain(nodes, next, r.value); r else r
  }

  /**
   * `ApplyRule5(root)`: the walks from every relation leaf of the tree, in
   * pre-order, as listed before the rule began.  The rule only adds
   * projection nodes and rewires references; no node present before changes
   * its content.  `typed` selects the legacy optimizer's attribute lists.
   */
  function Rule5(nodes: Nodes, root: Ptr, rels: seq<Relation>, typed: bool): (r: Result<Nodes>)
    ensures r.Success? ==> AddsProjections(nodes, r.value)
  {
    var listing :- GetNodesList(nodes, root);
    ClimbAll(nodes, root, rels, Filter(nodes, listing, RelationKind, Null), 0, typed)
  }

  // ---------------------------------------------------------------- the methods

  /** The branch of the inner loop of `ApplyRule5` that inserts a projection above `cursor`. */
  method ProjectAbove(heap: NodeHeap, root: Ptr, rels: seq<Relation>, cursor: Ptr, side: Field, typed: bool) returns (o: Outcome, p: Ptr)
    requires heap.Valid() && Live(heap.nodes, cursor) && Live(heap.nodes, heap.nodes[cursor.index].parent)
    requires side != ParentField
    modifies heap
    ensures heap.Valid()
    ensures var attrs := Projected(old(heap.nodes), root, rels, cursor, typed);
      (o.Pass? <==> attrs.Success?) && (o.Fail? ==> o.error == attrs.error)
      && (o.Pass? ==> p == Ref(|old(heap.nodes)|))
      && (o.Pass? ==> heap.nodes == Interpose(old(heap.nodes), cursor, old(heap.nodes)[cursor.index].parent, side, attrs.value))
  {
    var parent := heap.nodes[cursor.index].parent;
    var allParental := GetMinimumParentalAttributes(heap.nodes, cursor, root, typed);
    if allParental.Failure? {
      return Fail(allParental.error), Null;
    }
    var available := GetAccessibleAttributes(heap.nodes, cursor, rels);
    if available.Failure? {
      return Fail(available.error), Null;
    }
    if typed && |available.value| > 0 && NullOp in allParental.value {
      return Fail(NullReference), Null;
    }
    var intersection := IntersectAttributes(allParental.value, available.value);
    p := heap.NewNode(ProjectionContent(Projection(intersection)), parent, cursor, Null);
    heap.Assign(parent, side, p);
    heap.Assign(cursor, ParentField, p);
    o := Pass;
  }

  /** The inner loop of `ApplyRule5` for one relation leaf. */
  method ClimbFrom(heap: NodeHeap, root: Ptr, rels: seq<Relation>, leaf: nat, typed: bool) returns (o: Outcome)
    requires heap.Valid()
    modifies heap
    ensures heap.Valid()
    ensures Follows(o, Climb(old(heap.nodes), root, rels, Ref(leaf), Budget(old(heap.nodes)), typed), heap.nodes)
  {
    ghost var spec := Climb(heap.nodes, root, rels, Ref(leaf), Budget(heap.nodes), typed);
    var cursor := Ref(leaf);
    var fuel: nat := Budget(heap.nodes);
    var done := false;
    o := Pass;
    while cursor != root && !done && fuel > 0
      invariant heap.Valid()
      invariant !done ==> o.Pass? && spec == Climb(heap.nodes, root, rels, cursor, fuel, typed)
      invariant done ==> Follows(o, spec, heap.nodes)
      decreases fuel
    {
      o, cursor, done := ClimbStep(heap, root, rels, cursor, fuel, typed);
      fuel := fuel - 1;
    }
    if !done && cursor != root {
      o := Fail(Diverges);
    }
  }

  /**
   * One round of the inner loop of `ApplyRule5`: a null node throws, a
   * projection or a node under a projection moves the cursor up, and any
   * other node gets a projection inserted above it, from which the walk
   * goes on.
   */
  method ClimbStep(heap: NodeHeap, root: Ptr, rels: seq<Relation>, cursor: Ptr, fuel: nat, typed: bool) returns (o: Outcome, next: Ptr, done: bool)
    requires heap.Valid() && cursor != root && fuel > 0
    modifies heap
    ensures heap.Valid()
    ensures done ==> Follows(o, Climb(old(heap.nodes), root, rels, cursor, fuel, typed), heap.nodes)
    ensures !done ==> o.Pass? && Climb(old(heap.nodes), root, rels, cursor, fuel, typed) == Climb(heap.nodes, root, rels, next, fuel - 1, typed)
  {
    if !Live(heap.nodes, cursor) {
      return Fail(NullReference), cursor, true;
    }
    var x := heap.nodes[cursor.index];
    if x.content.ProjectionContent? {
      return Pass, x.parent, false;
    }
    if !Live(heap.nodes, x.parent) {
      return Fail(NullReference), cursor, true;
    }
    var par := heap.nodes[x.parent.index];
    if par.content.ProjectionContent? {
      return Pass, x.parent, false;
    }
    var side := if par.left == cursor then LeftField else RightField;
    o, next := ProjectAbove(heap, root, rels, cursor, side, typed);
    done := o.Fail?;
  }

  /** `ApplyRule5(root)`. */
  method ApplyRule5(heap: NodeHeap, root: Ptr, rels: seq<Relation>, typed: bool) returns (o: Outcome)
    requires heap.Valid()
    modifies heap
    ensures heap.Valid()
    ensures Follows(o, Rule5(old(heap.nodes), root, rels, typed), heap.nodes)
  {
    var nodesInTree := GetNodesList(heap.nodes, root);
    if nodesInTree.Failure? {
      return Fail(nodesInTree.error);
    }
    var treeRelations := Filter(heap.nodes, nodesInTree.value, RelationKind, Null);
    ghost var start := heap.nodes;
    for i := 0 to |treeRelations|
      invariant heap.Valid()
      invariant Rule5(start, root, rels, typed) == ClimbAll(heap.nodes, root, rels, treeRelations, i, typed)
    {
      o := ClimbFrom(heap, root, rels, treeRelations[i], typed);
      if o.Fail? {
        return;
      }
    }
    return Pass;
  }
}
