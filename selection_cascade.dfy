/**
 * Optimization rule 1 of `QoOptimizer`: a selection with several
 * conditions and no OR is broken up into a cascade of selections with one
 * condition each, inserted between the selection's parent and its child.
 */
module SelectionCascade {
  import opened Wrappers
  import opened Text
  import opened QueryModel
  import opened RelationalModel
  import opened Heap
  import opened TreeQueries
  import opened Rewrites

  /** The content of a cascade node: a fresh selection holding one condition and no operators. */
  function Single(c: Condition): (s: Content)
    ensures s.SelectionContent? && s.selection.conditions == [c] && s.selection.operators == map[]
  {
    SelectionContent(Selection([c], map[]))
  }

  /**
   * Rounds `i` onwards of the cascade loop: a node for condition `i` is
   * made below `cursor` and becomes `cursor`'s left child; the last one
   * takes `last` as its left child and becomes `last`'s parent.  A null
   * `cursor` or `last` throws.
   */
  function Chain(nodes: Nodes, cs: seq<Condition>, i: nat, cursor: Ptr, last: Ptr): Result<Nodes>
    requires i <= |cs|
    decreases |cs| - i
  {
    if i == |cs| then Success(nodes)
    else
      var q := Ref(|nodes|);
      var made := Alloc(nodes, Single(cs[i]), cursor, Null, Null);
      var linked :- Write(made, cursor, LeftField, q);
      if i + 1 < |cs| then Chain(linked, cs, i + 1, q, last)
      else
        var tied :- Write(linked, q, LeftField, last);
        Write(tied, last, ParentField, q)
  }

  /**
   * Rule 1 on one node of the selection list: a selection with at most one
   * condition, or with an OR, stays as it is; otherwise the cascade hangs
   * from the node's parent, or from the root when the node has none, and
   * ends above the node's left child.  The node itself is no longer
   * anyone's child.  Content that is not a selection fails the cast.
   */
  function Split(nodes: Nodes, root: Ptr, k: nat): (r: Result<Nodes>)
  {
    var x :- Get(nodes, Ref(k));
    if !x.content.SelectionContent? then Failure(InvalidCast)
    else
      var cs := x.content.selection.conditions;
      if |cs| <= 1 then Success(nodes)
      else
        var conj :- IsConjunctiveSelectionNode(nodes, Ref(k));
        if !conj then Success(nodes)
        else Chain(nodes, cs, 0, if Live(nodes, x.parent) then x.parent else root, x.left)
  }

  /** The loop of `ApplyRule1` from the `i`-th selection of the list `ks` on. */
  function SplitAll(nodes: Nodes, root: Ptr, ks: seq<nat>, i: nat): Result<Nodes>
    requires i <= |ks|
    decreases |ks| - i
  {
    if i == |ks| then Success(nodes)
    else
      var next :- Split(nodes, root, ks[i]);
      SplitAll(next, root, ks, i + 1)
  }

  /** `ApplyRule1(root)`: every selection of the tree, in pre-order, as the list was before the rule began. */
  function Rule1(nodes: Nodes, root: Ptr): Result<Nodes>
  {
    var ks :- GetAllSelectionNodes(nodes, root);
    SplitAll(nodes, root, ks, 0)
  }

  // ---------------------------------------------------------------- what the cascade builds

  /**
   * `after` only adds to `before`: each existing node keeps its id and
   * content, and the new ones hold the conditions of `cs` from `i` on, one
   * each, in order.
   */
  predicate AddsConditions(before: Nodes, after: Nodes, cs: seq<Condition>, i: nat)
    requires i <= |cs|
  {
    Extends(before, after) && |after| == |before| + |cs| - i
    && forall j :: |before| <= j < |after| ==> after[j].content == Single(cs[i + j - |before|])
  }

  /** The cascade only adds nodes, one per remaining condition. */
  lemma {:induction false} ChainAdds(nodes: Nodes, cs: seq<Condition>, i: nat, cursor: Ptr, last: Ptr)
    requires i <= |cs| && Chain(nodes, cs, i, cursor, last).Success?
    ensures AddsConditions(nodes, Chain(nodes, cs, i, cursor, last).value, cs, i)
    decreases |cs| - i
  {
    if i < |cs| {
      var q := Ref(|nodes|);
      var made := Alloc(nodes, Single(cs[i]), cursor, Null, Null);
      var linked := Write(made, cursor, LeftField, q).value;
      OneAdded(nodes, cs, i, cursor, made, linked);
      if i + 1 < |cs| {
        ChainAdds(linked, cs, i + 1, q, last);
        AddsMore(nodes, linked, Chain(linked, cs, i + 1, q, last).value, cs, i);
      } else {
        var tied := Write(linked, q, LeftField, last).value;
        var r := Write(tied, last, ParentField, q).value;
        LastAdded(nodes, linked, tied, r, cs, i, q, last);
      }
    }
  }

  /** The first round of the cascade adds one node holding condition `i`. */
  lemma OneAdded(nodes: Nodes, cs: seq<Condition>, i: nat, cursor: Ptr, made: Nodes, linked: Nodes)
    requires i < |cs| && made == Alloc(nodes, Single(cs[i]), cursor, Null, Null)
    requires Write(made, cursor, LeftField, Ref(|nodes|)) == Success(linked)
    ensures Extends(nodes, linked) && |linked| == |nodes| + 1 && linked[|nodes|].content == Single(cs[i])
  {
    assert forall j :: 0 <= j < |nodes| ==> made[j] == nodes[j];
  }

  /** One node for condition `i`, then the nodes for the conditions after it. */
  lemma AddsMore(nodes: Nodes, linked: Nodes, r: Nodes, cs: seq<Condition>, i: nat)
    requires i < |cs|
    requires Extends(nodes, linked) && |linked| == |nodes| + 1 && linked[|nodes|].content == Single(cs[i])
    requires AddsConditions(linked, r, cs, i + 1)
    ensures AddsConditions(nodes, r, cs, i)
  {
    ExtendsChain(nodes, linked, r);
  }

  /** The last round ties the last node to `last`, which changes no content. */
  lemma LastAdded(nodes: Nodes, linked: Nodes, tied: Nodes, r: Nodes, cs: seq<Condition>, i: nat, q: Ptr, last: Ptr)
    requires i + 1 == |cs|
    requires Extends(nodes, linked) && |linked| == |nodes| + 1 && linked[|nodes|].content == Single(cs[i])
    requires Write(linked, q, LeftField, last) == Success(tied) && Write(tied, last, ParentField, q) == Success(r)
    ensures AddsConditions(nodes, r, cs, i)
  {
    assert forall j :: 0 <= j < |linked| ==> r[j].id == linked[j].id && r[j].content == linked[j].content;
  }

  /**
   * Node `b + j` of a finished cascade of `cs` below `top` and above
   * `bottom`: it holds condition `j`, its parent is the node before it (the
   * first one's is `top`), and its left child is the node after it (the
   * last one's is `bottom`).
   */
  function CascadeNode(b: nat, cs: seq<Condition>, top: nat, bottom: nat, j: nat): Node
    requires j < |cs|
  {
    Node(NatToString(b + j + 1),
      if j == 0 then Ref(top) else Ref(b + j - 1),
      if j + 1 < |cs| then Ref(b + j + 1) else Ref(bottom),
      Null, Single(cs[j]))
  }

  /** The arena after `m` rounds: the last node made has no left child yet. */
  function Partial(nodes: Nodes, cs: seq<Condition>, top: nat, bottom: nat, m: nat): Nodes
    requires top < |nodes| && m <= |cs|
  {
    var b := |nodes|;
    nodes[top := nodes[top].(left := Ref(b))]
    + seq(m, j requires 0 <= j < m => if j == m - 1 then CascadeNode(b, cs, top, bottom, j).(left := Null)
                                       else CascadeNode(b, cs, top, bottom, j))
  }

  /** One middle round turns the arena after `m` rounds into the arena after `m + 1`. */
  lemma CascadeStep(nodes: Nodes, cs: seq<Condition>, top: nat, bottom: nat, m: nat)
    requires top < |nodes| && 1 <= m && m + 1 < |cs|
    ensures var b := |nodes|;
      Chain(Partial(nodes, cs, top, bottom, m), cs, m, Ref(b + m - 1), Ref(bottom))
      == Chain(Partial(nodes, cs, top, bottom, m + 1), cs, m + 1, Ref(b + m), Ref(bottom))
  {
    var b := |nodes|;
    var h := Partial(nodes, cs, top, bottom, m);
    var made := Alloc(h, Single(cs[m]), Ref(b + m - 1), Null, Null);
    var linked := made[b + m - 1 := made[b + m - 1].(left := Ref(b + m))];
    assert Write(made, Ref(b + m - 1), LeftField, Ref(b + m)) == Success(linked);
    assert linked == Partial(nodes, cs, top, bottom, m + 1);
  }

  /** The arena after the first round. */
  lemma CascadeOpen(nodes: Nodes, cs: seq<Condition>, top: nat, bottom: nat)
    requires top < |nodes| && 1 < |cs|
    ensures Chain(nodes, cs, 0, Ref(top), Ref(bottom))
      == Chain(Partial(nodes, cs, top, bottom, 1), cs, 1, Ref(|nodes|), Ref(bottom))
  {
    var b := |nodes|;
    var made := Alloc(nodes, Single(cs[0]), Ref(top), Null, Null);
    var linked := made[top := made[top].(left := Ref(b))];
    assert Write(made, Ref(top), LeftField, Ref(b)) == Success(linked);
    assert linked == Partial(nodes, cs, top, bottom, 1);
  }

  /** The finished cascade: the `top` and `bottom` nodes rewired, then the cascade nodes. */
  function Cascaded(nodes: Nodes, cs: seq<Condition>, top: nat, bottom: nat): Nodes
    requires top < |nodes| && bottom < |nodes| && |cs| > 0
  {
    var b := |nodes|;
    nodes[top := nodes[top].(left := Ref(b))][bottom := nodes[bottom].(parent := Ref(b + |cs| - 1))]
    + seq(|cs|, j requires 0 <= j < |cs| => CascadeNode(b, cs, top, bottom, j))
  }

  /** The arena after the last round on `h`: the new node hangs from `c` and above `bottom`, which points back to it. */
  function Closed(h: Nodes, cs: seq<Condition>, m: nat, c: nat, bottom: nat): Nodes
    requires m < |cs| && c < |h| && bottom < |h|
  {
    h[c := h[c].(left := Ref(|h|))][bottom := h[bottom].(parent := Ref(|h|))]
    + [Node(NatToString(|h| + 1), Ref(c), Ref(bottom), Null, Single(cs[m]))]
  }

  /** The last round on any arena. */
  lemma LastRound(h: Nodes, cs: seq<Condition>, m: nat, c: nat, bottom: nat)
    requires m + 1 == |cs| && c < |h| && bottom < |h| && c != bottom
    ensures Chain(h, cs, m, Ref(c), Ref(bottom)) == Success(Closed(h, cs, m, c, bottom))
  {
    var q := |h|;
    var made := Alloc(h, Single(cs[m]), Ref(c), Null, Null);
    var linked := made[c := made[c].(left := Ref(q))];
    assert Write(made, Ref(c), LeftField, Ref(q)) == Success(linked);
    var tied := linked[q := linked[q].(left := Ref(bottom))];
    assert Write(linked, Ref(q), LeftField, Ref(bottom)) == Success(tied);
    var done := tied[bottom := tied[bottom].(parent := Ref(q))];
    assert Write(tied, Ref(bottom), ParentField, Ref(q)) == Success(done);
    assert done == Closed(h, cs, m, c, bottom);
  }

  /** The arena the last round leaves after `|cs| - 1` rounds is the finished cascade. */
  lemma ClosedLayout(nodes: Nodes, cs: seq<Condition>, top: nat, bottom: nat)
    requires top < |nodes| && bottom < |nodes| && top != bottom && 2 <= |cs|
    ensures var m := |cs| - 1;
      Closed(Partial(nodes, cs, top, bottom, m), cs, m, |nodes| + m - 1, bottom) == Cascaded(nodes, cs, top, bottom)
  {
    var m := |cs| - 1;
    var done := Closed(Partial(nodes, cs, top, bottom, m), cs, m, |nodes| + m - 1, bottom);
    var want := Cascaded(nodes, cs, top, bottom);
    forall i | 0 <= i < |want|
      ensures i < |done| && done[i] == want[i]
    {
      if i < |nodes| {
        ClosedBefore(nodes, cs, top, bottom, i);
      } else if i < |nodes| + m - 1 {
        ClosedMiddle(nodes, cs, top, bottom, i);
      } else if i == |nodes| + m - 1 {
        ClosedHanging(nodes, cs, top, bottom);
      } else {
        ClosedNew(nodes, cs, top, bottom);
      }
    }
  }

  /** The finished cascade and the last round agree on the nodes that were there before. */
  lemma ClosedBefore(nodes: Nodes, cs: seq<Condition>, top: nat, bottom: nat, i: nat)
    requires top < |nodes| && bottom < |nodes| && top != bottom && 2 <= |cs| && i < |nodes|
    ensures var m := |cs| - 1;
      Closed(Partial(nodes, cs, top, bottom, m), cs, m, |nodes| + m - 1, bottom)[i] == Cascaded(nodes, cs, top, bottom)[i]
  {
  }

  /** The finished cascade and the last round agree on the nodes of the middle rounds. */
  lemma ClosedMiddle(nodes: Nodes, cs: seq<Condition>, top: nat, bottom: nat, i: nat)
    requires top < |nodes| && bottom < |nodes| && top != bottom && 2 <= |cs| && |nodes| <= i < |nodes| + |cs| - 2
    ensures var m := |cs| - 1;
      Closed(Partial(nodes, cs, top, bottom, m), cs, m, |nodes| + m - 1, bottom)[i] == Cascaded(nodes, cs, top, bottom)[i]
  {
    assert Cascaded(nodes, cs, top, bottom)[i] == CascadeNode(|nodes|, cs, top, bottom, i - |nodes|);
    assert Partial(nodes, cs, top, bottom, |cs| - 1)[i] == CascadeNode(|nodes|, cs, top, bottom, i - |nodes|);
  }

  /** The finished cascade and the last round agree on the node the last round hangs from. */
  lemma ClosedHanging(nodes: Nodes, cs: seq<Condition>, top: nat, bottom: nat)
    requires top < |nodes| && bottom < |nodes| && top != bottom && 2 <= |cs|
    ensures var m := |cs| - 1; var i := |nodes| + m - 1;
      Closed(Partial(nodes, cs, top, bottom, m), cs, m, i, bottom)[i] == Cascaded(nodes, cs, top, bottom)[i]
  {
    var i := |nodes| + |cs| - 2;
    assert Cascaded(nodes, cs, top, bottom)[i] == CascadeNode(|nodes|, cs, top, bottom, |cs| - 2);
    assert Partial(nodes, cs, top, bottom, |cs| - 1)[i] == CascadeNode(|nodes|, cs, top, bottom, |cs| - 2).(left := Null);
  }

  /** The finished cascade and the last round agree on the node the last round makes. */
  lemma ClosedNew(nodes: Nodes, cs: seq<Condition>, top: nat, bottom: nat)
    requires top < |nodes| && bottom < |nodes| && top != bottom && 2 <= |cs|
    ensures var m := |cs| - 1; var done := Closed(Partial(nodes, cs, top, bottom, m), cs, m, |nodes| + m - 1, bottom);
      |done| == |nodes| + |cs| && done[|nodes| + m] == Cascaded(nodes, cs, top, bottom)[|nodes| + m]
  {
    assert Cascaded(nodes, cs, top, bottom)[|nodes| + |cs| - 1] == CascadeNode(|nodes|, cs, top, bottom, |cs| - 1);
  }

  /** The last round, on the arena after all the others, ties the cascade to `bottom`. */
  lemma CascadeClose(nodes: Nodes, cs: seq<Condition>, top: nat, bottom: nat, h: Nodes, c: nat)
    requires top < |nodes| && bottom < |nodes| && top != bottom && 2 <= |cs|
    requires h == Partial(nodes, cs, top, bottom, |cs| - 1) && c == |nodes| + |cs| - 2
    ensures Chain(h, cs, |cs| - 1, Ref(c), Ref(bottom)) == Success(Cascaded(nodes, cs, top, bottom))
  {
    LastRound(h, cs, |cs| - 1, c, bottom);
    ClosedLayout(nodes, cs, top, bottom);
  }

  /** Rounds `m` onwards, from any middle round, end in the finished cascade. */
  lemma {:induction false} CascadeFrom(nodes: Nodes, cs: seq<Condition>, top: nat, bottom: nat, m: nat)
    requires top < |nodes| && bottom < |nodes| && top != bottom && 1 <= m < |cs|
    ensures Chain(Partial(nodes, cs, top, bottom, m), cs, m, Ref(|nodes| + m - 1), Ref(bottom))
      == Success(Cascaded(nodes, cs, top, bottom))
    decreases |cs| - m
  {
    if m + 1 < |cs| {
      CascadeStep(nodes, cs, top, bottom, m);
      CascadeFrom(nodes, cs, top, bottom, m + 1);
    } else {
      CascadeClose(nodes, cs, top, bottom, Partial(nodes, cs, top, bottom, m), |nodes| + m - 1);
    }
  }

  /**
   * The cascade of two or more conditions between two different nodes
   * `top` and `bottom` is exactly `Cascaded`: `top`'s left child is the
   * first new node, the new nodes follow each other in condition order, and
   * the last one and `bottom` point at each other.
   */
  lemma CascadeLayout(nodes: Nodes, cs: seq<Condition>, top: nat, bottom: nat)
    requires top < |nodes| && bottom < |nodes| && top != bottom && 1 < |cs|
    ensures Chain(nodes, cs, 0, Ref(top), Ref(bottom)) == Success(Cascaded(nodes, cs, top, bottom))
  {
    CascadeOpen(nodes, cs, top, bottom);
    CascadeFrom(nodes, cs, top, bottom, 1);
  }

  /**
   * Read down the left children from `top`, the finished cascade gives the
   * conditions one by one in their original order, and then `bottom`; each
   * node's parent is the one above it.
   */
  lemma {:induction false} CascadeReadsDown(nodes: Nodes, cs: seq<Condition>, top: nat, bottom: nat, j: nat)
    requires top < |nodes| && bottom < |nodes| && top != bottom && 1 < |cs| && j <= |cs|
    ensures var h := Cascaded(nodes, cs, top, bottom); var b := |nodes|;
      OptimizerHelpers.LeftAt(h, Ref(top), j + 1) == (if j < |cs| then Ref(b + j) else Ref(bottom))
      && (j < |cs| ==> h[b + j].content == Single(cs[j])
                       && h[b + j].parent == (if j == 0 then Ref(top) else Ref(b + j - 1)))
      && (j == |cs| ==> h[bottom].parent == Ref(b + |cs| - 1))
  {
    var h := Cascaded(nodes, cs, top, bottom);
    var b := |nodes|;
    if j == 0 {
      assert OptimizerHelpers.LeftAt(h, Ref(top), 1) == h[top].left;
    } else {
      CascadeReadsDown(nodes, cs, top, bottom, j - 1);
      assert h[b + j - 1] == CascadeNode(b, cs, top, bottom, j - 1);
    }
  }

  /** A selection with at most one condition, or with an OR, is left as it is. */
  lemma SplitSkips(nodes: Nodes, root: Ptr, k: nat)
    requires k < |nodes| && nodes[k].content.SelectionContent?
    requires |nodes[k].content.selection.conditions| <= 1 || !Conjunctive(nodes[k].content.selection)
    ensures Split(nodes, root, k) == Success(nodes)
  {
  }

  /**
   * A conjunctive selection with two or more conditions, whose parent and
   * left child are two other nodes, is replaced by the cascade of its
   * conditions between them.
   */
  lemma SplitCascades(nodes: Nodes, root: Ptr, k: nat)
    requires k < |nodes| && nodes[k].content.SelectionContent?
    requires |nodes[k].content.selection.conditions| > 1 && Conjunctive(nodes[k].content.selection)
    requires Live(nodes, nodes[k].parent) && Live(nodes, nodes[k].left) && nodes[k].parent != nodes[k].left
    ensures Split(nodes, root, k)
      == Success(Cascaded(nodes, nodes[k].content.selection.conditions, nodes[k].parent.index, nodes[k].left.index))
  {
    CascadeLayout(nodes, nodes[k].content.selection.conditions, nodes[k].parent.index, nodes[k].left.index);
  }

  /** Rule 1 only adds nodes. */
  lemma {:induction false} SplitAllAdds(nodes: Nodes, root: Ptr, ks: seq<nat>, i: nat)
    requires i <= |ks| && SplitAll(nodes, root, ks, i).Success?
    ensures Extends(nodes, SplitAll(nodes, root, ks, i).value)
    decreases |ks| - i
  {
    if i < |ks| {
      var next := Split(nodes, root, ks[i]).value;
      var x := nodes[ks[i]];
      var cs := x.content.selection.conditions;
      if |cs| > 1 && Conjunctive(x.content.selection) {
        ChainAdds(nodes, cs, 0, if Live(nodes, x.parent) then x.parent else root, x.left);
      }
      SplitAllAdds(next, root, ks, i + 1);
      ExtendsChain(nodes, next, SplitAll(next, root, ks, i + 1).value);
    }
  }

  /** Rule 1 only adds nodes: every node already there keeps its id and its content. */
  lemma Rule1Adds(nodes: Nodes, root: Ptr)
    requires Rule1(nodes, root).Success?
    ensures Extends(nodes, Rule1(nodes, root).value)
  {
    SplitAllAdds(nodes, root, GetAllSelectionNodes(nodes, root).value, 0);
  }

  // ---------------------------------------------------------------- the methods

  /** The cascade loop for one selection node. */
  method SplitSelection(heap: NodeHeap, root: Ptr, k: nat) returns (o: Outcome)
    requires heap.Valid()
    modifies heap
    ensures heap.Valid()
    ensures Follows(o, Split(old(heap.nodes), root, k), heap.nodes)
  {
    if !Live(heap.nodes, Ref(k)) {
      return Fail(NullReference);
    }
    var x := heap.nodes[k];
    if !x.content.SelectionContent? {
      return Fail(InvalidCast);
    }
    var conditions := x.content.selection.conditions;
    if |conditions| <= 1 || !Conjunctive(x.content.selection) {
      return Pass;
    }
    o := BuildCascade(heap, conditions, if Live(heap.nodes, x.parent) then x.parent else root, x.left);
  }

  /**
   * The `for` loop of rule 1: one selection per condition, each made below
   * the previous one (the first below `top`) and becoming its left child, the last one tied to `lastNode`.
   */
  method BuildCascade(heap: NodeHeap, conditions: seq<Condition>, top: Ptr, lastNode: Ptr) returns (o: Outcome)
    requires heap.Valid()
    modifies heap
    ensures heap.Valid()
    ensures Follows(o, Chain(old(heap.nodes), conditions, 0, top, lastNode), heap.nodes)
  {
    var cursor := top;
    ghost var start := heap.nodes;
    for i := 0 to |conditions|
      invariant heap.Valid()
      invariant Chain(start, conditions, 0, top, lastNode) == Chain(heap.nodes, conditions, i, cursor, lastNode)
    {
      var newNode := heap.NewNode(Single(conditions[i]), cursor, Null, Null);
      if !Live(heap.nodes, cursor) {
        return Fail(NullReference);
      }
      heap.Assign(cursor, LeftField, newNode);
      cursor := newNode;
      if i == |conditions| - 1 {
        heap.Assign(newNode, LeftField, lastNode);
        if !Live(heap.nodes, lastNode) {
          return Fail(NullReference);
        }
        heap.Assign(lastNode, ParentField, newNode);
      }
    }
    return Pass;
  }

  /** `ApplyRule1(root)`. */
  method ApplyRule1(heap: NodeHeap, root: Ptr) returns (o: Outcome)
    requires heap.Valid()
    modifies heap
    ensures heap.Valid()
    ensures Follows(o, Rule1(old(heap.nodes), root), heap.nodes)
  {
    var list := GetAllSelectionNodes(heap.nodes, root);
    if list.Failure? {
      return Fail(list.error);
    }
    var ks := list.value;
    ghost var start := heap.nodes;
    for j := 0 to |ks|
      invariant heap.Valid()
      invariant Rule1(start, root) == SplitAll(heap.nodes, root, ks, j)
    {
      o := SplitSelection(heap, root, ks[j]);
      if o.Fail? {
        return;
      }
    }
    return Pass;
  }
}
