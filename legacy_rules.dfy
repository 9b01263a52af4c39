/**
 * The rules of the legacy `QueryOptimizer` (Optimizer.cs), the earlier
 * revision of the optimizer: the same five rewrites as `QoOptimizer` with
 * fewer guards.  Each rule is a function on the arena that performs the C#
 * assignments in their order (the methods of `LegacyOptimizer` are proved
 * against them); the lemmas say what the rewiring achieves and where it
 * parts from the current revision.
 */
module LegacyRules {
  import opened Wrappers
  import opened QueryModel
  import opened RelationalModel
  import opened Heap
  import opened TreeQueries
  import opened OptimizerHelpers
  import opened Rewrites
  import SelectionCascade
  import JoinIntroduction

  /**
   * `(Selection)content` and a use of the result, on content that is not a
   * selection: null passes the cast and throws when dereferenced, any other
   * object fails the cast.
   */
  function CastFault(c: Content): (f: Fault)
    ensures f == NullReference <==> c.NoContent?
    ensures f == NullReference || f == InvalidCast
  {
    if c.NoContent? then NullReference else InvalidCast
  }

  /** A node's content as it was, or its selection with the sides of every condition exchanged. */
  predicate Swapped(c: Content, d: Content)
  {
    d == c || (c.SelectionContent? && d == SelectionContent(c.selection.SwapOperators()))
  }

  /**
   * Only references moved and selection sides were exchanged: the same
   * nodes, with the same ids, and each content as it was or swapped.
   */
  predicate Keeps(before: Nodes, after: Nodes)
  {
    |after| == |before|
    && forall j :: 0 <= j < |before| ==> after[j].id == before[j].id && Swapped(before[j].content, after[j].content)
  }

  /** Swapping twice restores the content, so two swaps in a row are a swap or none. */
  lemma SwappedChain(a: Content, b: Content, c: Content)
    requires Swapped(a, b) && Swapped(b, c)
    ensures Swapped(a, c)
  {
    if a.SelectionContent? && b != a && c != b {
      SwapOperatorsTwice(a.selection);
    }
  }

  lemma KeepsChain(a: Nodes, b: Nodes, c: Nodes)
    requires Keeps(a, b) && Keeps(b, c)
    ensures Keeps(a, c)
  {
    forall j | 0 <= j < |a|
      ensures c[j].id == a[j].id && Swapped(a[j].content, c[j].content)
    {
      SwappedChain(a[j].content, b[j].content, c[j].content);
    }
  }

  lemma RewiresKeeps(a: Nodes, b: Nodes)
    requires Rewires(a, b)
    ensures Keeps(a, b)
  {
  }

  // ---------------------------------------------------------------- rule 1: cascades, single conditions included

  /**
   * Rule 1 on one node of the selection list: a selection none of whose
   * operators is OR is rebuilt as a cascade of one selection per condition,
   * hanging from the node's parent and ending above its left child, however
   * many conditions it has.  A null parent throws (there is no fallback to
   * the root), and so does a null left child.
   */
  function Cascade(nodes: Nodes, k: nat): (r: Result<Nodes>)
    ensures r.Success? ==> Extends(nodes, r.value)
  {
    var conj :- IsConjunctiveSelectionNode(nodes, Ref(k));
    if !conj then Success(nodes)
    else
      var x := nodes[k];
      var cs := x.content.selection.conditions;
      var r := SelectionCascade.Chain(nodes, cs, 0, x.parent, x.left);
      if r.Success? then SelectionCascade.ChainAdds(nodes, cs, 0, x.parent, x.left); r else r
  }

  /** The loop of `ApplyOptimizationRule1` from the `i`-th selection of the list `ks` on. */
  function CascadeAll(nodes: Nodes, ks: seq<nat>, i: nat): (r: Result<Nodes>)
    requires i <= |ks|
    ensures r.Success? ==> Extends(nodes, r.value)
    decreases |ks| - i
  {
    if i == |ks| then Success(nodes)
    else
      var next :- Cascade(nodes, ks[i]);
      var r := CascadeAll(next, ks, i + 1);
      if r.Success? then ExtendsChain(nodes, next, r.value); r else r
  }

  /** `ApplyOptimizationRule1(root)`: every selection of the tree, in pre-order, as listed before the rule began. */
  function Rule1(nodes: Nodes, root: Ptr): (r: Result<Nodes>)
    ensures r.Success? ==> Extends(nodes, r.value)
  {
    var ks :- GetAllSelectionNodes(nodes, root);
    CascadeAll(nodes, ks, 0)
  }

  /**
   * A conjunctive selection with a single condition, between two other
   * nodes, is replaced by a fresh copy holding that condition, which its
   * parent and its child now point to; the current rule 1 leaves it alone.
   */
  lemma CascadeRebuildsSingle(nodes: Nodes, root: Ptr, k: nat)
    requires k < |nodes| && nodes[k].content.SelectionContent? && Conjunctive(nodes[k].content.selection)
    requires |nodes[k].content.selection.conditions| == 1
    requires Live(nodes, nodes[k].parent) && Live(nodes, nodes[k].left) && nodes[k].parent != nodes[k].left
    ensures var x := nodes[k];
      Cascade(nodes, k) == Success(SelectionCascade.Closed(nodes, x.content.selection.conditions, 0, x.parent.index, x.left.index))
    ensures SelectionCascade.Split(nodes, root, k) == Success(nodes)
  {
    var x := nodes[k];
    SelectionCascade.LastRound(nodes, x.content.selection.conditions, 0, x.parent.index, x.left.index);
  }

  /**
   * With two or more conditions and a parent, the legacy rule builds the
   * same cascade as the current one: between two different nodes, exactly
   * `Cascaded`.
   */
  lemma CascadeAgreesOnMany(nodes: Nodes, root: Ptr, k: nat)
    requires k < |nodes| && nodes[k].content.SelectionContent? && Conjunctive(nodes[k].content.selection)
    requires |nodes[k].content.selection.conditions| > 1 && Live(nodes, nodes[k].parent)
    ensures Cascade(nodes, k) == SelectionCascade.Split(nodes, root, k)
    ensures Live(nodes, nodes[k].left) && nodes[k].parent != nodes[k].left ==>
      Cascade(nodes, k) == Success(SelectionCascade.Cascaded(nodes, nodes[k].content.selection.conditions,
        nodes[k].parent.index, nodes[k].left.index))
  {
    var x := nodes[k];
    if Live(nodes, x.left) && x.parent != x.left {
      SelectionCascade.CascadeLayout(nodes, x.content.selection.conditions, x.parent.index, x.left.index);
    }
  }

  /**
   * A conjunctive selection with conditions but no parent throws, where the
   * current rule hangs a cascade of two or more from the root.
   */
  lemma CascadeNeedsParent(nodes: Nodes, k: nat)
    requires k < |nodes| && nodes[k].content.SelectionContent? && Conjunctive(nodes[k].content.selection)
    requires |nodes[k].content.selection.conditions| > 0 && nodes[k].parent == Null
    ensures Cascade(nodes, k) == Failure(NullReference)
  {
  }

  /** A selection with an OR, and any node that is not a selection, stays as it is. */
  lemma CascadeSkips(nodes: Nodes, k: nat)
    requires k < |nodes| && !(nodes[k].content.SelectionContent? && Conjunctive(nodes[k].content.selection))
    ensures Cascade(nodes, k) == Success(nodes)
  {
  }

  // ---------------------------------------------------------------- the relation an attribute names, by query number

  /** The relation of candidate `k` can be read with the attribute's query number as an alias index. */
  predicate Indexable(nodes: Nodes, rels: seq<Relation>, a: Attribute, k: nat)
  {
    Resolves(nodes, rels, k) && 0 <= a.queryNumber < |rels[nodes[k].content.rel].aliases|
  }

  /** The relation of candidate `k` has, for the attribute's query, the attribute's alias and an attribute of its name. */
  predicate AliasMatch(nodes: Nodes, rels: seq<Relation>, a: Attribute, k: nat)
  {
    Indexable(nodes, rels, a, k)
    && rels[nodes[k].content.rel].aliases[a.queryNumber] == a.alias
    && rels[nodes[k].content.rel].HasAttributeNamed(a.name)
  }

  /**
   * The legacy `GetRelationForAttribute`: the candidates scanned in order,
   * the first matching one returned, null when none matches.  A candidate
   * without a relation throws, and so does a query number past the end of
   * its alias list.
   */
  function AliasLookup(nodes: Nodes, rels: seq<Relation>, a: Attribute, cands: seq<nat>): (r: Result<Ptr>)
    ensures r.Success? && r.value.Ref? ==> r.value.index in cands && AliasMatch(nodes, rels, a, r.value.index)
    ensures r.Failure? ==> r.error == NullReference || r.error == IndexOutOfRange
  {
    if |cands| == 0 then Success(Null)
    else if !Resolves(nodes, rels, cands[0]) then Failure(NullReference)
    else if !Indexable(nodes, rels, a, cands[0]) then Failure(IndexOutOfRange)
    else if AliasMatch(nodes, rels, a, cands[0]) then Success(Ref(cands[0]))
    else AliasLookup(nodes, rels, a, cands[1..])
  }

  /**
   * The call `GetRelationForAttribute(side, relations)` with a side the
   * source keeps `dynamic`: an attribute is looked up; null reaches the
   * method and throws as soon as a candidate is examined; any other value
   * cannot be bound to the `Attribute` parameter.
   */
  function SideLookup(nodes: Nodes, rels: seq<Relation>, side: Operand, cands: seq<nat>): (r: Result<Ptr>)
    ensures r.Success? && r.value.Ref? ==> r.value.index in cands && Resolves(nodes, rels, r.value.index)
    ensures !(side.AttrOp? || side.NullOp?) ==> r == Failure(RuntimeBinder)
  {
    match side
    case AttrOp(a) => AliasLookup(nodes, rels, a, cands)
    case NullOp => if |cands| == 0 then Success(Null) else Failure(NullReference)
    case _ => Failure(RuntimeBinder)
  }

  /**
   * The scan finds the first match: null exactly when every candidate can be
   * read and none matches; a relation node only when it matches and every
   * candidate before it can be read and does not.
   */
  lemma {:induction false} AliasLookupMeans(nodes: Nodes, rels: seq<Relation>, a: Attribute, cands: seq<nat>)
    ensures AliasLookup(nodes, rels, a, cands) == Success(Null) <==>
      forall j :: 0 <= j < |cands| ==> Indexable(nodes, rels, a, cands[j]) && !AliasMatch(nodes, rels, a, cands[j])
    ensures AliasLookup(nodes, rels, a, cands).Success? && AliasLookup(nodes, rels, a, cands).value.Ref? ==>
      exists i :: 0 <= i < |cands| && cands[i] == AliasLookup(nodes, rels, a, cands).value.index
        && forall j :: 0 <= j < i ==> Indexable(nodes, rels, a, cands[j]) && !AliasMatch(nodes, rels, a, cands[j])
  {
    if |cands| > 0 && Indexable(nodes, rels, a, cands[0]) && !AliasMatch(nodes, rels, a, cands[0]) {
      var rest := cands[1..];
      AliasLookupMeans(nodes, rels, a, rest);
      assert forall j :: 0 <= j < |rest| ==> rest[j] == cands[j + 1];
      var r := AliasLookup(nodes, rels, a, cands);
      if r.Success? && r.value.Ref? {
        var i :| 0 <= i < |rest| && rest[i] == r.value.index
          && forall j :: 0 <= j < i ==> Indexable(nodes, rels, a, rest[j]) && !AliasMatch(nodes, rels, a, rest[j]);
        assert cands[i + 1] == r.value.index;
        assert forall j :: 0 <= j < i + 1 ==> Indexable(nodes, rels, a, cands[j]) && !AliasMatch(nodes, rels, a, cands[j]) by {
          forall j | 0 <= j < i + 1
            ensures Indexable(nodes, rels, a, cands[j]) && !AliasMatch(nodes, rels, a, cands[j])
          {
            if j > 0 { assert cands[j] == rest[j - 1]; }
          }
        }
      }
    }
  }

  // ---------------------------------------------------------------- rule 2: selections buried

  /** The node is cut out: its left child takes its place, always at its parent's left, and points up to that parent. */
  function Bypass(nodes: Nodes, k: nat): (r: Result<Nodes>)
    requires k < |nodes|
    ensures r.Success? ==> Rewires(nodes, r.value)
  {
    var a :- Write(nodes, nodes[k].parent, LeftField, nodes[k].left);
    Write(a, a[k].left, ParentField, a[k].parent)
  }

  /**
   * The non-join placement: the node takes the relation's parent as parent
   * and the relation as left child, becomes that parent's child on the
   * relation's side (the right side whenever the left child is not the
   * relation), and becomes the relation's parent.
   */
  function HangAbove(nodes: Nodes, k: nat, rel: nat): (r: Result<Nodes>)
    requires k < |nodes| && rel < |nodes|
    ensures r.Success? ==> Rewires(nodes, r.value)
  {
    var a := Relink(nodes, k, ParentField, nodes[rel].parent);
    var b := Relink(a, k, LeftField, Ref(rel));
    var p :- Get(b, b[k].parent);
    var c := Relink(b, b[k].parent.index, if p.left == Ref(rel) then LeftField else RightField, Ref(k));
    Write(c, c[k].left, ParentField, Ref(k))
  }

  /**
   * The `while` loop of the join placement, for at most `fuel` rounds: as
   * long as the right child of the node's left child is neither relation,
   * the node's parent moves up to its own parent and its left child becomes
   * the new parent's left child.  Only the node's parent and left child
   * change, and where the loop stops, the right child of its left child is
   * one of the two relations.
   */
  function Ascend(nodes: Nodes, k: nat, lr: Ptr, rr: Ptr, fuel: nat): (r: Result<Nodes>)
    requires k < |nodes|
    ensures r.Success? ==> (|r.value| == |nodes|
      && (forall j :: 0 <= j < |nodes| && j != k ==> r.value[j] == nodes[j])
      && r.value[k].id == nodes[k].id && r.value[k].content == nodes[k].content && r.value[k].right == nodes[k].right
      && Live(r.value, r.value[k].left)
      && (r.value[r.value[k].left.index].right == rr || r.value[r.value[k].left.index].right == lr))
    decreases fuel
  {
    var l :- Get(nodes, nodes[k].left);
    if l.right == rr || l.right == lr then Success(nodes)
    else if fuel == 0 then Failure(Diverges)
    else
      var p :- Get(nodes, nodes[k].parent);
      var a := Relink(nodes, k, ParentField, p.parent);
      var q :- Get(a, a[k].parent);
      var b := Relink(a, k, LeftField, q.left);
      Ascend(b, k, lr, rr, fuel - 1)
  }

  /** The node is put back at its parent's left, above its left child. */
  function Adopt(nodes: Nodes, k: nat): (r: Result<Nodes>)
    requires k < |nodes|
    ensures r.Success? ==> Rewires(nodes, r.value)
  {
    var a :- Write(nodes, nodes[k].parent, LeftField, Ref(k));
    Write(a, a[k].left, ParentField, Ref(k))
  }

  /**
   * The join placement after the node was cut out: the node starts as the
   * child of the right relation's grandparent, above the right relation's
   * parent, and climbs until the right child below it is one of the two
   * relations; there it is put in as its parent's left child.
   */
  function PlaceJoin(nodes: Nodes, k: nat, lr: Ptr, rr: Ptr): (r: Result<Nodes>)
    requires k < |nodes|
    ensures r.Success? ==> Rewires(nodes, r.value)
  {
    var rn :- Get(nodes, rr);
    var rp :- Get(nodes, rn.parent);
    var b := Relink(nodes, k, ParentField, rp.parent);
    var c := Relink(b, k, LeftField, b[rr.index].parent);
    var d :- Ascend(c, k, lr, rr, |c|);
    Adopt(d, k)
  }

  /**
   * Rule 2 on one node of the selection list, with the tree's relation
   * nodes `rs`: the relation of the first condition's left side is looked
   * up; when there is none the node stays.  Otherwise the node is cut out
   * and put back above that relation, or, for a join condition, placed by
   * the climb from the right side's relation.  A node that is not a
   * selection fails the cast and a selection without conditions throws.
   */
  function Bury(nodes: Nodes, schema: seq<Relation>, rels: seq<Relation>, rs: seq<nat>, k: nat): (r: Result<Nodes>)
    ensures r.Success? ==> Rewires(nodes, r.value)
  {
    if k >= |nodes| then Failure(NullReference)
    else if !nodes[k].content.SelectionContent? then Failure(CastFault(nodes[k].content))
    else
      var cs := nodes[k].content.selection.conditions;
      if |cs| == 0 then Failure(NoElements)
      else
        var left :- SideLookup(nodes, rels, cs[0].left, rs);
        if left.Null? then Success(nodes)
        else
          var a :- Bypass(nodes, k);
          if JoinCondition(schema, cs[0]) then
            var right :- SideLookup(a, rels, cs[0].right, rs);
            PlaceJoin(a, k, left, right)
          else HangAbove(a, k, left.index)
  }

  /** The loop of `ApplyOptimizationRule2` from the `i`-th selection of the list `ks` on. */
  function BuryAll(nodes: Nodes, schema: seq<Relation>, rels: seq<Relation>, rs: seq<nat>, ks: seq<nat>, i: nat): (r: Result<Nodes>)
    requires i <= |ks|
    ensures r.Success? ==> Rewires(nodes, r.value)
    decreases |ks| - i
  {
    if i == |ks| then Success(nodes)
    else
      var next :- Bury(nodes, schema, rels, rs, ks[i]);
      var r := BuryAll(next, schema, rels, rs, ks, i + 1);
      if r.Success? then RewiresChain(nodes, next, r.value); r else r
  }

  /**
   * `ApplyOptimizationRule2(root)`: the relation nodes and the selection
   * nodes of the tree are listed first, in pre-order, and each selection is
   * buried in turn.  The rule only moves references.
   */
  function Rule2(nodes: Nodes, schema: seq<Relation>, rels: seq<Relation>, root: Ptr): (r: Result<Nodes>)
    ensures r.Success? ==> Rewires(nodes, r.value)
  {
    var all :- GetNodesList(nodes, root);
    var rs := Filter(nodes, all, RelationKind, Null);
    BuryAll(nodes, schema, rels, rs, GetAllSelectionNodes(nodes, root).value, 0)
  }

  /** A selection whose first condition's left side names no relation of the tree stays where it is. */
  lemma BurySkipsUnresolved(nodes: Nodes, schema: seq<Relation>, rels: seq<Relation>, rs: seq<nat>, k: nat)
    requires k < |nodes| && nodes[k].content.SelectionContent? && |nodes[k].content.selection.conditions| > 0
    requires SideLookup(nodes, rels, nodes[k].content.selection.conditions[0].left, rs) == Success(Null)
    ensures Bury(nodes, schema, rels, rs, k) == Success(nodes)
  {
  }

  /**
   * When the node, its parent and its left child are three different
   * nodes, cutting it out makes the parent's left child the node's child,
   * and the child's parent the node's parent; nothing else changes.
   */
  lemma BypassShape(nodes: Nodes, k: nat)
    requires k < |nodes| && Live(nodes, nodes[k].parent) && Live(nodes, nodes[k].left)
    requires var p := nodes[k].parent.index; var l := nodes[k].left.index; k != p && k != l && p != l
    ensures var p := nodes[k].parent.index; var l := nodes[k].left.index;
      Bypass(nodes, k) == Success(nodes[p := nodes[p].(left := Ref(l))][l := nodes[l].(parent := Ref(p))])
  {
    var p := nodes[k].parent.index;
    var l := nodes[k].left.index;
    var a := nodes[p := nodes[p].(left := Ref(l))];
    assert Write(nodes, Ref(p), LeftField, Ref(l)) == Success(a);
    assert a[k] == nodes[k];
  }

  /**
   * Put back above a relation `rel` whose parent `q` is a third node, the
   * node has `q` as parent and `rel` as left child, `q` holds it on the side
   * that held `rel`, and `rel`'s parent is the node; nothing else changes.
   */
  lemma HangAboveShape(nodes: Nodes, k: nat, rel: nat)
    requires k < |nodes| && rel < |nodes| && k != rel && Live(nodes, nodes[rel].parent)
    requires var q := nodes[rel].parent.index; q != k && q != rel
    ensures var q := nodes[rel].parent.index;
      var side := if nodes[q].left == Ref(rel) then LeftField else RightField;
      HangAbove(nodes, k, rel) == Success(
        nodes[k := nodes[k].(parent := Ref(q), left := Ref(rel))][q := Rewire(nodes[q], side, Ref(k))][rel := nodes[rel].(parent := Ref(k))])
  {
    var q := nodes[rel].parent.index;
    var side := if nodes[q].left == Ref(rel) then LeftField else RightField;
    var a := Relink(nodes, k, ParentField, Ref(q));
    var b := Relink(a, k, LeftField, Ref(rel));
    assert b == nodes[k := nodes[k].(parent := Ref(q), left := Ref(rel))];
    assert b[q] == nodes[q];
    var c := b[q := Rewire(b[q], side, Ref(k))];
    assert c[k].left == Ref(rel) && c[rel] == nodes[rel];
    assert Write(c, Ref(rel), ParentField, Ref(k)) == Success(c[rel := c[rel].(parent := Ref(k))]);
  }

  /**
   * A non-join selection whose left side names relation `rel` is cut out
   * and put back above `rel`: rule 2 on it is `HangAbove` after `Bypass`.
   */
  lemma BuryNonJoin(nodes: Nodes, schema: seq<Relation>, rels: seq<Relation>, rs: seq<nat>, k: nat, rel: nat)
    requires k < |nodes| && nodes[k].content.SelectionContent? && |nodes[k].content.selection.conditions| > 0
    requires !JoinCondition(schema, nodes[k].content.selection.conditions[0])
    requires SideLookup(nodes, rels, nodes[k].content.selection.conditions[0].left, rs) == Success(Ref(rel))
    requires Bypass(nodes, k).Success?
    ensures rel < |nodes| && Bury(nodes, schema, rels, rs, k) == HangAbove(Bypass(nodes, k).value, k, rel)
  {
  }

  // ---------------------------------------------------------------- rule 3: non-join selections moved left

  /** A selection of one condition, and that condition a join: `ContainsJoinCondition` is true. */
  predicate JoinSelection(schema: seq<Relation>, c: Content)
  {
    c.SelectionContent? && |c.selection.conditions| == 1 && JoinCondition(schema, c.selection.conditions[0])
  }

  /**
   * The walk of `GetParentalJoinNode` from `p` up, for at most `fuel`
   * steps: the first node holding a join selection.  Reaching null throws.
   */
  function JoinAbove(nodes: Nodes, schema: seq<Relation>, p: Ptr, fuel: nat): (r: Result<nat>)
    ensures r.Success? ==> r.value < |nodes| && JoinSelection(schema, nodes[r.value].content)
    decreases fuel
  {
    var x :- Get(nodes, p);
    if JoinSelection(schema, x.content) then Success(p.index)
    else if fuel == 0 then Failure(Diverges)
    else JoinAbove(nodes, schema, x.parent, fuel - 1)
  }

  /**
   * `GetParentalJoinNode(node)`: the walk from the node's parent.  The
   * current revision returns null for a null node (`guarded`); the legacy
   * one throws.
   */
  function ParentalJoin(nodes: Nodes, schema: seq<Relation>, node: Ptr, guarded: bool): (r: Result<Ptr>)
    ensures r.Success? && r.value.Ref? ==> r.value.index < |nodes| && JoinSelection(schema, nodes[r.value.index].content)
    ensures r.Success? && r.value == Null ==> guarded && node == Null
  {
    if guarded && node == Null then Success(Null)
    else
      var n :- Get(nodes, node);
      var j :- JoinAbove(nodes, schema, n.parent, |nodes|);
      Success(Ref(j))
  }

  /**
   * The node the walk finds is the nearest: it lies `d` parent steps above
   * `p`, and every node passed before it exists and holds no join selection.
   */
  lemma {:induction false} JoinAboveNearest(nodes: Nodes, schema: seq<Relation>, p: Ptr, fuel: nat) returns (d: nat)
    requires JoinAbove(nodes, schema, p, fuel).Success?
    ensures d <= fuel && Up(nodes, p, d) == Ref(JoinAbove(nodes, schema, p, fuel).value)
    ensures forall e :: 0 <= e < d ==> Live(nodes, Up(nodes, p, e)) && !JoinSelection(schema, nodes[Up(nodes, p, e).index].content)
    decreases fuel
  {
    var x := nodes[p.index];
    if JoinSelection(schema, x.content) {
      d := 0;
    } else {
      assert fuel > 0 && JoinAbove(nodes, schema, x.parent, fuel - 1) == JoinAbove(nodes, schema, p, fuel);
      var d' := JoinAboveNearest(nodes, schema, x.parent, fuel - 1);
      d := d' + 1;
      UpShift(nodes, p, d');
      forall e | 0 <= e < d
        ensures Live(nodes, Up(nodes, p, e)) && !JoinSelection(schema, nodes[Up(nodes, p, e).index].content)
      {
        if e > 0 { UpShift(nodes, p, e - 1); }
      }
    }
  }

  /** Walking up `d + 1` steps from a live node is walking `d` steps from its parent. */
  lemma {:induction false} UpShift(nodes: Nodes, p: Ptr, d: nat)
    requires Live(nodes, p)
    ensures Up(nodes, p, d + 1) == Up(nodes, nodes[p.index].parent, d)
    decreases d
  {
    if d > 0 {
      UpShift(nodes, p, d - 1);
    }
  }

  /** `((Selection)node.Content).SwapOperators()` on node `j`. */
  function SwapAt(nodes: Nodes, j: nat): (r: Result<Nodes>)
    requires j < |nodes|
    ensures r.Success? ==> Keeps(nodes, r.value)
    ensures r.Success? <==> nodes[j].content.SelectionContent?
  {
    var c := nodes[j].content;
    if !c.SelectionContent? then Failure(CastFault(c))
    else Success(nodes[j := nodes[j].(content := SelectionContent(c.selection.SwapOperators()))])
  }

  /**
   * The case of a tree with one cartesian product: a selection that is the
   * right child of a set operator changes places with the operator's left
   * child, and the selection above the operator has the sides of its
   * conditions exchanged.  A selection hanging anywhere else stays.
   */
  function MoveLeft(nodes: Nodes, k: nat): (r: Result<Nodes>)
    requires k < |nodes|
    ensures r.Success? ==> Keeps(nodes, r.value)
  {
    var c :- Get(nodes, nodes[k].parent);
    if !c.content.SetOpContent? || c.right != Ref(k) then Success(nodes)
    else
      var ci := nodes[k].parent.index;
      var a := Relink(nodes, ci, RightField, c.left);
      var b := Relink(a, ci, LeftField, Ref(k));
      if !Live(b, b[ci].parent) then Failure(NullReference)
      else
        var r := SwapAt(b, b[ci].parent.index);
        if r.Success? then RewiresKeeps(nodes, b); KeepsChain(nodes, b, r.value); r else r
  }

  /**
   * The first two assignments of the case of several cartesians, with the
   * join nodes `lj` and `rj` above the join condition's left and right
   * relations: `lj` takes `rj`'s place as the left child of `rj`'s parent.
   */
  function Promote(nodes: Nodes, lj: nat, rj: nat): (r: Result<Nodes>)
    requires lj < |nodes| && rj < |nodes|
    ensures r.Success? ==> Rewires(nodes, r.value)
    ensures r.Success? <==> Live(nodes, nodes[rj].parent)
  {
    if !Live(nodes, nodes[rj].parent) then Failure(NullReference)
    else
      var n1 := Relink(nodes, nodes[rj].parent.index, LeftField, Ref(lj));
      var r := Relink(n1, lj, ParentField, n1[rj].parent);
      RewiresChain(nodes, n1, r);
      Success(r)
  }

  /**
   * The next three: `rj`'s left child moves its right child to the left and
   * takes the left relation `lrn` on the right, whose parent it becomes.
   */
  function Shift(nodes: Nodes, rj: nat, lrn: Ptr): (r: Result<Nodes>)
    requires rj < |nodes|
    ensures r.Success? ==> Rewires(nodes, r.value)
  {
    var t := nodes[rj].left;
    if !Live(nodes, t) then Failure(NullReference)
    else
      var n3 := Relink(nodes, t.index, LeftField, nodes[t.index].right);
      if !Live(n3, n3[rj].left) then Failure(NullReference)
      else
        var n4 := Relink(n3, n3[rj].left.index, RightField, lrn);
        if !Live(n4, lrn) then Failure(NullReference)
        else
          var r := Relink(n4, lrn.index, ParentField, n4[rj].left);
          RewiresChain(nodes, n3, n4); RewiresChain(nodes, n4, r);
          Success(r)
  }

  /** The first five assignments: `Promote`, then `Shift`. */
  function CrossRight(nodes: Nodes, lj: nat, rj: nat, lrn: Ptr): (r: Result<Nodes>)
    requires lj < |nodes| && rj < |nodes|
    ensures r.Success? ==> Rewires(nodes, r.value)
  {
    var a :- Promote(nodes, lj, rj);
    var r := Shift(a, rj, lrn);
    if r.Success? then RewiresChain(nodes, a, r.value); r else r
  }

  /**
   * The last three assignments: `lj`'s left child moves its left child to
   * the right and takes `rj` on the left, and `rj`'s parent becomes that
   * child.
   */
  function CrossLeft(nodes: Nodes, lj: nat, rj: nat): (r: Result<Nodes>)
    requires lj < |nodes| && rj < |nodes|
    ensures r.Success? ==> Rewires(nodes, r.value)
  {
    var ll :- Get(nodes, nodes[lj].left);
    var n6 := Relink(nodes, nodes[lj].left.index, RightField, ll.left);
    var n7 :- Write(n6, n6[lj].left, LeftField, Ref(rj));
    Success(Relink(n7, rj, ParentField, n7[lj].left))
  }

  /**
   * The case of several cartesians: the first condition of the
   * grandparent's selection is taken as the join condition; the join nodes
   * above its two relations are found, the eight assignments exchange the
   * subtrees around them, and both have the sides of their conditions
   * exchanged.  A missing grandparent or relation throws, and so does a
   * grandparent that is not a selection or has no conditions.
   */
  function Interchange(nodes: Nodes, schema: seq<Relation>, rels: seq<Relation>, rs: seq<nat>, k: nat): (r: Result<Nodes>)
    requires k < |nodes|
    ensures r.Success? ==> Keeps(nodes, r.value)
  {
    var p :- Get(nodes, nodes[k].parent);
    var g :- Get(nodes, p.parent);
    if !g.content.SelectionContent? then Failure(CastFault(g.content))
    else if |g.content.selection.conditions| == 0 then Failure(NoElements)
    else
      var jc := g.content.selection.conditions[0];
      var lrn :- SideLookup(nodes, rels, jc.left, rs);
      var rrn :- SideLookup(nodes, rels, jc.right, rs);
      var lj :- ParentalJoin(nodes, schema, lrn, false);
      var rj :- ParentalJoin(nodes, schema, rrn, false);
      var a :- CrossRight(nodes, lj.index, rj.index, lrn);
      var b :- CrossLeft(a, lj.index, rj.index);
      var c :- SwapAt(b, rj.index);
      var r := SwapAt(c, lj.index);
      if r.Success? then
        RewiresChain(nodes, a, b); RewiresKeeps(nodes, b); KeepsChain(nodes, b, c); KeepsChain(nodes, c, r.value); r
      else r
  }

  /**
   * Rule 3 on one selection of the list, with the tree's relation nodes
   * `rs`: only a selection with a single condition that is not a join is
   * moved, by `MoveLeft` when the tree now holds exactly one cartesian
   * product and by `Interchange` otherwise.
   */
  function Reorder(nodes: Nodes, schema: seq<Relation>, rels: seq<Relation>, rs: seq<nat>, root: Ptr, k: nat): (r: Result<Nodes>)
    ensures r.Success? ==> Keeps(nodes, r.value)
  {
    if k >= |nodes| then Failure(NullReference)
    else if !nodes[k].content.SelectionContent? then Failure(CastFault(nodes[k].content))
    else
      var cs := nodes[k].content.selection.conditions;
      if |cs| != 1 || JoinCondition(schema, cs[0]) then Success(nodes)
      else
        var carts :- GetAllCartesianProductNodes(nodes, root);
        if |carts| == 1 then MoveLeft(nodes, k) else Interchange(nodes, schema, rels, rs, k)
  }

  /** The loop of `ApplyOptimizationRule3` from the `i`-th selection of the list `ks` on. */
  function ReorderAll(nodes: Nodes, schema: seq<Relation>, rels: seq<Relation>, rs: seq<nat>, root: Ptr, ks: seq<nat>, i: nat): (r: Result<Nodes>)
    requires i <= |ks|
    ensures r.Success? ==> Keeps(nodes, r.value)
    decreases |ks| - i
  {
    if i == |ks| then Success(nodes)
    else
      var next :- Reorder(nodes, schema, rels, rs, root, ks[i]);
      var r := ReorderAll(next, schema, rels, rs, root, ks, i + 1);
      if r.Success? then KeepsChain(nodes, next, r.value); r else r
  }

  /**
   * `ApplyOptimizationRule3(root)`: the relation and selection nodes of the
   * tree are listed first, in pre-order; each selection is then moved in
   * turn.  The rule moves references and exchanges condition sides only.
   */
  function Rule3(nodes: Nodes, schema: seq<Relation>, rels: seq<Relation>, root: Ptr): (r: Result<Nodes>)
    ensures r.Success? ==> Keeps(nodes, r.value)
  {
    var all :- GetNodesList(nodes, root);
    ReorderAll(nodes, schema, rels, Filter(nodes, all, RelationKind, Null), root, Filter(nodes, all, SelectionKind, Null), 0)
  }

  /** A selection whose conditions are not exactly one non-join condition is not moved. */
  lemma ReorderSkips(nodes: Nodes, schema: seq<Relation>, rels: seq<Relation>, rs: seq<nat>, root: Ptr, k: nat)
    requires k < |nodes| && nodes[k].content.SelectionContent?
    requires var cs := nodes[k].content.selection.conditions; |cs| != 1 || JoinCondition(schema, cs[0])
    ensures Reorder(nodes, schema, rels, rs, root, k) == Success(nodes)
  {
  }

  /**
   * With one cartesian product in the tree, a non-join selection that is the
   * right child of a set operator `c`, below a selection `g`, becomes `c`'s
   * left child; `c`'s former left child becomes its right child, and `g`'s
   * conditions have their sides exchanged.  Nothing else changes, not even
   * the `Parent` links of the two children.
   */
  lemma MoveLeftShape(nodes: Nodes, schema: seq<Relation>, rels: seq<Relation>, rs: seq<nat>, root: Ptr, k: nat)
    requires k < |nodes| && nodes[k].content.SelectionContent?
    requires var cs := nodes[k].content.selection.conditions; |cs| == 1 && !JoinCondition(schema, cs[0])
    requires GetAllCartesianProductNodes(nodes, root).Success? && |GetAllCartesianProductNodes(nodes, root).value| == 1
    requires Live(nodes, nodes[k].parent)
    requires var c := nodes[nodes[k].parent.index]; c.content.SetOpContent? && c.right == Ref(k) && Live(nodes, c.parent)
    requires var ci := nodes[k].parent.index; var g := nodes[ci].parent.index;
      g != ci && nodes[g].content.SelectionContent?
    ensures var ci := nodes[k].parent.index; var c := nodes[ci]; var g := c.parent.index;
      Reorder(nodes, schema, rels, rs, root, k) == Success(
        nodes[ci := c.(left := Ref(k), right := c.left)][g := nodes[g].(content := SelectionContent(nodes[g].content.selection.SwapOperators()))])
  {
    var ci := nodes[k].parent.index;
    var c := nodes[ci];
    var a := Relink(nodes, ci, RightField, c.left);
    var b := Relink(a, ci, LeftField, Ref(k));
    assert b == nodes[ci := c.(left := Ref(k), right := c.left)];
  }

  /** With one cartesian product, a non-join selection that is not the right child of a set operator stays. */
  lemma MoveLeftStays(nodes: Nodes, schema: seq<Relation>, rels: seq<Relation>, rs: seq<nat>, root: Ptr, k: nat)
    requires k < |nodes| && nodes[k].content.SelectionContent?
    requires var cs := nodes[k].content.selection.conditions; |cs| == 1 && !JoinCondition(schema, cs[0])
    requires GetAllCartesianProductNodes(nodes, root).Success? && |GetAllCartesianProductNodes(nodes, root).value| == 1
    requires Live(nodes, nodes[k].parent)
    requires var c := nodes[nodes[k].parent.index]; !c.content.SetOpContent? || c.right != Ref(k)
    ensures Reorder(nodes, schema, rels, rs, root, k) == Success(nodes)
  {
  }

  // ---------------------------------------------------------------- rule 4: every cartesian replaced

  /**
   * Rule 4 on one cartesian of the list: the parent is cast to a selection
   * unconditionally, so a parent that is not one throws; otherwise the
   * cartesian is replaced by a join exactly as in the current rule 4.
   */
  function Replace(nodes: Nodes, k: nat): (r: Result<Nodes>)
    ensures r.Success? ==> Extends(nodes, r.value)
  {
    var x :- Get(nodes, Ref(k));
    var p :- Get(nodes, x.parent);
    if !p.content.SelectionContent? then Failure(CastFault(p.content))
    else JoinIntroduction.Fuse(nodes, k)
  }

  /** The loop of `ApplyOptimizationRule4` from the `i`-th cartesian of the list `ks` on. */
  function ReplaceAll(nodes: Nodes, ks: seq<nat>, i: nat): (r: Result<Nodes>)
    requires i <= |ks|
    ensures r.Success? ==> Extends(nodes, r.value)
    decreases |ks| - i
  {
    if i == |ks| then Success(nodes)
    else
      var next :- Replace(nodes, ks[i]);
      var r := ReplaceAll(next, ks, i + 1);
      if r.Success? then ExtendsChain(nodes, next, r.value); r else r
  }

  /** `ApplyOptimizationRule4(root)`: every cartesian product of the tree, in pre-order, as listed before the rule began. */
  function Rule4(nodes: Nodes, root: Ptr): (r: Result<Nodes>)
    ensures r.Success? ==> Extends(nodes, r.value)
  {
    var ks :- GetAllCartesianProductNodes(nodes, root);
    ReplaceAll(nodes, ks, 0)
  }

  /**
   * Under a selection the legacy and the current rule 4 agree; under
   * anything else the legacy one throws where the current one leaves the
   * cartesian alone.
   */
  lemma ReplaceAgrees(nodes: Nodes, k: nat)
    requires k < |nodes| && Live(nodes, nodes[k].parent)
    ensures var p := nodes[nodes[k].parent.index];
      if p.content.SelectionContent? then Replace(nodes, k) == JoinIntroduction.Fuse(nodes, k)
      else Replace(nodes, k) == Failure(CastFault(p.content)) && JoinIntroduction.Fuse(nodes, k) == Success(nodes)
  {
    if !nodes[nodes[k].parent.index].content.SelectionContent? {
      JoinIntroduction.FuseSkips(nodes, k);
    }
  }
}
