/**
 * `QoOptimizer.Optimize`: the five rules applied in order to a query tree,
 * a snapshot of the tree stored in the package after each one, and the
 * message of the first exception stored as the package's error.  A tree
 * whose root is a set operator has each rule applied to the root's left
 * child and then to its right child; any other tree has each rule applied
 * to the root, and after rule 2 the root is the one rule 2 returns.
 */
module Optimization {
  import opened Wrappers
  import opened QueryModel
  import opened Statements
  import opened Heap
  import opened Rewrites
  import SelectionCascade
  import SelectionPushdown
  import WeightOrdering
  import JoinIntroduction
  import ProjectionInsertion
  import Schemas

  /**
   * Rule `n` applied to the subtree at `root`, with the root it leaves: the
   * same root for every rule but rule 2.  Set-operator recursion in rules 2
   * and 3 is bounded by the size of the arena.
   */
  function RuleOn(n: nat, nodes: Nodes, schema: seq<Relation>, rels: seq<Relation>, root: Ptr): (r: Result<(Nodes, Ptr)>)
    requires 1 <= n <= 5
    ensures r.Success? ==> Extends(nodes, r.value.0)
  {
    if n == 1 then
      var h :- SelectionCascade.Rule1(nodes, root);
      SelectionCascade.Rule1Adds(nodes, root);
      Success((h, root))
    else if n == 2 then SelectionPushdown.Rule2(nodes, schema, rels, root, |nodes|)
    else if n == 3 then
      var h :- WeightOrdering.Rule3(nodes, root, |nodes|);
      Success((h, root))
    else if n == 4 then
      var h :- JoinIntroduction.Rule4(nodes, root);
      Success((h, root))
    else
      var h :- ProjectionInsertion.Rule5(nodes, root, rels, false);
      Success((h, root))
  }

  /**
   * One block of `Optimize` before its snapshot: for a set-operator root the
   * rule on its left child and then on its right child (read after the left
   * one is done), the root staying; otherwise the rule on the root.
   */
  function Step(n: nat, nodes: Nodes, schema: seq<Relation>, rels: seq<Relation>, tree: nat, setOp: bool): (r: Result<(Nodes, Ptr)>)
    requires 1 <= n <= 5 && tree < |nodes|
    ensures r.Success? ==> Extends(nodes, r.value.0)
    ensures r.Success? && setOp ==> r.value.1 == Ref(tree)
  {
    if setOp then
      var a :- RuleOn(n, nodes, schema, rels, nodes[tree].left);
      var b :- RuleOn(n, a.0, schema, rels, a.0[tree].right);
      ExtendsChain(nodes, a.0, b.0);
      Success((b.0, Ref(tree)))
    else RuleOn(n, nodes, schema, rels, Ref(tree))
  }

  /**
   * What a run leaves: the snapshots stored, in rule order; the exception
   * that ended it, if any; the arena after the last block that completed.
   */
  datatype Report = Report(snapshots: seq<CleanNode>, fault: Option<Fault>, arena: Nodes)

  /**
   * The blocks of `Optimize` from rule `n` on, with the snapshots `snaps`
   * already stored: each rule is followed by a snapshot of the tree, and the
   * first exception, from either, ends the run.
   */
  function Steps(n: nat, nodes: Nodes, schema: seq<Relation>, rels: seq<Relation>, tree: Ptr, setOp: bool, snaps: seq<CleanNode>): (r: Report)
    requires 1 <= n <= 6
    ensures |snaps| <= |r.snapshots| <= |snaps| + 6 - n && r.snapshots[..|snaps|] == snaps
    ensures r.fault.None? <==> |r.snapshots| == |snaps| + 6 - n
    ensures Extends(nodes, r.arena)
    decreases 6 - n
  {
    if n == 6 then Report(snaps, None, nodes)
    else if !Live(nodes, tree) then Report(snaps, Some(NullReference), nodes)
    else
      match Step(n, nodes, schema, rels, tree.index, setOp)
      case Failure(e) => Report(snaps, Some(e), nodes)
      case Success(done) =>
        match GetCleanNode(done.0, done.1, rels)
        case Failure(e) => Report(snaps, Some(e), done.0)
        case Success(c) =>
          var r := Steps(n + 1, done.0, schema, rels, done.1, setOp, snaps + [c]);
          assert r.snapshots[..|snaps|] == (snaps + [c])[..|snaps|] == snaps by {
            assert r.snapshots[..|snaps|] == r.snapshots[..|snaps| + 1][..|snaps|];
          }
          ExtendsChain(nodes, done.0, r.arena);
          r
  }

  /** `Optimize` on the tree at `tree`: a null tree throws before the first rule. */
  function Optimized(nodes: Nodes, tree: Ptr, schema: seq<Relation>, rels: seq<Relation>): (r: Report)
    ensures |r.snapshots| <= 5
    ensures r.fault.None? <==> |r.snapshots| == 5
    ensures !Live(nodes, tree) ==> r == Report([], Some(NullReference), nodes)
    ensures Extends(nodes, r.arena)
  {
    Steps(1, nodes, schema, rels, tree, Live(nodes, tree) && nodes[tree.index].content.SetOpContent?, [])
  }

  /** Every snapshot in `snaps` shows the set operator `op` at the top: its glyph and no subscript. */
  predicate OperatorSnapshots(snaps: seq<CleanNode>, op: SetOperator)
  {
    forall i :: 0 <= i < |snaps| ==> snaps[i].name == Named(SetOperatorGlyph(op)) && snaps[i].subscript == NoSubscript
  }

  /** The snapshot of a set-operator node shows that operator at the top. */
  lemma OperatorSnapshot(nodes: Nodes, t: nat, rels: seq<Relation>, op: SetOperator)
    requires t < |nodes| && nodes[t].content == SetOpContent(op) && GetCleanNode(nodes, Ref(t), rels).Success?
    ensures OperatorSnapshots([GetCleanNode(nodes, Ref(t), rels).value], op)
  {
    assert CleanLabel(nodes[t].content, rels) == Success((Named(SetOperatorGlyph(op)), NoSubscript));
  }

  /** Storing one more operator snapshot keeps every snapshot an operator snapshot. */
  lemma OperatorSnapshotsAppend(snaps: seq<CleanNode>, c: CleanNode, op: SetOperator)
    requires OperatorSnapshots(snaps, op) && OperatorSnapshots([c], op)
    ensures OperatorSnapshots(snaps + [c], op)
  {
    var more := snaps + [c];
    forall i | 0 <= i < |more|
      ensures more[i].name == Named(SetOperatorGlyph(op)) && more[i].subscript == NoSubscript
    {
      if i < |snaps| { assert more[i] == snaps[i]; } else { assert more[i] == [c][0]; }
    }
  }

  /** A block on a live tree that completes with its snapshot leaves the run to the next rule. */
  lemma StepsContinue(n: nat, nodes: Nodes, schema: seq<Relation>, rels: seq<Relation>, tree: Ptr, setOp: bool, snaps: seq<CleanNode>,
                      done: (Nodes, Ptr), c: CleanNode)
    requires 1 <= n < 6 && Live(nodes, tree)
    requires Step(n, nodes, schema, rels, tree.index, setOp) == Success(done)
    requires GetCleanNode(done.0, done.1, rels) == Success(c)
    ensures Steps(n, nodes, schema, rels, tree, setOp, snaps) == Steps(n + 1, done.0, schema, rels, done.1, setOp, snaps + [c])
  {
  }

  /** A block that fails, or whose snapshot fails, stores nothing more. */
  lemma StepsStop(n: nat, nodes: Nodes, schema: seq<Relation>, rels: seq<Relation>, tree: Ptr, setOp: bool, snaps: seq<CleanNode>)
    requires 1 <= n < 6 && Live(nodes, tree)
    requires var s := Step(n, nodes, schema, rels, tree.index, setOp);
      s.Failure? || GetCleanNode(s.value.0, s.value.1, rels).Failure?
    ensures Steps(n, nodes, schema, rels, tree, setOp, snaps).snapshots == snaps
  {
  }

  /** A run whose tree is null throws before the block for rule `n`. */
  lemma StepsDead(n: nat, nodes: Nodes, schema: seq<Relation>, rels: seq<Relation>, tree: Ptr, setOp: bool, snaps: seq<CleanNode>)
    requires 1 <= n < 6 && !Live(nodes, tree)
    ensures Steps(n, nodes, schema, rels, tree, setOp, snaps) == Report(snaps, Some(NullReference), nodes)
  {
  }

  /** A block whose rule throws ends the run with that exception and the arena as it was. */
  lemma StepsFails(n: nat, nodes: Nodes, schema: seq<Relation>, rels: seq<Relation>, tree: Ptr, setOp: bool, snaps: seq<CleanNode>, e: Fault)
    requires 1 <= n < 6 && Live(nodes, tree)
    requires Step(n, nodes, schema, rels, tree.index, setOp) == Failure(e)
    ensures Steps(n, nodes, schema, rels, tree, setOp, snaps) == Report(snaps, Some(e), nodes)
  {
  }

  /** A block whose snapshot throws ends the run with that exception and the arena the rule left. */
  lemma StepsSnapFails(n: nat, nodes: Nodes, schema: seq<Relation>, rels: seq<Relation>, tree: Ptr, setOp: bool, snaps: seq<CleanNode>,
                       done: (Nodes, Ptr), e: Fault)
    requires 1 <= n < 6 && Live(nodes, tree)
    requires Step(n, nodes, schema, rels, tree.index, setOp) == Success(done)
    requires GetCleanNode(done.0, done.1, rels) == Failure(e)
    ensures Steps(n, nodes, schema, rels, tree, setOp, snaps) == Report(snaps, Some(e), done.0)
  {
  }

  /** After the block for rule 5 the run ends with no exception. */
  lemma StepsDone(nodes: Nodes, schema: seq<Relation>, rels: seq<Relation>, tree: Ptr, setOp: bool, snaps: seq<CleanNode>)
    ensures Steps(6, nodes, schema, rels, tree, setOp, snaps) == Report(snaps, None, nodes)
  {
  }

  /**
   * Under a set-operator root every snapshot is a snapshot of that root:
   * it is named by the operator's glyph and has no subscript.
   */
  lemma SetOpRootStays(n: nat, nodes: Nodes, schema: seq<Relation>, rels: seq<Relation>, t: nat, op: SetOperator, snaps: seq<CleanNode>)
    requires 1 <= n <= 6 && t < |nodes| && nodes[t].content == SetOpContent(op)
    requires OperatorSnapshots(snaps, op)
    ensures OperatorSnapshots(Steps(n, nodes, schema, rels, Ref(t), true, snaps).snapshots, op)
  {
    var k, cur, stored, going := n, nodes, snaps, true;
    while going && k < 6
      invariant n <= k <= 6 && t < |cur| && cur[t].content == SetOpContent(op) && OperatorSnapshots(stored, op)
      invariant going ==> Steps(n, nodes, schema, rels, Ref(t), true, snaps) == Steps(k, cur, schema, rels, Ref(t), true, stored)
      invariant !going ==> Steps(n, nodes, schema, rels, Ref(t), true, snaps).snapshots == stored
      decreases 6 - k, going
    {
      var g, next, c := SetOpRound(k, cur, schema, rels, t, op, stored);
      if g {
        k, cur, stored := k + 1, next, stored + [c];
      } else {
        going := false;
      }
    }
    if going {
      StepsDone(cur, schema, rels, Ref(t), true, stored);
    }
  }

  /**
   * The block for rule `n` on a set-operator root: either the run stores
   * nothing more, or it goes on from a tree with the same root having
   * stored one more operator snapshot.
   */
  lemma SetOpRound(n: nat, nodes: Nodes, schema: seq<Relation>, rels: seq<Relation>, t: nat, op: SetOperator, snaps: seq<CleanNode>)
      returns (going: bool, next: Nodes, c: CleanNode)
    requires 1 <= n < 6 && t < |nodes| && nodes[t].content == SetOpContent(op)
    requires OperatorSnapshots(snaps, op)
    ensures !going ==> Steps(n, nodes, schema, rels, Ref(t), true, snaps).snapshots == snaps
    ensures going ==> t < |next| && next[t].content == SetOpContent(op) && OperatorSnapshots(snaps + [c], op)
    ensures going ==> Steps(n, nodes, schema, rels, Ref(t), true, snaps) == Steps(n + 1, next, schema, rels, Ref(t), true, snaps + [c])
  {
    var s := Step(n, nodes, schema, rels, t, true);
    going := s.Success? && GetCleanNode(s.value.0, s.value.1, rels).Success?;
    if going {
      var done := s.value;
      c := GetCleanNode(done.0, done.1, rels).value;
      next := done.0;
      SetOpStepped(n, nodes, schema, rels, t, op, snaps, done, c);
      StepsContinue(n, nodes, schema, rels, Ref(t), true, snaps, done, c);
    } else {
      next := nodes;
      c := CleanNode(Unnamed, None, NoSubscript, []);
      StepsStop(n, nodes, schema, rels, Ref(t), true, snaps);
    }
  }

  /** A block on a set-operator root keeps that root and adds an operator snapshot. */
  lemma SetOpStepped(n: nat, nodes: Nodes, schema: seq<Relation>, rels: seq<Relation>, t: nat, op: SetOperator, snaps: seq<CleanNode>,
                     done: (Nodes, Ptr), c: CleanNode)
    requires 1 <= n < 6 && t < |nodes| && nodes[t].content == SetOpContent(op)
    requires OperatorSnapshots(snaps, op)
    requires Step(n, nodes, schema, rels, t, true) == Success(done)
    requires GetCleanNode(done.0, done.1, rels) == Success(c)
    ensures done.1 == Ref(t) && t < |done.0| && done.0[t].content == SetOpContent(op)
    ensures OperatorSnapshots(snaps + [c], op)
  {
    assert done.1 == Ref(t) && done.0[t].content == nodes[t].content;
    OperatorSnapshot(done.0, t, rels, op);
    OperatorSnapshotsAppend(snaps, c, op);
  }

  /** A run on a set-operator root: every snapshot it stores shows that operator at the top. */
  lemma SetOpSnapshots(nodes: Nodes, t: nat, schema: seq<Relation>, rels: seq<Relation>)
    requires t < |nodes| && nodes[t].content.SetOpContent?
    ensures OperatorSnapshots(Optimized(nodes, Ref(t), schema, rels).snapshots, nodes[t].content.op)
  {
    assert Optimized(nodes, Ref(t), schema, rels) == Steps(1, nodes, schema, rels, Ref(t), true, []);
    SetOpRootStays(1, nodes, schema, rels, t, nodes[t].content.op, []);
  }

  // ---------------------------------------------------------------- the package

  /** `QoPackage`: the tree handed to the optimizer and what the run leaves for the caller. */
  class QoPackage {
    var tree: Ptr
    var success: bool
    var error: Option<string>
    var relationalAlgebra: Option<string>
    var initialTree: Option<CleanNode>
    var optimization1: Option<CleanNode>
    var optimization2: Option<CleanNode>
    var optimization3: Option<CleanNode>
    var optimization4: Option<CleanNode>
    var optimization5: Option<CleanNode>

    /** A package holding `tree`; every other property has its default. */
    constructor (tree: Ptr)
      ensures this.tree == tree && !success && error == None && relationalAlgebra == None && initialTree == None
      ensures optimization1 == None && optimization2 == None && optimization3 == None
      ensures optimization4 == None && optimization5 == None
    {
      this.tree := tree;
      success := false;
      error := None;
      relationalAlgebra := None;
      initialTree := None;
      optimization1, optimization2, optimization3, optimization4, optimization5 := None, None, None, None, None;
    }

    /** `Optimization1` to `Optimization5`, in order. */
    function Slots(): (r: seq<Option<CleanNode>>)
      reads this
      ensures |r| == 5
    {
      [optimization1, optimization2, optimization3, optimization4, optimization5]
    }

    /** Stores snapshot `c` as the package's optimisation `n`. */
    method SetOptimization(n: nat, c: CleanNode)
      requires 1 <= n <= 5
      modifies this
      ensures Slots() == old(Slots())[n - 1 := Some(c)]
      ensures tree == old(tree) && success == old(success) && error == old(error)
      ensures relationalAlgebra == old(relationalAlgebra) && initialTree == old(initialTree)
    {
      if n == 1 { optimization1 := Some(c); }
      else if n == 2 { optimization2 := Some(c); }
      else if n == 3 { optimization3 := Some(c); }
      else if n == 4 { optimization4 := Some(c); }
      else { optimization5 := Some(c); }
    }
  }

  /** The slots after a run that stored `snaps`: those first, the rest as they were in `before`. */
  function Stored(snaps: seq<CleanNode>, before: seq<Option<CleanNode>>): (r: seq<Option<CleanNode>>)
    requires |snaps| <= |before|
    ensures |r| == |before|
    ensures forall m :: 0 <= m < |snaps| ==> r[m] == Some(snaps[m])
    ensures forall m :: |snaps| <= m < |before| ==> r[m] == before[m]
    decreases |snaps|
  {
    if |snaps| == 0 then before else [Some(snaps[0])] + Stored(snaps[1..], before[1..])
  }

  /** Storing one more snapshot is a single slot assignment. */
  lemma StoredNext(snaps: seq<CleanNode>, c: CleanNode, before: seq<Option<CleanNode>>)
    requires |snaps| < |before|
    ensures Stored(snaps + [c], before) == Stored(snaps, before)[|snaps| := Some(c)]
  {
    var x := Stored(snaps + [c], before);
    var s := Stored(snaps, before);
    var y := s[|snaps| := Some(c)];
    forall m | 0 <= m < |before| ensures x[m] == y[m] {
      if m < |snaps| {
        assert (snaps + [c])[m] == snaps[m];
        assert x[m] == Some(snaps[m]) && s[m] == Some(snaps[m]);
      } else if m == |snaps| {
        assert (snaps + [c])[m] == c;
      } else {
        assert x[m] == before[m] && s[m] == before[m];
      }
    }
    assert |x| == |y|;
  }

  // ---------------------------------------------------------------- the optimizer

  /** `QoOptimizer`: the schema whose keys decide which conditions are joins. */
  class QoOptimizer {
    const schema: seq<Relation>

    /** `new QoOptimizer(schema)`. */
    constructor (schema: seq<Relation>)
      ensures this.schema == schema
    {
      this.schema := schema;
    }

    /** `new QoOptimizer()`: the sailors, boats and reserves schema. */
    constructor Default()
      ensures schema == Schemas.GetSchema1()
      ensures |schema| == 3 && schema[0].name == "sailors"
    {
      schema := Schemas.GetSchema1();
    }

    /**
     * One block of `Optimize`: rule `n` on the tree, then its snapshot
     * stored in the package.  An exception from either is stored as the
     * package's error and `ok` is false.
     */
    method Advance(package: QoPackage, heap: NodeHeap, rels: seq<Relation>, n: nat, tree: Ptr, setOp: bool,
                   ghost snaps: seq<CleanNode>, ghost before: seq<Option<CleanNode>>, ghost r: Report)
      returns (ok: bool, newTree: Ptr, ghost after: seq<CleanNode>)
      requires heap.Valid() && 1 <= n <= 5 && |snaps| == n - 1 && |before| == 5
      requires package.Slots() == Stored(snaps, before)
      requires r == Steps(n, heap.nodes, schema, rels, tree, setOp, snaps)
      modifies package, heap
      ensures heap.Valid()
      ensures if ok then
          |after| == n && package.Slots() == Stored(after, before) && package.error == old(package.error)
          && r == Steps(n + 1, heap.nodes, schema, rels, newTree, setOp, after)
        else
          package.Slots() == Stored(r.snapshots, before)
          && r.fault.Some? && package.error == Some(Message(r.fault.value))
      ensures package.tree == old(package.tree) && package.success == old(package.success)
      ensures package.relationalAlgebra == old(package.relationalAlgebra) && package.initialTree == old(package.initialTree)
    {
      newTree, after := tree, snaps;
      if !Live(heap.nodes, tree) {
        StepsDead(n, heap.nodes, schema, rels, tree, setOp, snaps);
        package.error := Some(Message(NullReference));
        return false, tree, snaps;
      }
      ghost var start := heap.nodes;
      var o: Outcome;
      o, newTree := RunStep(heap, rels, n, tree, setOp);
      if o.Fail? {
        StepsFails(n, start, schema, rels, tree, setOp, snaps, o.error);
        package.error := Some(Message(o.error));
        return false, tree, snaps;
      }
      ghost var done := (heap.nodes, newTree);
      var snap := GetCleanNode(heap.nodes, newTree, rels);
      if snap.Failure? {
        StepsSnapFails(n, start, schema, rels, tree, setOp, snaps, done, snap.error);
        package.error := Some(Message(snap.error));
        return false, tree, snaps;
      }
      StepsContinue(n, start, schema, rels, tree, setOp, snaps, done, snap.value);
      StoredNext(snaps, snap.value, before);
      package.SetOptimization(n, snap.value);
      return true, newTree, snaps + [snap.value];
    }

    /** The rule of one block on a live tree: on both children of a set-operator root, else on the root. */
    method RunStep(heap: NodeHeap, rels: seq<Relation>, n: nat, tree: Ptr, setOp: bool) returns (o: Outcome, newTree: Ptr)
      requires heap.Valid() && 1 <= n <= 5 && Live(heap.nodes, tree)
      modifies heap
      ensures heap.Valid()
      ensures SelectionPushdown.Yields(o, Step(n, old(heap.nodes), schema, rels, tree.index, setOp), heap.nodes, newTree)
    {
      newTree := tree;
      if setOp {
        o := ApplyRule(heap, rels, n, heap.nodes[tree.index].left);
        if o.Pass? {
          o := ApplyRule(heap, rels, n, heap.nodes[tree.index].right);
        }
      } else {
        o, newTree := ApplyRuleAt(heap, rels, n, tree);
      }
    }

    /** `ApplyRuleN(child)` for a child of a set-operator root; rule 2's returned root is dropped. */
    method ApplyRule(heap: NodeHeap, rels: seq<Relation>, n: nat, root: Ptr) returns (o: Outcome)
      requires heap.Valid() && 1 <= n <= 5
      modifies heap
      ensures heap.Valid()
      ensures o.Pass? <==> RuleOn(n, old(heap.nodes), schema, rels, root).Success?
      ensures o.Pass? ==> heap.nodes == RuleOn(n, old(heap.nodes), schema, rels, root).value.0
      ensures o.Fail? ==> o.error == RuleOn(n, old(heap.nodes), schema, rels, root).error
    {
      var dropped: Ptr;
      o, dropped := ApplyRuleAt(heap, rels, n, root);
    }

    /** `ApplyRuleN(root)`, with the root the rule leaves. */
    method ApplyRuleAt(heap: NodeHeap, rels: seq<Relation>, n: nat, root: Ptr) returns (o: Outcome, newRoot: Ptr)
      requires heap.Valid() && 1 <= n <= 5
      modifies heap
      ensures heap.Valid()
      ensures SelectionPushdown.Yields(o, RuleOn(n, old(heap.nodes), schema, rels, root), heap.nodes, newRoot)
    {
      newRoot := root;
      if n == 1 {
        o := SelectionCascade.ApplyRule1(heap, root);
      } else if n == 2 {
        o, newRoot := SelectionPushdown.ApplyRule2(heap, schema, rels, root, |heap.nodes|);
      } else if n == 3 {
        o := WeightOrdering.ApplyRule3(heap, root, |heap.nodes|);
      } else if n == 4 {
        o := JoinIntroduction.ApplyRule4(heap, root);
      } else {
        o := ProjectionInsertion.ApplyRule5(heap, root, rels, false);
      }
    }

    /**
     * `Optimize(package)`: the blocks for rules 1 to 5 in order; the
     * package ends holding the snapshots of the blocks that completed and,
     * when one threw, that exception's message.  With no exception the
     * arena is the one the rules leave.  Rule 6 does nothing.
     */
    method Optimize(package: QoPackage, heap: NodeHeap, rels: seq<Relation>)
      requires heap.Valid()
      modifies package, heap
      ensures heap.Valid()
      ensures var r := Optimized(old(heap.nodes), old(package.tree), schema, rels);
        package.Slots() == Stored(r.snapshots, old(package.Slots()))
        && package.error == (if r.fault.Some? then Some(Message(r.fault.value)) else old(package.error))
        && (r.fault.None? ==> heap.nodes == r.arena)
      ensures package.tree == old(package.tree) && package.success == old(package.success)
      ensures package.relationalAlgebra == old(package.relationalAlgebra) && package.initialTree == old(package.initialTree)
    {
      ghost var r := Optimized(heap.nodes, package.tree, schema, rels);
      var tree := package.tree;
      if !Live(heap.nodes, tree) {
        package.error := Some(Message(NullReference));
        assert Stored([], old(package.Slots())) == old(package.Slots());
        return;
      }
      var setOp := heap.nodes[tree.index].content.SetOpContent?;
      ghost var before := package.Slots();
      ghost var snaps: seq<CleanNode> := [];
      var ok := true;
      var n := 1;
      // The five blocks of the source, rule 1 to rule 5, one per round.
      while ok && n < 6
        invariant 1 <= n <= 6 && heap.Valid()
        invariant ok ==> |snaps| == n - 1 && package.Slots() == Stored(snaps, before) && package.error == old(package.error)
        invariant ok ==> r == Steps(n, heap.nodes, schema, rels, tree, setOp, snaps)
        invariant !ok ==> package.Slots() == Stored(r.snapshots, before) && r.fault.Some? && package.error == Some(Message(r.fault.value))
        invariant package.tree == old(package.tree) && package.success == old(package.success)
        invariant package.relationalAlgebra == old(package.relationalAlgebra) && package.initialTree == old(package.initialTree)
        decreases 6 - n
      {
        ok, tree, snaps := Advance(package, heap, rels, n, tree, setOp, snaps, before, r);
        n := n + 1;
      }
      if ok {
        StepsDone(heap.nodes, schema, rels, tree, setOp, snaps);
      }
    }
  }
}
