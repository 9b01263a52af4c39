/**
 * The rewiring helpers the optimizer rules share: inserting a node above
 * another (`InsertNodeAboveLeftChild`, `InsertNodeAboveRightChild`) and
 * ordering a node's children by restrictive weight (`SwapOnRank`).  Each is
 * a method on the arena proved against a function that performs the same
 * assignments on a value; the lemmas say what the rewiring achieves.
 */
module Rewrites {
  import opened Wrappers
  import opened Heap
  import opened TreeQueries
  import opened OptimizerHelpers

  // ---------------------------------------------------------------- specifications of state changes

  /**
   * A method ended as the specification says: it passed exactly when the
   * specification succeeds, leaving the arena it gives, or it threw the
   * same exception.  The arena after an exception is not stated (the C#
   * leaves the assignments made before the throw in place).
   */
  predicate Follows(o: Outcome, spec: Result<Nodes>, after: Nodes)
  {
    (o.Pass? <==> spec.Success?)
    && (o.Pass? ==> after == spec.value)
    && (o.Fail? ==> spec.Failure? && o.error == spec.error)
  }

  /**
   * The rewrites only move references and create nodes: every node present
   * before keeps its id and its content, and new nodes go at the end.
   */
  predicate Extends(before: Nodes, after: Nodes)
  {
    |before| <= |after|
    && forall j :: 0 <= j < |before| ==> after[j].id == before[j].id && after[j].content == before[j].content
  }

  lemma ExtendsChain(a: Nodes, b: Nodes, c: Nodes)
    requires Extends(a, b) && Extends(b, c)
    ensures Extends(a, c)
  {
  }

  lemma WriteExtends(nodes: Nodes, p: Ptr, field: Field, q: Ptr)
    requires Write(nodes, p, field, q).Success?
    ensures Extends(nodes, Write(nodes, p, field, q).value)
  {
  }

  lemma AllocExtends(nodes: Nodes, c: Content, parent: Ptr, left: Ptr, right: Ptr)
    ensures Extends(nodes, Alloc(nodes, c, parent, left, right))
  {
  }

  /** Only references moved: the same nodes, with the same ids and contents. */
  predicate Rewires(before: Nodes, after: Nodes)
  {
    |after| == |before| && Extends(before, after)
  }

  lemma RewiresChain(a: Nodes, b: Nodes, c: Nodes)
    requires Rewires(a, b) && Rewires(b, c)
    ensures Rewires(a, c)
  {
  }

  /** One reference of a node known to exist replaced. */
  function Relink(nodes: Nodes, i: nat, field: Field, q: Ptr): (r: Nodes)
    requires i < |nodes|
    ensures Rewires(nodes, r) && r == nodes[i := Rewire(nodes[i], field, q)]
  {
    nodes[i := Rewire(nodes[i], field, q)]
  }

  // ---------------------------------------------------------------- InsertNodeAbove{Left,Right}Child

  /**
   * `InsertNodeAboveLeftChild` (`side` is the left field) and
   * `InsertNodeAboveRightChild` (the right field): `node` takes `location`
   * as its left child and `location`'s parent as its own parent, becomes
   * that parent's child on `side`, and becomes `location`'s parent.  Each
   * assignment reads the references as the previous ones left them.  A null
   * `node`, `location` or parent of `location` throws.
   */
  function InsertAbove(nodes: Nodes, location: Ptr, node: Ptr, side: Field): (r: Result<Nodes>)
    ensures r.Success? <==> Live(nodes, node) && Live(nodes, location) && Live(nodes, nodes[location.index].parent)
    ensures r.Failure? ==> r.error == NullReference
    ensures r.Success? ==> Extends(nodes, r.value) && |r.value| == |nodes|
  {
    var n1 :- Write(nodes, node, LeftField, location);
    var loc :- Get(n1, location);
    var n2 := n1[node.index := n1[node.index].(parent := loc.parent)];
    var n3 :- Write(n2, loc.parent, side, node);
    Write(n3, n3[node.index].left, ParentField, node)
  }

  /**
   * When `location`, `node` and the parent are three different nodes, the
   * insertion changes exactly three nodes: `node` hangs from the parent
   * with `location` as its left child, the parent holds `node` on `side`,
   * and `location` points up to `node`.
   */
  lemma InsertAboveShape(nodes: Nodes, l: nat, k: nat, side: Field)
    requires l < |nodes| && k < |nodes| && l != k && side != ParentField
    requires Live(nodes, nodes[l].parent) && nodes[l].parent != Ref(k) && nodes[l].parent != Ref(l)
    ensures var p := nodes[l].parent.index;
      InsertAbove(nodes, Ref(l), Ref(k), side) == Success(
        nodes[k := nodes[k].(parent := Ref(p), left := Ref(l))]
             [p := Rewire(nodes[p], side, Ref(k))]
             [l := nodes[l].(parent := Ref(k))])
  {
    var p := nodes[l].parent.index;
    var n1 := nodes[k := nodes[k].(left := Ref(l))];
    assert Write(nodes, Ref(k), LeftField, Ref(l)) == Success(n1);
    assert n1[l] == nodes[l];
    var n2 := n1[k := n1[k].(parent := Ref(p))];
    assert Write(n1, Ref(k), ParentField, Ref(p)) == Success(n2);
    var n3 := n2[p := Rewire(n2[p], side, Ref(k))];
    assert n2[p] == nodes[p];
    assert Write(n2, Ref(p), side, Ref(k)) == Success(n3);
    assert n3[k].left == Ref(l);
    var n4 := n3[l := n3[l].(parent := Ref(k))];
    assert Write(n3, Ref(l), ParentField, Ref(k)) == Success(n4);
    assert n3[l] == nodes[l];
    assert n4 == nodes[k := nodes[k].(parent := Ref(p), left := Ref(l))][p := Rewire(nodes[p], side, Ref(k))][l := nodes[l].(parent := Ref(k))];
  }

  /**
   * Inserting a node without a right child above the child `location` that
   * its parent holds on `side` leaves consistent links: the inserted node
   * and `location` agree with their parents and children, and the parent
   * still agrees with its children when it did before.
   */
  lemma InsertAboveConsistent(nodes: Nodes, l: nat, k: nat, side: Field)
    requires l < |nodes| && k < |nodes| && l != k && side != ParentField
    requires Live(nodes, nodes[l].parent) && nodes[l].parent != Ref(k) && nodes[l].parent != Ref(l)
    requires nodes[k].right == Null
    requires var p := nodes[l].parent.index;
      (if side == LeftField then nodes[p].left else nodes[p].right) == Ref(l)
    requires ChildrenPointBack(nodes, l) && nodes[l].left != Ref(k) && nodes[l].right != Ref(k)
    requires var p := nodes[l].parent.index; nodes[p].left != nodes[p].right
    ensures var r := InsertAbove(nodes, Ref(l), Ref(k), side).value;
      var p := nodes[l].parent.index;
      Consistent(r, k) && Consistent(r, l)
      && (ChildrenPointBack(nodes, p) ==> ChildrenPointBack(r, p))
  {
    InsertAboveShape(nodes, l, k, side);
  }

  /** The two insert helpers differ only in the side of the parent they write. */
  method InsertNodeAbove(heap: NodeHeap, location: Ptr, node: Ptr, side: Field) returns (o: Outcome)
    requires heap.Valid() && side != ParentField
    modifies heap
    ensures heap.Valid()
    ensures Follows(o, InsertAbove(old(heap.nodes), location, node, side), heap.nodes)
  {
    if !Live(heap.nodes, node) {
      return Fail(NullReference);
    }
    heap.Assign(node, LeftField, location);
    if !Live(heap.nodes, location) {
      return Fail(NullReference);
    }
    heap.Assign(node, ParentField, heap.nodes[location.index].parent);
    var parent := heap.nodes[node.index].parent;
    if !Live(heap.nodes, parent) {
      return Fail(NullReference);
    }
    heap.Assign(parent, side, node);
    heap.Assign(heap.nodes[node.index].left, ParentField, node);
    return Pass;
  }

  /** `InsertNodeAboveLeftChild(location, node)`. */
  method InsertNodeAboveLeftChild(heap: NodeHeap, location: Ptr, node: Ptr) returns (o: Outcome)
    requires heap.Valid()
    modifies heap
    ensures heap.Valid()
    ensures Follows(o, InsertAbove(old(heap.nodes), location, node, LeftField), heap.nodes)
  {
    o := InsertNodeAbove(heap, location, node, LeftField);
  }

  /** `InsertNodeAboveRightChild(location, node)`. */
  method InsertNodeAboveRightChild(heap: NodeHeap, location: Ptr, node: Ptr) returns (o: Outcome)
    requires heap.Valid()
    modifies heap
    ensures heap.Valid()
    ensures Follows(o, InsertAbove(old(heap.nodes), location, node, RightField), heap.nodes)
  {
    o := InsertNodeAbove(heap, location, node, RightField);
  }

  // ---------------------------------------------------------------- SwapOnRank

  /**
   * `SwapOnRank`: both children are weighed (a null child throws, as the
   * weight reads its content) and, when the left one weighs less, the
   * children change places.
   */
  function SwappedOnRank(nodes: Nodes, p: Ptr): (r: Result<Nodes>)
    ensures !Live(nodes, p) ==> r == Failure(NullReference)
    ensures r.Success? ==> Extends(nodes, r.value) && |r.value| == |nodes|
  {
    var n :- Get(nodes, p);
    var lw :- GetRestrictiveWeight(nodes, n.left);
    var rw :- GetRestrictiveWeight(nodes, n.right);
    if lw < rw then Success(nodes[p.index := n.(left := n.right, right := n.left)]) else Success(nodes)
  }

  /**
   * After `SwapOnRank` the node holds its two children, possibly exchanged,
   * the heavier (as weighed before the call) on the left; no other node and
   * no `Parent` changes, so a node whose children pointed back still has
   * children that do.
   */
  lemma SwapOnRankOrders(nodes: Nodes, k: nat)
    requires k < |nodes| && SwappedOnRank(nodes, Ref(k)).Success?
    ensures var m := SwappedOnRank(nodes, Ref(k)).value;
      m[k].id == nodes[k].id && m[k].content == nodes[k].content && m[k].parent == nodes[k].parent
      && ((m[k].left == nodes[k].left && m[k].right == nodes[k].right)
          || (m[k].left == nodes[k].right && m[k].right == nodes[k].left))
      && GetRestrictiveWeight(nodes, m[k].left).Success? && GetRestrictiveWeight(nodes, m[k].right).Success?
      && GetRestrictiveWeight(nodes, m[k].left).value >= GetRestrictiveWeight(nodes, m[k].right).value
      && (forall j :: 0 <= j < |nodes| && j != k ==> m[j] == nodes[j])
      && (ChildrenPointBack(nodes, k) && nodes[k].left != Ref(k) && nodes[k].right != Ref(k) ==> ChildrenPointBack(m, k))
  {
  }

  /**
   * The weight of a subtree depends only on the nodes its listing visits:
   * changing a node outside it changes nothing.
   */
  lemma {:induction false} WeightIgnoresUnlisted(nodes: Nodes, m: Nodes, k: nat, p: Ptr, fuel: nat)
    requires |m| == |nodes| && k < |nodes|
    requires forall j :: 0 <= j < |nodes| && j != k ==> m[j] == nodes[j]
    requires k !in Listing(nodes, p, fuel)
    ensures Weight(m, p, fuel) == Weight(nodes, p, fuel)
    decreases fuel
  {
    if Live(nodes, p) && fuel > 0 {
      var x := nodes[p.index];
      NotListedBelow(nodes, p, fuel, k);
      WeightIgnoresUnlisted(nodes, m, k, x.left, fuel - 1);
      WeightIgnoresUnlisted(nodes, m, k, x.right, fuel - 1);
      WeightOfSameNode(nodes, m, p, fuel);
    }
  }

  /** A node missing from a listing is neither its first node nor in either subtree's listing. */
  lemma NotListedBelow(nodes: Nodes, p: Ptr, fuel: nat, k: nat)
    requires Live(nodes, p) && fuel > 0 && k !in Listing(nodes, p, fuel)
    ensures k != p.index
    ensures k !in Listing(nodes, nodes[p.index].left, fuel - 1) && k !in Listing(nodes, nodes[p.index].right, fuel - 1)
  {
    var x := nodes[p.index];
    assert Listing(nodes, p, fuel) == [p.index] + Listing(nodes, x.left, fuel - 1) + Listing(nodes, x.right, fuel - 1);
  }

  /** A node the same in two arenas of one size, whose subtrees weigh the same in both, weighs the same. */
  lemma WeightOfSameNode(nodes: Nodes, m: Nodes, p: Ptr, fuel: nat)
    requires |m| == |nodes| && Live(nodes, p) && fuel > 0 && m[p.index] == nodes[p.index]
    requires Weight(m, nodes[p.index].left, fuel - 1) == Weight(nodes, nodes[p.index].left, fuel - 1)
    requires Weight(m, nodes[p.index].right, fuel - 1) == Weight(nodes, nodes[p.index].right, fuel - 1)
    ensures Weight(m, p, fuel) == Weight(nodes, p, fuel)
  {
  }

  /**
   * When the node is not inside either of its subtrees (on a tree it never
   * is), the order holds in the arena after the swap as well:
   * weight(left) >= weight(right).
   */
  lemma SwapOnRankOrdersAfter(nodes: Nodes, k: nat)
    requires k < |nodes| && SwappedOnRank(nodes, Ref(k)).Success?
    requires k !in Listing(nodes, nodes[k].left, |nodes|) && k !in Listing(nodes, nodes[k].right, |nodes|)
    ensures var m := SwappedOnRank(nodes, Ref(k)).value;
      GetRestrictiveWeight(m, m[k].left).Success? && GetRestrictiveWeight(m, m[k].right).Success?
      && GetRestrictiveWeight(m, m[k].left).value >= GetRestrictiveWeight(m, m[k].right).value
  {
    SwapOnRankOrders(nodes, k);
    var m := SwappedOnRank(nodes, Ref(k)).value;
    WeightIgnoresUnlisted(nodes, m, k, nodes[k].left, |nodes|);
    WeightIgnoresUnlisted(nodes, m, k, nodes[k].right, |nodes|);
  }

  /** `SwapOnRank(node)`, weighing with the C# recursion. */
  method SwapOnRank(heap: NodeHeap, node: Ptr) returns (o: Outcome)
    requires heap.Valid()
    modifies heap
    ensures heap.Valid()
    ensures Follows(o, SwappedOnRank(old(heap.nodes), node), heap.nodes)
  {
    if !Live(heap.nodes, node) {
      return Fail(NullReference);
    }
    var n := heap.nodes[node.index];
    var leftRank := Weigh(heap.nodes, n.left, |heap.nodes|);
    if leftRank.Failure? {
      return Fail(leftRank.error);
    }
    var rightRank := Weigh(heap.nodes, n.right, |heap.nodes|);
    if rightRank.Failure? {
      return Fail(rightRank.error);
    }
    if leftRank.value < rightRank.value {
      var temp := n.left;
      heap.Assign(node, LeftField, n.right);
      heap.Assign(node, RightField, temp);
    }
    return Pass;
  }
}
