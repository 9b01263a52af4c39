/**
 * Building the initial query tree: `Query.GetQueryTree` (a projection over a
 * selection over a left-deep spine of cartesian products) and
 * `MultiQuery.GetQueryTree` (two query trees under a set operator).
 */
module TreeBuilder {
  import opened Wrappers
  import opened Text
  import opened QueryModel
  import opened Statements
  import opened RelationalModel
  import opened Heap

  // ---------------------------------------------------------------- the layout of a query tree

  /**
   * How many nodes `GetQueryTree` creates for `n` FROM relations: the
   * projection, the selection and, unless the call fails on a single
   * relation, one cartesian per relation after the first and one leaf per
   * relation (a lone cartesian when there are none).
   */
  function BuiltSize(n: nat): nat
  {
    if n == 0 then 3 else if n == 1 then 2 else 2 * n + 1
  }

  /**
   * The node that `GetQueryTree` leaves at position `b + k` of the arena when
   * the arena held `b` nodes before the call.  Position 0 is the projection,
   * 1 the selection, the even positions 2, 4, ... the cartesian spine (the
   * last even one, when there are relations, the leaf of the first
   * relation), and each odd position 3, 5, ... the right leaf of the
   * cartesian just before it, holding the relations from last to second.
   */
  function SpineNode(b: nat, q: Query, k: nat): Node
    requires k < BuiltSize(|q.from.relations|)
  {
    var n := |q.from.relations|;
    var id := NatToString(b + k + 1);
    if k == 0 then Node(id, Null, Ref(b + 1), Null, ProjectionContent(Projection(q.select.attributes)))
    else if k == 1 then
      Node(id, Ref(b), if n == 1 then Null else Ref(b + 2), Null,
           SelectionContent(Selection(q.where.conditions, q.where.operators)))
    else if k % 2 == 0 then
      var parent := if k == 2 then Ref(b + 1) else Ref(b + k - 2);
      if n >= 2 && k == 2 * n then Node(id, parent, Null, Null, RelationContent(q.from.relations[0]))
      else if k < 2 * n then Node(id, parent, Ref(b + k + 2), Ref(b + k + 1), SetOpContent(CartesianProduct))
      else Node(id, parent, Null, Null, SetOpContent(CartesianProduct))
    else
      Node(id, Ref(b + k - 1), Null, Null, RelationContent(q.from.relations[n - 1 - (k - 3) / 2]))
  }

  /** All the nodes `GetQueryTree` creates, in creation order. */
  function Built(b: nat, q: Query): (r: Nodes)
    ensures |r| == BuiltSize(|q.from.relations|)
    ensures forall k :: 0 <= k < |r| ==> r[k] == SpineNode(b, q, k)
  {
    seq(BuiltSize(|q.from.relations|), k requires 0 <= k < BuiltSize(|q.from.relations|) => SpineNode(b, q, k))
  }

  /** The cartesian a round starts from. */
  lemma RoundFork(b: nat, q: Query, i: nat, k: nat)
    requires |q.from.relations| >= 2 && 1 <= i < |q.from.relations| && k == 2 * |q.from.relations| - 2 * i
    ensures Bare(SpineNode(b, q, k)).(left := Ref(b + k + 2), right := Ref(b + k + 1)) == SpineNode(b, q, k)
  {
    assert k % 2 == 0 && 2 <= k < 2 * |q.from.relations|;
  }

  /** The right leaf a round adds. */
  lemma RoundLeaf(b: nat, q: Query, i: nat, k: nat)
    requires |q.from.relations| >= 2 && 1 <= i < |q.from.relations| && k == 2 * |q.from.relations| - 2 * i + 1
    ensures SpineNode(b, q, k) == Node(NatToString(b + k + 1), Ref(b + k - 1), Null, Null, RelationContent(q.from.relations[i]))
  {
    assert k % 2 == 1 && k != 1;
    assert |q.from.relations| - 1 - (k - 3) / 2 == i;
  }

  /** The left child a round adds: the first relation's leaf after the last round, a cartesian before it. */
  lemma RoundNext(b: nat, q: Query, i: nat, k: nat)
    requires |q.from.relations| >= 2 && 1 <= i < |q.from.relations| && k == 2 * |q.from.relations| - 2 * i + 2
    ensures Node(NatToString(b + k + 1), Ref(b + k - 2), Null, Null,
                 if i == 1 then RelationContent(q.from.relations[0]) else SetOpContent(CartesianProduct))
      == Bare(SpineNode(b, q, k))
  {
    assert k % 2 == 0 && k != 2;
    assert i == 1 <==> k == 2 * |q.from.relations|;
  }

  /** A node whose children are not attached yet. */
  function Bare(x: Node): Node
  {
    x.(left := Null, right := Null)
  }

  /** The arena in the middle of the spine loop: the layout up to offset `m`, whose cartesian has no children yet. */
  function Partial(before: Nodes, q: Query, m: nat): Nodes
    requires m < BuiltSize(|q.from.relations|)
  {
    before + Built(|before|, q)[..m] + [Bare(SpineNode(|before|, q, m))]
  }

  /**
   * What one round of the spine loop does to an arena whose last node is
   * the cartesian at `c`: it gets a right leaf for `relations[i]` and a left
   * child, the first relation's leaf when `i` is 1 and a new cartesian otherwise.
   */
  function Grown(h: Nodes, c: nat, q: Query, i: nat): Nodes
    requires c < |h| && i < |q.from.relations|
  {
    h[..c] + [h[c].(left := Ref(c + 2), right := Ref(c + 1)),
              Node(NatToString(c + 2), Ref(c), Null, Null, RelationContent(q.from.relations[i])),
              Node(NatToString(c + 3), Ref(c), Null, Null,
                   if i == 1 then RelationContent(q.from.relations[0]) else SetOpContent(CartesianProduct))]
  }

  /** The arena after one more round, cut where the round starts. */
  lemma GrownSpine(before: Nodes, q: Query, i: nat, m: nat, h: Nodes, c: nat)
    requires |q.from.relations| >= 2 && 1 <= i < |q.from.relations| && m == 2 * |q.from.relations| - 2 * i
    requires h == Partial(before, q, m) && c == |before| + m
    ensures var b := |before|; var built := Built(b, q);
      c < |h| && Grown(h, c, q, i) == (before + built[..m]) + [built[m], built[m + 1], Bare(SpineNode(b, q, m + 2))]
  {
    var b := |before|;
    var built := Built(b, q);
    RoundFork(b, q, i, m);
    RoundLeaf(b, q, i, m + 1);
    RoundNext(b, q, i, m + 2);
    PartialCut(before, q, m);
    GrownOf(h, c, q, i, before + built[..m], built[m], built[m + 1], Bare(SpineNode(b, q, m + 2)));
  }

  /** The partial layout cut at its last node: the layout so far, then that node bare. */
  lemma PartialCut(before: Nodes, q: Query, m: nat)
    requires m < BuiltSize(|q.from.relations|)
    ensures |before| + m < |Partial(before, q, m)|
    ensures Partial(before, q, m)[..|before| + m] == before + Built(|before|, q)[..m]
    ensures Partial(before, q, m)[|before| + m] == Bare(SpineNode(|before|, q, m))
  {
  }

  /** A round's result, given what it keeps and the three nodes it leaves at `c` and after. */
  lemma GrownOf(h: Nodes, c: nat, q: Query, i: nat, kept: Nodes, x: Node, y: Node, z: Node)
    requires c < |h| && i < |q.from.relations| && h[..c] == kept
    requires h[c].(left := Ref(c + 2), right := Ref(c + 1)) == x
    requires Node(NatToString(c + 2), Ref(c), Null, Null, RelationContent(q.from.relations[i])) == y
    requires Node(NatToString(c + 3), Ref(c), Null, Null,
                  if i == 1 then RelationContent(q.from.relations[0]) else SetOpContent(CartesianProduct)) == z
    ensures Grown(h, c, q, i) == kept + [x, y, z]
  {
  }

  /** The partial layout two positions on, cut at the same place. */
  lemma PartialSpine(before: Nodes, q: Query, m: nat)
    requires m + 2 < BuiltSize(|q.from.relations|)
    ensures var b := |before|; var built := Built(b, q);
      Partial(before, q, m + 2) == (before + built[..m]) + [built[m], built[m + 1], Bare(SpineNode(b, q, m + 2))]
  {
    var built := Built(|before|, q);
    TwoMore(before, built, m, Bare(SpineNode(|before|, q, m + 2)));
  }

  /** A prefix two longer, with one more node after it, regrouped. */
  lemma TwoMore(before: Nodes, built: Nodes, m: nat, x: Node)
    requires m + 2 <= |built|
    ensures before + built[..m + 2] + [x] == (before + built[..m]) + [built[m], built[m + 1], x]
  {
    assert built[..m + 2] == built[..m] + [built[m], built[m + 1]];
  }

  /** One round of the loop moves the partial layout on by two positions. */
  lemma SpineGrows(before: Nodes, q: Query, i: nat, m: nat, h0: Nodes, c: nat, h1: Nodes)
    requires |q.from.relations| >= 2 && 1 <= i < |q.from.relations| && m == 2 * |q.from.relations| - 2 * i
    requires h0 == Partial(before, q, m) && c == |before| + m
    requires c < |h0| && h1 == Grown(h0, c, q, i)
    ensures h1 == Partial(before, q, m + 2)
  {
    GrownSpine(before, q, i, m, h0, c);
    PartialSpine(before, q, m);
  }

  /** When the loop ends the bare node at the cursor is already complete, and the arena holds the whole layout. */
  lemma SpineClose(before: Nodes, q: Query)
    requires |q.from.relations| != 1
    ensures Partial(before, q, if |q.from.relations| == 0 then 2 else 2 * |q.from.relations|) == before + Built(|before|, q)
  {
    var b := |before|;
    var m := if |q.from.relations| == 0 then 2 else 2 * |q.from.relations|;
    var built := Built(b, q);
    assert Bare(SpineNode(b, q, m)) == built[m];
    assert built == built[..m] + [built[m]];
  }

  /** The three nodes made before the loop. */
  lemma SpineOpen(before: Nodes, q: Query)
    requires |q.from.relations| != 1
    ensures before + [SpineNode(|before|, q, 0), SpineNode(|before|, q, 1), Bare(SpineNode(|before|, q, 2))]
      == Partial(before, q, 2)
  {
    var built := Built(|before|, q);
    assert built[..2] == [built[0], built[1]];
  }

  /**
   * One round of the spine loop at the cartesian `cursor`: a leaf for
   * `relations[i]` becomes its right child and, below it on the left, either
   * the leaf of the first relation (when `i` is 1) or a new cartesian.
   */
  method SpineStep(heap: NodeHeap, q: Query, i: nat, cursor: Ptr) returns (next: Ptr)
    requires heap.Valid()
    requires 1 <= i < |q.from.relations|
    requires cursor.Ref? && cursor.index + 1 == |heap.nodes|
    modifies heap
    ensures heap.Valid()
    ensures heap.nodes == Grown(old(heap.nodes), cursor.index, q, i)
    ensures next == Ref(cursor.index + 2)
  {
    var leaf := heap.NewNode(RelationContent(q.from.relations[i]), Null, Null, Null);
    heap.Assign(cursor, RightField, leaf);
    heap.Assign(leaf, ParentField, cursor);
    if i == 1 {
      var first := heap.NewNode(RelationContent(q.from.relations[0]), Null, Null, Null);
      heap.Assign(cursor, LeftField, first);
      heap.Assign(first, ParentField, cursor);
    } else {
      var child := heap.NewNode(SetOpContent(CartesianProduct), cursor, Null, Null);
      heap.Assign(cursor, LeftField, child);
    }
    next := heap.nodes[cursor.index].left;
  }

  // ---------------------------------------------------------------- what the layout is

  /**
   * The top of the tree: a projection over the SELECT attributes with no
   * parent, and below it a selection carrying the WHERE conditions and
   * operators, present even when they are empty.  With no relations the
   * selection's child is a lone cartesian without children.
   */
  lemma QueryTreeTop(before: Nodes, q: Query)
    ensures var h := before + Built(|before|, q); var b := |before|;
      h[b].content == ProjectionContent(Projection(q.select.attributes)) && h[b].parent == Null
      && h[b].left == Ref(b + 1) && h[b].right == Null
      && h[b + 1].content == SelectionContent(Selection(q.where.conditions, q.where.operators))
      && h[b + 1].parent == Ref(b) && h[b + 1].right == Null
      && (|q.from.relations| == 0 ==>
            h[b + 1].left == Ref(b + 2) && |h| == b + 3
            && h[b + 2] == Node(NatToString(b + 3), Ref(b + 1), Null, Null, SetOpContent(CartesianProduct)))
  {
  }

  /**
   * With two or more relations the cartesians sit exactly at the even
   * offsets 2, 4, ..., 2n - 2, so there are n - 1 of them, each the left
   * child of the one above; every other node below the selection is a
   * relation leaf.
   */
  lemma QueryTreeCartesians(before: Nodes, q: Query, k: nat)
    requires |q.from.relations| >= 2 && 2 <= k < BuiltSize(|q.from.relations|)
    ensures var h := before + Built(|before|, q); var b := |before|; var n := |q.from.relations|;
      (h[b + k].content == SetOpContent(CartesianProduct) <==> k % 2 == 0 && k < 2 * n)
      && (h[b + k].content != SetOpContent(CartesianProduct) ==> h[b + k].content.RelationContent?)
      && (k % 2 == 0 && 2 < k ==> h[b + k - 2].left == Ref(b + k))
  {
  }

  /** A cartesian of the spine, at offset 2 + 2j: its left child two on, its right leaf one on. */
  lemma ForkNode(b: nat, q: Query, j: nat)
    requires |q.from.relations| >= 2 && j <= |q.from.relations| - 2
    ensures SpineNode(b, q, 2 + 2 * j)
      == Node(NatToString(b + 3 + 2 * j), if j == 0 then Ref(b + 1) else Ref(b + 2 * j),
              Ref(b + 4 + 2 * j), Ref(b + 3 + 2 * j), SetOpContent(CartesianProduct))
  {
    assert (2 + 2 * j) % 2 == 0;
  }

  /** The right leaf of the cartesian at offset 2 + 2j holds the relation j places from the end. */
  lemma ForkLeaf(b: nat, q: Query, j: nat)
    requires |q.from.relations| >= 2 && j <= |q.from.relations| - 2
    ensures SpineNode(b, q, 3 + 2 * j)
      == Node(NatToString(b + 4 + 2 * j), Ref(b + 2 + 2 * j), Null, Null,
              RelationContent(q.from.relations[|q.from.relations| - 1 - j]))
  {
    assert (3 + 2 * j) % 2 == 1;
    assert (3 + 2 * j - 3) / 2 == j;
  }

  /** The leaf of the first relation: the left child of the last cartesian. */
  lemma LastLeaf(b: nat, q: Query)
    requires |q.from.relations| >= 2
    ensures var n := |q.from.relations|;
      SpineNode(b, q, 2 * n) == Node(NatToString(b + 2 * n + 1), Ref(b + 2 * n - 2), Null, Null, RelationContent(q.from.relations[0]))
  {
    assert (2 * |q.from.relations|) % 2 == 0;
  }

  /** Every node the builder creates has its references consistent with its parent's and children's. */
  lemma QueryTreeConsistentAt(before: Nodes, q: Query, k: nat)
    requires |q.from.relations| != 1 && k < BuiltSize(|q.from.relations|)
    ensures Consistent(before + Built(|before|, q), |before| + k)
  {
    var n := |q.from.relations|;
    if k <= 1 || n == 0 {
      TopConsistent(before, q, k);
    } else if k == 2 * n {
      LastConsistent(before, q, before + Built(|before|, q), |before| + k);
    } else {
      SpineConsistent(before, q, k);
    }
  }

  /** A node of the spine above the last relation is consistent. */
  lemma SpineConsistent(before: Nodes, q: Query, k: nat)
    requires |q.from.relations| >= 2 && 2 <= k < 2 * |q.from.relations|
    ensures |before| + k < |before + Built(|before|, q)|
    ensures Consistent(before + Built(|before|, q), |before| + k)
  {
    var j, odd := Halve(k - 2);
    if odd {
      LeafConsistent(before, q, j, before + Built(|before|, q), |before| + k);
    } else {
      ForkConsistent(before, q, j, before + Built(|before|, q), |before| + k);
    }
  }

  /** A cartesian of the spine is consistent with its parent and its two children. */
  lemma ForkConsistent(before: Nodes, q: Query, j: nat, h: Nodes, c: nat)
    requires |q.from.relations| >= 2 && j <= |q.from.relations| - 2
    requires h == before + Built(|before|, q) && c == |before| + 2 + 2 * j
    ensures c < |h| && Consistent(h, c)
  {
    ForkChildren(before, q, j, h, c);
    ForkParent(before, q, j, h, c);
  }

  /** A number as twice its half, plus one when it is odd. */
  lemma Halve(k: nat) returns (j: nat, odd: bool)
    ensures k == 2 * j + (if odd then 1 else 0)
  {
    j := k / 2;
    odd := k % 2 == 1;
  }

  /** The projection, the selection under it and, without relations, the lone cartesian are consistent. */
  lemma TopConsistent(before: Nodes, q: Query, k: nat)
    requires |q.from.relations| != 1 && k < BuiltSize(|q.from.relations|) && (k <= 1 || |q.from.relations| == 0)
    ensures Consistent(before + Built(|before|, q), |before| + k)
  {
    BuiltAt(before, q, 0);
    BuiltAt(before, q, 1);
    BuiltAt(before, q, 2);
  }

  /** A cartesian's two children name it as their parent. */
  lemma ForkChildren(before: Nodes, q: Query, j: nat, h: Nodes, c: nat)
    requires |q.from.relations| >= 2 && j <= |q.from.relations| - 2
    requires h == before + Built(|before|, q) && c == |before| + 2 + 2 * j
    ensures c < |h| && ChildrenPointBack(h, c)
  {
    ForkLinks(before, q, j, h, c);
    ForkLeafUp(before, q, j, h, c);
    ForkBelowUp(before, q, j, h, c);
    PointsBack(h, c, c + 2, c + 1);
  }

  /** In the arena, the cartesian at offset 2 + 2j has its left child two on and its right child one on. */
  lemma ForkLinks(before: Nodes, q: Query, j: nat, h: Nodes, c: nat)
    requires |q.from.relations| >= 2 && j <= |q.from.relations| - 2
    requires h == before + Built(|before|, q) && c == |before| + 2 + 2 * j
    ensures c + 2 < |h| && h[c].left == Ref(c + 2) && h[c].right == Ref(c + 1)
  {
    BuiltAt(before, q, 2 + 2 * j);
    ForkNode(|before|, q, j);
  }

  /** In the arena, the right leaf of the cartesian at `c` names it as parent. */
  lemma ForkLeafUp(before: Nodes, q: Query, j: nat, h: Nodes, c: nat)
    requires |q.from.relations| >= 2 && j <= |q.from.relations| - 2
    requires h == before + Built(|before|, q) && c == |before| + 2 + 2 * j
    ensures c + 1 < |h| && h[c + 1].parent == Ref(c)
  {
    BuiltAt(before, q, 3 + 2 * j);
    ForkLeaf(|before|, q, j);
  }

  /** In the arena, the left child of the cartesian at `c` names it as parent. */
  lemma ForkBelowUp(before: Nodes, q: Query, j: nat, h: Nodes, c: nat)
    requires |q.from.relations| >= 2 && j <= |q.from.relations| - 2
    requires h == before + Built(|before|, q) && c == |before| + 2 + 2 * j
    ensures c + 2 < |h| && h[c + 2].parent == Ref(c)
  {
    BuiltAt(before, q, 4 + 2 * j);
    ForkBelow(|before|, q, j);
  }

  /** A node whose two children name it as their parent. */
  lemma PointsBack(h: Nodes, c: nat, l: nat, r: nat)
    requires c < |h| && l < |h| && r < |h| && h[c].left == Ref(l) && h[c].right == Ref(r)
    requires h[l].parent == Ref(c) && h[r].parent == Ref(c)
    ensures ChildrenPointBack(h, c)
  {
  }

  /** The left child of the cartesian at offset 2 + 2j, a cartesian or the first relation's leaf, names it as parent. */
  lemma ForkBelow(b: nat, q: Query, j: nat)
    requires |q.from.relations| >= 2 && j <= |q.from.relations| - 2
    ensures SpineNode(b, q, 4 + 2 * j).parent == Ref(b + 2 + 2 * j)
  {
    if j == |q.from.relations| - 2 {
      LastLeaf(b, q);
    } else {
      ForkNode(b, q, j + 1);
    }
  }

  /** A cartesian is the left child of its parent: the selection above the first, the previous cartesian otherwise. */
  lemma ForkParent(before: Nodes, q: Query, j: nat, h: Nodes, c: nat)
    requires |q.from.relations| >= 2 && j <= |q.from.relations| - 2
    requires h == before + Built(|before|, q) && c == |before| + 2 + 2 * j
    ensures c < |h| && ParentPointsDown(h, c)
  {
    ForkUp(before, q, j, h, c);
    if j == 0 {
      SelectionDown(before, q, h, c - 1);
      LeftPointsDown(h, c, c - 1);
    } else {
      ForkLinks(before, q, j - 1, h, c - 2);
      LeftPointsDown(h, c, c - 2);
    }
  }

  /** In the arena, the cartesian at offset 2 + 2j names the node above it on the spine as parent. */
  lemma ForkUp(before: Nodes, q: Query, j: nat, h: Nodes, c: nat)
    requires |q.from.relations| >= 2 && j <= |q.from.relations| - 2
    requires h == before + Built(|before|, q) && c == |before| + 2 + 2 * j
    ensures c < |h| && h[c].parent == (if j == 0 then Ref(c - 1) else Ref(c - 2))
  {
    BuiltAt(before, q, 2 + 2 * j);
    ForkNode(|before|, q, j);
  }

  /** In the arena, the selection of a query with two relations or more has the first cartesian as left child. */
  lemma SelectionDown(before: Nodes, q: Query, h: Nodes, c: nat)
    requires |q.from.relations| >= 2
    requires h == before + Built(|before|, q) && c == |before| + 1
    ensures c + 1 < |h| && h[c].left == Ref(c + 1)
  {
    BuiltAt(before, q, 1);
  }

  /** A node whose parent has it as left child. */
  lemma LeftPointsDown(h: Nodes, c: nat, p: nat)
    requires c < |h| && p < |h| && h[c].parent == Ref(p) && h[p].left == Ref(c)
    ensures ParentPointsDown(h, c)
  {
  }

  /** A right leaf of the spine has no children and is its cartesian's right child. */
  lemma LeafConsistent(before: Nodes, q: Query, j: nat, h: Nodes, c: nat)
    requires |q.from.relations| >= 2 && j <= |q.from.relations| - 2
    requires h == before + Built(|before|, q) && c == |before| + 3 + 2 * j
    ensures c < |h| && Consistent(h, c)
  {
    LeafLinks(before, q, j, h, c);
    ForkLinks(before, q, j, h, c - 1);
    ChildlessConsistent(h, c, c - 1);
  }

  /** In the arena, a right leaf of the spine has no children and names the cartesian before it as parent. */
  lemma LeafLinks(before: Nodes, q: Query, j: nat, h: Nodes, c: nat)
    requires |q.from.relations| >= 2 && j <= |q.from.relations| - 2
    requires h == before + Built(|before|, q) && c == |before| + 3 + 2 * j
    ensures c < |h| && h[c].left == Null && h[c].right == Null && h[c].parent == Ref(c - 1)
  {
    BuiltAt(before, q, 3 + 2 * j);
    ForkLeaf(|before|, q, j);
  }

  /** A node without children whose parent has it as a child is consistent. */
  lemma ChildlessConsistent(h: Nodes, c: nat, p: nat)
    requires c < |h| && p < |h| && h[c].left == Null && h[c].right == Null && h[c].parent == Ref(p)
    requires h[p].left == Ref(c) || h[p].right == Ref(c)
    ensures Consistent(h, c)
  {
  }

  /** The first relation's leaf has no children and is the last cartesian's left child. */
  lemma LastConsistent(before: Nodes, q: Query, h: Nodes, c: nat)
    requires |q.from.relations| >= 2
    requires h == before + Built(|before|, q) && c == |before| + 2 * |q.from.relations|
    ensures c < |h| && Consistent(h, c)
  {
    LastLinks(before, q, h, c);
    ForkLinks(before, q, |q.from.relations| - 2, h, c - 2);
    ChildlessConsistent(h, c, c - 2);
  }

  /** In the arena, the first relation's leaf has no children and names the last cartesian as parent. */
  lemma LastLinks(before: Nodes, q: Query, h: Nodes, c: nat)
    requires |q.from.relations| >= 2
    requires h == before + Built(|before|, q) && c == |before| + 2 * |q.from.relations|
    ensures c < |h| && h[c].left == Null && h[c].right == Null && h[c].parent == Ref(c - 2)
  {
    BuiltAt(before, q, 2 * |q.from.relations|);
    LastLeaf(|before|, q);
  }

  /** Where the builder's nodes sit in the arena. */
  lemma BuiltAt(before: Nodes, q: Query, k: nat)
    requires k < BuiltSize(|q.from.relations|)
    ensures |before + Built(|before|, q)| == |before| + BuiltSize(|q.from.relations|)
    ensures (before + Built(|before|, q))[|before| + k] == SpineNode(|before|, q, k)
  {
  }

  /** The whole tree the builder creates is consistent: each child's `Parent` is the node pointing to it. */
  lemma QueryTreeConsistent(before: Nodes, q: Query)
    requires |q.from.relations| != 1
    ensures forall k :: |before| <= k < |before + Built(|before|, q)| ==> Consistent(before + Built(|before|, q), k)
  {
    forall k | |before| <= k < |before + Built(|before|, q)|
      ensures Consistent(before + Built(|before|, q), k)
    {
      QueryTreeConsistentAt(before, q, k - |before|);
    }
  }

  /**
   * The shape of the spine at its j-th cartesian (offset 2 + 2j from `b`):
   * a cartesian whose right child is a leaf for `rels[n - 1 - j]` and whose
   * left child comes next; the last cartesian's left child is the leaf of `rels[0]`.
   */
  predicate SpineForkAt(h: Nodes, b: nat, rels: seq<nat>, j: nat)
    requires |rels| >= 2 && j <= |rels| - 2
  {
    var c := b + 2 + 2 * j;
    var n := |rels|;
    c + 2 < |h|
    && h[c].content == SetOpContent(CartesianProduct) && h[c].left == Ref(c + 2) && h[c].right == Ref(c + 1)
    && h[c + 1].content == RelationContent(rels[n - 1 - j]) && h[c + 1].left == Null && h[c + 1].right == Null
    && (j == n - 2 ==> h[c + 2].content == RelationContent(rels[0]) && h[c + 2].left == Null && h[c + 2].right == Null)
  }

  /** The built arena has that shape at every cartesian of the spine. */
  lemma SpineFork(before: Nodes, q: Query, j: nat)
    requires |q.from.relations| >= 2 && j <= |q.from.relations| - 2
    ensures SpineForkAt(before + Built(|before|, q), |before|, q.from.relations, j)
  {
    var b := |before|;
    BuiltAt(before, q, 2 + 2 * j);
    BuiltAt(before, q, 3 + 2 * j);
    BuiltAt(before, q, 4 + 2 * j);
    ForkNode(b, q, j);
    ForkLeaf(b, q, j);
    if j == |q.from.relations| - 2 {
      LastLeaf(b, q);
    }
  }

  /** Below the cartesian at offset 2 + 2j of a spine lie the first n - j relations, in order. */
  lemma {:induction false} SpineLeaves(h: Nodes, b: nat, rels: seq<nat>, j: nat, c: nat, fuel: nat)
    requires |rels| >= 2 && j <= |rels| - 2 && c == b + 2 + 2 * j && fuel >= |rels| - j
    requires forall i :: j <= i <= |rels| - 2 ==> SpineForkAt(h, b, rels, i)
    ensures c < |h|
    ensures LeafRelations(h, c, fuel) == rels[..|rels| - j]
    decreases |rels| - j
  {
    var n := |rels|;
    var f: nat := fuel - 1;
    assert SpineForkAt(h, b, rels, j);
    if j == n - 2 {
      LastFork(h, b, rels, c, fuel, f);
    } else {
      SpineLeaves(h, b, rels, j + 1, c + 2, f);
      InnerFork(h, b, rels, j, c, fuel, f);
    }
  }

  /** The last cartesian of the spine has the first two relations below it. */
  lemma LastFork(h: Nodes, b: nat, rels: seq<nat>, c: nat, fuel: nat, f: nat)
    requires |rels| >= 2 && c == b + 2 + 2 * (|rels| - 2) && fuel >= 2 && f == fuel - 1
    requires SpineForkAt(h, b, rels, |rels| - 2)
    ensures c < |h|
    ensures LeafRelations(h, c, fuel) == rels[..2]
  {
    LeavesOfFork(h, c, c + 2, c + 1, fuel, f);
    LeavesOfLeaf(h, c + 1, f, rels[1]);
    LeavesOfLeaf(h, c + 2, f, rels[0]);
    assert rels[..2] == [rels[0]] + [rels[1]];
    JoinedAs(LeafRelations(h, c, fuel), LeafRelations(h, c + 2, f), LeafRelations(h, c + 1, f),
             [rels[0]], [rels[1]], rels[..2]);
  }

  /** A cartesian above another adds its right leaf after the leaves of the one below. */
  lemma InnerFork(h: Nodes, b: nat, rels: seq<nat>, j: nat, c: nat, fuel: nat, f: nat)
    requires |rels| >= 2 && j < |rels| - 2 && c == b + 2 + 2 * j && fuel >= 2 && f == fuel - 1
    requires SpineForkAt(h, b, rels, j) && c + 2 < |h|
    requires LeafRelations(h, c + 2, f) == rels[..|rels| - (j + 1)]
    ensures LeafRelations(h, c, fuel) == rels[..|rels| - j]
  {
    var x := rels[|rels| - (j + 1)];
    LeavesOfFork(h, c, c + 2, c + 1, fuel, f);
    LeavesOfLeaf(h, c + 1, f, x);
    TakeOneMore(rels, |rels| - j, |rels| - (j + 1));
    JoinedAs(LeafRelations(h, c, fuel), LeafRelations(h, c + 2, f), LeafRelations(h, c + 1, f),
             rels[..|rels| - (j + 1)], [x], rels[..|rels| - j]);
  }

  /** The projection and the selection above the spine: each has only a left child, the next node. */
  predicate TopAt(h: Nodes, b: nat, n: nat)
  {
    b + 2 < |h|
    && !h[b].content.RelationContent? && h[b].left == Ref(b + 1) && h[b].right == Null
    && !h[b + 1].content.RelationContent? && h[b + 1].left == Ref(b + 2) && h[b + 1].right == Null
    && (n == 0 ==> h[b + 2].content == SetOpContent(CartesianProduct) && h[b + 2].left == Null && h[b + 2].right == Null)
  }

  /** The leaves below the projection of a tree of that shape are the spine's relations. */
  lemma TopLeaves(h: Nodes, b: nat, rels: seq<nat>, fuel: nat)
    requires |rels| != 1 && TopAt(h, b, |rels|) && fuel >= |rels| + 3
    requires |rels| >= 2 ==> forall i :: 0 <= i <= |rels| - 2 ==> SpineForkAt(h, b, rels, i)
    ensures LeafRelations(h, b, fuel) == rels
  {
    var f1: nat := fuel - 1;
    var f2: nat := fuel - 2;
    LeavesOfLeftOnly(h, b, b + 1, fuel, f1);
    LeavesOfLeftOnly(h, b + 1, b + 2, f1, f2);
    if |rels| == 0 {
      LeavesOfBare(h, b + 2, f2);
    } else {
      SpineLeaves(h, b, rels, 0, b + 2, f2);
      assert rels[..|rels|] == rels;
    }
  }

  /** The relation leaves of the whole tree, read left to right, are the FROM relations in order. */
  lemma QueryTreeLeaves(before: Nodes, q: Query)
    requires |q.from.relations| != 1
    ensures LeafRelations(before + Built(|before|, q), |before|, |before + Built(|before|, q)|) == q.from.relations
  {
    var h := before + Built(|before|, q);
    var b := |before|;
    var n := |q.from.relations|;
    assert h[b] == SpineNode(b, q, 0);
    assert h[b + 1] == SpineNode(b, q, 1);
    assert h[b + 2] == SpineNode(b, q, 2);
    assert TopAt(h, b, n);
    if n >= 2 {
      forall i | 0 <= i <= n - 2
        ensures SpineForkAt(h, b, q.from.relations, i)
      {
        SpineFork(before, q, i);
      }
    }
    TopLeaves(h, b, q.from.relations, |h|);
  }

  // ---------------------------------------------------------------- Query.GetQueryTree

  /** One round of the spine loop moves the partial layout on by two positions. */
  method SpineAdvance(heap: NodeHeap, q: Query, ghost before: Nodes, i: nat, ghost m: nat, cursor: Ptr) returns (next: Ptr)
    requires heap.Valid() && 1 <= i < |q.from.relations| && m == 2 * |q.from.relations| - 2 * i
    requires heap.nodes == Partial(before, q, m)
    requires cursor == Ref(|before| + m)
    modifies heap
    ensures heap.Valid()
    ensures heap.nodes == Partial(before, q, m + 2)
    ensures next == Ref(|before| + m + 2)
  {
    ghost var h0 := heap.nodes;
    next := SpineStep(heap, q, i, cursor);
    SpineGrows(before, q, i, m, h0, cursor.index, heap.nodes);
  }

  /** The descending loop of `GetQueryTree`, from the top cartesian down to the first relation. */
  method SpineLoop(heap: NodeHeap, q: Query, ghost before: Nodes, top: Ptr)
    requires heap.Valid() && |q.from.relations| != 1
    requires top == Ref(|before| + 2)
    requires heap.nodes == Partial(before, q, 2)
    modifies heap
    ensures heap.Valid()
    ensures heap.nodes == before + Built(|before|, q)
  {
    var b := |before|;
    var n := |q.from.relations|;
    var cursor := top;
    var i: int := n - 1;
    ghost var m: nat := 2;
    while i > 0
      invariant heap.Valid()
      invariant n == 0 ==> i == -1
      invariant n >= 2 ==> 0 <= i <= n - 1
      invariant m == 2 * n - 2 * i
      invariant cursor == Ref(b + m)
      invariant heap.nodes == Partial(before, q, m)
      decreases i
    {
      cursor := SpineAdvance(heap, q, before, i, m, cursor);
      i := i - 1;
      m := m + 2;
    }
    assert m == if n == 0 then 2 else 2 * n;
    SpineClose(before, q);
  }

  /**
   * `Query.GetQueryTree`.  With one relation the source reads the `Parent`
   * of the selection's still-null left child and throws; otherwise the tree
   * is returned.  Relation leaves hold the FROM list's own relation objects.
   */
  method QueryTree(heap: NodeHeap, q: Query) returns (r: Result<Ptr>)
    requires heap.Valid()
    modifies heap
    ensures heap.Valid()
    ensures r == if |q.from.relations| == 1 then Failure(NullReference) else Success(Ref(|old(heap.nodes)|))
    ensures heap.nodes == old(heap.nodes) + Built(|old(heap.nodes)|, q)
  {
    var b := |heap.nodes|;
    var n := |q.from.relations|;
    ghost var before := heap.nodes;
    var root := heap.NewNode(ProjectionContent(Projection(q.select.attributes)), Null, Null, Null);
    var sel := heap.NewNode(SelectionContent(Selection(q.where.conditions, q.where.operators)), root, Null, Null);
    heap.Assign(root, LeftField, sel);
    if n == 1 {
      assert heap.nodes == before + [SpineNode(b, q, 0), SpineNode(b, q, 1)];
      return Failure(NullReference);
    }
    var cursor := heap.NewNode(SetOpContent(CartesianProduct), sel, Null, Null);
    heap.Assign(sel, LeftField, cursor);
    assert heap.nodes == before + [SpineNode(b, q, 0), SpineNode(b, q, 1), Bare(SpineNode(b, q, 2))];
    SpineOpen(before, q);
    SpineLoop(heap, q, before, cursor);
    return Success(Ref(b));
  }

  // ---------------------------------------------------------------- MultiQuery.GetQueryTree

  /** The empty node a fresh node leaves at position `b`. */
  function EmptyNode(b: nat): Node
  {
    Node(NatToString(b + 1), Null, Null, Null, NoContent)
  }

  /**
   * The nodes a successful `MultiQuery.GetQueryTree` over two or more
   * queries creates: the root holding the first operator, then the first
   * query's tree, then the second's.
   */
  function MultiBuilt(b: nat, m: MultiQuery): Nodes
    requires |m.queries| >= 2 && |m.operators| > 0
  {
    var left := b + 1;
    var right := left + BuiltSize(|m.queries[0].from.relations|);
    [Node(NatToString(b + 1), Null, Ref(left), Ref(right), SetOpContent(m.operators[0].1))]
    + Built(left, m.queries[0]) + Built(right, m.queries[1])
  }

  /**
   * `MultiQuery.GetQueryTree`.  Without queries it returns a fresh empty
   * node; without operators it returns the first query's tree (the fresh
   * node is left unused); otherwise the first operator joins the first two
   * queries' trees.  A second query that does not exist throws, and so does a
   * query over one relation.
   */
  method MultiQueryTree(heap: NodeHeap, m: MultiQuery) returns (r: Result<Ptr>)
    requires heap.Valid()
    modifies heap
    ensures heap.Valid()
    ensures var b := |old(heap.nodes)|;
      |m.queries| == 0 ==> r == Success(Ref(b)) && heap.nodes == old(heap.nodes) + [EmptyNode(b)]
    ensures var b := |old(heap.nodes)|;
      |m.queries| > 0 && |m.operators| == 0 ==>
        heap.nodes == old(heap.nodes) + [EmptyNode(b)] + Built(b + 1, m.queries[0])
        && r == if |m.queries[0].from.relations| == 1 then Failure(NullReference) else Success(Ref(b + 1))
    ensures |m.queries| > 0 && |m.operators| > 0 ==>
      (r.Success? <==> |m.queries| >= 2 && |m.queries[0].from.relations| != 1 && |m.queries[1].from.relations| != 1)
    ensures |m.queries| > 0 && |m.operators| > 0 && r.Failure? ==>
      r.error == if |m.queries[0].from.relations| != 1 && |m.queries| < 2 then IndexOutOfRange else NullReference
    ensures |m.queries| > 0 && |m.operators| > 0 && r.Success? ==>
      r == Success(Ref(|old(heap.nodes)|)) && heap.nodes == old(heap.nodes) + MultiBuilt(|old(heap.nodes)|, m)
  {
    var b := |heap.nodes|;
    ghost var before := heap.nodes;
    var root := heap.NewNode(NoContent, Null, Null, Null);
    if |m.queries| == 0 {
      return Success(root);
    }
    if |m.operators| == 0 {
      r := QueryTree(heap, m.queries[0]);
      return;
    }
    ghost var made := heap.nodes;
    heap.Store(root, SetOpContent(m.operators[0].1));
    ghost var withRoot := heap.nodes;
    var left :- QueryTree(heap, m.queries[0]);
    ghost var withTree := heap.nodes;
    heap.Assign(root, LeftField, left);
    if |m.queries| < 2 {
      return Failure(IndexOutOfRange);
    }
    ghost var withLeft := heap.nodes;
    var right :- QueryTree(heap, m.queries[1]);
    ghost var withTrees := heap.nodes;
    heap.Assign(root, RightField, right);
    MultiAssemble(before, m, made, withRoot, withTree, withLeft, withTrees, heap.nodes);
    return Success(root);
  }

  /** Replacing the node just after `before` in an arena laid out as `before`, that node, the rest. */
  lemma ReplaceAfter(before: Nodes, x: Node, rest: Nodes, y: Node)
    ensures (before + [x] + rest)[|before| := y] == before + [y] + rest
  {
  }

  /** The root as the set operator leaves it once its content is stored: no links yet. */
  lemma RootStored(before: Nodes, op: SetOperator, made: Nodes, h: Nodes)
    requires made == Alloc(before, NoContent, Null, Null, Null)
    requires |before| < |made| && h == made[|before| := made[|before|].(content := SetOpContent(op))]
    ensures h == before + [Node(NatToString(|before| + 1), Null, Null, Null, SetOpContent(op))]
  {
    assert made == before + [EmptyNode(|before|)] + [];
    ReplaceAfter(before, EmptyNode(|before|), [], Node(NatToString(|before| + 1), Null, Null, Null, SetOpContent(op)));
  }

  /** The first query tree built after the root, and the root's left link to it set. */
  lemma LeftLinked(before: Nodes, x: Node, block: Nodes, t: Nodes, h: Nodes, p: Ptr)
    requires t == (before + [x]) + block
    requires |before| < |t| && h == t[|before| := Rewire(t[|before|], LeftField, p)]
    ensures h == before + [Rewire(x, LeftField, p)] + block
  {
    ReplaceAfter(before, x, block, Rewire(x, LeftField, p));
  }

  /** The second query tree built after the first, and the root's right link to it set. */
  lemma RightLinked(before: Nodes, x: Node, s0: Nodes, s1: Nodes, t: Nodes, h: Nodes, p: Ptr)
    requires t == (before + [x] + s0) + s1
    requires |before| < |t| && h == t[|before| := Rewire(t[|before|], RightField, p)]
    ensures h == before + [Rewire(x, RightField, p)] + (s0 + s1)
  {
    Regrouped(before + [x], s0, s1);
    ReplaceAfter(before, x, s0 + s1, Rewire(x, RightField, p));
  }

  /**
   * The root's content and links and the two query trees built after it
   * make up the layout of `MultiBuilt`, each step as the heap methods
   * state it.
   */
  lemma MultiAssemble(before: Nodes, m: MultiQuery, made: Nodes, h0: Nodes, t0: Nodes, h1: Nodes, t1: Nodes, h2: Nodes)
    requires |m.queries| >= 2 && |m.operators| > 0
    requires made == Alloc(before, NoContent, Null, Null, Null)
    requires |before| < |made| && h0 == made[|before| := made[|before|].(content := SetOpContent(m.operators[0].1))]
    requires t0 == h0 + Built(|h0|, m.queries[0])
    requires |before| < |t0| && h1 == t0[|before| := Rewire(t0[|before|], LeftField, Ref(|h0|))]
    requires t1 == h1 + Built(|h1|, m.queries[1])
    requires |before| < |t1| && h2 == t1[|before| := Rewire(t1[|before|], RightField, Ref(|h1|))]
    ensures h2 == before + MultiBuilt(|before|, m)
  {
    var root := Node(NatToString(|before| + 1), Null, Null, Null, SetOpContent(m.operators[0].1));
    RootStored(before, m.operators[0].1, made, h0);
    LeftLinked(before, root, Built(|h0|, m.queries[0]), t0, h1, Ref(|h0|));
    var withLeft := Rewire(root, LeftField, Ref(|h0|));
    RightLinked(before, withLeft, Built(|h0|, m.queries[0]), Built(|h1|, m.queries[1]), t1, h2, Ref(|h1|));
    MultiLayout(before, m, Rewire(withLeft, RightField, Ref(|h1|)), |h0|, |h1|);
  }

  /** The linked root followed by the two trees is the layout of `MultiBuilt`. */
  lemma MultiLayout(before: Nodes, m: MultiQuery, root: Node, left: nat, right: nat)
    requires |m.queries| >= 2 && |m.operators| > 0
    requires left == |before| + 1 && right == left + BuiltSize(|m.queries[0].from.relations|)
    requires root == Node(NatToString(|before| + 1), Null, Ref(left), Ref(right), SetOpContent(m.operators[0].1))
    ensures before + [root] + (Built(left, m.queries[0]) + Built(right, m.queries[1])) == before + MultiBuilt(|before|, m)
  {
    var s0 := Built(left, m.queries[0]);
    var s1 := Built(right, m.queries[1]);
    MultiBuiltIs(|before|, m, root, left, right);
    Regrouped([root], s0, s1);
    Regrouped(before, [root], s0 + s1);
  }

  /** `MultiBuilt` read off its parts. */
  lemma MultiBuiltIs(b: nat, m: MultiQuery, root: Node, left: nat, right: nat)
    requires |m.queries| >= 2 && |m.operators| > 0
    requires left == b + 1 && right == left + BuiltSize(|m.queries[0].from.relations|)
    requires root == Node(NatToString(b + 1), Null, Ref(left), Ref(right), SetOpContent(m.operators[0].1))
    ensures MultiBuilt(b, m) == [root] + Built(left, m.queries[0]) + Built(right, m.queries[1])
  {
  }

  /**
   * In a two-query tree the root's children are the two query trees, but
   * neither child's `Parent` is set: the root is not consistent with its
   * children, while each query tree is consistent within itself.
   */
  lemma MultiQueryOrphans(before: Nodes, m: MultiQuery)
    requires |m.queries| >= 2 && |m.operators| > 0
    requires |m.queries[0].from.relations| != 1 && |m.queries[1].from.relations| != 1
    ensures var h := before + MultiBuilt(|before|, m); var b := |before|;
      h[b].content == SetOpContent(m.operators[0].1)
      && Live(h, h[b].left) && Live(h, h[b].right)
      && h[h[b].left.index].parent == Null && h[h[b].right.index].parent == Null
      && h[h[b].left.index].content == ProjectionContent(Projection(m.queries[0].select.attributes))
      && h[h[b].right.index].content == ProjectionContent(Projection(m.queries[1].select.attributes))
      && !ChildrenPointBack(h, b)
  {
    var b := |before|;
    var h := before + MultiBuilt(b, m);
    var right := b + 1 + BuiltSize(|m.queries[0].from.relations|);
    var b0 := Built(b + 1, m.queries[0]);
    var b1 := Built(right, m.queries[1]);
    assert h[b + 1] == b0[0];
    assert h[right] == b1[0];
  }
}
