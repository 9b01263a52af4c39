/**
 * Query-tree nodes.  Every `Node` object the program creates lives in one
 * arena, `NodeHeap.nodes`, at the position given by its creation order; the
 * `Parent`, `LeftChild` and `RightChild` references are positions in that
 * arena.  A relation leaf holds the position of its `Relation` object in the
 * relation store (the catalog), so two leaves over the same catalog object
 * compare equal, as the C# references do.
 */
module Heap {
  import opened Wrappers
  import opened Text
  import opened QueryModel
  import opened Statements
  import opened RelationalModel

  /** A node reference: null, or the position of a node in the arena. */
  datatype Ptr = Null | Ref(index: nat)

  /** `Node.Content`, which the source keeps `dynamic`: the kinds the program stores there. */
  datatype Content =
    | NoContent
    | RelationContent(rel: nat)
    | ProjectionContent(projection: Projection)
    | SelectionContent(selection: Selection)
    | JoinContent(join: Join)
    | SetOpContent(op: SetOperator)

  /** The fields of one `Node` object. */
  datatype Node = Node(id: string, parent: Ptr, left: Ptr, right: Ptr, content: Content)

  type Nodes = seq<Node>

  // ---------------------------------------------------------------- reading and writing fields

  /**
   * `p` refers to a node of the arena.  A position past the end cannot arise
   * from the modelled operations; it reads as null.
   */
  predicate Live(nodes: Nodes, p: Ptr)
  {
    p.Ref? && p.index < |nodes|
  }

  /** Dereferencing `p`: null throws a NullReferenceException. */
  function Get(nodes: Nodes, p: Ptr): (r: Result<Node>)
    ensures r.Success? <==> Live(nodes, p)
    ensures r.Failure? ==> r.error == NullReference
    ensures r.Success? ==> r.value == nodes[p.index]
  {
    if Live(nodes, p) then Success(nodes[p.index]) else Failure(NullReference)
  }

  /** The three node references. */
  datatype Field = ParentField | LeftField | RightField

  /** A node with one of its references replaced. */
  function Rewire(n: Node, field: Field, q: Ptr): (m: Node)
    ensures m.id == n.id && m.content == n.content
    ensures field == ParentField ==> m.parent == q && m.left == n.left && m.right == n.right
    ensures field == LeftField ==> m.left == q && m.parent == n.parent && m.right == n.right
    ensures field == RightField ==> m.right == q && m.parent == n.parent && m.left == n.left
  {
    match field
    case ParentField => n.(parent := q)
    case LeftField => n.(left := q)
    case RightField => n.(right := q)
  }

  /** Setting the parent, left child or right child of the node `p` refers to: null `p` throws. */
  function Write(nodes: Nodes, p: Ptr, field: Field, q: Ptr): (r: Result<Nodes>)
    ensures r.Success? <==> Live(nodes, p)
    ensures r.Failure? ==> r.error == NullReference
    ensures r.Success? ==> |r.value| == |nodes|
  {
    if Live(nodes, p) then Success(nodes[p.index := Rewire(nodes[p.index], field, q)]) else Failure(NullReference)
  }

  /**
   * Creating a node: the static counter is incremented and its new value,
   * in decimal, becomes the id; the node is placed at the end of the arena.
   */
  function Alloc(nodes: Nodes, c: Content, parent: Ptr, left: Ptr, right: Ptr): (r: Nodes)
    ensures |r| == |nodes| + 1 && r[..|nodes|] == nodes
    ensures r[|nodes|] == Node(NatToString(|nodes| + 1), parent, left, right, c)
  {
    nodes + [Node(NatToString(|nodes| + 1), parent, left, right, c)]
  }

  /** The id of every node is the decimal value of the counter when it was made. */
  predicate IdsFollowCounter(nodes: Nodes)
  {
    forall i :: 0 <= i < |nodes| ==> IdOf(nodes, i) == NatToString(i + 1)
  }

  /** The id of the node at position `i`. */
  function IdOf(nodes: Nodes, i: nat): string
    requires i < |nodes|
  {
    nodes[i].id
  }

  /** Allocation keeps ids in step with the counter; field updates never touch an id. */
  lemma AllocKeepsIds(nodes: Nodes, c: Content, parent: Ptr, left: Ptr, right: Ptr)
    requires IdsFollowCounter(nodes)
    ensures IdsFollowCounter(Alloc(nodes, c, parent, left, right))
  {
    var r := Alloc(nodes, c, parent, left, right);
    forall i | 0 <= i < |r| ensures IdOf(r, i) == NatToString(i + 1) {
      if i < |nodes| {
        assert IdOf(r, i) == IdOf(nodes, i);
      }
    }
  }

  /** Replacing a node by one with the same id keeps ids in step with the counter. */
  lemma UpdateKeepsIds(nodes: Nodes, k: nat, n: Node)
    requires IdsFollowCounter(nodes) && k < |nodes| && n.id == nodes[k].id
    ensures IdsFollowCounter(nodes[k := n])
  {
    var r := nodes[k := n];
    forall i | 0 <= i < |r| ensures IdOf(r, i) == NatToString(i + 1) {
      assert IdOf(nodes, i) == NatToString(i + 1);
    }
  }

  /** Nodes made at different times have different ids, and a later node's id is numerically larger. */
  lemma {:induction false} IdsIncrease(nodes: Nodes, i: nat, j: nat)
    requires IdsFollowCounter(nodes) && i < j < |nodes|
    ensures nodes[i].id == NatToString(i + 1) && nodes[j].id == NatToString(j + 1)
    ensures nodes[i].id != nodes[j].id
    ensures DigitsValue(nodes[i].id) < DigitsValue(nodes[j].id)
  {
    assert IdOf(nodes, i) == NatToString(i + 1);
    assert IdOf(nodes, j) == NatToString(j + 1);
    NatToStringInjective(i + 1, j + 1);
    DigitsRoundTrip(i + 1);
    DigitsRoundTrip(j + 1);
  }

  // ---------------------------------------------------------------- the arena object

  /**
   * All nodes created by the process, with `Node._idCounter`.  Nodes no longer
   * reachable from any tree stay in the arena.
   */
  class NodeHeap {
    var nodes: Nodes
    var idCounter: nat

    ghost predicate Valid()
      reads this
    {
      idCounter == |nodes| && IdsFollowCounter(nodes)
    }

    /** An empty arena; the counter starts at zero, as a static int does. */
    constructor ()
      ensures Valid() && nodes == []
    {
      nodes := [];
      idCounter := 0;
    }

    /** `new Node()` with the given initialiser: the counter moves on and names the node. */
    method NewNode(c: Content, parent: Ptr, left: Ptr, right: Ptr) returns (p: Ptr)
      requires Valid()
      modifies this
      ensures Valid()
      ensures nodes == Alloc(old(nodes), c, parent, left, right)
      ensures p == Ref(|old(nodes)|) && Live(nodes, p)
      ensures idCounter == old(idCounter) + 1
    {
      AllocKeepsIds(nodes, c, parent, left, right);
      idCounter := idCounter + 1;
      nodes := nodes + [Node(NatToString(idCounter), parent, left, right, c)];
      p := Ref(|nodes| - 1);
    }

    /** `Node.Clear`: the three references become null; content and id stay. */
    method Clear(p: Ptr) returns (o: Outcome)
      requires Valid()
      modifies this
      ensures Valid()
      ensures o.Fail? <==> !Live(old(nodes), p)
      ensures o.Pass? ==> nodes == old(nodes)[p.index := Node(old(nodes)[p.index].id, Null, Null, Null, old(nodes)[p.index].content)]
      ensures o.Fail? ==> nodes == old(nodes)
    {
      if !Live(nodes, p) {
        return Fail(NullReference);
      }
      var n := nodes[p.index];
      UpdateKeepsIds(nodes, p.index, n.(parent := Null, left := Null, right := Null));
      nodes := nodes[p.index := n.(parent := Null, left := Null, right := Null)];
      return Pass;
    }

    /** Assigns one reference of the node `p` refers to. */
    method Assign(p: Ptr, field: Field, q: Ptr)
      requires Valid() && Live(nodes, p)
      modifies this
      ensures Valid()
      ensures nodes == old(nodes)[p.index := Rewire(old(nodes)[p.index], field, q)]
    {
      UpdateKeepsIds(nodes, p.index, Rewire(nodes[p.index], field, q));
      nodes := nodes[p.index := Rewire(nodes[p.index], field, q)];
    }

    /** Setting the content of the node at `p` to `c`. */
    method Store(p: Ptr, c: Content)
      requires Valid() && Live(nodes, p)
      modifies this
      ensures Valid()
      ensures nodes == old(nodes)[p.index := old(nodes)[p.index].(content := c)]
    {
      UpdateKeepsIds(nodes, p.index, nodes[p.index].(content := c));
      nodes := nodes[p.index := nodes[p.index].(content := c)];
    }
  }

  /** The node `Clear` leaves behind is a node with the same id and content and no references. */
  lemma ClearKeepsIdAndContent(h: Nodes, k: nat)
    requires k < |h|
    ensures var c := h[k := Node(h[k].id, Null, Null, Null, h[k].content)];
      c[k].id == h[k].id && c[k].content == h[k].content && c[k].parent == Null && c[k].left == Null && c[k].right == Null
      && forall j :: 0 <= j < |h| && j != k ==> c[j] == h[j]
  {
  }

  // ---------------------------------------------------------------- link consistency

  /** Each child of node `k` has `k` as its `Parent`. */
  predicate ChildrenPointBack(nodes: Nodes, k: nat)
    requires k < |nodes|
  {
    (Live(nodes, nodes[k].left) ==> nodes[nodes[k].left.index].parent == Ref(k))
    && (Live(nodes, nodes[k].right) ==> nodes[nodes[k].right.index].parent == Ref(k))
  }

  /** The `Parent` of node `k`, if any, has `k` as one of its children. */
  predicate ParentPointsDown(nodes: Nodes, k: nat)
    requires k < |nodes|
  {
    Live(nodes, nodes[k].parent) ==>
      nodes[nodes[k].parent.index].left == Ref(k) || nodes[nodes[k].parent.index].right == Ref(k)
  }

  /** Node `k`'s references agree in both directions. */
  predicate Consistent(nodes: Nodes, k: nat)
    requires k < |nodes|
  {
    ChildrenPointBack(nodes, k) && ParentPointsDown(nodes, k)
  }

  /**
   * The relation leaves below node `k`, read left to right (the left
   * subtree, the node itself, the right subtree), following at most `fuel`
   * links.
   */
  function LeafRelations(nodes: Nodes, k: nat, fuel: nat): seq<nat>
    requires k < |nodes|
    decreases fuel
  {
    if fuel == 0 then []
    else
      var x := nodes[k];
      (if Live(nodes, x.left) then LeafRelations(nodes, x.left.index, fuel - 1) else [])
      + (if x.content.RelationContent? then [x.content.rel] else [])
      + (if Live(nodes, x.right) then LeafRelations(nodes, x.right.index, fuel - 1) else [])
  }

  /** The leaves below a node with two children and no relation of its own are the left leaves, then the right. */
  lemma LeavesOfFork(nodes: Nodes, k: nat, l: nat, r: nat, fuel: nat, f: nat)
    requires k < |nodes| && l < |nodes| && r < |nodes| && fuel > 0 && f == fuel - 1
    requires !nodes[k].content.RelationContent? && nodes[k].left == Ref(l) && nodes[k].right == Ref(r)
    ensures LeafRelations(nodes, k, fuel) == LeafRelations(nodes, l, f) + LeafRelations(nodes, r, f)
  {
  }

  /** The leaves below a node with no relation of its own are those of its children, left first. */
  lemma LeavesOfInner(nodes: Nodes, k: nat, fuel: nat)
    requires k < |nodes| && fuel > 0 && !nodes[k].content.RelationContent?
    ensures LeafRelations(nodes, k, fuel)
      == (if Live(nodes, nodes[k].left) then LeafRelations(nodes, nodes[k].left.index, fuel - 1) else [])
         + (if Live(nodes, nodes[k].right) then LeafRelations(nodes, nodes[k].right.index, fuel - 1) else [])
  {
  }

  /** The leaves below a node with no relation of its own and only a left child are that child's. */
  lemma LeavesOfLeftOnly(nodes: Nodes, k: nat, c: nat, fuel: nat, f: nat)
    requires k < |nodes| && c < |nodes| && fuel > 0 && f == fuel - 1 && !nodes[k].content.RelationContent?
    requires nodes[k].left == Ref(c) && nodes[k].right == Null
    ensures LeafRelations(nodes, k, fuel) == LeafRelations(nodes, c, f)
  {
    LeavesOfInner(nodes, k, fuel);
    var l := LeafRelations(nodes, c, f);
    assert l + [] == l;
  }

  /** A node with no relation of its own and no children has no leaves. */
  lemma LeavesOfBare(nodes: Nodes, k: nat, fuel: nat)
    requires k < |nodes| && !nodes[k].content.RelationContent?
    requires nodes[k].left == Null && nodes[k].right == Null
    ensures LeafRelations(nodes, k, fuel) == []
  {
  }

  /** A relation node without children is its own only leaf. */
  lemma LeavesOfLeaf(nodes: Nodes, k: nat, fuel: nat, x: nat)
    requires k < |nodes| && fuel > 0 && nodes[k].content == RelationContent(x)
    requires nodes[k].left == Null && nodes[k].right == Null
    ensures LeafRelations(nodes, k, fuel) == [x]
  {
  }

  // ---------------------------------------------------------------- relation store

  /** The relation a leaf refers to; a position past the store reads as null. */
  function RelationOf(rels: seq<Relation>, r: nat): (res: Result<Relation>)
    ensures res.Success? <==> r < |rels|
    ensures res.Success? ==> res.value == rels[r]
  {
    if r < |rels| then Success(rels[r]) else Failure(NullReference)
  }

  // ---------------------------------------------------------------- rendering

  /** `Node._setOperatorMap`: a glyph between spaces for every set operator. */
  function SetOperatorGlyph(op: SetOperator): (s: string)
    ensures |s| == 3 && s[0] == ' ' && s[2] == ' '
  {
    match op
    case CartesianProduct => " \U{00D7} "
    case Union => " \U{222A} "
    case Intersect => " \U{2229} "
    case Except => " \U{002D} "
    case Division => " \U{00F7} "
  }

  /** Distinct set operators have distinct glyphs. */
  lemma GlyphsDistinct(a: SetOperator, b: SetOperator)
    ensures SetOperatorGlyph(a) == SetOperatorGlyph(b) ==> a == b
  {
    if SetOperatorGlyph(a) == SetOperatorGlyph(b) {
      assert SetOperatorGlyph(a)[1] == SetOperatorGlyph(b)[1];
    }
  }

  /** `Node.GetContentString`: empty for no content, the glyph for a set operator, else the content's own text. */
  function ContentString(c: Content, rels: seq<Relation>): (r: Result<string>)
    ensures c.NoContent? ==> r == Success("")
    ensures c.SetOpContent? ==> r == Success(SetOperatorGlyph(c.op))
    ensures c.RelationContent? && c.rel < |rels| ==> r == Success(rels[c.rel].ToString())
    ensures c.ProjectionContent? ==> r == Success(c.projection.ToString())
    ensures c.SelectionContent? ==> r == c.selection.ToString()
    ensures c.JoinContent? ==> r == c.join.ToString()
  {
    match c
    case NoContent => Success("")
    case SetOpContent(op) => Success(SetOperatorGlyph(op))
    case RelationContent(k) =>
      var rel :- RelationOf(rels, k);
      Success(rel.ToString())
    case ProjectionContent(p) => Success(p.ToString())
    case SelectionContent(s) => s.ToString()
    case JoinContent(j) => j.ToString()
  }

  /** `GetContentString` on the node `p` refers to. */
  function GetContentString(nodes: Nodes, p: Ptr, rels: seq<Relation>): (r: Result<string>)
    ensures !Live(nodes, p) ==> r == Failure(NullReference)
    ensures Live(nodes, p) ==> r == ContentString(nodes[p.index].content, rels)
  {
    var n :- Get(nodes, p);
    ContentString(n.content, rels)
  }

  /**
   * `Node.ToString` with at most `fuel` nested calls.  A path longer than
   * the arena repeats a node, and the C# recursion would not end; `Diverges`
   * stands for that.  A set operator renders its children, a missing child as
   * nothing; a projection or selection renders its content and then its left
   * child, which must exist (the child is rendered first, as the operands of
   * `+` are evaluated before the concatenation calls the content's ToString).
   * Join content matches no branch and renders nothing.
   */
  function NodeText(nodes: Nodes, k: nat, rels: seq<Relation>, fuel: nat): (r: Result<string>)
    requires k < |nodes|
    ensures fuel > 0 && (nodes[k].content.NoContent? || nodes[k].content.JoinContent?) ==> r == Success("")
    ensures fuel > 0 && nodes[k].content.ProjectionContent? && !Live(nodes, nodes[k].left) ==> r == Failure(NullReference)
    ensures fuel > 0 && nodes[k].content.SelectionContent? && !Live(nodes, nodes[k].left) ==> r == Failure(NullReference)
    ensures fuel == 0 ==> r == Failure(Diverges)
    decreases fuel, 0
  {
    if fuel == 0 then Failure(Diverges)
    else
      var n := nodes[k];
      match n.content
      case NoContent => Success("")
      case JoinContent(_) => Success("")
      case RelationContent(ref) =>
        var rel :- RelationOf(rels, ref);
        Success(rel.ToString())
      case ProjectionContent(p) =>
        if !Live(nodes, n.left) then Failure(NullReference)
        else
          var child :- NodeText(nodes, n.left.index, rels, fuel - 1);
          Success(p.ToString() + child)
      case SelectionContent(s) =>
        if !Live(nodes, n.left) then Failure(NullReference)
        else
          var child :- NodeText(nodes, n.left.index, rels, fuel - 1);
          var own :- s.ToString();
          Success(own + child)
      case SetOpContent(op) =>
        var l :- ChildText(nodes, n.left, rels, fuel - 1);
        var r :- ChildText(nodes, n.right, rels, fuel - 1);
        Success("(" + l + SetOperatorGlyph(op) + r + ")")
  }

  /** A child concatenated into a string: null contributes nothing. */
  function ChildText(nodes: Nodes, p: Ptr, rels: seq<Relation>, fuel: nat): (r: Result<string>)
    ensures !Live(nodes, p) ==> r == Success("")
    decreases fuel, 1
  {
    if Live(nodes, p) then NodeText(nodes, p.index, rels, fuel) else Success("")
  }

  /** `Node.ToString` on the tree: null throws; otherwise fuel for one call per node of the arena. */
  function TreeText(nodes: Nodes, p: Ptr, rels: seq<Relation>): (r: Result<string>)
    ensures !Live(nodes, p) ==> r == Failure(NullReference)
  {
    if Live(nodes, p) then NodeText(nodes, p.index, rels, |nodes|) else Failure(NullReference)
  }

  /** A set-operator node renders its two children in parentheses around its glyph. */
  lemma SetOperatorText(nodes: Nodes, k: nat, rels: seq<Relation>, fuel: nat)
    requires k < |nodes| && nodes[k].content.SetOpContent? && fuel > 0
    requires ChildText(nodes, nodes[k].left, rels, fuel - 1).Success?
    requires ChildText(nodes, nodes[k].right, rels, fuel - 1).Success?
    ensures NodeText(nodes, k, rels, fuel) == Success("(" + ChildText(nodes, nodes[k].left, rels, fuel - 1).value
      + SetOperatorGlyph(nodes[k].content.op) + ChildText(nodes, nodes[k].right, rels, fuel - 1).value + ")")
  {
  }

  /** A selection node renders its own text followed by its left child's. */
  lemma SelectionNodeText(nodes: Nodes, k: nat, rels: seq<Relation>, fuel: nat)
    requires k < |nodes| && nodes[k].content.SelectionContent? && fuel > 0 && Live(nodes, nodes[k].left)
    ensures NodeText(nodes, k, rels, fuel).Success? <==>
      nodes[k].content.selection.ToString().Success? && NodeText(nodes, nodes[k].left.index, rels, fuel - 1).Success?
    ensures NodeText(nodes, k, rels, fuel).Success? ==>
      NodeText(nodes, k, rels, fuel).value ==
      nodes[k].content.selection.ToString().value + NodeText(nodes, nodes[k].left.index, rels, fuel - 1).value
  {
  }

  // ---------------------------------------------------------------- snapshots

  /** `CleanNode.name`: the symbols the source leaves undefined are kept symbolic. */
  datatype Label =
    | Unnamed                // the property left null
    | Named(text: string)    // a relation name or a set-operator glyph
    | ProjectionSymbol       // `Projection.Symbol`
    | SelectionSymbol        // `Selection.Symbol`

  /** `CleanNode.subscript`. */
  datatype Subscript =
    | NoSubscript                           // left null
    | AliasSubscript(alias: string)         // `Relation.AliasSymbol + " " + alias`
    | AttributesOf(projection: Projection)  // `Projection.GetAttributeString()`
    | ConditionsOf(selection: Selection)    // `Selection.GetConditionsString()`

  /** `CleanNode`: a display copy of a tree; `preSubscript` is never assigned. */
  datatype CleanNode = CleanNode(name: Label, preSubscript: Option<string>, subscript: Subscript, children: seq<CleanNode>)

  /** The name and subscript `GetCleanNode` chooses for a content. */
  function CleanLabel(c: Content, rels: seq<Relation>): (r: Result<(Label, Subscript)>)
    ensures c.RelationContent? && c.rel < |rels| ==>
      r.Success? && r.value.0 == Named(rels[c.rel].name)
      && (r.value.1 != NoSubscript <==> |rels[c.rel].aliases| > 0)
      && (|rels[c.rel].aliases| > 0 ==> r.value.1 == AliasSubscript(rels[c.rel].aliases[0]))
    ensures c.SetOpContent? ==> r == Success((Named(SetOperatorGlyph(c.op)), NoSubscript))
    ensures c.NoContent? || c.JoinContent? ==> r == Success((Unnamed, NoSubscript))
  {
    match c
    case RelationContent(k) =>
      var rel :- RelationOf(rels, k);
      Success((Named(rel.name), if |rel.aliases| > 0 then AliasSubscript(rel.aliases[0]) else NoSubscript))
    case ProjectionContent(p) => Success((ProjectionSymbol, AttributesOf(p)))
    case SelectionContent(s) => Success((SelectionSymbol, ConditionsOf(s)))
    case SetOpContent(op) => Success((Named(SetOperatorGlyph(op)), NoSubscript))
    case _ => Success((Unnamed, NoSubscript))
  }

  /** `Node.GetCleanNode` with at most `fuel` nested calls; children are the left then the right snapshot, nulls left out. */
  function CleanTree(nodes: Nodes, k: nat, rels: seq<Relation>, fuel: nat): (r: Result<CleanNode>)
    requires k < |nodes|
    ensures fuel == 0 ==> r == Failure(Diverges)
    ensures r.Success? ==> |r.value.children| == (if Live(nodes, nodes[k].left) then 1 else 0) + (if Live(nodes, nodes[k].right) then 1 else 0)
    ensures r.Success? ==> r.value.preSubscript == None
    decreases fuel, 0
  {
    if fuel == 0 then Failure(Diverges)
    else
      var n := nodes[k];
      var named :- CleanLabel(n.content, rels);
      var l :- CleanChild(nodes, n.left, rels, fuel - 1);
      var r :- CleanChild(nodes, n.right, rels, fuel - 1);
      Success(CleanNode(named.0, None, named.1, l + r))
  }

  /** The snapshot of a child as a list of at most one element. */
  function CleanChild(nodes: Nodes, p: Ptr, rels: seq<Relation>, fuel: nat): (r: Result<seq<CleanNode>>)
    ensures !Live(nodes, p) ==> r == Success([])
    ensures r.Success? && Live(nodes, p) ==> |r.value| == 1
    decreases fuel, 1
  {
    if Live(nodes, p) then
      var c :- CleanTree(nodes, p.index, rels, fuel);
      Success([c])
    else Success([])
  }

  /** `Node.GetCleanNode` on the tree: null throws; otherwise fuel for one call per node of the arena. */
  function GetCleanNode(nodes: Nodes, p: Ptr, rels: seq<Relation>): (r: Result<CleanNode>)
    ensures !Live(nodes, p) ==> r == Failure(NullReference)
  {
    if Live(nodes, p) then CleanTree(nodes, p.index, rels, |nodes|) else Failure(NullReference)
  }

  /** The children of a snapshot are the snapshots of the live children, left first. */
  lemma CleanChildrenOrder(nodes: Nodes, k: nat, rels: seq<Relation>, fuel: nat)
    requires k < |nodes| && fuel > 0 && CleanTree(nodes, k, rels, fuel).Success?
    requires Live(nodes, nodes[k].left) && Live(nodes, nodes[k].right)
    ensures CleanTree(nodes, nodes[k].left.index, rels, fuel - 1).Success?
    ensures CleanTree(nodes, nodes[k].right.index, rels, fuel - 1).Success?
    ensures CleanTree(nodes, k, rels, fuel).value.children ==
      [CleanTree(nodes, nodes[k].left.index, rels, fuel - 1).value, CleanTree(nodes, nodes[k].right.index, rels, fuel - 1).value]
  {
  }
}
