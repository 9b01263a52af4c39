/**
 * The read-only helpers of the optimizer that loop: key and join tests,
 * the search for the relation an attribute names, the walks down the left
 * spine and up the `Parent` links, and the restrictive weight as the C#
 * computes it.  Each is a method proved against a specification stated
 * without its loop.
 */
module OptimizerHelpers {
  import opened Wrappers
  import opened QueryModel
  import opened Statements
  import opened RelationalModel
  import opened Heap
  import opened TreeQueries

  // ---------------------------------------------------------------- keys

  /** Attribute `a` of `rel` is called `name` and is one of the relation's primary-key attributes. */
  predicate KeyAt(rel: Relation, a: nat, name: string)
  {
    a < |rel.attributes| && rel.attributes[a].name == name && a in rel.primaryKey
  }

  /** Some relation of the schema has a primary-key attribute called `name`. */
  predicate KeyNamed(schema: seq<Relation>, name: string)
  {
    exists r, a :: 0 <= r < |schema| && 0 <= a < |schema[r].attributes| && KeyAt(schema[r], a, name)
  }

  /**
   * `IsKey`: the attribute is a key when its name is that of a primary-key
   * attribute of some relation of the schema.
   */
  method IsKey(schema: seq<Relation>, attribute: Attribute) returns (b: bool)
    ensures b <==> KeyNamed(schema, attribute.name)
  {
    var r := 0;
    while r < |schema|
      invariant 0 <= r <= |schema|
      invariant forall r', a :: 0 <= r' < r ==> !KeyAt(schema[r'], a, attribute.name)
    {
      var a := 0;
      while a < |schema[r].attributes|
        invariant 0 <= a <= |schema[r].attributes|
        invariant forall a' :: 0 <= a' < a ==> !KeyAt(schema[r], a', attribute.name)
      {
        if attribute.name == schema[r].attributes[a].name && a in schema[r].primaryKey {
          assert KeyAt(schema[r], a, attribute.name);
          return true;
        }
        a := a + 1;
      }
      r := r + 1;
    }
    return false;
  }

  /** A join condition compares two attributes that are both keys. */
  predicate JoinCondition(schema: seq<Relation>, c: Condition)
  {
    c.left.AttrOp? && c.right.AttrOp? && KeyNamed(schema, c.left.attr.name) && KeyNamed(schema, c.right.attr.name)
  }

  /** `IsJoinCondition`: exactly two attribute sides, both keys. */
  method IsJoinCondition(schema: seq<Relation>, c: Condition) returns (b: bool)
    ensures b <==> JoinCondition(schema, c)
  {
    var attributes := c.SideAttributes();
    if |attributes| != 2 {
      return false;
    }
    var key1 := IsKey(schema, attributes[0]);
    var key2 := IsKey(schema, attributes[1]);
    return key1 && key2;
  }

  /**
   * `ContainsJoinCondition`: no answer (null) unless there is exactly one
   * condition; then whether that one is a join condition.
   */
  method ContainsJoinCondition(schema: seq<Relation>, conditions: seq<Condition>) returns (r: Option<bool>)
    ensures |conditions| != 1 ==> r == None
    ensures |conditions| == 1 ==> r == Some(JoinCondition(schema, conditions[0]))
  {
    if |conditions| != 1 {
      return None;
    }
    var result := false;
    for i := 0 to |conditions|
      invariant i == 1 ==> result == JoinCondition(schema, conditions[0])
    {
      var attributes := conditions[i].SideAttributes();
      if |attributes| != 2 {
        return Some(false);
      }
      var key1 := IsKey(schema, attributes[0]);
      var key2 := IsKey(schema, attributes[1]);
      result := key1 && key2;
    }
    return Some(result);
  }

  // ---------------------------------------------------------------- the relation an attribute names

  /**
   * Does `rel` answer to the attribute: it has an attribute of that name,
   * and the attribute's alias is one of its aliases or, when it has none,
   * is its name.
   */
  predicate Answers(rel: Relation, a: Attribute)
  {
    rel.HasAttributeNamed(a.name) && (if |rel.aliases| > 0 then a.alias in rel.aliases else a.alias == rel.name)
  }

  /** Node `k` holds a relation of the store (so `r.Content as Relation` is not null). */
  predicate Resolves(nodes: Nodes, rels: seq<Relation>, k: nat)
  {
    k < |nodes| && nodes[k].content.RelationContent? && nodes[k].content.rel < |rels|
  }

  /** Node `k` holds a relation that answers to the attribute. */
  predicate AnswersAt(nodes: Nodes, rels: seq<Relation>, a: Attribute, k: nat)
  {
    Resolves(nodes, rels, k) && Answers(rels[nodes[k].content.rel], a)
  }

  /**
   * The candidates scanned in order: the first whose relation answers, null
   * when none does; a candidate without a relation throws when reached.
   */
  function FirstAnswering(nodes: Nodes, rels: seq<Relation>, a: Attribute, cands: seq<nat>): (r: Result<Ptr>)
  {
    if |cands| == 0 then Success(Null)
    else if !Resolves(nodes, rels, cands[0]) then Failure(NullReference)
    else if AnswersAt(nodes, rels, a, cands[0]) then Success(Ref(cands[0]))
    else FirstAnswering(nodes, rels, a, cands[1..])
  }

  /**
   * The scan finds the first answering candidate: every candidate before it
   * holds a relation that does not answer; null means none answers; a
   * failure means a candidate without a relation comes before any answer.
   */
  lemma {:induction false} FirstAnsweringMeans(nodes: Nodes, rels: seq<Relation>, a: Attribute, cands: seq<nat>)
    ensures FirstAnswering(nodes, rels, a, cands) == Success(Null) <==>
      forall j :: 0 <= j < |cands| ==> Resolves(nodes, rels, cands[j]) && !AnswersAt(nodes, rels, a, cands[j])
    ensures FirstAnswering(nodes, rels, a, cands).Failure? ==>
      FirstAnswering(nodes, rels, a, cands).error == NullReference
      && (exists i :: 0 <= i < |cands| && !Resolves(nodes, rels, cands[i])
            && forall j :: 0 <= j < i ==> !AnswersAt(nodes, rels, a, cands[j]))
    ensures FirstAnswering(nodes, rels, a, cands).Success? && FirstAnswering(nodes, rels, a, cands).value.Ref? ==>
      exists i :: 0 <= i < |cands| && cands[i] == FirstAnswering(nodes, rels, a, cands).value.index
        && AnswersAt(nodes, rels, a, cands[i])
        && forall j :: 0 <= j < i ==> Resolves(nodes, rels, cands[j]) && !AnswersAt(nodes, rels, a, cands[j])
  {
    if |cands| > 0 {
      var rest := cands[1..];
      FirstAnsweringMeans(nodes, rels, a, rest);
      assert forall j :: 0 <= j < |rest| ==> rest[j] == cands[j + 1];
      var r := FirstAnswering(nodes, rels, a, cands);
      if !Resolves(nodes, rels, cands[0]) {
        assert !Resolves(nodes, rels, cands[0]);
      } else if AnswersAt(nodes, rels, a, cands[0]) {
        assert cands[0] == r.value.index;
      } else {
        if r.Failure? {
          var i :| 0 <= i < |rest| && !Resolves(nodes, rels, rest[i])
            && forall j :: 0 <= j < i ==> !AnswersAt(nodes, rels, a, rest[j]);
          assert !Resolves(nodes, rels, cands[i + 1]);
          assert forall j :: 0 <= j < i + 1 ==> !AnswersAt(nodes, rels, a, cands[j]) by {
            forall j | 0 <= j < i + 1 ensures !AnswersAt(nodes, rels, a, cands[j]) {
              if j > 0 { assert cands[j] == rest[j - 1]; }
            }
          }
        } else if r.value.Ref? {
          var i :| 0 <= i < |rest| && rest[i] == r.value.index && AnswersAt(nodes, rels, a, rest[i])
            && forall j :: 0 <= j < i ==> Resolves(nodes, rels, rest[j]) && !AnswersAt(nodes, rels, a, rest[j]);
          assert cands[i + 1] == r.value.index && AnswersAt(nodes, rels, a, cands[i + 1]);
          assert forall j :: 0 <= j < i + 1 ==> Resolves(nodes, rels, cands[j]) && !AnswersAt(nodes, rels, a, cands[j]) by {
            forall j | 0 <= j < i + 1
              ensures Resolves(nodes, rels, cands[j]) && !AnswersAt(nodes, rels, a, cands[j])
            {
              if j > 0 { assert cands[j] == rest[j - 1]; }
            }
          }
        }
      }
    }
  }

  /**
   * The inner loops of `GetRelationForAttribute` for one relation: with
   * aliases, an attribute of the same name and the alias among them;
   * without, an attribute of the same name and the alias equal to the name.
   */
  method RelationAnswers(rel: Relation, a: Attribute) returns (b: bool)
    ensures b <==> Answers(rel, a)
  {
    var i := 0;
    while i < |rel.attributes|
      invariant 0 <= i <= |rel.attributes|
      invariant forall j :: 0 <= j < i ==>
        !(rel.attributes[j].name == a.name && (if |rel.aliases| > 0 then a.alias in rel.aliases else a.alias == rel.name))
    {
      if |rel.aliases| > 0 {
        if rel.attributes[i].name == a.name && a.alias in rel.aliases {
          return true;
        }
      } else if rel.attributes[i].name == a.name && a.alias == rel.name {
        return true;
      }
      i := i + 1;
    }
    return false;
  }

  /**
   * `GetRelationForAttribute` over the relation nodes `relations`: a null
   * attribute names nothing; a single candidate is returned whatever it
   * holds; otherwise the first candidate whose relation answers, or null.
   */
  method GetRelationForAttribute(nodes: Nodes, rels: seq<Relation>, attribute: Option<Attribute>, relations: seq<nat>)
    returns (r: Result<Ptr>)
    ensures r == RelationFor(nodes, rels, attribute, relations)
    ensures attribute.None? ==> r == Success(Null)
    ensures attribute.Some? && |relations| == 1 ==> r == Success(Ref(relations[0]))
    ensures attribute.Some? && |relations| != 1 ==> r == FirstAnswering(nodes, rels, attribute.value, relations)
  {
    if attribute.None? {
      return Success(Null);
    }
    var a := attribute.value;
    if |relations| == 1 {
      return Success(Ref(relations[0]));
    }
    var i := 0;
    while i < |relations|
      invariant 0 <= i <= |relations|
      invariant FirstAnswering(nodes, rels, a, relations) == FirstAnswering(nodes, rels, a, relations[i..])
    {
      var k := relations[i];
      if !Resolves(nodes, rels, k) {
        return Failure(NullReference);
      }
      var found := RelationAnswers(rels[nodes[k].content.rel], a);
      if found {
        return Success(Ref(k));
      }
      assert relations[i..][1..] == relations[i + 1..];
      i := i + 1;
    }
    return Success(Null);
  }

  /** The answer `GetRelationForAttribute` gives, as one expression for the rules that use it. */
  function RelationFor(nodes: Nodes, rels: seq<Relation>, attribute: Option<Attribute>, relations: seq<nat>): Result<Ptr>
  {
    if attribute.None? then Success(Null)
    else if |relations| == 1 then Success(Ref(relations[0]))
    else FirstAnswering(nodes, rels, attribute.value, relations)
  }

  /** `side as Attribute`: the attribute, or null for any other side. */
  function AsAttribute(x: Operand): (r: Option<Attribute>)
    ensures r.Some? <==> x.AttrOp?
    ensures r.Some? ==> r.value == x.attr
  {
    if x.AttrOp? then Some(x.attr) else None
  }

  // ---------------------------------------------------------------- walking the left spine

  /** The left child of a node; null below null. */
  function LeftOf(nodes: Nodes, p: Ptr): Ptr
  {
    if Live(nodes, p) then nodes[p.index].left else Null
  }

  /** The node `d` steps down the left spine from `p`. */
  function LeftAt(nodes: Nodes, p: Ptr, d: nat): Ptr
    decreases d
  {
    if d == 0 then p else LeftOf(nodes, LeftAt(nodes, p, d - 1))
  }

  /** The walk of `GetFirstCartesian` goes on past `q`: a node that is not a set operator. */
  predicate PassesOver(nodes: Nodes, q: Ptr)
  {
    Live(nodes, q) && !nodes[q.index].content.SetOpContent?
  }

  /** The walk of `GetFirstCartesian` as one expression: at most `fuel` steps down the left spine. */
  function FirstCartesian(nodes: Nodes, p: Ptr, fuel: nat): Result<Ptr>
    decreases fuel
  {
    if !PassesOver(nodes, p) then Success(p)
    else if fuel == 0 then Failure(Diverges)
    else FirstCartesian(nodes, nodes[p.index].left, fuel - 1)
  }

  /**
   * `GetFirstCartesian`: down the left children to the first set operator
   * (of any kind), or to null.  The result is on the left spine, every node
   * above it is passed over, and it is null or a set operator; a left spine
   * longer than the heap is a cycle, on which the C# loop never ends.
   */
  method GetFirstCartesian(nodes: Nodes, p: Ptr) returns (r: Result<Ptr>)
    ensures r == FirstCartesian(nodes, p, |nodes|)
    ensures r.Success? ==> (!PassesOver(nodes, r.value)
      && exists d :: 0 <= d <= |nodes| && LeftAt(nodes, p, d) == r.value
            && forall e :: 0 <= e < d ==> PassesOver(nodes, LeftAt(nodes, p, e)))
    ensures r.Failure? ==> r.error == Diverges && forall e :: 0 <= e <= |nodes| ==> PassesOver(nodes, LeftAt(nodes, p, e))
  {
    var iter := p;
    var d := 0;
    while PassesOver(nodes, iter)
      invariant 0 <= d <= |nodes|
      invariant iter == LeftAt(nodes, p, d)
      invariant FirstCartesian(nodes, p, |nodes|) == FirstCartesian(nodes, iter, |nodes| - d)
      invariant forall e :: 0 <= e < d ==> PassesOver(nodes, LeftAt(nodes, p, e))
      decreases |nodes| - d
    {
      if d == |nodes| {
        return Failure(Diverges);
      }
      iter := nodes[iter.index].left;
      d := d + 1;
    }
    return Success(iter);
  }

  // ---------------------------------------------------------------- walking up

  /** The parent of a node; null above null. */
  function ParentOf(nodes: Nodes, p: Ptr): Ptr
  {
    if Live(nodes, p) then nodes[p.index].parent else Null
  }

  /** The node `d` `Parent` steps above `p`. */
  function Up(nodes: Nodes, p: Ptr, d: nat): Ptr
    decreases d
  {
    if d == 0 then p else ParentOf(nodes, Up(nodes, p, d - 1))
  }

  /** The walk up from `p` passes the node `e` steps above it: a node that is not `root`. */
  predicate Below(nodes: Nodes, root: Ptr, p: Ptr, e: nat)
  {
    Up(nodes, p, e) != root && Live(nodes, Up(nodes, p, e))
  }

  /**
   * `GetDepth`: the number of `Parent` steps from `target` to `root`.  The
   * node that many steps up is the root and no node before it is; a walk
   * that reaches null before the root throws; a walk longer than the heap
   * is a cycle, on which the C# loop never ends.
   */
  method GetDepth(nodes: Nodes, root: Ptr, target: Ptr) returns (r: Result<nat>)
    ensures r.Success? ==> Up(nodes, target, r.value) == root && forall e :: 0 <= e < r.value ==> Below(nodes, root, target, e)
    ensures r.Failure? && r.error == NullReference ==>
      exists d :: 0 <= d <= |nodes| && Up(nodes, target, d) != root && !Live(nodes, Up(nodes, target, d))
        && forall e :: 0 <= e < d ==> Below(nodes, root, target, e)
    ensures r.Failure? && r.error != NullReference ==>
      r.error == Diverges && forall e :: 0 <= e <= |nodes| ==> Below(nodes, root, target, e)
  {
    var iter := target;
    var depth := 0;
    while iter != root
      invariant 0 <= depth <= |nodes|
      invariant iter == Up(nodes, target, depth)
      invariant forall e :: 0 <= e < depth ==> Below(nodes, root, target, e)
      decreases |nodes| - depth
    {
      if !Live(nodes, iter) {
        return Failure(NullReference);
      }
      if depth == |nodes| {
        return Failure(Diverges);
      }
      iter := nodes[iter.index].parent;
      depth := depth + 1;
    }
    return Success(depth);
  }

  // ---------------------------------------------------------------- attributes needed above a node

  /** The attributes of a list, as dynamically typed items. */
  function AttributeItems(xs: seq<Attribute>): (r: seq<Operand>)
    ensures |r| == |xs| && forall i :: 0 <= i < |xs| ==> r[i] == AttrOp(xs[i])
  {
    seq(|xs|, i requires 0 <= i < |xs| => AttrOp(xs[i]))
  }

  /** The attribute sides of the conditions, condition by condition, left before right. */
  function ConditionAttributes(cs: seq<Condition>): seq<Operand>
  {
    if |cs| == 0 then [] else AttributeItems(cs[0].SideAttributes()) + ConditionAttributes(cs[1..])
  }

  /**
   * What a node between the start and the root adds: a selection every
   * attribute side of its conditions, a join both sides of its condition,
   * anything else (a projection ends the walk) nothing.
   */
  function Demands(c: Content): seq<Operand>
  {
    match c
    case SelectionContent(s) => ConditionAttributes(s.conditions)
    case JoinContent(j) => [j.condition.left, j.condition.right]
    case _ => []
  }

  /**
   * Can the items be added to a `List<Attribute>`: each is an attribute or
   * null.  Any other dynamic value fails the runtime conversion.
   */
  predicate Bindable(items: seq<Operand>)
  {
    forall i :: 0 <= i < |items| ==> items[i].AttrOp? || items[i].NullOp?
  }

  /**
   * The walk of `GetMinimumParentalAttributes` from `p` up: nothing at the
   * root; a projection gives its attributes and ends the walk; any other
   * node adds its demands and the walk goes on to its parent; null below
   * the root throws.  When the list is `typed` (the legacy optimizer's
   * `List<Attribute>`, rather than `List<dynamic>`), a join side that is
   * neither an attribute nor null fails the conversion when it is added.
   */
  function Parental(nodes: Nodes, root: Ptr, p: Ptr, fuel: nat, typed: bool): (r: Result<seq<Operand>>)
    ensures r.Success? && typed ==> Bindable(r.value)
    decreases fuel
  {
    if p == root then Success([])
    else if !Live(nodes, p) then Failure(NullReference)
    else if nodes[p.index].content.ProjectionContent? then
      Success(AttributeItems(nodes[p.index].content.projection.attributes))
    else if typed && !Bindable(Demands(nodes[p.index].content)) then Failure(RuntimeBinder)
    else if fuel == 0 then Failure(Diverges)
    else
      var rest :- Parental(nodes, root, nodes[p.index].parent, fuel - 1, typed);
      Success(Demands(nodes[p.index].content) + rest)
  }

  /** A list already gathered, in front of what the rest of the walk gathers. */
  function Prefixed(acc: seq<Operand>, r: Result<seq<Operand>>): (s: Result<seq<Operand>>)
    ensures s.Success? <==> r.Success?
    ensures r.Success? ==> s.value == acc + r.value
    ensures r.Failure? ==> s == r
  {
    if r.Success? then Success(acc + r.value) else r
  }

  /** `GetMinimumParentalAttributes(node, root)`: the walk from the node's parent; a null node throws. */
  method GetMinimumParentalAttributes(nodes: Nodes, node: Ptr, root: Ptr, typed: bool) returns (r: Result<seq<Operand>>)
    ensures !Live(nodes, node) ==> r == Failure(NullReference)
    ensures Live(nodes, node) ==> r == Parental(nodes, root, nodes[node.index].parent, |nodes|, typed)
  {
    if !Live(nodes, node) {
      return Failure(NullReference);
    }
    var start := nodes[node.index].parent;
    var result: seq<Operand> := [];
    var cursor := start;
    var fuel: nat := |nodes|;
    PrefixedNothing(Parental(nodes, root, cursor, fuel, typed));
    while cursor != root
      invariant Parental(nodes, root, start, |nodes|, typed) == Prefixed(result, Parental(nodes, root, cursor, fuel, typed))
      decreases fuel
    {
      if !Live(nodes, cursor) {
        return Failure(NullReference);
      }
      var c := nodes[cursor.index].content;
      if c.ProjectionContent? {
        return Success(result + AttributeItems(c.projection.attributes));
      }
      if typed && !Bindable(Demands(c)) {
        return Failure(RuntimeBinder);
      }
      if fuel == 0 {
        return Failure(Diverges);
      }
      PrefixedTwice(result, Demands(c), Parental(nodes, root, nodes[cursor.index].parent, fuel - 1, typed));
      result := result + Demands(c);
      cursor := nodes[cursor.index].parent;
      fuel := fuel - 1;
    }
    assert result + [] == result;
    return Success(result);
  }

  /** Nothing gathered in front leaves the result as it is. */
  lemma PrefixedNothing(r: Result<seq<Operand>>)
    ensures Prefixed([], r) == r
  {
    if r.Success? { assert [] + r.value == r.value; }
  }

  /** Two lists gathered in front, one after the other, are their concatenation in front. */
  lemma PrefixedTwice(a: seq<Operand>, b: seq<Operand>, r: Result<seq<Operand>>)
    ensures Prefixed(a, Prefixed(b, r)) == Prefixed(a + b, r)
  {
    if r.Success? { assert a + (b + r.value) == (a + b) + r.value; }
  }

  /**
   * The walk never reads the root: whatever the root holds, the attributes
   * gathered below it are the same.
   */
  lemma {:induction false} ParentalIgnoresRoot(nodes: Nodes, root: nat, c: Content, p: Ptr, fuel: nat, typed: bool)
    requires root < |nodes|
    ensures Parental(nodes[root := nodes[root].(content := c)], Ref(root), p, fuel, typed) == Parental(nodes, Ref(root), p, fuel, typed)
    decreases fuel
  {
    var other := nodes[root := nodes[root].(content := c)];
    if p != Ref(root) && Live(nodes, p) && fuel > 0 {
      assert other[p.index] == nodes[p.index];
      ParentalIgnoresRoot(nodes, root, c, nodes[p.index].parent, fuel - 1, typed);
    }
  }

  /** A walk that starts at a projection stops there, whatever lies above it. */
  lemma ParentalStopsAtProjection(nodes: Nodes, root: Ptr, k: nat, fuel: nat, typed: bool)
    requires k < |nodes| && Ref(k) != root && nodes[k].content.ProjectionContent?
    ensures Parental(nodes, root, Ref(k), fuel, typed) == Success(AttributeItems(nodes[k].content.projection.attributes))
  {
  }

  // ---------------------------------------------------------------- restrictive weight, as computed

  /** The loop of `GetRestrictiveWeight` over a selection's conditions. */
  method SelectionWeight(cs: seq<Condition>) returns (count: int)
    ensures count == ConditionsWeight(cs)
  {
    count := 0;
    for i := 0 to |cs|
      invariant count == ConditionsWeight(cs[..i])
    {
      if cs[i].op == Equals || cs[i].op == NotEqualToExclamation {
        count := count + 1;
      }
      count := count + 1;
      assert cs[..i + 1][..i] == cs[..i];
    }
    assert cs[..|cs|] == cs;
  }

  /** `GetRestrictiveWeight(node)`, recursion and loop as in the C#, with the fuel of the tree queries. */
  method Weigh(nodes: Nodes, p: Ptr, fuel: nat) returns (r: Result<int>)
    ensures r == Weight(nodes, p, fuel)
    decreases fuel
  {
    if !Live(nodes, p) {
      return Failure(NullReference);
    }
    if fuel == 0 {
      return Failure(Diverges);
    }
    var x := nodes[p.index];
    match x.content
    case SetOpContent(_) =>
      var l := Weigh(nodes, x.left, fuel - 1);
      if l.Failure? { return l; }
      var rr := Weigh(nodes, x.right, fuel - 1);
      if rr.Failure? { return rr; }
      return Success(l.value + rr.value);
    case SelectionContent(s) =>
      var w := SelectionWeight(s.conditions);
      var l := Weigh(nodes, x.left, fuel - 1);
      if l.Failure? { return l; }
      return Success(w + l.value);
    case ProjectionContent(_) =>
      r := Weigh(nodes, x.left, fuel - 1);
    case _ =>
      return Success(0);
  }
}
