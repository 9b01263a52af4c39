/**
 * The statements of a parsed SQL query (select, from, where, group by), a
 * query, a sequence of queries joined by set operators, and their ToString
 * renderings.
 */
module Statements {
  import opened Wrappers
  import opened Text
  import opened QueryModel

  /** `Environment.NewLine` on the Windows hosts the program targets. */
  const NewLine: string := "\r\n"

  // ---------------------------------------------------------------- comma lists

  /**
   * The rendering loop shared by the select, from, group-by and projection
   * texts: each item is appended, and after every item but the last a comma
   * is inserted before the LAST character of the text built so far.
   */
  function CommaFold(acc: string, items: seq<string>): (s: string)
    requires |acc| > 0
    ensures |s| == |acc| + |Concat(items)| + (if |items| == 0 then 0 else |items| - 1)
    decreases |items|
  {
    if |items| == 0 then acc
    else
      var a := acc + items[0];
      if |items| == 1 then a
      else CommaFold(Insert(a, |a| - 1, ","), items[1..])
  }

  /** The comma fold leaves all but the last character of its start in place. */
  lemma {:induction false} CommaFoldKeepsStart(acc: string, items: seq<string>)
    requires |acc| > 0
    ensures CommaFold(acc, items)[..|acc| - 1] == acc[..|acc| - 1]
    decreases |items|
  {
    if |items| > 0 {
      var a := acc + items[0];
      assert a[..|acc| - 1] == acc[..|acc| - 1];
      if |items| >= 2 {
        var b := Insert(a, |a| - 1, ",");
        CommaFoldKeepsStart(b, items[1..]);
        assert b[..|acc| - 1] == acc[..|acc| - 1] by {
          assert b[..|a| - 1] == a[..|a| - 1];
        }
        assert CommaFold(acc, items)[..|acc| - 1] == CommaFold(b, items[1..])[..|b| - 1][..|acc| - 1];
      }
    }
  }

  /** A non-empty text with a comma placed before its last character. */
  function CommaBeforeLast(t: string): (u: string)
    requires |t| > 0
    ensures |u| == |t| + 1
  {
    t[..|t| - 1] + "," + t[|t| - 1..]
  }

  predicate NonEmptyItems(items: seq<string>)
  {
    forall i :: 0 <= i < |items| ==> |items[i]| > 0
  }

  /**
   * The text the comma fold appends, written item by item: every item but
   * the last carries a comma before its own last character.
   */
  function Marked(items: seq<string>): string
    requires NonEmptyItems(items)
    decreases |items|
  {
    if |items| == 0 then ""
    else if |items| == 1 then items[0]
    else CommaBeforeLast(items[0]) + Marked(items[1..])
  }

  /** Inserting a comma before the last character of `acc + t` marks `t`. */
  lemma InsertBeforeLast(acc: string, t: string)
    requires |t| > 0
    ensures Insert(acc + t, |acc + t| - 1, ",") == acc + CommaBeforeLast(t)
  {
    var a := acc + t;
    assert a[..|a| - 1] == acc + t[..|t| - 1];
    assert a[|a| - 1..] == t[|t| - 1..];
  }

  /** One round of the comma fold marks the first of several items. */
  lemma CommaFoldStep(acc: string, items: seq<string>)
    requires |acc| > 0 && |items| >= 2 && |items[0]| > 0
    ensures CommaFold(acc, items) == CommaFold(acc + CommaBeforeLast(items[0]), items[1..])
  {
    CommaFoldUnfold(acc, items);
    InsertBeforeLast(acc, items[0]);
  }

  /** The comma fold over several items goes on from the start with the first item appended and marked. */
  lemma CommaFoldUnfold(acc: string, items: seq<string>)
    requires |acc| > 0 && |items| >= 2
    ensures CommaFold(acc, items) == CommaFold(Insert(acc + items[0], |acc + items[0]| - 1, ","), items[1..])
  {
  }

  /** When no item is empty, the comma fold appends `Marked(items)` to its start. */
  lemma {:induction false} CommaFoldClosedForm(acc: string, items: seq<string>)
    requires |acc| > 0 && NonEmptyItems(items)
    ensures CommaFold(acc, items) == acc + Marked(items)
    decreases |items|
  {
    if |items| >= 2 {
      var c := CommaBeforeLast(items[0]);
      var rest := items[1..];
      MarkedTail(items);
      CommaFoldStep(acc, items);
      CommaFoldClosedForm(acc + c, rest);
      AppendAssociates(acc, c, Marked(rest));
    }
  }

  /** Marking several items marks the first, then the rest. */
  lemma MarkedTail(items: seq<string>)
    requires NonEmptyItems(items) && |items| >= 2
    ensures NonEmptyItems(items[1..])
    ensures Marked(items) == CommaBeforeLast(items[0]) + Marked(items[1..])
  {
    forall i | 0 <= i < |items[1..]| ensures |items[1..][i]| > 0 { assert items[1..][i] == items[i + 1]; }
  }

  lemma AppendAssociates(a: string, b: string, c: string)
    ensures (a + b) + c == a + (b + c)
  {
  }

  /**
   * Items that each end in a space, as relation texts do, are marked into the
   * names joined by ", " followed by one space.
   */
  lemma {:induction false} MarkedSpaced(names: seq<string>)
    requires |names| > 0
    ensures NonEmptyItems(Spaced(names))
    ensures Marked(Spaced(names)) == Interleave(names, ", ") + " "
    decreases |names|
  {
    var sp := Spaced(names);
    assert NonEmptyItems(sp);
    if |names| >= 2 {
      assert Spaced(names)[1..] == Spaced(names[1..]);
      MarkedSpaced(names[1..]);
      var n0 := names[0] + " ";
      assert CommaBeforeLast(n0) == names[0] + ", " by {
        assert n0[..|n0| - 1] == names[0];
        assert n0[|n0| - 1..] == " ";
      }
    }
  }

  /** Each name followed by one space. */
  function Spaced(names: seq<string>): (r: seq<string>)
    ensures |r| == |names| && forall i :: 0 <= i < |names| ==> r[i] == names[i] + " "
  {
    seq(|names|, i requires 0 <= i < |names| => names[i] + " ")
  }

  // ---------------------------------------------------------------- select, from, group by

  /** The texts of a list of attributes. */
  function AttributeTexts(xs: seq<Attribute>): (r: seq<string>)
    ensures |r| == |xs| && forall i :: 0 <= i < |xs| ==> r[i] == xs[i].ToString()
  {
    seq(|xs|, i requires 0 <= i < |xs| => xs[i].ToString())
  }

  /** The attribute list of a select clause. */
  datatype SelectStatement = SelectStatement(attributes: seq<Attribute>)
  {
    /**
     * `SelectStatement.ToString`: empty for no attributes, else `select `
     * followed by the attributes through the comma fold.
     */
    function ToString(): (s: string)
      ensures |attributes| == 0 <==> s == ""
      ensures |attributes| > 0 ==> s == CommaFold("select ", AttributeTexts(attributes))
    {
      if |attributes| == 0 then "" else CommaFold("select ", AttributeTexts(attributes))
    }
  }

  /**
   * The commas of a select list fall before the last character of each
   * attribute but the last, so `s.sname, s.age` reads `select s.snam,es.age`.
   */
  lemma SelectTextClosedForm(st: SelectStatement)
    requires |st.attributes| > 0 && NonEmptyItems(AttributeTexts(st.attributes))
    ensures st.ToString() == "select " + Marked(AttributeTexts(st.attributes))
  {
    CommaFoldClosedForm("select ", AttributeTexts(st.attributes));
  }

  /** The `from` list: relations of the catalog, held as positions in a relation store. */
  datatype FromStatement = FromStatement(relations: seq<nat>)
  {
    predicate Valid(store: seq<Relation>)
    {
      forall i :: 0 <= i < |relations| ==> relations[i] < |store|
    }

    /** The names of the listed relations. */
    function Names(store: seq<Relation>): (r: seq<string>)
      requires Valid(store)
      ensures |r| == |relations| && forall i :: 0 <= i < |relations| ==> r[i] == store[relations[i]].name
    {
      seq(|relations|, i requires 0 <= i < |relations| => store[relations[i]].name)
    }

    /** `FromStatement.ToString`: `from ` and the relation texts through the comma fold. */
    function ToString(store: seq<Relation>): (s: string)
      requires Valid(store)
      ensures |relations| == 0 <==> s == ""
      ensures |relations| > 0 ==> s == CommaFold("from ", Spaced(Names(store)))
    {
      if |relations| == 0 then ""
      else
        var texts := Spaced(Names(store));
        assert forall i :: 0 <= i < |relations| ==> store[relations[i]].ToString() == texts[i];
        CommaFold("from ", texts)
    }
  }

  /** A from list reads `from ` and the relation names joined by ", ", then a space. */
  lemma FromTextNames(f: FromStatement, store: seq<Relation>)
    requires f.Valid(store) && |f.relations| > 0
    ensures f.ToString(store) == "from " + Interleave(f.Names(store), ", ") + " "
  {
    MarkedSpaced(f.Names(store));
    CommaFoldClosedForm("from ", Spaced(f.Names(store)));
  }

  /** The dynamic ToString of each item, failing at the first null. */
  function OperandTexts(xs: seq<Operand>): (r: Result<seq<string>>)
    ensures r.Success? <==> forall i :: 0 <= i < |xs| ==> !xs[i].NullOp?
    ensures r.Failure? ==> r.error == RuntimeBinder
    ensures r.Success? ==> |r.value| == |xs| && forall i :: 0 <= i < |xs| ==> Success(r.value[i]) == OperandText(xs[i])
    decreases |xs|
  {
    if |xs| == 0 then Success([])
    else
      var t :- OperandText(xs[0]);
      var rest :- OperandTexts(xs[1..]);
      assert forall i :: 1 <= i < |xs| ==> xs[i] == xs[1..][i - 1];
      Success([t] + rest)
  }

  /** The grouping list of a group-by clause; its items are dynamically typed. */
  datatype GroupByStatement = GroupByStatement(attributes: seq<Operand>)
  {
    /**
     * `GroupByStatement.ToString`: like the select list, and it too starts
     * with `select `; a null item cannot be rendered.
     */
    function ToString(): (r: Result<string>)
      ensures |attributes| == 0 ==> r == Success("")
      ensures r.Failure? <==> exists i :: 0 <= i < |attributes| && attributes[i].NullOp?
      ensures r.Success? && |attributes| > 0 ==> r.value == CommaFold("select ", OperandTexts(attributes).value)
      ensures r.Success? && |attributes| > 0 ==> StartsWith(r.value, "select")
    {
      if |attributes| == 0 then Success("")
      else
        var texts :- OperandTexts(attributes);
        CommaFoldKeepsStart("select ", texts);
        Success(CommaFold("select ", texts))
    }
  }

  // ---------------------------------------------------------------- where

  /** ScriptDom's BooleanBinaryExpressionType. */
  datatype LogicalOp = And | Or

  /** `WhereStatement.OperatorMap`. */
  function WhereWord(op: LogicalOp): string
  {
    match op
    case And => "and "
    case Or => "or "
  }

  /**
   * Conditions `i - 1` and `i` are linked by an operator.  Operator maps are
   * keyed by the positions of the two conditions (the C# keys are pairs of
   * the condition objects themselves).
   */
  predicate Linked<V>(ops: map<(nat, nat), V>, i: nat)
  {
    i > 0 && (i - 1, i) in ops
  }

  /** Items `i - 1` and `i` are linked by the operator `v`. */
  predicate LinkedBy<V(==)>(ops: map<(nat, nat), V>, i: nat, v: V)
  {
    Linked(ops, i) && ops[(i - 1, i)] == v
  }

  /** Every pair of neighbours among the first `n` items is linked. */
  predicate AllLinked<V>(ops: map<(nat, nat), V>, n: nat)
  {
    forall i :: 1 <= i < n ==> Linked(ops, i)
  }

  /** The first `n` conditions all have a rendered comparison operator. */
  predicate AllRendered(conds: seq<Condition>, n: nat)
    requires n <= |conds|
  {
    forall i :: 0 <= i < n ==> Rendered(conds[i].op)
  }

  lemma RenderedStep(conds: seq<Condition>, n: nat)
    requires 1 <= n <= |conds|
    ensures AllRendered(conds, n) <==> AllRendered(conds, n - 1) && Rendered(conds[n - 1].op)
  {
  }

  lemma LinkedStep<V>(ops: map<(nat, nat), V>, n: nat)
    requires n >= 2
    ensures AllLinked(ops, n) <==> AllLinked(ops, n - 1) && Linked(ops, n - 1)
  {
  }

  /**
   * The rendering loop shared by the where clause and the selection: the
   * first condition, then for each further one the word of the operator
   * linking it to its predecessor and its own text.  A missing link or an
   * unrendered condition throws KeyNotFound.
   */
  function ChainText(conds: seq<Condition>, ops: map<(nat, nat), LogicalOp>, word: LogicalOp -> string, n: nat): (r: Result<string>)
    requires 1 <= n <= |conds|
    ensures r.Success? <==> AllRendered(conds, n) && AllLinked(ops, n)
    ensures r.Failure? ==> r.error == KeyNotFound
    decreases n
  {
    if n == 1 then conds[0].ToString()
    else
      RenderedStep(conds, n);
      LinkedStep(ops, n);
      var head :- ChainText(conds, ops, word, n - 1);
      if (n - 2, n - 1) !in ops then
        assert !Linked(ops, n - 1);
        Failure(KeyNotFound)
      else
        var c :- conds[n - 1].ToString();
        Success(head + word(ops[(n - 2, n - 1)]) + c)
  }

  /** One more round of the chain appends the linking word and the next condition's text. */
  lemma ChainTextStep(conds: seq<Condition>, ops: map<(nat, nat), LogicalOp>, word: LogicalOp -> string, n: nat)
    requires 2 <= n <= |conds| && AllRendered(conds, n) && AllLinked(ops, n)
    ensures ChainText(conds, ops, word, n - 1).Success? && Linked(ops, n - 1)
    ensures ChainText(conds, ops, word, n) ==
      Success(ChainText(conds, ops, word, n - 1).value + word(ops[(n - 2, n - 1)]) + conds[n - 1].ToString().value)
  {
    RenderedStep(conds, n);
    LinkedStep(ops, n);
  }

  /** The texts of the first `n` conditions, all of which render. */
  function ConditionTexts(conds: seq<Condition>, n: nat): (r: seq<string>)
    requires n <= |conds| && AllRendered(conds, n)
    ensures |r| == n && forall i :: 0 <= i < n ==> Success(r[i]) == conds[i].ToString()
  {
    seq(n, i requires 0 <= i < n && AllRendered(conds, n) => conds[i].ToString().value)
  }

  lemma ConditionTextsSnoc(conds: seq<Condition>, n: nat)
    requires 1 <= n <= |conds| && AllRendered(conds, n)
    ensures AllRendered(conds, n - 1)
    ensures ConditionTexts(conds, n) == ConditionTexts(conds, n - 1) + [conds[n - 1].ToString().value]
  {
    RenderedStep(conds, n);
    var ts := ConditionTexts(conds, n);
    var us := ConditionTexts(conds, n - 1) + [conds[n - 1].ToString().value];
    assert |ts| == |us|;
    forall i | 0 <= i < n ensures ts[i] == us[i] {
      if i < n - 1 {
        assert Success(us[i]) == conds[i].ToString();
      }
    }
  }

  /** `String.Join` with one separator satisfies `Join(xs + [x]) == Join(xs) + sep + x`. */
  lemma {:induction false} InterleaveSnoc(xs: seq<string>, x: string, sep: string)
    requires |xs| > 0
    ensures Interleave(xs + [x], sep) == Interleave(xs, sep) + sep + x
    decreases |xs|
  {
    if |xs| > 1 {
      assert (xs + [x])[1..] == xs[1..] + [x];
      InterleaveSnoc(xs[1..], x, sep);
    } else {
      assert (xs + [x])[1..] == [x];
    }
  }

  /**
   * When every link is the same operator, the chain is the condition texts
   * joined by that operator's word.
   */
  lemma {:induction false} ChainUniform(conds: seq<Condition>, ops: map<(nat, nat), LogicalOp>, word: LogicalOp -> string, w: LogicalOp, n: nat)
    requires 1 <= n <= |conds| && AllRendered(conds, n)
    requires forall i :: 1 <= i < n ==> LinkedBy(ops, i, w)
    ensures ChainText(conds, ops, word, n) == Success(Interleave(ConditionTexts(conds, n), word(w)))
    decreases n
  {
    assert AllLinked(ops, n) by {
      forall i | 1 <= i < n ensures Linked(ops, i) { assert LinkedBy(ops, i, w); }
    }
    if n > 1 {
      ConditionTextsSnoc(conds, n);
      ChainUniform(conds, ops, word, w, n - 1);
      assert LinkedBy(ops, n - 1, w);
      var c := conds[n - 1].ToString().value;
      InterleaveSnoc(ConditionTexts(conds, n - 1), c, word(w));
      ChainTextStep(conds, ops, word, n);
    }
  }

  /** The conditions of a where clause and the operators linking neighbours. */
  datatype WhereStatement = WhereStatement(conditions: seq<Condition>, operators: map<(nat, nat), LogicalOp>)
  {
    /**
     * `WhereStatement.ToString`: empty without conditions, else `where `
     * followed by the condition chain; it throws when a condition's operator
     * or a neighbouring pair has no entry in its map.
     */
    function ToString(): (r: Result<string>)
      ensures |conditions| == 0 ==> r == Success("")
      ensures r.Success? <==> AllRendered(conditions, |conditions|) && AllLinked(operators, |conditions|)
      ensures r.Failure? ==> r.error == KeyNotFound
      ensures |conditions| > 0 && r.Success? ==> StartsWith(r.value, "where ")
    {
      if |conditions| == 0 then Success("")
      else
        var c :- ChainText(conditions, operators, WhereWord, |conditions|);
        Success("where " + c)
    }
  }

  /** A where clause whose conditions are all joined by `and` reads as their texts joined by "and ". */
  lemma WhereAllAnd(w: WhereStatement)
    requires |w.conditions| > 0 && AllRendered(w.conditions, |w.conditions|)
    requires forall i :: 1 <= i < |w.conditions| ==> LinkedBy(w.operators, i, And)
    ensures w.ToString() == Success("where " + Interleave(ConditionTexts(w.conditions, |w.conditions|), "and "))
  {
    ChainUniform(w.conditions, w.operators, WhereWord, And, |w.conditions|);
  }

  // ---------------------------------------------------------------- query

  /** A single select-from-where query; `from` names relations of the store. */
  datatype Query = Query(originalString: string, select: SelectStatement, from: FromStatement, where: WhereStatement)
  {
    /** `new Query()`: empty statements. */
    static function New(): (q: Query)
      ensures q.select.attributes == [] && q.from.relations == [] && q.where.conditions == []
      ensures q.where.operators == map[]
    {
      Query("", SelectStatement([]), FromStatement([]), WhereStatement([], map[]))
    }

    /** `Query.ToString`: the three statements, each ended by a line break. */
    function ToString(store: seq<Relation>): (r: Result<string>)
      requires from.Valid(store)
      ensures r.Success? <==> where.ToString().Success?
      ensures r.Failure? ==> r.error == KeyNotFound
      ensures r.Success? ==> r.value == select.ToString() + NewLine + from.ToString(store) + NewLine + where.ToString().value + NewLine
    {
      var w :- where.ToString();
      Success(select.ToString() + NewLine + from.ToString(store) + NewLine + w + NewLine)
    }
  }

  /** An empty query renders as three empty lines. */
  lemma EmptyQueryText(store: seq<Relation>)
    ensures Query.New().ToString(store) == Success("\r\n\r\n\r\n")
  {
    var q := Query.New();
    assert q.select.ToString() == "" && q.from.ToString(store) == "" && q.where.ToString() == Success("");
    assert "" + NewLine + "" + NewLine + "" + NewLine == "\r\n\r\n\r\n";
  }

  // ---------------------------------------------------------------- multi-query

  /**
   * `SetOperator`.  `Division` is used by the node renderer but missing from
   * the enum of the revision modelled; it is kept so that renderer can be
   * stated.
   */
  datatype SetOperator = Union | Intersect | Except | CartesianProduct | Division

  /** `MultiQuery.OperatorMap`: only the three SQL set operators have a word. */
  function SetOperatorWord(op: SetOperator): (r: Option<string>)
    ensures r.Some? <==> op == Union || op == Intersect || op == Except
  {
    match op
    case Union => Some("union ")
    case Intersect => Some("intersect ")
    case Except => Some("except ")
    case _ => None
  }

  /** The value of the first entry with key `k` of an association list (a dictionary in insertion order). */
  function Lookup<K(==), V>(xs: seq<(K, V)>, k: K): (r: Option<V>)
    ensures r.None? <==> forall i :: 0 <= i < |xs| ==> xs[i].0 != k
    ensures r.Some? ==> exists i :: 0 <= i < |xs| && xs[i] == (k, r.value)
    decreases |xs|
  {
    if |xs| == 0 then None
    else if xs[0].0 == k then Some(xs[0].1)
    else
      var r := Lookup(xs[1..], k);
      assert forall i :: 1 <= i < |xs| ==> xs[i] == xs[1..][i - 1];
      r
  }

  /** Queries `i - 1` and `i` are joined by a set operator that has a word. */
  predicate WordLinked(ops: seq<((nat, nat), SetOperator)>, i: nat)
  {
    i > 0 && Lookup(ops, (i - 1, i)).Some? && SetOperatorWord(Lookup(ops, (i - 1, i)).value).Some?
  }

  /** The first `n` queries render (only a where clause can fail to). */
  predicate QueriesRender(queries: seq<Query>, n: nat)
    requires n <= |queries|
  {
    forall i :: 0 <= i < n ==> queries[i].where.ToString().Success?
  }

  /** Every pair of neighbours among the first `n` queries is joined by a worded operator. */
  predicate AllWordLinked(ops: seq<((nat, nat), SetOperator)>, n: nat)
  {
    forall i :: 1 <= i < n ==> WordLinked(ops, i)
  }

  predicate QueriesValid(queries: seq<Query>, store: seq<Relation>)
  {
    forall i :: 0 <= i < |queries| ==> queries[i].from.Valid(store)
  }

  /** The multi-query rendering loop over the first `n` queries. */
  function QueryChain(queries: seq<Query>, ops: seq<((nat, nat), SetOperator)>, store: seq<Relation>, n: nat): (r: Result<string>)
    requires 1 <= n <= |queries| && QueriesValid(queries, store)
    ensures r.Success? <==> QueriesRender(queries, n) && AllWordLinked(ops, n)
    ensures r.Failure? ==> r.error == KeyNotFound
    decreases n
  {
    if n == 1 then queries[0].ToString(store)
    else
      var head :- QueryChain(queries, ops, store, n - 1);
      match Lookup(ops, (n - 2, n - 1))
      case None =>
        assert !WordLinked(ops, n - 1);
        Failure(KeyNotFound)
      case Some(op) =>
        match SetOperatorWord(op)
        case None =>
          assert !WordLinked(ops, n - 1);
          Failure(KeyNotFound)
        case Some(w) =>
          var q :- queries[n - 1].ToString(store);
          Success(head + w + NewLine + q + NewLine)
  }

  /** Queries and the set operators joining neighbours, in insertion order. */
  datatype MultiQuery = MultiQuery(queries: seq<Query>, operators: seq<((nat, nat), SetOperator)>)
  {
    /**
     * `MultiQuery.ToString`: empty without queries, the query's own text for
     * one, else the first query followed by each operator word, a line
     * break, the next query and a line break.
     */
    function ToString(store: seq<Relation>): (r: Result<string>)
      requires QueriesValid(queries, store)
      ensures |queries| == 0 ==> r == Success("")
      ensures |queries| == 1 ==> r == queries[0].ToString(store)
      ensures |queries| > 0 ==> (r.Success? <==> QueriesRender(queries, |queries|) && AllWordLinked(operators, |queries|))
    {
      if |queries| == 0 then Success("") else QueryChain(queries, operators, store, |queries|)
    }
  }

  /** Neighbouring queries joined by a cartesian product cannot be rendered. */
  lemma CartesianQueriesFail(m: MultiQuery, store: seq<Relation>, i: nat)
    requires QueriesValid(m.queries, store) && 1 <= i < |m.queries|
    requires Lookup(m.operators, (i - 1, i)) == Some(CartesianProduct)
    ensures m.ToString(store).Failure?
  {
    assert !WordLinked(m.operators, i);
  }
}
