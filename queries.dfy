/**
 * `Queries.GetQueryA` to `GetQueryF`: the hard-coded sailors-and-boats
 * queries.  Each looks its relations up by name with `Single` and adds an
 * alias to the relation it finds, so the schema it is handed is changed in
 * place; a schema where a name matches no relation or several makes the
 * lookup throw.  Each fixture is a method on the `Schema` object proved
 * against a function giving the multi-query and the relations it leaves.
 */
module Queries {
  import opened Wrappers
  import opened QueryModel
  import opened Statements
  import opened Schemas

  // ---------------------------------------------------------------- lookups

  /** Look a relation up by name, then add an alias to it. */
  function Aliased(store: seq<Relation>, name: string, alias: string): (r: Result<(seq<Relation>, nat)>)
    ensures r.Success? <==> Single(store, name).Success?
    ensures r.Failure? ==> r.error == Single(store, name).error
    ensures r.Success? ==> r.value.1 == Single(store, name).value && r.value.0 == WithAlias(store, r.value.1, alias)
  {
    var k :- Single(store, name);
    Success((WithAlias(store, k, alias), k))
  }

  // ---------------------------------------------------------------- building blocks

  /** An attribute written `alias.name`. */
  function Attr(alias: string, name: string): (a: Attribute)
    ensures a.ToString() == alias + "." + name || alias == ""
  {
    Attribute(alias, name, "", 0)
  }

  /** A condition comparing two operands. */
  function Compare(left: Operand, op: ComparisonOp, right: Operand): (c: Condition)
    ensures c.SideAttributes() == (if left.AttrOp? then [left.attr] else []) + (if right.AttrOp? then [right.attr] else [])
  {
    Condition(left, op, right, 0)
  }

  /** The select clause of every fixture: the sailors' names. */
  function SelectName(): (s: SelectStatement)
    ensures |s.attributes| == 1 && s.attributes[0].ToString() == "s.sname"
  {
    SelectStatement([Attr("s", "sname")])
  }

  /** The operator map linking each of the first `n` conditions to the next by `and`. */
  function AndLinks(n: nat): (ops: map<(nat, nat), LogicalOp>)
    ensures forall i :: 1 <= i < n ==> LinkedBy(ops, i, And)
    ensures forall key :: key in ops ==> key.0 + 1 == key.1 < n
  {
    if n <= 1 then map[]
    else
      var ops := AndLinks(n - 1)[(n - 2, n - 1) := And];
      assert forall i :: 1 <= i < n ==> LinkedBy(ops, i, And) by {
        forall i | 1 <= i < n ensures LinkedBy(ops, i, And) {
          if i < n - 1 { assert LinkedBy(AndLinks(n - 1), i, And); }
        }
      }
      ops
  }

  /** A where clause whose neighbouring conditions are all joined by `and`. */
  function AllAnd(conds: seq<Condition>): (w: WhereStatement)
    ensures w.conditions == conds && w.operators == AndLinks(|conds|)
  {
    WhereStatement(conds, AndLinks(|conds|))
  }

  /** The query of sailors who reserved a boat of colour `color`, over the relations at `from`. */
  function BoatQuery(from: seq<nat>, color: string): (q: Query)
    ensures q.from.relations == from && q.select == SelectName()
    ensures |q.where.conditions| == 3 && q.where.conditions[2].right == StrOp(color)
  {
    Query("", SelectName(), FromStatement(from), AllAnd([
      Compare(AttrOp(Attr("s", "sid")), Equals, AttrOp(Attr("r", "sid"))),
      Compare(AttrOp(Attr("r", "bid")), Equals, AttrOp(Attr("b", "bid"))),
      Compare(AttrOp(Attr("b", "color")), Equals, StrOp(color))]))
  }

  /** The query of sailors who reserved boat 103, over the relations at `from`. */
  function BoatNumber(from: seq<nat>): (q: Query)
    ensures q.from.relations == from && q.select == SelectName()
    ensures |q.where.conditions| == 2 && q.where.conditions[1].right == IntOp(103)
  {
    Query("", SelectName(), FromStatement(from), AllAnd([
      Compare(AttrOp(Attr("s", "sid")), Equals, AttrOp(Attr("r", "sid"))),
      Compare(AttrOp(Attr("r", "bid")), Equals, IntOp(103))]))
  }

  /** The query of sailors rated above 5 who reserved boat 100 after 8/9/09. */
  function RatedRecently(from: seq<nat>): (q: Query)
    ensures q.from.relations == from && q.select == SelectName()
    ensures |q.where.conditions| == 4 && q.where.conditions[2].op == GreaterThan && q.where.conditions[3].op == GreaterThan
  {
    Query("", SelectName(), FromStatement(from), AllAnd([
      Compare(AttrOp(Attr("s", "sid")), Equals, AttrOp(Attr("r", "sid"))),
      Compare(AttrOp(Attr("r", "bid")), Equals, IntOp(100)),
      Compare(AttrOp(Attr("s", "rating")), GreaterThan, IntOp(5)),
      Compare(AttrOp(Attr("r", "day")), GreaterThan, StrOp("8/9/09"))]))
  }

  /** A query made into a multi-query alone. */
  function Alone(q: Query): (m: MultiQuery)
    ensures m.queries == [q] && m.operators == []
  {
    MultiQuery([q], [])
  }

  /**
   * The lookups of the first query of the two-query fixtures: sailors,
   * reserves and boats, each looked up and aliased in turn.  The store they
   * leave and the positions found.
   */
  function FirstRound(store: seq<Relation>): (r: Result<(seq<Relation>, seq<nat>)>)
    ensures r.Success? ==> (|r.value.0| == |store| && |r.value.1| == 3
      && (forall i :: 0 <= i < 3 ==> r.value.1[i] < |store|)
      && r.value.0[r.value.1[0]].name == "sailors" && r.value.0[r.value.1[1]].name == "reserves"
      && r.value.0[r.value.1[2]].name == "boats")
  {
    var a :- Aliased(store, "sailors", "s");
    var b :- Aliased(a.0, "reserves", "r");
    var c :- Aliased(b.0, "boats", "b");
    Success((c.0, [a.1, b.1, c.1]))
  }

  /**
   * The lookups of the second query: each relation is looked up again, and
   * the alias goes to the relation the first round found, `ks`.  When those
   * still carry their names, the second round finds the same positions.
   */
  function SecondRound(store: seq<Relation>, ks: seq<nat>): (r: Result<(seq<Relation>, seq<nat>)>)
    requires |ks| == 3 && forall i :: 0 <= i < 3 ==> ks[i] < |store|
    ensures r.Success? ==> |r.value.0| == |store|
    ensures (r.Success? && store[ks[0]].name == "sailors" && store[ks[1]].name == "reserves"
      && store[ks[2]].name == "boats") ==> r.value.1 == ks
  {
    var s4 :- Single(store, "sailors");
    var d := WithAlias(store, ks[0], "s");
    var s5 :- Single(d, "reserves");
    var e := WithAlias(d, ks[1], "r");
    var s6 :- Single(e, "boats");
    Success((WithAlias(e, ks[2], "b"), [s4, s5, s6]))
  }

  /**
   * Both rounds of lookups of the two-query fixtures.  The store they
   * leave and the positions of both rounds, which are the same.
   */
  function ColourRelations(store: seq<Relation>): (r: Result<(seq<Relation>, seq<nat>, seq<nat>)>)
    ensures r.Success? ==> (|r.value.0| == |store| && |r.value.1| == 3 && r.value.2 == r.value.1
      && forall i :: 0 <= i < 3 ==> r.value.1[i] < |store|)
  {
    var f :- FirstRound(store);
    var g :- SecondRound(f.0, f.1);
    Success((g.0, f.1, g.1))
  }

  /**
   * What `GetQueryC` (`op` union), `GetQueryE` (intersect) and `GetQueryF`
   * (except) build: the red-boat query and the green-boat query joined by `op`.
   */
  function TwoColours(store: seq<Relation>, op: SetOperator): (r: Result<(seq<Relation>, MultiQuery)>)
    ensures r.Success? ==> (|r.value.0| == |store| && |r.value.1.queries| == 2
      && r.value.1.operators == [((0, 1), op)]
      && r.value.1.queries[0].from == r.value.1.queries[1].from)
  {
    var x :- ColourRelations(store);
    Success((x.0, MultiQuery([BoatQuery(x.1, "red"), BoatQuery(x.2, "green")], [((0, 1), op)])))
  }

  // ---------------------------------------------------------------- the fixtures

  /** What `GetQueryA` builds, with the store it leaves: sailors who reserved boat 103. */
  function QueryA(store: seq<Relation>): (r: Result<(seq<Relation>, MultiQuery)>)
    ensures r.Success? ==> |r.value.0| == |store| && |r.value.1.queries| == 1 && r.value.1.operators == []
    ensures r.Success? ==> (r.value.1.queries[0].from.Valid(r.value.0)
      && r.value.1.queries[0].from.Names(r.value.0) == ["sailors", "reserves"])
  {
    var a :- Aliased(store, "sailors", "s");
    var b :- Aliased(a.0, "reserves", "r");
    Success((b.0, Alone(BoatNumber([a.1, b.1]))))
  }

  /** What `GetQueryB` builds: sailors who reserved a red boat. */
  function QueryB(store: seq<Relation>): (r: Result<(seq<Relation>, MultiQuery)>)
    ensures r.Success? ==> |r.value.0| == |store| && |r.value.1.queries| == 1 && r.value.1.operators == []
    ensures r.Success? ==> (r.value.1.queries[0].from.Valid(r.value.0)
      && r.value.1.queries[0].from.Names(r.value.0) == ["sailors", "reserves", "boats"])
  {
    var a :- Aliased(store, "sailors", "s");
    var b :- Aliased(a.0, "reserves", "r");
    var c :- Aliased(b.0, "boats", "b");
    Success((c.0, Alone(BoatQuery([a.1, b.1, c.1], "red"))))
  }


  /** What `GetQueryD` builds: sailors rated above 5 who reserved boat 100 after 8/9/09. */
  function QueryD(store: seq<Relation>): (r: Result<(seq<Relation>, MultiQuery)>)
    ensures r.Success? ==> |r.value.0| == |store| && |r.value.1.queries| == 1 && r.value.1.operators == []
    ensures r.Success? ==> |r.value.1.queries[0].where.conditions| == 4
  {
    var a :- Aliased(store, "sailors", "s");
    var b :- Aliased(a.0, "reserves", "r");
    Success((b.0, Alone(RatedRecently([a.1, b.1]))))
  }



  // ---------------------------------------------------------------- properties

  /**
   * Every fixture fails as the lookup of its first relation, sailors,
   * fails, when that one does.
   */
  lemma FixturesNeedSailors(store: seq<Relation>, op: SetOperator)
    requires Single(store, "sailors").Failure?
    ensures QueryA(store) == Failure(Single(store, "sailors").error)
    ensures QueryB(store) == Failure(Single(store, "sailors").error)
    ensures QueryD(store) == Failure(Single(store, "sailors").error)
    ensures TwoColours(store, op) == Failure(Single(store, "sailors").error)
  {
  }

  /** The three lookups of the fixtures survive an added alias. */
  lemma AliasKeepsNames(store: seq<Relation>, k: nat, alias: string)
    requires k < |store|
    ensures var after := WithAlias(store, k, alias);
      Single(after, "sailors") == Single(store, "sailors") && Single(after, "reserves") == Single(store, "reserves")
      && Single(after, "boats") == Single(store, "boats")
  {
    AliasKeepsLookups(store, k, alias, "sailors");
    AliasKeepsLookups(store, k, alias, "reserves");
    AliasKeepsLookups(store, k, alias, "boats");
  }

  /** Query A adds alias `s` to sailors and `r` to reserves, and changes nothing else. */
  lemma QueryAAliases(store: seq<Relation>)
    requires Single(store, "sailors").Success? && Single(store, "reserves").Success?
    ensures var s := Single(store, "sailors").value; var r := Single(store, "reserves").value;
      QueryA(store).Success? && QueryA(store).value.0 == WithAlias(WithAlias(store, s, "s"), r, "r")
      && QueryA(store).value.1.queries[0].from.relations == [s, r]
  {
    var s := Single(store, "sailors").value;
    AliasKeepsLookups(store, s, "s", "reserves");
  }

  /** The store the two-query fixtures leave, alias by alias. */
  function TwiceAliased(store: seq<Relation>, s: nat, r: nat, b: nat): (t: seq<Relation>)
    requires s < |store| && r < |store| && b < |store|
  {
    WithAlias(WithAlias(WithAlias(WithAlias(WithAlias(WithAlias(store, s, "s"), r, "r"), b, "b"), s, "s"), r, "r"), b, "b")
  }

  /** Two added aliases on three different relations: each gets its own two. */
  lemma TwiceAliasedMeans(store: seq<Relation>, s: nat, r: nat, b: nat)
    requires s < |store| && r < |store| && b < |store| && s != r && r != b && s != b
    ensures var t := TwiceAliased(store, s, r, b);
      |t| == |store| && t[s].aliases == store[s].aliases + ["s", "s"]
      && t[r].aliases == store[r].aliases + ["r", "r"] && t[b].aliases == store[b].aliases + ["b", "b"]
      && forall j :: 0 <= j < |store| && j != s && j != r && j != b ==> t[j] == store[j]
  {
  }

  /**
   * The two-query fixtures add each alias twice: the second query looks
   * its relations up again and adds the alias to the relations the first found.
   */
  lemma TwoColoursAliases(store: seq<Relation>, op: SetOperator)
    requires Single(store, "sailors").Success? && Single(store, "reserves").Success? && Single(store, "boats").Success?
    ensures var s := Single(store, "sailors").value; var r := Single(store, "reserves").value; var b := Single(store, "boats").value;
      var t := ColourRelations(store);
      t.Success? && t.value.0 == TwiceAliased(store, s, r, b) && t.value.1 == [s, r, b]
  {
    var s := Single(store, "sailors").value;
    var r := Single(store, "reserves").value;
    var b := Single(store, "boats").value;
    var a1 := WithAlias(store, s, "s");
    assert Aliased(store, "sailors", "s") == Success((a1, s));
    AliasKeepsNames(store, s, "s");
    var a2 := WithAlias(a1, r, "r");
    assert Aliased(a1, "reserves", "r") == Success((a2, r));
    AliasKeepsNames(a1, r, "r");
    var a3 := WithAlias(a2, b, "b");
    assert Aliased(a2, "boats", "b") == Success((a3, b));
    AliasKeepsNames(a2, b, "b");
    var d := WithAlias(a3, s, "s");
    AliasKeepsNames(a3, s, "s");
    var e := WithAlias(d, r, "r");
    AliasKeepsNames(d, r, "r");
    assert FirstRound(store) == Success((a3, [s, r, b]));
    assert SecondRound(a3, [s, r, b]) == Success((WithAlias(e, b, "b"), [s, r, b]));
  }

  /** A where clause of conditions all joined by `and` renders when every condition has an operator text. */
  lemma AndRenders(conds: seq<Condition>)
    requires AllRendered(conds, |conds|)
    ensures AllAnd(conds).ToString().Success?
  {
    forall i | 1 <= i < |conds|
      ensures Linked(AndLinks(|conds|), i)
    {
      assert LinkedBy(AndLinks(|conds|), i, And);
    }
  }

  /** The red-boat and green-boat where clauses render: every operator has a text and every pair a link. */
  lemma BoatQueryRenders(from: seq<nat>, color: string)
    ensures BoatQuery(from, color).where.ToString().Success?
  {
    var cs := BoatQuery(from, color).where.conditions;
    assert AllRendered(cs, 3);
    AndRenders(cs);
  }

  /** The boat-103 where clause renders. */
  lemma BoatNumberRenders(from: seq<nat>)
    ensures BoatNumber(from).where.ToString().Success?
  {
    var cs := BoatNumber(from).where.conditions;
    assert AllRendered(cs, 2);
    AndRenders(cs);
  }

  /** The rating-and-day where clause renders. */
  lemma RatedRecentlyRenders(from: seq<nat>)
    ensures RatedRecently(from).where.ToString().Success?
  {
    var cs := RatedRecently(from).where.conditions;
    assert AllRendered(cs, 4);
    AndRenders(cs);
  }

  /** A query that renders renders alone as a multi-query. */
  lemma AloneRenders(q: Query, store: seq<Relation>)
    requires q.from.Valid(store) && q.where.ToString().Success?
    ensures QueriesValid([q], store) && Alone(q).ToString(store).Success?
  {
    assert QueriesRender(Alone(q).queries, 1);
    assert AllWordLinked(Alone(q).operators, 1);
  }

  /**
   * Over a store where each of the three names matches one relation, every
   * fixture succeeds and its multi-query renders: each where clause has an
   * operator for every neighbouring pair, and the two-query fixtures join
   * their queries by a set operator that has an SQL word.
   */
  lemma QueryARenders(store: seq<Relation>)
    requires Single(store, "sailors").Success? && Single(store, "reserves").Success?
    ensures var a := QueryA(store);
      a.Success? && QueriesValid(a.value.1.queries, a.value.0) && a.value.1.ToString(a.value.0).Success?
  {
    QueryAAliases(store);
    var a := QueryA(store).value;
    var q := a.1.queries[0];
    BoatNumberRenders(q.from.relations);
    AloneRenders(q, a.0);
  }

  lemma QueryBRenders(store: seq<Relation>)
    requires Single(store, "sailors").Success? && Single(store, "reserves").Success? && Single(store, "boats").Success?
    ensures var b := QueryB(store);
      b.Success? && QueriesValid(b.value.1.queries, b.value.0) && b.value.1.ToString(b.value.0).Success?
  {
    var s := Single(store, "sailors").value;
    AliasKeepsNames(store, s, "s");
    var r := Single(store, "reserves").value;
    AliasKeepsNames(WithAlias(store, s, "s"), r, "r");
    var b := QueryB(store).value;
    var q := b.1.queries[0];
    BoatQueryRenders(q.from.relations, "red");
    AloneRenders(q, b.0);
  }

  lemma QueryDRenders(store: seq<Relation>)
    requires Single(store, "sailors").Success? && Single(store, "reserves").Success?
    ensures var d := QueryD(store);
      d.Success? && QueriesValid(d.value.1.queries, d.value.0) && d.value.1.ToString(d.value.0).Success?
  {
    QueryAAliases(store);
    var d := QueryD(store).value;
    var q := d.1.queries[0];
    RatedRecentlyRenders(q.from.relations);
    AloneRenders(q, d.0);
  }

  /** Two queries that render, joined by a set operator with an SQL word, render together. */
  lemma PairRenders(q1: Query, q2: Query, op: SetOperator, store: seq<Relation>)
    requires q1.from.Valid(store) && q2.from.Valid(store)
    requires q1.where.ToString().Success? && q2.where.ToString().Success?
    requires op == Union || op == Intersect || op == Except
    ensures QueriesValid([q1, q2], store) && MultiQuery([q1, q2], [((0, 1), op)]).ToString(store).Success?
  {
    var m := MultiQuery([q1, q2], [((0, 1), op)]);
    assert QueriesRender(m.queries, 2);
    assert Lookup(m.operators, (0, 1)) == Some(op);
    assert AllWordLinked(m.operators, 2);
  }

  lemma TwoColoursRender(store: seq<Relation>, op: SetOperator)
    requires Single(store, "sailors").Success? && Single(store, "reserves").Success? && Single(store, "boats").Success?
    requires op == Union || op == Intersect || op == Except
    ensures var t := TwoColours(store, op);
      t.Success? && QueriesValid(t.value.1.queries, t.value.0) && t.value.1.ToString(t.value.0).Success?
  {
    assert ColourRelations(store).Success? by { TwoColoursAliases(store, op); }
    var x := ColourRelations(store).value;
    BoatQueryRenders(x.1, "red");
    BoatQueryRenders(x.2, "green");
    PairRenders(BoatQuery(x.1, "red"), BoatQuery(x.2, "green"), op, x.0);
  }

  // ---------------------------------------------------------------- the fixtures on a schema object

  /** A fixture ended as its specification says; the relations left after an exception are not stated. */
  predicate Built(r: Result<MultiQuery>, spec: Result<(seq<Relation>, MultiQuery)>, after: seq<Relation>)
  {
    (r.Success? <==> spec.Success?)
    && (r.Success? ==> r.value == spec.value.1 && after == spec.value.0)
    && (r.Failure? ==> spec.Failure? && r.error == spec.error)
  }

  /** Looks the relation named `name` up and adds `alias` to it. */
  method AliasRelation(schema: Schema, name: string, alias: string) returns (r: Result<nat>)
    modifies schema
    ensures var spec := Aliased(old(schema.relations), name, alias);
      (r.Success? <==> spec.Success?)
      && (r.Success? ==> r.value == spec.value.1 && schema.relations == spec.value.0)
      && (r.Failure? ==> r.error == spec.error && schema.relations == old(schema.relations))
  {
    r := Single(schema.relations, name);
    if r.Success? {
      schema.AddAlias(r.value, alias);
    }
  }

  /** The fixture of boat 103. */
  method GetQueryA(schema: Schema) returns (r: Result<MultiQuery>)
    modifies schema
    ensures Built(r, QueryA(old(schema.relations)), schema.relations)
  {
    var sailors := AliasRelation(schema, "sailors", "s");
    if sailors.Failure? { return Failure(sailors.error); }
    var reserves := AliasRelation(schema, "reserves", "r");
    if reserves.Failure? { return Failure(reserves.error); }
    return Success(Alone(BoatNumber([sailors.value, reserves.value])));
  }

  /** The fixture of the red boats. */
  method GetQueryB(schema: Schema) returns (r: Result<MultiQuery>)
    modifies schema
    ensures Built(r, QueryB(old(schema.relations)), schema.relations)
  {
    var sailors := AliasRelation(schema, "sailors", "s");
    if sailors.Failure? { return Failure(sailors.error); }
    var reserves := AliasRelation(schema, "reserves", "r");
    if reserves.Failure? { return Failure(reserves.error); }
    var boats := AliasRelation(schema, "boats", "b");
    if boats.Failure? { return Failure(boats.error); }
    return Success(Alone(BoatQuery([sailors.value, reserves.value, boats.value], "red")));
  }

  /** The fixture of the recent high ratings. */
  method GetQueryD(schema: Schema) returns (r: Result<MultiQuery>)
    modifies schema
    ensures Built(r, QueryD(old(schema.relations)), schema.relations)
  {
    var sailors := AliasRelation(schema, "sailors", "s");
    if sailors.Failure? { return Failure(sailors.error); }
    var reserves := AliasRelation(schema, "reserves", "r");
    if reserves.Failure? { return Failure(reserves.error); }
    return Success(Alone(RatedRecently([sailors.value, reserves.value])));
  }

  /** A round of lookups ended as its specification says; the relations left after an exception are not stated. */
  predicate Looked(r: Result<seq<nat>>, spec: Result<(seq<Relation>, seq<nat>)>, after: seq<Relation>)
  {
    (r.Success? <==> spec.Success?)
    && (r.Success? ==> r.value == spec.value.1 && after == spec.value.0)
    && (r.Failure? ==> spec.Failure? && r.error == spec.error)
  }

  /** The lookups of the first colour query. */
  method AliasColours(schema: Schema) returns (r: Result<seq<nat>>)
    modifies schema
    ensures Looked(r, FirstRound(old(schema.relations)), schema.relations)
  {
    var relation1 := AliasRelation(schema, "sailors", "s");
    if relation1.Failure? { return Failure(relation1.error); }
    var relation2 := AliasRelation(schema, "reserves", "r");
    if relation2.Failure? { return Failure(relation2.error); }
    var relation3 := AliasRelation(schema, "boats", "b");
    if relation3.Failure? { return Failure(relation3.error); }
    return Success([relation1.value, relation2.value, relation3.value]);
  }

  /** The lookups of the second colour query, adding the aliases to the relations `ks` of the first. */
  method AliasColoursAgain(schema: Schema, ks: seq<nat>) returns (r: Result<seq<nat>>)
    requires |ks| == 3 && forall i :: 0 <= i < 3 ==> ks[i] < |schema.relations|
    modifies schema
    ensures Looked(r, SecondRound(old(schema.relations), ks), schema.relations)
  {
    var relation4 := Single(schema.relations, "sailors");
    if relation4.Failure? { return Failure(relation4.error); }
    schema.AddAlias(ks[0], "s");
    var relation5 := Single(schema.relations, "reserves");
    if relation5.Failure? { return Failure(relation5.error); }
    schema.AddAlias(ks[1], "r");
    var relation6 := Single(schema.relations, "boats");
    if relation6.Failure? { return Failure(relation6.error); }
    schema.AddAlias(ks[2], "b");
    return Success([relation4.value, relation5.value, relation6.value]);
  }

  /**
   * The common body of `GetQueryC`, `GetQueryE` and `GetQueryF`: the second
   * round of lookups finds the same relations, and the aliases are added
   * again to the relations of the first round.
   */
  method BuildTwoColours(schema: Schema, op: SetOperator) returns (r: Result<MultiQuery>)
    modifies schema
    ensures Built(r, TwoColours(old(schema.relations), op), schema.relations)
  {
    var first := AliasColours(schema);
    if first.Failure? { return Failure(first.error); }
    var second := AliasColoursAgain(schema, first.value);
    if second.Failure? { return Failure(second.error); }
    var query1 := BoatQuery(first.value, "red");
    var query2 := BoatQuery(second.value, "green");
    return Success(MultiQuery([query1, query2], [((0, 1), op)]));
  }

  /** The fixture of the two colour queries joined by union. */
  method GetQueryC(schema: Schema) returns (r: Result<MultiQuery>)
    modifies schema
    ensures Built(r, TwoColours(old(schema.relations), Union), schema.relations)
  {
    r := BuildTwoColours(schema, Union);
  }

  /** The fixture of the two colour queries joined by intersect. */
  method GetQueryE(schema: Schema) returns (r: Result<MultiQuery>)
    modifies schema
    ensures Built(r, TwoColours(old(schema.relations), Intersect), schema.relations)
  {
    r := BuildTwoColours(schema, Intersect);
  }

  /** The fixture of the two colour queries joined by except. */
  method GetQueryF(schema: Schema) returns (r: Result<MultiQuery>)
    modifies schema
    ensures Built(r, TwoColours(old(schema.relations), Except), schema.relations)
  {
    r := BuildTwoColours(schema, Except);
  }
}
