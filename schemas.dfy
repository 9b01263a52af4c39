/**
 * `Schemas.GetSchema1`: the sailors, boats and reserves catalog the
 * optimizer uses by default, and which of its attribute names are keys;
 * the `Schema` object whose relations the fixtures and the parser look up
 * by name and add aliases to.
 */
module Schemas {
  import opened Wrappers
  import opened QueryModel
  import opened OptimizerHelpers

  /** An attribute of a catalog relation: no alias, query number 0. */
  function Column(name: string, typ: string): (a: Attribute)
    ensures a.alias == "" && a.name == name && a.typ == typ && a.queryNumber == 0
  {
    Attribute("", name, typ, 0)
  }

  /**
   * `GetSchema1()`: sailors (key `sid`, priority 1), boats (key `bid`,
   * priority 3) and reserves (every attribute in the key, priority 2), in that
   * order, none with an alias yet.
   */
  function GetSchema1(): (s: seq<Relation>)
    ensures |s| == 3
    ensures s[0].name == "sailors" && s[1].name == "boats" && s[2].name == "reserves"
    ensures s[0].priority == 1 && s[1].priority == 3 && s[2].priority == 2
    ensures forall r :: 0 <= r < 3 ==> s[r].aliases == []
    ensures s[0].attributes == [Column("sid", "int"), Column("sname", "string"), Column("rating", "int"), Column("age", "real")]
    ensures s[1].attributes == [Column("bid", "int"), Column("bname", "string"), Column("color", "string")]
    ensures s[2].attributes == [Column("sid", "int"), Column("bid", "int"), Column("day", "date")]
    ensures s[0].primaryKey == [0] && s[1].primaryKey == [0] && s[2].primaryKey == [0, 1, 2]
  {
    var sailors := Relation("sailors",
      [Column("sid", "int"), Column("sname", "string"), Column("rating", "int"), Column("age", "real")], [0], [], 1);
    var boats := Relation("boats",
      [Column("bid", "int"), Column("bname", "string"), Column("color", "string")], [0], [], 3);
    var reserves := Relation("reserves",
      [Column("sid", "int"), Column("bid", "int"), Column("day", "date")], [0, 1, 2], [], 2);
    [sailors, boats, reserves]
  }

  /** The key names of the schema: `sid`, `bid` and `day`, and no other. */
  lemma Schema1Keys(name: string)
    ensures KeyNamed(GetSchema1(), name) <==> name == "sid" || name == "bid" || name == "day"
  {
    var s := GetSchema1();
    if name == "sid" {
      assert KeyAt(s[0], 0, name);
    } else if name == "bid" {
      assert KeyAt(s[1], 0, name);
    } else if name == "day" {
      assert KeyAt(s[2], 2, name);
    } else {
      forall r, a | 0 <= r < |s| && 0 <= a < |s[r].attributes|
        ensures !KeyAt(s[r], a, name)
      {
        if r == 0 { assert a in s[0].primaryKey ==> a == 0; }
        else if r == 1 { assert a in s[1].primaryKey ==> a == 0; }
      }
    }
  }

  /**
   * Under this schema a comparison of two key attributes is a join condition
   * whatever their aliases, and a comparison with a constant or with a
   * non-key attribute is not.
   */
  lemma Schema1Joins(x: string, y: string, c: Operand)
    ensures JoinCondition(GetSchema1(), Condition(AttrOp(Attribute(x, "sid", "", 0)), Equals, AttrOp(Attribute(y, "sid", "", 0)), 0))
    ensures JoinCondition(GetSchema1(), Condition(AttrOp(Attribute(x, "bid", "", 0)), Equals, AttrOp(Attribute(y, "bid", "", 0)), 0))
    ensures !c.AttrOp? ==> !JoinCondition(GetSchema1(), Condition(AttrOp(Attribute(x, "bid", "", 0)), Equals, c, 0))
    ensures !JoinCondition(GetSchema1(), Condition(AttrOp(Attribute(x, "rating", "", 0)), GreaterThan, AttrOp(Attribute(y, "sid", "", 0)), 0))
  {
    Schema1Keys("sid");
    Schema1Keys("bid");
    Schema1Keys("rating");
  }

  // ---------------------------------------------------------------- lookups by name and aliases

  /** The positions of the relations called `name`, in order. */
  function Matching(store: seq<Relation>, name: string): (r: seq<nat>)
    ensures forall i :: 0 <= i < |r| ==> r[i] < |store| && store[r[i]].name == name
    ensures forall k :: 0 <= k < |store| && store[k].name == name ==> k in r
    ensures forall i, j :: 0 <= i < j < |r| ==> r[i] < r[j]
    decreases |store|
  {
    if |store| == 0 then []
    else
      var rest := Matching(store[..|store| - 1], name);
      if store[|store| - 1].name == name then rest + [|store| - 1] else rest
  }

  /**
   * The single relation named `name`: the one relation with that
   * name.  None throws "no matching element", two or more throw "more than
   * one matching element".
   */
  function Single(store: seq<Relation>, name: string): (r: Result<nat>)
    ensures r.Success? ==> (r.value < |store| && store[r.value].name == name
      && forall k :: 0 <= k < |store| && store[k].name == name ==> k == r.value)
    ensures r.Failure? ==> r.error == NoMatch || r.error == MoreThanOneMatch
  {
    var m := Matching(store, name);
    if |m| == 0 then Failure(NoMatch)
    else if |m| == 1 then
      assert forall k :: 0 <= k < |store| && store[k].name == name ==> k == m[0] by {
        forall k | 0 <= k < |store| && store[k].name == name ensures k == m[0] {
          assert k in m;
        }
      }
      Success(m[0])
    else Failure(MoreThanOneMatch)
  }

  /**
   * `Single` throws "no matching element" exactly when no relation has the
   * name, and "more than one matching element" exactly when two have it.
   */
  lemma SingleFailures(store: seq<Relation>, name: string)
    ensures Single(store, name) == Failure(NoMatch) <==> forall k :: 0 <= k < |store| ==> store[k].name != name
    ensures Single(store, name) == Failure(MoreThanOneMatch) <==>
      exists k, l :: 0 <= k < l < |store| && store[k].name == name && store[l].name == name
  {
    var m := Matching(store, name);
    if |m| >= 2 {
      assert m[0] < m[1];
    }
  }

  /** Adds `alias` to the aliases of the relation at position `k`. */
  function WithAlias(store: seq<Relation>, k: nat, alias: string): (r: seq<Relation>)
    requires k < |store|
    ensures |r| == |store| && r[k].aliases == store[k].aliases + [alias]
    ensures r[k] == store[k].(aliases := r[k].aliases)
    ensures forall j :: 0 <= j < |store| && j != k ==> r[j] == store[j]
  {
    store[k := store[k].(aliases := store[k].aliases + [alias])]
  }

  /** Lookups by name see only names. */
  lemma {:induction false} MatchingNames(store: seq<Relation>, after: seq<Relation>, name: string)
    requires |after| == |store| && forall k :: 0 <= k < |store| ==> after[k].name == store[k].name
    ensures Matching(after, name) == Matching(store, name)
    decreases |store|
  {
    if |store| > 0 {
      MatchingNames(store[..|store| - 1], after[..|after| - 1], name);
    }
  }

  /** Adding an alias changes no name, so no lookup by name. */
  lemma AliasKeepsLookups(store: seq<Relation>, k: nat, alias: string, name: string)
    requires k < |store|
    ensures Single(WithAlias(store, k, alias), name) == Single(store, name)
  {
    MatchingNames(store, WithAlias(store, k, alias), name);
  }

  // ---------------------------------------------------------------- the schema object

  /** `Schema`: the relation list that lookups read and alias additions change in place. */
  class Schema {
    var relations: seq<Relation>

    constructor (relations: seq<Relation>)
      ensures this.relations == relations
    {
      this.relations := relations;
    }

    /** Adds `alias` to the aliases of the relation at position `k`. */
    method AddAlias(k: nat, alias: string)
      requires k < |relations|
      modifies this
      ensures relations == WithAlias(old(relations), k, alias)
    {
      relations := relations[k := relations[k].(aliases := relations[k].aliases + [alias])];
    }
  }
}
