/**
 * `QoParser`'s string-splitting assembler: a query string cut into its
 * select, from and where parts at single spaces, relation and attribute
 * names resolved against the catalog `Schema`, and the quick check that
 * every query mentions `select` and `from`.  Resolving a relation of the
 * from list adds an alias to the catalog relation itself, so the schema
 * object is changed by every query read against it.
 */
module Parser {
  import opened Wrappers
  import opened Text
  import opened QueryModel
  import opened Statements
  import opened Schemas

  /** The message of the exception `GetAttribute` throws when no relation fits. */
  const ConflictMessage: string := "There is a conflict between your attribute aliases and the internal schema."

  /** The message of the exception `PerformSimpleValidation` throws. */
  const InvalidMessage: string := "Query is invalid."

  /** `_setOperators`: the words that separate the queries of a multi-query. */
  const SetOperatorTokens: seq<string> := ["union", "intersect", "except"]

  /** The words of a string, split at single spaces: empty words are kept. */
  function Tokens(s: string): (r: seq<string>)
    ensures |r| >= 1 && forall i :: 0 <= i < |r| ==> ' ' !in r[i]
  {
    Split(s, ' ')
  }

  /** Each text trimmed. */
  function Trimmed(xs: seq<string>): (r: seq<string>)
    ensures |r| == |xs| && forall i :: 0 <= i < |xs| ==> r[i] == Trim(xs[i])
  {
    seq(|xs|, i requires 0 <= i < |xs| => Trim(xs[i]))
  }

  /** A string with a separator in it splits into at least two pieces. */
  lemma {:induction false} SplitAtSeparator(s: string, c: char)
    requires c in s
    ensures |Split(s, c)| >= 2
    decreases |s|
  {
    if s[0] != c {
      assert c in s[1..] by { assert forall x :: x in s && x != s[0] ==> x in s[1..]; }
      SplitAtSeparator(s[1..], c);
    }
  }

  /** A trimmed string does not start with a space. */
  lemma TrimmedStart(s: string)
    ensures Trim(s) == "" || Trim(s)[0] != ' '
  {
  }

  // ---------------------------------------------------------------- validation

  /** A query string whose words include `select` and `from`. */
  predicate Plausible(q: Query)
  {
    "select" in Tokens(q.originalString) && "from" in Tokens(q.originalString)
  }

  /**
   * `PerformSimpleValidation(queries)`: throws "Query is invalid." as soon as
   * a query's words lack `select` or `from`, and does nothing otherwise.
   */
  function PerformSimpleValidation(queries: seq<Query>): (o: Outcome)
    ensures o.Pass? <==> forall i :: 0 <= i < |queries| ==> Plausible(queries[i])
    ensures o.Fail? ==> o.error == Thrown(InvalidMessage)
    decreases |queries|
  {
    if |queries| == 0 then Pass
    else if !Plausible(queries[0]) then Fail(Thrown(InvalidMessage))
    else
      var rest := PerformSimpleValidation(queries[1..]);
      assert forall i :: 1 <= i < |queries| ==> queries[i] == queries[1..][i - 1];
      rest
  }

  /** Validation looks at the query strings only, one query at a time, in order. */
  lemma {:induction false} ValidationSplits(xs: seq<Query>, ys: seq<Query>)
    ensures PerformSimpleValidation(xs + ys) == (if PerformSimpleValidation(xs).Pass? then PerformSimpleValidation(ys) else PerformSimpleValidation(xs))
  {
    var both := xs + ys;
    assert forall i :: 0 <= i < |xs| ==> both[i] == xs[i];
    assert forall i :: 0 <= i < |ys| ==> both[|xs| + i] == ys[i];
  }

  // ---------------------------------------------------------------- relation lookups

  /** LINQ `Where(p)` over the relations: the positions of those satisfying `p`, in order. */
  function Satisfying(store: seq<Relation>, p: Relation -> bool): (r: seq<nat>)
    ensures forall i :: 0 <= i < |r| ==> r[i] < |store| && p(store[r[i]])
    ensures forall k :: 0 <= k < |store| && p(store[k]) ==> k in r
    ensures forall i, j :: 0 <= i < j < |r| ==> r[i] < r[j]
    decreases |store|
  {
    if |store| == 0 then []
    else
      var rest := Satisfying(store[..|store| - 1], p);
      if p(store[|store| - 1]) then rest + [|store| - 1] else rest
  }

  /**
   * `SingleOrDefault(p)`: no position when no relation satisfies `p`, the
   * position of the only one that does, and "more than one matching
   * element" when two do.
   */
  function SingleOrDefault(store: seq<Relation>, p: Relation -> bool): (r: Result<Option<nat>>)
    ensures r == Success(None) <==> forall k :: 0 <= k < |store| ==> !p(store[k])
    ensures r.Success? && r.value.Some? ==> (r.value.value < |store| && p(store[r.value.value])
      && forall k :: 0 <= k < |store| && p(store[k]) ==> k == r.value.value)
    ensures r.Failure? <==> exists k, l :: 0 <= k < l < |store| && p(store[k]) && p(store[l])
    ensures r.Failure? ==> r.error == MoreThanOneMatch
  {
    var m := Satisfying(store, p);
    if |m| == 0 then Success(None)
    else if |m| == 1 then
      assert forall k :: 0 <= k < |store| && p(store[k]) ==> k == m[0] by {
        forall k | 0 <= k < |store| && p(store[k]) ensures k == m[0] { assert k in m; }
      }
      Success(Some(m[0]))
    else
      assert m[0] < m[1];
      Failure(MoreThanOneMatch)
  }

  /** The alias of a relation at the query counter. */
  function AliasAt(rel: Relation, qn: nat): (r: Result<string>)
    ensures r.Success? <==> qn < |rel.aliases|
    ensures r.Success? ==> r.value == rel.aliases[qn]
    ensures r.Failure? ==> r.error == IndexOutOfRange
  {
    if qn < |rel.aliases| then Success(rel.aliases[qn]) else Failure(IndexOutOfRange)
  }

  /** What a step of the parser leaves: the catalog relations, and its value or its exception. */
  datatype Parsed<T> = Parsed(store: seq<Relation>, result: Result<T>)

  // ---------------------------------------------------------------- GetAttribute

  /**
   * The relation a qualified reference `x.n` resolves to: the one named `x`
   * when some relation has that name, otherwise the only one with an
   * attribute `n` that lists `x` among its aliases.
   */
  function QualifiedRelation(store: seq<Relation>, x: string, n: string): (r: Result<nat>)
    ensures r.Success? ==> r.value < |store|
    ensures |Matching(store, x)| > 0 ==> r == Single(store, x)
  {
    if |Matching(store, x)| > 0 then Single(store, x)
    else
      var found :- SingleOrDefault(store, (rel: Relation) => rel.HasAttributeNamed(n) && x in rel.aliases);
      if found.None? then Failure(Thrown(ConflictMessage)) else Success(found.value)
  }

  /**
   * `GetAttribute(a)`, with the catalog it leaves.  A text with a dot is
   * `x.n`; a text containing the letters "as" is read as `n as x` and adds
   * `x` to the relation found; any other text is a bare attribute name.
   * The alias given to the attribute is the relation's alias at the query
   * counter, except after "as".
   */
  function AttributeOf(store: seq<Relation>, qn: nat, a: string): (r: Parsed<Attribute>)
    ensures |r.store| == |store|
    ensures '.' in a || !Contains(a, "as") ==> r.store == store
    ensures r.store != store ==> (|Split(a, ' ')| >= 3
      && exists k :: 0 <= k < |store| && r.store == WithAlias(store, k, Split(a, ' ')[2]))
    ensures r.result.Success? ==> r.result.value.typ == "" && r.result.value.queryNumber == qn
  {
    if '.' in a then
      SplitAtSeparator(a, '.');
      var parts := Split(a, '.');
      var k := QualifiedRelation(store, parts[0], parts[1]);
      if k.Failure? then Parsed(store, Failure(k.error))
      else match AliasAt(store[k.value], qn)
        case Failure(e) => Parsed(store, Failure(e))
        case Success(alias) => Parsed(store, Success(Attribute(alias, parts[1], "", qn)))
    else if Contains(a, "as") then
      var parts := Split(a, ' ');
      if |parts| < 3 then
        // the lambda reads parts[2] only for a relation that has attribute parts[0]
        var holders := Satisfying(store, (rel: Relation) => rel.HasAttributeNamed(parts[0]));
        Parsed(store, Failure(if |holders| > 0 then IndexOutOfRange else Thrown(ConflictMessage)))
      else match SingleOrDefault(store, (rel: Relation) => rel.HasAttributeNamed(parts[0]) && parts[2] in rel.aliases)
        case Failure(e) => Parsed(store, Failure(e))
        case Success(None) => Parsed(store, Failure(Thrown(ConflictMessage)))
        case Success(Some(k)) => Parsed(WithAlias(store, k, parts[2]), Success(Attribute(parts[2], parts[0], "", qn)))
    else
      match SingleOrDefault(store, (rel: Relation) => rel.HasAttributeNamed(a))
      case Failure(e) => Parsed(store, Failure(e))
      case Success(None) => Parsed(store, Failure(Thrown(ConflictMessage)))
      case Success(Some(k)) =>
        match AliasAt(store[k], qn)
        case Failure(e) => Parsed(store, Failure(e))
        case Success(alias) => Parsed(store, Success(Attribute(alias, a, "", qn)))
  }

  /**
   * A bare attribute name resolves to the only relation that has an
   * attribute of that name, taking that relation's alias at the query
   * counter; with no such relation it throws the conflict message, and
   * the catalog is never changed.
   */
  lemma BareAttribute(store: seq<Relation>, qn: nat, a: string)
    requires '.' !in a && !Contains(a, "as")
    ensures var r := AttributeOf(store, qn, a);
      r.store == store
      && (r.result == Failure(Thrown(ConflictMessage)) <==> forall k :: 0 <= k < |store| ==> !store[k].HasAttributeNamed(a))
      && (r.result.Success? <==> exists k :: (0 <= k < |store| && store[k].HasAttributeNamed(a) && qn < |store[k].aliases|
            && forall j :: 0 <= j < |store| && store[j].HasAttributeNamed(a) ==> j == k))
      && (r.result.Success? ==> exists k :: (0 <= k < |store| && store[k].HasAttributeNamed(a) && qn < |store[k].aliases|
            && r.result.value == Attribute(store[k].aliases[qn], a, "", qn)))
  {
    BareConflict(store, qn, a);
    BareFound(store, qn, a);
  }

  /** `BareAttribute`, the conflict: it is thrown exactly when no relation has the attribute. */
  lemma BareConflict(store: seq<Relation>, qn: nat, a: string)
    requires '.' !in a && !Contains(a, "as")
    ensures AttributeOf(store, qn, a).result == Failure(Thrown(ConflictMessage))
      <==> forall k :: 0 <= k < |store| ==> !store[k].HasAttributeNamed(a)
  {
    var p := (rel: Relation) => rel.HasAttributeNamed(a);
    var s := SingleOrDefault(store, p);
    if s.Success? && s.value.Some? {
      var k := s.value.value;
      assert p(store[k]);
    }
  }

  /** `BareAttribute`, the success: exactly when one relation has the attribute and an alias at the counter. */
  lemma BareFound(store: seq<Relation>, qn: nat, a: string)
    requires '.' !in a && !Contains(a, "as")
    ensures var r := AttributeOf(store, qn, a);
      (r.result.Success? <==> exists k :: (0 <= k < |store| && store[k].HasAttributeNamed(a) && qn < |store[k].aliases|
            && forall j :: 0 <= j < |store| && store[j].HasAttributeNamed(a) ==> j == k))
      && (r.result.Success? ==> exists k :: (0 <= k < |store| && store[k].HasAttributeNamed(a) && qn < |store[k].aliases|
            && r.result.value == Attribute(store[k].aliases[qn], a, "", qn)))
  {
    var p := (rel: Relation) => rel.HasAttributeNamed(a);
    var s := SingleOrDefault(store, p);
    if s.Success? && s.value.Some? {
      var k := s.value.value;
      assert p(store[k]);
    }
    if s.Failure? {
      var k, l :| 0 <= k < l < |store| && p(store[k]) && p(store[l]);
      assert store[k].HasAttributeNamed(a) && store[l].HasAttributeNamed(a);
    }
  }

  /**
   * A reference `x.n` is given the name `n` and the alias at the query
   * counter of the relation called `x` or, when none is, of the only
   * relation with attribute `n` that lists alias `x`; the written alias
   * itself is not kept.  With neither kind of relation it throws the
   * conflict message.  The catalog is never changed.
   */
  lemma QualifiedAttribute(store: seq<Relation>, qn: nat, x: string, n: string)
    requires '.' !in x && '.' !in n
    ensures var r := AttributeOf(store, qn, x + "." + n);
      r.store == store
      && (r.result.Success? ==> exists k :: (0 <= k < |store| && qn < |store[k].aliases|
            && (store[k].name == x || (store[k].HasAttributeNamed(n) && x in store[k].aliases))
            && r.result.value == Attribute(store[k].aliases[qn], n, "", qn)))
      && ((forall k :: 0 <= k < |store| ==> store[k].name != x && !(store[k].HasAttributeNamed(n) && x in store[k].aliases))
            ==> r.result == Failure(Thrown(ConflictMessage)))
  {
    var a := x + "." + n;
    assert JoinWith([x, n], '.') == a by {
      assert JoinWith([x, n][1..], '.') == n;
    }
    JoinSplit([x, n], '.');
    assert '.' in a by { assert a[|x|] == '.'; }
    var r := AttributeOf(store, qn, a);
    if r.result.Success? {
      var k := QualifiedRelation(store, x, n).value;
      if |Matching(store, x)| == 0 {
        var p := (rel: Relation) => rel.HasAttributeNamed(n) && x in rel.aliases;
        assert p(store[k]);
      }
    }
    if forall k :: 0 <= k < |store| ==> store[k].name != x && !(store[k].HasAttributeNamed(n) && x in store[k].aliases) {
      var p := (rel: Relation) => rel.HasAttributeNamed(n) && x in rel.aliases;
      assert forall k :: 0 <= k < |store| ==> !p(store[k]);
      assert |Matching(store, x)| == 0;
      assert SingleOrDefault(store, p) == Success(None);
      assert QualifiedRelation(store, x, n) == Failure(Thrown(ConflictMessage));
    }
  }

  /**
   * A reference `n as x` resolves to the only relation that has attribute
   * `n` and already lists alias `x`, and adds `x` to that relation's
   * aliases once more; the attribute carries the written alias `x`.
   */
  lemma RenamedAttribute(store: seq<Relation>, qn: nat, n: string, x: string)
    requires '.' !in n && '.' !in x && ' ' !in n && ' ' !in x
    ensures var r := AttributeOf(store, qn, n + " as " + x);
      (r.result.Success? ==> exists k :: (0 <= k < |store| && store[k].HasAttributeNamed(n) && x in store[k].aliases
          && r.store == WithAlias(store, k, x) && r.result.value == Attribute(x, n, "", qn)))
      && (r.result.Failure? ==> r.store == store)
      && ((forall k :: 0 <= k < |store| ==> !(store[k].HasAttributeNamed(n) && x in store[k].aliases))
          ==> r.result == Failure(Thrown(ConflictMessage)))
  {
    var a := n + " as " + x;
    assert JoinWith([n, "as", x], ' ') == a by {
      assert JoinWith([n, "as", x][1..], ' ') == "as" + " " + x by {
        assert JoinWith([n, "as", x][1..][1..], ' ') == x;
      }
    }
    JoinSplit([n, "as", x], ' ');
    assert '.' !in a;
    assert Contains(a, "as") by {
      ContainsAt(a, "as");
      assert StartsWith(a[|n| + 1..], "as");
    }
    var p := (rel: Relation) => rel.HasAttributeNamed(n) && x in rel.aliases;
    var s := SingleOrDefault(store, p);
    if s.Success? && s.value.Some? {
      assert p(store[s.value.value]);
    }
  }

  // ---------------------------------------------------------------- GetFromStatement

  /**
   * The relation texts of a from clause: the words without the first
   * `from`; when any word holds a comma, the words joined (each followed by
   * a space), split at commas and trimmed.
   */
  function FromItems(tokens: seq<string>): (r: seq<string>)
    ensures ',' !in Concat(Spaced(RemoveFirst(tokens, "from"))) ==> r == RemoveFirst(tokens, "from")
  {
    var rest := RemoveFirst(tokens, "from");
    var text := Concat(Spaced(rest));
    if ',' in text then Trimmed(Split(text, ',')) else rest
  }

  /**
   * The alias a relation text gives, once its name is found: the word after
   * `as`, the second of two words, or else the first letter of the name.
   */
  function RelationAlias(words: seq<string>): (r: Result<string>)
    requires |words| >= 1
  {
    if "as" in words then (if |words| < 3 then Failure(IndexOutOfRange) else Success(words[2]))
    else if |words| == 2 then Success(words[1])
    else if |words[0]| == 0 then Failure(SubstringOutOfRange)
    else Success(words[0][..1])
  }

  /**
   * One relation text of a from clause: the catalog relation named by its
   * first word (`Single`), with the alias the text gives added to that
   * catalog relation.  The position of the relation is what the from list holds.
   */
  function BindRelation(store: seq<Relation>, text: string): (r: Parsed<nat>)
    ensures r.result.Success? ==> r.result.value < |store| && store[r.result.value].name == Tokens(text)[0]
    ensures r.result.Success? ==> exists alias :: r.store == WithAlias(store, r.result.value, alias)
    ensures r.result.Failure? ==> r.store == store
  {
    var words := Tokens(text);
    match Single(store, words[0])
    case Failure(e) => Parsed(store, Failure(e))
    case Success(k) =>
      match RelationAlias(words)
      case Failure(e) => Parsed(store, Failure(e))
      case Success(alias) => Parsed(WithAlias(store, k, alias), Success(k))
  }

  /** The words of `n as x`, of `n x` and of `n`, for words without spaces. */
  lemma RelationTextWords(n: string, x: string)
    requires ' ' !in n && ' ' !in x
    ensures Tokens(n + " as " + x) == [n, "as", x]
    ensures Tokens(n + " " + x) == [n, x]
    ensures Tokens(n) == [n]
  {
    assert JoinWith([n, "as", x], ' ') == n + " as " + x by {
      assert JoinWith([n, "as", x][1..], ' ') == "as" + " " + x by {
        assert JoinWith([n, "as", x][1..][1..], ' ') == x;
      }
    }
    JoinSplit([n, "as", x], ' ');
    assert JoinWith([n, x], ' ') == n + " " + x by {
      assert JoinWith([n, x][1..], ' ') == x;
    }
    JoinSplit([n, x], ' ');
    JoinSplit([n], ' ');
  }

  /**
   * The alias rule of a from clause: `n as x` and `n x` give alias `x`, a
   * bare `n` gives its first letter, and in each case the alias is written
   * into the one catalog relation named `n`; a name that matches no
   * relation, or several, throws what `Single` throws and changes nothing.
   */
  lemma FromAliases(store: seq<Relation>, n: string, x: string)
    requires ' ' !in n && ' ' !in x && n != "as" && x != "as" && |n| > 0
    ensures Single(store, n).Success? ==> var k := Single(store, n).value;
      BindRelation(store, n + " as " + x) == Parsed(WithAlias(store, k, x), Success(k))
      && BindRelation(store, n + " " + x) == Parsed(WithAlias(store, k, x), Success(k))
      && BindRelation(store, n) == Parsed(WithAlias(store, k, n[..1]), Success(k))
    ensures Single(store, n).Failure? ==>
      BindRelation(store, n + " as " + x) == Parsed(store, Failure(Single(store, n).error))
      && BindRelation(store, n + " " + x) == Parsed(store, Failure(Single(store, n).error))
      && BindRelation(store, n) == Parsed(store, Failure(Single(store, n).error))
  {
    RelationTextWords(n, x);
  }

  /**
   * The relation texts bound one after another, each to the catalog the
   * previous ones left; the first exception ends the binding.
   */
  function Bind(store: seq<Relation>, texts: seq<string>): (r: Parsed<seq<nat>>)
    ensures |r.store| == |store|
    ensures forall k :: 0 <= k < |store| ==> r.store[k].name == store[k].name
    ensures r.result.Success? ==> (|r.result.value| == |texts|
      && forall i :: 0 <= i < |texts| ==> r.result.value[i] < |store| && store[r.result.value[i]].name == Tokens(texts[i])[0])
    decreases |texts|
  {
    if |texts| == 0 then Parsed(store, Success([]))
    else
      var before := Bind(store, texts[..|texts| - 1]);
      if before.result.Failure? then before
      else
        var one := BindRelation(before.store, texts[|texts| - 1]);
        var ks := before.result.value;
        match one.result
        case Failure(e) => Parsed(one.store, Failure(e))
        case Success(k) =>
          var alias :| one.store == WithAlias(before.store, k, alias);
          assert forall i :: 0 <= i < |texts| - 1 ==> texts[..|texts| - 1][i] == texts[i];
          Parsed(one.store, Success(ks + [k]))
  }

  // ---------------------------------------------------------------- ordering by priority

  /** The relations at `ks` are in ascending order of priority. */
  predicate ByPriority(store: seq<Relation>, ks: seq<nat>)
    requires forall i :: 0 <= i < |ks| ==> ks[i] < |store|
  {
    forall i, j :: 0 <= i < j < |ks| ==> store[ks[i]].priority <= store[ks[j]].priority
  }

  /** The positions in `ks` of relations with priority `p`, in order. */
  function WithPriority(store: seq<Relation>, ks: seq<nat>, p: int): (r: seq<nat>)
    requires forall i :: 0 <= i < |ks| ==> ks[i] < |store|
    decreases |ks|
  {
    if |ks| == 0 then []
    else (if store[ks[0]].priority == p then [ks[0]] else []) + WithPriority(store, ks[1..], p)
  }

  /** `k` placed after every element of priority at most its own. */
  function InsertByPriority(store: seq<Relation>, ks: seq<nat>, k: nat): (r: seq<nat>)
    requires k < |store| && forall i :: 0 <= i < |ks| ==> ks[i] < |store|
    ensures multiset(r) == multiset(ks) + multiset{k}
    ensures forall i :: 0 <= i < |r| ==> r[i] < |store|
    decreases |ks|
  {
    if |ks| == 0 then [k]
    else if store[k].priority < store[ks[0]].priority then [k] + ks
    else
      var rest := InsertByPriority(store, ks[1..], k);
      assert ks == [ks[0]] + ks[1..];
      [ks[0]] + rest
  }

  /** Every element of an insertion is at least `b` when `k` and every element of `ks` are. */
  lemma {:induction false} InsertByPriorityBounded(store: seq<Relation>, ks: seq<nat>, k: nat, b: int)
    requires k < |store| && forall i :: 0 <= i < |ks| ==> ks[i] < |store|
    requires b <= store[k].priority && forall i :: 0 <= i < |ks| ==> b <= store[ks[i]].priority
    ensures var r := InsertByPriority(store, ks, k); forall i :: 0 <= i < |r| ==> b <= store[r[i]].priority
    decreases |ks|
  {
    var r := InsertByPriority(store, ks, k);
    if |ks| == 0 || store[k].priority < store[ks[0]].priority {
      assert forall i :: 1 <= i < |r| ==> r[i] == ks[i - 1];
    } else {
      InsertByPriorityBounded(store, ks[1..], k, b);
      assert r == [ks[0]] + InsertByPriority(store, ks[1..], k);
    }
  }

  /** Inserting into an ascending list keeps it ascending. */
  lemma {:induction false} InsertByPriorityAscending(store: seq<Relation>, ks: seq<nat>, k: nat)
    requires k < |store| && forall i :: 0 <= i < |ks| ==> ks[i] < |store|
    requires ByPriority(store, ks)
    ensures ByPriority(store, InsertByPriority(store, ks, k))
    decreases |ks|
  {
    var r := InsertByPriority(store, ks, k);
    if |ks| == 0 || store[k].priority < store[ks[0]].priority {
      assert forall i :: 1 <= i < |r| ==> r[i] == ks[i - 1];
    } else {
      InsertByPriorityAscending(store, ks[1..], k);
      InsertByPriorityBounded(store, ks[1..], k, store[ks[0]].priority);
      assert r == [ks[0]] + InsertByPriority(store, ks[1..], k);
    }
  }

  /**
   * Inserting into an ascending list puts `k` after the elements of its own
   * priority: the relations of every priority keep their order.
   */
  lemma {:induction false} InsertByPriorityStable(store: seq<Relation>, ks: seq<nat>, k: nat, p: int)
    requires k < |store| && forall i :: 0 <= i < |ks| ==> ks[i] < |store|
    requires ByPriority(store, ks)
    ensures WithPriority(store, InsertByPriority(store, ks, k), p)
      == WithPriority(store, ks, p) + (if store[k].priority == p then [k] else [])
    decreases |ks|
  {
    if |ks| == 0 {
      WithPriorityCons(store, [k], k, [], p);
      assert WithPriority(store, ks, p) == [];
    } else if store[k].priority < store[ks[0]].priority {
      StableFront(store, ks, k, p);
    } else {
      ByPriorityTail(store, ks);
      InsertByPriorityStable(store, ks[1..], k, p);
      StableLater(store, ks, k, p);
    }
  }

  /** The stability step when `k` goes in front: nothing after it has its priority. */
  lemma StableFront(store: seq<Relation>, ks: seq<nat>, k: nat, p: int)
    requires k < |store| && forall i :: 0 <= i < |ks| ==> ks[i] < |store|
    requires ByPriority(store, ks) && |ks| > 0 && store[k].priority < store[ks[0]].priority
    ensures WithPriority(store, InsertByPriority(store, ks, k), p)
      == WithPriority(store, ks, p) + (if store[k].priority == p then [k] else [])
  {
    InsertFront(store, ks, k);
    WithPriorityCons(store, [k] + ks, k, ks, p);
    if store[k].priority == p {
      NoneWithPriority(store, ks, p);
    }
  }

  /** The stability step when the head stays in front, from the step for the rest. */
  lemma StableLater(store: seq<Relation>, ks: seq<nat>, k: nat, p: int)
    requires k < |store| && forall i :: 0 <= i < |ks| ==> ks[i] < |store|
    requires |ks| > 0 && store[ks[0]].priority <= store[k].priority
    requires WithPriority(store, InsertByPriority(store, ks[1..], k), p)
      == WithPriority(store, ks[1..], p) + (if store[k].priority == p then [k] else [])
    ensures WithPriority(store, InsertByPriority(store, ks, k), p)
      == WithPriority(store, ks, p) + (if store[k].priority == p then [k] else [])
  {
    var rest := InsertByPriority(store, ks[1..], k);
    InsertLater(store, ks, k);
    WithPriorityCons(store, [ks[0]] + rest, ks[0], rest, p);
    WithPriorityCons(store, ks, ks[0], ks[1..], p);
    Regrouped(if store[ks[0]].priority == p then [ks[0]] else [], WithPriority(store, ks[1..], p),
      if store[k].priority == p then [k] else []);
  }

  /** The positions of priority `p` in a list: its head when it has that priority, then those of the rest. */
  lemma WithPriorityCons(store: seq<Relation>, ks: seq<nat>, x: nat, rest: seq<nat>, p: int)
    requires forall i :: 0 <= i < |ks| ==> ks[i] < |store|
    requires |ks| > 0 && ks[0] == x && ks[1..] == rest
    ensures WithPriority(store, ks, p) == (if store[x].priority == p then [x] else []) + WithPriority(store, rest, p)
  {
  }

  /** A position of lower priority than the head goes in front. */
  lemma InsertFront(store: seq<Relation>, ks: seq<nat>, k: nat)
    requires k < |store| && forall i :: 0 <= i < |ks| ==> ks[i] < |store|
    requires |ks| > 0 && store[k].priority < store[ks[0]].priority
    ensures InsertByPriority(store, ks, k) == [k] + ks
  {
  }

  /** Otherwise the head stays in front and the position goes into the rest. */
  lemma InsertLater(store: seq<Relation>, ks: seq<nat>, k: nat)
    requires k < |store| && forall i :: 0 <= i < |ks| ==> ks[i] < |store|
    requires |ks| > 0 && store[ks[0]].priority <= store[k].priority
    ensures InsertByPriority(store, ks, k) == [ks[0]] + InsertByPriority(store, ks[1..], k)
  {
  }

  /** The rest of an ascending list is ascending. */
  lemma ByPriorityTail(store: seq<Relation>, ks: seq<nat>)
    requires |ks| > 0 && forall i :: 0 <= i < |ks| ==> ks[i] < |store|
    requires ByPriority(store, ks)
    ensures ByPriority(store, ks[1..])
  {
    var t := ks[1..];
    forall i, j | 0 <= i < j < |t|
      ensures store[t[i]].priority <= store[t[j]].priority
    {
      assert t[i] == ks[i + 1] && t[j] == ks[j + 1];
    }
  }

  /** An ascending list whose first element is above `p` has nothing of priority `p`. */
  lemma {:induction false} NoneWithPriority(store: seq<Relation>, ks: seq<nat>, p: int)
    requires forall i :: 0 <= i < |ks| ==> ks[i] < |store|
    requires forall i :: 0 <= i < |ks| ==> p < store[ks[i]].priority
    ensures WithPriority(store, ks, p) == []
    decreases |ks|
  {
    if |ks| > 0 {
      NoneWithPriority(store, ks[1..], p);
    }
  }

  /**
   * The relations ordered by priority: a stable sort of the positions by
   * the priority of their relations.
   */
  function OrderByPriority(store: seq<Relation>, ks: seq<nat>): (r: seq<nat>)
    requires forall i :: 0 <= i < |ks| ==> ks[i] < |store|
    ensures multiset(r) == multiset(ks) && |r| == |ks|
    ensures forall i :: 0 <= i < |r| ==> r[i] < |store|
    ensures ByPriority(store, r)
    decreases |ks|
  {
    if |ks| == 0 then []
    else
      var init := OrderByPriority(store, ks[..|ks| - 1]);
      assert ks == ks[..|ks| - 1] + [ks[|ks| - 1]];
      InsertByPriorityAscending(store, init, ks[|ks| - 1]);
      var r := InsertByPriority(store, init, ks[|ks| - 1]);
      assert |r| == |multiset(r)| == |multiset(ks)| == |ks|;
      r
  }

  /** `WithPriority` of a list with one more element at the end. */
  lemma {:induction false} WithPrioritySnoc(store: seq<Relation>, ks: seq<nat>, k: nat, p: int)
    requires k < |store| && forall i :: 0 <= i < |ks| ==> ks[i] < |store|
    ensures WithPriority(store, ks + [k], p) == WithPriority(store, ks, p) + (if store[k].priority == p then [k] else [])
    decreases |ks|
  {
    if |ks| > 0 {
      WithPrioritySnoc(store, ks[1..], k, p);
      assert (ks + [k])[1..] == ks[1..] + [k];
    }
  }

  /** The sort is stable: relations of equal priority keep their from-clause order. */
  lemma {:induction false} OrderByPriorityStable(store: seq<Relation>, ks: seq<nat>, p: int)
    requires forall i :: 0 <= i < |ks| ==> ks[i] < |store|
    ensures WithPriority(store, OrderByPriority(store, ks), p) == WithPriority(store, ks, p)
    decreases |ks|
  {
    if |ks| > 0 {
      var init := ks[..|ks| - 1];
      var last := ks[|ks| - 1];
      OrderByPriorityStable(store, init, p);
      InsertByPriorityStable(store, OrderByPriority(store, init), last, p);
      OrderByPriorityLast(store, ks, init, last);
      WithPrioritySnoc(store, init, last, p);
    }
  }

  /** The sort of a list is its last element inserted into the sort of the rest. */
  lemma OrderByPriorityLast(store: seq<Relation>, ks: seq<nat>, init: seq<nat>, last: nat)
    requires forall i :: 0 <= i < |ks| ==> ks[i] < |store|
    requires |ks| > 0 && init == ks[..|ks| - 1] && last == ks[|ks| - 1]
    ensures last < |store| && forall i :: 0 <= i < |init| ==> init[i] < |store|
    ensures ks == init + [last]
    ensures OrderByPriority(store, ks) == InsertByPriority(store, OrderByPriority(store, init), last)
  {
    assert ks == init + [last];
  }

  /**
   * `GetFromStatement(tokens)`: the relation texts bound in order, then the
   * positions sorted by priority.
   */
  function FromOf(store: seq<Relation>, tokens: seq<string>): (r: Parsed<FromStatement>)
    ensures |r.store| == |store|
    ensures r.result.Success? ==> r.result.value.Valid(r.store) && ByPriority(r.store, r.result.value.relations)
  {
    var b := Bind(store, FromItems(tokens));
    match b.result
    case Failure(e) => Parsed(b.store, Failure(e))
    case Success(ks) =>
      var sorted := OrderByPriority(b.store, ks);
      assert ByPriority(b.store, sorted);
      Parsed(b.store, Success(FromStatement(sorted)))
  }

  // ---------------------------------------------------------------- GetSelectStatement

  /**
   * The attribute texts of a select clause: the words without the first
   * `select`; when they hold a comma, the words concatenated with nothing
   * between them, split at commas and trimmed.
   */
  function SelectItems(tokens: seq<string>): (r: seq<string>)
    ensures ',' !in Concat(RemoveFirst(tokens, "select")) ==> r == RemoveFirst(tokens, "select")
  {
    var rest := RemoveFirst(tokens, "select");
    var text := Concat(rest);
    if ',' in text then Trimmed(Split(text, ',')) else rest
  }

  /** The name a text of the select clause gives its attribute. */
  function WrittenName(a: string): string
  {
    if '.' in a then (SplitAtSeparator(a, '.'); Split(a, '.')[1])
    else if Contains(a, "as") then Split(a, ' ')[0]
    else a
  }

  /** Every attribute `GetAttribute` returns carries the name written in its text. */
  lemma AttributeOfName(store: seq<Relation>, qn: nat, a: string)
    ensures AttributeOf(store, qn, a).result.Success? ==> AttributeOf(store, qn, a).result.value.name == WrittenName(a)
  {
  }

  /** The attribute texts resolved one after another; the first exception ends the list. */
  function SelectAttributes(store: seq<Relation>, qn: nat, items: seq<string>): (r: Parsed<seq<Attribute>>)
    ensures |r.store| == |store|
    ensures r.result.Success? ==> (|r.result.value| == |items|
      && forall i :: 0 <= i < |items| ==> r.result.value[i].name == WrittenName(items[i]) && r.result.value[i].queryNumber == qn)
    decreases |items|
  {
    if |items| == 0 then Parsed(store, Success([]))
    else
      var before := SelectAttributes(store, qn, items[..|items| - 1]);
      if before.result.Failure? then before
      else
        var one := AttributeOf(before.store, qn, items[|items| - 1]);
        match one.result
        case Failure(e) => Parsed(one.store, Failure(e))
        case Success(a) =>
          AttributeOfName(before.store, qn, items[|items| - 1]);
          assert forall i :: 0 <= i < |items| - 1 ==> items[..|items| - 1][i] == items[i];
          Parsed(one.store, Success(before.result.value + [a]))
  }

  /** `GetSelectStatement(tokens)`. */
  function SelectOf(store: seq<Relation>, qn: nat, tokens: seq<string>): (r: Parsed<SelectStatement>)
    ensures |r.store| == |store|
    ensures r.result.Success? ==> (|r.result.value.attributes| == |SelectItems(tokens)|
      && forall i :: 0 <= i < |SelectItems(tokens)| ==> r.result.value.attributes[i].name == WrittenName(SelectItems(tokens)[i]))
  {
    var p := SelectAttributes(store, qn, SelectItems(tokens));
    Parsed(p.store, if p.result.Failure? then Failure(p.result.error) else Success(SelectStatement(p.result.value)))
  }

  // ---------------------------------------------------------------- GetWhereStatement

  /** The entries of `Condition.OperatorMap` trimmed, in the map's order: the comparison symbols. */
  const ComparisonSymbols: seq<string> := ["=", "!=", ">", "<", ">=", "<="]

  /** The entries of `WhereStatement.OperatorMap` with a space on each side: where conditions part. */
  const ConditionSeparators: seq<string> := [" and ", " or "]

  /** The one comparison operator whose text in the condition operator map is `v`; the entries are distinct. */
  function ComparisonWithEntry(v: string): (r: Result<ComparisonOp>)
    ensures r.Success? ==> Rendered(r.value) && v == " " + OperatorSymbol(r.value) + " "
    ensures r.Failure? ==> r.error == NoMatch && forall op :: Rendered(op) ==> v != " " + OperatorSymbol(op) + " "
  {
    if v == " = " then Success(Equals)
    else if v == " != " then Success(NotEqualToExclamation)
    else if v == " > " then Success(GreaterThan)
    else if v == " < " then Success(LessThan)
    else if v == " >= " then Success(GreaterThanOrEqualTo)
    else if v == " <= " then Success(LessThanOrEqualTo)
    else Failure(NoMatch)
  }

  /**
   * The text the operator map is searched for, given the operator's own
   * text `t`.  The source searches for `t + " "`; the entries of the map
   * have a space on both sides, so the corrected reading searches for
   * `" " + t + " "`.
   */
  function OperatorEntry(t: string, intended: bool): string
  {
    if intended then " " + t + " " else t + " "
  }

  /** A trimmed text followed by a space is never an entry of the operator map. */
  lemma TrimmedIsNoEntry(t: string)
    requires |t| > 0 ==> !IsWhiteSpace(t[0])
    ensures ComparisonWithEntry(OperatorEntry(t, false)).Failure?
  {
    if |t| > 0 { assert (t + " ")[0] == t[0]; }
  }

  /**
   * The lookup is `Single` over the entries of `Condition.OperatorMap`: it
   * finds the one operator whose entry is `v`, and throws when no entry is.
   */
  lemma ComparisonWithEntryIsLookup(v: string)
    ensures ComparisonWithEntry(v).Success? ==>
      ComparisonWithEntry(v).value in OperatorMap && OperatorMap[ComparisonWithEntry(v).value] == v
    ensures ComparisonWithEntry(v).Failure? ==> forall op :: op in OperatorMap ==> OperatorMap[op] != v
  {
    var r := ComparisonWithEntry(v);
    if r.Success? {
      OperatorMapShape(r.value, r.value);
    } else {
      forall op | op in OperatorMap ensures OperatorMap[op] != v {
        OperatorMapShape(op, op);
      }
    }
  }

  /** The symbol of an operator between two spaces finds that operator. */
  lemma SymbolFindsOperator(op: ComparisonOp)
    requires Rendered(op)
    ensures ComparisonWithEntry(OperatorEntry(OperatorSymbol(op), true)) == Success(op)
  {
    var v := OperatorEntry(OperatorSymbol(op), true);
    var r := ComparisonWithEntry(v);
    if r.Success? {
      assert OperatorSymbol(r.value) == v[1..|v| - 1] == OperatorSymbol(op);
      OperatorMapShape(op, r.value);
    }
  }

  /** The quote characters `GetConditionValue` removes. */
  predicate IsQuote(c: char)
  {
    c == '\'' || c == '\U{2019}' || c == '`' || c == '\U{2018}'
  }

  /** Replacing a one-character text by nothing removes exactly that character. */
  lemma {:induction false} ReplaceCharRemoves(s: string, c: char)
    ensures forall x :: x in ReplaceAll(s, [c], "") <==> x in s && x != c
    decreases |s|
  {
    if |s| > 0 {
      ReplaceCharRemoves(s[1..], c);
      assert s == [s[0]] + s[1..];
    }
  }

  /**
   * `GetConditionValue(p)`: a number when the text parses as one, otherwise
   * the text with every quote character removed.
   */
  function ConditionValue(p: string): (r: Operand)
    ensures r.IntOp? <==> TryParseInt32(p).Some?
    ensures r.IntOp? ==> r.i == TryParseInt32(p).value
    ensures r.StrOp? || r.IntOp?
    ensures r.StrOp? ==> forall c :: c in r.s <==> c in p && !IsQuote(c)
  {
    match TryParseInt32(p)
    case Some(n) => IntOp(n)
    case None =>
      var s1 := ReplaceAll(p, "'", "");
      var s2 := ReplaceAll(s1, "\U{2019}", "");
      var s3 := ReplaceAll(s2, "`", "");
      var s4 := ReplaceAll(s3, "\U{2018}", "");
      ReplaceCharRemoves(p, '\'');
      ReplaceCharRemoves(s1, '\U{2019}');
      ReplaceCharRemoves(s2, '`');
      ReplaceCharRemoves(s3, '\U{2018}');
      StrOp(s4)
  }

  /**
   * One side of a condition: the attribute the text names when `dotted`
   * (the source's test for a `.`), otherwise the literal value.  Naming an
   * attribute with a `.` never changes the catalog, so the store is not
   * threaded through.
   */
  function Side(store: seq<Relation>, qn: nat, dotted: bool, t: string): (r: Result<Operand>)
    ensures r.Success? && !dotted ==> r.value == ConditionValue(t)
    ensures r.Success? && dotted ==> r.value.AttrOp? && r.value.attr.queryNumber == qn
  {
    if dotted then
      var a :- AttributeOf(store, qn, t).result;
      Success(AttrOp(a))
    else Success(ConditionValue(t))
  }

  /**
   * The operator text of a condition written without spaces: the condition
   * with both sides replaced by nothing, trimmed.
   */
  function Extraction(text: string, sides: seq<string>): (r: Result<string>)
    requires |sides| >= 1
    ensures r.Success? ==> |sides| >= 2
  {
    var without :- Replace(text, sides[0], "");
    if |sides| < 2 then Failure(IndexOutOfRange)
    else
      var bare :- Replace(without, sides[1], "");
      Success(Trim(bare))
  }

  /**
   * One condition of the where clause.  With a space in it, its words are
   * left side, operator and right side; without, it is cut at the comparison
   * symbols and the operator is what remains once both sides are removed.
   * `first` marks the first condition, whose operator text the source
   * extracts before reading its left side; for a later condition written
   * with spaces the source tests the operator word, not the right word, for
   * a `.` (the corrected reading tests the right word).  Each part is read in
   * the source's order, so the first exception is the one it throws.
   */
  function ParseCondition(store: seq<Relation>, qn: nat, text: string, intended: bool, first: bool): (r: Result<Condition>)
    ensures r.Success? ==> Rendered(r.value.op) && r.value.queryNumber == qn
  {
    if ' ' in text then SpacedCondition(store, qn, SpacedWords(text), intended, first)
    else CompactCondition(store, qn, text, Trimmed(SplitAny(text, ComparisonSymbols)), intended, first)
  }

  /** The words of a condition written with spaces, trimmed. */
  function SpacedWords(text: string): (r: seq<string>)
    requires ' ' in text
    ensures |r| >= 2 && forall i :: 0 <= i < |r| ==> |r[i]| > 0 ==> !IsWhiteSpace(r[i][0])
  {
    SplitAtSeparator(text, ' ');
    Trimmed(Tokens(text))
  }

  /** A condition written with spaces: left side, operator and right side are its first three words. */
  function SpacedCondition(store: seq<Relation>, qn: nat, words: seq<string>, intended: bool, first: bool): (r: Result<Condition>)
    requires |words| >= 2
    ensures r.Success? ==> Rendered(r.value.op) && r.value.queryNumber == qn
  {
    var left :- Side(store, qn, '.' in words[0], words[0]);
    var op :- ComparisonWithEntry(OperatorEntry(words[1], intended));
    if |words| < 3 then Failure(IndexOutOfRange)
    else
      var right :- Side(store, qn, '.' in (if first || intended then words[2] else words[1]), words[2]);
      Success(Condition(left, op, right, qn))
  }

  /**
   * A condition written without spaces, cut into `sides` at the comparison
   * symbols; its operator is what remains once both sides are removed.
   */
  function CompactCondition(store: seq<Relation>, qn: nat, text: string, sides: seq<string>, intended: bool, first: bool): (r: Result<Condition>)
    requires |sides| >= 1
    ensures r.Success? ==> Rendered(r.value.op) && r.value.queryNumber == qn
  {
    var opText :- if first then Extraction(text, sides) else Success("");
    var left :- Side(store, qn, '.' in sides[0], sides[0]);
    var opText' :- if first then Success(opText) else Extraction(text, sides);
    var op :- ComparisonWithEntry(OperatorEntry(opText', intended));
    if |sides| < 2 then Failure(IndexOutOfRange)
    else
      var right :- Side(store, qn, '.' in sides[1], sides[1]);
      Success(Condition(left, op, right, qn))
  }

  /** As written, no condition is ever read: its operator is never found. */
  lemma ConditionAsWrittenFails(store: seq<Relation>, qn: nat, text: string, first: bool)
    ensures ParseCondition(store, qn, text, false, first).Failure?
  {
    if ' ' in text {
      SpacedAsWrittenFails(store, qn, SpacedWords(text), first);
    } else {
      CompactAsWrittenFails(store, qn, text, Trimmed(SplitAny(text, ComparisonSymbols)), first);
    }
  }

  /** As written, a condition with spaces fails: its trimmed second word is no operator entry. */
  lemma SpacedAsWrittenFails(store: seq<Relation>, qn: nat, words: seq<string>, first: bool)
    requires |words| >= 2 && (|words[1]| > 0 ==> !IsWhiteSpace(words[1][0]))
    ensures SpacedCondition(store, qn, words, false, first).Failure?
  {
    TrimmedIsNoEntry(words[1]);
  }

  /** As written, a condition without spaces fails: what remains once its sides are removed is trimmed. */
  lemma CompactAsWrittenFails(store: seq<Relation>, qn: nat, text: string, sides: seq<string>, first: bool)
    requires |sides| >= 1
    ensures CompactCondition(store, qn, text, sides, false, first).Failure?
  {
    var e := Extraction(text, sides);
    if e.Success? {
      TrimmedIsNoEntry(e.value);
    }
  }

  /** The words that, followed by a space, are texts of the where-clause operator map, as operators. */
  function WhereWords(tokens: seq<string>): (r: seq<LogicalOp>)
    ensures |r| <= |tokens|
    decreases |tokens|
  {
    if |tokens| == 0 then []
    else
      var w := if tokens[0] == "and" then [And] else if tokens[0] == "or" then [Or] else [];
      assert WhereWord(And) == "and " && WhereWord(Or) == "or ";
      w + WhereWords(tokens[1..])
  }

  /**
   * The condition texts of a where clause.  As written: when a word is
   * `and` or `or`, the words joined by spaces, cut at " and " and " or "
   * and trimmed; otherwise each word on its own is a condition.  The
   * corrected reading always joins and cuts, so that one condition written
   * with spaces stays one condition.
   */
  function WhereItems(rest: seq<string>, intended: bool): (r: seq<string>)
  {
    if intended || "and" in rest || "or" in rest then Trimmed(SplitAny(Concat(Spaced(rest)), ConditionSeparators))
    else rest
  }

  /**
   * A where clause after round `n` of the source's loop: conditions `0..n`,
   * each with a mapped operator and the query counter, and exactly the
   * neighbouring pairs up to `n` linked, pair `i` by the `i`-th logical word.
   */
  ghost predicate ChainShape(w: WhereStatement, words: seq<LogicalOp>, qn: nat, n: nat)
  {
    |w.conditions| == n + 1 && n <= |words|
    && AllRendered(w.conditions, n + 1) && AllLinked(w.operators, n + 1)
    && (forall i :: 0 <= i <= n ==> w.conditions[i].queryNumber == qn)
    && (forall key :: key in w.operators <==> 1 <= key.1 <= n && key.0 + 1 == key.1)
    && (forall i :: 1 <= i <= n ==> LinkedByWord(w.operators, words, i))
  }

  /** Items `i - 1` and `i` are linked by the `i`-th logical word. */
  predicate LinkedByWord(ops: map<(nat, nat), LogicalOp>, words: seq<LogicalOp>, i: nat)
  {
    1 <= i <= |words| && LinkedBy(ops, i, words[i - 1])
  }

  /** One round of the loop: condition `n` appended and linked to condition `n - 1`. */
  function Extend(before: WhereStatement, c: Condition, words: seq<LogicalOp>, qn: nat, n: nat): (w: WhereStatement)
    requires n >= 2 && ChainShape(before, words, qn, n - 1) && n <= |words|
    requires Rendered(c.op) && c.queryNumber == qn
    ensures ChainShape(w, words, qn, n)
    ensures w.conditions == before.conditions + [c]
  {
    var w := WhereStatement(before.conditions + [c], before.operators[(n - 1, n) := words[n - 1]]);
    assert AllLinked(w.operators, n + 1) by {
      forall i | 1 <= i < n + 1 ensures Linked(w.operators, i) {
        if i < n { assert Linked(before.operators, i); }
      }
    }
    assert forall i :: 1 <= i <= n ==> LinkedByWord(w.operators, words, i) by {
      forall i | 1 <= i <= n ensures LinkedByWord(w.operators, words, i) {
        if i < n { assert LinkedByWord(before.operators, words, i); }
      }
    }
    w
  }

  /**
   * Every condition text read in the source's manner, the first as the
   * first.  Reading a condition never changes the catalog, so the readings
   * do not depend on one another.
   */
  function Readings(store: seq<Relation>, qn: nat, texts: seq<string>, intended: bool): (r: seq<Result<Condition>>)
    ensures |r| == |texts| && WellRead(r, qn)
  {
    seq(|texts|, i requires 0 <= i < |texts| => ParseCondition(store, qn, texts[i], intended, i == 0))
  }

  /** Reading `i` is condition text `i` read in the source's manner. */
  lemma ReadingAt(store: seq<Relation>, qn: nat, texts: seq<string>, intended: bool, i: nat)
    requires i < |texts|
    ensures Readings(store, qn, texts, intended)[i] == ParseCondition(store, qn, texts[i], intended, i == 0)
  {
  }

  /** Every successful reading has a mapped operator and the query counter. */
  predicate WellRead(parsed: seq<Result<Condition>>, qn: nat)
  {
    forall i :: 0 <= i < |parsed| && parsed[i].Success? ==> Rendered(parsed[i].value.op) && parsed[i].value.queryNumber == qn
  }

  /**
   * The where clause after round `n` of the source's loop over the
   * condition readings: round 1 takes conditions 0 and 1 and the first
   * logical word, each later round one more condition and one more word.
   * The first exception in that order is the one thrown.
   */
  function Chain(parsed: seq<Result<Condition>>, words: seq<LogicalOp>, qn: nat, n: nat): (r: Result<WhereStatement>)
    requires 1 <= n < |parsed| && WellRead(parsed, qn)
    ensures r.Success? ==> ChainShape(r.value, words, qn, n)
    ensures r.Success? ==> forall i :: 0 <= i <= n ==> parsed[i] == Success(r.value.conditions[i])
    decreases n
  {
    if n == 1 then
      var c0 :- parsed[0];
      var c1 :- parsed[1];
      if |words| < 1 then Failure(IndexOutOfRange)
      else
        var w := WhereStatement([c0, c1], map[(0, 1) := words[0]]);
        assert LinkedByWord(w.operators, words, 1);
        Success(w)
    else
      var before :- Chain(parsed, words, qn, n - 1);
      var c :- parsed[n];
      if |words| < n then Failure(IndexOutOfRange)
      else Success(Extend(before, c, words, qn, n))
  }

  /** The loop over several conditions throws when the first condition cannot be read. */
  lemma {:induction false} ChainFailsWithFirst(parsed: seq<Result<Condition>>, words: seq<LogicalOp>, qn: nat, n: nat)
    requires 1 <= n < |parsed| && WellRead(parsed, qn) && parsed[0].Failure?
    ensures Chain(parsed, words, qn, n) == Failure(parsed[0].error)
    decreases n
  {
    if n > 1 {
      ChainFailsWithFirst(parsed, words, qn, n - 1);
    }
  }

  /**
   * The single-condition path of the source: the condition with its spaces
   * removed, cut at the comparison symbols; the source searches the map for
   * the right side's text and builds a condition of the raw left text and a
   * third piece that a cut into two never has.  The corrected reading is
   * `first`, the condition read like the first of several.
   */
  function SingleCondition(text: string, intended: bool, first: Result<Condition>): (r: Result<Condition>)
    requires first.Success? ==> Rendered(first.value.op)
    ensures r.Success? ==> Rendered(r.value.op)
  {
    if intended then first
    else
      var pieces := Trimmed(SplitAny(ReplaceAll(text, " ", ""), ComparisonSymbols));
      match ItemAt(pieces, 1)
      case None => Failure(IndexOutOfRange)
      case Some(operator) =>
        match ComparisonWithEntry(OperatorEntry(operator, false))
        case Failure(e) => Failure(e)
        case Success(op) =>
          match ItemAt(pieces, 2)
          case None => Failure(IndexOutOfRange)
          case Some(right) => Success(Condition(StrOp(pieces[0]), op, StrOp(right), 0))
  }

  /** `list[k]`, or nothing where the indexer throws. */
  function ItemAt(xs: seq<string>, k: nat): (r: Option<string>)
    ensures r.Some? <==> k < |xs|
    ensures r.Some? ==> r.value == xs[k]
  {
    if k < |xs| then Some(xs[k]) else None
  }

  /**
   * `GetWhereStatement(tokens)` under either reading: the words without the
   * first `where`, cut into conditions; several conditions are read in a
   * chain, one on its own by the single-condition path, none at all is an
   * index out of range.
   */
  function WhereWith(store: seq<Relation>, qn: nat, tokens: seq<string>, intended: bool): (r: Result<WhereStatement>)
    ensures r.Success? ==> (|r.value.conditions| >= 1 && AllRendered(r.value.conditions, |r.value.conditions|)
      && AllLinked(r.value.operators, |r.value.conditions|))
  {
    var rest := RemoveFirst(tokens, "where");
    var texts := WhereItems(rest, intended);
    var parsed := Readings(store, qn, texts, intended);
    if |texts| > 1 then Chain(parsed, WhereWords(rest), qn, |texts| - 1)
    else if |texts| == 0 then Failure(IndexOutOfRange)
    else OneCondition(parsed, qn, texts[0], intended)
  }

  /** A where clause of the one condition `text`, whose reading as a first condition is `parsed[0]`. */
  function OneCondition(parsed: seq<Result<Condition>>, qn: nat, text: string, intended: bool): (r: Result<WhereStatement>)
    requires |parsed| == 1 && WellRead(parsed, qn)
    ensures r.Success? ==> |r.value.conditions| == 1 && Rendered(r.value.conditions[0].op) && r.value.operators == map[]
  {
    var c :- SingleCondition(text, intended, parsed[0]);
    Success(WhereStatement([c], map[]))
  }

  /** `GetWhereStatement` as the source writes it. */
  function WhereAsWritten(store: seq<Relation>, qn: nat, tokens: seq<string>): (r: Result<WhereStatement>)
  {
    WhereWith(store, qn, tokens, false)
  }

  /** `GetWhereStatement` with the operator lookup, the word split and the single path corrected. */
  function WhereIntended(store: seq<Relation>, qn: nat, tokens: seq<string>): (r: Result<WhereStatement>)
    ensures r.Success? ==> r.value.ToString().Success? && StartsWith(r.value.ToString().value, "where ")
  {
    WhereWith(store, qn, tokens, true)
  }

  /**
   * As written, `GetWhereStatement` never returns: every path looks a
   * trimmed word followed by one space up in a map whose entries all start
   * with a space.
   */
  lemma WhereAsWrittenNeverReturns(store: seq<Relation>, qn: nat, tokens: seq<string>)
    ensures WhereAsWritten(store, qn, tokens).Failure?
  {
    var rest := RemoveFirst(tokens, "where");
    var texts := WhereItems(rest, false);
    if |texts| > 1 {
      var parsed := Readings(store, qn, texts, false);
      ReadingAt(store, qn, texts, false, 0);
      ConditionAsWrittenFails(store, qn, texts[0], true);
      ChainFailsWithFirst(parsed, WhereWords(rest), qn, |texts| - 1);
    } else if |texts| == 1 {
      var pieces := Trimmed(SplitAny(ReplaceAll(texts[0], " ", ""), ComparisonSymbols));
      if |pieces| >= 2 {
        TrimmedIsNoEntry(pieces[1]);
      }
    }
  }

  /** A character that is no white space, comparison symbol, quote, digit or dot. */
  predicate PlainChar(c: char)
  {
    !IsWhiteSpace(c) && c != '=' && c != '!' && c != '<' && c != '>' && !IsQuote(c) && !IsDigit(c) && c != '.'
  }

  /** A one-character word of a plain character reads as itself. */
  lemma PlainValue(x: char)
    requires PlainChar(x)
    ensures ConditionValue([x]) == StrOp([x])
  {
    ContainsChar([x], '\'');
    ContainsChar([x], '\U{2019}');
    ContainsChar([x], '`');
    ContainsChar([x], '\U{2018}');
  }

  /** A text at no position of which a separator starts is one piece. */
  lemma {:induction false} NoSeparatorSplit(s: string, seps: seq<string>)
    requires forall i :: 0 <= i < |s| ==> SeparatorAt(s[i..], seps).None?
    ensures SplitAny(s, seps) == [s]
    decreases |s|
  {
    if |s| > 0 {
      assert SeparatorAt(s[0..], seps).None? && s[0..] == s;
      forall i | 0 <= i < |s| - 1 ensures SeparatorAt(s[1..][i..], seps).None? {
        assert s[1..][i..] == s[i + 1..];
      }
      NoSeparatorSplit(s[1..], seps);
      assert [s[0]] + s[1..] == s;
    }
  }

  /** Only a text starting with `=`, `!`, `<` or `>` starts with a comparison symbol. */
  lemma NoSymbolAt(t: string)
    requires |t| > 0 && t[0] != '=' && t[0] != '!' && t[0] != '<' && t[0] != '>'
    ensures SeparatorAt(t, ComparisonSymbols).None?
  {
  }

  /** Only a text starting with a space starts with a logical separator. */
  lemma NoLogicalAt(t: string)
    requires |t| < 4 || t[0] != ' ' || (t[1] != 'a' && t[1] != 'o')
    ensures SeparatorAt(t, ConditionSeparators).None?
  {
    LogicalShape();
    NoLogicalPair(t, ConditionSeparators[0], ConditionSeparators[1]);
  }

  /** The logical separators are two, each starting with a space and then an `a` or an `o`. */
  lemma LogicalShape()
    ensures |ConditionSeparators| == 2 && ConditionSeparators == [ConditionSeparators[0], ConditionSeparators[1]]
    ensures |ConditionSeparators[0]| >= 4 && ConditionSeparators[0][0] == ' ' && ConditionSeparators[0][1] == 'a'
    ensures |ConditionSeparators[1]| >= 4 && ConditionSeparators[1][0] == ' ' && ConditionSeparators[1][1] == 'o'
  {
  }

  /** `NoLogicalAt` for any two separators that start with a space and an `a` or an `o`. */
  lemma NoLogicalPair(t: string, a: string, b: string)
    requires |a| >= 4 && a[0] == ' ' && (a[1] == 'a' || a[1] == 'o')
    requires |b| >= 4 && b[0] == ' ' && (b[1] == 'a' || b[1] == 'o')
    requires |t| < 4 || t[0] != ' ' || (t[1] != 'a' && t[1] != 'o')
    ensures SeparatorAt(t, [a, b]).None?
  {
    NotPrefix(t, a);
    NotPrefix(t, b);
    NeitherSeparator(t, a, b);
  }

  /** A text starting with neither of two separators starts with none of the pair. */
  lemma NeitherSeparator(t: string, a: string, b: string)
    requires !StartsWith(t, a) && !StartsWith(t, b)
    ensures SeparatorAt(t, [a, b]).None?
  {
    assert [a, b][1..] == [b];
    assert [b][1..] == [];
  }

  /** A text differing from `p` in one of its first two characters, or shorter, does not start with `p`. */
  lemma NotPrefix(t: string, p: string)
    requires |p| >= 4 && p[0] == ' ' && (p[1] == 'a' || p[1] == 'o')
    requires |t| < 4 || t[0] != ' ' || (t[1] != 'a' && t[1] != 'o')
    ensures !StartsWith(t, p)
  {
    if |p| <= |t| {
      assert t[..|p|][0] == t[0] && t[..|p|][1] == t[1];
    }
  }

  /** A text that neither starts nor ends with white space is its own trim. */
  lemma TrimmedAlready(s: string)
    requires |s| > 0 && !IsWhiteSpace(s[0]) && !IsWhiteSpace(s[|s| - 1])
    ensures Trim(s) == s
  {
    assert LeadingCount(s, false) == 0;
    assert TrailingCount(s[0..], false) == 0 by { assert s[0..] == s; }
  }

  /** `x=y` cut at the comparison symbols. */
  lemma CutCompact(x: char, y: char)
    requires PlainChar(x) && PlainChar(y)
    ensures SplitAny([x, '=', y], ComparisonSymbols) == [[x], [y]]
  {
    var s := [x, '=', y];
    SplitAfterEquals(y);
    assert s[1..] == ['=', y];
    NoSymbolAt(s);
    assert SplitAny(s, ComparisonSymbols) == [[x] + ""] + [[y]];
    assert [x] + "" == [x];
  }

  /** `=y` is cut into nothing before the symbol and `y` after it. */
  lemma SplitAfterEquals(y: char)
    requires PlainChar(y)
    ensures SplitAny(['=', y], ComparisonSymbols) == ["", [y]]
  {
    NoSymbolAt([y]);
    assert [y][0..] == [y];
    NoSeparatorSplit([y], ComparisonSymbols);
    EqualsFirst(['=', y]);
    assert ['=', y][1..] == [y];
  }

  /** A text starting with `=` starts with the first comparison symbol. */
  lemma EqualsFirst(t: string)
    requires |t| > 0 && t[0] == '='
    ensures SeparatorAt(t, ComparisonSymbols) == Some(0) && |ComparisonSymbols[0]| == 1
  {
    assert t[..1] == "=";
  }

  /** The two operands of `x=y`, trimmed. */
  lemma CutCompactTrimmed(x: char, y: char)
    requires PlainChar(x) && PlainChar(y)
    ensures Trimmed(SplitAny([x, '=', y], ComparisonSymbols)) == [[x], [y]]
  {
    CutCompact(x, y);
    TrimmedAlready([x]);
    TrimmedAlready([y]);
  }

  /** A text followed by one space trims to the text, when the text is its own trim. */
  lemma TrimTrailingSpace(t: string)
    requires |t| > 0 && !IsWhiteSpace(t[0]) && !IsWhiteSpace(t[|t| - 1])
    ensures Trim(t + " ") == t
  {
    var s := t + " ";
    assert s[0] == t[0];
    assert LeadingCount(s, false) == 0;
    assert s[0..] == s;
    assert s[..|s| - 1] == t;
    assert TrailingCount(t, false) == 0;
    assert TrailingCount(s, false) == 1;
  }

  /** `x=y ` holds no logical separator. */
  lemma CutLogical(x: char, y: char)
    requires PlainChar(x) && PlainChar(y)
    ensures Trimmed(SplitAny([x, '=', y, ' '], ConditionSeparators)) == [[x, '=', y]]
  {
    var s := [x, '=', y, ' '];
    forall i | 0 <= i < |s| ensures SeparatorAt(s[i..], ConditionSeparators).None? {
      if i < 3 {
        NoLogicalAt(s[i..]);
      } else {
        assert |s[i..]| == 1;
      }
    }
    NoSeparatorSplit(s, ConditionSeparators);
    assert s == [x, '=', y] + " ";
    TrimTrailingSpace([x, '=', y]);
  }

  /** Removing `x` and then `y` from `x=y` leaves the `=`. */
  lemma ExtractEquals(x: char, y: char)
    requires PlainChar(x) && PlainChar(y)
    ensures Extraction([x, '=', y], [[x], [y]]) == Success("=")
  {
    DropLeft(x, y);
    DropRight(x, y);
    TrimmedAlready("=");
  }

  /** Removing a one-character text from a one-character text. */
  lemma DropSingle(c: char, d: char)
    ensures ReplaceAll([c], [d], "") == (if c == d then "" else [c])
  {
    assert [c][1..] == "";
  }

  /** Removing the left operand from `x=y` leaves the symbol and, unless it is the same, the right operand. */
  lemma DropLeft(x: char, y: char)
    requires x != '='
    ensures ReplaceAll([x, '=', y], [x], "") == (if x == y then "=" else ['=', y])
  {
    assert [x, '=', y][1..] == ['=', y];
    assert ['=', y][1..] == [y];
    DropSingle(y, x);
  }

  /** Removing the right operand then leaves the symbol alone. */
  lemma DropRight(x: char, y: char)
    requires y != '='
    ensures ReplaceAll(if x == y then "=" else ['=', y], [y], "") == "="
  {
    DropSingle('=', y);
    if x != y {
      assert ['=', y][1..] == [y];
      DropSingle(y, y);
    }
  }

  /** `x=y`, cut into its operands, read as the first condition in the corrected manner. */
  lemma ReadCompactSides(store: seq<Relation>, qn: nat, x: char, y: char)
    requires PlainChar(x) && PlainChar(y)
    ensures CompactCondition(store, qn, [x, '=', y], [[x], [y]], true, true) == Success(Condition(StrOp([x]), Equals, StrOp([y]), qn))
  {
    ExtractEquals(x, y);
    assert Side(store, qn, '.' in [x], [x]) == Success(StrOp([x])) by {
      assert '.' !in [x];
      PlainValue(x);
    }
    assert Side(store, qn, '.' in [y], [y]) == Success(StrOp([y])) by {
      assert '.' !in [y];
      PlainValue(y);
    }
    assert ComparisonWithEntry(OperatorEntry("=", true)) == Success(Equals) by {
      SymbolFindsOperator(Equals);
    }
  }

  /** `x=y` read as the first condition, in the corrected manner. */
  lemma ReadCompact(store: seq<Relation>, qn: nat, x: char, y: char)
    requires PlainChar(x) && PlainChar(y)
    ensures ParseCondition(store, qn, [x, '=', y], true, true) == Success(Condition(StrOp([x]), Equals, StrOp([y]), qn))
  {
    CutCompactTrimmed(x, y);
    assert ' ' !in [x, '=', y];
    ReadCompactSides(store, qn, x, y);
  }

  /**
   * The where clause `where x=y`, for one-character operands: as written
   * the single-condition path looks the right operand up as an operator
   * and throws.
   */
  lemma CompactConditionAsWritten(store: seq<Relation>, qn: nat, x: char, y: char)
    requires PlainChar(x) && PlainChar(y)
    ensures WhereAsWritten(store, qn, ["where", [x, '=', y]]) == Failure(NoMatch)
  {
    var c := [x, '=', y];
    assert RemoveFirst(["where", c], "where") == [c];
    assert "and" !in [c] && "or" !in [c];
    assert WhereItems([c], false) == [c];
    CutCompactTrimmed(x, y);
    assert ReplaceAll(c, " ", "") == c by {
      ContainsChar(c, ' ');
    }
    TrimmedIsNoEntry([y]);
    assert SingleCondition(c, false, Readings(store, qn, [c], false)[0]) == Failure(NoMatch);
  }

  /** A where clause of one condition text is that condition read as the first. */
  lemma WhereOfOne(store: seq<Relation>, qn: nat, tokens: seq<string>, intended: bool)
    requires |WhereItems(RemoveFirst(tokens, "where"), intended)| == 1
    ensures var text := WhereItems(RemoveFirst(tokens, "where"), intended)[0];
      WhereWith(store, qn, tokens, intended)
        == OneCondition(Readings(store, qn, [text], intended), qn, text, intended)
  {
  }

  /** In the corrected reading, the words `x=y` are one condition text. */
  lemma CompactItems(x: char, y: char)
    requires PlainChar(x) && PlainChar(y)
    ensures WhereItems([[x, '=', y]], true) == [[x, '=', y]]
  {
    var c := [x, '=', y];
    assert Spaced([c]) == [c + " "];
    assert c + " " == [x, '=', y, ' '];
    assert Concat([c + " "]) == c + " " by {
      assert Concat([c + " "][1..]) == "";
    }
    CutLogical(x, y);
  }

  /** The where clause `where x=y` read in the corrected manner: the one condition x = y. */
  lemma CompactConditionIntended(store: seq<Relation>, qn: nat, x: char, y: char)
    requires PlainChar(x) && PlainChar(y)
    ensures WhereIntended(store, qn, ["where", [x, '=', y]]) == Success(WhereStatement([Condition(StrOp([x]), Equals, StrOp([y]), qn)], map[]))
  {
    CompactWhereOne(store, qn, x, y);
    CompactOneCondition(store, qn, x, y);
  }

  /** In the corrected reading, `where x=y` has the one condition text `x=y`. */
  lemma CompactWhereOne(store: seq<Relation>, qn: nat, x: char, y: char)
    requires PlainChar(x) && PlainChar(y)
    ensures WhereWith(store, qn, ["where", [x, '=', y]], true)
      == OneCondition(Readings(store, qn, [[x, '=', y]], true), qn, [x, '=', y], true)
  {
    var c := [x, '=', y];
    assert RemoveFirst(["where", c], "where") == [c];
    CompactItems(x, y);
    WhereOfOne(store, qn, ["where", c], true);
  }

  /** The one condition text `x=y`, read in the corrected manner, is the condition x = y. */
  lemma CompactOneCondition(store: seq<Relation>, qn: nat, x: char, y: char)
    requires PlainChar(x) && PlainChar(y)
    ensures OneCondition(Readings(store, qn, [[x, '=', y]], true), qn, [x, '=', y], true)
      == Success(WhereStatement([Condition(StrOp([x]), Equals, StrOp([y]), qn)], map[]))
  {
    ReadCompact(store, qn, x, y);
    ReadingAt(store, qn, [[x, '=', y]], true, 0);
  }

  /** A single word without symbols, read as a first condition, has no right side. */
  lemma ReadBareWord(store: seq<Relation>, qn: nat, x: char, intended: bool)
    requires PlainChar(x)
    ensures ParseCondition(store, qn, [x], intended, true) == Failure(IndexOutOfRange)
  {
    assert ' ' !in [x];
    BareSides(x);
    BareCompactFails(store, qn, x, intended);
  }

  /** A single word without symbols is its own only side. */
  lemma BareSides(x: char)
    requires PlainChar(x)
    ensures Trimmed(SplitAny([x], ComparisonSymbols)) == [[x]]
  {
    NoSymbolAt([x]);
    assert [x][0..] == [x];
    NoSeparatorSplit([x], ComparisonSymbols);
    TrimmedAlready([x]);
  }

  /** With only one side, the first condition finds its operator text but then has no right side. */
  lemma BareCompactFails(store: seq<Relation>, qn: nat, x: char, intended: bool)
    requires PlainChar(x)
    ensures CompactCondition(store, qn, [x], [[x]], intended, true) == Failure(IndexOutOfRange)
  {
    ReplaceWhole([x]);
  }

  /**
   * The where clause `where x = y`, for one-character operands: as written
   * each word is a condition of its own, and the first, `x`, has no
   * operator, so the clause throws before any operator is looked up.
   */
  lemma SpacedConditionAsWritten(store: seq<Relation>, qn: nat, x: char, y: char)
    requires PlainChar(x) && PlainChar(y)
    ensures WhereAsWritten(store, qn, ["where", [x], "=", [y]]) == Failure(IndexOutOfRange)
  {
    var rest := [[x], "=", [y]];
    assert RemoveFirst(["where", [x], "=", [y]], "where") == rest;
    assert "and" !in rest && "or" !in rest;
    assert WhereItems(rest, false) == rest;
    var parsed := Readings(store, qn, rest, false);
    ReadingAt(store, qn, rest, false, 0);
    ReadBareWord(store, qn, x, false);
    ChainFailsWithFirst(parsed, WhereWords(rest), qn, 2);
  }

  /** In the corrected reading, the words `x`, `=`, `y` are one condition text. */
  lemma SpacedItems(x: char, y: char)
    requires PlainChar(x) && PlainChar(y)
    ensures WhereItems([[x], "=", [y]], true) == [[x, ' ', '=', ' ', y]]
  {
    SpacedText(x, y);
    CutSpaced(x, y);
  }

  /** The words `x`, `=`, `y`, each followed by a space. */
  lemma SpacedText(x: char, y: char)
    ensures Concat(Spaced([[x], "=", [y]])) == [x, ' ', '=', ' ', y, ' ']
  {
    var rest := [[x], "=", [y]];
    assert [x] + " " == [x, ' '] && "=" + " " == ['=', ' '] && [y] + " " == [y, ' '];
    assert Spaced(rest) == [[x, ' '], ['=', ' '], [y, ' ']];
    assert Concat([[y, ' ']]) == [y, ' '] by {
      assert Concat([[y, ' ']][1..]) == "";
    }
    assert [[x, ' '], ['=', ' '], [y, ' ']][1..] == [['=', ' '], [y, ' ']];
    assert [['=', ' '], [y, ' ']][1..] == [[y, ' ']];
  }

  /** `x = y ` holds no logical separator. */
  lemma CutSpaced(x: char, y: char)
    requires PlainChar(x) && PlainChar(y)
    ensures Trimmed(SplitAny([x, ' ', '=', ' ', y, ' '], ConditionSeparators)) == [[x, ' ', '=', ' ', y]]
  {
    var s := [x, ' ', '=', ' ', y, ' '];
    forall i | 0 <= i < |s| ensures SeparatorAt(s[i..], ConditionSeparators).None? {
      NoLogicalAt(s[i..]);
    }
    NoSeparatorSplit(s, ConditionSeparators);
    assert s == [x, ' ', '=', ' ', y] + " ";
    TrimTrailingSpace([x, ' ', '=', ' ', y]);
  }

  /** `x = y` split at its spaces. */
  lemma SplitSpaced(x: char, y: char)
    requires PlainChar(x) && PlainChar(y)
    ensures Tokens([x, ' ', '=', ' ', y]) == [[x], "=", [y]]
  {
    var parts := [[x], "=", [y]];
    assert JoinWith(parts[1..][1..], ' ') == [y];
    assert JoinWith(parts[1..], ' ') == "=" + " " + [y];
    assert JoinWith(parts, ' ') == [x, ' ', '=', ' ', y];
    JoinSplit(parts, ' ');
  }

  /** The words `x`, `=`, `y` are their own trims. */
  lemma TrimmedWords(x: char, y: char)
    requires PlainChar(x) && PlainChar(y)
    ensures Trimmed([[x], "=", [y]]) == [[x], "=", [y]]
  {
    TrimmedChar(x);
    TrimmedChar('=');
    TrimmedChar(y);
    assert "=" == ['='];
  }

  /** A character that is no white space is its own trim. */
  lemma TrimmedChar(c: char)
    requires !IsWhiteSpace(c)
    ensures Trim([c]) == [c]
  {
    TrimmedAlready([c]);
  }

  /** The words of `x = y`. */
  lemma SpacedWordsOf(x: char, y: char)
    requires PlainChar(x) && PlainChar(y)
    ensures ' ' in [x, ' ', '=', ' ', y] && SpacedWords([x, ' ', '=', ' ', y]) == [[x], "=", [y]]
  {
    assert [x, ' ', '=', ' ', y][1] == ' ';
    SplitSpaced(x, y);
    TrimmedWords(x, y);
  }

  /** The words `x`, `=`, `y` read as the first condition, in the corrected manner. */
  lemma ReadSpacedWords(store: seq<Relation>, qn: nat, x: char, y: char)
    requires PlainChar(x) && PlainChar(y)
    ensures SpacedCondition(store, qn, [[x], "=", [y]], true, true) == Success(Condition(StrOp([x]), Equals, StrOp([y]), qn))
  {
    var words := [[x], "=", [y]];
    assert words[0] == [x] && words[1] == "=" && words[2] == [y];
    PlainSide(store, qn, x);
    PlainSide(store, qn, y);
    EqualsEntry();
  }

  /** A plain one-character side is its own text. */
  lemma PlainSide(store: seq<Relation>, qn: nat, x: char)
    requires PlainChar(x)
    ensures Side(store, qn, '.' in [x], [x]) == Success(StrOp([x]))
  {
    assert '.' !in [x];
    PlainValue(x);
  }

  /** The word `=` names the equality operator. */
  lemma EqualsEntry()
    ensures ComparisonWithEntry(OperatorEntry("=", true)) == Success(Equals)
  {
    SymbolFindsOperator(Equals);
  }

  /** `x = y` read as the first condition, in the corrected manner. */
  lemma ReadSpaced(store: seq<Relation>, qn: nat, x: char, y: char)
    requires PlainChar(x) && PlainChar(y)
    ensures ParseCondition(store, qn, [x, ' ', '=', ' ', y], true, true) == Success(Condition(StrOp([x]), Equals, StrOp([y]), qn))
  {
    SpacedWordsOf(x, y);
    ReadSpacedWords(store, qn, x, y);
  }

  /** The where clause `where x = y` read in the corrected manner: the one condition x = y. */
  lemma SpacedConditionIntended(store: seq<Relation>, qn: nat, x: char, y: char)
    requires PlainChar(x) && PlainChar(y)
    ensures WhereIntended(store, qn, ["where", [x], "=", [y]]) == Success(WhereStatement([Condition(StrOp([x]), Equals, StrOp([y]), qn)], map[]))
  {
    var c := [x, ' ', '=', ' ', y];
    assert RemoveFirst(["where", [x], "=", [y]], "where") == [[x], "=", [y]];
    SpacedItems(x, y);
    WhereOfOne(store, qn, ["where", [x], "=", [y]], true);
    ReadSpaced(store, qn, x, y);
    ReadingAt(store, qn, [c], true, 0);
  }
}
