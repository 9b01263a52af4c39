/**
 * The `QoParser` object: a catalog `Schema` it resolves names against and
 * adds aliases to, the query string of the last parse and the query
 * counter; and the two assemblers that cut a query string into its
 * sub-queries and a sub-query into its select, from and where clauses.
 */
module Assembler {
  import opened Wrappers
  import opened Text
  import opened QueryModel
  import opened Statements
  import opened Schemas
  import opened Parser

  // ---------------------------------------------------------------- AssembleQuery

  /**
   * The `fromIndex` and `whereIndex` of `AssembleQuery`'s scan: the scan
   * stops at the first `where`, whose position is `whereIndex`; `fromIndex`
   * is the position of the first `from` when one comes before that point.
   * Both stay 0 when their word is not reached.
   */
  function Cut(tokens: seq<string>): (r: (nat, nat))
    ensures "where" in tokens ==> r.1 < |tokens| && tokens[r.1] == "where" && "where" !in tokens[..r.1]
    ensures "where" !in tokens ==> r.1 == 0
    ensures "from" in Scanned(tokens) ==> r.0 < |tokens| && tokens[r.0] == "from" && "from" !in tokens[..r.0]
    ensures "from" !in Scanned(tokens) ==> r.0 == 0
  {
    var w := IndexOf(tokens, "where");
    var f := if "from" in Scanned(tokens) then IndexOf(tokens, "from") else 0;
    (f, if w < 0 then 0 else w)
  }

  /** The words the scan looks at before it stops: those before the first `where`. */
  function Scanned(tokens: seq<string>): (r: seq<string>)
    ensures "where" !in r
  {
    var w := IndexOf(tokens, "where");
    if w < 0 then tokens else tokens[..w]
  }

  /**
   * When `where` comes after `from`, the three parts the query is cut into
   * put the words back together: the select part holds neither keyword,
   * the from part starts at the first `from` (or at the start when `from`
   * is missing) and holds no `where`, and the where part starts with the
   * first `where`.
   */
  lemma CutParts(tokens: seq<string>)
    requires Cut(tokens).1 > Cut(tokens).0
    ensures var (f, w) := Cut(tokens);
      tokens[..f] + tokens[f..w] + tokens[w..] == tokens
      && "from" !in tokens[..f] && "where" !in tokens[..w]
      && ("from" in tokens[..w] ==> tokens[f] == "from")
      && tokens[w] == "where"
  {
    var (f, w) := Cut(tokens);
    assert "where" in tokens by {
      assert w != 0;
    }
    assert Scanned(tokens) == tokens[..w];
  }

  /**
   * `AssembleQuery`'s scan: each word in turn; a `from` sets `fromIndex`
   * to the position of the first `from`, a `where` sets `whereIndex` to
   * the position of the first `where` and ends the scan.
   */
  method Boundaries(tokens: seq<string>) returns (fromIndex: nat, whereIndex: nat)
    ensures (fromIndex, whereIndex) == Cut(tokens)
  {
    fromIndex, whereIndex := 0, 0;
    var i := 0;
    while i < |tokens|
      invariant 0 <= i <= |tokens|
      invariant "where" !in tokens[..i] && whereIndex == 0
      invariant fromIndex == (if "from" in tokens[..i] then IndexOf(tokens, "from") else 0)
    {
      if tokens[i] == "from" {
        fromIndex := IndexOf(tokens, "from");
      }
      if tokens[i] == "where" {
        whereIndex := IndexOf(tokens, "where");
        assert whereIndex == i by {
          assert tokens[..i + 1][i] == "where";
        }
        assert Scanned(tokens) == tokens[..i];
        return;
      }
      assert tokens[..i + 1] == tokens[..i] + [tokens[i]];
      i := i + 1;
    }
    assert tokens[..i] == tokens;
  }

  /**
   * `AssembleQuery(query)` with the corrected `GetWhereStatement`: the from
   * clause first, then the select clause, then the where clause when a
   * `where` follows the `from`, each reading the catalog the one before
   * left; without such a `where` the query keeps its where clause.  The
   * first exception ends the assembly.
   */
  function QueryOf(store: seq<Relation>, qn: nat, q: Query): (r: Parsed<Query>)
    ensures |r.store| == |store|
    ensures r.result.Success? ==> (r.result.value.originalString == q.originalString
      && r.result.value.from.Valid(r.store))
    ensures r.result.Success? && Cut(Tokens(q.originalString)).1 > Cut(Tokens(q.originalString)).0 ==>
      |r.result.value.where.conditions| >= 1 && r.result.value.where.ToString().Success?
    ensures r.result.Success? && Cut(Tokens(q.originalString)).1 <= Cut(Tokens(q.originalString)).0 ==>
      r.result.value.where == q.where
  {
    var tokens := Tokens(q.originalString);
    Clauses(store, qn, q, tokens, Cut(tokens).0, Cut(tokens).1)
  }

  /** The clauses of `q`, whose words are `tokens`, read with `from` at `f` and `where` at `w`. */
  function Clauses(store: seq<Relation>, qn: nat, q: Query, tokens: seq<string>, f: nat, w: nat): (r: Parsed<Query>)
    requires f <= |tokens| && w <= |tokens|
    ensures |r.store| == |store|
    ensures r.result.Success? ==> (r.result.value.originalString == q.originalString
      && r.result.value.from.Valid(r.store))
    ensures r.result.Success? && w > f ==> |r.result.value.where.conditions| >= 1 && r.result.value.where.ToString().Success?
    ensures r.result.Success? && w <= f ==> r.result.value.where == q.where
  {
    var from := FromOf(store, if w > f then tokens[f..w] else tokens[f..]);
    match from.result
    case Failure(e) => Parsed(from.store, Failure(e))
    case Success(fs) => SelectThenWhere(from.store, qn, q.(from := fs), tokens, f, w)
  }

  /** The select clause and then, when `where` follows `from`, the where clause, of a query whose from clause is read. */
  function SelectThenWhere(store: seq<Relation>, qn: nat, q: Query, tokens: seq<string>, f: nat, w: nat): (r: Parsed<Query>)
    requires f <= |tokens| && w <= |tokens| && q.from.Valid(store)
    ensures |r.store| == |store|
    ensures r.result.Success? ==> (r.result.value.originalString == q.originalString
      && r.result.value.from == q.from && q.from.Valid(r.store))
    ensures r.result.Success? && w > f ==> |r.result.value.where.conditions| >= 1 && r.result.value.where.ToString().Success?
    ensures r.result.Success? && w <= f ==> r.result.value.where == q.where
  {
    var select := SelectOf(store, qn, tokens[..f]);
    match select.result
    case Failure(e) => Parsed(select.store, Failure(e))
    case Success(ss) =>
      ValidForLength(q.from, store, select.store);
      if w > f then
        match WhereIntended(select.store, qn, tokens[w..])
        case Failure(e) => Parsed(select.store, Failure(e))
        case Success(ws) => Parsed(select.store, Success(q.(select := ss, where := ws)))
      else Parsed(select.store, Success(q.(select := ss)))
  }

  /**
   * `AssembleQuery(query)` as written: the from and select clauses as in
   * `QueryOf`, then the program's own `GetWhereStatement`, which throws on
   * every where clause, so a query whose `where` follows its `from` never
   * assembles.
   */
  function QueryAsWritten(store: seq<Relation>, qn: nat, q: Query): (r: Parsed<Query>)
    ensures |r.store| == |store|
    ensures Cut(Tokens(q.originalString)).1 > Cut(Tokens(q.originalString)).0 ==> r.result.Failure?
  {
    var tokens := Tokens(q.originalString);
    var f := Cut(tokens).0;
    var w := Cut(tokens).1;
    var from := FromOf(store, if w > f then tokens[f..w] else tokens[f..]);
    match from.result
    case Failure(e) => Parsed(from.store, Failure(e))
    case Success(fs) =>
      var select := SelectOf(from.store, qn, tokens[..f]);
      match select.result
      case Failure(e) => Parsed(select.store, Failure(e))
      case Success(ss) =>
        if w > f then
          WhereAsWrittenNeverReturns(select.store, qn, tokens[w..]);
          Parsed(select.store, Failure(WhereAsWritten(select.store, qn, tokens[w..]).error))
        else Parsed(select.store, Success(q.(from := fs, select := ss)))
  }

  /**
   * The as-written assembly leaves the catalog as the corrected one does,
   * and differs from it only once a `where` follows the `from`: there the
   * corrected assembly can succeed while the program always throws.
   */
  lemma {:induction false} QueryAsWrittenDiffers(store: seq<Relation>, qn: nat, q: Query)
    ensures QueryAsWritten(store, qn, q).store == QueryOf(store, qn, q).store
    ensures Cut(Tokens(q.originalString)).1 <= Cut(Tokens(q.originalString)).0 ==>
      QueryAsWritten(store, qn, q) == QueryOf(store, qn, q)
    ensures Cut(Tokens(q.originalString)).1 > Cut(Tokens(q.originalString)).0 ==>
      QueryAsWritten(store, qn, q).result.Failure?
  {
    var tokens := Tokens(q.originalString);
    var f := Cut(tokens).0;
    var w := Cut(tokens).1;
    var a := QueryAsWritten(store, qn, q);
    var c := Clauses(store, qn, q, tokens, f, w);
    assert QueryOf(store, qn, q) == c;
    var from := FromOf(store, if w > f then tokens[f..w] else tokens[f..]);
    if from.result.Failure? {
      assert a == Parsed(from.store, Failure(from.result.error)) == c;
    } else {
      var q' := q.(from := from.result.value);
      var select := SelectOf(from.store, qn, tokens[..f]);
      assert c == SelectThenWhere(from.store, qn, q', tokens, f, w);
      if select.result.Failure? {
        assert a == Parsed(select.store, Failure(select.result.error)) == c;
      } else if w > f {
        WhereAsWrittenNeverReturns(select.store, qn, tokens[w..]);
        assert a == Parsed(select.store, Failure(WhereAsWritten(select.store, qn, tokens[w..]).error));
        match WhereIntended(select.store, qn, tokens[w..])
        case Failure(e) =>
          assert c == Parsed(select.store, Failure(e));
        case Success(ws) =>
          assert c == Parsed(select.store, Success(q'.(select := select.result.value, where := ws)));
      } else {
        assert a == Parsed(select.store, Success(q'.(select := select.result.value))) == c;
      }
    }
  }


  /** Whether a from list fits a catalog depends on the catalog's length only. */
  lemma ValidForLength(fs: FromStatement, a: seq<Relation>, b: seq<Relation>)
    requires |a| == |b| && fs.Valid(a)
    ensures fs.Valid(b)
  {
  }

  /** A binding whose texts but the last already threw is that binding. */
  lemma BindFailed(store: seq<Relation>, texts: seq<string>)
    requires |texts| > 0 && Bind(store, texts[..|texts| - 1]).result.Failure?
    ensures Bind(store, texts) == Bind(store, texts[..|texts| - 1])
  {
  }

  /** A resolution whose texts but the last already threw is that resolution. */
  lemma SelectFailed(store: seq<Relation>, qn: nat, items: seq<string>)
    requires |items| > 0 && SelectAttributes(store, qn, items[..|items| - 1]).result.Failure?
    ensures SelectAttributes(store, qn, items) == SelectAttributes(store, qn, items[..|items| - 1])
  {
  }

  /** A binding that throws at text `i` throws that for all the texts. */
  lemma {:induction false} BindThrowsAt(store: seq<Relation>, texts: seq<string>, i: nat)
    requires i < |texts| && Bind(store, texts[..i + 1]).result.Failure?
    ensures Bind(store, texts) == Bind(store, texts[..i + 1])
    decreases |texts|
  {
    if i + 1 == |texts| {
      assert texts[..i + 1] == texts;
    } else {
      var init := texts[..|texts| - 1];
      assert init[..i + 1] == texts[..i + 1];
      BindThrowsAt(store, init, i);
      BindFailed(store, texts);
    }
  }

  /** A resolution that throws at text `i` throws that for all the texts. */
  lemma {:induction false} SelectThrowsAt(store: seq<Relation>, qn: nat, items: seq<string>, i: nat)
    requires i < |items| && SelectAttributes(store, qn, items[..i + 1]).result.Failure?
    ensures SelectAttributes(store, qn, items) == SelectAttributes(store, qn, items[..i + 1])
    decreases |items|
  {
    if i + 1 == |items| {
      assert items[..i + 1] == items;
    } else {
      var init := items[..|items| - 1];
      assert init[..i + 1] == items[..i + 1];
      SelectThrowsAt(store, qn, init, i);
      SelectFailed(store, qn, items);
    }
  }

  /** One more relation text, bound to the catalog the texts before it left. */
  lemma BindStep(store: seq<Relation>, texts: seq<string>, i: nat, now: seq<Relation>, ks: seq<nat>)
    requires i < |texts| && Bind(store, texts[..i]) == Parsed(now, Success(ks))
    ensures var one := BindRelation(now, texts[i]);
      Bind(store, texts[..i + 1]) == if one.result.Failure? then Parsed(now, Failure(one.result.error))
        else Parsed(one.store, Success(ks + [one.result.value]))
  {
    assert texts[..i + 1][..i] == texts[..i];
  }

  /** One more attribute text, resolved against the catalog the texts before it left. */
  lemma SelectStep(store: seq<Relation>, qn: nat, items: seq<string>, i: nat, now: seq<Relation>, attributes: seq<Attribute>)
    requires i < |items| && SelectAttributes(store, qn, items[..i]) == Parsed(now, Success(attributes))
    ensures var one := AttributeOf(now, qn, items[i]);
      SelectAttributes(store, qn, items[..i + 1]) == if one.result.Failure? then Parsed(one.store, Failure(one.result.error))
        else Parsed(one.store, Success(attributes + [one.result.value]))
  {
    assert items[..i + 1][..i] == items[..i];
  }

  /** Once a round of the where loop throws, the later rounds are never reached. */
  lemma {:induction false} ChainStops(parsed: seq<Result<Condition>>, words: seq<LogicalOp>, qn: nat, n: nat, m: nat)
    requires 1 <= n <= m < |parsed| && WellRead(parsed, qn) && Chain(parsed, words, qn, n).Failure?
    ensures Chain(parsed, words, qn, m) == Chain(parsed, words, qn, n)
    decreases m - n
  {
    if n < m {
      ChainStops(parsed, words, qn, n, m - 1);
    }
  }

  // ---------------------------------------------------------------- AssembleMultiQuery

  /** The last query string cut at every set-operator word, each piece trimmed: the texts of the sub-queries. */
  function QueryTexts(s: string): (r: seq<string>)
    ensures |r| >= 1
  {
    Trimmed(SplitAny(s, SetOperatorTokens))
  }

  /** The words of a query string that are set operators, in order. */
  function SetOperatorWords(tokens: seq<string>): (r: seq<string>)
    ensures |r| <= |tokens|
    ensures forall i :: 0 <= i < |r| ==> r[i] in SetOperatorTokens
    ensures forall t :: t in tokens && t in SetOperatorTokens ==> t in r
    ensures forall t :: t in r ==> t in tokens
    decreases |tokens|
  {
    if |tokens| == 0 then []
    else
      var rest := SetOperatorWords(tokens[1..]);
      assert forall t :: t in tokens[1..] ==> t in tokens;
      assert forall t :: t in tokens ==> t == tokens[0] || t in tokens[1..];
      if tokens[0] in SetOperatorTokens then [tokens[0]] + rest else rest
  }

  /**
   * The single entry of the multi-query operator map whose value is the word: the set
   * operator whose word `word` is; no such operator is "no matching element".
   */
  function OperatorFor(word: string): (r: Result<SetOperator>)
    ensures r.Success? ==> SetOperatorWord(r.value) == Some(word)
    ensures r.Failure? ==> r.error == NoMatch && forall op :: SetOperatorWord(op) != Some(word)
  {
    if word == "union " then Success(Union)
    else if word == "intersect " then Success(Intersect)
    else if word == "except " then Success(Except)
    else
      NoOperatorWord(word);
      Failure(NoMatch)
  }

  /** Only the three words of the map name an operator. */
  lemma NoOperatorWord(word: string)
    requires word != "union " && word != "intersect " && word != "except "
    ensures forall op :: SetOperatorWord(op) != Some(word)
  {
    forall op ensures SetOperatorWord(op) != Some(word) {
      match op
      case Union =>
      case Intersect =>
      case Except =>
      case CartesianProduct =>
      case Division =>
    }
  }

  /** Every set-operator word names its operator. */
  lemma WordsHaveOperators(w: string)
    requires w in SetOperatorTokens
    ensures OperatorFor(w + " ").Success?
  {
    assert w == "union" || w == "intersect" || w == "except";
    if w == "union" {
      assert w + " " == "union ";
    } else if w == "intersect" {
      assert w + " " == "intersect ";
    } else {
      assert w + " " == "except ";
    }
  }

  /** A fresh query for each text, holding that text as its original string. */
  function Unassembled(texts: seq<string>): (r: seq<Query>)
    ensures |r| == |texts| && forall i :: 0 <= i < |texts| ==> r[i] == Query.New().(originalString := texts[i])
  {
    seq(|texts|, i requires 0 <= i < |texts| => Query.New().(originalString := texts[i]))
  }

  /**
   * The operators after round `n` of `AssembleMultiQuery`'s loop, started
   * from `ops`: round `i` links queries `i - 1` and `i` by the operator of
   * the `i`-th set-operator word.  A missing word is an index out of range,
   * a pair already linked a duplicate key.
   */
  function Links(ops: seq<((nat, nat), SetOperator)>, words: seq<string>, n: nat): (r: (seq<((nat, nat), SetOperator)>, Outcome))
    ensures |r.0| >= |ops| && r.0[..|ops|] == ops
    ensures r.1.Pass? ==> |r.0| == |ops| + n && (n == 0 || n <= |words|)
    ensures r.1.Pass? ==> forall j :: |ops| <= j < |ops| + n && j - |ops| < |words| ==>
      r.0[j].0 == (j - |ops|, j - |ops| + 1) && SetOperatorWord(r.0[j].1) == Some(words[j - |ops|] + " ")
    decreases n
  {
    if n == 0 then (ops, Pass)
    else
      var before := Links(ops, words, n - 1);
      if before.1.Fail? then before
      else if |words| < n then (before.0, Fail(IndexOutOfRange))
      else match OperatorFor(words[n - 1] + " ")
        case Failure(e) => (before.0, Fail(e))
        case Success(op) =>
          if Lookup(before.0, (n - 1, n)).Some? then (before.0, Fail(DuplicateKey))
          else
            var after := before.0 + [((n - 1, n), op)];
            assert after[..|ops|] == ops by {
              assert after[..|ops|] == before.0[..|ops|];
            }
            assert forall j :: 0 <= j < |before.0| ==> after[j] == before.0[j];
            assert after[|ops| + n - 1] == ((n - 1, n), op);
            (after, Pass)
  }

  /** Once a round of the linking loop throws, the later rounds are never reached. */
  lemma {:induction false} LinksStop(ops: seq<((nat, nat), SetOperator)>, words: seq<string>, n: nat, m: nat)
    requires n <= m && Links(ops, words, n).1.Fail?
    ensures Links(ops, words, m) == Links(ops, words, n)
    decreases m - n
  {
    if n < m {
      LinksStop(ops, words, n, m - 1);
    }
  }

  /**
   * Linking a fresh multi-query by set-operator words succeeds exactly
   * for as many rounds as there are words; one round more is an index out
   * of range.
   */
  lemma {:induction false} LinksOfWords(words: seq<string>, n: nat)
    requires forall i :: 0 <= i < |words| ==> words[i] in SetOperatorTokens
    ensures Links([], words, n).1 == (if n <= |words| then Pass else Fail(IndexOutOfRange))
    decreases n
  {
    if n > 0 {
      LinksOfWords(words, n - 1);
      if n <= |words| {
        var before := Links([], words, n - 1);
        WordsHaveOperators(words[n - 1]);
        assert forall i :: 0 <= i < |before.0| ==> before.0[i].0 != (n - 1, n) by {
          forall i | 0 <= i < |before.0| ensures before.0[i].0 != (n - 1, n) {
            assert before.0[i].0 == (i, i + 1);
          }
        }
      } else if n - 1 <= |words| {
      } else {
        LinksStop([], words, n - 1, n);
      }
    }
  }

  /** Operators keyed by the pairs `(i, i + 1)` link every pair of neighbours. */
  lemma PairsWordLinked(ops: seq<((nat, nat), SetOperator)>, n: nat)
    requires |ops| == n - 1
    requires forall i :: 0 <= i < |ops| ==> ops[i].0 == (i, i + 1) && SetOperatorWord(ops[i].1).Some?
    ensures AllWordLinked(ops, n)
  {
    forall i | 1 <= i < n ensures WordLinked(ops, i) {
      assert ops[i - 1].0 == (i - 1, i);
      var v := Lookup(ops, (i - 1, i));
      assert v.Some?;
      var j :| 0 <= j < |ops| && ops[j] == ((i - 1, i), v.value);
      assert ops[j].0 == (j, j + 1);
    }
  }

  /** What `AssembleMultiQuery` leaves in its argument, and whether it throws. */
  datatype Assembled = Assembled(multi: MultiQuery, outcome: Outcome)

  /**
   * `AssembleMultiQuery(result)` on the query string `text` (none when it
   * is null): one new query per sub-query text appended to `result`, then
   * the neighbouring queries linked when there are several texts.
   */
  function MultiAssembly(m: MultiQuery, text: Option<string>): (r: Assembled)
    ensures text.None? ==> r == Assembled(m, Fail(NullReference))
    ensures text.Some? ==> r.multi.queries == m.queries + Unassembled(QueryTexts(text.value))
    ensures |r.multi.operators| >= |m.operators| && r.multi.operators[..|m.operators|] == m.operators
  {
    match text
    case None => Assembled(m, Fail(NullReference))
    case Some(s) =>
      var queries := m.queries + Unassembled(QueryTexts(s));
      if |QueryTexts(s)| > 1 then
        var linked := Links(m.operators, SetOperatorWords(Tokens(s)), |queries| - 1);
        Assembled(MultiQuery(queries, linked.0), linked.1)
      else
        assert m.operators[..|m.operators|] == m.operators;
        Assembled(MultiQuery(queries, m.operators), Pass)
  }

  /**
   * A query string assembled into a fresh multi-query: one query per
   * sub-query text, in order; it throws (index out of range) exactly when
   * the string has fewer set-operator words than gaps between sub-queries;
   * otherwise every pair of neighbours is linked by a set operator and the
   * multi-query renders.
   */
  lemma MultiQueryOfText(s: string, store: seq<Relation>)
    ensures var a := MultiAssembly(MultiQuery([], []), Some(s));
      var n := |QueryTexts(s)|;
      |a.multi.queries| == n
      && (forall i :: 0 <= i < n ==> a.multi.queries[i].originalString == QueryTexts(s)[i])
      && (a.outcome.Pass? <==> n - 1 <= |SetOperatorWords(Tokens(s))|)
      && (a.outcome.Fail? ==> a.outcome.error == IndexOutOfRange)
      && (a.outcome.Pass? ==> (|a.multi.operators| == n - 1 && AllWordLinked(a.multi.operators, n)
        && a.multi.ToString(store).Success?))
  {
    var texts := QueryTexts(s);
    var words := SetOperatorWords(Tokens(s));
    assert MultiAssembly(MultiQuery([], []), Some(s)) == Fresh(texts, words) by {
      assert [] + Unassembled(texts) == Unassembled(texts);
    }
    FreshFacts(texts, words, store);
  }

  /** What `AssembleMultiQuery` leaves in a fresh multi-query for sub-query texts and set-operator words. */
  function Fresh(texts: seq<string>, words: seq<string>): (a: Assembled)
    requires |texts| >= 1
  {
    if |texts| > 1 then
      var linked := Links([], words, |texts| - 1);
      Assembled(MultiQuery(Unassembled(texts), linked.0), linked.1)
    else Assembled(MultiQuery(Unassembled(texts), []), Pass)
  }

  /** The facts of `MultiQueryOfText`, for any texts and set-operator words. */
  lemma FreshFacts(texts: seq<string>, words: seq<string>, store: seq<Relation>)
    requires |texts| >= 1 && forall i :: 0 <= i < |words| ==> words[i] in SetOperatorTokens
    ensures var a := Fresh(texts, words);
      var n := |texts|;
      |a.multi.queries| == n
      && (forall i :: 0 <= i < n ==> a.multi.queries[i].originalString == texts[i])
      && (a.outcome.Pass? <==> n - 1 <= |words|)
      && (a.outcome.Fail? ==> a.outcome.error == IndexOutOfRange)
      && (a.outcome.Pass? ==> (|a.multi.operators| == n - 1 && AllWordLinked(a.multi.operators, n)
        && a.multi.ToString(store).Success?))
  {
    var n := |texts|;
    UnassembledRender(texts, store);
    if n > 1 {
      LinksOfWords(words, n - 1);
      if Links([], words, n - 1).1.Pass? {
        LinkedPairs(words, n - 1);
        PairsWordLinked(Links([], words, n - 1).0, n);
      }
    }
  }

  /** Fresh queries name no relation and have an empty where clause, so each renders. */
  lemma UnassembledRender(texts: seq<string>, store: seq<Relation>)
    ensures QueriesValid(Unassembled(texts), store) && QueriesRender(Unassembled(texts), |texts|)
  {
    var qs := Unassembled(texts);
    forall i | 0 <= i < |texts| ensures qs[i].from.Valid(store) && qs[i].where.ToString().Success? {
      assert qs[i].from.relations == [] && qs[i].where == WhereStatement([], map[]);
    }
  }

  /** The operators a fresh linking adds are keyed by neighbouring pairs and have words. */
  lemma LinkedPairs(words: seq<string>, k: nat)
    requires Links([], words, k).1.Pass?
    ensures var ops := Links([], words, k).0;
      |ops| == k && forall i :: 0 <= i < |ops| ==> ops[i].0 == (i, i + 1) && SetOperatorWord(ops[i].1).Some?
  {
  }

  // ---------------------------------------------------------------- the parser object

  /**
   * `QoParser`: the catalog it reads and writes, the query string of the
   * last parse (never assigned, so always null) and the query counter
   * (never advanced, so always 0).
   */
  class QoParser {
    const schema: Schema
    var lastQueryString: Option<string>
    var queryCounter: nat

    /** `new QoParser()`: a parser over a fresh copy of the default catalog. */
    constructor ()
      ensures fresh(schema) && schema.relations == GetSchema1()
      ensures lastQueryString == None && queryCounter == 0
    {
      schema := new Schema(GetSchema1());
      lastQueryString := None;
      queryCounter := 0;
    }

    /** `new QoParser(schema)`: a parser over the caller's catalog, shared with it. */
    constructor WithSchema(schema: Schema)
      ensures this.schema == schema
      ensures lastQueryString == None && queryCounter == 0
    {
      this.schema := schema;
      lastQueryString := None;
      queryCounter := 0;
    }

    /**
     * `GetAttribute(a)`: the attribute the text names, with the alias after
     * "as" added to the catalog relation that holds it.
     */
    method GetAttribute(a: string) returns (r: Result<Attribute>)
      modifies schema
      ensures Parsed(schema.relations, r) == AttributeOf(old(schema.relations), queryCounter, a)
    {
      var p := AttributeOf(schema.relations, queryCounter, a);
      if p.store != schema.relations {
        var alias := Split(a, ' ')[2];
        var k :| 0 <= k < |schema.relations| && p.store == WithAlias(schema.relations, k, alias);
        schema.AddAlias(k, alias);
      }
      r := p.result;
    }

    /**
     * `GetFromStatement(tokens)`: each relation text in turn looked up by
     * name and given its alias in the catalog, then the relations ordered
     * by priority.
     */
    method GetFromStatement(tokens: seq<string>) returns (r: Result<FromStatement>)
      modifies schema
      ensures Parsed(schema.relations, r) == FromOf(old(schema.relations), tokens)
    {
      var ks := BindRelations(schema, FromItems(tokens));
      if ks.Failure? {
        return Failure(ks.error);
      }
      r := Success(FromStatement(OrderByPriority(schema.relations, ks.value)));
    }

    /** `GetSelectStatement(tokens)`: each attribute text resolved in turn. */
    method GetSelectStatement(tokens: seq<string>) returns (r: Result<SelectStatement>)
      modifies schema
      ensures Parsed(schema.relations, r) == SelectOf(old(schema.relations), queryCounter, tokens)
    {
      var items := SelectItems(tokens);
      var attributes: seq<Attribute> := [];
      for i := 0 to |items|
        invariant SelectAttributes(old(schema.relations), queryCounter, items[..i]) == Parsed(schema.relations, Success(attributes))
      {
        var before := schema.relations;
        SelectStep(old(schema.relations), queryCounter, items, i, before, attributes);
        var a := GetAttribute(items[i]);
        if a.Failure? {
          r := Failure(a.error);
          SelectThrowsAt(old(schema.relations), queryCounter, items, i);
          return;
        }
        attributes := attributes + [a.value];
      }
      assert items[..|items|] == items;
      r := Success(SelectStatement(attributes));
    }

    /**
     * `GetWhereStatement(tokens)`, corrected: the condition texts read in
     * the source's loop, round `i` reading condition `i` (round 1 also
     * condition 0) and linking it to condition `i - 1` by the `i`-th
     * logical word; one condition alone goes the single-condition way.
     */
    method GetWhereStatement(tokens: seq<string>) returns (r: Result<WhereStatement>)
      ensures r == WhereIntended(schema.relations, queryCounter, tokens)
    {
      var rest := RemoveFirst(tokens, "where");
      var texts := WhereItems(rest, true);
      var parsed := Readings(schema.relations, queryCounter, texts, true);
      WhereCases(schema.relations, queryCounter, tokens);
      if |texts| == 0 {
        r := Failure(IndexOutOfRange);
      } else if |texts| == 1 {
        r := OneCondition(parsed, queryCounter, texts[0], true);
      } else {
        r := LinkConditions(parsed, WhereWords(rest), queryCounter);
      }
    }

    /**
     * `AssembleQuery(query)`: the query string cut at its first `from` and
     * first `where`, and the clauses read in the source's order.
     */
    method AssembleQuery(query: Query) returns (r: Result<Query>)
      modifies schema
      ensures Parsed(schema.relations, r) == QueryOf(old(schema.relations), queryCounter, query)
    {
      var tokens := Tokens(query.originalString);
      var fromIndex, whereIndex := Boundaries(tokens);
      var from := GetFromStatement(if whereIndex > fromIndex then tokens[fromIndex..whereIndex] else tokens[fromIndex..]);
      if from.Failure? {
        return Failure(from.error);
      }
      var select := GetSelectStatement(tokens[..fromIndex]);
      if select.Failure? {
        return Failure(select.error);
      }
      if whereIndex > fromIndex {
        var where := GetWhereStatement(tokens[whereIndex..]);
        if where.Failure? {
          return Failure(where.error);
        }
        r := Success(query.(from := from.value, select := select.value, where := where.value));
      } else {
        r := Success(query.(from := from.value, select := select.value));
      }
    }

    /**
     * `AssembleMultiQuery(result)`: a query per sub-query text of the last
     * query string appended to `result`, then each pair of neighbours
     * linked by the operator of the next set-operator word.  Since the
     * last query string is never assigned, this always throws a null
     * reference.
     */
    method AssembleMultiQuery(result: MultiQuery) returns (m: MultiQuery, o: Outcome)
      ensures Assembled(m, o) == MultiAssembly(result, lastQueryString)
    {
      if lastQueryString.None? {
        return result, Fail(NullReference);
      }
      var s := lastQueryString.value;
      var texts := QueryTexts(s);
      var queries := AppendQueries(result.queries, texts);
      if |texts| > 1 {
        var operators;
        operators, o := LinkQueries(result.operators, SetOperatorWords(Tokens(s)), |queries| - 1);
        m := MultiQuery(queries, operators);
      } else {
        m, o := MultiQuery(queries, result.operators), Pass;
      }
    }
  }

  /**
   * The loop of `GetFromStatement`: each relation text in turn looked up
   * by name in the catalog, which is given the alias the text names.
   */
  method BindRelations(schema: Schema, texts: seq<string>) returns (r: Result<seq<nat>>)
    modifies schema
    ensures Parsed(schema.relations, r) == Bind(old(schema.relations), texts)
  {
    var ks: seq<nat> := [];
    for i := 0 to |texts|
      invariant Bind(old(schema.relations), texts[..i]) == Parsed(schema.relations, Success(ks))
    {
      var words := Tokens(texts[i]);
      var found := Single(schema.relations, words[0]);
      BindStep(old(schema.relations), texts, i, schema.relations, ks);
      if found.Failure? {
        BindThrowsAt(old(schema.relations), texts, i);
        return Failure(found.error);
      }
      var alias := RelationAlias(words);
      if alias.Failure? {
        BindThrowsAt(old(schema.relations), texts, i);
        return Failure(alias.error);
      }
      schema.AddAlias(found.value, alias.value);
      ks := ks + [found.value];
    }
    assert texts[..|texts|] == texts;
    r := Success(ks);
  }

  /** The three ways the corrected `GetWhereStatement` goes, by the number of condition texts. */
  lemma WhereCases(store: seq<Relation>, qn: nat, tokens: seq<string>)
    ensures var rest := RemoveFirst(tokens, "where");
      var texts := WhereItems(rest, true);
      var parsed := Readings(store, qn, texts, true);
      WhereIntended(store, qn, tokens) ==
        if |texts| > 1 then Chain(parsed, WhereWords(rest), qn, |texts| - 1)
        else if |texts| == 0 then Failure(IndexOutOfRange)
        else OneCondition(parsed, qn, texts[0], true)
  {
  }

  /**
   * The loop of `GetWhereStatement` over several condition readings: round
   * `i` reads condition `i` (round 1 first reads condition 0) and links it
   * to condition `i - 1` by the `i`-th logical word.
   */
  method LinkConditions(parsed: seq<Result<Condition>>, words: seq<LogicalOp>, qn: nat) returns (r: Result<WhereStatement>)
    requires |parsed| >= 2 && WellRead(parsed, qn)
    ensures r == Chain(parsed, words, qn, |parsed| - 1)
  {
    var statement := WhereStatement([], map[]);
    for i := 1 to |parsed|
      invariant i > 1 ==> Chain(parsed, words, qn, i - 1) == Success(statement)
    {
      if i == 1 && parsed[0].Failure? {
        ChainStops(parsed, words, qn, 1, |parsed| - 1);
        return Failure(parsed[0].error);
      }
      if parsed[i].Failure? {
        ChainStops(parsed, words, qn, i, |parsed| - 1);
        return Failure(parsed[i].error);
      }
      if |words| < i {
        ChainStops(parsed, words, qn, i, |parsed| - 1);
        return Failure(IndexOutOfRange);
      }
      if i == 1 {
        statement := WhereStatement([parsed[0].value, parsed[1].value], map[(0, 1) := words[0]]);
      } else {
        statement := Extend(statement, parsed[i].value, words, qn, i);
      }
    }
    r := Success(statement);
  }

  /** The first loop of `AssembleMultiQuery`: a new query per text, appended in order. */
  method AppendQueries(queries: seq<Query>, texts: seq<string>) returns (r: seq<Query>)
    ensures r == queries + Unassembled(texts)
  {
    r := queries;
    for i := 0 to |texts|
      invariant r == queries + Unassembled(texts[..i])
    {
      assert Unassembled(texts[..i + 1]) == Unassembled(texts[..i]) + [Query.New().(originalString := texts[i])];
      r := r + [Query.New().(originalString := texts[i])];
    }
    assert texts[..|texts|] == texts;
  }

  /**
   * The second loop of `AssembleMultiQuery`: `n` rounds, round `i` adding
   * the operator of the `i`-th set-operator word for the pair `(i - 1, i)`.
   */
  method LinkQueries(ops: seq<((nat, nat), SetOperator)>, words: seq<string>, n: nat)
    returns (r: seq<((nat, nat), SetOperator)>, o: Outcome)
    ensures (r, o) == Links(ops, words, n)
  {
    r := ops;
    for i := 1 to n + 1
      invariant Links(ops, words, i - 1) == (r, Pass)
    {
      if |words| < i {
        LinksStop(ops, words, i, n);
        return r, Fail(IndexOutOfRange);
      }
      var op := OperatorFor(words[i - 1] + " ");
      if op.Failure? {
        LinksStop(ops, words, i, n);
        return r, Fail(op.error);
      }
      if Lookup(r, (i - 1, i)).Some? {
        LinksStop(ops, words, i, n);
        return r, Fail(DuplicateKey);
      }
      r := r + [((i - 1, i), op.value)];
    }
    o := Pass;
  }

  /** A new parser has no last query string, so assembling a multi-query throws a null reference. */
  method NewParserMultiQuery() returns (o: Outcome)
    ensures o == Fail(NullReference)
  {
    var parser := new QoParser();
    var m;
    m, o := parser.AssembleMultiQuery(MultiQuery([], []));
  }
}
