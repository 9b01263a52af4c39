/**
 * The contents of relational-algebra nodes: projection, selection and
 * aggregate, with their renderings.
 */
module RelationalModel {
  import opened Wrappers
  import opened Text
  import opened QueryModel
  import opened Statements

  // ---------------------------------------------------------------- projection

  /** A projection onto a list of attributes. */
  datatype Projection = Projection(attributes: seq<Attribute>)
  {
    /** `Projection.ToString`: empty without attributes, else `Π` and the attributes through the comma fold. */
    function ToString(): (s: string)
      ensures |attributes| == 0 <==> s == ""
      ensures |attributes| > 0 ==> s == CommaFold("\U{03A0}", AttributeTexts(attributes))
    {
      if |attributes| == 0 then "" else CommaFold("\U{03A0}", AttributeTexts(attributes))
    }
  }

  /**
   * A projection renders `Π`, then the attributes in order, each but the last
   * with a comma before its last character.
   */
  lemma ProjectionTextClosedForm(p: Projection)
    requires |p.attributes| > 0 && NonEmptyItems(AttributeTexts(p.attributes))
    ensures p.ToString() == "\U{03A0}" + Marked(AttributeTexts(p.attributes))
  {
    CommaFoldClosedForm("\U{03A0}", AttributeTexts(p.attributes));
  }

  // ---------------------------------------------------------------- selection

  /** `Selection._operatorMap`. */
  function SelectionWord(op: LogicalOp): string
  {
    match op
    case And => "AND "
    case Or => "OR "
  }

  /** A condition with its two sides exchanged. */
  function SwapSides(c: Condition): (d: Condition)
    ensures d.left == c.right && d.right == c.left && d.op == c.op && d.queryNumber == c.queryNumber
  {
    c.(left := c.right, right := c.left)
  }

  /** The conditions with every pair of sides exchanged, in the same order. */
  function SwapAll(cs: seq<Condition>): (ds: seq<Condition>)
    ensures |ds| == |cs| && forall i :: 0 <= i < |cs| ==> ds[i] == SwapSides(cs[i])
  {
    seq(|cs|, i requires 0 <= i < |cs| => SwapSides(cs[i]))
  }

  /** A selection: conditions and the logical operators linking neighbours. */
  datatype Selection = Selection(conditions: seq<Condition>, operators: map<(nat, nat), LogicalOp>)
  {
    /** `new Selection()`: no conditions, no operators. */
    static function New(): (s: Selection)
      ensures s.conditions == [] && s.operators == map[] && s.ToString() == Success("")
    {
      Selection([], map[])
    }

    /**
     * `Selection.ToString`: empty without conditions, else `σ` and the
     * condition chain with `AND ` / `OR ` between neighbours; a missing link
     * or an unrendered condition throws.
     */
    function ToString(): (r: Result<string>)
      ensures |conditions| == 0 ==> r == Success("")
      ensures r.Success? <==> AllRendered(conditions, |conditions|) && AllLinked(operators, |conditions|)
      ensures r.Failure? ==> r.error == KeyNotFound
      ensures |conditions| == 1 && r.Success? ==> r.value == "\U{03C3}" + conditions[0].ToString().value
      ensures |conditions| > 0 && r.Success? ==> StartsWith(r.value, "\U{03C3}")
    {
      if |conditions| == 0 then Success("")
      else
        var c :- ChainText(conditions, operators, SelectionWord, |conditions|);
        Success("\U{03C3}" + c)
    }

    /** The value `Selection.SwapOperators` leaves behind: every condition with its sides exchanged. */
    function SwapOperators(): (s: Selection)
      ensures |s.conditions| == |conditions| && s.operators == operators
      ensures forall i :: 0 <= i < |conditions| ==>
        s.conditions[i].left == conditions[i].right && s.conditions[i].right == conditions[i].left
        && s.conditions[i].op == conditions[i].op
    {
      Selection(SwapAll(conditions), operators)
    }
  }

  /** Exchanging the sides twice restores the selection. */
  lemma SwapOperatorsTwice(s: Selection)
    ensures s.SwapOperators().SwapOperators() == s
  {
    var t := s.SwapOperators().SwapOperators();
    assert t.conditions == s.conditions;
  }

  /** Exchanging sides keeps every condition's operator, so whether the selection renders is unchanged. */
  lemma SwapOperatorsKeepsRendering(s: Selection)
    ensures s.SwapOperators().ToString().Success? <==> s.ToString().Success?
  {
    var t := s.SwapOperators();
    assert AllRendered(t.conditions, |t.conditions|) <==> AllRendered(s.conditions, |s.conditions|) by {
      assert forall i :: 0 <= i < |s.conditions| ==> t.conditions[i].op == s.conditions[i].op;
    }
  }

  /** A selection whose conditions are all joined by AND reads `σ` and their texts joined by "AND ". */
  lemma SelectionAllAnd(s: Selection)
    requires |s.conditions| > 0 && AllRendered(s.conditions, |s.conditions|)
    requires forall i :: 1 <= i < |s.conditions| ==> LinkedBy(s.operators, i, And)
    ensures s.ToString() == Success("\U{03C3}" + Interleave(ConditionTexts(s.conditions, |s.conditions|), "AND "))
  {
    ChainUniform(s.conditions, s.operators, SelectionWord, And, |s.conditions|);
  }

  // ---------------------------------------------------------------- aggregate

  /** The text an aggregate item contributes: attributes and functions render, anything else adds nothing. */
  function ItemText(x: Operand): string
  {
    match x
    case AttrOp(a) => a.ToString()
    case FuncOp(f) => f.ToString()
    case _ => ""
  }

  /** The texts of the items. */
  function ItemTexts(items: seq<Operand>): (r: seq<string>)
    ensures |r| == |items| && forall i :: 0 <= i < |items| ==> r[i] == ItemText(items[i])
  {
    seq(|items|, i requires 0 <= i < |items| => ItemText(items[i]))
  }

  /**
   * The loop of `GetAttributeString` / `GetGroupingsString` after its first
   * `n` rounds, over the items' texts: each text, followed by ", " unless it
   * is the last of the whole list.
   */
  function SeparatedPrefix(ts: seq<string>, n: nat): string
    requires n <= |ts|
    decreases n
  {
    if n == 0 then ""
    else SeparatedPrefix(ts, n - 1) + ts[n - 1] + (if n - 1 < |ts| - 1 then ", " else "")
  }

  /** Before the last item, the loop has produced the joined texts so far and one more separator. */
  lemma {:induction false} SeparatedPrefixJoin(ts: seq<string>, n: nat)
    requires 1 <= n < |ts|
    ensures SeparatedPrefix(ts, n) == Interleave(ts[..n], ", ") + ", "
    decreases n
  {
    if n > 1 {
      SeparatedPrefixJoin(ts, n - 1);
      assert ts[..n] == ts[..n - 1] + [ts[n - 1]];
      InterleaveSnoc(ts[..n - 1], ts[n - 1], ", ");
    } else {
      assert SeparatedPrefix(ts, 0) == "";
      assert ts[..1] == [ts[0]];
    }
  }

  /** After the last round the loop has produced the texts joined by ", ". */
  lemma {:induction false} SeparatedPrefixFull(ts: seq<string>)
    ensures SeparatedPrefix(ts, |ts|) == Interleave(ts, ", ")
  {
    var n := |ts|;
    if n == 1 {
      assert SeparatedPrefix(ts, 0) == "";
    } else if n > 1 {
      SeparatedPrefixJoin(ts, n - 1);
      assert SeparatedPrefix(ts, n) == SeparatedPrefix(ts, n - 1) + ts[n - 1];
      assert ts == ts[..n - 1] + [ts[n - 1]];
      InterleaveSnoc(ts[..n - 1], ts[n - 1], ", ");
    }
  }

  /** The items' texts joined by ", ": no leading or trailing separator. */
  function SeparatedText(items: seq<Operand>): (s: string)
    ensures s == Interleave(ItemTexts(items), ", ")
  {
    SeparatedPrefixFull(ItemTexts(items));
    SeparatedPrefix(ItemTexts(items), |items|)
  }

  /** The symbol of an aggregate, U+2131. */
  const AggregateSymbol: string := "\U{2131}"

  /** An aggregation: grouping items and aggregated items, both dynamically typed. */
  datatype Aggregate = Aggregate(groupings: seq<Operand>, attributes: seq<Operand>)
  {
    /** `Aggregate.GetAttributeString`. */
    function AttributeString(): (s: string)
      ensures s == Interleave(ItemTexts(attributes), ", ")
    {
      SeparatedText(attributes)
    }

    /** `Aggregate.GetGroupingsString`. */
    function GroupingsString(): (s: string)
      ensures s == Interleave(ItemTexts(groupings), ", ")
    {
      SeparatedText(groupings)
    }

    /**
     * `Aggregate.ToString`: empty without aggregated items, else the
     * groupings and the items as HTML subscripts around the symbol.
     */
    function ToString(): (s: string)
      ensures |attributes| == 0 ==> s == ""
      ensures |attributes| > 0 ==>
        s == "<sub>" + Interleave(ItemTexts(groupings), ", ") + "</sub> " + AggregateSymbol
             + " <sub>" + Interleave(ItemTexts(attributes), ", ") + "</sub> "
    {
      if |attributes| == 0 then ""
      else "<sub>" + GroupingsString() + "</sub> " + AggregateSymbol + " <sub>" + AttributeString() + "</sub> "
    }
  }

  /** An item that is neither an attribute nor a function still takes a place between separators. */
  lemma SilentItemKeepsSeparator(x: Operand, y: Operand)
    requires !x.AttrOp? && !x.FuncOp?
    ensures SeparatedText([x, y]) == ", " + ItemText(y)
  {
    var ts := ItemTexts([x, y]);
    assert ts == ["", ItemText(y)];
    assert ts[1..] == [ItemText(y)];
    assert Interleave(ts[1..], ", ") == ItemText(y);
    assert Interleave(ts, ", ") == "" + ", " + ItemText(y);
  }
}
