/**
 * The values of the query model: attributes, relations, functions, the two
 * sides of a condition, conditions and join conditions, with their ToString
 * renderings.
 */
module QueryModel {
  import opened Wrappers
  import opened Text

  // ---------------------------------------------------------------- Attribute

  /** An attribute of a relation, or a reference to one from a query. */
  datatype Attribute = Attribute(alias: string, name: string, typ: string, queryNumber: int)
  {
    /** `Attribute.ToString`: `alias.name` when an alias is set, else the bare name. */
    function ToString(): (s: string)
      ensures |alias| > 0 ==> s == alias + "." + name
      ensures |alias| == 0 ==> s == name
    {
      if |alias| > 0 then alias + "." + name else name
    }
  }

  /** `new Attribute()`. */
  function NewAttribute(): (a: Attribute)
    ensures a.alias == "" && a.name == "" && a.typ == "" && a.queryNumber == 0
    ensures a.ToString() == ""
  {
    Attribute("", "", "", 0)
  }

  /**
   * The text of a qualified attribute splits at '.' into its alias and its
   * name (the parser's reading of `X.n`), whenever neither contains a dot.
   */
  lemma AttributeTextSplits(a: Attribute)
    requires '.' !in a.alias && '.' !in a.name
    ensures |a.alias| > 0 ==> Split(a.ToString(), '.') == [a.alias, a.name]
    ensures |a.alias| == 0 ==> Split(a.ToString(), '.') == [a.name]
  {
    if |a.alias| > 0 {
      assert JoinWith([a.alias, a.name], '.') == a.alias + "." + a.name by {
        assert JoinWith([a.alias, a.name][1..], '.') == a.name;
      }
      JoinSplit([a.alias, a.name], '.');
    } else {
      JoinSplit([a.name], '.');
    }
  }

  // ---------------------------------------------------------------- Relation

  /**
   * A relation of the catalog.  `primaryKey` holds positions in `attributes`:
   * the C# primary-key list holds the very attribute objects of the relation.
   */
  datatype Relation = Relation(
    name: string,
    attributes: seq<Attribute>,
    primaryKey: seq<nat>,
    aliases: seq<string>,
    priority: int)
  {
    /** `Relation.ToString`: the name followed by one space. */
    function ToString(): (s: string)
      ensures |s| == |name| + 1 && s[..|name|] == name && s[|name|] == ' '
    {
      name + " "
    }

    /** Does the relation have an attribute called `n`? */
    predicate HasAttributeNamed(n: string)
    {
      exists k :: 0 <= k < |attributes| && attributes[k].name == n
    }
  }

  /** `new Relation()`. */
  function NewRelation(): (r: Relation)
    ensures r.name == "" && r.attributes == [] && r.primaryKey == [] && r.aliases == []
    ensures r.ToString() == " "
  {
    Relation("", [], [], [], 0)
  }

  // ---------------------------------------------------------------- Function

  /** An aggregate or scalar function applied to attributes or to `*`. */
  datatype Function = Function(typ: string, attributes: seq<Attribute>, isWildCard: bool)
  {
    /**
     * `Function.ToString`: `typ(` then `*`, or each attribute followed by a
     * comma, then `)`.  The source's removal of the last comma discards its
     * result, so the comma after the last attribute stays.
     */
    function ToString(): (s: string)
      ensures |s| >= |typ| + 2 && s[..|typ| + 1] == typ + "(" && s[|s| - 1] == ')'
      ensures isWildCard ==> s == typ + "(*)"
      ensures !isWildCard && |attributes| > 0 ==> s[|s| - 2] == ','
      ensures !isWildCard && |attributes| == 0 ==> s == typ + "()"
    {
      typ + "(" + (if isWildCard then "*" else ArgumentsText(attributes)) + ")"
    }
  }

  /** Each attribute's text followed by a comma. */
  function ArgumentsText(xs: seq<Attribute>): (s: string)
    ensures |xs| > 0 ==> |s| > 0 && s[|s| - 1] == ','
    ensures |xs| == 0 ==> s == ""
  {
    if |xs| == 0 then "" else ArgumentsText(xs[..|xs| - 1]) + xs[|xs| - 1].ToString() + ","
  }

  // ---------------------------------------------------------------- condition sides

  /**
   * The dynamically typed side of a condition.  `RealOp` carries the text of
   * a literal that reads as a non-integral double; `OtherOp` is any other
   * object, carrying what its own ToString returns.
   */
  datatype Operand =
    | NullOp
    | AttrOp(attr: Attribute)
    | IntOp(i: int32)
    | RealOp(literal: string)
    | StrOp(s: string)
    | FuncOp(f: Function)
    | OtherOp(display: string)

  /** The text of a side's dynamic value; null has no text. */
  function OperandText(x: Operand): (r: Result<string>)
    ensures r.Failure? <==> x.NullOp?
    ensures x.AttrOp? ==> r == Success(x.attr.ToString())
    ensures x.StrOp? ==> r == Success(x.s)
    ensures x.IntOp? ==> r == Success(IntToString(x.i as int))
    ensures x.RealOp? ==> r == Success(x.literal)
    ensures x.FuncOp? ==> r == Success(x.f.ToString())
    ensures x.OtherOp? ==> r == Success(x.display)
  {
    match x
    case NullOp => Failure(RuntimeBinder)
    case AttrOp(a) => Success(a.ToString())
    case IntOp(i) => Success(IntToString(i as int))
    case RealOp(t) => Success(t)
    case StrOp(s) => Success(s)
    case FuncOp(f) => Success(f.ToString())
    case OtherOp(d) => Success(d)
  }

  /**
   * `Condition.GetSide`: a string that int.TryParse reads renders as that
   * number and a space, any other string quoted and followed by a space;
   * numbers render with a space, attributes and functions by their own
   * ToString, and anything else (null included) as a single space.
   */
  function GetSide(x: Operand): (s: string)
    ensures x.StrOp? && TryParseInt32(x.s).Some? ==> s == IntToString(TryParseInt32(x.s).value as int) + " "
    ensures x.StrOp? && TryParseInt32(x.s).None? ==> s == "'" + x.s + "' "
    ensures x.NullOp? || x.OtherOp? ==> s == " "
    ensures x.IntOp? || x.RealOp? ==> s == OperandText(x).value + " "
    ensures x.AttrOp? || x.FuncOp? ==> s == OperandText(x).value
  {
    match x
    case StrOp(str) =>
      (match TryParseInt32(str)
       case Some(n) => IntToString(n as int) + " "
       case None => "'" + str + "' ")
    case IntOp(i) => IntToString(i as int) + " "
    case RealOp(t) => t + " "
    case AttrOp(a) => a.ToString()
    case FuncOp(f) => f.ToString()
    case NullOp => " "
    case OtherOp(_) => " "
  }

  /** A string holding a number's own text renders exactly like the number. */
  lemma NumericStringSide(n: int32)
    ensures GetSide(StrOp(IntToString(n as int))) == GetSide(IntOp(n))
  {
    IntRoundTrip(n);
  }

  // ---------------------------------------------------------------- Condition

  /** ScriptDom's BooleanComparisonType. */
  datatype ComparisonOp =
    | Equals | GreaterThan | LessThan | GreaterThanOrEqualTo | LessThanOrEqualTo
    | NotEqualToBrackets | NotEqualToExclamation | NotLessThan | NotGreaterThan
    | LeftOuterJoin | RightOuterJoin

  /** `Condition.OperatorMap`. */
  const OperatorMap: map<ComparisonOp, string> := map[
    Equals := " = ",
    NotEqualToExclamation := " != ",
    GreaterThan := " > ",
    LessThan := " < ",
    GreaterThanOrEqualTo := " >= ",
    LessThanOrEqualTo := " <= "]

  /** The comparison operators the map renders; every other one has no entry. */
  predicate Rendered(op: ComparisonOp)
  {
    op == Equals || op == NotEqualToExclamation || op == GreaterThan
    || op == LessThan || op == GreaterThanOrEqualTo || op == LessThanOrEqualTo
  }

  /** The symbol of a rendered comparison operator. */
  function OperatorSymbol(op: ComparisonOp): (t: string)
    requires Rendered(op)
    ensures |t| > 0 && ' ' !in t
  {
    match op
    case Equals => "="
    case NotEqualToExclamation => "!="
    case GreaterThan => ">"
    case LessThan => "<"
    case GreaterThanOrEqualTo => ">="
    case LessThanOrEqualTo => "<="
  }

  /**
   * The operator map has an entry exactly for the six rendered operators;
   * each entry is the operator's symbol between two spaces, and distinct
   * operators have distinct symbols.
   */
  lemma OperatorMapShape(op1: ComparisonOp, op2: ComparisonOp)
    ensures op1 in OperatorMap <==> Rendered(op1)
    ensures op1 in OperatorMap ==> OperatorMap[op1] == " " + OperatorSymbol(op1) + " "
    ensures Rendered(op1) && Rendered(op2) && OperatorSymbol(op1) == OperatorSymbol(op2) ==> op1 == op2
  {
  }

  /**
   * A token without spaces plus one space never equals an entry of the
   * operator map, since every entry starts with a space.
   */
  lemma NoEntryIsTokenAndSpace(t: string, op: ComparisonOp)
    requires ' ' !in t
    requires op in OperatorMap
    ensures OperatorMap[op] != t + " "
  {
    if |t| > 0 { assert (t + " ")[0] == t[0]; }
  }

  /** A comparison `left op right`; sides are dynamically typed. */
  datatype Condition = Condition(left: Operand, op: ComparisonOp, right: Operand, queryNumber: int)
  {
    /** `Condition.ToString`: both sides around the operator's text; an unmapped operator throws. */
    function ToString(): (r: Result<string>)
      ensures r.Success? <==> Rendered(op)
      ensures r.Success? ==> r.value == GetSide(left) + OperatorMap[op] + GetSide(right)
    {
      if op in OperatorMap then Success(GetSide(left) + OperatorMap[op] + GetSide(right))
      else Failure(KeyNotFound)
    }

    /** `Condition.GetSideAttributes`: the sides that are attributes, left before right. */
    function SideAttributes(): (r: seq<Attribute>)
      ensures |r| == (if left.AttrOp? then 1 else 0) + (if right.AttrOp? then 1 else 0)
      ensures left.AttrOp? ==> r[0] == left.attr
      ensures right.AttrOp? ==> r[|r| - 1] == right.attr
    {
      (if left.AttrOp? then [left.attr] else []) + (if right.AttrOp? then [right.attr] else [])
    }
  }

  /** `new Condition()`: both sides null, the default operator (Equals). */
  function NewCondition(): (c: Condition)
    ensures c.left == NullOp && c.right == NullOp && c.op == Equals
    ensures c.SideAttributes() == [] && c.ToString() == Success("  =  ")
  {
    var c := Condition(NullOp, Equals, NullOp, 0);
    assert GetSide(NullOp) == " ";
    assert OperatorMap[Equals] == " = ";
    assert " " + " = " + " " == "  =  ";
    c
  }

  // ---------------------------------------------------------------- Join

  /** The condition of a join node. */
  datatype Join = Join(condition: Condition)
  {
    /** `Join.ToString`: the join symbol U+2A1D, a space, then the condition. */
    function ToString(): (r: Result<string>)
      ensures r.Success? <==> condition.ToString().Success?
      ensures r.Success? ==> r.value == "\U{2A1D} " + condition.ToString().value
    {
      var c :- condition.ToString();
      Success("\U{2A1D} " + c)
    }
  }

  /** `new Join()`: a fresh empty condition. */
  function NewJoin(): (j: Join)
    ensures j.condition == NewCondition()
  {
    Join(NewCondition())
  }
}
