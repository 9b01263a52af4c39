/**
 * Optimization rule 2 of `QoOptimizer`: duplicate selections are removed,
 * the relation leaves are reordered by how many join selections name
 * them, and every selection is moved down as far as it can go: a join
 * selection to the first node of the left spine that separates its two
 * relations, any other one directly above its relation.
 */
module SelectionPushdown {
  import opened Wrappers
  import opened Text
  import opened QueryModel
  import opened RelationalModel
  import opened Heap
  import opened TreeQueries
  import opened OptimizerHelpers
  import opened Rewrites
  import Statements

  /** The conditions of a selection node; no conditions for anything else. */
  function Conds(nodes: Nodes, k: nat): seq<Condition>
  {
    if k < |nodes| && nodes[k].content.SelectionContent? then nodes[k].content.selection.conditions else []
  }

  // ---------------------------------------------------------------- duplicate selections

  /** A side that is null cannot be turned into text (the call on the dynamic side fails to bind). */
  predicate NullSided(c: Condition)
  {
    c.left.NullOp? || c.right.NullOp?
  }

  /** Two conditions compare the same sides, by text, in the same or in the swapped order. */
  predicate SidesMatch(c1: Condition, c2: Condition)
  {
    (OperandText(c1.left) == OperandText(c2.left) && OperandText(c1.right) == OperandText(c2.right))
    || (OperandText(c1.left) == OperandText(c2.right) && OperandText(c1.right) == OperandText(c2.left))
  }

  /**
   * The two innermost loops of the duplicate search for one pair of
   * selections: every condition of the first is compared with every
   * condition of the second, so a null side anywhere throws once both
   * lists are non-empty; otherwise the pair is a duplicate when some two
   * conditions match.
   */
  function SelectionsMatch(cs1: seq<Condition>, cs2: seq<Condition>): (r: Result<bool>)
    ensures r.Failure? ==> r.error == RuntimeBinder
  {
    if |cs1| > 0 && |cs2| > 0
       && ((exists a :: 0 <= a < |cs1| && NullSided(cs1[a])) || (exists b :: 0 <= b < |cs2| && NullSided(cs2[b])))
    then Failure(RuntimeBinder)
    else Success(exists a, b :: 0 <= a < |cs1| && 0 <= b < |cs2| && SidesMatch(cs1[a], cs2[b]))
  }

  /** Does the pair of listed selections at positions `i` and `j` match? */
  predicate Paired(nodes: Nodes, sels: seq<nat>, i: nat, j: nat)
    requires i < |sels| && j < |sels|
  {
    SelectionsMatch(Conds(nodes, sels[i]), Conds(nodes, sels[j])) == Success(true)
  }

  /** The pair `(sels[i], sels[j])` added to the duplicates found so far, unless it is there already. */
  function Record(acc: seq<(nat, nat)>, pair: (nat, nat), matched: bool): seq<(nat, nat)>
  {
    if matched && pair !in acc then acc + [pair] else acc
  }

  /** The loop over `j` of the duplicate search, for the selection at position `i`. */
  function DupRow(nodes: Nodes, sels: seq<nat>, i: nat, j: nat, acc: seq<(nat, nat)>): (r: Result<seq<(nat, nat)>>)
    requires i < |sels|
    decreases |sels| - j
  {
    if j >= |sels| then Success(acc)
    else
      var m :- SelectionsMatch(Conds(nodes, sels[i]), Conds(nodes, sels[j]));
      DupRow(nodes, sels, i, j + 1, Record(acc, (sels[i], sels[j]), m))
  }

  /** One round of the loop over `j`: it fails as the comparison does, or records the pair and goes on. */
  lemma DupRowStep(nodes: Nodes, sels: seq<nat>, i: nat, j: nat, acc: seq<(nat, nat)>)
    requires i < |sels| && j < |sels|
    ensures var m := SelectionsMatch(Conds(nodes, sels[i]), Conds(nodes, sels[j]));
      DupRow(nodes, sels, i, j, acc)
      == if m.Failure? then Failure(m.error) else DupRow(nodes, sels, i, j + 1, Record(acc, (sels[i], sels[j]), m.value))
  {
  }

  /** The loop over `j` ends with what it has found. */
  lemma DupRowDone(nodes: Nodes, sels: seq<nat>, i: nat, j: nat, acc: seq<(nat, nat)>)
    requires i < |sels| && j >= |sels|
    ensures DupRow(nodes, sels, i, j, acc) == Success(acc)
  {
  }

  /** The loop over `i` of the duplicate search. */
  function DupScan(nodes: Nodes, sels: seq<nat>, i: nat, acc: seq<(nat, nat)>): (r: Result<seq<(nat, nat)>>)
    decreases |sels| - i
  {
    if i >= |sels| then Success(acc)
    else
      var row :- DupRow(nodes, sels, i, i + 1, acc);
      DupScan(nodes, sels, i + 1, row)
  }

  /** The duplicate search of rule 2 over the listed selections (only run for two or more). */
  function Duplicates(nodes: Nodes, sels: seq<nat>): (r: Result<seq<(nat, nat)>>)
  {
    if |sels| > 1 then DupScan(nodes, sels, 0, []) else Success([])
  }

  /** No pair is recorded twice. */
  predicate NoRepeats(ps: seq<(nat, nat)>)
  {
    forall p, q :: 0 <= p < q < |ps| ==> ps[p] != ps[q]
  }

  lemma RecordKeeps(acc: seq<(nat, nat)>, pair: (nat, nat), matched: bool)
    requires NoRepeats(acc)
    ensures NoRepeats(Record(acc, pair, matched))
    ensures forall x :: x in Record(acc, pair, matched) <==> x in acc || (matched && x == pair)
  {
  }

  /** `x` is `(sels[i], sels[j'])` for a matching later position `j <= j'`. */
  predicate RowPair(nodes: Nodes, sels: seq<nat>, i: nat, j: nat, x: (nat, nat))
    requires i < |sels|
  {
    exists j' :: j <= j' < |sels| && x == (sels[i], sels[j']) && Paired(nodes, sels, i, j')
  }

  /** `x` is `(sels[i'], sels[j'])` for matching positions `i <= i' < j'`. */
  predicate ScanPair(nodes: Nodes, sels: seq<nat>, i: nat, x: (nat, nat))
  {
    exists i', j' :: i <= i' < j' < |sels| && x == (sels[i'], sels[j']) && Paired(nodes, sels, i', j')
  }

  /** The pairs from row `j` on are the pair at `j`, when it matches, and those from `j + 1` on. */
  lemma RowPairSplit(nodes: Nodes, sels: seq<nat>, i: nat, j: nat, x: (nat, nat))
    requires i < |sels| && j < |sels|
    ensures RowPair(nodes, sels, i, j, x) <==> (x == (sels[i], sels[j]) && Paired(nodes, sels, i, j)) || RowPair(nodes, sels, i, j + 1, x)
  {
    if RowPair(nodes, sels, i, j, x) {
      var j' :| j <= j' < |sels| && x == (sels[i], sels[j']) && Paired(nodes, sels, i, j');
    }
  }

  /** The pairs from row `i` on are those of row `i` and those from row `i + 1` on. */
  lemma ScanPairSplit(nodes: Nodes, sels: seq<nat>, i: nat, x: (nat, nat))
    requires i < |sels|
    ensures ScanPair(nodes, sels, i, x) <==> RowPair(nodes, sels, i, i + 1, x) || ScanPair(nodes, sels, i + 1, x)
  {
    if ScanPair(nodes, sels, i, x) {
      var i', j' :| i <= i' < j' < |sels| && x == (sels[i'], sels[j']) && Paired(nodes, sels, i', j');
      if i' == i {
        assert RowPair(nodes, sels, i, i + 1, x);
      }
    }
    if RowPair(nodes, sels, i, i + 1, x) {
      var j' :| i + 1 <= j' < |sels| && x == (sels[i], sels[j']) && Paired(nodes, sels, i, j');
      assert i <= i < j' < |sels|;
    }
  }

  /** A row adds exactly the matching pairs `(sels[i], sels[j'])` with `j <= j'`, each once. */
  lemma {:induction false} DupRowMeans(nodes: Nodes, sels: seq<nat>, i: nat, j: nat, acc: seq<(nat, nat)>)
    requires i < |sels| && NoRepeats(acc)
    requires DupRow(nodes, sels, i, j, acc).Success?
    ensures var r := DupRow(nodes, sels, i, j, acc).value;
      NoRepeats(r) && forall x :: x in r <==> x in acc || RowPair(nodes, sels, i, j, x)
    decreases |sels| - j
  {
    if j < |sels| {
      var m := SelectionsMatch(Conds(nodes, sels[i]), Conds(nodes, sels[j])).value;
      var next := Record(acc, (sels[i], sels[j]), m);
      RecordKeeps(acc, (sels[i], sels[j]), m);
      DupRowMeans(nodes, sels, i, j + 1, next);
      forall x
        ensures x in DupRow(nodes, sels, i, j, acc).value <==> x in acc || RowPair(nodes, sels, i, j, x)
      {
        RowPairSplit(nodes, sels, i, j, x);
      }
    }
  }

  /** The scan from row `i` adds exactly the matching pairs of positions `i <= i' < j'`, each once. */
  lemma {:induction false} DupScanMeans(nodes: Nodes, sels: seq<nat>, i: nat, acc: seq<(nat, nat)>)
    requires NoRepeats(acc)
    requires DupScan(nodes, sels, i, acc).Success?
    ensures var r := DupScan(nodes, sels, i, acc).value;
      NoRepeats(r) && forall x :: x in r <==> x in acc || ScanPair(nodes, sels, i, x)
    decreases |sels| - i
  {
    if i < |sels| {
      var row := DupRow(nodes, sels, i, i + 1, acc).value;
      DupRowMeans(nodes, sels, i, i + 1, acc);
      DupScanMeans(nodes, sels, i + 1, row);
      forall x
        ensures x in DupScan(nodes, sels, i, acc).value <==> x in acc || ScanPair(nodes, sels, i, x)
      {
        ScanPairSplit(nodes, sels, i, x);
      }
    }
  }

  /**
   * The duplicates found are exactly the pairs of listed selections, the
   * earlier first, whose conditions match, and none is recorded twice.
   */
  lemma DuplicatesMeans(nodes: Nodes, sels: seq<nat>)
    requires Duplicates(nodes, sels).Success?
    ensures var r := Duplicates(nodes, sels).value;
      NoRepeats(r)
      && forall x :: x in r <==>
        exists i, j :: 0 <= i < j < |sels| && x == (sels[i], sels[j]) && Paired(nodes, sels, i, j)
  {
    if |sels| > 1 {
      DupScanMeans(nodes, sels, 0, []);
    }
  }

  /** Two conditions over the same sides in swapped order make a duplicate pair. */
  lemma SwappedSidesMatch(c1: Condition, c2: Condition)
    requires !NullSided(c1) && !NullSided(c2)
    requires c2.left == c1.right && c2.right == c1.left
    ensures SelectionsMatch([c1], [c2]) == Success(true)
  {
    assert SidesMatch([c1][0], [c2][0]);
  }

  // ---------------------------------------------------------------- removing the duplicates

  /** The state the removal loop changes: the arena, the root variable and the selection list. */
  datatype Stage = Stage(nodes: Nodes, root: Ptr, sels: seq<nat>)

  /**
   * One turn of the removal loop.  A pair holding the current root: the
   * root's left child loses its left child and its parent, the root is
   * taken out of the list and its left child becomes the root.  Any other
   * pair: the first node's child takes the first node's parent, the first
   * node takes its child as parent (its parent is left pointing at it), and
   * it is taken out of the list.
   */
  function Drop(st: Stage, pair: (nat, nat)): (r: Result<Stage>)
    ensures r.Success? ==> Rewires(st.nodes, r.value.nodes)
  {
    if Ref(pair.0) == st.root || Ref(pair.1) == st.root then Reroot(st) else Bypass(st, pair.0)
  }

  /** The removal of a duplicate pair holding the root. */
  function Reroot(st: Stage): (r: Result<Stage>)
    ensures r.Success? ==> Rewires(st.nodes, r.value.nodes)
  {
    var x :- Get(st.nodes, st.root);
    var a :- Write(st.nodes, x.left, LeftField, Null);
    var b :- Write(a, a[st.root.index].left, ParentField, Null);
    WriteExtends(st.nodes, x.left, LeftField, Null);
    WriteExtends(a, a[st.root.index].left, ParentField, Null);
    Success(Stage(b, b[st.root.index].left, RemoveFirst(st.sels, st.root.index)))
  }

  /** The removal of a duplicate pair whose first node `k` is not the root. */
  function Bypass(st: Stage, k: nat): (r: Result<Stage>)
    ensures r.Success? ==> Rewires(st.nodes, r.value.nodes)
  {
    var x :- Get(st.nodes, Ref(k));
    var a :- Write(st.nodes, x.left, ParentField, x.parent);
    WriteExtends(st.nodes, x.left, ParentField, x.parent);
    Success(Stage(Relink(a, k, ParentField, a[k].left), st.root, RemoveFirst(st.sels, k)))
  }

  /** The removal loop from the `i`-th duplicate pair on. */
  function DropAll(st: Stage, dups: seq<(nat, nat)>, i: nat): (r: Result<Stage>)
    requires i <= |dups|
    ensures r.Success? ==> Rewires(st.nodes, r.value.nodes)
    decreases |dups| - i
  {
    if i == |dups| then Success(st)
    else
      var next :- Drop(st, dups[i]);
      var r := DropAll(next, dups, i + 1);
      if r.Success? then RewiresChain(st.nodes, next.nodes, r.value.nodes); r else r
  }

  /**
   * For a pair not holding the root, with the first node's child a
   * different node, the first node leaves the list while the child's
   * parent becomes the first node's old parent and the first node's parent
   * becomes the child; nothing else changes.
   */
  lemma DropBypasses(st: Stage, pair: (nat, nat))
    requires Ref(pair.0) != st.root && Ref(pair.1) != st.root
    requires pair.0 < |st.nodes| && Live(st.nodes, st.nodes[pair.0].left) && st.nodes[pair.0].left != Ref(pair.0)
    ensures var x := st.nodes[pair.0]; var c := x.left.index;
      Drop(st, pair) == Success(Stage(
        st.nodes[c := st.nodes[c].(parent := x.parent)][pair.0 := x.(parent := x.left)],
        st.root, RemoveFirst(st.sels, pair.0)))
  {
  }

  /**
   * For a pair holding the root, whose left child is another node, the
   * child is cut loose (no parent, no left child) and becomes the new root;
   * the old root leaves the list.
   */
  lemma DropReroots(st: Stage, pair: (nat, nat))
    requires Ref(pair.0) == st.root || Ref(pair.1) == st.root
    requires Live(st.nodes, st.root) && Live(st.nodes, st.nodes[st.root.index].left)
    requires st.nodes[st.root.index].left != st.root
    ensures var c := st.nodes[st.root.index].left;
      Drop(st, pair) == Success(Stage(
        st.nodes[c.index := st.nodes[c.index].(left := Null, parent := Null)],
        c, RemoveFirst(st.sels, st.root.index)))
  {
    var c := st.nodes[st.root.index].left;
    var x := st.nodes[st.root.index];
    assert Get(st.nodes, st.root) == Success(x);
    var a := st.nodes[c.index := Rewire(st.nodes[c.index], LeftField, Null)];
    assert Write(st.nodes, c, LeftField, Null) == Success(a);
    assert a[st.root.index] == x;
    var b := a[c.index := Rewire(a[c.index], ParentField, Null)];
    assert Write(a, c, ParentField, Null) == Success(b);
    assert b[st.root.index] == x;
    assert b == st.nodes[c.index := st.nodes[c.index].(left := Null, parent := Null)];
    assert Drop(st, pair) == Reroot(st);
  }

  // ---------------------------------------------------------------- ranking the relations

  /** Whether any selection is a join: the first selection whose first condition is a join ends the scan; no condition throws. */
  function AnyJoin(nodes: Nodes, schema: seq<Relation>, sels: seq<nat>, i: nat): (r: Result<bool>)
    decreases |sels| - i
  {
    if i >= |sels| then Success(false)
    else
      var cs := Conds(nodes, sels[i]);
      if |cs| == 0 then Failure(NoElements)
      else if JoinCondition(schema, cs[0]) then Success(true)
      else AnyJoin(nodes, schema, sels, i + 1)
  }

  /** The scan answers true exactly when some selection before any condition-less one starts with a join. */
  lemma {:induction false} AnyJoinMeans(nodes: Nodes, schema: seq<Relation>, sels: seq<nat>, i: nat)
    requires AnyJoin(nodes, schema, sels, i).Success?
    ensures AnyJoin(nodes, schema, sels, i).value <==>
      exists j :: i <= j < |sels| && |Conds(nodes, sels[j])| > 0 && JoinCondition(schema, Conds(nodes, sels[j])[0])
    ensures !AnyJoin(nodes, schema, sels, i).value ==> forall j :: i <= j < |sels| ==> |Conds(nodes, sels[j])| > 0
    decreases |sels| - i
  {
    if i < |sels| && |Conds(nodes, sels[i])| > 0 && !JoinCondition(schema, Conds(nodes, sels[i])[0]) {
      AnyJoinMeans(nodes, schema, sels, i + 1);
    }
  }

  /** The dictionary `cartRankings`, as its entries in insertion order: a relation node and its count. */
  type Ranks = seq<(nat, int)>

  /** Is `key` one of the dictionary's keys? */
  predicate HasKey(rs: Ranks, key: nat)
  {
    exists e :: 0 <= e < |rs| && rs[e].0 == key
  }

  /** A ranking of zero for each relation leaf from position `i` on; a repeated key throws. */
  function Seed(leaves: seq<nat>, i: nat, rs: Ranks): (r: Result<Ranks>)
    requires i <= |leaves|
    decreases |leaves| - i
  {
    if i == |leaves| then Success(rs)
    else if HasKey(rs, leaves[i]) then Failure(DuplicateKey)
    else Seed(leaves, i + 1, rs + [(leaves[i], 0)])
  }

  /** The position of `key` in the dictionary. */
  function KeyIndex(rs: Ranks, key: nat): (e: nat)
    requires HasKey(rs, key)
    ensures e < |rs| && rs[e].0 == key
    ensures forall f :: 0 <= f < e ==> rs[f].0 != key
  {
    if rs[0].0 == key then 0
    else
      assert HasKey(rs[1..], key) by {
        var e :| 0 <= e < |rs| && rs[e].0 == key;
        assert rs[1..][e - 1].0 == key;
      }
      1 + KeyIndex(rs[1..], key)
  }

  /** `cartRankings[key]++`: a null key and a missing key throw. */
  function Bump(rs: Ranks, key: Ptr): (r: Result<Ranks>)
    ensures r.Success? ==> |r.value| == |rs| && forall e :: 0 <= e < |rs| ==> r.value[e].0 == rs[e].0
  {
    if key == Null then Failure(NullKey)
    else if !HasKey(rs, key.index) then Failure(KeyNotFound)
    else
      var e := KeyIndex(rs, key.index);
      Success(rs[e := (key.index, rs[e].1 + 1)])
  }

  /**
   * The loop over the join selections: each one counts once for the
   * relation its left side names and once for the relation its right side
   * names.
   */
  function Count(nodes: Nodes, schema: seq<Relation>, rels: seq<Relation>, sels: seq<nat>, leaves: seq<nat>, i: nat, rs: Ranks): (r: Result<Ranks>)
    decreases |sels| - i
  {
    if i >= |sels| then Success(rs)
    else
      var cs := Conds(nodes, sels[i]);
      if |cs| == 0 then Failure(NoElements)
      else if !JoinCondition(schema, cs[0]) then Count(nodes, schema, rels, sels, leaves, i + 1, rs)
      else
        var relation1 :- RelationFor(nodes, rels, AsAttribute(cs[0].left), leaves);
        var relation2 :- RelationFor(nodes, rels, AsAttribute(cs[0].right), leaves);
        var a :- Bump(rs, relation1);
        var b :- Bump(a, relation2);
        Count(nodes, schema, rels, sels, leaves, i + 1, b)
  }

  /** Every count is the same. */
  predicate AllEqual(rs: Ranks)
  {
    |rs| > 0 && forall e :: 0 <= e < |rs| ==> rs[e].1 == rs[0].1
  }

  // ---------------------------------------------------------------- OrderBy

  /** Counts ascending. */
  predicate Ascending(rs: Ranks)
  {
    forall e, f :: 0 <= e < f < |rs| ==> rs[e].1 <= rs[f].1
  }

  /** An entry put into an ascending list after every entry whose count is not above its own. */
  function InsertByCount(s: Ranks, x: (nat, int)): (r: Ranks)
    ensures multiset(r) == multiset(s) + multiset{x}
    ensures |r| == |s| + 1
  {
    if |s| == 0 then [x]
    else if x.1 < s[0].1 then [x] + s
    else
      assert s == [s[0]] + s[1..];
      [s[0]] + InsertByCount(s[1..], x)
  }

  /** Every count of the inserted list is at least `b` when every count that went in was. */
  lemma {:induction false} InsertByCountBounded(s: Ranks, x: (nat, int), b: int)
    requires b <= x.1 && forall e :: 0 <= e < |s| ==> b <= s[e].1
    ensures forall e :: 0 <= e < |s| + 1 ==> b <= InsertByCount(s, x)[e].1
  {
    if |s| > 0 && x.1 >= s[0].1 {
      InsertByCountBounded(s[1..], x, b);
    }
  }

  /** Insertion keeps a list ascending. */
  lemma {:induction false} InsertByCountAscending(s: Ranks, x: (nat, int))
    requires Ascending(s)
    ensures Ascending(InsertByCount(s, x))
  {
    if |s| > 0 && x.1 >= s[0].1 {
      var rest := InsertByCount(s[1..], x);
      InsertByCountAscending(s[1..], x);
      InsertByCountBounded(s[1..], x, s[0].1);
      assert InsertByCount(s, x) == [s[0]] + rest;
    }
  }

  /** The rankings ordered by count: a stable sort, as insertion from the front. */
  function ByCount(rs: Ranks): (r: Ranks)
    ensures multiset(r) == multiset(rs) && |r| == |rs|
    ensures Ascending(r)
  {
    if |rs| == 0 then []
    else
      assert rs == rs[..|rs| - 1] + [rs[|rs| - 1]];
      InsertByCountAscending(ByCount(rs[..|rs| - 1]), rs[|rs| - 1]);
      InsertByCount(ByCount(rs[..|rs| - 1]), rs[|rs| - 1])
  }

  /** The keys of the rankings, in order. */
  function Keys(rs: Ranks): (r: seq<nat>)
    ensures |r| == |rs| && forall e :: 0 <= e < |rs| ==> r[e] == rs[e].0
  {
    seq(|rs|, e requires 0 <= e < |rs| => rs[e].0)
  }

  /** A position holding an entry of the list. */
  function IndexIn(s: Ranks, y: (nat, int)): (f: nat)
    requires y in multiset(s)
    ensures f < |s| && s[f] == y
  {
    if s[0] == y then 0
    else
      assert s == [s[0]] + s[1..];
      1 + IndexIn(s[1..], y)
  }

  /** The order puts every relation of the dictionary, once per entry, lowest count first. */
  lemma ByCountIsOrdering(rs: Ranks)
    ensures Ascending(ByCount(rs)) && multiset(ByCount(rs)) == multiset(rs)
    ensures AllEqual(rs) || |rs| == 0 || ByCount(rs)[0].1 < ByCount(rs)[|rs| - 1].1
  {
    if |rs| > 0 && !AllEqual(rs) {
      var e :| 0 <= e < |rs| && rs[e].1 != rs[0].1;
      EndsDiffer(rs, ByCount(rs), e);
    }
  }

  /** An ascending permutation of a list holding two different counts has a lower count first than last. */
  lemma EndsDiffer(rs: Ranks, s: Ranks, e: nat)
    requires e < |rs| && rs[e].1 != rs[0].1
    requires Ascending(s) && multiset(s) == multiset(rs) && |s| == |rs|
    ensures s[0].1 < s[|rs| - 1].1
  {
    var f := OrderedPosition(rs, s, e);
    var g := OrderedPosition(rs, s, 0);
  }

  /** An entry of `rs` sits in its ascending permutation `s` between the ends. */
  lemma OrderedPosition(rs: Ranks, s: Ranks, e: nat) returns (f: nat)
    requires e < |rs| && Ascending(s) && multiset(s) == multiset(rs)
    ensures f < |s| && s[f] == rs[e] && s[0].1 <= rs[e].1 <= s[|s| - 1].1
  {
    assert rs[e] in multiset(rs);
    f := IndexIn(s, rs[e]);
  }

  // ---------------------------------------------------------------- placing the relations

  /**
   * The placement loop from step `i`, with `iter` on the left spine below
   * the first cartesian: every relation but the last two becomes the right
   * child of one spine node, in order, and the walk goes down the left; the
   * last two become the right and the left child of the deepest spine node.
   * In the C# a relation placed on the way down gets as parent the spine
   * node below the one it hangs from (`asWritten`); the corrected loop gives
   * it the node it hangs from.
   */
  function PlaceFrom(nodes: Nodes, ord: seq<nat>, iter: Ptr, i: nat, asWritten: bool): (r: Result<Nodes>)
    ensures r.Success? ==> Rewires(nodes, r.value)
    decreases |ord| - i
  {
    if i + 1 >= |ord| then Success(nodes)
    else if i == |ord| - 2 then
      var a :- Write(nodes, iter, RightField, Ref(ord[i]));
      var b :- Write(a, Ref(ord[i]), ParentField, iter);
      var c :- Write(b, iter, LeftField, Ref(ord[i + 1]));
      var d :- Write(c, Ref(ord[i + 1]), ParentField, iter);
      WriteExtends(nodes, iter, RightField, Ref(ord[i]));
      WriteExtends(a, Ref(ord[i]), ParentField, iter);
      WriteExtends(b, iter, LeftField, Ref(ord[i + 1]));
      WriteExtends(c, Ref(ord[i + 1]), ParentField, iter);
      Success(d)
    else
      var a :- Write(nodes, iter, RightField, Ref(ord[i]));
      var next := a[iter.index].left;
      var b :- Write(a, Ref(ord[i]), ParentField, if asWritten then next else iter);
      WriteExtends(nodes, iter, RightField, Ref(ord[i]));
      WriteExtends(a, Ref(ord[i]), ParentField, if asWritten then next else iter);
      var r := PlaceFrom(b, ord, next, i + 1, asWritten);
      if r.Success? then RewiresChain(nodes, b, r.value); r else r
  }

  /** The placement loop as the C# writes it. */
  function PlacementAsWritten(nodes: Nodes, ord: seq<nat>, first: Ptr): (r: Result<Nodes>)
  {
    PlaceFrom(nodes, ord, first, 0, true)
  }

  /** The placement loop with each relation's parent set to the node it hangs from. */
  function Placement(nodes: Nodes, ord: seq<nat>, first: Ptr): (r: Result<Nodes>)
    ensures r.Success? ==> Rewires(nodes, r.value)
  {
    PlaceFrom(nodes, ord, first, 0, false)
  }

  /**
   * Where the corrected loop from step `i` puts everything, given the spine
   * nodes `spine[i..]` (each the left child of the one before) and the
   * ordered relations: in `h`, relation `ord[k]` is the right child of
   * `spine[k]` and points back to it, the last relation is the left child of
   * the deepest spine node and points back to it, the left spine is kept,
   * and every other node is as in `nodes`.
   */
  predicate PlacedFrom(nodes: Nodes, h: Nodes, ord: seq<nat>, spine: seq<nat>, i: nat)
    requires |ord| >= 2 && |spine| == |ord| - 1
  {
    |h| == |nodes|
    && (forall k :: i <= k < |spine| ==>
          spine[k] < |h| && ord[k] < |h| && h[spine[k]].right == Ref(ord[k]) && h[ord[k]].parent == Ref(spine[k]))
    && spine[|spine| - 1] < |h| && ord[|ord| - 1] < |h|
    && h[spine[|spine| - 1]].left == Ref(ord[|ord| - 1]) && h[ord[|ord| - 1]].parent == Ref(spine[|spine| - 1])
    && (forall k :: i <= k < |spine| - 1 ==> spine[k] < |h| && h[spine[k]].left == Ref(spine[k + 1]))
    && (forall j :: (0 <= j < |nodes| && (forall k :: i <= k < |spine| ==> j != spine[k])
          && (forall k :: i <= k < |ord| ==> j != ord[k])) ==> h[j] == nodes[j])
  }

  /** The spine nodes and relations from step `i` on: in the arena, linked down the left, all different. */
  predicate PlacementReady(nodes: Nodes, ord: seq<nat>, spine: seq<nat>, i: nat)
  {
    |ord| >= 2 && |spine| == |ord| - 1 && i < |spine|
    && (forall k :: i <= k < |spine| ==> spine[k] < |nodes|)
    && (forall k :: i <= k < |ord| ==> ord[k] < |nodes|)
    && (forall k :: i <= k < |spine| - 1 ==> nodes[spine[k]].left == Ref(spine[k + 1]))
    && (forall k, m :: i <= k < m < |spine| ==> spine[k] != spine[m])
    && (forall k, m :: i <= k < m < |ord| ==> ord[k] != ord[m])
    && (forall k, m :: i <= k < |spine| && i <= m < |ord| ==> spine[k] != ord[m])
  }

  /** Where the corrected loop puts everything, from any step on. */
  lemma {:induction false} PlacementLinks(nodes: Nodes, ord: seq<nat>, spine: seq<nat>, i: nat)
    requires PlacementReady(nodes, ord, spine, i)
    ensures PlaceFrom(nodes, ord, Ref(spine[i]), i, false).Success?
    ensures PlacedFrom(nodes, PlaceFrom(nodes, ord, Ref(spine[i]), i, false).value, ord, spine, i)
    decreases |ord| - i, 1
  {
    if i == |ord| - 2 {
      PlacementLast(nodes, ord, spine, i);
    } else {
      PlacementMiddle(nodes, ord, spine, i);
    }
  }

  /** A middle step, then the rest of the loop. */
  lemma {:induction false} PlacementMiddle(nodes: Nodes, ord: seq<nat>, spine: seq<nat>, i: nat)
    requires PlacementReady(nodes, ord, spine, i) && i < |ord| - 2
    ensures PlaceFrom(nodes, ord, Ref(spine[i]), i, false).Success?
    ensures PlacedFrom(nodes, PlaceFrom(nodes, ord, Ref(spine[i]), i, false).value, ord, spine, i)
    decreases |ord| - i, 0
  {
    var t := spine[i];
    var e := ord[i];
    var a := nodes[t := nodes[t].(right := Ref(e))];
    var b := a[e := a[e].(parent := Ref(t))];
    PlacementStep(nodes, ord, spine, i, a, b);
    PlacementLinks(b, ord, spine, i + 1);
    PlacementLift(nodes, ord, spine, i, a, b, PlaceFrom(b, ord, Ref(spine[i + 1]), i + 1, false).value);
  }

  /** The last step hangs the last two relations from the deepest spine node. */
  lemma PlacementLast(nodes: Nodes, ord: seq<nat>, spine: seq<nat>, i: nat)
    requires PlacementReady(nodes, ord, spine, i) && i == |ord| - 2
    ensures PlaceFrom(nodes, ord, Ref(spine[i]), i, false).Success?
    ensures PlacedFrom(nodes, PlaceFrom(nodes, ord, Ref(spine[i]), i, false).value, ord, spine, i)
  {
    assert i == |spine| - 1;
  }

  /** A middle step hangs one relation and moves down the left spine. */
  lemma PlacementStep(nodes: Nodes, ord: seq<nat>, spine: seq<nat>, i: nat, a: Nodes, b: Nodes)
    requires PlacementReady(nodes, ord, spine, i) && i < |ord| - 2
    requires a == nodes[spine[i] := nodes[spine[i]].(right := Ref(ord[i]))]
    requires b == a[ord[i] := a[ord[i]].(parent := Ref(spine[i]))]
    ensures PlaceFrom(nodes, ord, Ref(spine[i]), i, false) == PlaceFrom(b, ord, Ref(spine[i + 1]), i + 1, false)
    ensures PlacementReady(b, ord, spine, i + 1)
  {
    var t := spine[i];
    var e := ord[i];
    assert Write(nodes, Ref(t), RightField, Ref(e)) == Success(a);
    assert a[t].left == Ref(spine[i + 1]);
    assert Write(a, Ref(e), ParentField, Ref(t)) == Success(b);
    forall k | i + 1 <= k < |spine| - 1 ensures b[spine[k]].left == Ref(spine[k + 1]) {
      assert spine[k] != t && spine[k] != e;
    }
  }

  /** What the later steps leave, seen from step `i`, once step `i` has hung its relation. */
  lemma PlacementLift(nodes: Nodes, ord: seq<nat>, spine: seq<nat>, i: nat, a: Nodes, b: Nodes, h: Nodes)
    requires PlacementReady(nodes, ord, spine, i) && i < |ord| - 2
    requires a == nodes[spine[i] := nodes[spine[i]].(right := Ref(ord[i]))]
    requires b == a[ord[i] := a[ord[i]].(parent := Ref(spine[i]))]
    requires PlacedFrom(b, h, ord, spine, i + 1)
    ensures PlacedFrom(nodes, h, ord, spine, i)
  {
    assert forall k :: i + 1 <= k < |spine| ==> spine[i] != spine[k];
    assert forall k :: i + 1 <= k < |ord| ==> spine[i] != ord[k];
    PlacedUntouched(b, h, ord, spine, i + 1, spine[i]);
    assert forall k :: i + 1 <= k < |spine| ==> ord[i] != spine[k];
    assert forall k :: i + 1 <= k < |ord| ==> ord[i] != ord[k];
    PlacedUntouched(b, h, ord, spine, i + 1, ord[i]);
    PlacedExtend(nodes, a, b, h, ord, spine, i);
  }

  /** A node the later steps do not name keeps what it had before them. */
  lemma PlacedUntouched(b: Nodes, h: Nodes, ord: seq<nat>, spine: seq<nat>, i: nat, j: nat)
    requires |ord| >= 2 && |spine| == |ord| - 1 && PlacedFrom(b, h, ord, spine, i) && j < |b|
    requires forall k :: i <= k < |spine| ==> j != spine[k]
    requires forall k :: i <= k < |ord| ==> j != ord[k]
    ensures h[j] == b[j]
  {
  }

  /** Hanging relation `ord[i]` at the right of `spine[i]`, then placing the rest, places everything from step `i`. */
  lemma PlacedExtend(nodes: Nodes, a: Nodes, b: Nodes, h: Nodes, ord: seq<nat>, spine: seq<nat>, i: nat)
    requires PlacementReady(nodes, ord, spine, i) && i < |ord| - 2
    requires a == nodes[spine[i] := nodes[spine[i]].(right := Ref(ord[i]))]
    requires b == a[ord[i] := a[ord[i]].(parent := Ref(spine[i]))]
    requires PlacedFrom(b, h, ord, spine, i + 1)
    requires h[spine[i]] == b[spine[i]] && h[ord[i]] == b[ord[i]]
    ensures PlacedFrom(nodes, h, ord, spine, i)
  {
  }

  /**
   * The C# loop gets the parents wrong: with three relations below two
   * cartesians, the relation put at the upper cartesian's right points up
   * to the lower cartesian.
   */
  lemma PlacementParentMismatch()
    ensures var h := PlacementAsWritten(ThreeUnderTwo(), [4, 3, 2], Ref(0));
      h.Success? && h.value[0].right == Ref(4) && h.value[4].parent == Ref(1)
    ensures var h := Placement(ThreeUnderTwo(), [4, 3, 2], Ref(0));
      h.Success? && h.value[0].right == Ref(4) && h.value[4].parent == Ref(0)
  {
    AsWrittenMisplaces();
    CorrectedPlaces();
  }

  /** Three relations below two cartesians: the upper cartesian at 0, the lower at 1, the relations at 2, 3 and 4. */
  function ThreeUnderTwo(): (nodes: Nodes)
    ensures |nodes| == 5
  {
    [Node("1", Null, Ref(1), Ref(4), SetOpContent(Statements.CartesianProduct)),
     Node("2", Ref(0), Ref(2), Ref(3), SetOpContent(Statements.CartesianProduct)),
     Node("3", Ref(1), Null, Null, RelationContent(0)),
     Node("4", Ref(1), Null, Null, RelationContent(1)),
     Node("5", Ref(0), Null, Null, RelationContent(2))]
  }

  /** As written, the relation hung at the upper cartesian's right points up to the lower cartesian. */
  lemma AsWrittenMisplaces()
    ensures var h := PlacementAsWritten(ThreeUnderTwo(), [4, 3, 2], Ref(0));
      h.Success? && h.value[0].right == Ref(4) && h.value[4].parent == Ref(1)
  {
  }

  /** Corrected, the relation hung at the upper cartesian's right points up to it. */
  lemma CorrectedPlaces()
    ensures var h := Placement(ThreeUnderTwo(), [4, 3, 2], Ref(0));
      h.Success? && h.value[0].right == Ref(4) && h.value[4].parent == Ref(0)
  {
  }

  // ---------------------------------------------------------------- burying the selections

  /**
   * `ContainsRelation(node, null)`: a relation leaf only matches the very
   * relation sought, so against null the whole subtree is walked and the
   * answer is no.
   */
  function ScanNull(nodes: Nodes, p: Ptr, fuel: nat): (r: Result<bool>)
    ensures r.Success? ==> !r.value
    ensures r.Failure? ==> r.error == Diverges
    decreases fuel
  {
    if !Live(nodes, p) then Success(false)
    else if fuel == 0 then Failure(Diverges)
    else
      var x := nodes[p.index];
      var l :- if Live(nodes, x.left) then ScanNull(nodes, x.left, fuel - 1) else Success(false);
      if Live(nodes, x.right) then ScanNull(nodes, x.right, fuel - 1) else Success(false)
  }

  /**
   * `ContainsRelation(p, relation.Content as Relation)`: a null relation
   * node throws; a node without a relation stands for null.
   */
  function Holds(nodes: Nodes, p: Ptr, relNode: Ptr): (r: Result<bool>)
    ensures r.Failure? ==> r.error in {NullReference, Diverges}
  {
    var rn :- Get(nodes, relNode);
    if rn.content.RelationContent? then ContainsRelation(nodes, p, rn.content.rel, |nodes|)
    else ScanNull(nodes, p, |nodes|)
  }

  /**
   * The four probes of the join search at `it`, in the order the C#
   * makes them: does one child hold the first relation and the other the
   * second one?  A null `it` throws.
   */
  function Separates(nodes: Nodes, it: Ptr, r1: Ptr, r2: Ptr): (r: Result<bool>)
    ensures r.Success? ==> Live(nodes, it)
  {
    var x :- Get(nodes, it);
    var l1 :- Holds(nodes, x.left, r1);
    var l2 :- Holds(nodes, x.left, r2);
    var h1 :- Holds(nodes, x.right, r1);
    var h2 :- Holds(nodes, x.right, r2);
    Success((l1 && h2) || (l2 && h1))
  }

  /**
   * The search loop: down the left spine from `it` to the first node that
   * separates the two relations.  The loop only reads, so a walk longer
   * than the heap repeats a node and never ends.
   */
  function Sink(nodes: Nodes, it: Ptr, r1: Ptr, r2: Ptr, fuel: nat): (r: Result<Ptr>)
    ensures r.Success? ==> Live(nodes, r.value) && Separates(nodes, r.value, r1, r2) == Success(true)
    decreases fuel
  {
    var sep :- Separates(nodes, it, r1, r2);
    if sep then Success(it)
    else if fuel == 0 then Failure(Diverges)
    else Sink(nodes, nodes[it.index].left, r1, r2, fuel - 1)
  }

  /**
   * A join selection `k` already cut out of the tree put back above the
   * node `it`: `it`'s parent takes `k` as left child, `k` takes that
   * parent and `it` as its own parent and left child, and `it` takes `k`
   * as parent.  A null parent of `it` throws.
   */
  function HangAbove(nodes: Nodes, it: nat, k: nat): (r: Result<Nodes>)
    requires it < |nodes| && k < |nodes|
    ensures r.Success? ==> Rewires(nodes, r.value)
  {
    var a :- Write(nodes, nodes[it].parent, LeftField, Ref(k));
    WriteExtends(nodes, nodes[it].parent, LeftField, Ref(k));
    var b := Relink(a, k, ParentField, a[it].parent);
    var c := Relink(b, k, LeftField, Ref(it));
    var d := Relink(c, it, ParentField, Ref(k));
    RewiresChain(nodes, a, b);
    RewiresChain(nodes, b, c);
    RewiresChain(nodes, c, d);
    Success(d)
  }

  /**
   * A selection other than a join put above relation node `rel`, on the
   * side of `rel`'s parent that holds `rel`: null `rel` or a null parent
   * throws.
   */
  function Beneath(nodes: Nodes, rel: Ptr, k: nat): (r: Result<Nodes>)
    ensures r.Success? ==> Rewires(nodes, r.value)
  {
    var rn :- Get(nodes, rel);
    var par :- Get(nodes, rn.parent);
    InsertAbove(nodes, rel, Ref(k), if par.left == rel then LeftField else RightField)
  }

  /**
   * Selection `k` cut out of the tree: its parent takes its left child and
   * the child takes its parent; `k` keeps its own links.  A null parent or
   * child throws.
   */
  function Cut(nodes: Nodes, k: nat): (r: Result<Nodes>)
    requires k < |nodes|
    ensures r.Success? ==> Rewires(nodes, r.value)
  {
    var x := nodes[k];
    var a :- Write(nodes, x.parent, LeftField, x.left);
    var b :- Write(a, a[k].left, ParentField, a[k].parent);
    WriteExtends(nodes, x.parent, LeftField, x.left);
    WriteExtends(a, a[k].left, ParentField, a[k].parent);
    Success(b)
  }

  /**
   * When the selection, its parent and its child are three different
   * nodes, cutting it out links the parent and the child to each other
   * and changes nothing else.
   */
  lemma CutShape(nodes: Nodes, k: nat)
    requires k < |nodes| && Live(nodes, nodes[k].parent) && Live(nodes, nodes[k].left)
    requires var p := nodes[k].parent.index; var c := nodes[k].left.index; p != k && c != k && p != c
    ensures var p := nodes[k].parent.index; var c := nodes[k].left.index;
      Cut(nodes, k) == Success(nodes[p := nodes[p].(left := Ref(c))][c := nodes[c].(parent := Ref(p))])
  {
    var p := nodes[k].parent.index;
    var c := nodes[k].left.index;
    var a := nodes[p := nodes[p].(left := Ref(c))];
    assert Write(nodes, Ref(p), LeftField, Ref(c)) == Success(a);
    assert a[k] == nodes[k];
    var b := a[c := a[c].(parent := Ref(p))];
    assert Write(a, Ref(c), ParentField, Ref(p)) == Success(b);
  }

  /**
   * One turn of the burying loop for selection node `k`.  The root is
   * skipped.  Otherwise `k` is cut out (its parent takes its left child,
   * the child takes its parent) and, for a join on its first condition,
   * hung above the first node of the left spine below that separates the
   * condition's relations; for any other condition it is put directly
   * above the relation of the left side or, failing that, of the right
   * side, and stays cut out when neither is found.
   */
  function Push(nodes: Nodes, schema: seq<Relation>, rels: seq<Relation>, leaves: seq<nat>, root: Ptr, k: nat): (r: Result<Nodes>)
    ensures r.Success? ==> Rewires(nodes, r.value)
  {
    if Ref(k) == root then Success(nodes)
    else
      var x :- Get(nodes, Ref(k));
      if !x.content.SelectionContent? then Failure(NullReference)
      else
        var cs := x.content.selection.conditions;
        if |cs| == 0 then Failure(NoElements)
        else
          var b :- Cut(nodes, k);
          var relation1 :- RelationFor(b, rels, AsAttribute(cs[0].left), leaves);
          var relation2 :- RelationFor(b, rels, AsAttribute(cs[0].right), leaves);
          var r :- if JoinCondition(schema, cs[0]) then
              var it :- Sink(b, b[k].left, relation1, relation2, |b|);
              HangAbove(b, it.index, k)
            else if relation1 != Null then Beneath(b, relation1, k)
            else if relation2 != Null then Beneath(b, relation2, k)
            else Success(b);
          RewiresChain(nodes, b, r);
          Success(r)
  }

  /** The burying loop from the `i`-th listed selection on. */
  function PushAll(nodes: Nodes, schema: seq<Relation>, rels: seq<Relation>, leaves: seq<nat>, root: Ptr, sels: seq<nat>, i: nat): (r: Result<Nodes>)
    requires i <= |sels|
    ensures r.Success? ==> Rewires(nodes, r.value)
    decreases |sels| - i
  {
    if i == |sels| then Success(nodes)
    else
      var next :- Push(nodes, schema, rels, leaves, root, sels[i]);
      var r := PushAll(next, schema, rels, leaves, root, sels, i + 1);
      if r.Success? then RewiresChain(nodes, next, r.value); r else r
  }

  // ---------------------------------------------------------------- the rule

  /**
   * The ranking step, run when some selection starts with a join: the
   * relation leaves are counted, and unless every count is the same they
   * are hung along the left spine from the first set operator down, the
   * least named at the top right and the most named at the bottom.  An
   * empty dictionary throws on `First()`.
   */
  function Rank(nodes: Nodes, schema: seq<Relation>, rels: seq<Relation>, sels: seq<nat>, leaves: seq<nat>, root: Ptr): (r: Result<Nodes>)
    ensures r.Success? ==> Rewires(nodes, r.value)
  {
    var seeded :- Seed(leaves, 0, []);
    var counted :- Count(nodes, schema, rels, sels, leaves, 0, seeded);
    if |counted| == 0 then Failure(NoElements)
    else if AllEqual(counted) then Success(nodes)
    else
      var first :- FirstCartesian(nodes, root, |nodes|);
      Placement(nodes, Keys(ByCount(counted)), first)
  }

  /**
   * `ApplyRule2` on a root that is not a set operator: nothing happens
   * without selections or when none has a condition; otherwise duplicates
   * go, the leaves are ranked when a join is among the selections, and
   * every remaining selection is buried.  The result is the arena and the
   * root, which changes when a duplicate held it.
   */
  function Pushdown(nodes: Nodes, schema: seq<Relation>, rels: seq<Relation>, root: Ptr): (r: Result<(Nodes, Ptr)>)
    ensures r.Success? ==> Rewires(nodes, r.value.0)
  {
    // both listings walk the same tree and fail alike, so the first one to throw is either
    var sels :- GetAllSelectionNodes(nodes, root);
    var leaves := Filter(nodes, GetNodesList(nodes, root).value, RelationKind, Null);
    if |sels| == 0 || forall i :: 0 <= i < |sels| ==> |Conds(nodes, sels[i])| == 0 then Success((nodes, root))
    else
      var dups :- Duplicates(nodes, sels);
      var st :- DropAll(Stage(nodes, root, sels), dups, 0);
      var joins :- AnyJoin(st.nodes, schema, st.sels, 0);
      var ranked :- if joins then Rank(st.nodes, schema, rels, st.sels, leaves, st.root) else Success(st.nodes);
      var pushed :- PushAll(ranked, schema, rels, leaves, st.root, st.sels, 0);
      RewiresChain(nodes, st.nodes, ranked);
      RewiresChain(nodes, ranked, pushed);
      Success((pushed, st.root))
  }

  /**
   * `ApplyRule2(root)`: a set operator passes the rule to its left child
   * and then to its right child (read after the left one is done) and
   * keeps its own place as root; the roots the children return are
   * dropped.  A null root throws.  `fuel` bounds the depth of set
   * operators.
   */
  function Rule2(nodes: Nodes, schema: seq<Relation>, rels: seq<Relation>, root: Ptr, fuel: nat): (r: Result<(Nodes, Ptr)>)
    ensures r.Success? ==> Rewires(nodes, r.value.0)
    decreases fuel, 0
  {
    var x :- Get(nodes, root);
    if x.content.SetOpContent? then
      if fuel == 0 then Failure(Diverges)
      else Rule2Sides(nodes, schema, rels, root.index, fuel - 1)
    else Pushdown(nodes, schema, rels, root)
  }

  /**
   * Rule 2 under a set operator at `root`: on its left child, then on its
   * right child as the first run leaves it; the set operator stays the root.
   */
  function Rule2Sides(nodes: Nodes, schema: seq<Relation>, rels: seq<Relation>, root: nat, fuel: nat): (r: Result<(Nodes, Ptr)>)
    requires root < |nodes|
    ensures r.Success? ==> Rewires(nodes, r.value.0) && r.value.1 == Ref(root)
    decreases fuel, 1
  {
    var a :- Rule2(nodes, schema, rels, nodes[root].left, fuel);
    var b :- Rule2(a.0, schema, rels, a.0[root].right, fuel);
    RewiresChain(nodes, a.0, b.0);
    Success((b.0, Ref(root)))
  }

  // ---------------------------------------------------------------- what burying achieves

  /**
   * The probe answers whether the relation held by `rn` is among the
   * relation leaves below `t`.
   */
  lemma HoldsMeansLeaf(nodes: Nodes, t: nat, rn: nat)
    requires t < |nodes| && rn < |nodes| && nodes[rn].content.RelationContent?
    requires Holds(nodes, Ref(t), Ref(rn)).Success?
    ensures Holds(nodes, Ref(t), Ref(rn)).value <==> nodes[rn].content.rel in LeafRelations(nodes, t, |nodes| + 1)
  {
    HoldsRelation(nodes, t, rn);
    ContainsMeansLeaf(nodes, t, nodes[rn].content.rel);
  }

  /** The probe of a relation node is the search for its relation. */
  lemma HoldsRelation(nodes: Nodes, t: nat, rn: nat)
    requires rn < |nodes| && nodes[rn].content.RelationContent?
    ensures Holds(nodes, Ref(t), Ref(rn)) == ContainsRelation(nodes, Ref(t), nodes[rn].content.rel, |nodes|)
  {
  }

  /**
   * The search ends at a node of the left spine below `it`, every node
   * passed on the way failing to separate the relations.
   */
  lemma {:induction false} SinkFindsFirst(nodes: Nodes, it: Ptr, r1: Ptr, r2: Ptr, fuel: nat)
    requires Sink(nodes, it, r1, r2, fuel).Success?
    ensures exists d :: 0 <= d <= fuel && FirstSeparator(nodes, it, r1, r2, d, Sink(nodes, it, r1, r2, fuel).value)
    decreases fuel
  {
    if Separates(nodes, it, r1, r2) == Success(true) {
      assert FirstSeparator(nodes, it, r1, r2, 0, it);
    } else {
      SinkStep(nodes, it, r1, r2, fuel);
      var next := nodes[it.index].left;
      SinkFindsFirst(nodes, next, r1, r2, fuel - 1);
      var found := Sink(nodes, next, r1, r2, fuel - 1).value;
      var d :| 0 <= d <= fuel - 1 && FirstSeparator(nodes, next, r1, r2, d, found);
      FirstSeparatorShift(nodes, it, r1, r2, d, found);
    }
  }

  /** A node that does not separate the relations, above the first one below it that does. */
  lemma FirstSeparatorShift(nodes: Nodes, it: Ptr, r1: Ptr, r2: Ptr, d: nat, found: Ptr)
    requires Live(nodes, it) && Separates(nodes, it, r1, r2) == Success(false)
    requires FirstSeparator(nodes, nodes[it.index].left, r1, r2, d, found)
    ensures FirstSeparator(nodes, it, r1, r2, d + 1, found)
  {
    LeftAtShift(nodes, it, d);
    forall e | 0 <= e < d + 1
      ensures Separates(nodes, LeftAt(nodes, it, e), r1, r2) == Success(false)
    {
      if e > 0 {
        LeftAtShift(nodes, it, e - 1);
      }
    }
  }

  /** A search that goes on past `it` is the search from `it`'s left child. */
  lemma SinkStep(nodes: Nodes, it: Ptr, r1: Ptr, r2: Ptr, fuel: nat)
    requires Sink(nodes, it, r1, r2, fuel).Success? && Separates(nodes, it, r1, r2) != Success(true)
    ensures Live(nodes, it) && fuel > 0 && Separates(nodes, it, r1, r2) == Success(false)
    ensures Sink(nodes, nodes[it.index].left, r1, r2, fuel - 1) == Sink(nodes, it, r1, r2, fuel)
  {
  }

  /** `target` is `d` steps down the left spine from `it`, and no node above it separates the relations. */
  predicate FirstSeparator(nodes: Nodes, it: Ptr, r1: Ptr, r2: Ptr, d: nat, target: Ptr)
  {
    LeftAt(nodes, it, d) == target
    && forall e :: 0 <= e < d ==> Separates(nodes, LeftAt(nodes, it, e), r1, r2) == Success(false)
  }

  /** A step down the left spine first, then `d` more. */
  lemma {:induction false} LeftAtShift(nodes: Nodes, p: Ptr, d: nat)
    requires Live(nodes, p)
    ensures LeftAt(nodes, p, d + 1) == LeftAt(nodes, nodes[p.index].left, d)
    decreases d
  {
    if d > 0 {
      LeftAtShift(nodes, p, d - 1);
    }
  }

  /**
   * After hanging `k` above `it`, `k` has `it` as left child and `it` has
   * `k` as parent; when the two differ, `k` takes `it`'s old parent `p`,
   * and when `p` is not `k`, `p` holds `k` on the left.  `k`'s right child
   * is kept.
   */
  lemma HangAboveLinks(nodes: Nodes, it: nat, k: nat)
    requires it < |nodes| && k < |nodes| && HangAbove(nodes, it, k).Success?
    ensures var h := HangAbove(nodes, it, k).value; var p := nodes[it].parent;
      h[k].left == Ref(it) && h[it].parent == Ref(k) && h[k].right == nodes[k].right
      && (k != it ==> h[k].parent == p)
      && (k != it && p != Ref(k) ==> h[p.index].left == Ref(k))
      && (forall j :: 0 <= j < |nodes| && j != k && j != it && Ref(j) != p ==> h[j] == nodes[j])
  {
  }

  /**
   * A join selection that is buried ends directly above a node that
   * separates the relations of its first condition in the arena with the
   * selection cut out; it keeps its condition and its right child.
   */
  lemma PushJoinLands(nodes: Nodes, schema: seq<Relation>, rels: seq<Relation>, leaves: seq<nat>, root: Ptr, k: nat)
    requires Ref(k) != root && k < |nodes| && nodes[k].content.SelectionContent?
    requires var cs := nodes[k].content.selection.conditions; |cs| > 0 && JoinCondition(schema, cs[0])
    requires Push(nodes, schema, rels, leaves, root, k).Success?
    ensures var h := Push(nodes, schema, rels, leaves, root, k).value;
      var b := Cut(nodes, k).value;
      var c := nodes[k].content.selection.conditions[0];
      var r1 := RelationFor(b, rels, AsAttribute(c.left), leaves).value;
      var r2 := RelationFor(b, rels, AsAttribute(c.right), leaves).value;
      Live(h, h[k].left) && h[h[k].left.index].parent == Ref(k)
      && Separates(b, h[k].left, r1, r2) == Success(true)
      && h[k].content == nodes[k].content && h[k].right == nodes[k].right
  {
    var b := Cut(nodes, k).value;
    var c := nodes[k].content.selection.conditions[0];
    var r1 := RelationFor(b, rels, AsAttribute(c.left), leaves).value;
    var r2 := RelationFor(b, rels, AsAttribute(c.right), leaves).value;
    var it := Sink(b, b[k].left, r1, r2, |b|).value;
    HangAboveLinks(b, it.index, k);
  }

  /**
   * A selection other than a join that is buried ends directly above the
   * relation of its condition's left side or, when that is not found, of
   * its right side, in the arena with the selection cut out: it takes that
   * relation as left child and the relation's parent as its own parent,
   * the parent holds it on the side that held the relation, and nothing
   * else moves.  When neither side's relation is found the selection stays
   * cut out.
   */
  lemma PushNonJoinLands(nodes: Nodes, schema: seq<Relation>, rels: seq<Relation>, leaves: seq<nat>, root: Ptr, k: nat)
    requires Ref(k) != root && k < |nodes| && nodes[k].content.SelectionContent?
    requires var cs := nodes[k].content.selection.conditions; |cs| > 0 && !JoinCondition(schema, cs[0])
    requires Push(nodes, schema, rels, leaves, root, k).Success?
    ensures var h := Push(nodes, schema, rels, leaves, root, k).value;
      var b := Cut(nodes, k).value;
      var c := nodes[k].content.selection.conditions[0];
      var r1 := RelationFor(b, rels, AsAttribute(c.left), leaves).value;
      var r2 := RelationFor(b, rels, AsAttribute(c.right), leaves).value;
      var rel := if r1 != Null then r1 else r2;
      (rel == Null ==> h == b)
      && (rel != Null ==> Live(b, rel) && Live(b, b[rel.index].parent))
      && (rel != Null && rel.index != k && b[rel.index].parent != Ref(k) && b[rel.index].parent != rel ==>
            var l := rel.index;
            var p := b[l].parent.index;
            h[k].left == rel && h[k].parent == Ref(p) && h[l].parent == Ref(k)
            && (if b[p].left == rel then h[p].left == Ref(k) else h[p].right == Ref(k))
            && h[k].content == nodes[k].content && h[k].right == b[k].right
            && (forall j :: 0 <= j < |b| && j != k && j != l && j != p ==> h[j] == b[j]))
  {
    var b := Cut(nodes, k).value;
    var c := nodes[k].content.selection.conditions[0];
    var r1 := RelationFor(b, rels, AsAttribute(c.left), leaves).value;
    var r2 := RelationFor(b, rels, AsAttribute(c.right), leaves).value;
    var rel := if r1 != Null then r1 else r2;
    if rel != Null && rel.index != k && b[rel.index].parent != Ref(k) && b[rel.index].parent != rel {
      BeneathShape(b, rel.index, k);
    }
  }

  /**
   * A selection other than a join put above relation node `l`, all three
   * of `l`, its parent `p` and the selection `k` different: `k` takes `l`
   * as left child and `p` as parent, `l` takes `k` as parent, and `p`
   * holds `k` where it held `l`; nothing else changes.
   */
  lemma BeneathShape(nodes: Nodes, l: nat, k: nat)
    requires l < |nodes| && k < |nodes| && l != k
    requires Live(nodes, nodes[l].parent) && nodes[l].parent != Ref(k) && nodes[l].parent != Ref(l)
    ensures var p := nodes[l].parent.index;
      var side := if nodes[p].left == Ref(l) then LeftField else RightField;
      Beneath(nodes, Ref(l), k) == Success(
        nodes[k := nodes[k].(parent := Ref(p), left := Ref(l))]
             [p := Rewire(nodes[p], side, Ref(k))]
             [l := nodes[l].(parent := Ref(k))])
  {
    var p := nodes[l].parent.index;
    InsertAboveShape(nodes, l, k, if nodes[p].left == Ref(l) then LeftField else RightField);
  }

  /**
   * Seeding succeeds exactly when no relation leaf is listed twice, and
   * then the dictionary holds every leaf, in order, at zero.
   */
  lemma {:induction false} SeedMeans(leaves: seq<nat>, i: nat, rs: Ranks)
    requires i <= |leaves| && |rs| == i
    requires forall e :: 0 <= e < |rs| ==> rs[e] == (leaves[e], 0)
    requires forall e, f :: 0 <= e < f < i ==> leaves[e] != leaves[f]
    ensures Seed(leaves, i, rs).Success? <==> forall e, f :: 0 <= e < f < |leaves| ==> leaves[e] != leaves[f]
    ensures Seed(leaves, i, rs).Success? ==>
      |Seed(leaves, i, rs).value| == |leaves| && forall e :: 0 <= e < |leaves| ==> Seed(leaves, i, rs).value[e] == (leaves[e], 0)
    decreases |leaves| - i
  {
    if i < |leaves| {
      if HasKey(rs, leaves[i]) {
        var e :| 0 <= e < |rs| && rs[e].0 == leaves[i];
        assert leaves[e] == leaves[i];
      } else {
        var next := rs + [(leaves[i], 0)];
        assert forall e :: 0 <= e < i ==> leaves[e] != leaves[i] by {
          forall e | 0 <= e < i ensures leaves[e] != leaves[i] {
            assert rs[e].0 == leaves[e];
          }
        }
        SeedMeans(leaves, i + 1, next);
      }
    }
  }

  /** Counting keeps the dictionary's keys and their order. */
  lemma {:induction false} CountKeepsKeys(nodes: Nodes, schema: seq<Relation>, rels: seq<Relation>, sels: seq<nat>, leaves: seq<nat>, i: nat, rs: Ranks)
    requires Count(nodes, schema, rels, sels, leaves, i, rs).Success?
    ensures Keys(Count(nodes, schema, rels, sels, leaves, i, rs).value) == Keys(rs)
    decreases |sels| - i
  {
    if i < |sels| {
      var cs := Conds(nodes, sels[i]);
      if !JoinCondition(schema, cs[0]) {
        CountKeepsKeys(nodes, schema, rels, sels, leaves, i + 1, rs);
      } else {
        var relation1 := RelationFor(nodes, rels, AsAttribute(cs[0].left), leaves).value;
        var relation2 := RelationFor(nodes, rels, AsAttribute(cs[0].right), leaves).value;
        var a := Bump(rs, relation1).value;
        var b := Bump(a, relation2).value;
        assert Keys(a) == Keys(rs);
        assert Keys(b) == Keys(a);
        CountKeepsKeys(nodes, schema, rels, sels, leaves, i + 1, b);
      }
    }
  }

  // ---------------------------------------------------------------- the loops that only read

  /** The two innermost loops of the duplicate search for one pair of selections. */
  method ConditionsMatch(cs1: seq<Condition>, cs2: seq<Condition>) returns (r: Result<bool>)
    ensures r == SelectionsMatch(cs1, cs2)
  {
    var matched := false;
    for a := 0 to |cs1|
      invariant |cs2| > 0 ==> forall a' :: 0 <= a' < a ==> !NullSided(cs1[a'])
      invariant a > 0 ==> forall b :: 0 <= b < |cs2| ==> !NullSided(cs2[b])
      invariant matched <==> exists a', b :: 0 <= a' < a && 0 <= b < |cs2| && SidesMatch(cs1[a'], cs2[b])
    {
      for b := 0 to |cs2|
        invariant b > 0 ==> !NullSided(cs1[a])
        invariant forall b' :: 0 <= b' < b ==> !NullSided(cs2[b'])
        invariant matched <==> (exists a', b' :: 0 <= a' < a && 0 <= b' < |cs2| && SidesMatch(cs1[a'], cs2[b']))
                               || (exists b' :: 0 <= b' < b && SidesMatch(cs1[a], cs2[b']))
      {
        if NullSided(cs1[a]) || NullSided(cs2[b]) {
          return Failure(RuntimeBinder);
        }
        if SidesMatch(cs1[a], cs2[b]) {
          matched := true;
        }
      }
    }
    return Success(matched);
  }

  /** The loop over `j` of the duplicate search for the selection at position `i`. */
  method FindInRow(nodes: Nodes, sels: seq<nat>, i: nat, acc: seq<(nat, nat)>) returns (r: Result<seq<(nat, nat)>>)
    requires i < |sels|
    ensures r == DupRow(nodes, sels, i, i + 1, acc)
  {
    var found := acc;
    var j := i + 1;
    r := Success(acc);
    while j < |sels| && r.Success?
      invariant i + 1 <= j <= |sels|
      invariant r.Success? ==> r.value == found
      invariant r.Success? ==> DupRow(nodes, sels, i, i + 1, acc) == DupRow(nodes, sels, i, j, found)
      invariant r.Failure? ==> DupRow(nodes, sels, i, i + 1, acc) == r
      decreases |sels| - j
    {
      r := CompareAt(nodes, sels, i, j, found);
      found := if r.Success? then r.value else found;
      j := j + 1;
    }
    if r.Success? {
      DupRowDone(nodes, sels, i, j, found);
    }
  }

  /** One round of the loop over `j`: the pair is recorded when the two selections match. */
  method CompareAt(nodes: Nodes, sels: seq<nat>, i: nat, j: nat, found: seq<(nat, nat)>) returns (r: Result<seq<(nat, nat)>>)
    requires i < |sels| && j < |sels|
    ensures r.Failure? ==> DupRow(nodes, sels, i, j, found) == r
    ensures r.Success? ==> DupRow(nodes, sels, i, j, found) == DupRow(nodes, sels, i, j + 1, r.value)
  {
    DupRowStep(nodes, sels, i, j, found);
    var m := ConditionsMatch(Conds(nodes, sels[i]), Conds(nodes, sels[j]));
    if m.Failure? {
      return Failure(m.error);
    }
    var next := found;
    if m.value && (sels[i], sels[j]) !in found {
      next := found + [(sels[i], sels[j])];
    }
    assert next == Record(found, (sels[i], sels[j]), m.value);
    return Success(next);
  }

  /** The duplicate search: every later selection compared with each selection. */
  method FindDuplicates(nodes: Nodes, sels: seq<nat>) returns (r: Result<seq<(nat, nat)>>)
    ensures r == Duplicates(nodes, sels)
  {
    var found := [];
    if |sels| > 1 {
      for i := 0 to |sels|
        invariant Duplicates(nodes, sels) == DupScan(nodes, sels, i, found)
      {
        var row := FindInRow(nodes, sels, i, found);
        if row.Failure? {
          return Failure(row.error);
        }
        found := row.value;
      }
    }
    return Success(found);
  }

  /** A ranking of zero for every relation leaf. */
  method SeedRankings(leaves: seq<nat>) returns (r: Result<Ranks>)
    ensures r == Seed(leaves, 0, [])
  {
    var rs: Ranks := [];
    for i := 0 to |leaves|
      invariant Seed(leaves, 0, []) == Seed(leaves, i, rs)
    {
      if HasKey(rs, leaves[i]) {
        return Failure(DuplicateKey);
      }
      rs := rs + [(leaves[i], 0)];
    }
    return Success(rs);
  }

  /** The counting loop over the join selections. */
  method CountRankings(nodes: Nodes, schema: seq<Relation>, rels: seq<Relation>, sels: seq<nat>, leaves: seq<nat>, seeded: Ranks)
    returns (r: Result<Ranks>)
    ensures r == Count(nodes, schema, rels, sels, leaves, 0, seeded)
  {
    var rs := seeded;
    for i := 0 to |sels|
      invariant Count(nodes, schema, rels, sels, leaves, 0, seeded) == Count(nodes, schema, rels, sels, leaves, i, rs)
    {
      var cs := Conds(nodes, sels[i]);
      if |cs| == 0 {
        return Failure(NoElements);
      }
      var isJoin := IsJoinCondition(schema, cs[0]);
      if isJoin {
        var relation1 := GetRelationForAttribute(nodes, rels, AsAttribute(cs[0].left), leaves);
        if relation1.Failure? {
          return Failure(relation1.error);
        }
        var relation2 := GetRelationForAttribute(nodes, rels, AsAttribute(cs[0].right), leaves);
        if relation2.Failure? {
          return Failure(relation2.error);
        }
        var a := Bump(rs, relation1.value);
        if a.Failure? {
          return Failure(a.error);
        }
        var b := Bump(a.value, relation2.value);
        if b.Failure? {
          return Failure(b.error);
        }
        rs := b.value;
      }
    }
    return Success(rs);
  }

  /** The search loop of a join selection: down the left spine to the first node that separates the relations. */
  method FindSeparator(nodes: Nodes, it: Ptr, r1: Ptr, r2: Ptr) returns (r: Result<Ptr>)
    ensures r == Sink(nodes, it, r1, r2, |nodes|)
  {
    var iter := it;
    var steps: nat := |nodes|;
    while true
      invariant Sink(nodes, it, r1, r2, |nodes|) == Sink(nodes, iter, r1, r2, steps)
      decreases steps
    {
      var sep := Separates(nodes, iter, r1, r2);
      if sep.Failure? {
        return Failure(sep.error);
      }
      if sep.value {
        return Success(iter);
      }
      if steps == 0 {
        return Failure(Diverges);
      }
      SinkPasses(nodes, iter, r1, r2, steps);
      iter, steps := nodes[iter.index].left, steps - 1;
    }
  }

  /** A node that does not separate the relations passes the search on to its left child. */
  lemma SinkPasses(nodes: Nodes, it: Ptr, r1: Ptr, r2: Ptr, fuel: nat)
    requires Separates(nodes, it, r1, r2) == Success(false) && fuel > 0
    ensures Live(nodes, it) && Sink(nodes, it, r1, r2, fuel) == Sink(nodes, nodes[it.index].left, r1, r2, fuel - 1)
  {
  }

  // ---------------------------------------------------------------- the methods on the arena

  /** A method that also moves the root and the selection list ended as the specification says. */
  predicate Reaches(o: Outcome, spec: Result<Stage>, after: Stage)
  {
    (o.Pass? <==> spec.Success?)
    && (o.Pass? ==> after == spec.value)
    && (o.Fail? ==> spec.Failure? && o.error == spec.error)
  }

  /** A method returning a root ended as the specification says. */
  predicate Yields(o: Outcome, spec: Result<(Nodes, Ptr)>, after: Nodes, root: Ptr)
  {
    (o.Pass? <==> spec.Success?)
    && (o.Pass? ==> spec.value == (after, root))
    && (o.Fail? ==> spec.Failure? && o.error == spec.error)
  }

  /** One turn of the removal loop. */
  method DropPair(heap: NodeHeap, root: Ptr, sels: seq<nat>, pair: (nat, nat)) returns (o: Outcome, newRoot: Ptr, newSels: seq<nat>)
    requires heap.Valid()
    modifies heap
    ensures heap.Valid()
    ensures Reaches(o, Drop(Stage(old(heap.nodes), root, sels), pair), Stage(heap.nodes, newRoot, newSels))
  {
    newRoot, newSels := root, sels;
    if Ref(pair.0) == root || Ref(pair.1) == root {
      if !Live(heap.nodes, root) {
        return Fail(NullReference), root, sels;
      }
      var child := heap.nodes[root.index].left;
      if !Live(heap.nodes, child) {
        return Fail(NullReference), root, sels;
      }
      heap.Assign(child, LeftField, Null);
      child := heap.nodes[root.index].left;
      if !Live(heap.nodes, child) {
        return Fail(NullReference), root, sels;
      }
      heap.Assign(child, ParentField, Null);
      newSels := RemoveFirst(sels, root.index);
      newRoot := heap.nodes[root.index].left;
    } else {
      var k := pair.0;
      if !Live(heap.nodes, Ref(k)) {
        return Fail(NullReference), root, sels;
      }
      var x := heap.nodes[k];
      if !Live(heap.nodes, x.left) {
        return Fail(NullReference), root, sels;
      }
      heap.Assign(x.left, ParentField, x.parent);
      heap.Assign(Ref(k), ParentField, heap.nodes[k].left);
      newSels := RemoveFirst(sels, k);
    }
    return Pass, newRoot, newSels;
  }

  /** The removal loop over the duplicate pairs. */
  method RemoveDuplicates(heap: NodeHeap, root: Ptr, sels: seq<nat>, dups: seq<(nat, nat)>) returns (o: Outcome, newRoot: Ptr, newSels: seq<nat>)
    requires heap.Valid()
    modifies heap
    ensures heap.Valid()
    ensures Reaches(o, DropAll(Stage(old(heap.nodes), root, sels), dups, 0), Stage(heap.nodes, newRoot, newSels))
  {
    ghost var start := heap.nodes;
    newRoot, newSels := root, sels;
    for i := 0 to |dups|
      invariant heap.Valid()
      invariant DropAll(Stage(start, root, sels), dups, 0) == DropAll(Stage(heap.nodes, newRoot, newSels), dups, i)
    {
      o, newRoot, newSels := DropPair(heap, newRoot, newSels, dups[i]);
      if o.Fail? {
        return;
      }
    }
    return Pass, newRoot, newSels;
  }

  /** The placement loop, with each relation's parent set to the node it hangs from. */
  method PlaceRelations(heap: NodeHeap, ord: seq<nat>, first: Ptr) returns (o: Outcome)
    requires heap.Valid()
    modifies heap
    ensures heap.Valid()
    ensures Follows(o, Placement(old(heap.nodes), ord, first), heap.nodes)
  {
    ghost var start := heap.nodes;
    var iter := first;
    var i := 0;
    while i + 1 < |ord|
      invariant heap.Valid()
      invariant Placement(start, ord, first) == PlaceFrom(heap.nodes, ord, iter, i, false)
      decreases |ord| - i
    {
      if !Live(heap.nodes, iter) {
        return Fail(NullReference);
      }
      heap.Assign(iter, RightField, Ref(ord[i]));
      if !Live(heap.nodes, Ref(ord[i])) {
        return Fail(NullReference);
      }
      heap.Assign(Ref(ord[i]), ParentField, iter);
      if i == |ord| - 2 {
        heap.Assign(iter, LeftField, Ref(ord[i + 1]));
        if !Live(heap.nodes, Ref(ord[i + 1])) {
          return Fail(NullReference);
        }
        heap.Assign(Ref(ord[i + 1]), ParentField, iter);
        return Pass;
      }
      iter := heap.nodes[iter.index].left;
      i := i + 1;
    }
    return Pass;
  }

  /** The ranking step: count, and place the leaves unless every count is the same. */
  method RankRelations(heap: NodeHeap, schema: seq<Relation>, rels: seq<Relation>, sels: seq<nat>, leaves: seq<nat>, root: Ptr)
    returns (o: Outcome)
    requires heap.Valid()
    modifies heap
    ensures heap.Valid()
    ensures Follows(o, Rank(old(heap.nodes), schema, rels, sels, leaves, root), heap.nodes)
  {
    var seeded := SeedRankings(leaves);
    if seeded.Failure? {
      return Fail(seeded.error);
    }
    var counted := CountRankings(heap.nodes, schema, rels, sels, leaves, seeded.value);
    if counted.Failure? {
      return Fail(counted.error);
    }
    if |counted.value| == 0 {
      return Fail(NoElements);
    }
    if AllEqual(counted.value) {
      return Pass;
    }
    var first := GetFirstCartesian(heap.nodes, root);
    if first.Failure? {
      return Fail(first.error);
    }
    o := PlaceRelations(heap, Keys(ByCount(counted.value)), first.value);
  }

  /** Selection `k` cut out of the tree. */
  method CutOut(heap: NodeHeap, k: nat) returns (o: Outcome)
    requires heap.Valid() && k < |heap.nodes|
    modifies heap
    ensures heap.Valid()
    ensures Follows(o, Cut(old(heap.nodes), k), heap.nodes)
  {
    var x := heap.nodes[k];
    if !Live(heap.nodes, x.parent) {
      return Fail(NullReference);
    }
    heap.Assign(x.parent, LeftField, x.left);
    var child := heap.nodes[k].left;
    if !Live(heap.nodes, child) {
      return Fail(NullReference);
    }
    heap.Assign(child, ParentField, heap.nodes[k].parent);
    return Pass;
  }

  /** A cut-out join selection `k` hung above node `it`. */
  method HangSelection(heap: NodeHeap, it: nat, k: nat) returns (o: Outcome)
    requires heap.Valid() && it < |heap.nodes| && k < |heap.nodes|
    modifies heap
    ensures heap.Valid()
    ensures Follows(o, HangAbove(old(heap.nodes), it, k), heap.nodes)
  {
    var parent := heap.nodes[it].parent;
    if !Live(heap.nodes, parent) {
      return Fail(NullReference);
    }
    heap.Assign(parent, LeftField, Ref(k));
    heap.Assign(Ref(k), ParentField, heap.nodes[it].parent);
    heap.Assign(Ref(k), LeftField, Ref(it));
    heap.Assign(Ref(it), ParentField, Ref(k));
    return Pass;
  }

  /** A cut-out selection `k` put above relation node `rel`, on the side its parent holds it. */
  method PlaceAbove(heap: NodeHeap, rel: Ptr, k: nat) returns (o: Outcome)
    requires heap.Valid()
    modifies heap
    ensures heap.Valid()
    ensures Follows(o, Beneath(old(heap.nodes), rel, k), heap.nodes)
  {
    if !Live(heap.nodes, rel) {
      return Fail(NullReference);
    }
    var parent := heap.nodes[rel.index].parent;
    if !Live(heap.nodes, parent) {
      return Fail(NullReference);
    }
    if heap.nodes[parent.index].left == rel {
      o := InsertNodeAboveLeftChild(heap, rel, Ref(k));
    } else {
      o := InsertNodeAboveRightChild(heap, rel, Ref(k));
    }
  }

  /** One turn of the burying loop. */
  method PushSelection(heap: NodeHeap, schema: seq<Relation>, rels: seq<Relation>, leaves: seq<nat>, root: Ptr, k: nat)
    returns (o: Outcome)
    requires heap.Valid()
    modifies heap
    ensures heap.Valid()
    ensures Follows(o, Push(old(heap.nodes), schema, rels, leaves, root, k), heap.nodes)
  {
    if Ref(k) == root {
      return Pass;
    }
    if !Live(heap.nodes, Ref(k)) {
      return Fail(NullReference);
    }
    var x := heap.nodes[k];
    if !x.content.SelectionContent? {
      return Fail(NullReference);
    }
    var cs := x.content.selection.conditions;
    if |cs| == 0 {
      return Fail(NoElements);
    }
    var isJoin := IsJoinCondition(schema, cs[0]);
    o := CutOut(heap, k);
    if o.Fail? {
      return;
    }
    var relation1 := GetRelationForAttribute(heap.nodes, rels, AsAttribute(cs[0].left), leaves);
    if relation1.Failure? {
      return Fail(relation1.error);
    }
    var relation2 := GetRelationForAttribute(heap.nodes, rels, AsAttribute(cs[0].right), leaves);
    if relation2.Failure? {
      return Fail(relation2.error);
    }
    if isJoin {
      var it := FindSeparator(heap.nodes, heap.nodes[k].left, relation1.value, relation2.value);
      if it.Failure? {
        return Fail(it.error);
      }
      o := HangSelection(heap, it.value.index, k);
    } else if relation1.value != Null {
      o := PlaceAbove(heap, relation1.value, k);
    } else if relation2.value != Null {
      o := PlaceAbove(heap, relation2.value, k);
    } else {
      o := Pass;
    }
  }

  /** The burying loop over the remaining selections. */
  method BuryAll(heap: NodeHeap, schema: seq<Relation>, rels: seq<Relation>, leaves: seq<nat>, root: Ptr, sels: seq<nat>)
    returns (o: Outcome)
    requires heap.Valid()
    modifies heap
    ensures heap.Valid()
    ensures Follows(o, PushAll(old(heap.nodes), schema, rels, leaves, root, sels, 0), heap.nodes)
  {
    ghost var start := heap.nodes;
    for i := 0 to |sels|
      invariant heap.Valid()
      invariant PushAll(start, schema, rels, leaves, root, sels, 0) == PushAll(heap.nodes, schema, rels, leaves, root, sels, i)
    {
      o := PushSelection(heap, schema, rels, leaves, root, sels[i]);
      if o.Fail? {
        return;
      }
    }
    return Pass;
  }

  /** `ApplyRule2` on a root that is not a set operator. */
  method ApplyPushdown(heap: NodeHeap, schema: seq<Relation>, rels: seq<Relation>, root: Ptr) returns (o: Outcome, newRoot: Ptr)
    requires heap.Valid()
    modifies heap
    ensures heap.Valid()
    ensures Yields(o, Pushdown(old(heap.nodes), schema, rels, root), heap.nodes, newRoot)
  {
    newRoot := root;
    var found := GetAllSelectionNodes(heap.nodes, root);
    if found.Failure? {
      return Fail(found.error), root;
    }
    var sels := found.value;
    var leaves := Filter(heap.nodes, GetNodesList(heap.nodes, root).value, RelationKind, Null);
    if |sels| == 0 || forall i :: 0 <= i < |sels| ==> |Conds(heap.nodes, sels[i])| == 0 {
      return Pass, root;
    }
    var dups := FindDuplicates(heap.nodes, sels);
    if dups.Failure? {
      return Fail(dups.error), root;
    }
    o, newRoot, sels := RemoveDuplicates(heap, root, sels, dups.value);
    if o.Fail? {
      return;
    }
    var joins := AnyJoin(heap.nodes, schema, sels, 0);
    if joins.Failure? {
      return Fail(joins.error), newRoot;
    }
    if joins.value {
      o := RankRelations(heap, schema, rels, sels, leaves, newRoot);
      if o.Fail? {
        return;
      }
    }
    o := BuryAll(heap, schema, rels, leaves, newRoot, sels);
  }

  /** `ApplyRule2(root)`, returning the root it ends with. */
  method ApplyRule2(heap: NodeHeap, schema: seq<Relation>, rels: seq<Relation>, root: Ptr, fuel: nat) returns (o: Outcome, newRoot: Ptr)
    requires heap.Valid()
    modifies heap
    ensures heap.Valid()
    ensures Yields(o, Rule2(old(heap.nodes), schema, rels, root, fuel), heap.nodes, newRoot)
    decreases fuel, 0
  {
    if !Live(heap.nodes, root) {
      return Fail(NullReference), root;
    }
    if heap.nodes[root.index].content.SetOpContent? {
      if fuel == 0 {
        return Fail(Diverges), root;
      }
      o, newRoot := ApplyRule2Sides(heap, schema, rels, root.index, fuel - 1);
      return;
    }
    o, newRoot := ApplyPushdown(heap, schema, rels, root);
  }

  /** `ApplyRule2(root.LeftChild); ApplyRule2(root.RightChild)` under a set-operator root. */
  method ApplyRule2Sides(heap: NodeHeap, schema: seq<Relation>, rels: seq<Relation>, root: nat, fuel: nat) returns (o: Outcome, newRoot: Ptr)
    requires heap.Valid() && root < |heap.nodes|
    modifies heap
    ensures heap.Valid()
    ensures Yields(o, Rule2Sides(old(heap.nodes), schema, rels, root, fuel), heap.nodes, newRoot)
    decreases fuel, 1
  {
    newRoot := Ref(root);
    var dropped;
    o, dropped := ApplyRule2(heap, schema, rels, heap.nodes[root].left, fuel);
    if o.Fail? {
      return;
    }
    o, dropped := ApplyRule2(heap, schema, rels, heap.nodes[root].right, fuel);
  }
}
