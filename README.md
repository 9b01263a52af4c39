# qo: a relational-algebra query optimizer, modelled in Dafny

qo reads a SQL query over a small sailors, boats and reserves catalog. It
assembles the query into select, from and where statements. It then builds
a relational-algebra query tree: a projection over a selection over a
left-deep spine of cartesian products, with one relation leaf per relation
of the from clause. Two queries joined by `union`, `intersect` or `except`
go under a set-operator root. The heuristic optimizer (`QoOptimizer`) then
rewrites the tree in place with five rules:

1. cascade a conjunctive selection into one selection per condition;
2. remove duplicate selections, reorder the relations by how many join
   conditions name them, and push every selection down to the relation it
   constrains (or, for a join condition, to the first cartesian product
   that separates its two relations);
3. order the children of set operators and cartesian products by
   restrictive weight;
4. turn a cartesian product under a selection into a join on the
   selection's first condition;
5. insert projections that keep only the attributes needed above.

After each rule a snapshot of the tree is stored in the `QoPackage`; the
first exception stops the run and its message is stored as the package's
error. The earlier revision of the optimizer (`QueryOptimizer` in
Optimizer.cs) is modelled beside it, as are the hard-coded catalog
(`Schemas.GetSchema1`), the fixture queries `GetQueryA` to `GetQueryF`,
and the string-splitting assembler of `QoParser`.

The model layout:

- `wrappers.dfy` and `text.dfy` hold Option/Result, the .NET exceptions, and
  the pieces of `System.String` and `List<T>` behaviour the code relies on.
- `query_model.dfy`, `relational_model.dfy` and `statements.dfy` hold the
  value types (attributes, relations, conditions, functions, joins,
  projections, selections, aggregates, statements, queries, multi-queries)
  and their `ToString` renderings.
- `heap.dfy` holds the node arena. Every `Node` object lives in
  `NodeHeap.nodes` at its creation position, and `Parent`, `LeftChild` and
  `RightChild` are positions in that arena. The class keeps the global id
  counter as a field.
- `tree_builder.dfy` holds `Query.GetQueryTree` and
  `MultiQuery.GetQueryTree`; `tree_queries.dfy` holds the read-only tree
  queries; `optimizer_helpers.dfy` holds the looping helpers of the
  optimizer; `rewrites.dfy` holds the shared rewiring helpers.
- `selection_cascade.dfy`, `selection_pushdown.dfy`, `weight_ordering.dfy`,
  `join_introduction.dfy` and `projection_insertion.dfy` hold rules 1 to 5.
  Each rule is a function on the arena plus a `NodeHeap` method proved
  against it. `optimization.dfy` holds `Optimize` and the `QoPackage`.
- `legacy_rules.dfy` and `legacy_optimizer.dfy` hold the older optimizer.
- `schemas.dfy` and `queries.dfy` hold the catalog and the fixtures;
  `parser.dfy` and `assembler.dfy` hold the `QoParser` assembler.

Exceptions of the C# (`Single`, null dereference, a missing dictionary key,
an index out of range, an explicit `throw`) are `Failure` results carrying a
`Fault`. A walk that the C# would repeat forever on a cyclic or unlinked
structure stops with the `Diverges` fault once its fuel is spent.

## Model

| member | source | states |
|---|---|---|
| Text.Split | Qo.Parsing/QoParser.cs:417 | String.Split at one character gives at least one piece and no piece holds the character |
| Text.SplitJoin | Qo.Parsing/QoParser.cs:417 | joining the pieces of a split with the character gives back the string |
| Text.JoinSplit | Qo.Parsing/QoParser.cs:417 | splitting pieces joined with a character they lack gives back the pieces |
| Text.SplitAny | Qo.Parsing/QoParser.cs:391 | String.Split at several separators gives at least one piece |
| Text.SplitAnyOneChar | Qo.Parsing/QoParser.cs:391 | splitting at the one-character separator c is splitting at c |
| Text.Trim | Qo.Parsing/QoParser.cs:391 | a trimmed string is no longer and neither starts nor ends with white space |
| Text.RemoveFirst | Qo.Parsing/QoParser.cs:447 | List.Remove drops exactly the first occurrence, and nothing when there is none |
| Text.ReplaceAll | Qo.Parsing/QoParser.cs:610 | a string without the old value is left as it is |
| Text.TryParseInt32 | Qo.Parsing/QueryModel/Condition.cs:37 | a parsed number comes from a text holding a digit |
| Text.IntRoundTrip | Qo.Parsing/QueryModel/Condition.cs:37 | every 32-bit integer, written out, parses back to itself |
| Text.NatToString | Qo.Parsing/QueryModel/Condition.cs:37 | a natural number is written as digits, with a leading 0 only for 0 |
| Text.DigitsRoundTrip | Qo.Parsing/QueryModel/Condition.cs:37 | the digits written for a natural number have that value |
| Text.IntToString | Qo.Parsing/QueryModel/Condition.cs:37 | an integer is written with a leading minus exactly when it is negative |
| QueryModel.Attribute.ToString | Qo.Parsing/QueryModel/Attribute.cs:23-28 | with an alias the text is alias, dot, name; without one it is the bare name |
| QueryModel.NewAttribute | Qo.Parsing/QueryModel/Attribute.cs:13-18 | a new attribute has empty alias, name and type, query number 0, and renders as the empty string |
| QueryModel.AttributeTextSplits | Qo.Parsing/QueryModel/Attribute.cs:23-28 | splitting the rendered attribute at '.' gives back its alias and its name (or only the name when there is no alias) |
| QueryModel.Relation.ToString | Qo.Parsing/QueryModel/Relation.cs:30-33 | the text is the relation's name followed by exactly one space |
| QueryModel.NewRelation | Qo.Parsing/QueryModel/Relation.cs:19-25 | a new relation has an empty name and empty attribute, key and alias lists, and renders as a single space |
| QueryModel.Function.ToString | Qo.Parsing/QueryModel/Function.cs:18-35 | the text is the type, '(' … ')': `*` for a wildcard, otherwise each attribute followed by a comma, so the comma after the last attribute stays (the Remove result is discarded) |
| QueryModel.ArgumentsText | Qo.Parsing/QueryModel/Function.cs:27-30 | the argument text is empty for no attributes and ends with a comma otherwise |
| QueryModel.OperandText | Qo.Parsing/QueryModel/Condition.cs:22-24 | the dynamic value of a side has a text exactly when it is not null; an attribute's is its rendering, a string's the string, an integer's its decimal digits, a real literal its own text, a function its rendering and any other object its display text |
| QueryModel.GetSide | Qo.Parsing/QueryModel/Condition.cs:31-69 | a string that int.TryParse reads renders as that number and a space, any other string quoted and followed by a space; an integer or real renders as its text and a space, an attribute or function as its own rendering with no space, and null and unknown objects as one space |
| QueryModel.NumericStringSide | Qo.Parsing/QueryModel/Condition.cs:33-53 | a string holding an integer's own decimal text renders exactly like that integer |
| QueryModel.OperatorSymbol | Qo.Parsing/QueryModel/Condition.cs:13-21 | each rendered comparison has a non-empty symbol without spaces |
| QueryModel.OperatorMapShape | Qo.Parsing/QueryModel/Condition.cs:13-21 | the operator map has an entry exactly for the six rendered comparisons, each entry is the symbol between two spaces, and distinct comparisons have distinct symbols |
| QueryModel.NoEntryIsTokenAndSpace | Qo.Parsing/QueryModel/Condition.cs:13-21 | no entry of the operator map is a token followed by one space, since each starts with a space |
| QueryModel.Condition.ToString | Qo.Parsing/QueryModel/Condition.cs:94-97 | rendering succeeds exactly when the operator has a map entry (otherwise the dictionary lookup throws) and is left side, entry, right side |
| QueryModel.Condition.SideAttributes | Qo.Parsing/QueryModel/Condition.cs:74-90 | the list holds one item per side that is an attribute, the left one first |
| QueryModel.NewCondition | Qo.Parsing/QueryModel/Condition.cs:22-25 | a new condition has null sides and the default comparison Equals, no side attributes, and renders as "  =  " |
| QueryModel.Join.ToString | Qo.Parsing/QueryModel/Join.cs:18-21 | rendering succeeds exactly when the condition's does and is the join symbol U+2A1D, a space, and the condition |
| QueryModel.NewJoin | Qo.Parsing/QueryModel/Join.cs:10-13 | a new join holds a new, empty condition |
| RelationalModel.Projection.ToString | Qo.Parsing/RelationalModel/Projection.cs:14-30 | no attributes render as the empty string and only then; otherwise `Π` followed by the comma-inserting loop over the attribute texts |
| RelationalModel.ProjectionTextClosedForm | Qo.Parsing/RelationalModel/Projection.cs:20-29 | the loop's result is `Π` and the attributes in order, each but the last with a comma inserted before its own last character |
| RelationalModel.SwapSides | Qo.Parsing/RelationalModel/Selection.cs:64-66 | one condition with its left and right sides exchanged, operator and query number kept |
| RelationalModel.SwapAll | Qo.Parsing/RelationalModel/Selection.cs:62-67 | every condition, in order, with its sides exchanged |
| RelationalModel.Selection.New | Qo.Parsing/RelationalModel/Selection.cs:24-28 | a new selection has no conditions and no operators and renders as the empty string |
| RelationalModel.Selection.ToString | Qo.Parsing/RelationalModel/Selection.cs:33-56 | no conditions render as the empty string; rendering fails with KeyNotFound exactly when a condition's operator or a neighbour link is missing from its map; one condition renders as `σ` and that condition; every rendering starts with `σ` |
| RelationalModel.Selection.SwapOperators | Qo.Parsing/RelationalModel/Selection.cs:60-69 | the selection keeps its operators and number of conditions, and each condition has its sides exchanged and its comparison kept |
| RelationalModel.SwapOperatorsTwice | Qo.Parsing/RelationalModel/Selection.cs:60-69 | exchanging the sides twice gives back the original selection |
| RelationalModel.SwapOperatorsKeepsRendering | Qo.Parsing/RelationalModel/Selection.cs:33-69 | a selection renders after the exchange exactly when it rendered before |
| RelationalModel.SelectionAllAnd | Qo.Parsing/RelationalModel/Selection.cs:39-53 | a selection whose neighbours are all linked by AND renders as `σ` and the condition texts joined by "AND " |
| RelationalModel.ItemTexts | Qo.Parsing/RelationalModel/Aggregate.cs:28-39 | one text per aggregate item, in order: an attribute's or function's rendering, nothing for any other object |
| RelationalModel.SeparatedPrefixJoin | Qo.Parsing/RelationalModel/Aggregate.cs:28-44 | before the last round the loop has produced the texts so far joined by ", " plus one more ", " |
| RelationalModel.SeparatedPrefixFull | Qo.Parsing/RelationalModel/Aggregate.cs:28-45 | after the last round the loop has produced the texts joined by ", " with no trailing separator |
| RelationalModel.SeparatedText | Qo.Parsing/RelationalModel/Aggregate.cs:25-46 | the loop's text is the item texts joined by ", " |
| RelationalModel.Aggregate.AttributeString | Qo.Parsing/RelationalModel/Aggregate.cs:25-46 | the aggregated items' texts joined by ", " |
| RelationalModel.Aggregate.GroupingsString | Qo.Parsing/RelationalModel/Aggregate.cs:48-69 | the groupings' texts joined by ", " |
| RelationalModel.Aggregate.ToString | Qo.Parsing/RelationalModel/Aggregate.cs:16-23 | empty without aggregated items; otherwise the groupings and the items, each joined by ", ", as HTML subscripts around the symbol U+2131 |
| RelationalModel.SilentItemKeepsSeparator | Qo.Parsing/RelationalModel/Aggregate.cs:30-43 | an item that is neither attribute nor function adds no text but still gets its ", " separator |
| Statements.CommaFold | Qo.Parsing/QueryModel/SelectStatement.cs:27-36 | the shared rendering loop: its text is as long as the start, the items and one comma between each two items |
| Statements.CommaFoldKeepsStart | Qo.Parsing/QueryModel/SelectStatement.cs:27-36 | the loop never changes the start's text before its last character (so `select` and `from` stay at the front) |
| Statements.CommaFoldClosedForm | Qo.Parsing/QueryModel/SelectStatement.cs:29-34 | the loop's text is the start followed by the items, each but the last with a comma before its own last character |
| Statements.MarkedSpaced | Qo.Parsing/QueryModel/FromStatement.cs:29-34 | for items that each end in a space, the comma lands right after the name: the names joined by ", ", then a space |
| Statements.Spaced | Qo.Parsing/QueryModel/Relation.cs:30-33 | each relation name followed by the one space its ToString adds |
| Statements.AttributeTexts | Qo.Parsing/QueryModel/SelectStatement.cs:31 | the rendering of each attribute, in order |
| Statements.SelectStatement.ToString | Qo.Parsing/QueryModel/SelectStatement.cs:21-37 | empty exactly when there are no attributes; otherwise `select ` followed by the comma-inserting loop over the attribute texts |
| Statements.SelectTextClosedForm | Qo.Parsing/QueryModel/SelectStatement.cs:21-37 | a select list renders as `select ` and the attributes, each but the last with a comma before its last character |
| Statements.FromStatement.Names | Qo.Parsing/QueryModel/FromStatement.cs:11 | the names of the listed relations, in order |
| Statements.FromStatement.ToString | Qo.Parsing/QueryModel/FromStatement.cs:21-37 | empty exactly when there are no relations; otherwise `from ` followed by the loop over the relation texts (name and space) |
| Statements.FromTextNames | Qo.Parsing/QueryModel/FromStatement.cs:21-37 | a from list renders as `from `, the relation names joined by ", ", and a final space |
| Statements.OperandTexts | Qo.Parsing/QueryModel/GroupByStatement.cs:31 | the dynamic ToString of every item succeeds exactly when none is null (null throws a runtime binder exception), giving each item's text |
| Statements.GroupByStatement.ToString | Qo.Parsing/QueryModel/GroupByStatement.cs:21-37 | empty without items; fails exactly when an item is null; otherwise the select-list loop over the item texts, so it too starts with `select` |
| Statements.ChainText | Qo.Parsing/QueryModel/WhereStatement.cs:43-50 | the chain of the first n conditions renders exactly when each has a mapped comparison and each neighbour pair has a link; otherwise KeyNotFound |
| Statements.ChainUniform | Qo.Parsing/QueryModel/WhereStatement.cs:43-50 | a chain whose links are all the same operator is the condition texts joined by that operator's word |
| Statements.WhereStatement.ToString | Qo.Parsing/QueryModel/WhereStatement.cs:30-53 | empty without conditions; succeeds exactly when every comparison and every neighbour link is mapped (else KeyNotFound); a rendering starts with `where ` |
| Statements.WhereAllAnd | Qo.Parsing/QueryModel/WhereStatement.cs:30-53 | conditions all linked by AND render as `where ` and their texts joined by "and " |
| Statements.Query.New | Qo.Parsing/QueryModel/Query.cs:16-21 | a new query has empty select, from and where statements |
| Statements.Query.ToString | Qo.Parsing/QueryModel/Query.cs:26-35 | succeeds exactly when the where clause renders, and is the three statement texts each followed by a line break |
| Statements.EmptyQueryText | Qo.Parsing/QueryModel/Query.cs:26-35 | an empty query renders as three empty lines |
| Statements.SetOperatorWord | Qo.Parsing/QueryModel/MultiQuery.cs:13-18 | only union, intersect and except have a word in the operator map |
| Statements.Lookup | Qo.Parsing/QueryModel/MultiQuery.cs:22 | a dictionary read: absent exactly when no entry has the key, otherwise the value of an entry with that key |
| Statements.QueryChain | Qo.Parsing/QueryModel/MultiQuery.cs:41-50 | the first n queries render exactly when each renders and each neighbour pair is joined by an operator that has a word; otherwise KeyNotFound |
| Statements.MultiQuery.ToString | Qo.Parsing/QueryModel/MultiQuery.cs:30-51 | empty without queries, the one query's own text for one, else succeeds exactly when all queries render and all neighbours are joined by worded operators |
| Statements.CartesianQueriesFail | Qo.Parsing/QueryModel/MultiQuery.cs:13-18 | two neighbouring queries joined by a cartesian product make the rendering throw, since that operator has no word |
| Heap.Get | Qo.Parsing/RelationalModel/Node.cs:23-25 | dereferencing succeeds exactly on a live reference and yields that node; null throws a null reference error |
| Heap.Rewire | Qo.Parsing/RelationalModel/Node.cs:23-25 | setting one of Parent, LeftChild, RightChild changes that reference only and keeps id and content |
| Heap.Write | Qo.Parsing/RelationalModel/Node.cs:23-25 | a reference assignment through a live node succeeds and keeps the arena size; through null it throws |
| Heap.Alloc | Qo.Parsing/RelationalModel/Node.cs:30-33 | a new node goes at the end of the arena, leaves older nodes untouched, and its id is the incremented counter in decimal |
| Heap.AllocKeepsIds | Qo.Parsing/RelationalModel/Node.cs:49-53 | after creating a node every id is still the counter value at that node's creation |
| Heap.UpdateKeepsIds | Qo.Parsing/RelationalModel/Node.cs:28 | `Id` has a private setter: replacing a node with one of the same id keeps all ids in step with the counter |
| Heap.IdsIncrease | Qo.Parsing/RelationalModel/Node.cs:49-53 | ids of nodes made at different times differ, and a later node's id is numerically larger |
| Heap.NodeHeap.constructor | Qo.Parsing/RelationalModel/Node.cs:13 | the arena starts empty with the static counter at zero |
| Heap.NodeHeap.NewNode | Qo.Parsing/RelationalModel/Node.cs:30-33 | `new Node()` appends the node, returns a live reference to it and moves the counter on by one, keeping ids in step |
| Heap.NodeHeap.Clear | Qo.Parsing/RelationalModel/Node.cs:57-62 | on a live node the three references become null and nothing else changes; on null it throws and the arena is unchanged |
| Heap.NodeHeap.Assign | Qo.Parsing/RelationalModel/Node.cs:23-25 | assigning one reference of a live node changes only that reference of that node |
| Heap.NodeHeap.Store | Qo.Parsing/RelationalModel/Node.cs:27 | assigning `Content` of a live node changes only that node's content |
| Heap.ClearKeepsIdAndContent | Qo.Parsing/RelationalModel/Node.cs:57-62 | the cleared node keeps its id and content, has no references, and every other node is unchanged |
| Heap.RelationOf | Qo.Parsing/RelationalModel/Node.cs:121-124 | a relation leaf resolves exactly when its catalog position exists, to that catalog entry |
| Heap.SetOperatorGlyph | Qo.Parsing/RelationalModel/Node.cs:14-21 | every set operator maps to a three-character glyph with a space on both sides |
| Heap.GlyphsDistinct | Qo.Parsing/RelationalModel/Node.cs:14-21 | the set-operator map is injective: distinct operators have distinct glyphs |
| Heap.ContentString | Qo.Parsing/RelationalModel/Node.cs:38-45 | no content gives the empty string, a set operator its glyph, any other content its own text |
| Heap.GetContentString | Qo.Parsing/RelationalModel/Node.cs:38-45 | on a live node it is that node's content string; on null it throws |
| Heap.NodeText | Qo.Parsing/RelationalModel/Node.cs:103-143 | no content or join content renders empty; a projection or selection without a left child throws; a path longer than the arena diverges |
| Heap.ChildText | Qo.Parsing/RelationalModel/Node.cs:135 | a null child concatenates as nothing |
| Heap.TreeText | Qo.Parsing/RelationalModel/Node.cs:103-143 | `ToString` on null throws |
| Heap.SetOperatorText | Qo.Parsing/RelationalModel/Node.cs:133-136 | a set operator renders as its left child's text and right child's text around its glyph, in parentheses |
| Heap.SelectionNodeText | Qo.Parsing/RelationalModel/Node.cs:129-132 | a selection node renders iff its conditions and its left child render, and the text is the selection's followed by the child's |
| Heap.CleanLabel | Qo.Parsing/RelationalModel/Node.cs:69-91 | a relation is named by its name, with the first alias as subscript exactly when it has aliases; a set operator is named by its glyph; other contents leave name and subscript unset |
| Heap.CleanTree | Qo.Parsing/RelationalModel/Node.cs:66-99 | a snapshot has one child per non-null child reference, never a pre-subscript, and diverges when the path outruns the fuel |
| Heap.CleanChild | Qo.Parsing/RelationalModel/Node.cs:94-95 | a null child adds no snapshot, a live one exactly one |
| Heap.GetCleanNode | Qo.Parsing/RelationalModel/Node.cs:66-99 | `GetCleanNode` on null throws |
| Heap.CleanChildrenOrder | Qo.Parsing/RelationalModel/Node.cs:93-96 | with both children present the snapshot's children are the left snapshot then the right snapshot |
| TreeBuilder.Built | Qo.Parsing/QueryModel/Query.cs:40-92 | the layout `GetQueryTree` creates: as many nodes as the FROM list calls for, each at its fixed offset |
| TreeBuilder.SpineStep | Qo.Parsing/QueryModel/Query.cs:70-87 | one loop round hangs a leaf for relation i on the right of the cursor and, below it on the left, the first relation's leaf (i = 1) or a new cartesian, then moves the cursor down |
| TreeBuilder.SpineAdvance | Qo.Parsing/QueryModel/Query.cs:70-87 | one loop round extends the partial layout by exactly two nodes |
| TreeBuilder.SpineLoop | Qo.Parsing/QueryModel/Query.cs:69-88 | the descending loop from the last relation to the second completes exactly the layout `Built` |
| TreeBuilder.QueryTree | Qo.Parsing/QueryModel/Query.cs:40-92 | with exactly one relation the call throws (it reads the Parent of a null child); otherwise it returns the projection node, and the arena grows by exactly the layout `Built` |
| TreeBuilder.QueryTreeTop | Qo.Parsing/QueryModel/Query.cs:42-54 | the root is a parentless projection over the SELECT attributes, its only child a selection carrying the WHERE conditions and operators; with no relations the selection's child is a lone cartesian |
| TreeBuilder.QueryTreeCartesians | Qo.Parsing/QueryModel/Query.cs:63-88 | with n >= 2 relations exactly n - 1 nodes are cartesians, forming a left-deep chain; every other node below the selection is a relation leaf |
| TreeBuilder.ForkNode | Qo.Parsing/QueryModel/Query.cs:71-85 | each cartesian of the spine has its right leaf one position on and its left child two positions on |
| TreeBuilder.ForkLeaf | Qo.Parsing/QueryModel/Query.cs:71-72 | the right leaf of the j-th cartesian holds the relation j places from the end of the FROM list |
| TreeBuilder.LastLeaf | Qo.Parsing/QueryModel/Query.cs:74-78 | the first FROM relation is the left leaf of the last cartesian |
| TreeBuilder.QueryTreeConsistentAt | Qo.Parsing/QueryModel/Query.cs:48-88 | each built node's Parent and children agree |
| TreeBuilder.QueryTreeConsistent | Qo.Parsing/QueryModel/Query.cs:48-88 | the whole built tree is consistent: every child's Parent is the node pointing to it |
| TreeBuilder.SpineLeaves | Qo.Parsing/QueryModel/Query.cs:69-88 | below the j-th cartesian lie the first n - j FROM relations, in order |
| TreeBuilder.QueryTreeLeaves | Qo.Parsing/QueryModel/Query.cs:40-92 | reading the built tree's leaves left to right gives back the FROM relations in their order |
| TreeBuilder.MultiQueryTree | Qo.Parsing/QueryModel/MultiQuery.cs:56-69 | no queries: a fresh empty node; no operators: the first query's tree; otherwise the first operator over the first two query trees, failing exactly when a second query is missing (index error) or a query has one relation |
| TreeBuilder.MultiQueryOrphans | Qo.Parsing/QueryModel/MultiQuery.cs:64-66 | in a two-query tree the root's children are the two projections, but their Parent stays null, so the root is not consistent with its children |
| TreeQueries.Listing | Qo.Parsing/QoOptimizer.cs:451-465 | a listing from a live node starts with that node; from null it is empty |
| TreeQueries.ListingInHeap | Qo.Parsing/QoOptimizer.cs:451-465 | every node a listing names is a node of the arena |
| TreeQueries.ListingJoins | Qo.Parsing/QoOptimizer.cs:455-462 | the listing is the node, then its left subtree's listing, then its right subtree's (pre-order) |
| TreeQueries.GetNodesList | Qo.Parsing/QoOptimizer.cs:451-465 | null throws; a cycle of child links diverges; otherwise a non-empty pre-order listing that starts at the node and names only arena nodes |
| TreeQueries.FilterMembers | Qo.Parsing/QoOptimizer.cs:687-702 | a node is in the filtered listing exactly when it is in the listing and of the kind asked |
| TreeQueries.FilterAppend | Qo.Parsing/QoOptimizer.cs:687-702 | filtering distributes over concatenation, so the order of the listing is kept |
| TreeQueries.Gathered | Qo.Parsing/QoOptimizer.cs:687-702 | the recursive gathering keeps only nodes of the asked kind |
| TreeQueries.GatheredIsFiltered | Qo.Parsing/QoOptimizer.cs:687-702 | gathering recursively equals filtering the pre-order listing |
| TreeQueries.CollectFrom | Qo.Parsing/QoOptimizer.cs:687-702 | a `GetAll*Nodes` call succeeds exactly when `GetNodesList` does, throws on null, and returns only nodes of its kind |
| TreeQueries.ListingMembers | Qo.Parsing/QoOptimizer.cs:687-757 | each `GetAll*Nodes` listing holds exactly the pre-order nodes of its kind (minus the excluded root), in pre-order |
| TreeQueries.GetAllCartesianProductNodes | Qo.Parsing/QoOptimizer.cs:687-702 | null throws; every node returned is a cartesian product |
| TreeQueries.GetAllSelectionNodes | Qo.Parsing/QoOptimizer.cs:724-738 | null throws; every node returned is a selection |
| TreeQueries.GetAllProjectionNodes | Qo.Parsing/QoOptimizer.cs:762-776 | null throws; every node returned is a projection |
| TreeQueries.GetAllProjectionNodesExcept | Qo.Parsing/QoOptimizer.cs:743-757 | null throws; every node returned is a projection other than the given root |
| TreeQueries.GetAllRelationNodes | Qo.Parsing/QoOptimizer.cs:706-720 | (corrected) null throws; every node returned is a relation leaf |
| TreeQueries.GetAllRelationNodesAsWritten | Qo.Parsing/QoOptimizer.cs:706-720 | (as written) throws on null and diverges exactly where the pre-order listing does |
| TreeQueries.RelationNodesAsWrittenBelowRoot | Qo.Parsing/QoOptimizer.cs:714-715 | below the root the as-written listing holds only cartesian products, because both recursive calls go to the cartesian listing |
| TreeQueries.RelationNodesAsWrittenMissesLeaf | Qo.Parsing/QoOptimizer.cs:706-720 | on a projection over one relation the as-written listing is empty while the corrected one finds the relation |
| TreeQueries.ConditionWeight | Qo.Parsing/QoOptimizer.cs:856-864 | a condition weighs 1, or 2 exactly when its operator is `=` or `!=` |
| TreeQueries.ConditionsWeightBounds | Qo.Parsing/QoOptimizer.cs:855-866 | a selection's conditions weigh between one and two each, and two each exactly when all are `=` or `!=` |
| TreeQueries.Weight | Qo.Parsing/QoOptimizer.cs:844-876 | null throws; a weight is never negative; relation, join and empty content weigh nothing |
| TreeQueries.GetRestrictiveWeight | Qo.Parsing/QoOptimizer.cs:844-876 | null throws; the weight is never negative |
| TreeQueries.WeightGrowsUpward | Qo.Parsing/QoOptimizer.cs:844-876 | a selection adds one to two per condition to its child's weight (two each iff all are `=`/`!=`); a set operator weighs at least each child; a projection weighs what its child does |
| TreeQueries.ContainsRelation | Qo.Parsing/QoOptimizer.cs:811-828 | null holds nothing; a leaf of the sought relation object holds it; the only failure is divergence on a cycle |
| TreeQueries.ContainsRelationMeansLeaf | Qo.Parsing/QoOptimizer.cs:811-828 | whenever the search answers, it answers whether the relation is among the subtree's relation leaves |
| TreeQueries.ContainsMeansLeaf | Qo.Parsing/QoOptimizer.cs:811-828 | with the arena size as bound, the answer is membership among the leaves |
| TreeQueries.IsConjunctiveSelectionNode | Qo.Parsing/QoOptimizer.cs:563-569 | null throws; true exactly for a selection none of whose operators is OR |
| TreeQueries.ConjunctiveRendersWithAnd | Qo.Parsing/QoOptimizer.cs:563-569 | a conjunctive selection with linked neighbours renders as its conditions joined by AND |
| TreeQueries.Realiased | Qo.Parsing/QoOptimizer.cs:540-546 | a relation's attributes each take the alias at their query number; an out-of-range query number throws an index error |
| TreeQueries.ChildAccessible | Qo.Parsing/QoOptimizer.cs:549-556 | a null child offers no attributes |
| TreeQueries.AccessibleAttributes | Qo.Parsing/QoOptimizer.cs:529-559 | a projection offers its attributes, a relation its re-aliased attributes; a path longer than the fuel diverges |
| TreeQueries.GetAccessibleAttributes | Qo.Parsing/QoOptimizer.cs:529-559 | null throws |
| TreeQueries.ChildProper | Qo.Parsing/QoOptimizer.cs:921-939 | a null child passes the check |
| TreeQueries.DescendentsAreProper | Qo.Parsing/QoOptimizer.cs:921-939 | (corrected) the only failure is divergence; a node whose children do not point back fails |
| TreeQueries.ProperMeansPointBack | Qo.Parsing/QoOptimizer.cs:921-939 | on a finite tree the corrected check holds exactly when every node of the pre-order listing has its children pointing back |
| TreeQueries.ProperOfChildren | Qo.Parsing/QoOptimizer.cs:921-939 | a node passes exactly when its own links point back and both subtrees pass |
| TreeQueries.ChildProperAsWritten | Qo.Parsing/QoOptimizer.cs:929-936 | (as written) asking about a null child throws |
| TreeQueries.DescendentsAreProperAsWritten | Qo.Parsing/QoOptimizer.cs:921-939 | (as written) exceeding the fuel diverges |
| TreeQueries.ProperAsWrittenCounterexamples | Qo.Parsing/QoOptimizer.cs:921-939 | the as-written check throws on a well-linked node with only a right child and passes a tree with a broken right subtree; the corrected check passes the first and fails the second |
| OptimizerHelpers.IsKey | Qo.Parsing/QoOptimizer.cs:573-586 | true exactly when some relation of the schema has a primary-key attribute with the attribute's name |
| OptimizerHelpers.IsJoinCondition | Qo.Parsing/QoOptimizer.cs:624-634 | true exactly when the condition has two attribute sides and both are keys |
| OptimizerHelpers.ContainsJoinCondition | Qo.Parsing/QoOptimizer.cs:638-657 | no answer (null) unless there is exactly one condition; then whether it is a join condition |
| OptimizerHelpers.FirstAnsweringMeans | Qo.Parsing/QoOptimizer.cs:594-619 | the scan returns the first candidate whose relation answers to the attribute (all before it hold relations that do not), null exactly when none answers, and throws only when a non-relation candidate is reached first |
| OptimizerHelpers.RelationAnswers | Qo.Parsing/QoOptimizer.cs:597-616 | a relation answers exactly when it has an attribute of that name and the attribute's alias is one of its aliases, or its name when it has none |
| OptimizerHelpers.GetRelationForAttribute | Qo.Parsing/QoOptimizer.cs:590-620 | a null attribute names nothing; a single candidate is returned unchecked; otherwise the first answering candidate, or null |
| OptimizerHelpers.AsAttribute | Qo.Parsing/QoOptimizer.cs:232-233 | `side as Attribute` is the attribute exactly when the side is one, else null |
| OptimizerHelpers.GetFirstCartesian | Qo.Parsing/QoOptimizer.cs:832-840 | the result lies on the left spine, every node above it is a non-set-operator, and it is null or a set operator; a spine longer than the arena is a cycle and diverges |
| OptimizerHelpers.GetDepth | Qo.Parsing/QoOptimizer.cs:781-793 | the depth is the number of Parent steps after which the root is reached, the root not being met earlier; reaching null first throws; a longer walk diverges |
| OptimizerHelpers.AttributeItems | Qo.Parsing/QoOptimizer.cs:511 | a projection's attributes added one for one to the dynamic list |
| OptimizerHelpers.Parental | Qo.Parsing/QoOptimizer.cs:492-525 | in the typed (legacy) list a successful walk holds only attributes or nulls |
| OptimizerHelpers.Prefixed | Qo.Parsing/QoOptimizer.cs:494-521 | what was gathered stays in front of what the rest of the walk gathers; failures pass through |
| OptimizerHelpers.GetMinimumParentalAttributes | Qo.Parsing/QoOptimizer.cs:492-525 | null throws; otherwise the loop gathers exactly what the walk from the node's parent up to the root (or the first projection) demands |
| OptimizerHelpers.PrefixedTwice | Qo.Parsing/QoOptimizer.cs:494-521 | gathering two lists in turn equals gathering their concatenation |
| OptimizerHelpers.ParentalIgnoresRoot | Qo.Parsing/QoOptimizer.cs:497 | the walk stops before the root, so the root's content does not affect the result |
| OptimizerHelpers.ParentalStopsAtProjection | Qo.Parsing/QoOptimizer.cs:509-513 | a walk reaching a projection returns its attributes, whatever lies above it |
| OptimizerHelpers.SelectionWeight | Qo.Parsing/QoOptimizer.cs:856-864 | the condition loop computes the conditions' weight |
| OptimizerHelpers.Weigh | Qo.Parsing/QoOptimizer.cs:844-876 | the recursive weight computation returns exactly the restrictive weight |
| Rewrites.InsertAbove | Qo.Parsing/QoOptimizer.cs:897-916 | the insertion succeeds exactly when the node, the location and the location's parent are all non-null; it throws a null reference error otherwise, and it only moves references |
| Rewrites.InsertAboveShape | Qo.Parsing/QoOptimizer.cs:909-916 | exactly three nodes change: the inserted node hangs from the old parent with the location as its left child, the parent holds it on the given side, and the location points up to it |
| Rewrites.InsertAboveConsistent | Qo.Parsing/QoOptimizer.cs:897-916 | inserting a node without a right child above its parent's child leaves the inserted node and the location consistent, and keeps the parent's children pointing back |
| Rewrites.InsertNodeAbove | Qo.Parsing/QoOptimizer.cs:897-916 | the four assignments, in source order, end exactly as the insertion specification says, or throw the same error |
| Rewrites.InsertNodeAboveLeftChild | Qo.Parsing/QoOptimizer.cs:909-916 | the insertion with the node written into the parent's left child |
| Rewrites.InsertNodeAboveRightChild | Qo.Parsing/QoOptimizer.cs:897-904 | the insertion with the node written into the parent's right child |
| Rewrites.SwappedOnRank | Qo.Parsing/QoOptimizer.cs:797-807 | null throws; a success keeps the arena's size, ids and contents |
| Rewrites.SwapOnRankOrders | Qo.Parsing/QoOptimizer.cs:797-807 | afterwards the node holds the same two children, possibly exchanged, with the heavier (weighed before) on the left; no other node and no Parent changes |
| Rewrites.WeightIgnoresUnlisted | Qo.Parsing/QoOptimizer.cs:844-876 | a subtree's weight depends only on the nodes it visits |
| Rewrites.SwapOnRankOrdersAfter | Qo.Parsing/QoOptimizer.cs:797-807 | on a tree, weighed after the swap, the left child weighs at least as much as the right |
| Rewrites.SwapOnRank | Qo.Parsing/QoOptimizer.cs:797-807 | the method weighs both children and exchanges them when the left is lighter, ending as the specification says |
| SelectionCascade.Single | Qo.Parsing/QoOptimizer.cs:93-98 | a cascade node holds a fresh selection with exactly the one condition and no operators |
| SelectionCascade.ChainAdds | Qo.Parsing/QoOptimizer.cs:91-105 | the cascade loop only adds nodes, one per remaining condition, holding those conditions in order; existing nodes keep id and content |
| SelectionCascade.CascadeLayout | Qo.Parsing/QoOptimizer.cs:89-105 | between two different nodes the cascade of two or more conditions is exactly the chained layout: top's left child is the first new node, each new node the left child of the previous one, the last one and the bottom pointing at each other |
| SelectionCascade.CascadeReadsDown | Qo.Parsing/QoOptimizer.cs:89-105 | reading down the left children from the top gives the conditions one per node in their original order and then the old left child, each node's Parent being the one above |
| SelectionCascade.SplitSkips | Qo.Parsing/QoOptimizer.cs:86 | a selection with at most one condition, or with an OR, is left as it is |
| SelectionCascade.SplitCascades | Qo.Parsing/QoOptimizer.cs:86-105 | a conjunctive selection with several conditions, whose parent and child are two other nodes, is replaced by the cascade of its conditions between them |
| SelectionCascade.SplitAllAdds | Qo.Parsing/QoOptimizer.cs:84-106 | the loop over the selection list only adds nodes |
| SelectionCascade.Rule1Adds | Qo.Parsing/QoOptimizer.cs:81-107 | rule 1 keeps every existing node's id and content |
| SelectionCascade.SplitSelection | Qo.Parsing/QoOptimizer.cs:86-105 | one iteration of the outer loop ends as the single-node specification says (a non-selection fails the cast) |
| SelectionCascade.BuildCascade | Qo.Parsing/QoOptimizer.cs:91-105 | the `for` loop ends as the cascade specification says, throwing where a null parent or child is dereferenced |
| SelectionCascade.ApplyRule1 | Qo.Parsing/QoOptimizer.cs:81-107 | the method ends as rule 1 says: every selection of the list taken before the rule, in pre-order |
| WeightOrdering.Rotated | Qo.Parsing/QoOptimizer.cs:321-333 | the seven rotation assignments only move references (ids and contents stay), throwing where a null is dereferenced |
| WeightOrdering.RotationAsWritten | Qo.Parsing/QoOptimizer.cs:321-333 | on five distinct nodes the rotation gives cart1 its old right child on the left and cart2's right child on the right, gives cart2 select1 on the left and its old left child on the right, makes cart2 the parent of select1 and select2, and makes cart2's old right child its own parent; nothing else changes |
| WeightOrdering.RotationWritesMerge | Qo.Parsing/QoOptimizer.cs:327-333 | the seven writes in sequence equal one merged write per node |
| WeightOrdering.RotationParentCycles | Qo.Parsing/QoOptimizer.cs:329-333 | after the rotation cart2's old right child is its own parent, and cart2 and select2 are each other's parent |
| WeightOrdering.Reorder | Qo.Parsing/QoOptimizer.cs:306-345 | the loop body at a set operator only moves references |
| WeightOrdering.ReorderOrders | Qo.Parsing/QoOptimizer.cs:341-344 | below anything but a selection, the set operator ends with the heavier child on the left |
| WeightOrdering.ReorderRotatesWhenLighter | Qo.Parsing/QoOptimizer.cs:310-335 | in the selection/selection/cartesian pattern the rotation happens exactly when the left-left subtree weighs less than the right subtree; otherwise nothing changes |
| WeightOrdering.Descend | Qo.Parsing/QoOptimizer.cs:302-347 | the walk down the left spine to a relation only moves references |
| WeightOrdering.DescendWithoutSetOperators | Qo.Parsing/QoOptimizer.cs:304-347 | a walk that meets no set operator changes nothing |
| WeightOrdering.Rule3 | Qo.Parsing/QoOptimizer.cs:287-348 | rule 3 only moves references: ids and contents are kept |
| WeightOrdering.Rotate | Qo.Parsing/QoOptimizer.cs:321-333 | the method performs the rotation assignments in source order and ends as the rotation specification says |
| WeightOrdering.ReorderAt | Qo.Parsing/QoOptimizer.cs:306-345 | the loop body ends as the reorder specification says |
| WeightOrdering.ApplyRule3 | Qo.Parsing/QoOptimizer.cs:287-348 | the method, recursion into set operators and descending loop included, ends as rule 3 says |
| JoinIntroduction.Fuse | Qo.Parsing/QoOptimizer.cs:358-372 | replacing one cartesian keeps every existing node's id and content (nodes are only added and rewired) |
| JoinIntroduction.FuseAll | Qo.Parsing/QoOptimizer.cs:356-373 | the loop over the cartesian list only adds and rewires nodes |
| JoinIntroduction.Rule4 | Qo.Parsing/QoOptimizer.cs:352-374 | rule 4 keeps every existing node's id and content |
| JoinIntroduction.FuseSkips | Qo.Parsing/QoOptimizer.cs:358 | a cartesian whose parent is not a selection is left untouched |
| JoinIntroduction.FuseShape | Qo.Parsing/QoOptimizer.cs:360-372 | with four distinct nodes involved, exactly the grandparent's left child and the two children's Parent become the new join node, which holds the selection's first condition and the cartesian's children |
| JoinIntroduction.FuseConsistent | Qo.Parsing/QoOptimizer.cs:360-372 | the new join node is consistent with its parent and children, and the children's Parent links point down to them again |
| JoinIntroduction.FuseCartesian | Qo.Parsing/QoOptimizer.cs:358-372 | the loop body ends as the single-cartesian specification says (an empty selection throws in `First()`) |
| JoinIntroduction.ApplyRule4 | Qo.Parsing/QoOptimizer.cs:352-374 | the method ends as rule 4 says, over the cartesians listed before the rule began |
| SelectionPushdown.SelectionsMatch | Qo.Parsing/QoOptimizer.cs:135-147 | two selections match when some pair of their conditions has the same sides, directly or swapped; the only way to fail is the runtime-binder error of a null side |
| SelectionPushdown.RecordKeeps | Qo.Parsing/QoOptimizer.cs:145-146 | recording a pair keeps the list free of repeats, and the list afterwards holds exactly the old entries plus the pair when it matched |
| SelectionPushdown.DuplicatesMeans | Qo.Parsing/QoOptimizer.cs:126-152 | the duplicate list has no repeats and holds a pair exactly when it is (sels[i], sels[j]) with i < j and the two selections match |
| SelectionPushdown.SwappedSidesMatch | Qo.Parsing/QoOptimizer.cs:141-143 | a condition matches the same condition with its sides swapped |
| SelectionPushdown.Drop | Qo.Parsing/QoOptimizer.cs:155-170 | removing one duplicate only rewires existing nodes (ids and contents kept) |
| SelectionPushdown.Reroot | Qo.Parsing/QoOptimizer.cs:157-163 | dropping a duplicate that is the root only rewires nodes |
| SelectionPushdown.Bypass | Qo.Parsing/QoOptimizer.cs:164-169 | bypassing a duplicate below the root only rewires nodes |
| SelectionPushdown.DropAll | Qo.Parsing/QoOptimizer.cs:153-171 | the removal loop only rewires nodes |
| SelectionPushdown.DropBypasses | Qo.Parsing/QoOptimizer.cs:164-169 | away from the root, the first selection of the pair is left out of the list, its child points to its parent and it points to its child, nothing else changing |
| SelectionPushdown.DropReroots | Qo.Parsing/QoOptimizer.cs:157-163 | when the pair holds the root, the root's child becomes the root with a null parent and a null left child, and the old root leaves the list |
| SelectionPushdown.AnyJoinMeans | Qo.Parsing/QoOptimizer.cs:173-177 | the join test is true exactly when some remaining selection starts with a join condition, and when false every selection has a first condition to test |
| SelectionPushdown.SeedMeans | Qo.Parsing/QoOptimizer.cs:179-183 | seeding the dictionary succeeds exactly when no relation leaf is listed twice, and then holds every leaf in order at zero |
| SelectionPushdown.KeyIndex | Qo.Parsing/QoOptimizer.cs:188-189 | the index found holds the key and is its first occurrence |
| SelectionPushdown.Bump | Qo.Parsing/QoOptimizer.cs:188-189 | incrementing an entry keeps the dictionary's keys, in order |
| SelectionPushdown.CountKeepsKeys | Qo.Parsing/QoOptimizer.cs:184-190 | the counting loop keeps the dictionary's keys and their order |
| SelectionPushdown.InsertByCount | Qo.Parsing/QoOptimizer.cs:196 | inserting into a count-ordered list adds exactly that entry |
| SelectionPushdown.InsertByCountAscending | Qo.Parsing/QoOptimizer.cs:196 | insertion into an ascending list by count leaves it ascending |
| SelectionPushdown.ByCount | Qo.Parsing/QoOptimizer.cs:196 | ordering by count is a permutation of the dictionary, ascending by count |
| SelectionPushdown.Keys | Qo.Parsing/QoOptimizer.cs:196 | the key projection keeps length and order |
| SelectionPushdown.ByCountIsOrdering | Qo.Parsing/QoOptimizer.cs:191-196 | the order is an ascending permutation, and unless all counts are equal its first count is smaller than its last |
| SelectionPushdown.OrderedPosition | Qo.Parsing/QoOptimizer.cs:196 | every dictionary entry sits in the ordered list between its first and last counts |
| SelectionPushdown.PlaceFrom | Qo.Parsing/QoOptimizer.cs:197-215 | a run of the placement loop only rewires nodes |
| SelectionPushdown.Placement | Qo.Parsing/QoOptimizer.cs:194-215 | placing the ordered relations along the left spine only rewires nodes |
| SelectionPushdown.PlacementLinks | Qo.Parsing/QoOptimizer.cs:197-215 | with the parent fixed, every relation hangs on the right of its spine node and points back to it, the last two share the lowest spine node, and nothing else changes |
| SelectionPushdown.PlacementParentMismatch | Qo.Parsing/QoOptimizer.cs:210-213 | on three relations under two cartesians, the loop as written leaves the upper right relation pointing to the lower cartesian, the corrected one to the upper |
| SelectionPushdown.ScanNull | Qo.Parsing/QoOptimizer.cs:811-828 | searching for a null relation never finds it; it only fails by running out of depth |
| SelectionPushdown.Holds | Qo.Parsing/QoOptimizer.cs:235-238 | a probe fails only with a null reference or an unbounded descent |
| SelectionPushdown.HoldsMeansLeaf | Qo.Parsing/QoOptimizer.cs:235-238 | the probe of a relation node answers whether its relation is among the relation leaves below the node probed |
| SelectionPushdown.Separates | Qo.Parsing/QoOptimizer.cs:235-239 | the four probes succeed only on a live node |
| SelectionPushdown.Sink | Qo.Parsing/QoOptimizer.cs:234-246 | the search ends at a live node that separates the two relations |
| SelectionPushdown.SinkFindsFirst | Qo.Parsing/QoOptimizer.cs:234-246 | the node found lies d steps down the left spine, and no node above it on the way separates the relations |
| SelectionPushdown.Cut | Qo.Parsing/QoOptimizer.cs:228-229 | cutting the selection out only rewires nodes |
| SelectionPushdown.CutShape | Qo.Parsing/QoOptimizer.cs:228-229 | with selection, parent and child distinct, cutting links the parent's left to the child and the child's parent to the parent, nothing else changing |
| SelectionPushdown.HangAbove | Qo.Parsing/QoOptimizer.cs:248-251 | hanging the join selection above the node found only rewires nodes |
| SelectionPushdown.HangAboveLinks | Qo.Parsing/QoOptimizer.cs:248-251 | the selection takes the node as left child and its old parent as parent, the parent holds the selection on the left, the node points up to the selection, and all other nodes are unchanged |
| SelectionPushdown.Beneath | Qo.Parsing/QoOptimizer.cs:258-279 | putting a selection above a relation only rewires nodes |
| SelectionPushdown.BeneathShape | Qo.Parsing/QoOptimizer.cs:258-279 | the selection goes between the relation and its parent on the side the parent holds it, nothing else changing |
| SelectionPushdown.Push | Qo.Parsing/QoOptimizer.cs:220-281 | one turn of the burying loop only rewires nodes |
| SelectionPushdown.PushJoinLands | Qo.Parsing/QoOptimizer.cs:230-252 | a buried join selection ends directly above a node separating the relations of its first condition, keeping its condition and right child |
| SelectionPushdown.PushNonJoinLands | Qo.Parsing/QoOptimizer.cs:253-279 | a buried non-join selection ends directly above the relation of its left side or, failing that, its right side: it takes that relation as left child and the relation's parent as parent, the parent holds it on the side that held the relation, and nothing else moves; with neither relation found it stays cut out |
| SelectionPushdown.PushAll | Qo.Parsing/QoOptimizer.cs:220-281 | the burying loop only rewires nodes |
| SelectionPushdown.Rank | Qo.Parsing/QoOptimizer.cs:177-217 | the ranking step only rewires nodes |
| SelectionPushdown.Pushdown | Qo.Parsing/QoOptimizer.cs:119-283 | rule 2 on a root that is not a set operator only rewires nodes |
| SelectionPushdown.Rule2 | Qo.Parsing/QoOptimizer.cs:111-283 | rule 2 only rewires nodes |
| SelectionPushdown.Rule2Sides | Qo.Parsing/QoOptimizer.cs:113-118 | under a set operator, rule 2 only rewires nodes and keeps the set operator as root |
| SelectionPushdown.ConditionsMatch | Qo.Parsing/QoOptimizer.cs:135-149 | the two condition loops compute the match of two selections |
| SelectionPushdown.FindInRow | Qo.Parsing/QoOptimizer.cs:132-150 | the loop over later selections records exactly the pairs of the row specification |
| SelectionPushdown.FindDuplicates | Qo.Parsing/QoOptimizer.cs:126-152 | the nested loops compute the duplicate list |
| SelectionPushdown.SeedRankings | Qo.Parsing/QoOptimizer.cs:179-183 | the seeding loop builds the zero dictionary, failing on a repeated key |
| SelectionPushdown.CountRankings | Qo.Parsing/QoOptimizer.cs:184-190 | the counting loop computes the counts |
| SelectionPushdown.FindSeparator | Qo.Parsing/QoOptimizer.cs:234-246 | the search loop returns the node of the search specification |
| SelectionPushdown.DropPair | Qo.Parsing/QoOptimizer.cs:155-170 | one removal turn leaves the heap, root and selection list as specified |
| SelectionPushdown.RemoveDuplicates | Qo.Parsing/QoOptimizer.cs:153-171 | the removal loop leaves the heap, root and selection list as specified |
| SelectionPushdown.PlaceRelations | Qo.Parsing/QoOptimizer.cs:197-215 | the placement loop, parents corrected, leaves the heap as specified |
| SelectionPushdown.RankRelations | Qo.Parsing/QoOptimizer.cs:177-217 | the ranking step leaves the heap as specified |
| SelectionPushdown.CutOut | Qo.Parsing/QoOptimizer.cs:228-229 | cutting out leaves the heap as specified |
| SelectionPushdown.HangSelection | Qo.Parsing/QoOptimizer.cs:248-251 | hanging leaves the heap as specified |
| SelectionPushdown.PlaceAbove | Qo.Parsing/QoOptimizer.cs:258-279 | the non-join insertion leaves the heap as specified |
| SelectionPushdown.PushSelection | Qo.Parsing/QoOptimizer.cs:222-280 | one burying turn leaves the heap as specified |
| SelectionPushdown.BuryAll | Qo.Parsing/QoOptimizer.cs:220-281 | the burying loop leaves the heap as specified |
| SelectionPushdown.ApplyPushdown | Qo.Parsing/QoOptimizer.cs:119-283 | rule 2 on a non-set-operator root leaves the heap and root as specified |
| SelectionPushdown.ApplyRule2 | Qo.Parsing/QoOptimizer.cs:111-283 | rule 2 leaves the heap and the returned root as specified |
| SelectionPushdown.ApplyRule2Sides | Qo.Parsing/QoOptimizer.cs:113-118 | both sides of a set operator are rewritten as specified and the set operator stays the root |
| ProjectionInsertion.Matches | Qo.Parsing/QoOptimizer.cs:402-409 | every copy kept is the attribute itself, and one is kept exactly when some accessible attribute has its name and alias |
| ProjectionInsertion.IntersectMembers | Qo.Parsing/QoOptimizer.cs:398-410 | an attribute is in the intersection exactly when it is an attribute item of the parental list and some accessible attribute matches it |
| ProjectionInsertion.IntersectAttributes | Qo.Parsing/QoOptimizer.cs:398-410 | the nested loops compute the intersection |
| ProjectionInsertion.MatchAttribute | Qo.Parsing/QoOptimizer.cs:402-409 | the inner loop computes the matches of one attribute |
| ProjectionInsertion.Interpose | Qo.Parsing/QoOptimizer.cs:412-431 | inserting the projection adds exactly one node and keeps every existing id and content |
| ProjectionInsertion.InterposedConsistent | Qo.Parsing/QoOptimizer.cs:412-431 | the new projection node is linked consistently: its parent is the old parent, its left child the node it sits above, no right child |
| ProjectionInsertion.Climb | Qo.Parsing/QoOptimizer.cs:385-434 | the walk from one leaf to the root only adds projection nodes |
| ProjectionInsertion.ClimbInserts | Qo.Parsing/QoOptimizer.cs:393-433 | above a node whose parent is not a projection, the walk inserts the projection of the intersection and continues from it |
| ProjectionInsertion.ClimbPassesProjection | Qo.Parsing/QoOptimizer.cs:388-392 | a projection node is passed over to its parent |
| ProjectionInsertion.ClimbSkipsUnderProjection | Qo.Parsing/QoOptimizer.cs:393 | a node whose parent is a projection gets no projection of its own |
| ProjectionInsertion.ClimbAll | Qo.Parsing/QoOptimizer.cs:383-435 | the loop over the relation leaves only adds projection nodes |
| ProjectionInsertion.Rule5 | Qo.Parsing/QoOptimizer.cs:378-436 | rule 5 only adds projection nodes and keeps every existing id and content |
| ProjectionInsertion.ProjectAbove | Qo.Parsing/QoOptimizer.cs:395-431 | the projection step fails exactly when a lookup throws, and otherwise leaves the arena with the projection inserted as the new last node |
| ProjectionInsertion.ClimbFrom | Qo.Parsing/QoOptimizer.cs:385-434 | the while loop from one leaf leaves the heap as specified |
| ProjectionInsertion.ClimbStep | Qo.Parsing/QoOptimizer.cs:388-433 | one turn of the while loop either finishes as specified or leaves a walk equal to the rest of the specified one |
| ProjectionInsertion.ApplyRule5 | Qo.Parsing/QoOptimizer.cs:378-436 | rule 5 leaves the heap as specified |
| Optimization.RuleOn | Qo.Parsing/QoOptimizer.cs:59-68 | each rule keeps every existing node's id and content |
| Optimization.Step | Qo.Parsing/QoOptimizer.cs:39-69 | one rule block keeps ids and contents, and under a set operator the root stays |
| Optimization.Steps | Qo.Parsing/QoOptimizer.cs:37-76 | the blocks from rule n on store earlier snapshots unchanged, at most one per block, all of them exactly when nothing throws |
| Optimization.Optimized | Qo.Parsing/QoOptimizer.cs:34-77 | optimisation stores at most five snapshots, all five exactly when nothing throws; a null tree throws before the first |
| Optimization.OperatorSnapshot | Qo.Parsing/QoOptimizer.cs:43 | the snapshot of a set-operator node shows that operator at the top |
| Optimization.SetOpRootStays | Qo.Parsing/QoOptimizer.cs:39-56 | under a set-operator root, every snapshot stored from a block on shows that operator |
| Optimization.SetOpSnapshots | Qo.Parsing/QoOptimizer.cs:39-56 | a run on a set-operator root stores only snapshots showing that operator at the top |
| Optimization.QoPackage.constructor | Qo.Parsing/QoPackage.cs:5-17 | a new package holds the tree and the default of every other property |
| Optimization.QoPackage.Slots | Qo.Parsing/QoPackage.cs:12-16 | the five optimisation slots, in order |
| Optimization.QoPackage.SetOptimization | Qo.Parsing/QoPackage.cs:12-16 | storing a snapshot sets exactly that slot and nothing else |
| Optimization.Stored | Qo.Parsing/QoOptimizer.cs:43-68 | the stored snapshots fill the first slots and the rest keep their old values |
| Optimization.QoOptimizer.constructor | Qo.Parsing/QoOptimizer.cs:25-28 | the optimizer keeps the schema given |
| Optimization.QoOptimizer.Default | Qo.Parsing/QoOptimizer.cs:21-24 | the default optimizer uses the three-relation sailors schema |
| Optimization.QoOptimizer.Advance | Qo.Parsing/QoOptimizer.cs:41-68 | one block leaves the heap and package as specified, storing the exception message when it throws |
| Optimization.QoOptimizer.RunStep | Qo.Parsing/QoOptimizer.cs:39-69 | one rule step leaves the heap and root as specified |
| Optimization.QoOptimizer.ApplyRule | Qo.Parsing/QoOptimizer.cs:41-67 | a rule call succeeds exactly when its specification does, leaving its arena, and fails with its error otherwise |
| Optimization.QoOptimizer.ApplyRuleAt | Qo.Parsing/QoOptimizer.cs:59-68 | a rule call returns the root the specification gives |
| Optimization.QoOptimizer.Optimize | Qo.Parsing/QoOptimizer.cs:34-77 | the package ends with the specified snapshots in its slots, the first exception's message as its error, and the rules' arena when nothing threw; its other properties are unchanged |
| LegacyRules.CastFault | Qo.Parsing/Optimizer.cs:172-180 | casting content that is not a selection throws a null reference exactly on null content and an invalid cast otherwise |
| LegacyRules.SwappedChain | Qo.Parsing/Optimizer.cs:201-202 | two successive side exchanges leave a content as it was or exchanged once |
| LegacyRules.Cascade | Qo.Parsing/Optimizer.cs:78-99 | rebuilding one selection as a cascade keeps every existing id and content, only adding nodes |
| LegacyRules.CascadeAll | Qo.Parsing/Optimizer.cs:78-100 | the loop over the selection list keeps every existing id and content |
| LegacyRules.Rule1 | Qo.Parsing/Optimizer.cs:75-101 | legacy rule 1 keeps every existing id and content |
| LegacyRules.CascadeRebuildsSingle | Qo.Parsing/Optimizer.cs:85-99 | a conjunctive selection with one condition is replaced by a fresh copy its parent and child point to, where the current rule 1 leaves the arena unchanged |
| LegacyRules.CascadeAgreesOnMany | Qo.Parsing/Optimizer.cs:82-99 | with two or more conditions and a parent, the legacy cascade equals the current one |
| LegacyRules.CascadeNeedsParent | Qo.Parsing/Optimizer.cs:83-93 | a conjunctive selection without a parent throws a null reference |
| LegacyRules.CascadeSkips | Qo.Parsing/Optimizer.cs:80 | a selection holding an OR, or a node that is no selection, stays as it is |
| LegacyRules.AliasLookup | Qo.Parsing/Optimizer.cs:490-506 | a relation found is a candidate whose alias and attribute match; the lookup throws only on a null relation or an alias index past the end |
| LegacyRules.SideLookup | Qo.Parsing/Optimizer.cs:115 | a dynamic side is looked up only when it is an attribute or null; any other value fails to bind |
| LegacyRules.AliasLookupMeans | Qo.Parsing/Optimizer.cs:492-505 | null exactly when every candidate is readable and none matches; a relation only when it matches and every earlier candidate is readable and does not |
| LegacyRules.Bypass | Qo.Parsing/Optimizer.cs:120-121 | cutting a selection out only rewires nodes |
| LegacyRules.BypassShape | Qo.Parsing/Optimizer.cs:120-121 | with node, parent and child distinct, the parent's left becomes the child and the child's parent becomes the parent, nothing else changing |
| LegacyRules.HangAbove | Qo.Parsing/Optimizer.cs:142-154 | the non-join placement only rewires nodes |
| LegacyRules.HangAboveShape | Qo.Parsing/Optimizer.cs:142-154 | the node goes between the relation and its parent, on the side that held the relation (the right whenever the left is not it), nothing else changing |
| LegacyRules.Ascend | Qo.Parsing/Optimizer.cs:130-135 | the climb changes only the node's parent and left child, and where it stops the right child of the node's left child is one of the two relations |
| LegacyRules.Adopt | Qo.Parsing/Optimizer.cs:136-137 | putting the node back at its parent's left only rewires nodes |
| LegacyRules.PlaceJoin | Qo.Parsing/Optimizer.cs:124-137 | the join placement only rewires nodes |
| LegacyRules.Bury | Qo.Parsing/Optimizer.cs:114-154 | burying one selection only rewires nodes |
| LegacyRules.BurySkipsUnresolved | Qo.Parsing/Optimizer.cs:116 | a selection whose first left side names no relation of the tree stays |
| LegacyRules.BuryNonJoin | Qo.Parsing/Optimizer.cs:117-154 | a non-join selection with a left relation is cut out and hung above that relation |
| LegacyRules.BuryAll | Qo.Parsing/Optimizer.cs:112-155 | the burying loop only rewires nodes |
| LegacyRules.Rule2 | Qo.Parsing/Optimizer.cs:105-156 | legacy rule 2 only rewires nodes |
| LegacyRules.JoinAbove | Qo.Parsing/Optimizer.cs:549-567 | the walk up ends at a node holding a join selection |
| LegacyRules.ParentalJoin | Qo.Parsing/Optimizer.cs:547-568 | the node found holds a join selection; null only in the guarded revision for a null node |
| LegacyRules.JoinAboveNearest | Qo.Parsing/Optimizer.cs:549-567 | the node found is the nearest: every node passed before it exists and holds no join selection |
| LegacyRules.SwapAt | Qo.Parsing/Optimizer.cs:180 | exchanging the sides of a node's conditions succeeds exactly on a selection and only exchanges sides |
| LegacyRules.MoveLeft | Qo.Parsing/Optimizer.cs:170-181 | the one-cartesian move only moves references and exchanges sides |
| LegacyRules.MoveLeftShape | Qo.Parsing/Optimizer.cs:172-180 | a non-join selection at a set operator's right swaps places with the operator's left child and the selection above has its sides exchanged; no parent link changes |
| LegacyRules.MoveLeftStays | Qo.Parsing/Optimizer.cs:172-176 | a non-join selection that is not a set operator's right child stays |
| LegacyRules.Promote | Qo.Parsing/Optimizer.cs:191-192 | the left join node takes the right join node's place only rewiring, and succeeds exactly when the right join node has a parent |
| LegacyRules.Shift | Qo.Parsing/Optimizer.cs:193-195 | the right join node's child takes the left relation on the right only by rewiring |
| LegacyRules.CrossRight | Qo.Parsing/Optimizer.cs:191-195 | the first five assignments only rewire nodes |
| LegacyRules.CrossLeft | Qo.Parsing/Optimizer.cs:196-198 | the last three assignments only rewire nodes |
| LegacyRules.Interchange | Qo.Parsing/Optimizer.cs:184-202 | the several-cartesian case only moves references and exchanges sides |
| LegacyRules.Reorder | Qo.Parsing/Optimizer.cs:168-203 | rule 3 on one selection only moves references and exchanges sides |
| LegacyRules.ReorderSkips | Qo.Parsing/Optimizer.cs:168-169 | a selection whose conditions are not exactly one non-join condition is not moved |
| LegacyRules.ReorderAll | Qo.Parsing/Optimizer.cs:166-204 | the loop of rule 3 only moves references and exchanges sides |
| LegacyRules.Rule3 | Qo.Parsing/Optimizer.cs:160-205 | legacy rule 3 only moves references and exchanges sides |
| LegacyRules.Replace | Qo.Parsing/Optimizer.cs:215-227 | replacing one cartesian keeps every existing id and content |
| LegacyRules.ReplaceAgrees | Qo.Parsing/Optimizer.cs:219 | under a selection the legacy replacement equals the current one; under anything else it throws |
| LegacyRules.ReplaceAll | Qo.Parsing/Optimizer.cs:213-228 | the loop of rule 4 keeps every existing id and content |
| LegacyRules.Rule4 | Qo.Parsing/Optimizer.cs:209-229 | legacy rule 4 keeps every existing id and content |
| LegacyOptimizer.CascadeSelection | Qo.Parsing/Optimizer.cs:80-99 | the cascade loop for one selection leaves the heap as specified |
| LegacyOptimizer.ApplyOptimizationRule1 | Qo.Parsing/Optimizer.cs:75-101 | legacy rule 1 leaves the heap as specified |
| LegacyOptimizer.GetRelationForAttribute | Qo.Parsing/Optimizer.cs:490-506 | the nested loops compute the alias lookup |
| LegacyOptimizer.GetRelationForSide | Qo.Parsing/Optimizer.cs:115 | the call with a dynamic side computes the side lookup |
| LegacyOptimizer.BypassSelection | Qo.Parsing/Optimizer.cs:120-121 | cutting out leaves the heap as specified |
| LegacyOptimizer.HangSelectionAbove | Qo.Parsing/Optimizer.cs:142-154 | the non-join placement leaves the heap as specified |
| LegacyOptimizer.ClimbToRelation | Qo.Parsing/Optimizer.cs:130-135 | the while loop of the join placement leaves the heap as specified |
| LegacyOptimizer.AdoptSelection | Qo.Parsing/Optimizer.cs:136-137 | putting the node back leaves the heap as specified |
| LegacyOptimizer.PlaceJoinSelection | Qo.Parsing/Optimizer.cs:124-137 | the join placement leaves the heap as specified |
| LegacyOptimizer.BurySelection | Qo.Parsing/Optimizer.cs:114-154 | burying one selection leaves the heap as specified |
| LegacyOptimizer.ApplyOptimizationRule2 | Qo.Parsing/Optimizer.cs:105-156 | legacy rule 2 leaves the heap as specified |
| LegacyOptimizer.GetParentalJoinNode | Qo.Parsing/Optimizer.cs:547-568 | the do-while walk computes the parental join node |
| LegacyOptimizer.SwapConditions | Qo.Parsing/Optimizer.cs:180 | exchanging sides leaves the heap as specified |
| LegacyOptimizer.MoveSelectionLeft | Qo.Parsing/Optimizer.cs:172-180 | the one-cartesian move leaves the heap as specified |
| LegacyOptimizer.CrossRightJoins | Qo.Parsing/Optimizer.cs:191-195 | the first five assignments leave the heap as specified |
| LegacyOptimizer.CrossLeftJoins | Qo.Parsing/Optimizer.cs:196-198 | the last three assignments leave the heap as specified |
| LegacyOptimizer.InterchangeJoins | Qo.Parsing/Optimizer.cs:184-202 | the several-cartesian case leaves the heap as specified |
| LegacyOptimizer.ReorderSelection | Qo.Parsing/Optimizer.cs:168-203 | rule 3 on one selection leaves the heap as specified |
| LegacyOptimizer.ApplyOptimizationRule3 | Qo.Parsing/Optimizer.cs:160-205 | legacy rule 3 leaves the heap as specified |
| LegacyOptimizer.ReplaceCartesian | Qo.Parsing/Optimizer.cs:215-227 | one replacement leaves the heap as specified |
| LegacyOptimizer.ApplyOptimizationRule4 | Qo.Parsing/Optimizer.cs:209-229 | legacy rule 4 leaves the heap as specified |
| LegacyOptimizer.NodeLines | Qo.Parsing/Optimizer.cs:322-325 | one declaration for each listed node |
| LegacyOptimizer.NodeLinesMeans | Qo.Parsing/Optimizer.cs:322-325 | the declarations are built exactly when no listed node's content string throws, and the i-th declares the i-th node with its content string as label |
| LegacyOptimizer.NodeLinesFirstFailure | Qo.Parsing/Optimizer.cs:322-325 | a drawing that throws throws the exception of the first node whose content string throws, every node before it being declared |
| LegacyOptimizer.NodeLinesStep | Qo.Parsing/Optimizer.cs:322-325 | the declarations of one more node are those before it followed by its own, unless an earlier one or its content string throws |
| LegacyOptimizer.NodeLinesPrefix | Qo.Parsing/Optimizer.cs:322-325 | once the declarations of a prefix throw, the whole drawing throws the same exception |
| LegacyOptimizer.LabelledSnoc | Qo.Parsing/Optimizer.cs:322-325 | all listed nodes have a content string exactly when all but the last do and the last does |
| LegacyOptimizer.Graph | Qo.Parsing/Optimizer.cs:313-327 | drawing from a null root throws a null reference, and drawing a tree with a cycle never ends |
| LegacyOptimizer.GraphMeans | Qo.Parsing/Optimizer.cs:313-327 | a drawing succeeds exactly when the node listing does and no listed node's content string throws; it then has one declaration per node, the root's first |
| LegacyOptimizer.GenerateGraph | Qo.Parsing/Optimizer.cs:313-327 | the method's result is the drawing Graph specifies |
| LegacyOptimizer.DeclareNodes | Qo.Parsing/Optimizer.cs:322-325 | the loop over the listed nodes gives the declarations NodeLines specifies, stopping at the first content string that throws |
| LegacyOptimizer.Subgraphs | Qo.Parsing/Optimizer.cs:296-302 | one drawing for each listed projection |
| LegacyOptimizer.SubgraphsMeans | Qo.Parsing/Optimizer.cs:296-302 | every projection is drawn exactly when no drawing throws, and the i-th drawing is that of the i-th projection |
| LegacyOptimizer.SubgraphsStep | Qo.Parsing/Optimizer.cs:296-302 | the drawings of one more projection are those before it followed by its own, unless an earlier one or its own throws |
| LegacyOptimizer.SubgraphsPrefix | Qo.Parsing/Optimizer.cs:296-302 | once the drawings of a prefix throw, rule 6 throws the same exception |
| LegacyOptimizer.DrawnSnoc | Qo.Parsing/Optimizer.cs:296-302 | all projections are drawn exactly when all but the last are and the last is |
| LegacyOptimizer.Rule6 | Qo.Parsing/Optimizer.cs:292-303 | a null root throws a null reference, and a rule 6 that ends normally has listed the projections below the root |
| LegacyOptimizer.Rule6Draws | Qo.Parsing/Optimizer.cs:292-303 | a rule 6 that ends normally has drawn each projection below the root, the root excepted, on its own and in listing order |
| LegacyOptimizer.ApplyOptimizationRule6 | Qo.Parsing/Optimizer.cs:292-303 | the loop over the projections gives the drawings Rule6 specifies |
| LegacyOptimizer.BlocksStep | Qo.Parsing/Optimizer.cs:34-67 | the blocks from rule n are block n followed by the blocks after it on what it leaves, and a block that throws ends them |
| LegacyOptimizer.RetainsChain | Qo.Parsing/Optimizer.cs:30-71 | what the rules keep of the nodes composes across rules |
| LegacyOptimizer.LegacyRule | Qo.Parsing/Optimizer.cs:58-66 | each legacy rule keeps every node's id and each content as it was or with its sides exchanged |
| LegacyOptimizer.Block | Qo.Parsing/Optimizer.cs:34-67 | one block, the rule on both sides of a set operator or on the root and then the drawing of the whole tree, keeps the nodes as the rules do, and a block that ends normally has drawn the tree it leaves |
| LegacyOptimizer.Blocks | Qo.Parsing/Optimizer.cs:34-67 | the blocks from a given rule on keep the nodes as the rules do, and when they end normally the tree they leave has been drawn |
| LegacyOptimizer.Ran | Qo.Parsing/Optimizer.cs:30-71 | a null tree throws, and a first drawing that throws ends the run with its exception; otherwise every node keeps its id, any content but a selection's is unchanged, and a run that ends normally has drawn the tree as given and as left and every projection below it |
| LegacyOptimizer.QueryOptimizer.constructor | Qo.Parsing/Optimizer.cs:21-24 | the optimizer keeps the schema given |
| LegacyOptimizer.QueryOptimizer.ApplyRule | Qo.Parsing/Optimizer.cs:58-66 | a rule call leaves the heap as specified |
| LegacyOptimizer.QueryOptimizer.RunBlock | Qo.Parsing/Optimizer.cs:34-67 | the heap ends as Block says: the rule on each side or on the root, then the drawing; the first exception is the outcome |
| LegacyOptimizer.QueryOptimizer.RunBlocks | Qo.Parsing/Optimizer.cs:34-67 | the heap ends as Blocks says from rule 1: the five blocks in order, the first exception ending them |
| LegacyOptimizer.QueryOptimizer.Run | Qo.Parsing/Optimizer.cs:30-71 | the heap ends as Ran says, with the first exception of a drawing or a rule as the outcome |
| Schemas.Column | Qo.Parsing/Resources/Schemas.cs:18-21 | a schema column has the given name and type, no alias and query number 0 |
| Schemas.GetSchema1 | Qo.Parsing/Resources/Schemas.cs:11-68 | the schema holds sailors, boats and reserves in that order, with priorities 1, 3 and 2, no aliases, and their attributes as listed |
| Schemas.Schema1Keys | Qo.Parsing/Resources/Schemas.cs:25-62 | the key attribute names of the schema are exactly sid, bid and day |
| Schemas.Schema1Joins | Qo.Parsing/Resources/Schemas.cs:25-62 | comparing two sid or two bid attributes is a join whatever the aliases; a constant or a non-key attribute on one side is not |
| Schemas.Matching | Qo.Parsing/Resources/Queries.cs:24 | the positions found are exactly those of the relations with the name, in increasing order |
| Schemas.Single | Qo.Parsing/Resources/Queries.cs:24 | a lookup returns the one relation with the name, and otherwise throws no-match or more-than-one |
| Schemas.SingleFailures | Qo.Parsing/Resources/Queries.cs:24 | the lookup throws no-match exactly when no relation has the name, and more-than-one exactly when two have it |
| Schemas.WithAlias | Qo.Parsing/Resources/Queries.cs:25 | adding an alias appends it to that relation's aliases and changes nothing else |
| Schemas.AliasKeepsLookups | Qo.Parsing/Resources/Queries.cs:24-27 | adding an alias changes no later lookup by name |
| Schemas.Schema.constructor | Qo.Parsing/QueryModel/Schema.cs:8-15 | a schema holds the relations given |
| Schemas.Schema.AddAlias | Qo.Parsing/Resources/Queries.cs:25 | the in-place alias addition leaves the relation list as the value function says |
| Queries.Aliased | Qo.Parsing/Resources/Queries.cs:24-25 | the lookup-and-alias succeeds exactly when the lookup does, fails with its error, and otherwise adds the alias to the relation found |
| Queries.Attr | Qo.Parsing/Resources/Queries.cs:34 | a fixture attribute renders as alias dot name |
| Queries.Compare | Qo.Parsing/Resources/Queries.cs:32-43 | the side attributes of a fixture condition are exactly its attribute sides |
| Queries.SelectName | Qo.Parsing/Resources/Queries.cs:16-21 | every fixture selects s.sname alone |
| Queries.AndLinks | Qo.Parsing/Resources/Queries.cs:46 | every condition is linked to the next by and, and no other pair is linked |
| Queries.AllAnd | Qo.Parsing/Resources/Queries.cs:31-46 | the where clause holds the conditions linked by and |
| Queries.BoatQuery | Qo.Parsing/Resources/Queries.cs:79-102 | the boat-colour query selects s.sname from the relations found, with three conditions, the last comparing with the colour |
| Queries.BoatNumber | Qo.Parsing/Resources/Queries.cs:31-46 | the boat-number query has two conditions, the second comparing with 103 |
| Queries.RatedRecently | Qo.Parsing/Resources/Queries.cs:238-272 | query D has four conditions, the last two greater-than comparisons |
| Queries.Alone | Qo.Parsing/Resources/Queries.cs:48-56 | a one-query multi-query has no set operators |
| Queries.FirstRound | Qo.Parsing/Resources/Queries.cs:125-130 | the first query's lookups find sailors, reserves and boats and keep the relation count |
| Queries.SecondRound | Qo.Parsing/Resources/Queries.cs:168-173 | the second query's lookups find the same relations as the first when those still carry their names |
| Queries.ColourRelations | Qo.Parsing/Resources/Queries.cs:125-173 | both rounds of lookups agree on the positions found |
| Queries.TwoColours | Qo.Parsing/Resources/Queries.cs:115-221 | the two-query fixtures hold two queries over the same relations, linked by the given set operator |
| Queries.QueryA | Qo.Parsing/Resources/Queries.cs:14-57 | query A is one query over valid relations, keeping the relation count |
| Queries.QueryB | Qo.Parsing/Resources/Queries.cs:59-113 | query B is one query over valid relations, keeping the relation count |
| Queries.QueryD | Qo.Parsing/Resources/Queries.cs:223-283 | query D is one query with four conditions, keeping the relation count |
| Queries.FixturesNeedSailors | Qo.Parsing/Resources/Queries.cs:24 | every fixture fails with the sailors lookup's error when that lookup fails |
| Queries.QueryAAliases | Qo.Parsing/Resources/Queries.cs:24-29 | query A adds alias s to sailors and r to reserves, changes nothing else, and reads from those two |
| Queries.TwiceAliasedMeans | Qo.Parsing/Resources/Queries.cs:125-173 | two rounds of aliasing give each of the three relations its alias twice and leave the others unchanged |
| Queries.TwoColoursAliases | Qo.Parsing/Resources/Queries.cs:125-173 | the two-query fixtures add each alias twice, to the relations the first round found |
| Queries.AndRenders | Qo.Parsing/Resources/Queries.cs:44-46 | a where clause of conditions linked by and renders when each condition does |
| Queries.BoatQueryRenders | Qo.Parsing/Resources/Queries.cs:79-102 | the boat-colour where clause renders |
| Queries.BoatNumberRenders | Qo.Parsing/Resources/Queries.cs:31-46 | the boat-number where clause renders |
| Queries.RatedRecentlyRenders | Qo.Parsing/Resources/Queries.cs:238-272 | query D's where clause renders |
| Queries.AloneRenders | Qo.Parsing/Resources/Queries.cs:48-56 | a valid one-query multi-query renders |
| Queries.QueryARenders | Qo.Parsing/Resources/Queries.cs:14-57 | query A renders on any store where its lookups succeed |
| Queries.QueryBRenders | Qo.Parsing/Resources/Queries.cs:59-113 | query B renders on any store where its lookups succeed |
| Queries.QueryDRenders | Qo.Parsing/Resources/Queries.cs:223-283 | query D renders on any store where its lookups succeed |
| Queries.PairRenders | Qo.Parsing/Resources/Queries.cs:203-220 | two valid queries joined by a set operator render |
| Queries.TwoColoursRender | Qo.Parsing/Resources/Queries.cs:115-221 | the two-query fixtures render on any store where their lookups succeed |
| Queries.AliasRelation | Qo.Parsing/Resources/Queries.cs:24-25 | one lookup-and-alias on the schema object leaves its relations as specified, unchanged on failure |
| Queries.GetQueryA | Qo.Parsing/Resources/Queries.cs:14-57 | the method returns query A and leaves the schema as specified |
| Queries.GetQueryB | Qo.Parsing/Resources/Queries.cs:59-113 | the method returns query B and leaves the schema as specified |
| Queries.GetQueryD | Qo.Parsing/Resources/Queries.cs:223-283 | the method returns query D and leaves the schema as specified |
| Queries.AliasColours | Qo.Parsing/Resources/Queries.cs:125-130 | the first round on the schema object is as specified |
| Queries.AliasColoursAgain | Qo.Parsing/Resources/Queries.cs:168-173 | the second round on the schema object is as specified |
| Queries.BuildTwoColours | Qo.Parsing/Resources/Queries.cs:115-221 | the two-query construction returns the multi-query and leaves the schema as specified |
| Queries.GetQueryC | Qo.Parsing/Resources/Queries.cs:115-221 | query C is the red and green queries joined by union |
| Queries.GetQueryE | Qo.Parsing/Resources/Queries.cs:285-391 | query E is the red and green queries joined by intersect |
| Queries.GetQueryF | Qo.Parsing/Resources/Queries.cs:393-499 | query F is the red and green queries joined by except |
| Parser.Tokens | Qo.Parsing/QoParser.cs:417 | splitting at single spaces gives at least one word and no word holds a space |
| Parser.Trimmed | Qo.Parsing/QoParser.cs:455 | each text is trimmed, in place and order |
| Parser.PerformSimpleValidation | Qo.Parsing/QoParser.cs:675-685 | validation passes exactly when every query's words hold select and from, and otherwise throws "Query is invalid." |
| Parser.ValidationSplits | Qo.Parsing/QoParser.cs:677-684 | validating two lists in turn is validating their concatenation: the first failure wins |
| Parser.Satisfying | Qo.Parsing/QoParser.cs:634-637 | the positions found are exactly those of the relations satisfying the test, in increasing order |
| Parser.SingleOrDefault | Qo.Parsing/QoParser.cs:634-637 | nothing exactly when no relation satisfies the test, the only one that does, and more-than-one exactly when two do |
| Parser.AliasAt | Qo.Parsing/QoParser.cs:629 | the alias at the query counter exists exactly when the counter is below the alias count, and otherwise the index is out of range |
| Parser.QualifiedRelation | Qo.Parsing/QoParser.cs:626-643 | a qualified reference resolves to the relation of that name whenever one has it |
| Parser.AttributeOf | Qo.Parsing/QoParser.cs:613-673 | only the as form changes the catalog, by adding the written alias to one relation; every attribute read has no type and the query counter's number |
| Parser.BareAttribute | Qo.Parsing/QoParser.cs:661-670 | a bare name resolves to the only relation with that attribute and its alias at the counter, throws the conflict message when none has it, and never changes the catalog |
| Parser.BareConflict | Qo.Parsing/QoParser.cs:663-667 | the conflict is thrown exactly when no relation has the attribute |
| Parser.BareFound | Qo.Parsing/QoParser.cs:663-669 | a bare name succeeds exactly when one relation has the attribute and an alias at the counter |
| Parser.QualifiedAttribute | Qo.Parsing/QoParser.cs:620-646 | x.n takes name n and the counter alias of the relation named x, or else of the only relation with attribute n listing alias x; the written alias is dropped; otherwise the conflict is thrown |
| Parser.RenamedAttribute | Qo.Parsing/QoParser.cs:647-660 | n as x resolves to the only relation with attribute n already listing alias x, adds x to it again, and carries alias x |
| Parser.FromItems | Qo.Parsing/QoParser.cs:447-456 | without commas the relation texts are the words without the first from |
| Parser.BindRelation | Qo.Parsing/QoParser.cs:458-481 | a bound relation has the text's first word as name and the catalog gains an alias on it; on failure the catalog is unchanged |
| Parser.RelationTextWords | Qo.Parsing/QoParser.cs:461 | the words of n as x, of n x and of n are as written |
| Parser.FromAliases | Qo.Parsing/QoParser.cs:462-479 | n as x and n x give alias x, a bare n its first letter, written into the one relation named n; a failed lookup changes nothing |
| Parser.Bind | Qo.Parsing/QoParser.cs:458-482 | binding the relation texts in turn keeps every name of the catalog and returns, per text, the relation named by its first word |
| Parser.InsertByPriority | Qo.Parsing/QoParser.cs:483 | inserting by priority adds exactly that position |
| Parser.InsertByPriorityAscending | Qo.Parsing/QoParser.cs:483 | insertion into a priority-ordered list keeps it ordered |
| Parser.InsertByPriorityStable | Qo.Parsing/QoParser.cs:483 | insertion keeps the order of the relations of each priority |
| Parser.OrderByPriority | Qo.Parsing/QoParser.cs:483 | ordering by priority is a permutation of the from list, ascending by priority |
| Parser.OrderByPriorityStable | Qo.Parsing/QoParser.cs:483 | the order is stable: relations of equal priority keep their from-clause order |
| Parser.FromOf | Qo.Parsing/QoParser.cs:445-485 | the from clause read fits the catalog it leaves and is ordered by priority |
| Parser.SelectItems | Qo.Parsing/QoParser.cs:488-493 | without commas the attribute texts are the words without the first select |
| Parser.AttributeOfName | Qo.Parsing/QoParser.cs:613-673 | every attribute read carries the name written in its text |
| Parser.SelectAttributes | Qo.Parsing/QoParser.cs:495-498 | one attribute per text, in order, each with its written name and the counter's query number |
| Parser.SelectOf | Qo.Parsing/QoParser.cs:486-501 | the select clause holds one attribute per item, each with its written name |
| Parser.ComparisonWithEntry | Qo.Parsing/QoParser.cs:531 | the operator found is the one whose map entry is the text; no entry matching gives no-match |
| Parser.TrimmedIsNoEntry | Qo.Parsing/QoParser.cs:531 | a trimmed text followed by one space is never an entry of the operator map |
| Parser.ComparisonWithEntryIsLookup | Qo.Parsing/QoParser.cs:531 | the operator found is a key of the operator map whose entry is the text, and a failure means no entry of the map is the text |
| Parser.SymbolFindsOperator | Qo.Parsing/QoParser.cs:531 | an operator's symbol between spaces finds that operator |
| Parser.ReplaceCharRemoves | Qo.Parsing/QoParser.cs:610 | replacing a character by nothing removes exactly that character |
| Parser.ConditionValue | Qo.Parsing/QoParser.cs:605-611 | a number exactly when the text parses as one, otherwise the text with its quote characters removed |
| Parser.Side | Qo.Parsing/QoParser.cs:530-532 | a dotted side is an attribute of the current query, any other the literal value |
| Parser.ParseCondition | Qo.Parsing/QoParser.cs:527-550 | a condition read has a rendered operator and the counter's query number |
| Parser.SpacedWords | Qo.Parsing/QoParser.cs:529 | a condition with spaces has at least two words, none starting with whitespace |
| Parser.SpacedCondition | Qo.Parsing/QoParser.cs:527-533 | a spaced condition read has a rendered operator and the counter's query number |
| Parser.CompactCondition | Qo.Parsing/QoParser.cs:534-543 | a compact condition read has a rendered operator and the counter's query number |
| Parser.ConditionAsWrittenFails | Qo.Parsing/QoParser.cs:531 | as written, no condition is ever read, its operator never being found |
| Parser.SpacedAsWrittenFails | Qo.Parsing/QoParser.cs:531 | as written, a spaced condition fails on its trimmed operator word |
| Parser.CompactAsWrittenFails | Qo.Parsing/QoParser.cs:539-541 | as written, a compact condition fails on its trimmed operator text |
| Parser.WhereWords | Qo.Parsing/QoParser.cs:518 | the logical words are at most as many as the words |
| Parser.Extend | Qo.Parsing/QoParser.cs:574-586 | one loop round appends the condition and links it to the one before by the logical word |
| Parser.Readings | Qo.Parsing/QoParser.cs:519-580 | one reading per condition text, each numbered by the query counter |
| Parser.ReadingAt | Qo.Parsing/QoParser.cs:519-580 | reading i is condition text i read in the source's manner |
| Parser.Chain | Qo.Parsing/QoParser.cs:519-587 | the where clause of the loop holds exactly the readings, in order, each linked to the next |
| Parser.ChainFailsWithFirst | Qo.Parsing/QoParser.cs:521-550 | the loop throws the first condition's error when it cannot be read |
| Parser.SingleCondition | Qo.Parsing/QoParser.cs:591-600 | the single condition read has a rendered operator |
| Parser.ItemAt | Qo.Parsing/QoParser.cs:597-599 | an item exists exactly at a valid index, and is the list's item there |
| Parser.WhereWith | Qo.Parsing/QoParser.cs:502-603 | a where clause read has a condition, every one rendered, neighbours linked |
| Parser.OneCondition | Qo.Parsing/QoParser.cs:591-602 | the one-condition clause holds one rendered condition and no operator |
| Parser.WhereIntended | Qo.Parsing/QoParser.cs:502-603 | the corrected where clause renders and starts with "where " |
| Parser.WhereAsWrittenNeverReturns | Qo.Parsing/QoParser.cs:502-603 | as written, reading a where clause always throws |
| Parser.CompactConditionAsWritten | Qo.Parsing/QoParser.cs:591-594 | as written, where x=y throws no-match |
| Parser.ReadCompact | Qo.Parsing/QoParser.cs:534-543 | corrected, the compact condition x=y reads as x equals y |
| Parser.CompactConditionIntended | Qo.Parsing/QoParser.cs:502-603 | corrected, where x=y gives one condition x equals y and no operator |
| Parser.ReadBareWord | Qo.Parsing/QoParser.cs:536-542 | a condition without an operator throws an index out of range |
| Parser.SpacedConditionAsWritten | Qo.Parsing/QoParser.cs:511-515 | as written, where x = y is cut into three one-word conditions and throws an index out of range |
| Parser.ReadSpaced | Qo.Parsing/QoParser.cs:527-533 | corrected, the spaced condition x = y reads as x equals y |
| Parser.SpacedConditionIntended | Qo.Parsing/QoParser.cs:502-603 | corrected, where x = y gives one condition x equals y and no operator |
| Assembler.Cut | Qo.Parsing/QoParser.cs:418-431 | whereIndex is the first where and fromIndex the first from before it, each 0 when missing |
| Assembler.Scanned | Qo.Parsing/QoParser.cs:420-431 | the scan sees no where |
| Assembler.CutParts | Qo.Parsing/QoParser.cs:433-438 | when where follows from, the three ranges put the words back together, the select part holds neither keyword and the where part starts with where |
| Assembler.Boundaries | Qo.Parsing/QoParser.cs:418-431 | the scanning loop computes the two indices |
| Assembler.QueryOf | Qo.Parsing/QoParser.cs:415-444 | (corrected) an assembled query keeps its text, its from clause fits the catalog, and it has a rendering where clause exactly when where follows from, else keeps its own |
| Assembler.Clauses | Qo.Parsing/QoParser.cs:433-443 | (corrected) the clauses read keep the text and the where clause as for the whole assembly |
| Assembler.SelectThenWhere | Qo.Parsing/QoParser.cs:436-442 | (corrected) the select and where clauses read after the from clause keep the same facts |
| Assembler.QueryAsWritten | Qo.Parsing/QoParser.cs:415-444 | as written, assembling a query whose where follows its from always throws, since GetWhereStatement never returns |
| Assembler.QueryAsWrittenDiffers | Qo.Parsing/QoParser.cs:415-444 | the as-written assembly leaves the catalog as the corrected one does, equals it when no where follows the from, and throws otherwise |
| Assembler.BindThrowsAt | Qo.Parsing/QoParser.cs:458-482 | a binding that throws at one text throws that for the whole list |
| Assembler.SelectThrowsAt | Qo.Parsing/QoParser.cs:495-498 | a resolution that throws at one text throws that for the whole list |
| Assembler.ChainStops | Qo.Parsing/QoParser.cs:519-587 | once a round of the where loop throws, later rounds are never reached |
| Assembler.QueryTexts | Qo.Parsing/QoParser.cs:391 | a query string gives at least one sub-query text |
| Assembler.SetOperatorWords | Qo.Parsing/QoParser.cs:392-393 | the set-operator words are exactly the words of the string that are set operators |
| Assembler.OperatorFor | Qo.Parsing/QoParser.cs:409-410 | the operator found has that word, and no-match exactly when no operator does |
| Assembler.WordsHaveOperators | Qo.Parsing/QueryModel/MultiQuery.cs:13-18 | every set-operator word followed by a space names an operator |
| Assembler.Unassembled | Qo.Parsing/QoParser.cs:395-401 | one fresh query per text, holding that text |
| Assembler.Links | Qo.Parsing/QoParser.cs:403-413 | the linking loop keeps earlier operators and links each pair of neighbours by the operator of its word |
| Assembler.LinksOfWords | Qo.Parsing/QoParser.cs:405-412 | linking succeeds exactly when there are enough words, and otherwise throws an index out of range |
| Assembler.PairsWordLinked | Qo.Parsing/QoParser.cs:411 | operators keyed by neighbouring pairs link every pair of neighbours |
| Assembler.MultiAssembly | Qo.Parsing/QoParser.cs:389-414 | a null query string throws; otherwise one new query per sub-query text is appended and earlier operators are kept |
| Assembler.MultiQueryOfText | Qo.Parsing/QoParser.cs:389-414 | a string gives one query per sub-query text, throws exactly when set-operator words are too few, and otherwise links every neighbour pair and renders |
| Assembler.FreshFacts | Qo.Parsing/QoParser.cs:395-413 | the same facts for any texts and set-operator words |
| Assembler.UnassembledRender | Qo.Parsing/QoParser.cs:397-400 | fresh queries are valid and render |
| Assembler.LinkedPairs | Qo.Parsing/QoParser.cs:405-412 | a fresh linking keys its operators by neighbouring pairs, each with a word |
| Assembler.QoParser.constructor | Qo.Parsing/QoParser.cs:30-34 | a new parser owns a fresh default catalog, no last query string and counter 0 |
| Assembler.QoParser.WithSchema | Qo.Parsing/QoParser.cs:35-39 | a parser over a given catalog shares it, with no last query string and counter 0 |
| Assembler.QoParser.GetAttribute | Qo.Parsing/QoParser.cs:613-673 | the method returns the attribute and leaves the catalog as specified |
| Assembler.QoParser.GetFromStatement | Qo.Parsing/QoParser.cs:445-485 | the method returns the from clause and leaves the catalog as specified |
| Assembler.QoParser.GetSelectStatement | Qo.Parsing/QoParser.cs:486-501 | the method returns the select clause and leaves the catalog as specified |
| Assembler.QoParser.GetWhereStatement | Qo.Parsing/QoParser.cs:502-603 | the method returns the corrected where clause |
| Assembler.QoParser.AssembleQuery | Qo.Parsing/QoParser.cs:415-444 | the method assembles the query and leaves the catalog as specified |
| Assembler.QoParser.AssembleMultiQuery | Qo.Parsing/QoParser.cs:389-414 | the method leaves the multi-query and outcome as specified |
| Assembler.BindRelations | Qo.Parsing/QoParser.cs:458-482 | the binding loop leaves the catalog and result as specified |
| Assembler.WhereCases | Qo.Parsing/QoParser.cs:511-603 | the corrected where clause is the loop for several conditions, the single path for one, and an index error for none |
| Assembler.LinkConditions | Qo.Parsing/QoParser.cs:516-588 | the loop over the condition readings computes the chained where clause |
| Assembler.AppendQueries | Qo.Parsing/QoParser.cs:395-401 | the loop appends one fresh query per text |
| Assembler.LinkQueries | Qo.Parsing/QoParser.cs:403-413 | the linking loop computes the specified operators and outcome |
| Assembler.NewParserMultiQuery | Qo.Parsing/QoParser.cs:389-391 | a new parser has no last query string, so assembling a multi-query throws a null reference |

## Left out

- The web front end (Qo.Web), the console and the test program: HTTP, JSON, browser storage and drawing are not part of this model.
- `QoParser.Parse` and the `Process*` methods: they hand the text to the foreign T-SQL ScriptDom parser and only write debug traces.
- LegacyOptimizer.GenerateGraph: the drawing is modelled up to its node declarations, each a node's id with its content string, which is where it can throw. The header and footer lines, the edge lines of `GetEdgesList` and the writing of the `.gv` file (Optimizer.cs:317-343) are left out as file output. `GetEdgesList` walks the same tree as `GetNodesList` and throws nothing of its own. The file name suffixes are not modelled either.
- `QoOptimizer.ApplyRule6` (QoOptimizer.cs:441-444) has an empty body, so there is nothing to model.
- `GetAdjoiningSelect` (QoOptimizer.cs:880-892) is called nowhere, so it is left out.
- Parser.ConditionValue: `double.TryParse` is modelled as parsing a 32-bit decimal integer; other numbers (fractions, exponents, signs, separators) are kept as text, because floating point is not modelled.
- QueryModel.GetSide: the double branches of `Condition.GetSide` are not modelled, for the same reason, so a string that reads as a non-integral number renders quoted.
- TreeQueries.GetAccessibleAttributes: the write of `Alias` into the catalog attribute objects (QoOptimizer.cs:543) is not modelled. The returned attributes carry the alias, and no modelled reader looks at the catalog attributes' aliases afterwards.
- RelationalModel.SwapOperators: works on a selection value. The C# swaps the sides of shared `Condition` objects in place, so aliasing between selections is not captured.
- Symbols the code uses but the shown files do not define are kept symbolic: `Relation.AliasSymbol`, `Selection.Symbol`, `GetConditionsString`, `Projection.GetAttributeString`, and the `Division` set operator.
- Walks up `Parent` links and down child links carry fuel: `GetParentalJoinNode`, the climbs of rules 2 and 5, the scans of `ContainsRelation` and the legacy rule 2 ascent stop with `Diverges` where the C# would loop forever or run off the root.
- The `ToString` folds of `Aggregate`, the statements and `Function` are recursive functions rather than loops over a local string.
- Optimization.Optimize: rule 2 in the source returns a new root that only the local variable sees; `QoPackage.Tree` is not reassigned, and the model keeps it that way.
- Assembler.QoParser: `_queryCounter` is never advanced and `_lastQueryString` is never assigned in QoParser.cs, so the model keeps the counter at 0 and the last query string absent.
- Assembler.QoParser.GetWhereStatement and Assembler.QoParser.AssembleQuery use the corrected where-clause reading; the as-written reading, which always throws, is modelled by Parser.WhereAsWritten (see Findings).
- Assembler.QueryOf: assembles the where clause with the corrected reading (`Parser.WhereIntended`), so a query whose `where` follows its `from` can assemble, where the program always throws (QoParser.cs:437). The program's behaviour is `Assembler.QueryAsWritten`.
- Assembler.Clauses: its where clause is the corrected reading, as explained under Assembler.QueryOf.
- Assembler.SelectThenWhere: reads the where clause with `Parser.WhereIntended`, as explained under Assembler.QueryOf.
- SelectionPushdown.Rank: places the relations with the corrected loop (`Placement`, Findings row 3), not the loop as written at QoOptimizer.cs:196-214 (`PlacementAsWritten`). In the program, a relation placed on the way down names the cartesian below the one that holds it as its parent, and the burying that follows reads that parent (QoOptimizer.cs:260, 271). So every member below that runs rule 2 models the corrected rule 2, and after a reordering its tree can differ from the program's.
- SelectionPushdown.PlaceRelations: follows the corrected `Placement`, as explained under SelectionPushdown.Rank.
- SelectionPushdown.RankRelations: ends as the corrected `Rank`.
- SelectionPushdown.Pushdown: ranks with the corrected placement, so its later non-join burying can differ from the program's.
- SelectionPushdown.ApplyPushdown: ends as the corrected `Pushdown`.
- SelectionPushdown.Rule2: is rule 2 with the corrected placement.
- SelectionPushdown.ApplyRule2: ends as the corrected `Rule2`.
- SelectionPushdown.Rule2Sides: runs the corrected `Rule2` on both sides of a set operator.
- SelectionPushdown.ApplyRule2Sides: ends as the corrected `Rule2Sides`.
- Optimization.RuleOn: dispatches rule 2 to the corrected `Rule2`.
- Optimization.Step: its rule 2 step is the corrected one.
- Optimization.Steps: the trees after rule 2 follow the corrected placement.
- Optimization.Optimized: the stored trees after rule 2, and whether a later rule throws, follow the corrected placement.
- Optimization.QoOptimizer.Advance: its rule 2 block is the corrected one.
- Optimization.QoOptimizer.RunStep: its rule 2 step is the corrected one.
- Optimization.QoOptimizer.ApplyRule: its rule 2 call is the corrected one.
- Optimization.QoOptimizer.ApplyRuleAt: returns the root of the corrected rule 2.
- Optimization.QoOptimizer.Optimize: the package's trees after rule 2 follow the corrected placement.
- RelationalModel.Selection, Statements.MultiQuery and Assembler.QoParser key the operator between two conditions, or between two queries, by the pair of their positions in the list. The C# dictionaries key by the pair of object references, since `Tuple` compares its items with their own `Equals`, and these classes do not override it. The two agree as long as no condition or query object appears twice in one list, which holds for every list the parser and the assembler build.
- Concurrency and the process-wide static id counter across threads are not modelled; the counter is a field of the arena.

## Findings

| source | as written | input that shows it | evidently intended | confidence | as-written member | corrected member |
|---|---|---|---|---|---|---|
| Qo.Parsing/QoParser.cs:531-594 | the operator of a condition is looked up as its trimmed text plus one space, but every entry of `Condition.OperatorMap` has a space on both sides, so no lookup ever succeeds and `GetWhereStatement` always throws | `where a=b` throws "no matching element" | the condition's operator text, trimmed, compared with each entry trimmed | not executed | Parser.CompactConditionAsWritten | Parser.CompactConditionIntended |
| Qo.Parsing/QoParser.cs:511-515 | when the where part holds no `and` or `or`, each of its words is taken as a condition of its own, so a condition written with spaces is cut apart | `where a = b` gives three one-word conditions and throws an index out of range | a spaced condition `a = b` read as one condition | not executed | Parser.SpacedConditionAsWritten | Parser.SpacedConditionIntended |
| Qo.Parsing/QoOptimizer.cs:210-213 | in the reordering loop the relation's `Parent` is set after the cursor has already moved down to the next cartesian | three relations under two cartesians, order [4, 3, 2]: the relation hung at the top cartesian's right names the lower cartesian as its parent | each relation's `Parent` is the cartesian that holds it | not executed | SelectionPushdown.PlacementParentMismatch | SelectionPushdown.PlacementLinks |
| Qo.Parsing/QoOptimizer.cs:706-720 | `GetAllRelationNodes` recurses into `GetAllCartesianProductNodes` for both children | a projection over one relation: the listing is empty | the relation leaves of the tree in pre-order | not executed | TreeQueries.RelationNodesAsWrittenMissesLeaf | TreeQueries.ListingMembers |
| Qo.Parsing/QoOptimizer.cs:921-939 | the check of the right child recurses into the left child again | a node with only a right child throws a null reference; a broken right subtree passes | every child in the subtree points back to its parent | not executed | TreeQueries.ProperAsWrittenCounterexamples | TreeQueries.ProperMeansPointBack |
