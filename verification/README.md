# Verified models of rs-polygraph

rs-polygraph compiles openCypher to a logical query algebra (LQA) and then to SPARQL. This project models the parts
of it where a wrong step changes the meaning of a query, and proves what those parts promise: lowering keeps
three-valued values and pattern matches, the write compiler's sequences of SPARQL updates do to the store what the
clause says, the bag algebra and the differential oracle compute what they are named for, and the smaller text and
encoding algorithms round-trip. Where a promise does not hold of the code, the model keeps the code, a lemma gives an
input that shows it, and the exact condition under which it does hold is proved.

`dafny verify dfyconfig.toml` checks everything. The files, in the order in which they build on each other:

- **Values and expressions.** `Prelude`, `Text` (Rust's `contains` and `replace`), `Lqa` (LQA expressions and their
  meaning in Kleene logic, for every choice of arithmetic, comparison, functions and aggregates), `Cypher` (the
  parser's expressions with a meaning of their own), `Range`.
- **Lowering.** `LowerExpr`, `Lowerable` (which expressions are lowered), `LoweredLiterals`, `Aggregates` (extraction of nested aggregates,
  rewriting of sort keys) and `AggregateParts` (where aggregates are looked for), `ReturnItems` and `ReturnNames` (RETURN/WITH
  items and their names), `Ops` (operator trees read as conjunctive queries over a property graph), `Patterns` (path patterns)
  and `PatternScans` (the shape of their trees), `AstLowerer` (the pass with its counter and its sets of seen variables as a class).
- **Writes.** `Sparql` (a store is a set of triples; an update solves its WHERE group once and then deletes and
  inserts, section 3.1.3 of SPARQL 1.1 Update), `WriteSet`, `SetAccepted` and `SetEffect` (SET), `Where` and `WhereMeaning` (the
  WHERE clause built from operators), `WhereNames` (named relationships), `WhereOptional` (OPTIONAL MATCH), `WhereExpands`
  (several types, no type, renames), `Constants` and `WherePredicates` (how constants are written, and what becomes of single
  predicates), `WhereFilters` (two properties compared), `WhereLabels` (NOT with several labels), `WriteMerge`, `MergeAccepted`,
  `NodeMergeEffect`, `RelMergeEffect` and `RowByRow` (MERGE), `SetExact` (when SET loses its match), `SetNoMatch` (SET without a
  MATCH), `SetUnbound` (SET on a relationship), `OnMatch` (ON MATCH of MERGE).
- **Checking harness.** `Bag`, `Matching`, `Oracle`, `Base64`.
- **Routing, parsing, running.** `Routing`, `ComparisonChain`, `Runtime`, `Normalize`, `Escaping`, `ListText`.

Code that updates state in loops is modelled by methods with the same loops (`AstLowerer.Lowerer`, `WriteMerge.Merger`,
`Routing`, `Bag`, `Matching`, ...), each tied to a specification function; the lemmas are about those functions.

Behaviour of the code that the proofs bring out, each with a lemma in the table:

- `SET n.a = ..., n.b = ...` has no guard like the one of `SET n += {...}`: an assignment that changes what the MATCH
  looked for hides the node from the assignments after it.
- `SET r.k = ...`, r being a relationship, writes to every node and relationship of the store that has k, as soon as the
  MATCH finds anything, and to none that lacks it.
- `MATCH ... OPTIONAL MATCH ... SET b.k = ...`, b bound by the optional part alone: as soon as one row has no b, everything in
  the store that has k is written to.
- ON MATCH of a MERGE is also carried out on the node or relationship that the MERGE has just made.
- The WHERE clause of a write compares terms: `x.k = 1.0` misses nodes whose k is the integer 1, `x.k = '[1]'` finds the
  list [1], and `x.k <> 1` misses values that are not numbers.
- A relationship MERGE is accepted when the name of an end is merely a prefix of some variable of the context, and
  then never makes anything.
- A node MERGE rewrites the text of the pattern, so a label or value that contains `?x` (x being the variable),
  `OPTIONAL` or `FILTER` makes every run create another node.
- An undirected relationship MERGE creates both directions for mirrored rows, does not recognise a relationship with
  properties from the other end, and between nodes known by IRI looks one way only.
- Predicates without a SPARQL form are skipped in the WHERE clause of a write, which then reaches more nodes than the
  MATCH selects.
- `NOT n:A:B` in the WHERE clause of a write asks for neither label. A relationship of several types must have all of them, and
  an undirected one without a type also leads to labels and property values.
- `a_b.c` and `a.b_c` are looked up under the same SPARQL variable, so that a comparison of the two in the WHERE clause of a
  write compares a value with itself: `a_b.c <> a.b_c` never holds.
- A relationship type that is also a property key lets a MATCH bind the far end to a literal.
- Inline properties of anonymous relationships are dropped by lowering.
- The greedy comparison of result bags depends on row order as soon as two integers round to the same float.
- `NOT -a`, and a negation on either side of AND, OR or XOR, is refused although it has a value where a is null; an aggregate in
  a map is taken for a group key.
- The parser reads `\b`, `\f`, `\uXXXX` and `\UXXXXXXXX` in strings as the letter, and the digits, without the backslash.
- A typed literal with a backslash, and a string with a backslash in the harness, are not read back as written.

## Model

| member | source | states |
|---|---|---|
| LowerExpr.LoweringPreservesValues | crates/polygraph/src/lqa/lower.rs:731-899 | whenever lowering succeeds and the Cypher expression has a value, the LQA expression has the same one, in every environment and group; covers arithmetic, negated literals, AND/OR/NOT, XOR, comparisons, string operators, functions, lists, maps, subscripts, both forms of CASE, comprehensions, aggregates and folded ranges |
| LowerExpr.LoweringPreservesErrors | crates/polygraph/src/lqa/lower.rs:731-899 | without a subscript fold or a CASE whose subject is never compared, lowering keeps type errors as well: both sides agree on every input |
| Lowerable.LoweredIff | crates/polygraph/src/lqa/lower.rs:731-899 | an expression is lowered if and only if, in every part that lowering reaches, no operand of NOT, AND, OR or XOR is a number, a string, a list, a map or a negation, no right side of IN is a scalar or a map, and the last increment of every folded range fits i64; stated by constructor, without the two checks |
| Lowerable.RefusedHasNoValue | crates/polygraph/src/lqa/lower.rs:1709-1730 | an operation on a literal, list or map that is refused for its type has no value in Cypher, in any environment |
| Lowerable.RefusedNegationIff | crates/polygraph/src/lqa/lower.rs:1709-1720 | a refused negation is another matter: NOT -a has a value in Cypher if and only if a is null |
| Lowerable.RefusalNames | crates/polygraph/src/lqa/lower.rs:772-899 | the error names the operation refused; a range that leaves i64 is the other error |
| LoweredLiterals.LiteralsFit | crates/polygraph/src/lqa/lower.rs:731-899 | integer literals of the lowered expression are i64 if those of the parsed one are, negated literals and folded ranges included |
| Lowerable.FoldedRange | crates/polygraph/src/lqa/lower.rs:866-899 | a call of range in any case, with two or three integer literals and a step other than zero, becomes the list of its progression if and only if the last increment fits i64, and is refused otherwise |
| LowerExpr.SubscriptFoldForgetsErrors | crates/polygraph/src/lqa/lower.rs:1264-1278 | the constant subscript fold loses an error: [1, NOT 3][0] fails in Cypher and lowers to 1 |
| LowerExpr.SubscriptFoldIff | crates/polygraph/src/lqa/lower.rs:1264-1278 | a folded subscript agrees with Cypher, errors included, if and only if every element has a value or the one picked has none either |
| LowerExpr.XorDesugars | crates/polygraph/src/lqa/lower.rs:803-816 | (a OR b) AND NOT (a AND b) has the three-valued value of a XOR b, errors included |
| LowerExpr.StringOperators | crates/polygraph/src/lqa/lower.rs:836-857 | the calls startsWith, endsWith, contains and regex mean the comparison operators they replace |
| Lowerable.StringOperatorsAreCalls | crates/polygraph/src/lqa/lower.rs:836-857 | STARTS WITH, ENDS WITH, CONTAINS and =~ become calls of these names, and no other comparison does |
| LowerExpr.PreservesCase | crates/polygraph/src/lqa/lower.rs:1361-1390 | simple CASE turned into searched CASE with a copied subject keeps its value, null subjects included |
| LowerExpr.PreservesRange | crates/polygraph/src/lqa/lower.rs:866-899 | a call of range folded to a literal list has the value of the call |
| Range.ProgressionIsArithmetic | crates/polygraph/src/lqa/lower.rs:892-897 | the k-th element is start + k * step, and there are floor((end - start) / step) + 1 of them, or none |
| Range.LoopIsProgression | crates/polygraph/src/lqa/lower.rs:892-897 | the loop yields exactly that progression if and only if its last increment fits i64 |
| Range.FoldRange | crates/polygraph/src/lqa/lower.rs:890-899 | the while loop terminates for every non-zero step and computes the progression exactly when the last increment fits i64 |
| Lqa.OuterCoincidence | crates/polygraph/src/lqa/expr.rs:296-420 | the value of an expression depends only on its free variables outside aggregates and, in the rows of the group, on its free variables |
| Lqa.KleeneLogic | crates/polygraph/src/lqa/expr.rs:296-420 | in the order false, null, true AND is the lesser operand, OR the greater, NOT turns the order around, and XOR is null as soon as an operand is |
| Aggregates.ExtractNestedAggregates | crates/polygraph/src/lqa/lower.rs:1835-1899 | the pass that pushes into the aggregate list and bumps the counter computes the rewritten expression, the aggregates found and the next counter |
| Aggregates.ExtractAliases | crates/polygraph/src/lqa/lower.rs:1837-1845 | extraction hands out consecutive generated aliases, one per aggregate and none twice |
| Aggregates.ExtractPreserves | crates/polygraph/src/lqa/lower.rs:1835-1899 | with every alias bound to its aggregate over the group, and the variables outside aggregates kept, the rewritten expression has the value of the original, unless an aggregate inside a comprehension mentions its variable |
| Aggregates.ExtractComplete | crates/polygraph/src/lqa/lower.rs:1783-1899 | an aggregate is left behind if and only if one stands where extraction does not look |
| Aggregates.ComparisonHidesAggregate | crates/polygraph/src/lqa/lower.rs:1835-1899 | such a place: count(n) > 1 comes back unchanged |
| AggregateParts.ContainsAggregateIff | crates/polygraph/src/lqa/lower.rs:1783-1830 | the search finds an aggregate if and only if one stands in the expression other than below a map, a subscript, a label check or an aggregate |
| AggregateParts.GroupKeyIff | crates/polygraph/src/lqa/lower.rs:600-662 | an item is a group key if and only if the search finds none in it and it is not the folded size |
| AggregateParts.MapHidesAggregate | crates/polygraph/src/lqa/lower.rs:1783-1830 | so the map {total: count(*)} is a group key |
| Aggregates.RewritePreserves | crates/polygraph/src/lqa/lower.rs:1744-1779 | a sort key rewritten to aliases has the value of the key wherever the aliases are bound |
| AggregateParts.RewriteReplaces | crates/polygraph/src/lqa/lower.rs:1744-1779 | a rewritten sort key reaches an aggregate, through sums, differences, products, quotients and remainders, if and only if the key did and the aggregate is not among those computed |
| ReturnItems.ItemsKeepTheirValues | crates/polygraph/src/lqa/lower.rs:561-663 | every RETURN or WITH item, evaluated where the aggregate outputs are bound and the variables outside aggregates keep their values, has its Cypher value |
| ReturnItems.AliasesSplit | crates/polygraph/src/lqa/lower.rs:1678-1703 | output names are pairwise distinct, and an alias is a group key, an aggregate output or a post-group item exactly according to the kind of its expression |
| ReturnNames.NamesOfItems | crates/polygraph/src/lqa/lower.rs:575-599 | every projected alias is the text after AS, else the name of the variable that the item is, else a generated name, and the column shown, recorded where it is not the alias, is the text after AS, else that of a variable, a property or a call |
| ReturnNames.NaturalIff | crates/polygraph/src/lqa/lower.rs:1908-1924 | the text of an expression, for variables, properties and calls of such at any depth, and none for others |
| ReturnNames.SizeIsFolded | crates/polygraph/src/lqa/lower.rs:600-627 | size([x IN l WHERE x <> null]), written either way around, becomes the constant 0 after the grouping, with one count that keeps the group |
| ReturnNames.SizeTestIff | crates/polygraph/src/lqa/lower.rs:1637-1676 | and no other expression is folded |
| ReturnNames.ListsAreRecorded | crates/polygraph/src/lqa/lower.rs:650-662 | the literal lists recorded are those of the items that lower to a list, the last one for a name |
| ReturnItems.SizeFoldExact | crates/polygraph/src/lqa/lower.rs:1637-1676 | folding size([x IN l WHERE x <> null]) to 0 is right if and only if l is a list |
| Patterns.ElementsLowered | crates/polygraph/src/lqa/lower.rs:309-424 | invariant of the scan over node_idx, last_src and after_rel: the tree built so far is satisfied exactly when the elements read so far hold |
| Patterns.ListLowered | crates/polygraph/src/lqa/lower.rs:269-284 | for given nodes at the anonymous positions, the tree of a pattern list is satisfied exactly when all patterns hold |
| Patterns.PatternsFaithful | crates/polygraph/src/lqa/lower.rs:269-427 | for every starting set of bound variables, an assignment extends to one that satisfies the lowered tree if and only if it matches the patterns, inline properties of anonymous relationships left aside |
| Patterns.NothingForgotten | crates/polygraph/src/lqa/lower.rs:411-418 | without such properties nothing is left aside |
| Patterns.JoinsIsConnects | crates/polygraph/src/lqa/lower.rs:389-400 | the lowered direction and range mean what is drawn: an arrow is followed from its tail to its head, a line either way, and a path has at least one step where no lower bound is written |
| Patterns.ListLoweredIff | crates/polygraph/src/lqa/lower.rs:269-451 | a list of patterns as the parser builds them is lowered if and only if it is not empty and every inline value that is kept can be lowered |
| PatternScans.ScannedOnce | crates/polygraph/src/lqa/lower.rs:331-379 | no variable is scanned twice in the tree of a list of patterns, nor one that clauses before it have bound |
| PatternScans.OneIsSeen | crates/polygraph/src/lqa/lower.rs:331-427 | the nodes of a pattern, generated names among them, are seen afterwards |
| PatternScans.PathIsCarried | crates/polygraph/src/lqa/lower.rs:380-427 | one step for each relationship, each with the name of the path |
| Patterns.PatternsExact | crates/polygraph/src/lqa/lower.rs:269-427 | then an assignment extends to one that satisfies the lowered tree of a pattern list if and only if it matches the patterns |
| Patterns.AnonymousPropertiesAreForgotten | crates/polygraph/src/lqa/lower.rs:411-418 | with them lowering gives the same tree as without, although the matches differ |
| Patterns.TreeIsRightIff | crates/polygraph/src/lqa/lower.rs:411-418 | for every pattern list and assignment: the lowered tree is right if and only if the assignment does not fail to match for want of such a property alone |
| Patterns.AnonymousPropertiesIff | crates/polygraph/src/lqa/lower.rs:411-418 | of one anonymous relationship between two named nodes, with any properties, labels, types, direction and length: right if and only if the nodes, when joined without the properties, are joined with them |
| Patterns.BindNamesBinds | crates/polygraph/src/lqa/lower.rs:302-308 | generated names for anonymous nodes are fresh: any choice of nodes can be put into the assignment |
| Patterns.AlternatingNeverStuck | crates/polygraph/src/lqa/lower.rs:309-379 | from any state of the scan that has names for the rest of an alternating pattern, it never misses a source or reads node_names out of range |
| Patterns.OnlyExpressionsFail | crates/polygraph/src/lqa/lower.rs:299-427 | an alternating pattern is lowered or one of its expressions cannot be |
| AstLowerer.Lowerer.constructor | crates/polygraph/src/lqa/lower.rs:49-56 | a new pass has a zero counter and knows no variables |
| AstLowerer.Lowerer.FreshAnon | crates/polygraph/src/lqa/lower.rs:58-62 | a fresh name uses up one count |
| AstLowerer.Lowerer.AssignNames | crates/polygraph/src/lqa/lower.rs:302-308 | names every node position in order, using one count per anonymous node |
| AstLowerer.Lowerer.ApplyPropPredicates | crates/polygraph/src/lqa/lower.rs:429-451 | wraps one Selection per inline property, or reports the expression that cannot be lowered |
| AstLowerer.Lowerer.LowerPattern | crates/polygraph/src/lqa/lower.rs:299-427 | the imperative scan computes the tree and the new set of seen variables that Patterns gives meaning to, and only adds seen variables |
| AstLowerer.Lowerer.LowerPatternList | crates/polygraph/src/lqa/lower.rs:269-284 | the same for lists of patterns, joined by products; an empty list is an error |
| AstLowerer.Lowerer.LowerReturnItems | crates/polygraph/src/lqa/lower.rs:548-668 | the imperative pass over the items computes the projections, aggregates and post-group aliases of ReturnItems and records literal lists |
| Sparql.FrameSolves | crates/polygraph/src/lqa/write.rs:1541-1700 | a WHERE group cannot tell apart two stores that differ only where none of its patterns looks |
| WriteSet.CompileSetItems | crates/polygraph/src/lqa/write.rs:1541-1700 | the loop over SET items appends exactly the updates of the items in order, or stops with the first item's error |
| WriteSet.CompileSetItem | crates/polygraph/src/lqa/write.rs:1549-1693 | a property is tried as a constant before null, a map entry by entry, labels one by one; each item's updates or its refusal are those of the specification |
| WriteSet.CompileMapPairs | crates/polygraph/src/lqa/write.rs:1635-1688 | one update per map entry, until a key that the WHERE parts mention or a value that is not constant is refused |
| SetAccepted.ClauseAcceptedIff | crates/polygraph/src/lqa/write.rs:1541-1700 | a SET clause is compiled if and only if properties and map entries are constants or null and no key of a map is mentioned by the context; else the first item that is not acceptable decides the error |
| SetAccepted.MentionsIff | crates/polygraph/src/lqa/write.rs:1163-1166 | a part mentions exactly the IRIs that stand in it |
| WriteSet.WhereSolutions | crates/polygraph/src/lqa/write.rs:1561-1577 | looking up the old value, OPTIONAL or not, neither loses nor multiplies what the filters of the match context decide |
| WriteSet.WriteHasEffect | crates/polygraph/src/lqa/write.rs:1561-1577 | one update gives every node its context matches exactly the value written, or the label, and leaves every other triple alone |
| SetEffect.AssignmentsRun | crates/polygraph/src/lqa/write.rs:1541-1700 | a run of assignments, each solving the match context again on the changed store, does to the nodes matched at the start what making them all at once does, provided no assignment but the last writes where the context looks |
| SetEffect.SetClauseEffect | crates/polygraph/src/lqa/write.rs:1541-1700 | the same for every compiled SET clause of properties, labels and maps on any variables that the clause binds |
| SetExact.WritesIff | crates/polygraph/src/lqa/write.rs:1541-1700 | for the pattern of one node and writes of values, null and labels: one update after the other does what all do at once, on every store, if and only if whatever follows the first write that takes a property of the pattern away is in force already |
| SetExact.SetClauseIff | crates/polygraph/src/lqa/write.rs:1541-1700 | the same of a compiled SET clause of properties, maps and labels on that node |
| SetEffect.MapMergeEffect | crates/polygraph/src/lqa/write.rs:1640-1691 | a compiled map merge leaves every originally matched node with exactly the merged properties (null removes, the last entry for a key wins) and changes nothing else; the key guard is all it needs of a context with fixed predicates |
| SetEffect.UnmentionedAvoids | crates/polygraph/src/lqa/write.rs:1163-1166 | what map_key_in_where is for: a context part that does not mention a property's IRI cannot see the property's triples |
| SetExact.PropertyUpdatesLoseTheMatch | crates/polygraph/src/lqa/write.rs:1549-1577 | without the guard it fails: the compiled MATCH (n {a: v}) SET n.a = w, n.b = u never sets b, over a store with a matching node, while the same map merge is refused |
| SetUnbound.UnboundWriteHasEffect | crates/polygraph/src/lqa/write.rs:1549-1577 | an assignment to a name that no part of the clause binds writes to every subject with the property, as soon as the clause has a solution |
| SetUnbound.RelationshipSetIff | crates/polygraph/src/lqa/write.rs:1549-1577 | MATCH ... SET r.k = e, r naming a relationship: so it is for the compiled clause, on every store; it does what SET means if and only if nothing is matched, or every matched relationship has k before (unless e is null) and everything else that has k has just the value written |
| SetNoMatch.NoMatchIff | crates/polygraph/src/lqa/write.rs:1541-1577 | a SET clause without a MATCH, of any items on any variables, makes every assignment to every node of the store, on every store, if and only if nothing that is not in force already follows an item that takes the mark of a node away |
| SetNoMatch.NoMatchWritesAll | crates/polygraph/src/lqa/write.rs:1541-1577 | so it does whenever no key is that of the mark |
| WhereOptional.SetOverOptionalIff | crates/polygraph/src/lqa/write.rs:1549-1577 | MATCH a OPTIONAL MATCH b SET x.k = e, x bound by b alone: as soon as some row lacks x the update writes to whatever has k; right if and only if no row does or all of that has just the value written |
| WhereMeaning.FlatReaches | crates/polygraph/src/lqa/write.rs:709-806 | joining parts left to right binds all their variables so that every part matches, whatever the order of the parts |
| WhereMeaning.PredicateHolds | crates/polygraph/src/lqa/write.rs:1044-1101 | the parts of a predicate (property equalities, label checks, absence of a label, conjunctions) hold exactly when the predicate is true in three-valued logic, where terms decide its own equalities rightly |
| WhereMeaning.OpHolds | crates/polygraph/src/lqa/write.rs:709-797 | the parts of scans, typed expansions in all directions, selections and products hold exactly when the operators are satisfied and all variables are nodes, where terms decide the equalities of the tree rightly |
| WhereMeaning.WhereIsSat | crates/polygraph/src/lqa/write.rs:709-797 | over the stored form of a property graph, an assignment of nodes is a solution of the WHERE clause, several MATCH clauses after one another included, if and only if it satisfies the operator tree, provided that under it terms decide the equalities of the tree rightly; when they do is `WherePredicates.AgreeIff` |
| WhereMeaning.SatIsFound | crates/polygraph/src/lqa/write.rs:709-797 | every satisfying assignment is found as a solution, with the same proviso |
| WhereMeaning.MatchedNodes | crates/polygraph/src/lqa/write.rs:709-797 | the nodes a SET works on are those that some satisfying assignment gives the variable, with the same proviso |
| WhereNames.NamedIsSat | crates/polygraph/src/lqa/write.rs:709-797 | the same for relationships with names that stand for nothing else: the solutions are the assignments of nodes that satisfy the operators for some choice of the named relationships |
| WhereNames.MapMergeOverMatch | crates/polygraph/src/lqa/write.rs:1640-1691 | end to end: over the stored property graph, a compiled MATCH ... SET x += {...}, x being any node variable of the MATCH, gives exactly the nodes that the operator tree binds x to exactly the merged properties, and changes nothing else; for typed relationships of fixed length, anonymous or with names of their own, for predicates with a triple form, and with the proviso that terms decide the equalities of the tree rightly |
| WhereOptional.OptionalIsOuterJoin | crates/polygraph/src/lqa/write.rs:799-806 | the solutions for MATCH a OPTIONAL MATCH b are the rows of a, each extended by every way of satisfying b and left as it is where there is none |
| WhereOptional.OptionalsKeepNodes | crates/polygraph/src/lqa/write.rs:799-806 | under any number of OPTIONAL MATCH a variable of the MATCH has the nodes that it has without them |
| WhereOptional.MapMergeOverOptional | crates/polygraph/src/lqa/write.rs:799-806 | so a map merge over them works on exactly the nodes that the MATCH binds |
| WhereExpands.SeveralTypesIff | crates/polygraph/src/lqa/write.rs:769-788 | several types are joined as if the nodes had to be connected by each: right if and only if, of the rows below, nodes joined by one of the types are joined by all |
| WhereExpands.UntypedDirected | crates/polygraph/src/lqa/write.rs:736-762 | without a type a directed step is right: the predicate variable ranges over the types that lead from node to node |
| WhereExpands.UntypedUndirectedIff | crates/polygraph/src/lqa/write.rs:763-768 | an undirected one is right if and only if nothing is matched below, since it also leads to labels, property values and the mark of a node |
| WhereExpands.RenamedSolutions | crates/polygraph/src/lqa/write.rs:865-884 | WITH n AS a: the solutions are those below with the new names bound to the terms of the old |
| WhereExpands.RenamedNodes | crates/polygraph/src/lqa/write.rs:865-884 | so the new name has the nodes of the old |
| WhereLabels.ExpressibleIff | crates/polygraph/src/lqa/write.rs:709-884 | a tree has a WHERE clause if and only if it has no path of variable length and no computed column, whatever its predicates are |
| WhereLabels.NotLabelsIff | crates/polygraph/src/lqa/write.rs:1073-1085 | WHERE NOT x:A:B is right if and only if no matched node has some of the labels and not all |
| WhereMeaning.TypeIsNoKeyIff | crates/polygraph/src/lqa/write.rs:770-786 | with any writing of values that has a term for the values stored under T, (a)-[:T]->(b) binds b to nodes only if and only if no node has a property T |
| Constants.ConstantIsStored | crates/polygraph/src/lqa/write.rs:1171-1303 | a constant without sums is written as the term of its value, so that SET stores what a MATCH on the same constant looks for |
| Constants.TermsDecideIff | crates/polygraph/src/lqa/write.rs:1171-1220 | where distinct floats have distinct texts, equality of terms is equality of values for a stored value and a scalar constant if and only if the value is no number of the other type equal to it, no list or map whose text is the string, and no typed literal of the form of the constant |
| Constants.ConstantIff | crates/polygraph/src/lqa/write.rs:1207-1293 | an expression has a term if and only if it is a literal other than null, a negated number, a list or map of such, or a sum of what reads like lists |
| Constants.ConstantReadsBack | crates/polygraph/src/lqa/write.rs:1171-1220 | integers, negated or not, booleans and strings are read from their terms as the values they have |
| WherePredicates.AgreeIff | crates/polygraph/src/lqa/write.rs:1092-1101 | with terms written as the compiler writes them, the proviso of `WhereIsSat` says exactly that |
| WherePredicates.EqualityIff | crates/polygraph/src/lqa/write.rs:1092-1101 | WHERE x.k = c, c a scalar, keeps exactly the satisfying assignments if and only if no node that the operators below match has such a value under k |
| WherePredicates.FloatMissesInteger | crates/polygraph/src/lqa/write.rs:1173-1180 | WHERE x.k = 1.0 does not find, for writing, the node whose k is the integer 1, although it satisfies the operators; likewise for every integer that is a float |
| WherePredicates.StringFindsList | crates/polygraph/src/lqa/write.rs:1214-1220 | WHERE x.k = '[1]' finds the node whose k is the list [1], which does not satisfy the operators |
| WherePredicates.OneNodeMeetsAll | crates/polygraph/src/lqa/write.rs:1171-1220 | the assumptions about the writing of constants and the meaning of filters, equality and order made here are met together, by a writer of whole floats over a graph of one node |
| WherePredicates.LookupThenFilter | crates/polygraph/src/lqa/write.rs:1105-1147 | the OPTIONAL lookup and the FILTER accept a node exactly when it has the property and the filter accepts its term; a missing property is rejected |
| WherePredicates.ComparisonFilterIff | crates/polygraph/src/lqa/write.rs:1055-1059 | a comparison that becomes a FILTER keeps exactly the satisfying assignments if and only if the filter accepts, of the matched nodes, those for which the comparison is true |
| WherePredicates.UnequalFilterIff | crates/polygraph/src/lqa/write.rs:1105-1124 | under the operator mapping of section 17.3 of SPARQL 1.1 Query, WHERE x.k <> c is right if and only if no matched node has a value of another type than c, nor a list or map whose text is c |
| WherePredicates.OrderFilterIsRight | crates/polygraph/src/lqa/write.rs:1105-1124 | <, <=, > and >= with a number are right on every graph |
| WherePredicates.SkippedIff | crates/polygraph/src/lqa/write.rs:1044-1088 | a predicate leaves nothing in the clause if and only if it is one of those listed: IS NULL, IS NOT NULL, OR, XOR, NOT of anything but labels, calls, comparisons with nothing to look up |
| WherePredicates.IsNotNullIff | crates/polygraph/src/lqa/write.rs:1086-1087 | WHERE x.k IS NOT NULL is right for writing if and only if every matched node has k |
| WherePredicates.IsNotNullIsSkipped | crates/polygraph/src/lqa/write.rs:1086-1087 | MATCH (x) WHERE x.k IS NOT NULL also matches the nodes without k |
| WherePredicates.IsNullIff | crates/polygraph/src/lqa/write.rs:1086-1087 | WHERE x.k IS NULL is right if and only if no matched node has k |
| WherePredicates.NotComparisonIff | crates/polygraph/src/lqa/write.rs:1073-1085 | WHERE NOT x.k op c is right if and only if the comparison is false, and not null, for every matched node |
| WherePredicates.OrIff | crates/polygraph/src/lqa/write.rs:1086-1087 | WHERE a OR b, two comparisons of properties with constants, is right if and only if every assignment matched below passes one of them |
| WherePredicates.InIff | crates/polygraph/src/lqa/write.rs:1105-1124 | WHERE x.k IN [...] leaves an OPTIONAL lookup that restricts nothing, so it is right if and only if every matched node has one of the values |
| WhereFilters.PropertiesFilterIff | crates/polygraph/src/lqa/write.rs:1105-1149 | WHERE x.k op y.j, minus signs included, for =, <>, <, <=, > and >=: right if and only if the filter accepts, of the assignments matched below, those for which the comparison is true; it sees the two properties where they are looked up under different names, and else the first one found, twice |
| WhereFilters.UnequalNamesakes | crates/polygraph/src/lqa/write.rs:1126-1149 | WHERE x.k <> y.j under one name keeps nothing, whatever the values are |
| WriteMerge.Merger.constructor | crates/polygraph/src/lqa/write.rs:1971-1978 | a new compiler has a zero counter and no updates |
| WriteMerge.Merger.CompileNode | crates/polygraph/src/lqa/write.rs:2086-2203 | a node MERGE below other clauses is refused; otherwise one name is used up and one INSERT of a fresh node guarded by NOT EXISTS is pushed, then the updates of ON MATCH over the pattern, unless one of its items is refused |
| WriteMerge.Merger.InsertLoop | crates/polygraph/src/lqa/write.rs:2128-2138 | the loop keeps the rewritten parts that do not read OPTIONAL or FILTER and are not the sentinel again |
| WriteMerge.Merger.CreateLoop | crates/polygraph/src/lqa/write.rs:2140-2156 | ON CREATE contributes constant properties and labels |
| WriteMerge.Merger.CompileRelationship | crates/polygraph/src/lqa/write.rs:2325-2443 | for every type one guarded INSERT over the context and then the updates of ON MATCH over the context and the edge, or the same between stable IRIs when the context leaves an end open, or the unbound-nodes error |
| WriteMerge.Merger.EdgeLoop | crates/polygraph/src/lqa/write.rs:2305-2319 | between stable IRIs ON MATCH contributes one update for each constant property |
| WriteMerge.CompileRelIsRelMerge | crates/polygraph/src/lqa/write.rs:2325-2443 | without ON MATCH the compiler emits the guarded INSERTs that the results on relationship MERGE are about |
| MergeAccepted.RelMergeAcceptedIff | crates/polygraph/src/lqa/write.rs:2325-2373 | a relationship MERGE is compiled if and only if both names begin variables of the context and the items of ON MATCH are acceptable over it, or else both ends are known by IRI |
| MergeAccepted.NodeMergeAcceptedIff | crates/polygraph/src/lqa/write.rs:2086-2203 | a node MERGE if and only if the items of ON MATCH are acceptable over its own pattern; ON CREATE is never refused |
| OnMatch.OnMatchRuns | crates/polygraph/src/lqa/write.rs:2086-2203 | a compiled node MERGE makes at most one node and then applies ON MATCH, item by item, to whatever matches |
| OnMatch.OnMatchIff | crates/polygraph/src/lqa/write.rs:2177-2203 | on every store that is what Cypher asks for, ON MATCH for nodes found and else one new node, if and only if no item of ON MATCH takes the match from a later one that is not in force, and a new node that the pattern finds is made with all that ON MATCH writes |
| OnMatch.RelOnMatchIff | crates/polygraph/src/lqa/write.rs:2430-2440 | ON MATCH SET r.k = e on a merged relationship r writes to every subject with k, if some row is joined after the INSERT; right if and only if whatever is reached or was found, but not both, has just the value already |
| OnMatch.BoundOnMatchIff | crates/polygraph/src/lqa/write.rs:2255-2320 | between stable IRIs ON MATCH writes to the relationship alone; right if and only if it was found, or has been made with what ON MATCH writes |
| NodeMergeEffect.NodeMergeRuns | crates/polygraph/src/lqa/write.rs:2119-2176 | a compiled node MERGE leaves the store unchanged when a node matches, and otherwise adds exactly one node whose triples are the mark, the inserted parts of the pattern and the labels and constant properties of ON CREATE |
| NodeMergeEffect.MadeTraitsAre | crates/polygraph/src/lqa/write.rs:2128-2156 | a triple of the new node is the mark of a node, an inserted part of the pattern, a label of ON CREATE or a constant property of ON CREATE, and each of these is one |
| NodeMergeEffect.MatchAfter | crates/polygraph/src/lqa/write.rs:2128-2156 | for names without a colon that do not end in an underscore, a node satisfies the whole pattern afterwards if and only if the text of every part is clean or ON CREATE repeats the part |
| NodeMergeEffect.NodeMergeIdempotent | crates/polygraph/src/lqa/write.rs:2119-2176 | after MERGE a node matches, and a second MERGE changes nothing, for every pattern whose parts have clean text or are repeated by ON CREATE |
| NodeMergeEffect.NodeMergeIdempotentIff | crates/polygraph/src/lqa/write.rs:2128-2156 | MERGE, with any ON CREATE, is idempotent if and only if a node matched before or every part either contains neither the variable's text nor OPTIONAL nor FILTER, or is repeated by ON CREATE |
| NodeMergeEffect.NodePatternIsTraits | crates/polygraph/src/lqa/write.rs:709-734 | the WHERE parts of a node pattern are triple patterns about its variable, the sentinel among them |
| Text.ReplaceLeavesNone | crates/polygraph/src/lqa/write.rs:2130 | replacing ?x by a blank node label leaves no ?x behind, for names without a colon that do not end in an underscore, generated names among them |
| RelMergeEffect.RelMergeRuns | crates/polygraph/src/lqa/write.rs:2362-2429 | a compiled relationship MERGE keeps every triple and adds exactly what the rows without the relationship ask for, whatever the context binds |
| RelMergeEffect.OnCreateIsSet | crates/polygraph/src/lqa/write.rs:2391-2401 | a row that lacks the relationship gets it with every constant property of ON CREATE |
| RelMergeEffect.RowIsFound | crates/polygraph/src/lqa/write.rs:2362-2429 | afterwards every matched row whose ends and properties are bound has its relationship |
| RelMergeEffect.RelMergeIdempotent | crates/polygraph/src/lqa/write.rs:2362-2429 | a second run adds nothing, for any direction, properties and ON CREATE, provided the context does not look at what was written |
| RelMergeEffect.CompiledMergeIdempotent | crates/polygraph/src/lqa/write.rs:2255-2429 | whatever relationship MERGE the compiler accepts, for any number of types and between variables or stable IRIs, its updates run again add nothing, with the same proviso |
| RelMergeEffect.ConstrainedIff | crates/polygraph/src/lqa/write.rs:2354-2359 | the check on the text of the context accepts a name if and only if it is a prefix of a variable of the context |
| RelMergeEffect.AcceptedEndIff | crates/polygraph/src/lqa/write.rs:2354-2373 | an accepted end is bound by a context without OPTIONAL if and only if it is not merely a proper prefix of a variable |
| RelMergeEffect.AcceptedMergeIff | crates/polygraph/src/lqa/write.rs:2325-2429 | an accepted MERGE, with any types, direction, properties and ON CREATE, joins the ends of every matched row by each of the types if and only if neither end is merely a prefix; otherwise its updates change no store; with several types the context must not look at what they write |
| RelMergeEffect.PrefixMergesNothing | crates/polygraph/src/lqa/write.rs:2354-2373 | MATCH (ab) MERGE (ab)-[:T]->(a) compiles to one update, which changes no store |
| RowByRow.RelMergeIff | crates/polygraph/src/lqa/write.rs:2362-2429 | with or without properties and ON CREATE, one update makes the relationship for every matched pair that seems to lack it; that is Cypher's row-by-row result if and only if no two pairs that lack it mirror each other and no pair has it, with properties, from the other end alone |
| RowByRow.CompiledMergeIff | crates/polygraph/src/lqa/write.rs:2325-2429 | the same of what the compiler emits for two variables and a type |
| RowByRow.RowByRowIff | crates/polygraph/src/lqa/write.rs:2402-2409 | judging all rows on the old store agrees with taking them one at a time exactly when no two rows that lack an undirected relationship are mirrored and none is one-sided |
| RowByRow.GuardLooks | crates/polygraph/src/lqa/write.rs:2393-2409 | without properties the guard of an undirected pattern looks from both ends; with properties its second direction is never satisfied on its own |
| RowByRow.BoundMergeIff | crates/polygraph/src/lqa/write.rs:2255-2301 | between stable IRIs, with any direction, properties and ON CREATE, the update does what Cypher does if and only if an undirected relationship is not there the other way alone |
| Bag.GroupBy | crates/polygraph/src/lqa/bag.rs:98-108 | the groups are not empty, keep the order of the bag and partition it: each row is in the group of its key as often as in the bag, and in no other |
| Bag.NaturalJoin | crates/polygraph/src/lqa/bag.rs:117-144 | the join over a hash index returns, as a sequence, what the nested loop returns |
| Bag.JoinMeaning | crates/polygraph/src/lqa/bag.rs:110-144 | the join is one row for each pair of positions with equal keys and no other, in left-major order |
| Bag.LeftOuterJoin | crates/polygraph/src/lqa/bag.rs:152-186 | the outer join over a hash index equals the outer nested loop |
| Bag.OuterJoinMeaning | crates/polygraph/src/lqa/bag.rs:146-186 | as a bag, the outer join is the join plus one null row for every left row without a partner |
| Bag.Cross | crates/polygraph/src/lqa/bag.rs:66-74 | the two loops compute the product |
| Bag.CrossMeaning | crates/polygraph/src/lqa/bag.rs:62-74 | left row i and right row j are combined at position i * len(right) + j |
| Bag.UnionDistinct | crates/polygraph/src/lqa/bag.rs:50-60 | every value of either bag, once, in the order of first occurrence |
| Bag.BagEqual | crates/polygraph/src/lqa/bag.rs:200-216 | true if and only if the sequences are equal as multisets; the early exit and the final check are both justified |
| Matching.Greedy | polygraph-difftest/src/oracle.rs:60-72 | the labelled loops with swap_remove compute the greedy difference of the two bags |
| Matching.MatchingConserves | polygraph-difftest/src/oracle.rs:60-82 | for every equality, matched plus missing rows are the expected ones and matched plus unexpected rows the actual ones, as multisets, the matched being equal in pairs |
| Matching.MatchingIsMaximal | polygraph-difftest/src/oracle.rs:60-82 | no missing row equals an unexpected one |
| Matching.PairingIsMatch | polygraph-difftest/src/oracle.rs:60-82 | where the equality is that of keys, nothing is left over if and only if a one-to-one pairing exists, if and only if both sides have the same bag of keys |
| Oracle.Compare | polygraph-difftest/src/oracle.rs:30-83 | columns are compared first, then rows in the chosen mode |
| Oracle.TransitiveIffExact | polygraph-difftest/src/value.rs:116-138 | the oracle's equality is transitive on values over a set of integers if and only if no two of them round to the same f64 |
| Oracle.EqIsSymmetric | polygraph-difftest/src/value.rs:116-138 | it is always reflexive, NaN included, and symmetric |
| Oracle.SmallIntegersAreExact | polygraph-difftest/src/value.rs:127-129 | integers up to 2^53 in magnitude round to themselves, and 2^53 + 1 does not |
| Oracle.RoundIsNearest | polygraph-difftest/src/value.rs:127-129 | an integer is rounded to a nearest multiple of a power of two that leaves it 53 bits, to the even one of two |
| Oracle.ReportIs | polygraph-difftest/src/oracle.rs:30-83 | where columns differ everything is reported; in order, the rows without a counterpart, each as often as it occurs; as bags, the rows left over when the others are paired off |
| Oracle.BagModeIffExact | polygraph-difftest/src/oracle.rs:60-82 | bag mode answers Match exactly for the pairable results, for all results over a set of integers, if and only if those integers are exact |
| Oracle.BagModeIgnoresOrder | polygraph-difftest/src/oracle.rs:60-82 | with exact integers reordering the rows of either side does not change the answer |
| Oracle.InexactMismatch | polygraph-difftest/src/oracle.rs:62-69 | otherwise a float takes the integer that another row needs: a pairable result is reported as a mismatch |
| Oracle.OrderedOutcome | polygraph-difftest/src/oracle.rs:48-58 | ordered mode matches position by position; its report is empty exactly when every row has a counterpart elsewhere |
| Routing.FindDuplicate | crates/polygraph/src/lib.rs:437-452 | finds out whether two items go by one name, after AS or without it that of the variable they are |
| Routing.LqaSafeReason | crates/polygraph/src/lib.rs:419-732 | the scan over the clauses with its early returns computes the reason that the specification gives |
| Routing.ScanClauses | crates/polygraph/src/lib.rs:531-700 | the loop updating bound_vars, seen_with and live_rel_vars computes the state of the specification after every clause |
| Routing.ScanPatterns | crates/polygraph/src/lib.rs:577-694 | the loops over patterns and elements stop at the first element with a reason |
| Routing.StateAfterClause | crates/polygraph/src/lib.rs:543-694 | after each clause live_rel_vars is exactly the set of relationship variables that occurred in an earlier MATCH and that every explicit WITH since passed on by identity while renaming nothing |
| Routing.RelReasonIs | crates/polygraph/src/lib.rs:577-694 | which of the reasons a relationship is refused for, by what is written of its length, properties, name, path and end nodes |
| Routing.SafeIff | crates/polygraph/src/lib.rs:419-732 | the query is accepted if and only if no two items of a clause go by one name, it ends in RETURN or a write, every relationship is acceptable where it stands, every relationship variable used after a WITH has survived until then, and no named path is aggregated over; and three of the reasons have their exact conditions |
| Routing.RealAggregateIff | crates/polygraph/src/lib.rs:739-801 | the search for SUM, AVG, MIN, MAX and COLLECT finds one if and only if one stands in the expression other than below a list, a map or an aggregate |
| ComparisonChain.BuildComparisonExpr | crates/opencypher-parser/src/parser/cypher.rs:913-926 | applying the suffixes left to right builds the specified expression; terminates on the size of the parse tree |
| ComparisonChain.BuildComparisonSuffix | crates/opencypher-parser/src/parser/cypher.rs:928-998 | a suffix whose right side is itself compared becomes a conjunction that shares the middle operand |
| ComparisonChain.ChainMeaning | crates/opencypher-parser/src/parser/cypher.rs:956-998 | a chain of any length is false if some adjacent comparison is, else null if some is, else true |
| ComparisonChain.ChainFails | crates/opencypher-parser/src/parser/cypher.rs:956-998 | a chain fails exactly when one of its operands does |
| ComparisonChain.BuildMeans | crates/opencypher-parser/src/parser/cypher.rs:913-998 | the expression built has the value of the parse tree, errors included, whatever suffixes it mixes: they apply from left to right, IS NULL, IS NOT NULL, IN, NOT IN and the string operators as they say, and a comparison whose right side is compared further holds together with the rest |
| Runtime.DriveAssociates | crates/polygraph/src/runtime.rs:65-85 | regrouping phases gives the same queries in the same order and the same rows or error, for every executor, even one that answers by its history |
| Runtime.RegroupedDrivesAlike | crates/polygraph/src/runtime.rs:71-78 | phases nested to the left to any depth can be regrouped so that they are driven one query at a time, with the same queries and the same end |
| Runtime.NothingAfterError | crates/polygraph/src/runtime.rs:65-85 | every query but the last was answered, and if the last one failed its error is the result |
| Runtime.WriteIffReached | crates/polygraph/src/runtime.rs:79-84 | a run ends in the Write error if and only if it reaches a Write phase |
| Runtime.RowsAreOfLastAnswer | crates/polygraph/src/runtime.rs:65-85 | the rows returned are those of the last answer |
| Runtime.FirstQueryIsAsked | crates/polygraph/src/runtime.rs:65-85 | the first query is that of the first phase, and a run that begins with a Write asks none |
| Base64.Base64Encode | polygraph-difftest/src/neo4j.rs:159-187 | the loop and the remainder cases compute the encoding by groups of three bytes |
| Base64.DecodeEncode | polygraph-difftest/src/neo4j.rs:159-187 | the decoder of section 4 of RFC 4648 gives the bytes back, for every byte string |
| Base64.EncodeDecode | polygraph-difftest/src/neo4j.rs:159-187 | the encoding is the only text that decodes to the bytes |
| Base64.EncodeShape | polygraph-difftest/src/neo4j.rs:159-187 | the length is 4 * ceil(n / 3), all characters are from the alphabet, and padding stands only at the end |
| Escaping.StringRoundTrip | crates/polygraph/src/lqa/write.rs:1181-1188 | read by the string rules of section 19.7 of SPARQL 1.1 Query, the literal written for any string gives the string and ends at its own quote; the body has no raw LF or CR, although five passes run one after the other |
| Escaping.TypedRoundTripIff | crates/polygraph/src/lqa/write.rs:1195-1198 | a typed literal is read back if and only if its value has no backslash and no line break |
| Escaping.ListRoundTrip | crates/polygraph/src/lqa/write.rs:1216-1220 | a constant list or map is read back if and only if it has no line break, and is no literal otherwise |
| Escaping.UnescapeString | crates/opencypher-parser/src/parser/cypher.rs:1773-1790 | the loop over the characters computes the unescaped text |
| Escaping.WrittenDenotes | crates/opencypher-parser/grammars/cypher.pest:403-418 | every text can be written as the body of a literal with the eight short escapes, and is what the body stands for |
| Escaping.CodeDenotes | crates/opencypher-parser/grammars/cypher.pest:403-418 | four hexadecimal digits after u, or eight after U, stand for the one character with that code |
| Escaping.UnescapeIff | crates/opencypher-parser/src/parser/cypher.rs:1773-1790 | the body of a literal is read as the text it stands for if and only if all its escapes are those of a quote, a backslash, a line break or a tab |
| Escaping.CypherRoundTripIff | polygraph-difftest/src/value.rs:102 | a string written by the harness is lexed and unescaped to itself if and only if it has no backslash |
| ListText.AppendIff | crates/polygraph/src/lqa/write.rs:1311-1330 | the STRLEN/SUBSTR/CONCAT expression gives the encoding of the concatenation if and only if nothing is appended or the stored list is not the one holding only the empty text |
| ListText.PrependIff | crates/polygraph/src/lqa/write.rs:1331-1349 | the same for prepending |
| ListText.RawLiteralIff | crates/polygraph/src/lqa/write.rs:1326-1328 | the appended constants, put between quotes without escapes, read as themselves if and only if they have no quote, backslash or line break |
| ListText.FoldIff | crates/polygraph/src/lqa/write.rs:1222-1239 | folding two constant lists gives their concatenation if and only if both texts survive the trimming of brackets and spaces |
| ListText.TidyElementsFold | crates/polygraph/src/lqa/write.rs:1226-1234 | non-empty elements that neither begin nor end with a bracket or a space always survive |
| ListText.TailIff | crates/polygraph/src/translator/cypher/functions.rs:667-700 | the CONTAINS/STRAFTER expression gives the encoding of the tail if and only if the first element has no separator in it, or is alone and has it only at its end |
| ListText.FoldRangeText | crates/polygraph/src/translator/cypher/functions.rs:1192-1225 | the second folding of range gives the text of the same progression exactly when the last increment fits i64, and refuses a zero step and arguments that are not constant |
| Normalize.NormalizeShape | crates/polygraph/src/lqa/normalize.rs:148-210 | at most one leading NOT is left, the parity of the prefix is kept, and normalising twice changes nothing more |
| Normalize.NormalizedIsNormal | crates/polygraph/src/lqa/normalize.rs:148-210 | afterwards at most one NOT is left in front and no null check of a literal, and an expression stays as it is if and only if that was so before |
| Normalize.OperatorIsNormal | crates/polygraph/src/lqa/normalize.rs:217-244 | the predicate of a Selection and every item of a Projection are normal afterwards, and nothing else about an operator changes |
| Normalize.NormalizeValueIff | crates/polygraph/src/lqa/normalize.rs:148-210 | the value, error or not, is kept if and only if the expression is not an even number, two or more, of negations of something that is neither a truth value nor null |
| Normalize.NormalizeOpKeepsRows | crates/polygraph/src/lqa/normalize.rs:217-244 | a normalised Selection or Projection gives the same rows wherever the original gives rows |
| Normalize.SelectionKept | crates/polygraph/src/lqa/normalize.rs:217-222 | a three-valued filter keeps the same rows under every normalised predicate, even an ill-typed one |
| Normalize.SimpleCaseKept | crates/polygraph/src/lqa/normalize.rs:55-76 | copying the subject of a simple CASE into its branches keeps the value unless there is no branch, where an error in the subject goes unnoticed |

## Left out

- Oxigraph, HTTP, the command line, serde, pest's grammar engine and the read-side SPARQL emitter `lqa/sparql.rs` are not part of this model; parse trees are datatypes and the executor of the runtime is a parameter.
- Temporal constant folding, `ListSlice`, quantifiers, `EXISTS` and pattern comprehensions in expressions; parameters.
- Floats are real numbers in expressions; the oracle's `F64` has NaN, infinities and rounding of integers, with one zero.
- LowerExpr.LoweringPreservesValues: negating the least i64, which wraps or panics in Rust, is an error of the model's Cypher semantics and so outside the claim.
- Relationship uniqueness within a MATCH and the values of path variables are not constraints of the operator trees, as `lqa/op.rs` leaves them to the emitter; WITH with WHERE and LIMIT together, UNION arms sharing variables, and stale entries of `list_const_map` are not covered.
- WriteSet.CompileSetItem: a value computed at run time is refused (`ComplexValue`), where the code looks up what it needs and binds it; `SET n = {map}` is not an item here.
- WriteSet.CompileSetItems: the same, item by item.
- WriteSet.CompileMapPairs: the key guard looks for the IRI in any position of a part's structure; the code looks for it in the text, which can only refuse more.
- SetEffect.SetClauseEffect: one direction only, for contexts of any shape and any variables; the exact condition for the pattern of one node is `SetExact.SetClauseIff`.
- In a SPARQL group OPTIONAL, BIND and VALUES are evaluated left to right by substitution, and FILTER takes its comparison as an arbitrary relation.
- WhereMeaning.WhereIsSat: covers single-type relationships of fixed length, anonymous here and with names of their own in `WhereNames`, and predicates with a triple form. OPTIONAL MATCH, several types, no type, renames to new names, NOT with several labels, and single predicates that are compared by FILTER or skipped are compared with the operators on top of such a tree (`WhereOptional`, `WhereExpands`, `WhereLabels`, `WherePredicates`, `WhereFilters`), not below one another.
- Where.WhereParts: a projection with a computed item is an error (`ComputedProjection`), where the code binds the items it can express and skips the others; VALUES, UNWIND and ORDER BY below a write are not modelled.
- Constants.ConstTerm: gives the term that the text is meant to denote; where the text is read differently is stated in `Escaping`. NaN and infinities have no term in the code and are no numbers here; negative zero is zero. Which reals are floats, and the text of each, are parameters.
- WriteMerge.Merger.CompileRelationship: when an item of ON MATCH is refused, the updates pushed before are not determined; the code drops them with the error.
- OnMatch.RelOnMatchIff: one property of the relationship and one type; items on the end nodes are compiled but have no claim of their own.
- Node MERGE with properties that are not constant, DETACH DELETE, REMOVE, CREATE, and MERGE or SET under CALL and FOREACH.
- NodeMergeEffect.MatchAfter: the text of a part is searched term by term, before escaping; names containing escapes would need the escaped text. A name that ends in an underscore, or has a colon, can be put together again by the replacement, so only one half is claimed for it.
- Escaping.StringRoundTrip: codepoint escapes (section 19.2 of SPARQL 1.1 Query) are not decoded before parsing.
- Range.FoldRange: an increment beyond i64 is reported as a failure; Rust panics or wraps there depending on the build.
- ListText.FoldIff: nested concatenations and the text of maps are not modelled; elements are given by their texts.
- Base64.Base64Encode: takes the bytes of the string; UTF-8 encoding is not modelled, and shifts and masks are written as division and remainder.
- Routing: `seen_rel_vars` is written and never read in the code, and the model does without it.
- Projection, selection, `union_all`, `bag_contains` and `multiplicity` of the bag algebra, the alias generator of the normaliser and `Type::meet` would only add easy members.
