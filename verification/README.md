# PizzaSQL executor: a verified model

PizzaSQL is a SQL engine. Its executor (`pkg/executor`) answers queries through fast paths that must
agree with a simple meaning, rests equality on canonical text encodings, and keeps transaction-scoped
session state with savepoints. This project models those parts in Dafny and proves what they are
for: that each fast path returns what its slow form returns, that the encodings are canonical, that
the session behaves as if it kept full copies, that identifiers and keys stay unique. Where a
statement holds only under a condition, the condition is stated exactly, and where the code can
leave it, a lemma gives the input.

`dafny verify dfyconfig.toml` checks the whole project.

## How the model is laid out

- `Values`, `Expressions`: the values rows carry (NULL, int64 with wrap-around, bool, float as `real`,
  text), comparison, conversions, and expression evaluation over a row, an optional outer row and an
  executor environment. Calls into Go's libraries whose result is not the point (float formatting,
  parsing, arithmetic and conversion) are function-valued fields, so every theorem holds for every
  choice of them. What a theorem needs of them is a named condition (`KeyRendering.RendersLikeCompare`,
  `ResultTypes.FloatLike`, `ResultTypes.ReadsNumbers`).
- `Spelling`: lookup of names as they are spelled, exactly and then up to case; elsewhere names are folded,
  which is the same on rows that hold one spelling of each name (`Spelling.ReadsFolded`).
- `ExpressionMeaning`, `TextOrdering`: what operators, conditions and text comparison mean by the values of their
  operands.
- `StoredExpressions`: validated expressions that are persisted or evaluated once per statement.
- `CommaJoinSpec`, `CommaJoinUnits`, `CommaJoinPlan`, `CommaJoinRefs`, `CommaJoinCounts`, `CommaJoin`,
  `CommaJoinCases`: the planner for comma-separated FROM lists. A set of partial rows is described by the
  *unit* it builds: in which order its tables were merged, and which conjuncts were applied to rows merged
  in which order. The rows are exactly those of the tuples of stored rows on which these held, so a plan is
  compared with WHERE tuple by tuple. `CommaJoinRefs` says which references read the same from partial and
  full rows.
- `Aggregates`, `GroupKeys`, `GroupBy`, `AggregateMeaning`, `Decorrelate`: aggregates over collected rows,
  joined group keys, the one-pass accumulators, what both forms return by the values of the rows, and
  correlated aggregate subqueries answered from a cache.
- `KeyRendering`, `HashJoin`, `JoinMeaning`: rendered hash keys against value comparison, the two join paths,
  and the pairs of rows a join lists.
- `SortOrder`, `TopN`: ORDER BY's order, the bounded heap, OFFSET and LIMIT.
- `RecursiveCte`: WITH scoping and the semi-naive fixpoint loop.
- `JsonbNumber`, `NumberMeaning`, `Json`, `JsonbPrinter`, `JsonbReader`, `JsonbContains`, `JsonbPath`: canonical
  numbers and the rationals they denote, the tree printer, a reader after the grammar of RFC 8259 that reads
  printed documents back, containment, concatenation, and paths.
- `ArrayLiteral`, `ArrayReader`, `ArrayMeaning`: PostgreSQL array literals, an independent reader of the printed
  ones, and what the canonical text of an element denotes.
- `SessionSpec`, `SessionPaths`, `SessionSurvivors`, `Session`: the transaction state machine with full copies,
  the search paths kept by position, what runs leave behind by their statements alone, and the executor that
  keeps list lengths only.
- `CatalogOids`, `InsertConflict`: OID probing and INSERT conflict resolution.
- `ResultTypes`, `ResultWidths`: inferred result types, and the widths they promise, against the values
  produced.
- `Collections`: repetition-free sequences, multisets, finite sets.

State that the Go code updates in place is in classes (`GroupBy.Accumulator`, `TopN.TopNHeap`,
`Session.Executor`, `Session.Hub`, `RecursiveCte.Executor`, `Decorrelate.Executor`,
`InsertConflict.Table`, `CatalogOids.Snapshot`, `JsonbPrinter.Buffer`); loops are methods proved against
specification functions, and the laws are lemmas about those functions.

## Conditions the code really has

- *Comma joins* apply a conjunct to the rows of one table, or as soon as its tables are joined. Every plan
  applies every conjunct once, and its rows are those WHERE accepts exactly when on every tuple all conjuncts
  hold where they were applied if and only if they hold on the full row (`CommaJoin.PlanAnswersIff`, for
  stored rows with row ids of their own, as INSERT gives them). That is so for every plan when the conjuncts
  are resolved (`CommaJoinRefs.Resolved`): each reference is to the one table the planner takes it for and is
  steady, or no table has a part in it, and a conjunct pushed to one table names no hidden column of another.
  A reference is steady exactly when it reads the same from all partial rows that have its table
  (`CommaJoinRefs.SteadyIff`). Not resolved, besides conjuncts with a subquery, are:
  - *A hidden row id in a pushed conjunct.* In FROM t1, t2 WHERE t1.a = t2._rowid_ only t1 declares a, so the
    conjunct is pushed to t1, whose rows answer t2._rowid_ with their own row id; no plan answers it
    (`CommaJoinCases.HiddenColumnPushed`, and for any such WHERE `CommaJoinCases.PushedAnswersIff`).
    t1._rowid_ = t2._rowid_ is resolved (`CommaJoinCases.RowIDsResolve`).
  - *`t.rowid` and `t.oid`* that no table declares read the row id of whichever table was merged last
    (`CommaJoinCases.RowIDAliasReadsLast`), as unqualified names that several tables have read its column
    (`CommaJoinCases.SharedNameSeesJoinOrder`).
  - *A nullable column that an INSERT omitted* is not in the stored row; a qualified reference to it then reads
    another table's column of that name once that table is joined. A plan that applies `t.c IS NULL` before
    keeps a row that the cross product rejects (`CommaJoinCases.MissingColumnAppliedEarly`); in FROM t1, t3, t2
    WHERE t1.b IS NULL AND t1.id = t3.k, with t1's row lacking b and t2's having one, every plan that applies
    the first conjunct before t2 is joined does (`CommaJoinCases.MissingColumnCase`).
- *COUNT(DISTINCT)* counts renderings in the one-pass path and values in the other; the two agree on a
  group exactly when no two different values of it render alike (`Aggregates.FormsAgreeIff`).
- *GROUP BY* in one pass writes NULL for a plain column that fails on the first row of a group, where the
  collecting path fails the statement (`GroupBy.FailingColumnDiffers`). The two paths have the same outcome
  exactly when no such column fails and every group renders faithfully (`GroupBy.PathsAgreeIff`).
- *Hash joins* select by rendered keys. They return the nested loop's rows exactly when, for every pair, the
  rendered keys are equal if and only if the values the condition reads are equal and not NULL
  (`HashJoin.JoinPathsAgreeIff`). For keys that are the values read this says that non-NULL keys render as
  they compare and that a NULL key renders unlike its partner, which two NULLs never do
  (`HashJoin.AlignedAgreesIff`, `HashJoin.NullKeysJoin`). In a chain `a JOIN b JOIN c ON b.id = c.bid` the
  rendered left key is the unqualified column, a's when both have one, and the value read is b's
  (`HashJoin.ChainAgreesIff`, `HashJoin.ChainReadsFirstTable`). A key spelled otherwise than in the rows is
  missed, while the condition finds its column up to case (`HashJoin.MisspelledAgreesIff`): with columns id and
  aid, `a JOIN b ON a.ID = b.aid` matches nothing (`HashJoin.MisspelledKeyMisses`) and `ON a.ID = b.AID` joins
  every pair (`HashJoin.MisspelledKeysMultiply`). The merged row must show both keys
  (`HashJoin.Told`), and a LEFT JOIN must not match a right row that is all NULL: that row is also its
  NULL-extended row (`HashJoin.AllNullRowHidesMatch`).
- *A correlated aggregate* is looked up by rendered keys, with the same condition on them, and it must be the
  inner row that answers the aggregate's operand and not the outer one (`Decorrelate.FaithfulFor`).
- *Group keys* are renderings joined with `|`. A list of renderings has a key of its own exactly when it is a
  single column or contains no separator (`GroupKeys.OwnKeyIff`); otherwise groups can merge
  (`GroupKeys.JoinMerges`).
- *ORDER BY* is a strict weak order on homogeneous columns; numbers mixed with other texts can cycle
  (`SortOrder.MixedColumnCycles`).
- *A canonical JSON number* with exactly the maximum of fractional digits is rejected when it is
  canonicalized again (`JsonbNumber.CanonicalIdempotent`); 1e-131072 is such a number
  (`JsonbNumber.SecondPassRejects`). A document with it still reads back with equal number values
  (`JsonbReader.PrintReads`), though the document read is one the printer rejects.
- *Array elements* with leading or trailing white space that the printer does not quote, such as a
  vertical tab, do not survive (`ArrayLiteral.RoundTrip`, `ArrayLiteral.VerticalTabLost`).
- *jsonb concatenation* is not associative when an object stands between an object and something else
  (`JsonbContains.ConcatAssociativeIff`).
- *jsonb_set* twice is not setting once when the first call added an element at the far end of an array
  (`JsonbPath.SetTwice`).
- *jsonb_insert* is undone by `#-` exactly on the places `JsonbPath.Undoes` describes; a negative index
  in general names the displaced element afterwards (`JsonbPath.NegativeInsertNotUndone`).
- *A failed COMMIT* leaves the saved search paths of its transaction behind. Over a run the saved paths are
  those of the savepoints, after every statement, exactly when no SAVEPOINT opens a transaction while such
  paths remain (`SessionPaths.RefinesThroughoutIff`); BEGIN drops them. Otherwise a ROLLBACK TO restores a
  path of the failed transaction (`SessionPaths.StalePathReturns`, `Session.StaleSearchPath`).
- *A SET in a transaction that SAVEPOINT opened* outlives its ROLLBACK, where BEGIN would have recorded the path
  to restore (`SessionPaths.TransactionPath`, `SessionPaths.SavepointTransactionPath`).
- *CAST(x AS NUMERIC)* is reported as DOUBLE but returns x unchanged
  (`ResultTypes.NumericCastKeepsValue`).
- *A negation* is reported with the width of its operand and leaves that width exactly when the operand is
  the least value of it (`ResultWidths.WidthSound`, `ResultWidths.NegationInWidthIff`):
  -(CAST(-32768 AS SMALLINT)) and -(CAST(-2147483648 AS INTEGER)) do (`ResultWidths.NegatedInt2Overflows`,
  `ResultWidths.NegatedInt4Overflows`).
- *A stored expression* that both validators accept has one value exactly on the rows that have every column
  named like a clock keyword (`StoredExpressions.StoredValuesFixedIff`).
  ValidateDeterministicExpr alone accepts a clock keyword as a column
  (`StoredExpressions.ClockPassesAsColumn`); ValidateIndexColumns rejects it unless the table has a column
  of that name, and a row that omits that column then reads the clock
  (`StoredExpressions.OmittedColumnReadsClock`).

## Model

| member | source | states |
|---|---|---|
| `Expressions.StableCoincidence` | pkg/executor/executor.go:5759-5936 | an expression with allowed functions only and no subquery evaluates alike on any two rows that answer its references alike, in any two executors that agree on those functions, whatever their clocks, outer rows and subqueries |
| `Expressions.Coincidence` | pkg/executor/executor.go:8521-8599 | the same for one executor and any function: the collected references are all a subquery-free expression can see of a row |
| `Expressions.ReferenceFreeIsConstant` | pkg/executor/executor.go:676-692 | a WHERE for which no reference is collected gives on every row what it gives without one |
| `Expressions.SplitAndMeaning` | pkg/executor/executor.go:8511-8518 | splitting a WHERE into conjuncts changes neither the rows it accepts nor the rows it fails on |
| `Expressions.CombineAndMeaning` | pkg/executor/executor.go:8668-8677 | joining conjuncts back likewise, for any nonempty list |
| `Expressions.SplitAndRefs` | pkg/executor/executor.go:8604-8665 | a conjunct refers only to columns the whole clause refers to |
| `ExpressionMeaning.NumbersCompared` | pkg/executor/executor.go:6028-6057 | for operands that evaluate to integers whose float conversions keep their order, a < b holds exactly when i < j, and likewise <=, >, >=, = and <> |
| `ExpressionMeaning.TextsCompared` | pkg/executor/executor.go:8459-8488 | on texts that are not numbers the six comparisons are those of the dictionary order |
| `ExpressionMeaning.FloatsCompared` | pkg/executor/executor.go:8459-8488 | on floats they are those of the numbers |
| `ExpressionMeaning.Comparisons` | pkg/executor/executor.go:6028-6057 | for any two values that are not NULL each of the six holds by the sign of the three-way comparison |
| `ExpressionMeaning.NullCompared` | pkg/executor/executor.go:6028-6057 | with a NULL operand a comparison is NULL and holds for none of the six |
| `ExpressionMeaning.IntegersAdded` | pkg/executor/executor.go:5975-5998 | +, - and * of integers are exact where the result is an int64 and differ from it by a multiple of 2^64 elsewhere |
| `ExpressionMeaning.IntegersDivided` | pkg/executor/executor.go:5999-6027 | / and % of integers are the quotient and remainder of i = j*k + n with n smaller than the divisor and of the sign of the dividend; NULL for a zero divisor |
| `ExpressionMeaning.IntegerSigned` | pkg/executor/executor.go:6328-6364 | -, + and ~ of an integer, exact within int64 |
| `ExpressionMeaning.NullArithmetic` | pkg/executor/executor.go:5975-6027 | arithmetic with a NULL operand is NULL |
| `ExpressionMeaning.FloatArithmetic` | pkg/executor/executor.go:5975-6027 | on floats the four operations are the library's, NULL for a zero divisor |
| `ExpressionMeaning.ToBoolMeans` | pkg/executor/executor.go:8402-8422 | which values count as true: numbers but zero, texts but the empty one, 0 and false in any case, never NULL |
| `ExpressionMeaning.LogicMeans` | pkg/executor/executor.go:6058-6081 | AND, OR and NOT by the three truth values of their operands |
| `ExpressionMeaning.HoldsMeans` | pkg/executor/executor.go:8402-8422 | a condition holds exactly when it evaluates to a value that counts as true |
| `ExpressionMeaning.BetweenMeans` | pkg/executor/executor.go:6851-6916 | BETWEEN is >= AND <= and NOT BETWEEN its negation, a NULL bound being unknown |
| `ExpressionMeaning.IntegerBetween` | pkg/executor/executor.go:6851-6916 | on integers a <= i <= b, and i < a or b < i |
| `ExpressionMeaning.InMeans` | pkg/executor/executor.go:6739-6849 | IN is true for an equal choice, otherwise unknown for a NULL item or choice, otherwise false; an empty list is false |
| `ExpressionMeaning.CaseMeans` | pkg/executor/executor.go:6695-6737 | CASE is the result of the first WHEN that applies, or of ELSE, or NULL |
| `ExpressionMeaning.TestsMean` | pkg/executor/executor.go:6940-6986 | IS NULL and IS DISTINCT FROM are never NULL: distinct are two values that differ, and a value from NULL |
| `ExpressionMeaning.TextTestsMean` | pkg/executor/executor.go:6082-6083 | the concatenation operator joins the texts of its operands; LIKE and NOT LIKE are opposites |
| `ExpressionMeaning.ColumnMeans` | pkg/executor/executor.go:5838-5936 | in which order the outer row, the row, the clock and the row id answer a column name, qualified or not |
| `TextOrdering.TextOrder` | pkg/executor/executor.go:8484-8488 | comparing texts orders them as a dictionary does: the first different character decides, and a prefix comes first |
| `Spelling.ReadsFolded` | pkg/executor/executor.go:5838-5936 | where every name has one spelling in the row and in the outer row, exact lookup followed by lookup up to case reads what the folded name reads from the folded row |
| `StoredExpressions.StoredValueIsFixed` | pkg/executor/indexexpr.go:70-168 | an expression both validators accept has one value in every stateless executor at every time, on every row that has the columns on whose names the clocks differ |
| `StoredExpressions.StoredValuesFixedIff` | pkg/executor/indexexpr.go:70-168 | all accepted expressions have one value on a row exactly when the row has every column whose name the two clocks answer differently |
| `StoredExpressions.OmittedColumnReadsClock` | pkg/executor/executor.go:5838-5847 | an expression both validators accept that changes with the clock, on a row that omits the column |
| `StoredExpressions.ConstantOperandIsFixed` | pkg/executor/arrays.go:533-559 | an array operand taken for constant has one value for all rows of a scan and for none |
| `StoredExpressions.ReadsClockIff` | pkg/executor/executor.go:5838-5847 | a column reference depends on the clock exactly when it is unqualified, a clock keyword, and not a column of the row |
| `StoredExpressions.ClockPassesAsColumn` | pkg/executor/indexexpr.go:73-80 | the first validator accepts a clock keyword whose value changes with the clock; the second rejects it |
| `CommaJoinPlan.Classify` | pkg/executor/executor.go:958-995 | pushdown files every conjunct exactly once, under the one table declaring all its columns or in the cross list |
| `CommaJoinRefs.SteadyIff` | pkg/executor/executor.go:5838-5936 | a reference reads from every partial row that has its table what it reads from that table's row alone, exactly when on every stored row the lookup is settled or no other table's row answers differently, row ids included |
| `CommaJoinRefs.IntruderReads` | pkg/executor/executor.go:5894-5936 | an answer of another table's row is what is read once that row is merged in |
| `CommaJoinRefs.PlainIsSteady` | pkg/executor/executor.go:5838-5936 | steady are qualified references to a column no stored row lacks, hidden ones included, and references to a column no other table has |
| `CommaJoinRefs.FixedReads` | pkg/executor/executor.go:5838-5936 | a reference answered by the clock, the outer row or nothing reads the same from every partial row |
| `CommaJoinRefs.EvalLocal` | pkg/executor/executor.go:8521-8599 | a conjunct whose references are steady on some joined tables, or fixed, cannot tell apart partial rows that agree on these tables |
| `CommaJoinRefs.PushedIsCovered` | pkg/executor/executor.go:961-995 | a resolved pushed conjunct is settled by its table's rows |
| `CommaJoinRefs.ReadyIsCovered` | pkg/executor/executor.go:1030-1056 | a resolved conjunct that the readiness test accepts is settled by the seen tables |
| `CommaJoinRefs.AppliedIsCovered` | pkg/executor/executor.go:958-1063 | wherever the planner may apply a resolved conjunct, what it reads is settled |
| `CommaJoinPlan.OwnerOf` | pkg/executor/executor.go:961-995 | the one table that declares every referenced name, or none |
| `CommaJoinPlan.TouchedPair` | pkg/executor/executor.go:1000-1018 | the two tables a conjunct touches, when it touches exactly two |
| `CommaJoinPlan.CrossEdges` | pkg/executor/executor.go:997-1018 | the edges are exactly the pairs some cross conjunct touches |
| `CommaJoinPlan.CrossOnly` | pkg/executor/executor.go:1097-1108 | the tables without a pushed conjunct that some edge touches |
| `CommaJoinPlan.Components` | pkg/executor/executor.go:1094-1147 | the breadth-first search partitions the filterless tables into the classes of connectedness through cross edges |
| `CommaJoinPlan.PickSeed` | pkg/executor/executor.go:1163-1178 | a seed of maximal degree within its component |
| `CommaJoinPlan.NextInComponent` | pkg/executor/executor.go:1197-1226 | a table of the component not yet joined, linked to the joined ones when one is |
| `CommaJoinPlan.GreedyOrder` | pkg/executor/executor.go:1252-1304 | every table not pre-joined is placed exactly once, each a first best-scoring choice among those left |
| `CommaJoinPlan.BestNext` | pkg/executor/executor.go:1270-1302 | the choice has the best score of the tables still to place |
| `CommaJoinCounts.FiltersOfAll` | pkg/executor/executor.go:1252-1304 | an order that places every table with pushed conjuncts once applies all of these, each once |
| `CommaJoin.ApplyWhenSeen` | pkg/executor/executor.go:1026-1063 | the pending conjuncts are divided, none lost or doubled, into those whose tables are all seen and the rest |
| `CommaJoin.InlineJoin` | pkg/executor/executor.go:1065-1093 | the merged pairs the predicate accepts; a failing predicate fails the statement |
| `CommaJoin.JoinRow` | pkg/executor/executor.go:1070-1090 | one left row with every right row, kept where the predicate accepts, or the predicate's failure |
| `CommaJoin.LoadFiltered` | pkg/executor/executor.go:1345-1363 | a table's aliased rows filtered by its pushed conjuncts are those of the unit that applied these to that table alone, or one of them fails there |
| `CommaJoin.PreJoin` | pkg/executor/executor.go:1159-1250 | pre-joining a component builds its unit; every pending conjunct is applied once or still pending |
| `CommaJoin.PreJoinAll` | pkg/executor/executor.go:1149-1251 | all components with two or more tables become units over disjoint tables; between them every cross conjunct is applied once or still pending |
| `CommaJoin.JoinOrdered` | pkg/executor/executor.go:1306-1375 | joining the ordered tables builds the unit of those tables, with their pushed conjuncts applied once and each pending one applied once or still pending |
| `CommaJoin.IntegrateVirtuals` | pkg/executor/executor.go:1380-1396 | joining the pre-joined units builds the union of all units, applying each pending conjunct at most once |
| `CommaJoin.FilterRemaining` | pkg/executor/executor.go:1397-1411 | the last filter applies exactly the conjuncts still pending, to rows of all tables |
| `CommaJoin.JoinEverything` | pkg/executor/executor.go:1306-1396 | together with the pre-joined units all tables are covered, and every conjunct is applied once or still pending |
| `CommaJoin.PlanCommaJoin` | pkg/executor/executor.go:927-1411 | for any tables and WHERE: fails only if a conjunct fails where it may be applied, and otherwise joins every table, applies every conjunct exactly once where it may, and returns exactly the rows on which they held there; these are, as a multiset of visible rows, what WHERE accepts of the cross product exactly when the conjuncts were applied faithfully, and always when they are resolved |
| `CommaJoin.RunPlan` | pkg/executor/executor.go:927-1411 | classify, pre-join, order, join and filter make a unit of all tables that applied every conjunct once |
| `CommaJoin.PlanAnswersIff` | pkg/executor/executor.go:927-1411 | a plan's rows are those WHERE accepts exactly when on every tuple the conjuncts hold where they were applied if and only if they hold on the full row |
| `CommaJoin.ResolvedIsFaithful` | pkg/executor/executor.go:927-1411 | on every tuple every plan applies resolved conjuncts with the answers they have on the full row |
| `CommaJoin.ResolvedFailsNot` | pkg/executor/executor.go:1065-1093 | resolved conjuncts that fail on no row settling what they read fail nowhere a plan may apply them |
| `CommaJoinSpec.MergedEntry` | pkg/executor/executor.go:3112-3122 | a merged row has exactly the keys some merged stored row supplies, each with a supplier's value |
| `CommaJoinSpec.SameVisible` | pkg/executor/executor.go:1065-1093 | what is visible of a merged row does not depend on the order of merging |
| `CommaJoinSpec.VisibleTellsTuple` | pkg/storage/table.go:639-645 | with a row id in every stored row a visible row shows which stored rows it was made from |
| `CommaJoinCases.PushedAnswersIff` | pkg/executor/executor.go:961-995 | a WHERE pushed to one table as a whole is answered by a plan exactly when it holds on that table's rows alone as on the full rows |
| `CommaJoinCases.HiddenColumnPushed` | pkg/executor/executor.go:961-995 | t1.a = t2._rowid_ is pushed to t1 and no plan answers it, on two one-row tables, where t1.a equals one of the two row ids |
| `CommaJoinCases.RowIDAliasReadsLast` | pkg/executor/executor.go:5924-5936 | a qualified rowid or oid that no table declares reads the row id of the table merged last |
| `CommaJoinCases.RowIDsResolve` | pkg/analyzer/analyzer.go:1019-1031 | an equality of two tables' hidden row ids is resolved, so every plan applies it faithfully |
| `CommaJoinCases.MissingColumnAppliedEarly` | pkg/executor/executor.go:1026-1063 | for any tables: a plan that applies a null test on a column that the rows merged so far lack, as the readiness test lets it, and that a row merged later has, keeps a tuple WHERE rejects |
| `CommaJoinCases.MissingColumnCase` | pkg/storage/table.go:577-598 | on three one-row tables every plan that applies the null test before the third is joined returns something else than WHERE |
| `CommaJoin.AcceptedByConjuncts` | pkg/executor/executor.go:952-957 | the rows WHERE accepts are those every conjunct accepts |
| `CommaJoinUnits.JoinUnits` | pkg/executor/executor.go:1065-1093 | the product of two units over disjoint tables builds their union, in the order of one after the other |
| `CommaJoinUnits.FilterUnit` | pkg/executor/executor.go:1076-1090 | filtering a unit builds the unit that applied the conjuncts, once more each, to its rows |
| `CommaJoinUnits.UnitsAgree` | pkg/executor/executor.go:927-1411 | two units over the same tables, merged in any orders, whose conjuncts agree on every tuple show the same multiset of rows |
| `CommaJoinUnits.UnitsAgreeIff` | pkg/executor/executor.go:927-1411 | with row ids of their own in the stored rows, only such units do |
| `CommaJoinCases.NothingShared` | pkg/executor/executor.go:3112-3122 | without column names in common the visible row is the whole row |
| `CommaJoinCases.SharedNameSeesJoinOrder` | pkg/executor/executor.go:1070-1077 | an unqualified name shared by two tables reads the table joined last, so it is left out of the visible row |
| `Aggregates.EvalAggregate` | pkg/executor/executor.go:7238-7352 | COUNT, SUM, AVG, MIN and MAX of collected rows: counts, the wrapped mathematical integer sum plus the float sum, the mean, the running extreme |
| `Aggregates.EvalCount` | pkg/executor/executor.go:7246-7273 | the number of rows, of non-NULL arguments, or of distinct ones |
| `Aggregates.SumLoop` | pkg/executor/executor.go:7275-7310 | the running variables hold the wrapped integer sum and the float sum of the values DISTINCT keeps |
| `Aggregates.EvalAvg` | pkg/executor/executor.go:7311-7324 | the float sum over the count, NULL for none |
| `Aggregates.EvalExtreme` | pkg/executor/executor.go:7326-7352 | the running minimum or maximum |
| `Aggregates.ExtremeIsFirstBest` | pkg/executor/executor.go:7324-7352 | MIN and MAX return the first value no other value beats, where comparison is an order |
| `Aggregates.FormsAgreeIff` | pkg/executor/executor.go:2404-2504 | accumulator and slow form agree on a group exactly when it is not a COUNT(DISTINCT) over different values that render alike |
| `Aggregates.MixedColumnCountsDiffer` | pkg/executor/executor.go:7247-7262 | the integer 1 and the text '1' count as two in the slow form and as one in the fast |
| `AggregateMeaning.SummarizeMeans` | pkg/executor/executor.go:7238-7352 | the aggregate of collected arguments by their values: numbers of rows and arguments, the integer sum within int64, the sum and mean as reals where floats are exact, and for MIN and MAX on homogeneous arguments an argument that compares <= 0, or >= 0, with every argument |
| `AggregateMeaning.EvaluateCollected` | pkg/executor/executor.go:7238-7352 | EvalAggregate on the rows of a group returns such a value for the arguments of its rows |
| `AggregateMeaning.EvaluateRunning` | pkg/executor/executor.go:2404-2504 | so does an accumulator fed the rows one by one and finished |
| `AggregateMeaning.LeastIs` | pkg/executor/executor.go:7326-7352 | on homogeneous values MIN is one of them and compares <= 0 with each |
| `AggregateMeaning.GreatestIs` | pkg/executor/executor.go:7326-7352 | and MAX >= 0 |
| `AggregateMeaning.FloatTotalsAre` | pkg/executor/executor.go:7275-7324 | where floats are exact the float and integer totals add up to the sum of the numbers the values are taken for |
| `AggregateMeaning.FirstRenderedMeans` | pkg/executor/executor.go:2434-2441 | DISTINCT keeps values of the list, one of each rendering |
| `GroupBy.Accumulator.Feed` | pkg/executor/executor.go:2404-2480 | feeding a row makes one step of the fold and changes nothing else |
| `GroupBy.FoldMeans` | pkg/executor/executor.go:2483-2504 | a finished accumulator holds the aggregate's meaning on all rows it was fed |
| `GroupBy.FoldSummarizes` | pkg/executor/executor.go:2404-2480 | invariant: its fields summarize the rows of its group seen so far |
| `GroupBy.ExecuteGroupByAccum` | pkg/executor/executor.go:2349-2401 | one pass returns the groups in order of first occurrence with the values their rows give them |
| `GroupBy.AddRow` | pkg/executor/executor.go:2361-2379 | a row opens its group if new, with untouched accumulators, and is fed to that group's accumulators only |
| `GroupBy.FinishGroup` | pkg/executor/executor.go:2381-2398 | plain columns come from the first row, aggregates from the accumulator at their position |
| `GroupBy.ExecuteGroupByCollect` | pkg/executor/executor.go:2261-2297 | the slow path fails exactly when a plain column fails on the first row of some group, and otherwise returns each group once, in any order |
| `GroupBy.CollectGroups` | pkg/executor/executor.go:2266-2270 | the map holds exactly the rows of every group, in order |
| `GroupBy.CollectRow` | pkg/executor/executor.go:2279-2297 | one group's row, or the failure of a plain column on its first row |
| `GroupBy.PathsAgreeIff` | pkg/executor/executor.go:2257-2297 | the slow path succeeds with the fast path's rows, as a multiset and in any order of its own, exactly when no plain column fails on the first row of a group and rendering is faithful on every group |
| `GroupBy.RowsAgreeIff` | pkg/executor/executor.go:2381-2398 | where the slow path succeeds the rows are the same exactly when rendering is faithful on every group |
| `GroupBy.FailingColumnDiffers` | pkg/executor/executor.go:2381-2398 | a failing plain column gives NULL in the fast path and fails the slow one |
| `GroupBy.GroupAgreesIff` | pkg/executor/executor.go:2381-2398 | the two rows of a group are equal exactly when rendering is faithful on it |
| `GroupBy.GroupsPartition` | pkg/executor/executor.go:8024-8031 | every row is in its own group as often as in the input and in no other |
| `GroupKeys.JoinApart` | pkg/executor/executor.go:8024-8031 | a list of renderings without the separator shares its key with no other list of its length |
| `GroupKeys.JoinMerges` | pkg/executor/executor.go:8024-8031 | with the separator in a rendering, lists that differ in two neighbouring columns share a key, anywhere in a longer list |
| `GroupKeys.OwnKeyIff` | pkg/executor/executor.go:8024-8031 | a list of renderings has a key of its own exactly when it is a single column or contains no separator |
| `Decorrelate.Spec` | pkg/executor/executor.go:7103-7148 | a recognized subquery equates an inner column with one that is not inner |
| `Decorrelate.BuildCache` | pkg/executor/executor.go:7150-7182 | the cache maps the rendered key of each group with a non-NULL first key to the aggregate of the group |
| `Decorrelate.MatchingIsEqual` | pkg/executor/executor.go:7115-7147 | with separated columns the filter keeps the inner rows whose key equals the outer one, none for a NULL |
| `Decorrelate.LookupRowsIff` | pkg/executor/executor.go:7095-7101 | without NULL inner keys the group found is the equal rows exactly when rendering agrees with comparison on every inner key |
| `Decorrelate.EmptyIsDefault` | pkg/executor/executor.go:7184-7189 | the default is the aggregate of no rows |
| `Decorrelate.LookupIsCorrelated` | pkg/executor/executor.go:7076-7101 | the lookup equals the subquery evaluated afresh for the outer row, NULL and unmatched keys included |
| `Decorrelate.Executor.Eval` | pkg/executor/executor.go:7076-7101 | over any sequence of calls, whether the cache is built or reused, a recognized subquery answers as evaluated afresh |
| `KeyRendering.IntegersAgreeIff` | pkg/executor/executor.go:2915-2920 | rendering agrees with comparison on two integers exactly when their float64 conversions keep them apart |
| `KeyRendering.TextsAgreeIff` | pkg/executor/executor.go:2915-2920 | and on two texts exactly when they are not different spellings of one number |
| `KeyRendering.SpellingDisagrees` | pkg/executor/executor.go:8466-8482 | an integer and another spelling of it compare equal but render apart |
| `HashJoin.HashPath` | pkg/executor/executor.go:2625-2675 | build and probe return the join of the pairs with equal rendered keys, in left order then right order, NULL-extended where a LEFT JOIN finds none |
| `HashJoin.NestedLoop` | pkg/executor/executor.go:2639-2692 | the nested loop fails exactly when the condition fails on some pair, and otherwise returns the join of the pairs it accepts in the same order |
| `JoinMeaning.JoinListed` | pkg/executor/executor.go:2625-2692 | the rows of the join are those of its pairs, each once and in the order of the row numbers: exactly the matching pairs and, for a LEFT JOIN, exactly the left rows that match none, NULL-extended |
| `HashJoin.BuildTable` | pkg/executor/executor.go:2627-2631 | every bucket holds the right rows with its key, in order |
| `HashJoin.ScanRight` | pkg/executor/executor.go:2639-2649 | one left row's matches among the right rows |
| `HashJoin.AlignedLookups` | pkg/executor/executor.go:2945-2972 | on aligned rows the qualified references read the two keys from the merged row |
| `HashJoin.HashIsNestedIff` | pkg/executor/executor.go:2625-2692 | an extracted condition never fails and the two row sequences are equal exactly when every pair agrees: the rendered keys are equal if and only if the values the condition reads, up to the case of names, are equal and not NULL; for all rows whose merged row tells whether the rendered keys are equal |
| `HashJoin.JoinPathsAgreeIff` | pkg/executor/executor.go:2625-2692 | the same for merged rows, under a condition on column names only and, for a LEFT JOIN, no matched right row that is all NULL |
| `HashJoin.ConditionAccepts` | pkg/executor/executor.go:2863-2912 | on any row an extracted condition accepts exactly when the values of its two references are equal and not NULL |
| `HashJoin.ToldTells` | pkg/executor/executor.go:2945-2972 | where no column is already qualified by an added alias the merged row shows both rendered keys |
| `HashJoin.ValuesApart` | pkg/executor/executor.go:2923-2942 | a matched right row with a value is never mistaken for the NULL-extended row |
| `HashJoin.AlignedTells` | pkg/executor/executor.go:2945-2972 | references that read the keys show them too |
| `HashJoin.AlignedAgreesIff` | pkg/executor/executor.go:2863-2920 | an aligned pair agrees exactly when its keys render as they compare or, if one is NULL, render apart |
| `HashJoin.ChainAgreesIff` | pkg/executor/executor.go:2883-2895 | a pair whose left reference reads another value than the extracted key agrees exactly when the rendered extracted keys are equal if and only if the values read are |
| `HashJoin.MisspelledAgreesIff` | pkg/executor/executor.go:2863-2920 | a pair with a key its row does not have as spelled agrees exactly when the condition rejects it, if only one key is, and accepts it, if both are |
| `HashJoin.MisspelledKeyMisses` | pkg/executor/executor.go:2863-2920 | a.ID = b.aid over columns id and aid: the hash path misses a pair the condition accepts |
| `HashJoin.MisspelledKeysMultiply` | pkg/executor/executor.go:2863-2920 | a.ID = b.AID: the hash path joins a pair the condition rejects |
| `HashJoin.ConditionComparesKeys` | pkg/executor/executor.go:2863-2912 | on an aligned pair the ON equality compares the two extracted keys, and is NULL if one is |
| `HashJoin.NullKeysJoin` | pkg/executor/executor.go:2915-2920 | two NULL keys match in the hash path, not in the condition |
| `HashJoin.AllNullRowHidesMatch` | pkg/executor/executor.go:2651-2692 | a LEFT JOIN of one row with an all-NULL row gives the same row whether or not the pair matches |
| `HashJoin.ChainReadsFirstTable` | pkg/executor/executor.go:2883-2895 | in a chain the extracted left key is the unqualified column, and the hash path misses a pair the condition accepts |
| `SortOrder.LessAsymmetric` | pkg/executor/executor.go:8054-8084 | orderByLess never orders two keys both ways |
| `SortOrder.LessMeans` | pkg/executor/executor.go:8054-8084 | the first item in which two keys differ decides: increasing for ASC and decreasing for DESC, NULL before values for NULLS FIRST and default ASC, after them for NULLS LAST and default DESC; keys that differ in no item are not ordered |
| `SortOrder.NotLessMayFollow` | pkg/executor/executor.go:8054-8084 | a row that does not sort before another may stand after it in that sense |
| `SortOrder.NotAfterTransitive` | pkg/executor/executor.go:8054-8084 | on homogeneous columns, with DESC and NULLS options, "not after" is transitive |
| `SortOrder.MixedColumnCycles` | pkg/executor/executor.go:8459-8487 | a mixed column can order three values in a circle |
| `TopN.TopNHeap.Push` | pkg/executor/executor.go:8102-8122 | pushing keeps the heap and adds the row |
| `TopN.TopNHeap.RootIsLast` | pkg/executor/executor.go:8108-8110 | no row of the heap sorts after the root |
| `TopN.TopNHeap.ReplaceRoot` | pkg/executor/executor.go:8138-8141 | replacing the root and sifting down keeps the heap and exchanges that row only |
| `TopN.TopNKeyOrder` | pkg/executor/executor.go:8127-8148 | k distinct row numbers in sorted order, none omitted that sorts before one returned |
| `TopN.SortKeyOrder` | pkg/executor/executor.go:8088-8097 | a sorted permutation of all row numbers |
| `TopN.SelectionMatchesSort` | pkg/executor/executor.go:8088-8148 | every sorted selection has position by position the keys of a full sort |
| `TopN.OrderAndLimit` | pkg/executor/executor.go:8189-8228 | ORDER BY, OFFSET and LIMIT return the key sequence of sorting everything and slicing, of the ranks from OFFSET on, also when the int sum wraps; a negative bound is an out-of-range slice |
| `TopN.OrderRows` | pkg/executor/executor.go:8189-8228 | on rows given by their sort keys: different rows, as many as OFFSET and LIMIT leave, the first of the rank OFFSET names, and of two rows returned the first differing item is in the direction and NULLS order the item states |
| `TopN.SortedRowsInOrder` | pkg/executor/executor.go:8088-8097 | sorted rows stand as the items say |
| `TopN.SelectedRank` | pkg/executor/executor.go:8088-8148 | position r of a sorted selection has rank r: at most r rows sort before it, and more than r do not sort after it |
| `TopN.HomogeneousIsOrder` | pkg/executor/executor.go:8054-8084 | rows with homogeneous key columns meet the strict weak order that the above needs |
| `RecursiveCte.Executor.Materialize` | pkg/executor/cte.go:56-114 | sets one table: a simple one to its query's rows; a recursive one to the anchor first, no key repeated after it for UNION, round after round for UNION ALL, always inside every closed set around the anchor, and the least such set when a round came out empty; otherwise the cap was reached |
| `RecursiveCte.Executor.Iterate` | pkg/executor/cte.go:86-110 | the same for the loop under any cap |
| `RecursiveCte.Unseen` | pkg/executor/cte.go:92-103 | UNION keeps the rows whose key is new, once each, and remembers all keys; UNION ALL keeps all rows |
| `RecursiveCte.Executor.Round` | pkg/executor/cte.go:86-103 | a round sees the previous one's new rows as the table |
| `RecursiveCte.RoundAbsorbs` | pkg/executor/cte.go:93-109 | after a round the leg makes nothing new of any row accumulated before it |
| `RecursiveCte.AbsorbedIsClosed` | pkg/executor/cte.go:86-110 | a leg that distributes over unions and makes nothing new of single rows makes nothing new of any working set |
| `RecursiveCte.Executor.ExecuteWith` | pkg/executor/cte.go:36-54 | each table is materialized, as above, over the outer tables and the ones before it; the main query is answered over all of them; afterwards the visible tables are as before |
| `RecursiveCte.IntRowsApart` | pkg/executor/cte.go:199-205 | rows of integers have row keys of their own |
| `JsonbNumber.CanonicalKeepsValue` | pkg/executor/jsonb.go:287-363 | the canonical text spells the exact rational of the input |
| `JsonbNumber.CanonicalIffEqual` | pkg/executor/jsonb.go:287-363 | two successful inputs get the same text exactly when they denote the same number |
| `NumberMeaning.PlainMeans` | pkg/executor/jsonb.go:287-325 | the value of a number written without exponent, or with exponent zero, is its whole part plus its fraction over the power of ten, with its sign |
| `NumberMeaning.ExponentShifts` | pkg/executor/jsonb.go:300-345 | each unit of the exponent is a factor of ten, so these two fix the value of every number text |
| `JsonbNumber.CanonicalIdempotent` | pkg/executor/jsonb.go:315-335 | a second pass changes nothing, except that it rejects a text with exactly the maximum of fractional digits |
| `JsonbNumber.SecondPassRejects` | pkg/executor/jsonb.go:315-335 | 1e-131072 has a canonical text that is rejected when canonicalized |
| `JsonbNumber.CanonicalizeNumber` | pkg/executor/jsonb.go:287-363 | the index loop over digits, point and exponent computes that text or the same error; where the scale leaves int64 it returns an error in place of the overflow error or the panic in strings.Repeat that the wrapped scale leads to |
| `JsonbNumber.ParseNumber` | pkg/executor/jsonb.go:287-325 | the scan splits sign, digits, fraction and exponent as the grammar does |
| `JsonbPrinter.WriteNode` | pkg/executor/jsonb.go:163-241 | the printer appends exactly the text of the tree and fails exactly when a number in it does not canonicalize |
| `JsonbPrinter.WriteItems` | pkg/executor/jsonb.go:163-241 | the array loop appends exactly the items' texts |
| `JsonbPrinter.WriteMembers` | pkg/executor/jsonb.go:163-241 | the object loop appends exactly the members' texts under sorted keys |
| `JsonbPrinter.StringUnique` | pkg/executor/jsonb.go:252-282 | a printed string is found back at the head of any longer text |
| `JsonbPrinter.WriteEscaped` | pkg/executor/jsonb.go:252-282 | the string writer appends exactly the escaped text |
| `JsonbPrinter.PrintUnique` | pkg/executor/jsonb.go:155-282 | unique readability: a printed tree is found back at the head of any longer text |
| `JsonbPrinter.SameTextIffEquivalent` | pkg/executor/jsonb.go:511-522 | two trees print to the same text exactly when they are equal up to key order and numeric value |
| `JsonbReader.PrintReads` | pkg/executor/jsonb.go:155-282 | reading a printed document, followed by a delimiter, by the grammar of RFC 8259 gives a document with the same structure, strings, literals and number values, and leaves the delimiter |
| `JsonbReader.TextDenotes` | pkg/executor/jsonb.go:155-282 | the text of a document is one JSON value that denotes it, equal to it as jsonb when its numbers canonicalize again |
| `JsonbReader.StringReads` | pkg/executor/jsonb.go:252-282 | a printed string reads back, by the escapes of section 7 of RFC 8259, as the string |
| `JsonbReader.CanonicalIsNumber` | pkg/executor/jsonb.go:287-363 | a canonical number text is a number of section 6 of RFC 8259, without leading zeros |
| `JsonbReader.KeysAscend` | pkg/executor/jsonb.go:204-241 | the members of a printed object stand in strictly ascending dictionary order of their keys |
| `JsonbReader.SameIsEquivalent` | pkg/executor/jsonb.go:511-522 | where numbers canonicalize, denoting the same document is jsonb equality |
| `JsonbContains.ContainsReflexive` | pkg/executor/jsonb.go:942-1015 | a tree contains itself exactly when its numbers canonicalize |
| `JsonbContains.ContainsTransitive` | pkg/executor/jsonb.go:942-1015 | containment is transitive on all trees |
| `JsonbContains.ContainsRespectsEquality` | pkg/executor/jsonb.go:942-1015 | it does not tell equal documents apart |
| `JsonbContains.ContainsScalarIff` | pkg/executor/jsonb.go:942-1015 | a document contains a scalar exactly when it is, or holds in arrays at any depth, a scalar of equal numeric value or equal text |
| `JsonbContains.ContainedLeaves` | pkg/executor/jsonb.go:942-1015 | every scalar of a contained document lies, with equal value and under the same member keys, in the container |
| `JsonbContains.ConcatContainsRight` | pkg/executor/jsonb.go:916-937 | a concatenation contains its right operand exactly when that canonicalizes and is not an object appended to something else |
| `JsonbContains.ConcatMembers` | pkg/executor/jsonb.go:916-937 | two objects give each key of either, with the right value where the right one has the key |
| `JsonbContains.ConcatElements` | pkg/executor/jsonb.go:916-937 | anything else gives an array of the left elements followed by the right ones, an operand that is no array being one element |
| `JsonbContains.ConcatAssociativeIff` | pkg/executor/jsonb.go:916-937 | grouping does not matter exactly when an object in the middle has objects on both sides or on neither |
| `JsonbContains.StripNullsIsNullFree` | pkg/executor/jsonb.go:1382-1402 | stripping leaves no NULL member |
| `JsonbContains.NullFreeUnchanged` | pkg/executor/jsonb.go:1382-1402 | and changes nothing that has none |
| `JsonbContains.StripKeepsLeaves` | pkg/executor/jsonb.go:1382-1402 | stripping loses no scalar but NULL and moves none |
| `JsonbContains.ContainsStrippedExactly` | pkg/executor/jsonb.go:1382-1402 | a document contains its stripped form exactly when it canonicalizes |
| `JsonbPath.Walk` | pkg/executor/json.go:192-228 | the cursor loop finds what the recursive lookup finds |
| `JsonbPath.GetAfterSet` | pkg/executor/jsonb.go:1165-1241 | get after set gives the value exactly when the set reaches its place |
| `JsonbPath.SetOfGot` | pkg/executor/jsonb.go:1165-1241 | setting what was got changes nothing |
| `JsonbPath.SetTwice` | pkg/executor/jsonb.go:1165-1241 | the second of two sets wins exactly when the path reaches its place or is passed over: a step leads nowhere or to a scalar, or the last place is absent and not to be created |
| `JsonbPath.UnreachedSet` | pkg/executor/jsonb.go:1165-1241 | a successful set that does not reach its place changes nothing exactly when the path is passed over |
| `JsonbPath.SetLeavesOthers` | pkg/executor/jsonb.go:1165-1241 | setting a path that resolves leaves every diverging path alone |
| `JsonbPath.SetAddsAtEnd` | pkg/executor/jsonb.go:1165-1241 | a creating set with an index outside the array adds the value at the nearer end, and diverging paths find what they found |
| `JsonbPath.InsertedBeside` | pkg/executor/jsonb.go:1247-1320 | insertion into an array anywhere in a document: the path to it finds the value right before the element named, right behind it with `after`, and at the nearer end for an index outside, with all elements in order; diverging paths find what they found |
| `JsonbPath.InsertedKey` | pkg/executor/jsonb.go:1247-1320 | insertion into an object adds an absent key and fails on a present one, whatever `after` is |
| `JsonbPath.RemovedChild` | pkg/executor/json.go:687-752 | removal takes out the one child named, if there is one, and leaves everything else where it was |
| `JsonbPath.RemoveUndoesInsert` | pkg/executor/jsonb.go:1247-1320 | removal undoes insertion exactly on the described places |
| `JsonbPath.NegativeInsertNotUndone` | pkg/executor/jsonb.go:1247-1320 | inserting at -1 and removing at -1 drops the last element instead of the inserted one |
| `ArrayLiteral.RoundTrip` | pkg/executor/arrays.go:79-213 | parsing a formatted list gives it back exactly when every element survives: none starts or ends with white space that is trimmed but not quoted |
| `ArrayReader.PrintedReads` | pkg/executor/arrays.go:173-213 | a reader that trims nothing, knows quotation, backslash and the word NULL only, reads every formatted list back |
| `ArrayLiteral.CanonicalIdempotent` | pkg/executor/arrays.go:233-405 | canonicalizing integer, boolean and numeric arrays twice is canonicalizing once, on every input |
| `ArrayLiteral.TextCanonicalIdempotent` | pkg/executor/arrays.go:233-251 | for text elements exactly when every element survives |
| `ArrayMeaning.CanonicalElementMeans` | pkg/executor/arrays.go:256-405 | an element has a canonical text exactly when its own text denotes the value: a truth word in any case, an integer with optional sign and leading zeros, a decimal with an optional plus, between white space; any text for text arrays, NULL for NULL |
| `ArrayMeaning.CanonicalElementsMean` | pkg/executor/arrays.go:233-251 | the canonical list says, place by place, what the elements denote |
| `ArrayMeaning.BooleanMeans` | pkg/executor/arrays.go:298-309 | true and false are denoted by the words PostgreSQL accepts, up to case and surrounding white space |
| `ArrayMeaning.IntegerMeans` | pkg/executor/arrays.go:264-270 | an integer is denoted by its digits, with any leading zeros and an optional sign |
| `ArrayMeaning.NumericMeans` | pkg/executor/arrays.go:353-405 | a decimal is denoted by itself, with at most a plus before it |
| `ArrayLiteral.VerticalTabLost` | pkg/executor/arrays.go:192-213 | an element that does not |
| `ArrayLiteral.FormatArrayLiteral` | pkg/executor/arrays.go:173-188 | the builder loop writes the formatted list |
| `ArrayLiteral.ParseArrayLiteral` | pkg/executor/arrays.go:79-161 | the index loop reads exactly what the recursive grammar reads, errors included |
| `Session.Executor.ExecuteAll` | pkg/executor/executor.go:5049-5274 | over every run the executor that keeps lengths is in the state of the machine that keeps full copies, which is what the surviving work of the statements leaves, and its saved search paths stand for full copies after every statement exactly when no SAVEPOINT opens a transaction over those of a failed one |
| `SessionSurvivors.RunLeaves` | pkg/executor/executor.go:5049-5274 | over every run, from the statements alone: durable data is the first data overwritten by the writes of committed transactions that no ROLLBACK TO has undone, in order; what the session sees is that overwritten by the open transaction; subscriptions and published messages likewise |
| `SessionSurvivors.CommitKeepsSurvivors` | pkg/executor/executor.go:5069-5092 | a successful COMMIT leaves durable and visible data equal to the durable data of before overwritten by exactly the surviving writes of its transaction |
| `SessionSurvivors.WrittenLast` | pkg/executor/executor.go:5074-5088 | a key that was written has the value of its last write |
| `SessionSurvivors.WrittenOther` | pkg/executor/executor.go:5074-5088 | and any other key what it had |
| `SessionSurvivors.AppliedLast` | pkg/executor/notify.go:136-157 | after subscriptions a channel is listened to exactly when the last statement about it, UNLISTEN * included, was a LISTEN |
| `SessionSurvivors.FindMeans` | pkg/executor/executor.go:5144-5172 | a savepoint is found by the last use of its name |
| `SessionSurvivors.StepSucceedsIff` | pkg/executor/executor.go:5049-5274 | which statements succeed in which state |
| `Session.Executor.Execute` | pkg/executor/executor.go:5049-5274 | every statement makes the machine's step, with the same outcome |
| `Session.Executor.ExecuteBegin` | pkg/executor/executor.go:5049-5066 | BEGIN starts an empty transaction, or fails inside one |
| `Session.Executor.ExecuteRollback` | pkg/executor/executor.go:5095-5118 | ROLLBACK drops everything staged and sees durable data again |
| `Session.Executor.ExecuteSavepoint` | pkg/executor/executor.go:5121-5141 | SAVEPOINT saves two lengths where the machine saves two lists, and opens a transaction if there is none |
| `Session.Executor.ExecuteRelease` | pkg/executor/executor.go:5144-5172 | RELEASE drops the named savepoint and the later ones, and nothing staged |
| `Session.Executor.ExecuteSubscription` | pkg/executor/notify.go:85-110 | LISTEN and UNLISTEN are staged in a transaction and applied at once outside |
| `Session.Executor.ExecuteNotify` | pkg/executor/notify.go:112-134 | NOTIFY is queued once per message in a transaction and published at once outside |
| `Session.Executor.ApplyListenOp` | pkg/executor/notify.go:136-157 | the session's set and the hub's subscriptions change together |
| `Session.Executor.FinishCommit` | pkg/executor/notify.go:168-178 | all staged subscriptions are applied in order, then the queue is published in order |
| `Session.Executor.RollbackToSavepoint` | pkg/executor/executor.go:5242-5274 | ROLLBACK TO truncates to the saved lengths, which is restoring the copies |
| `Session.Executor.ExecuteCommit` | pkg/executor/executor.go:5069-5092 | COMMIT applies the staged subscriptions and publishes the queue, or ends the transaction without either when storage fails |
| `SessionPaths.RefinesThroughoutIff` | pkg/executor/executor.go:5049-5274 | over every run paths kept by position stand for full copies after every statement exactly when no SAVEPOINT opens a transaction while saved paths of a failed one remain |
| `SessionPaths.RefinesStep` | pkg/executor/executor.go:5049-5274 | one statement keeps that exactly unless it is such a SAVEPOINT |
| `SessionPaths.TransactionPath` | pkg/executor/executor.go:5069-5118 | after a transaction that BEGIN opened the search path is that of before it for ROLLBACK and a failed COMMIT, and the last SET for a successful one; SET LOCAL ends with it |
| `SessionPaths.SavepointTransactionPath` | pkg/executor/executor.go:5095-5141 | a transaction that SAVEPOINT opened leaves the last SET in it, also for ROLLBACK and a failed COMMIT |
| `SessionPaths.SetTakesEffect` | pkg/executor/session_settings.go:64-104 | SET takes effect at once, SET LOCAL in a transaction and nowhere else, and leaves the session path |
| `SessionPaths.RollbackToRestoresPath` | pkg/executor/executor.go:5242-5274 | ROLLBACK TO restores the SET LOCAL path under which its savepoint was made, whatever ran since |
| `SessionPaths.StaleOnlyAfterFailedCommit` | pkg/executor/executor.go:5074-5081 | saved paths outlive a transaction exactly when its COMMIT fails with savepoints open |
| `SessionPaths.StalePathReturns` | pkg/executor/executor.go:5121-5141 | after such a SAVEPOINT, ROLLBACK TO it restores the first stale path |
| `Session.StaleSearchPath` | pkg/executor/executor.go:5074-5081 | a run of the executor that restores a search path of a failed transaction |
| `SessionSpec.CommitPublishesSurvivors` | pkg/executor/notify.go:112-178 | over every run COMMIT publishes exactly the surviving notifications, deduplicated by first occurrence, in order |
| `SessionSpec.DedupMeaning` | pkg/executor/notify.go:112-134 | deduplication keeps one of each message and no others |
| `SessionSpec.DedupKeepsFirsts` | pkg/executor/notify.go:112-134 | what is kept are the first occurrences, in the order they were raised |
| `SessionSpec.DedupPrefix` | pkg/executor/notify.go:200-207 | deduplicating a prefix gives a prefix of the deduplication, so a length is enough to cut back to it |
| `SessionSpec.OnlyCommitIsVisible` | pkg/executor/notify.go:168-191 | inside a transaction nothing but a successful COMMIT changes durable data, subscriptions or the published log |
| `SessionSpec.RollbackRestores` | pkg/executor/executor.go:5095-5118 | ROLLBACK leaves the session as before BEGIN, whatever ran between |
| `SessionSpec.RollbackToRestores` | pkg/executor/executor.go:5242-5274 | ROLLBACK TO brings back the data and the staged lists of the moment its savepoint was made, whatever ran since |
| `SessionSpec.SavesKept` | pkg/executor/executor.go:5121-5172 | statements that leave the first savepoints alone keep their saved copies |
| `SessionSpec.RunStamped` | pkg/executor/notify.go:168-178 | over every run the published log carries increasing cursor values |
| `CatalogOids.HashBytes` | pkg/executor/pg_catalog.go:325-332 | the loop computes FNV-1a |
| `CatalogOids.PublishedHashes` | pkg/executor/pg_catalog.go:325-332 | the hash of no bytes, of "a" and of "foobar" are the published FNV-1a values |
| `CatalogOids.AtHashIff` | pkg/executor/pg_catalog.go:342-363 | in every reachable assignment an owner has the OID its hash is lifted to exactly when no other owner has that one |
| `CatalogOids.Snapshot.ProbeFrom` | pkg/executor/pg_catalog.go:353-362 | the loop ends at the first probe that is free or the owner's, passing only OIDs of others |
| `CatalogOids.Snapshot.Allocate` | pkg/executor/pg_catalog.go:346-363 | probing ends while an OID is free or the owner has one; the OID is in range, its owner's old one or a free one, and nobody else's entry changes |
| `CatalogOids.Snapshot.AllocateAll` | pkg/executor/pg_catalog.go:1009-1021 | over any sequence of requests equal owners and only equal owners get equal OIDs |
| `CatalogOids.OneOidEach` | pkg/executor/pg_catalog.go:346-363 | invariant of probing: nobody owns two OIDs |
| `InsertConflict.Table.InsertConflictMatchers` | pkg/executor/generated.go:122-141 | all unique constraints for OR REPLACE, otherwise the unique indexes declared to replace |
| `InsertConflict.Table.MatcherConflicts` | pkg/executor/generated.go:146-175 | exactly the rows sharing the candidate's key, none when the key has a NULL |
| `InsertConflict.SameColumnsIff` | pkg/executor/generated.go:146-175 | two rows share a key of columns exactly when both have them all, none NULL, with the same values |
| `InsertConflict.Table.HasAnyInsertConflict` | pkg/executor/generated.go:180-203 | true exactly when some row shares the primary key or a NULL-free unique key |
| `InsertConflict.Table.ResolveInsertConflicts` | pkg/executor/generated.go:208-244 | deletes exactly the rows displaced by the candidate |
| `InsertConflict.Table.CollectConflicts` | pkg/executor/generated.go:208-236 | the union of the matchers' rows is the set of displaced rows |
| `InsertConflict.Table.InsertOneRow` | pkg/executor/executor.go:3453-3514 | one row: skipped exactly on a conflict for OR IGNORE and DO NOTHING, otherwise conflict resolution and insert, with the same failures, as each mode promises of the rows held |
| `InsertConflict.ApplyPromised` | pkg/executor/executor.go:3453-3514 | by the rows held: on a conflict OR IGNORE and DO NOTHING succeed and leave the rows alone; OR REPLACE succeeds with any primary key and drops exactly the conflicting rows; a plain insert succeeds exactly when every conflicting row shares a key of an index declared to replace; without a conflict the row is added |
| `InsertConflict.IgnoreRunHolds` | pkg/executor/executor.go:3380-3443 | a run of OR IGNORE or DO NOTHING inserts keeps every row, adds candidates only, and leaves one out only for a conflicting row that was there before it |
| `InsertConflict.Table.ExecuteInsert` | pkg/executor/executor.go:3380-3443 | a statement applies all its rows or none, and keeps the constraints |
| `InsertConflict.ReplaceDisplacesConflicts` | pkg/executor/generated.go:208-244 | OR REPLACE displaces exactly the conflicting rows, so the insert meets none and fails only without a primary key |
| `InsertConflict.ApplyKeepsUnique` | pkg/executor/executor.go:3504-3514 | every mode keeps the primary key and all unique indexes |
| `InsertConflict.ReplaceRunHolds` | pkg/executor/generated.go:208-244 | after any run of OR REPLACE inserts a row is in the table exactly when it was there or was inserted and no later candidate conflicts with it |
| `ResultTypes.TypeSound` | pkg/executor/result_types.go:303-347 | on a well-typed row a value inferred BOOLEAN is a bool or NULL, an integer type an int64 or NULL, a float type a number or NULL |
| `ResultTypes.ArithmeticReported` | pkg/executor/result_types.go:604-665 | arithmetic over numbers is reported as floating point exactly when some leaf is, and as an integer type otherwise |
| `ResultTypes.TestReported` | pkg/executor/result_types.go:303-347 | tests are reported as BOOLEAN |
| `ResultTypes.BinaryFits` | pkg/executor/result_types.go:604-643 | a binary operator's value fits the type reported from the operands' types |
| `ResultTypes.UnaryFits` | pkg/executor/result_types.go:646-665 | so does a unary operator's |
| `ResultTypes.CastFits` | pkg/executor/result_types.go:391-437 | and a conversion's |
| `ResultTypes.IntegerConversion` | pkg/executor/executor.go:7017-7018 | a conversion to an integer type gives the truncated float of the value, and NULL for NULL |
| `ResultTypes.ConstantCastFits` | pkg/executor/result_types.go:391-480 | a cast reported as int2 or int4 yields a value of that width |
| `ResultTypes.ConstantEvaluates` | pkg/executor/result_types.go:443-480 | a constant operand evaluates to the number inference took it for |
| `ResultTypes.NumericCastKeepsValue` | pkg/executor/executor.go:7014-7030 | a NUMERIC or DECIMAL cast leaves the value as it is, so reporting DOUBLE is right exactly for numbers and NULL |
| `ResultWidths.WidthSound` | pkg/executor/result_types.go:303-480 | through parentheses, signs, CASE, literals, columns and constant casts, a value reported as int2 or int4 is of that width, except exactly where the least value of it is negated: then it is one above the greatest |
| `ResultWidths.NegationInWidthIff` | pkg/executor/result_types.go:646-665 | a negation stays in the width reported for it exactly when its operand is not the least value of that width |
| `ResultWidths.ChosenGives` | pkg/executor/result_types.go:303-347 | a CASE has the value and the reported type of the result it chooses |
| `ResultWidths.NegatedInt2Overflows` | pkg/executor/result_types.go:646-665 | -(CAST(-32768 AS SMALLINT)) is reported as int2 and is 32768 |
| `ResultWidths.NegatedInt4Overflows` | pkg/executor/result_types.go:646-665 | -(CAST(-2147483648 AS INTEGER)) is reported as int4 and is 2147483648 |

## Left out

- Storage internals (locks, commit batches, index encoding, row codec): a table is a map from primary key to row and index lookups are exact.
- Lexer and parser: the model starts from expression trees; number tokens carry no sign.
- Float rounding, NaN and infinities: floats are reals and the library's operations are parameters.
- Byte strings, registry OIDs and jsonb-typed values inside expressions, so comparisons of jsonb, array and NUMERIC typed operands in evalBinaryExpr.
- What subqueries inside comma-join conjuncts read: such conjuncts are applied like any other but not called resolved; window functions; JOIN chains mixed with comma lists; RIGHT and FULL joins; USING.
- Probing a join's right table by primary key: both join paths are given the same right rows.
- HAVING and nested aggregate expressions, TOTAL and STRING_AGG; DISTINCT and ORDER BY over grouped results.
- Aliases that replace GROUP BY references; a correlated key column named like the cache's own column alias.
- FROM and JOIN evaluation of a correlated subquery: its inner rows are given.
- Two spellings of one column name in one row, outside `HashJoin` and `Spelling`: names are folded there.
- Sorting itself: sort.Slice is any sorted permutation, here an insertion sort; container/heap is modelled.
- `RecursiveCte.Executor.Materialize`: column names and result types of materialized tables.
- REAL array elements, multidimensional arrays, ANY and ALL comparison, array slices.
- JSON text parsing as the executor does it (`JsonbReader` reads what is printed), pretty printing, jsonb_set_lax, JSON1 path syntax beyond text[] steps.
- Hub overflow, cursors and waiting of other sessions; one session publishes to a log.
- ON CONFLICT with a target and DO UPDATE; generated columns, CHECK and foreign keys; synthetic row ids.
- Concurrent use of the catalog snapshot; owners are given as byte strings.
- Function result types in inference: calls are typed by a parameter and excluded from soundness, as are array and jsonb operators.
- DDL, catalog tables, date and time functions, HTTP, wire protocol, REPL: not executor logic of this kind.
