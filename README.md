# Table formula engine: a verified model

This project models the formula engine and the cell bookkeeping of a table
plugin for the Obsidian editor.

In a table cell, the user writes a formula such as `=SUM(A1:A3)` or
`=SUMIF(A1:C3,">10")`. The plugin parses it, resolves the two references to a
rectangle of the table, computes:

- `SUM`, `MAX` and `MIN` over the cells whose text reads as a number;
- `IF` over the two corner values, under an optional condition;
- `SUMIF`, the sum of the numbers that meet an optional condition.

It shows the result, or a string beginning `error: `, in place of the text.
On the table side, the plugin:

- rebuilds the table matrix from the host's cell map;
- collects the formula cells and marks them for re-rendering after an edit;
- keeps a per-table registry of recalculation callbacks;
- highlights the referenced range while the pointer rests on a formula cell;
- rewrites the text of a multi-line cell when one of its checkboxes is
  clicked.

## How the model is built

The modules follow the two source files.

`src/utils.ts` is modelled by these modules:

- `Positions` covers `parsePosition`.
- `Conditions` covers `parseCondition`.
- `Formulas` covers `getStartAndEndPos`.
- `Ranges` covers `getRange` and `getBorderRange`.
- `Aggregates` covers `toNumbers`, `sum`, `max`, `min`, `ifFunction` and `sumIf`.
- `Dispatch` covers `parseAndCompute`.

`src/table.ts` is modelled by these modules:

- `Reconcile` covers `getTable`.
- `Recalc` covers `getFormulaCellSet`, `getOrCreateDebounceFunction` and its body, and the two tests in `handleRenderMethod`.
- `Highlight` covers `highlightCells`, `clearHighlight` and the hover flag.
- `Checkbox` covers the text logic of `handleCheckboxClick`.

Four support modules:

- `Wrappers` defines `Option` and `Result`.
- `Host` defines the table cell and the grid.
- `JsText` models the JavaScript string built-ins used: `trim`, `startsWith`, `includes`, `replace`, `split` and `join`.
- `JsNumber` models `parseInt` and `parseFloat`.

`WorkedCases` evaluates whole formulas against small tables.

Modelling choices:

- **Cells.** A table cell is a Dafny class. Its identity matters, because JavaScript `Set`s and highlight records refer to the cell object itself. Its fields are `row`, `col`, `text` and the mutable `dirty` flag.
- **The table.** The engine receives `seq<seq<Option<TableCell>>>`, because the rebuilt table can contain `undefined` slots.
- **Numbers.** A JavaScript number is `Finite(real) | PosInf | NegInf | NaN`. `parseFloat` is an exact decimal parse.
- **Loops.** The loops of the source are methods with invariants. Each is proved equal to a specification function. That function's properties are proved as lemmas.
- **Behaviour that belongs to the code, not the model:**
  - Errors that the source raises by reading a property of `undefined` are `Err` values. They carry the TypeError message the V8 engine would produce.
  - The regular expressions are unanchored. The model searches for the leftmost match, and lemmas show that each matcher agrees with the declarative pattern.

Consequences of the code worth knowing:

- The condition pattern `(<=|>=|<|>|==)(\d+)` needs the digits right after the operator. So `SUMIF(A1:A3,"> 10")` gives `error: Invalid condition format` (`Formulas.SpacedConditionFormula`, `WorkedCases.SumIfSpacedCondition`).
- A text trimmed to `==...` is not evaluated at all (`Recalc.EscapedNotEvaluated`). The cell is left to the host's own rendering of its text. It is still collected as a formula cell for recalculation (`Recalc.EscapedIsCollected`).
- The condition match is unanchored: the first operator followed by digits decides, whatever surrounds it. So `x>10y` is read as `> 10` (`Conditions.ConditionInsideText`).
- `SUM`, `MAX` and `MIN` accept the conditional form as well. They ignore the condition once it parses (`Dispatch.ConditionIgnored`).

## Model

| member | source | states |
|---|---|---|
| Positions.ParsePosition | src/utils.ts:93-106 | no token is rejected: a position always has a row or a column; it has no column exactly when parseInt accepts the token, and no row exactly when parseInt rejects a one-character token |
| Positions.PositionOfDigits | src/utils.ts:94-96 | an all-digit token n is the row n-1 with no column |
| Positions.PositionOfOneChar | src/utils.ts:97-99 | a single non-digit character c is the column c-'A' with no row |
| Positions.PositionOfCell | src/utils.ts:100-105 | a longer token that starts with a letter has its column from the first character and its row from parseInt of the rest, minus one |
| Positions.CellNameRoundTrip | src/utils.ts:93-106 | the name of column c (below 26) and row r, such as `C7`, parses back to exactly (row r, column c) |
| Positions.RowNameRoundTrip | src/utils.ts:94-96 | the printed one-based row number r+1 parses back to row r, no column |
| Positions.ColumnNameRoundTrip | src/utils.ts:97-99 | a column letter parses back to its column, no row |
| JsNumber.ParseIntDigits | src/utils.ts:94 | parseInt reads a whole digit string as its decimal value |
| JsNumber.ParseIntNoDigits | src/utils.ts:94 | a string with no decimal digit is NaN for parseInt |
| JsNumber.ParseInt | src/utils.ts:94 | `parseInt`: leading whitespace, an optional sign, an optional `0x` prefix that selects base 16, and the longest digit run of that base, or NaN when there is none; its behaviour is stated by the ParseInt lemmas |
| JsNumber.ParseFloatNat | src/utils.ts:160 | parseFloat reads back the printed form of every natural number |
| JsNumber.ParseFloat | src/utils.ts:160 | `parseFloat`: leading whitespace, an optional sign, the longest decimal prefix with an optional exponent, or NaN when there is none; its behaviour is stated by ParseFloatNat and the ToNumbers lemmas |
| JsNumber.ParseNumber | src/utils.ts:187 | `parseFloat` as a JavaScript number, NaN when nothing parses (also at src/utils.ts:160); the value IF reads from a cell, as AnchorOfCell states |
| Conditions.Holds | src/utils.ts:19-24 | the five comparison closures against the threshold, and the always-true `() => true` of src/utils.ts:36: NaN fails every comparison, +Infinity passes only `>` and `>=`, -Infinity only `<` and `<=`; it is the condition in the contracts of Satisfying, SumIfMembers and IfFunctionMeaning |
| Conditions.OperatorAtExact | src/utils.ts:11 | the operator alternation recognises op at a position exactly when its spelling is there and is followed by a digit |
| Conditions.DigitsFrom | src/utils.ts:11 | `\d+` takes the maximal non-empty digit run |
| Conditions.ConditionMatchComplete | src/utils.ts:11 | wherever the condition pattern occurs with (op, digits), the matcher at that position returns it |
| Conditions.ConditionMatchSound | src/utils.ts:11 | whatever the matcher returns at a position is an occurrence of the pattern there |
| Conditions.ConditionMatchExact | src/utils.ts:11 | both directions: the matcher returns (op, d) at i if and only if the pattern occurs at i with those groups |
| Conditions.ParseCondition | src/utils.ts:10-27 | the leftmost match decides: it fails, with "Invalid condition format" only, exactly when the pattern matches at no position; otherwise it is the comparison of the first position where the pattern matches |
| Conditions.ParseConditionAt | src/utils.ts:11-24 | when the pattern first matches at k with (op, digits), the condition is that comparison with that threshold |
| Conditions.OperatorFirstChar | src/utils.ts:11 | no operator starts at a character other than `<`, `>` and `=` |
| Conditions.ConditionInsideText | src/utils.ts:11-24 | the match is unanchored: text without operator characters before `op n`, and no digit right after it, gives the comparison (op, n); `x>10y` is `> 10` |
| Conditions.ConditionRoundTrip | src/utils.ts:10-27 | operator text followed by the digits of n parses to the comparison (op, n); each of the five operators maps to its own comparison |
| Conditions.NoConditionMatchAt | src/utils.ts:11 | when no operator is immediately followed by a digit, the pattern matches at no position |
| Conditions.ConditionNeedsAdjacentDigits | src/utils.ts:11-14 | such a string throws "Invalid condition format" |
| Conditions.SpacedClauseRejected | src/utils.ts:11-14 | `> 10` is rejected |
| JsText.RunLength | src/utils.ts:11 | the longest prefix of characters with a property, as a greedy quantifier takes it |
| Formulas.Step | src/utils.ts:35 | one `(class)+delimiter` step of a pattern: what it takes is made of the class and is followed by the delimiter |
| Formulas.StepExact | src/utils.ts:35 | a step on a class run followed by its delimiter returns exactly that run and the rest |
| Formulas.PlainPrefix | src/utils.ts:35 | the groups of a plain match are an upper-case name and two word tokens |
| Formulas.ConditionalPrefix | src/utils.ts:40 | the groups of a conditional match also carry a non-empty condition without quotes |
| Formulas.PlainPrefixComplete | src/utils.ts:35 | the text `NAME(a:b)` followed by anything matches the plain pattern with groups (NAME, a, b) |
| Formulas.PlainPrefixSound | src/utils.ts:35 | a plain match at the start means that the text really starts with `NAME(a:b)` for its groups |
| Formulas.PlainMatchExact | src/utils.ts:35 | both directions: the plain matcher succeeds at i with given groups if and only if the pattern holds there with them |
| Formulas.ConditionalPrefixComplete | src/utils.ts:40 | the text `NAME(a:b,<spaces>"c")` matches the conditional pattern with groups (NAME, a, b, c) |
| Formulas.ConditionalPrefixSound | src/utils.ts:40 | a conditional match at the start means that the text really starts with such a formula, for some run of whitespace |
| Formulas.ConditionalMatchExact | src/utils.ts:40 | both directions for the conditional pattern at every position |
| Formulas.FindPlain | src/utils.ts:35 | `match` of the plain pattern: nothing exactly when it matches at no position; otherwise the groups of the leftmost position where it matches, which are well formed |
| Formulas.FindConditional | src/utils.ts:40 | the same for the conditional pattern: none exactly when it matches nowhere, else the leftmost match, with well-formed groups |
| Formulas.GetStartAndEndPos | src/utils.ts:29-61 | a result has an upper-case name and word-token references; the only failures are "error: invalid formula format" and "error: Invalid condition format", and the first of them comes exactly when neither pattern matches at any position |
| Formulas.NoPlainMatchInConditional | src/utils.ts:35-40 | the plain pattern matches nowhere in a conditional formula, so the conditional form reaches the second pattern |
| Formulas.PlainFormulaParses | src/utils.ts:35-36 | `NAME(a:b)` parses to (NAME, a, b) with the always-true condition |
| Formulas.ConditionalFormulaParses | src/utils.ts:38-60 | `NAME(a:b, "c")` parses to (NAME, a, b, parseCondition(c)), or to `error: ` plus the condition error |
| Formulas.ConditionalFormulaRoundTrip | src/utils.ts:38-60 | a conditional formula built from an operator and a threshold parses to exactly that comparison |
| Formulas.SpacedConditionFormula | src/utils.ts:45-50 | `SUMIF(A1:A3,"> 10")` gives "error: Invalid condition format" |
| Formulas.NoFormulaWithoutParenthesis | src/utils.ts:38-43 | a text without `(` gives "error: invalid formula format" |
| Host.CellAt | src/utils.ts:120 | the test `table[r] && table[r][c]` (also at src/utils.ts:149): a cell is found only inside the table's rows and the row's length, and it is the cell at that slot |
| Ranges.Resolve | src/utils.ts:109-116 | with a bound omitted, the rectangle defaults to start row 0, end row length-1, start column 0 and end column of the first row's length-1; it fails (reading `length` of undefined) exactly when the end has no column and the table has no rows |
| Ranges.GetRange | src/utils.ts:137-156 | the loop computes exactly the range texts, and fails exactly when the defaults fail |
| Ranges.CollectTexts | src/utils.ts:147-153 | the row loop collects the texts of the kept cells of every row of the rectangle in turn |
| Ranges.ScanRowTexts | src/utils.ts:148-152 | the column loop appends the texts of the kept cells of one row |
| Ranges.RowHitsMembers | src/utils.ts:148-152 | a cell is hit in a row exactly when it lies in the column span, outside the ignored column, and exists |
| Ranges.GridHitsMembers | src/utils.ts:147-153 | the same for the whole rectangle |
| Ranges.RowHitsOrdered | src/utils.ts:148-152 | the hits of one row are in increasing column order |
| Ranges.GridHitsOrdered | src/utils.ts:147-153 | the hits of the rectangle are in row-major order |
| Ranges.HitsExactly | src/utils.ts:147-153 | a hit of the resolved rectangle is exactly an existing cell inside it and outside the ignored column |
| Ranges.HitsRowMajor | src/utils.ts:147-153 | the resolved rectangle's hits are row-major |
| Ranges.RangeTextsMeaning | src/utils.ts:137-156 | getRange gives, in row-major order, the text of exactly the existing cells in the rectangle, and never one from column ignoreCol |
| Ranges.RangeTextsFails | src/utils.ts:142-145 | getRange fails exactly when the end has no column and the table is empty, with the TypeError for reading `length` |
| Ranges.ColumnReference | src/utils.ts:142-145 | `B:B` spans every row of column B |
| Ranges.RowReference | src/utils.ts:142-145 | `2:2` spans the first row's width in row 2, and fails on an empty table |
| Ranges.CellReferences | src/utils.ts:142-145 | `A1:C3` spans exactly the rows and columns it names |
| Ranges.SidesExact | src/utils.ts:123-126 | a cell is tagged with an edge exactly when it lies on that edge of the rectangle |
| Ranges.CellObject | src/utils.ts:121-126 | the record built for a cell has the cell's tags |
| Ranges.GetBorderRange | src/utils.ts:108-134 | the loop computes exactly the bordered range |
| Ranges.CollectBorder | src/utils.ts:118-131 | the row loop collects the tagged cells of the rectangle row by row |
| Ranges.ScanRowBorder | src/utils.ts:119-130 | the column loop appends the tagged cells of one row |
| Ranges.BorderRangeTags | src/utils.ts:120-126 | every record is an existing cell of the rectangle, tagged top iff in the start row, bottom iff in the end row, left iff in the start column and right iff in the end column |
| Ranges.BorderRangeComplete | src/utils.ts:118-131 | every existing cell of the rectangle has a record, so no column is skipped here |
| Ranges.BorderRangeRowMajor | src/utils.ts:118-131 | the records are in row-major order |
| Ranges.RangeTexts | src/utils.ts:137-156 | `getRange` as a value: the bounds, then the texts of the enumeration outside `ignoreCol`; its meaning is RangeTextsMeaning and RangeTextsFails |
| Ranges.BorderRange | src/utils.ts:108-134 | `getBorderRange` as a value: the bounds, then the tagged cells of the enumeration; its meaning is BorderRangeTags, BorderRangeComplete and BorderRangeRowMajor |
| Aggregates.ToNumbers | src/utils.ts:159-161 | `toNumbers`: every text through parseFloat, NaNs dropped; its meaning is ToNumbersMembers |
| Aggregates.ToNumbersPush | src/utils.ts:160 | one more text gives one more number exactly when that text parses |
| Aggregates.ToNumbersConcat | src/utils.ts:160 | keeping numbers distributes over concatenation |
| Aggregates.ToNumbersSound | src/utils.ts:160 | every kept number is the parse of some text |
| Aggregates.ToNumbersComplete | src/utils.ts:160 | the parse of every parseable text is kept, so invalid texts are dropped and never read as zero |
| Aggregates.ToNumbersMembers | src/utils.ts:159-161 | both directions: x is kept if and only if some text parses to x |
| Aggregates.Total | src/utils.ts:165 | the fold `reduce((acc, val) => acc + val, 0)`, as used by sum and sumIf; its properties are TotalConcat and TotalNumbersPush |
| Aggregates.TotalConcat | src/utils.ts:165 | the reduce-sum is additive over concatenation |
| Aggregates.TotalNumbersConcat | src/utils.ts:163-166 | summing the numbers of two runs of texts is adding their sums |
| Aggregates.TotalNumbersPush | src/utils.ts:163-166 | one more text adds its number to the sum, or 0 when it does not parse |
| Aggregates.MaxOf | src/utils.ts:170 | `Math.max(...xs)` is -Infinity exactly for no values; otherwise it is one of them and at least every one |
| Aggregates.MinOf | src/utils.ts:175 | `Math.min(...xs)` is Infinity exactly for no values; otherwise it is one of them and at most every one |
| Aggregates.RangeNumbers | src/utils.ts:164 | the numbers of a range fail exactly when the range fails |
| Aggregates.HitsNumbers | src/utils.ts:147-160 | the numbers of a rectangle's enumeration are exactly the parses of its existing cells outside `ignoreCol` |
| Aggregates.RangeNumbersMembers | src/utils.ts:164 | both directions: x is a number of the range exactly when some existing cell of the rectangle outside `ignoreCol` parses to x |
| Aggregates.Sum | src/utils.ts:163-166 | SUM fails exactly when its range fails, and is otherwise finite |
| Aggregates.SumEmpty | src/utils.ts:163-166 | a range none of whose cells parses sums to 0 |
| Aggregates.Max | src/utils.ts:168-171 | MAX fails exactly when its range fails |
| Aggregates.MaxMeaning | src/utils.ts:168-171 | MAX is -Infinity exactly when no cell of the range parses; otherwise it is the number of one of its cells and at least that of every other |
| Aggregates.Min | src/utils.ts:173-176 | MIN fails exactly when its range fails |
| Aggregates.MinMeaning | src/utils.ts:173-176 | MIN is Infinity exactly when no cell of the range parses; otherwise it is the number of one of its cells and at most that of every other |
| Aggregates.Satisfying | src/utils.ts:205 | the filter keeps exactly the values of its input that meet the condition |
| Aggregates.SatisfyingConcat | src/utils.ts:205 | the filter works value by value: filtering a concatenation concatenates the filtered parts |
| Aggregates.SatisfyingAlways | src/utils.ts:36 | under the always-true condition the filter keeps everything |
| Aggregates.SumIf | src/utils.ts:202-207 | SUMIF fails exactly when its range fails, and is otherwise finite |
| Aggregates.SumIfAlways | src/utils.ts:202-207 | SUMIF under the always-true condition equals SUM |
| Aggregates.SumIfConcat | src/utils.ts:202-207 | SUMIF over two runs of texts is the sum of SUMIF over each |
| Aggregates.SumIfMembers | src/utils.ts:202-207 | both directions: the values SUMIF adds are exactly the numbers of the range's cells that meet the condition |
| Aggregates.SumIfEmpty | src/utils.ts:202-207 | when no number of the range meets the condition, SUMIF is 0 |
| Aggregates.ReadCell | src/utils.ts:187 | reading `table[row][col].text` succeeds exactly for an existing cell; a missing row fails reading the column key, and a missing cell fails reading `text` |
| Aggregates.Anchor | src/utils.ts:186-196 | one value of `ifFunction`: a reference with row and column reads that cell, any other is `Math.max` over the range from the reference to itself; stated by AnchorOfCell, AnchorOfColumn and AnchorOfRow |
| Aggregates.AnchorOfCell | src/utils.ts:186-187 | a cell reference reads that cell's number, and fails exactly when the cell does not exist |
| Aggregates.AnchorOfColumn | src/utils.ts:188-189 | a column reference is MAX over that whole column and never fails, so MaxMeaning gives its value |
| Aggregates.AnchorOfRow | src/utils.ts:188-189 | a row reference is MAX over that row across the first row's width, and fails exactly on a table with no rows |
| Aggregates.IfFunction | src/utils.ts:179-199 | IF is only ever 0 or 1, and fails exactly when one of its two values fails |
| Aggregates.IfOfAnchors | src/utils.ts:198 | from the start value s and the end value e, IF is 1 when the condition holds for both, else 0 |
| Aggregates.IfFunctionMeaning | src/utils.ts:198 | IF is 1 if and only if the condition holds for both the start and the end value |
| Aggregates.IfFunctionAlways | src/utils.ts:36 | under the always-true condition IF is 1 whenever it gives a number |
| Dispatch.Caught | src/utils.ts:85-89 | a thrown message m becomes exactly `error: m`, and a number passes through |
| Dispatch.ParseAndCompute | src/utils.ts:63-90 | never throws: every string it returns starts with `error: `; a format error of getStartAndEndPos is returned as it is, so "error: invalid formula format" comes whenever neither pattern matches anywhere; any formula that parses to a name outside the table, with text around it or in the conditional form, gives "error: unsupported function" |
| Dispatch.Apply | src/utils.ts:73-86 | the function table: each of the five names runs its function on the references with `currentCol` ignored, IF and SUMIF with the parsed condition; stated through Dispatched |
| Dispatch.Dispatched | src/utils.ts:73-86 | a parsed formula with a known name is that function's result, with currentCol ignored and failures caught |
| Dispatch.UnsupportedName | src/utils.ts:81-83 | the bare text `NAME(a:b)`, with an upper-case name outside the table, parses and gives "error: unsupported function" |
| Dispatch.PlainMatchIsAlways | src/utils.ts:35-36 | wherever the plain pattern matches, the formula parses to its groups with the always-true condition |
| Dispatch.PlainIfIsOne | src/utils.ts:35-36 | any formula in which the plain pattern finds `IF` is 1 or an error string |
| Dispatch.SumText | src/utils.ts:74 | `SUM(a:b)` is SUM over a and b, with failures caught |
| Dispatch.PlainSumIfIsSum | src/utils.ts:35-36 | any formula in which the plain pattern finds `SUMIF` equals `SUM` over the same references |
| Dispatch.ConditionalParsed | src/utils.ts:40-53 | the conditional form with a condition that parses gives its name, references and that condition |
| Dispatch.SameAggregate | src/utils.ts:74-76 | SUM, MAX and MIN do not look at the condition |
| Dispatch.ConditionIgnored | src/utils.ts:40-86 | `SUM`, `MAX` and `MIN` written in the conditional form equal their plain form |
| Dispatch.NoParenthesis | src/utils.ts:38-43 | a formula without `(` gives "error: invalid formula format" |
| WorkedCases.SumSkipsText | src/utils.ts:163-166 | SUM(A1:A3) over 10, 20, x is 30 |
| WorkedCases.MinSkipsText | src/utils.ts:173-176 | MIN(A1:A3) over 10, 20, x is 10 |
| WorkedCases.SumIfAboveTen | src/utils.ts:202-207 | SUMIF(A1:A3,">10") over 5, 15, 25 is 40 |
| WorkedCases.SumIfSpacedCondition | src/utils.ts:45-50 | SUMIF(A1:A3,"> 10") is "error: Invalid condition format" |
| WorkedCases.IfFormulaOfRow | src/utils.ts:179-199 | IF(A1:B1,">5") with A1 = 10 and B1 = 3 is 0 |
| WorkedCases.CellAnchor | src/utils.ts:186-187 | a full cell reference anchors IF at that cell's number |
| WorkedCases.UnknownFunction | src/utils.ts:81-83 | FOO(A1:B1) is "error: unsupported function" |
| WorkedCases.UnknownConditionalFunction | src/utils.ts:81-83 | the conditional form FOO(A1:B1,">5") is "error: unsupported function" as well |
| Reconcile.Overfull | src/table.ts:16 | the rebuild test: more keys than rows × the first row's length; with no rows `rows[0]?.length` is undefined, the product is NaN and the test is false; GetTable's two ensures branch on it |
| Reconcile.InsertCell | src/table.ts:7-15 | one insertion step: the prefix grows sorted, the array is a permutation of the old one, and the rest is untouched |
| Reconcile.SortCells | src/table.ts:7-15 | the key list is sorted by row and then column, and is a permutation of the original |
| Reconcile.Declared | src/table.ts:5 | the declared rows, as the engine sees them, hold every declared cell at its place |
| Reconcile.BuildRow | src/table.ts:20-22 | row i of width w holds keys i*w to i*w+w-1, with `undefined` past the end |
| Reconcile.Rebuild | src/table.ts:17-23 | the rebuilt matrix has doc.text.length-1 rows (none when that is not positive) of the sorted keys |
| Reconcile.GetTable | src/table.ts:4-27 | at most rows × columns keys give the declared rows unchanged; more give doc.text.length-1 rows of width rows[0].length, entry [i][j] being sorted key i*w+j |
| Reconcile.RebuiltKeepsAll | src/table.ts:18-22 | when the rows fit all keys, key k sits at [k / w][k % w] |
| Reconcile.RebuiltEntries | src/table.ts:18-22 | every filled entry is one of the first n*w keys |
| Reconcile.RebuiltRowMajor | src/table.ts:7-22 | read row-major, the rebuilt matrix is in the sorted order |
| Reconcile.TwelveCellsFourRows | src/table.ts:16-23 | 12 keys against a declared 3×3 table in a 5-line document give 4 full rows of 3 |
| Recalc.IsFormulaText | src/table.ts:32 | a cell is a formula cell when its trimmed text starts with `=`; stated by AddFormulasMembers and FormulaCellSetExact |
| Recalc.ScanRow | src/table.ts:31-35 | the inner loop adds the formula cells of one row to the set |
| Recalc.GetFormulaCellSet | src/table.ts:28-39 | the loops build exactly the formula cell set |
| Recalc.AddFormulasConcat | src/table.ts:30-35 | adding two runs of cells is adding the first and then the second |
| Recalc.AddFormulasMembers | src/table.ts:32-33 | a cell is in the set exactly when it was there before or is a visited cell whose trimmed text starts with `=` |
| Recalc.AddFormulasDistinct | src/table.ts:29-33 | the set holds each cell once |
| Recalc.FlattenMembers | src/table.ts:30-31 | the loops visit exactly the cells of the declared rows |
| Recalc.FormulaCellSet | src/table.ts:28-39 | the set as a value: the cells of the rows, row by row, whose trimmed text starts with `=`, each added once; stated by FormulaCellSetExact |
| Recalc.FormulaCellSetExact | src/table.ts:28-39 | the set holds exactly the declared cells whose trimmed text starts with `=`, each once |
| Recalc.EscapedIsCollected | src/table.ts:32 | a `==` cell counts as a formula cell here |
| Recalc.TableKey | src/table.ts:81 | the key `start-end` of a table; stated by TableKeyInjective |
| Recalc.TableKeyInjective | src/table.ts:81 | the key `start-end` determines start and end, so different tables never share an entry |
| Recalc.Recalculation.Run | src/table.ts:84-88 | every cell of the set ends dirty, and one re-render is requested per cell in the set's order |
| Recalc.Registry.constructor | src/table.ts:78 | the registry starts empty |
| Recalc.Registry.GetOrCreate | src/table.ts:80-93 | the returned entry is the one stored under the table's key; a first call creates it fresh and adds only it; a later call changes nothing |
| Recalc.ShouldRecalculate | src/table.ts:128 | the recalculation test: the row count is the document length minus 1 or minus 2, and the trimmed text does not start with `=`; stated by GatesExclusive |
| Recalc.ShouldEvaluate | src/table.ts:152 | the evaluation test: a non-empty text without `<br>` whose trim starts with `=` but not `==`; stated by GatesExclusive, EscapedNotEvaluated and Evaluated |
| Recalc.FormulaOf | src/table.ts:153 | the formula is the trimmed text after its `=` |
| Recalc.GatesExclusive | src/table.ts:128-155 | a recalculating edit is never a formula, and an evaluated text is a formula that never recalculates |
| Recalc.EscapedNotEvaluated | src/table.ts:152 | a text trimmed to `==...` is never evaluated |
| Recalc.Evaluated | src/table.ts:152-155 | a cell is evaluated exactly when its text passes the test; it shows parseAndCompute of the formula after `=`, with its own column ignored, and any string shown is an error; `table` is GetTable's result, as the render passes `getTable(data)` (src/table.ts:154) |
| Recalc.EvaluatedFormulaPlain | src/table.ts:152-153 | the formula handed to the engine never starts with a further `=` |
| Highlight.Classes | src/table.ts:113 | the classes are `is-selected` followed by the border tags in their order |
| Highlight.ClassesOfSides | src/table.ts:113-116 | a side's class is present exactly when the side is a border tag |
| Highlight.RecordMarks | src/table.ts:111-118 | the loop records one entry per bordered cell, in order |
| Highlight.Highlighted | src/table.ts:107-118 | the records a hover produces: none for a formula that does not parse or a range that fails, else one per bordered cell; stated by HighlightedTags |
| Highlight.HighlightedTags | src/table.ts:107-118 | each record is a cell of the formula's range, classed `is-selected` and with the side classes of its borders |
| Highlight.HoverState.constructor | src/table.ts:103-105 | a fresh formula cell is not hovered, has no pending timer and nothing highlighted |
| Highlight.HoverState.MouseOver | src/table.ts:162-167 | only the first mouse-over arms the timer; later ones change nothing |
| Highlight.HoverState.HighlightCells | src/table.ts:107-119 | an unparsable formula or a failing range keeps the records; otherwise they become exactly the range's records |
| Highlight.HoverState.TimerFires | src/table.ts:165 | the timer fires once and highlights the range |
| Highlight.HoverState.MouseOut | src/table.ts:169-173 | the timer is cancelled, the flag reset and every record removed |
| Checkbox.BoxAtExact | src/table.ts:50 | the character test is the test for `- [ ]` or `- [x]` |
| Checkbox.Indices | src/table.ts:48-53 | every collected index is in range and its line passes the test |
| Checkbox.TaskIndices | src/table.ts:48-53 | the indices of the lines whose trim starts with `- [ ]` or `- [x]`; stated by TaskIndicesExact |
| Checkbox.CollectTaskIndices | src/table.ts:48-53 | the loop computes the task line indices |
| Checkbox.IndicesExact | src/table.ts:49-52 | both directions: i is collected if and only if line i passes the test |
| Checkbox.IndicesIncreasing | src/table.ts:48-53 | the indices come in increasing order |
| Checkbox.TaskIndicesExact | src/table.ts:48-53 | exactly the task lines, in order |
| Checkbox.AtMarkerExact | src/table.ts:56 | a marker is `- [ ] ` or `- [x] ` |
| Checkbox.ReplaceMarkers | src/table.ts:56 | the global replace of `- [ ] ` and `- [x] ` by the new marker, scanning left to right; stated by ReplaceAbsent, FlipMarker, ReplaceTwice and ReplaceKeepsOut |
| Checkbox.NewMarker | src/table.ts:56 | the replacement is one of the two markers |
| Checkbox.Lines | src/table.ts:46 | `<br>` turned into line breaks, then the text split at line breaks; stated by JoinSplit and ToggleSplitsBack |
| Checkbox.Toggled | src/table.ts:54-57 | the returned text, or the TypeError for `replace` when there is no index-th task line; stated by ToggledText, and ToggleTask is proved equal to it |
| Checkbox.ToggleTask | src/table.ts:46-57 | the click's text is the toggled text |
| Checkbox.Toggle | src/table.ts:54-56 | the index-th task line rewritten, or the failure when there is none; stated by ToggleExact and ToggledText |
| Checkbox.ToggleExact | src/table.ts:54-56 | the click changes exactly the index-th task line and no other, and succeeds only when that line exists |
| Checkbox.ReplaceAbsent | src/table.ts:56 | a line without a marker is left as it is |
| Checkbox.FlipMarker | src/table.ts:56 | a leading marker followed by marker-free text becomes the new marker and the same text |
| Checkbox.CheckThenUncheck | src/table.ts:41-56 | a TODO click checks `- [ ] x`, a DONE click unchecks `- [x] x`, and the two undo each other |
| Checkbox.ReplaceTwice | src/table.ts:56 | replacing twice is replacing once with the second marker, so a line flips back and forth |
| Checkbox.ReplaceKeepsOut | src/table.ts:56 | the replacement introduces no character absent from the line and the marker |
| Checkbox.ToggleSplitsBack | src/table.ts:46-57 | the toggled lines, joined by line breaks, split back into the same lines |
| Checkbox.ToggledText | src/table.ts:54-57 | the click fails exactly when there are too few task lines, with the TypeError for `replace`; otherwise it is the toggled lines joined and trimmed |
| Checkbox.ShortLineUnchanged | src/table.ts:50-56 | a line shorter than a marker, such as a bare `- [ ]`, is never rewritten |
| JsText.Trim | src/table.ts:32 | `trim()`, used by every gate and the checkbox test: trimStart then trimEnd, whose contracts say that every dropped character is whitespace and that the kept text neither starts nor ends with whitespace; TrimUnchanged states when nothing changes |
| JsText.Split | src/table.ts:46 | `split` on one character: at least one piece, and no piece holds the separator; JoinSplit and SplitJoin relate it to join |
| JsText.JoinSplit | src/table.ts:46 | joining the pieces of a split gives the text back |
| JsText.SplitJoin | src/table.ts:57 | lines without line breaks split back from their join |

## Left out

- The debounce timing: the 500 ms debounce window of `debounce(…, 500, true)` is a foreign call. Calling the registered callback runs its body once, so edits that would be coalesced are not modelled.
- The 200 ms hover delay: it is an explicit `TimerFires` event. A mouse-out cancels the pending timer.
- DOM and rendering work (`MarkdownRenderer.render`, `setText`, `setTooltip`, `toggleClass`, `empty`, the `onpointerdown` wiring, `handlePointerDown`, `updateCell`, `dispatchTable`, `rerenderCell`, `console.log`): host calls; the re-render requests are returned as a sequence instead.
- `querySelectorAll` in `handleCheckboxClick`: the DOM lookup that gives the clicked checkbox's position is a parameter `index`, and its status is a parameter `done`. The `undefined` result when no element matches is not modelled.
- The `<br>` gate of multi-line rendering in `handleRenderMethod` is not modelled. It only leads to markdown rendering.
- Absent values: `data.text` or `doc.text` being `undefined`, or `rows` missing. Lengths are plain integers.
- The range loops count with floating-point numbers, which stop growing at 2^53: a reference such as `A99999999999999999` makes `getRange` and `getBorderRange` loop forever, while the model, on unbounded integers, finishes and treats the rows past the table as absent slots. This is not modelled.
- Engine limits on spread arguments: `Math.max(...)` and `Math.min(...)` throw a RangeError for a very large range. The model always returns the maximum or minimum.
- IEEE-754 arithmetic: sums are exact reals, `parseFloat` has no rounding, and the `Infinity` literal is not parsed. `toString` formatting of the result is not modelled.
- Row and column numbers from `parseInt` beyond the table are handled as absent slots. Negative coordinates are absent too, as JavaScript's `table[-1]` is.
- The module registry `debounceMap` is never cleared. The model has no removal either.
- src/main.ts and src/types/obsidian.d.ts: host event wiring, prototype patching and the paste handler are not part of this model.
- Reconcile.SortCells: stability is not stated. The contract gives a sorted permutation; which order two keys with the same row and column keep is left open, as it is for JavaScript's `sort` before ES2019.
- Highlight.HoverState.HighlightCells: when `getBorderRange` throws inside the timer callback, the exception escapes uncaught to the host. The model only keeps the records unchanged, which is what the code leaves behind.
