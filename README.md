# Spreadsheet evaluator

A model of a small spreadsheet evaluator. It takes a grid of cell texts and returns a grid of
integer texts. Each cell holds one of three kinds of text:

- a number literal (`36`);
- a reference to another cell (`$B12`, meaning column B, row 12);
- a two-operand formula `=NAME(L,R)`, whose operands are literals or references.

The evaluator has these parts, one module each:

- **Formula parser** (`FormulaParser`): splits a formula with three regular-expression finds.
- **Reference resolver** (`References`): decodes a reference into zero-based coordinates.
- **Operation evaluator** (`Operations`): applies ADD, SUB, MUL, DIV and a shifted MOD.
- **Cell evaluator**: a pure reference semantics (`Evaluation`) and the memoizing class that
  implements it (`SpreadsheetEvaluator.Spreadsheet`). The class keeps two caches as fields: a
  text cache and a position cache.
- **Grid evaluator** (`Spreadsheet.Calculate`): walks the cells in row-major order and writes
  each value, floored, into a fresh two-dimensional array.

The test file's row splitter `buildRow` is modelled in `RowSplitting`. It splits a line at the
commas that are not inside parentheses.

Shared pieces:

- `Results` holds the error kinds.
- `Numbers` models the Java library conversions used: `Integer.parseInt`, the integer subset of
  `Double.parseDouble`, `String.valueOf`, the `(int)` cast and `int` remainder.
- `Examples` evaluates two small grids end to end.

## How the model works

**Exceptions.** Every Java exception becomes an `Err` of `Results.Result`:

| Java | model |
|---|---|
| `IllegalArgumentException` | `ParseError(formula)` |
| `NumberFormatException` | `FormatError(text)` |
| `StringIndexOutOfBoundsException`, `ArrayIndexOutOfBoundsException` | `IndexError` |
| `int % 0` in MOD | `ArithmeticError` |

The first failure propagates unchanged and aborts the whole grid.

**Division by zero.** In Java it gives Infinity or NaN rather than an exception. Values here
are exact `real`s, so the model reports it as `NonFinite`.

**Cycles.** Cyclic references recurse without bound in the source. The model excludes them with
a ghost `Ranking`: a rank for every cell of the grid that strictly drops from each cell to every
in-grid cell its text names (the reference of a reference cell, both operands of a formula).
`Ranked` asks this of every cell, not only of the cells `calculate` reaches, so it excludes every
grid with a reference cycle anywhere (see "## Left out"). It is only a termination witness:
`Evaluation.ValueIndependent` and `Evaluation.OutputIndependent` prove that values do not depend
on which ranking is chosen.

**Caches.** Both caches are tied to the pure semantics by `Spreadsheet.CacheConsistent`: every
cached entry equals the value the pure evaluation gives in the grid at hand. Every method proves
that it keeps this invariant and that it changes no existing entry.

**The grid.** The input is a `seq<seq<string>>` and may be jagged, like `String[][]`. The width
is that of the first row. A shorter row makes `calculate` fail with `IndexError`, as the Java
array access does, and an empty grid fails on `input[0]`.

**Behaviour of the code worth knowing:**

- The regular expressions' `.` does not match line terminators, so a formula split across lines
  fails or splits differently. `FormulaParser.Find` models this exactly.
- MOD by a `right` of magnitude below 1 throws, because the truncated divisor is 0.
- A reference row of `-2147483648` wraps around to `2147483647` when decremented.
- In the grid `10,$A1 / =DIV($A1,$B1),5`, `$B1` names column B of row 1 (index `(0, 1)`), which
  holds `$A1`. The formula therefore divides 10 by 10 and writes `1`
  (`Examples.DivGrid`).
- The caches are never cleared by `calculate`, so a reused instance would reuse entries from
  an earlier grid. The tests always use a fresh instance, which `CheckSpreadsheet` models.

Source paths below are relative to the repository root.

## Model

| member | source | states |
|---|---|---|
| Numbers.NatToDigits | src/main/java/uj/wmii/pwj/spreadsheet/Spreadsheet.java:114 | the decimal text is nonempty, made only of digits, and has no leading zero: it starts with `0` exactly when n is 0, and is then the single digit |
| Numbers.DigitsUnique | src/main/java/uj/wmii/pwj/spreadsheet/Spreadsheet.java:114 | any digit text without a leading zero whose value is n is NatToDigits(n), so the contract above fixes the spelling |
| Numbers.DigitsRoundTrip | src/main/java/uj/wmii/pwj/spreadsheet/Spreadsheet.java:114 | reading back the digits written for n gives n |
| Numbers.IntToString | src/main/java/uj/wmii/pwj/spreadsheet/Spreadsheet.java:114 | String.valueOf of an integer is nonempty, all digits except a leading minus sign, which is there exactly for negatives; the digits have no leading zero (after the sign, a negative's first digit is never `0`) |
| Numbers.IntegerRoundTrip | src/main/java/uj/wmii/pwj/spreadsheet/Spreadsheet.java:114 | parsing the text written for any integer gives that integer back |
| Numbers.ParseJavaInt | src/main/java/uj/wmii/pwj/spreadsheet/Spreadsheet.java:37 | Integer.parseInt succeeds only with a value inside the 32-bit int range |
| Numbers.JavaIntRoundTrip | src/main/java/uj/wmii/pwj/spreadsheet/Spreadsheet.java:37 | Integer.parseInt reads back every int written as text |
| Numbers.ParseLiteral | src/main/java/uj/wmii/pwj/spreadsheet/Spreadsheet.java:44 | Double.parseDouble on integer text; any failure is a FormatError carrying the text, and a value is an integer |
| Numbers.LiteralRoundTrip | src/main/java/uj/wmii/pwj/spreadsheet/Spreadsheet.java:97 | a literal cell written as an integer evaluates to exactly that integer |
| Numbers.Trunc | src/main/java/uj/wmii/pwj/spreadsheet/Spreadsheet.java:72 | the (int) cast truncates toward zero: the floor for non-negative values, and for negative x the integer t with t - 1 < x <= t |
| Numbers.JavaRem | src/main/java/uj/wmii/pwj/spreadsheet/Spreadsheet.java:72 | int % is smaller in magnitude than the divisor, carries the dividend's sign, and differs from the dividend by a multiple of the divisor |
| Numbers.DecrementInt32 | src/main/java/uj/wmii/pwj/spreadsheet/Spreadsheet.java:37 | subtracting 1 from an int stays in the int range: exact above the minimum, and the minimum wraps around to the maximum |
| Numbers.FormatFloor | src/main/java/uj/wmii/pwj/spreadsheet/Spreadsheet.java:114 | the output text of a cell parses back to the floor of its value, and is String.valueOf's canonical spelling: a minus sign exactly for negative values, then digits with no leading zero |
| References.ParseReference | src/main/java/uj/wmii/pwj/spreadsheet/Spreadsheet.java:31-40 | a text shorter than 2 fails with IndexError and only then; row text Integer.parseInt rejects is a FormatError naming that text; otherwise the result is (parseInt(row text) - 1 with int wrap-around, the letter's offset from 65) |
| References.ReferenceDecoding | src/main/java/uj/wmii/pwj/spreadsheet/Spreadsheet.java:31-40 | `$` + capital letter + row n in 1..INT_MAX, spelled canonically, decodes to (n - 1, letter - 'A') |
| References.ReferenceExamples | src/test/java/uj/wmii/pwj/spreadsheet/SpreadsheetTest.java:37-46 | `$A1` decodes to (0, 0) and `$Z910` to (909, 25) |
| FormulaParser.LineEnd | src/main/java/uj/wmii/pwj/spreadsheet/Spreadsheet.java:24-26 | the first line terminator at or after j, or the end of the text |
| FormulaParser.LastIndexIn | src/main/java/uj/wmii/pwj/spreadsheet/Spreadsheet.java:24-26 | the last index of c in a range, or none when c does not occur there |
| FormulaParser.FindFrom | src/main/java/uj/wmii/pwj/spreadsheet/Spreadsheet.java:11-12 | the first start at or after `from` where `o.+c` matches, with the longest match there; none only when no start from there matches |
| FormulaParser.Find | src/main/java/uj/wmii/pwj/spreadsheet/Spreadsheet.java:11-12 | Matcher.find reports the leftmost, greedy match of `o.+c`, and finds nothing exactly when no span matches |
| FormulaParser.ExtractFormulaElem | src/main/java/uj/wmii/pwj/spreadsheet/Spreadsheet.java:10-20 | the result is the found match without its delimiters; otherwise a ParseError naming the formula, and only when nothing matches |
| FormulaParser.ParseFormulaicCell | src/main/java/uj/wmii/pwj/spreadsheet/Spreadsheet.java:22-29 | succeeds exactly when all three patterns are found, giving their inner texts as name, left and right; every failure is that formula's ParseError |
| FormulaParser.LeftmostGreedyUnique | src/main/java/uj/wmii/pwj/spreadsheet/Spreadsheet.java:11-15 | the leftmost greedy match is unique |
| FormulaParser.FirstOpenLastClose | src/main/java/uj/wmii/pwj/spreadsheet/Spreadsheet.java:10-20 | without line terminators, a match runs from the first opening delimiter to the last closing one, and exists exactly when such a closing delimiter stands at least two places later |
| FormulaParser.ParseFormulaShape | src/main/java/uj/wmii/pwj/spreadsheet/Spreadsheet.java:22-29 | `=NAME(L,R)` with nonempty parts free of delimiters splits back into exactly NAME, L and R |
| FormulaParser.ExtractName | src/main/java/uj/wmii/pwj/spreadsheet/Spreadsheet.java:24 | on `=NAME(L,R)` with plain parts the first extraction gives exactly NAME |
| FormulaParser.ExtractLeft | src/main/java/uj/wmii/pwj/spreadsheet/Spreadsheet.java:25 | on `=NAME(L,R)` with plain parts the second extraction gives exactly L |
| FormulaParser.ExtractRight | src/main/java/uj/wmii/pwj/spreadsheet/Spreadsheet.java:26 | on `=NAME(L,R)` with plain parts the third extraction gives exactly R |
| FormulaParser.ParseFormulaExamples | src/test/java/uj/wmii/pwj/spreadsheet/SpreadsheetTest.java:23-34 | `=SUM($A1,$B2)` splits into SUM, $A1, $B2 and `=MOD(36,$101)` into MOD, 36, $101 |
| Operations.ShiftedMod | src/main/java/uj/wmii/pwj/spreadsheet/Spreadsheet.java:69-73 | MOD fails exactly when the magnitude of right is below 1; otherwise it gives an integer in [0, trunc(abs(right))) |
| Operations.ModOfIntegers | src/main/java/uj/wmii/pwj/spreadsheet/Spreadsheet.java:69-73 | on integers MOD is abs(left) % abs(right), whatever the signs |
| Operations.ModExample | src/main/java/uj/wmii/pwj/spreadsheet/Spreadsheet.java:69-73 | MOD(-7, 3) is 1, unlike Java's -7 % 3 = -1 and the Euclidean 2 |
| Operations.PerformFormulaCalculation | src/main/java/uj/wmii/pwj/spreadsheet/Spreadsheet.java:63-77 | ADD, SUB, MUL and DIV are the arithmetic operations; MOD is ShiftedMod and lies in [0, abs(right)); an unknown name gives 0; the only failures are DIV by 0 and MOD by a magnitude below 1 |
| Evaluation.ElemTarget | src/main/java/uj/wmii/pwj/spreadsheet/Spreadsheet.java:47-55 | a dereferenced cell is in the grid and is the one the reference decodes to |
| Evaluation.CellIndependent | src/main/java/uj/wmii/pwj/spreadsheet/Spreadsheet.java:79-102 | a cell's value is the same under any two rankings and bounds that admit it |
| Evaluation.ElemIndependent | src/main/java/uj/wmii/pwj/spreadsheet/Spreadsheet.java:42-61 | an operand's value is the same under any two rankings and bounds that admit it |
| Evaluation.ValueIndependent | src/main/java/uj/wmii/pwj/spreadsheet/Spreadsheet.java:79-102 | the value of a text does not depend on the ranking that witnesses acyclicity |
| Evaluation.LiteralValue | src/main/java/uj/wmii/pwj/spreadsheet/Spreadsheet.java:96-97 | an integer literal cell evaluates to exactly that integer, wherever it stands |
| Evaluation.ReferenceValue | src/main/java/uj/wmii/pwj/spreadsheet/Spreadsheet.java:93-94 | a reference cell naming an in-grid cell has that cell's value |
| Evaluation.ElemValueCases | src/main/java/uj/wmii/pwj/spreadsheet/Spreadsheet.java:42-61 | an operand without `$` is a literal; a bad reference fails with its decoding error; an out-of-grid reference is an IndexError; an in-grid one has the cell's value |
| Evaluation.FormulaValue | src/main/java/uj/wmii/pwj/spreadsheet/Spreadsheet.java:87-92 | a formula cell's value is the left operand's failure, else the right operand's, else the operation applied to both operand values |
| Evaluation.OutputIndependent | src/main/java/uj/wmii/pwj/spreadsheet/Spreadsheet.java:113-114 | the text written for a cell does not depend on the ranking that witnesses acyclicity |
| Evaluation.OkBeforeStep | src/main/java/uj/wmii/pwj/spreadsheet/Spreadsheet.java:108-116 | a cell with an output extends the row-major prefix of cells that have one |
| Evaluation.FailureAt | src/main/java/uj/wmii/pwj/spreadsheet/Spreadsheet.java:108-116 | the first cell in row-major order without an output determines the grid's failure |
| Evaluation.RowStep | src/main/java/uj/wmii/pwj/spreadsheet/Spreadsheet.java:109-114 | appending the output of cell (i, j) keeps the written row equal to the row's outputs |
| SpreadsheetEvaluator.Spreadsheet.constructor | src/main/java/uj/wmii/pwj/spreadsheet/Spreadsheet.java:7-8 | both caches start empty |
| SpreadsheetEvaluator.StoreText | src/main/java/uj/wmii/pwj/spreadsheet/Spreadsheet.java:100 | storing a text's own value keeps the text cache consistent and changes no existing entry |
| SpreadsheetEvaluator.StorePosition | src/main/java/uj/wmii/pwj/spreadsheet/Spreadsheet.java:57 | storing a position's own value keeps the position cache consistent and changes no existing entry |
| SpreadsheetEvaluator.Spreadsheet.CalculateCellElement | src/main/java/uj/wmii/pwj/spreadsheet/Spreadsheet.java:42-61 | the result is the operand's value in the grid; a position-cache hit returns the cached value and changes neither cache; the caches stay consistent and only grow; a dereferenced position's value is in the position cache |
| SpreadsheetEvaluator.Spreadsheet.CalculateCell | src/main/java/uj/wmii/pwj/spreadsheet/Spreadsheet.java:79-102 | the result is the cell text's value; a text-cache hit returns the cached value and changes nothing; a text that succeeds is cached; the caches stay consistent and only grow |
| SpreadsheetEvaluator.Spreadsheet.CalculateCellText | src/main/java/uj/wmii/pwj/spreadsheet/Spreadsheet.java:110-114 | the body of calculate's inner loop: the text is the cell's floored value, or the cell's failure (an IndexError past the end of a short row); the caches stay consistent and only grow |
| SpreadsheetEvaluator.Spreadsheet.Calculate | src/main/java/uj/wmii/pwj/spreadsheet/Spreadsheet.java:104-119 | succeeds exactly when the grid is nonempty and every cell in the first-row width succeeds; the output is fresh, has the input's shape, and holds each cell's floored value as text; otherwise the first failing cell in row-major order gives the error; the caches stay consistent and only grow |
| SpreadsheetEvaluator.CheckSpreadsheet | src/test/java/uj/wmii/pwj/spreadsheet/SpreadsheetTest.java:50-53 | calculate on a fresh instance: its output is a function of the grid, with the same success condition, cells and first failure as Calculate |
| RowSplitting.BuildRow | src/test/java/uj/wmii/pwj/spreadsheet/SpreadsheetTest.java:83-99 | the pieces joined with commas give the line back; no piece holds a comma met with the flag clear; every piece but the last ends with the flag clear; there is one more piece than such commas, and a line without them is one piece |
| RowSplitting.JoinCons | src/test/java/uj/wmii/pwj/spreadsheet/SpreadsheetTest.java:91-97 | joining two or more pieces is the first piece, a comma, and the join of the rest |
| RowSplitting.RowSplitUnique | src/test/java/uj/wmii/pwj/spreadsheet/SpreadsheetTest.java:83-99 | a line has only one split with these properties, so BuildRow's contract determines its result |
| RowSplitting.RowExample | src/test/java/uj/wmii/pwj/spreadsheet/SpreadsheetTest.java:88-94 | `3,=ADD($A1,4)` splits into exactly `3` and `=ADD($A1,4)`: the comma inside the parentheses stays in the cell |
| Examples.FormulaCellBelow | src/main/java/uj/wmii/pwj/spreadsheet/Spreadsheet.java:87-90 | a well-formed formula cell dereferences only the cells its two operands name |
| Examples.AddGridValues | src/main/java/uj/wmii/pwj/spreadsheet/Spreadsheet.java:79-102 | in the grid `3,=ADD($A1,4)` the cells have values 3 and 7 |
| Examples.AddGrid | src/main/java/uj/wmii/pwj/spreadsheet/Spreadsheet.java:104-119 | the grid `3,=ADD($A1,4)` is acyclic and evaluates to `3,7` |
| Examples.DivGridValues | src/main/java/uj/wmii/pwj/spreadsheet/Spreadsheet.java:79-102 | in the grid `10,$A1 / =DIV($A1,$B1),5` the cells have values 10, 10, 1 and 5 |
| Examples.DivGrid | src/main/java/uj/wmii/pwj/spreadsheet/Spreadsheet.java:104-119 | the grid `10,$A1 / =DIV($A1,$B1),5` evaluates to `10,10 / 1,5` |

## Left out

- Floating point: values are exact reals, so the rounding of `double` arithmetic is not modelled.
- Numbers.ParseLiteral: accepts only optionally signed decimal integers. The rest of the
  `Double.parseDouble` grammar gives a FormatError here, where Java returns a value: fractions,
  exponents, surrounding whitespace, the `f`/`d` suffixes, `NaN`, `Infinity` and hexadecimal
  forms. Decimal fractions are not exact in binary floating point, which exact reals cannot show.
- Operations.PerformFormulaCalculation: DIV by zero is reported as `NonFinite`, where Java yields
  Infinity or NaN. `calculate` would then write `Math.round` of it (a long limit, or 0); these
  values have no `real` counterpart.
- Numbers.Trunc: the `(int)` cast's saturation of values beyond the int range, and `Math.round`'s
  saturation to the long range, are not modelled.
- Numbers.ParseJavaInt: `Integer.parseInt` also accepts non-ASCII Unicode digits; only ASCII
  digits are modelled. Strings are sequences of Unicode scalar values, not UTF-16 code units.
- The regular-expression engine itself: `Find` models the one pattern shape used, `o.+c`, by
  leftmost-greedy matching.
- The position cache's `"row,col"` string key is replaced by a coordinate pair. Both are
  injective, so the cache behaves the same.
- SpreadsheetEvaluator.Spreadsheet.Calculate: requires its caches to be consistent with the grid.
  This always holds for a fresh instance, as in `CheckSpreadsheet`; the behaviour of an instance
  reused across different grids is not modelled.
- Cyclic references: they recurse without bound in Java. The `Ranked` precondition excludes
  every grid with a reference cycle anywhere, including grids Java finishes on: a cycle behind a
  cell that fails first (`x,$B1`, where Java stops with NumberFormatException at `x`), and a
  cycle in a cell beyond the first row's width, which `calculate` never reads
  (`1 / 2,$B2`, which Java turns into `1 / 2`). Those grids are not modelled.
- The input grid is modelled as an immutable sequence of rows. Java's `String[][]` could be
  aliased and changed, and the source never does either.
- The debug `System.out.print` in `calculate` is output only and is left out.
- `readSpreadsheet`, the resource files and the JUnit parameterised test runner are file I/O and test
  plumbing. The parameterised cases' data files are not part of this model.
