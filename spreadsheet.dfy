/** The memoizing evaluator object (class Spreadsheet): two caches held as fields, filled while
    cells are evaluated, and the whole-grid entry point calculate. */
module SpreadsheetEvaluator {
  import opened Results
  import opened Numbers
  import opened References
  import opened FormulaParser
  import opened Operations
  import opened Evaluation

  /** m' keeps every entry of m unchanged. */
  ghost predicate Extends<K, V>(m: map<K, V>, m': map<K, V>)
  {
    forall k :: k in m ==> k in m' && m'[k] == m[k]
  }

  lemma ExtendsTrans<K, V>(a: map<K, V>, b: map<K, V>, c: map<K, V>)
    requires Extends(a, b) && Extends(b, c)
    ensures Extends(a, c)
  {
  }

  /** Every entry of a text cache is the value its text has in grid g. */
  ghost predicate TextCacheOk(g: Grid, rk: Ranking, m: map<string, real>)
    requires Ranked(g, rk)
  {
    forall t :: t in m ==> Value(g, rk, t) == Ok(m[t])
  }

  /** Every entry of a position cache is the value of the cell at that position in grid g. */
  ghost predicate PositionCacheOk(g: Grid, rk: Ranking, m: map<Coord, real>)
    requires Ranked(g, rk)
  {
    forall p :: p in m ==> InBounds(g, p) && Value(g, rk, g[p.row][p.col]) == Ok(m[p])
  }

  lemma StoreText(g: Grid, rk: Ranking, m: map<string, real>, t: string, v: real)
    requires Ranked(g, rk) && TextCacheOk(g, rk, m) && Value(g, rk, t) == Ok(v)
    ensures TextCacheOk(g, rk, m[t := v]) && Extends(m, m[t := v])
  {
  }

  lemma StorePosition(g: Grid, rk: Ranking, m: map<Coord, real>, p: Coord, v: real)
    requires Ranked(g, rk) && PositionCacheOk(g, rk, m)
    requires InBounds(g, p) && Value(g, rk, g[p.row][p.col]) == Ok(v)
    ensures PositionCacheOk(g, rk, m[p := v]) && Extends(m, m[p := v])
  {
  }

  class Spreadsheet {
    /** The text cache: cell text to its computed value. */
    var knownResults: map<string, real>
    /** The position cache: a dereferenced position to the value of the cell there. */
    var overwrittenCells: map<Coord, real>

    constructor ()
      ensures knownResults == map[] && overwrittenCells == map[]
    {
      knownResults := map[];
      overwrittenCells := map[];
    }

    /** Every cached value is the value the pure evaluation gives in grid g. */
    ghost predicate CacheConsistent(g: Grid, rk: Ranking)
      reads this
      requires Ranked(g, rk)
    {
      TextCacheOk(g, rk, knownResults) && PositionCacheOk(g, rk, overwrittenCells)
    }

    /** calculateCellElement: a literal operand is parsed; a reference is decoded, answered from
        the position cache if possible, and otherwise evaluated from the referenced cell's text
        and stored in the position cache. */
    method CalculateCellElement(elem: string, sheet: Grid, ghost rk: Ranking, ghost b: nat)
      returns (r: Result<real>)
      requires Ranked(sheet, rk) && ElemBelow(sheet, rk, elem, b) && CacheConsistent(sheet, rk)
      modifies this
      ensures CacheConsistent(sheet, rk)
      ensures Extends(old(knownResults), knownResults) && Extends(old(overwrittenCells), overwrittenCells)
      ensures r == EvalElem(sheet, rk, elem, b)
      ensures r.Ok? && ElemTarget(sheet, elem).Some? ==>
                ElemTarget(sheet, elem).value in overwrittenCells && overwrittenCells[ElemTarget(sheet, elem).value] == r.value
      ensures '$' in elem && ParseReference(elem).Ok? && ParseReference(elem).value in old(overwrittenCells) ==>
                r == Ok(old(overwrittenCells[ParseReference(elem).value]))
                && knownResults == old(knownResults) && overwrittenCells == old(overwrittenCells)
      decreases b, 0
    {
      if '$' !in elem {
        return ParseLiteral(elem);
      }
      var rowAndCol := ParseReference(elem);
      if rowAndCol.Err? {
        return Err(rowAndCol.error);
      }
      var pos := rowAndCol.value;
      if pos in overwrittenCells {
        EvalIsValue(sheet, rk, sheet[pos.row][pos.col], rk.rank[pos.row][pos.col]);
        return Ok(overwrittenCells[pos]);
      }
      if !InBounds(sheet, pos) {
        return Err(IndexError);
      }
      var recurseNextElem := sheet[pos.row][pos.col];
      r := CalculateCell(recurseNextElem, sheet, rk, rk.rank[pos.row][pos.col]);
      if r.Ok? {
        EvalIsValue(sheet, rk, recurseNextElem, rk.rank[pos.row][pos.col]);
        StorePosition(sheet, rk, overwrittenCells, pos, r.value);
        ghost var before := overwrittenCells;
        overwrittenCells := overwrittenCells[pos := r.value];
        ExtendsTrans(old(overwrittenCells), before, overwrittenCells);
      }
    }

    /** calculateCell: answered from the text cache if possible; otherwise classified and
        evaluated, and a successful result is stored under the text. */
    method CalculateCell(cellToCalculate: string, sheet: Grid, ghost rk: Ranking, ghost b: nat)
      returns (r: Result<real>)
      requires Ranked(sheet, rk) && CellBelow(sheet, rk, cellToCalculate, b) && CacheConsistent(sheet, rk)
      modifies this
      ensures CacheConsistent(sheet, rk)
      ensures Extends(old(knownResults), knownResults) && Extends(old(overwrittenCells), overwrittenCells)
      ensures r == EvalCell(sheet, rk, cellToCalculate, b)
      ensures r.Ok? ==> cellToCalculate in knownResults && knownResults[cellToCalculate] == r.value
      ensures old(cellToCalculate in knownResults) ==>
                r == Ok(old(knownResults[cellToCalculate]))
                && knownResults == old(knownResults) && overwrittenCells == old(overwrittenCells)
      decreases b, 2
    {
      if cellToCalculate in knownResults {
        EvalIsValue(sheet, rk, cellToCalculate, b);
        return Ok(knownResults[cellToCalculate]);
      }
      var cellContainsFormula := '=' in cellToCalculate;
      var cellContainsReference := '$' in cellToCalculate;
      var finalResult: Result<real>;
      if cellContainsFormula {
        var formulaParts := ParseFormulaicCell(cellToCalculate);
        if formulaParts.Err? {
          return Err(formulaParts.error);
        }
        assert EvalCell(sheet, rk, cellToCalculate, b) == EvalFormula(sheet, rk, formulaParts.value, b);
        var leftResult := CalculateCellElement(formulaParts.value.left, sheet, rk, b);
        if leftResult.Err? {
          return Err(leftResult.error);
        }
        var rightResult := CalculateCellElement(formulaParts.value.right, sheet, rk, b);
        if rightResult.Err? {
          return Err(rightResult.error);
        }
        finalResult := PerformFormulaCalculation(formulaParts.value.operation, leftResult.value, rightResult.value);
      } else if cellContainsReference {
        finalResult := CalculateCellElement(cellToCalculate, sheet, rk, b);
      } else {
        finalResult := ParseLiteral(cellToCalculate);
      }
      if finalResult.Err? {
        return finalResult;
      }
      EvalIsValue(sheet, rk, cellToCalculate, b);
      StoreText(sheet, rk, knownResults, cellToCalculate, finalResult.value);
      ghost var before := knownResults;
      knownResults := knownResults[cellToCalculate := finalResult.value];
      ExtendsTrans(old(knownResults), before, knownResults);
      return finalResult;
    }

    /** One step of calculate's inner loop: the cell at (i, j), evaluated, floored and written
        as integer text; a row shorter than the first has no cell there. */
    method CalculateCellText(input: Grid, ghost rk: Ranking, i: int, j: int) returns (r: Result<string>)
      requires Ranked(input, rk) && CacheConsistent(input, rk) && 0 <= i < |input| && 0 <= j
      modifies this
      ensures CacheConsistent(input, rk)
      ensures Extends(old(knownResults), knownResults) && Extends(old(overwrittenCells), overwrittenCells)
      ensures r == CellOutput(input, rk, i, j)
    {
      if j >= |input[i]| {
        return Err(IndexError);
      }
      BelowBound(input, rk, input[i][j]);
      var cellResult := CalculateCell(input[i][j], input, rk, rk.bound);
      assert cellResult == Value(input, rk, input[i][j]);
      if cellResult.Err? {
        return Err(cellResult.error);
      }
      return Ok(FormatFloor(cellResult.value));
    }

    /** calculate: every cell in row-major order, the first input row giving the width, each
        result floored and written as integer text into a fresh array; the first failure aborts. */
    method Calculate(input: Grid, ghost rk: Ranking) returns (r: Result<array2<string>>)
      requires Ranked(input, rk) && CacheConsistent(input, rk)
      modifies this
      ensures CacheConsistent(input, rk)
      ensures Extends(old(knownResults), knownResults) && Extends(old(overwrittenCells), overwrittenCells)
      ensures r.Ok? <==> |input| > 0 && OkBefore(input, rk, |input[0]|, |input|, 0)
      ensures r.Ok? ==> fresh(r.value) && r.value.Length0 == |input| && r.value.Length1 == |input[0]|
      ensures r.Ok? ==> forall i, j :: 0 <= i < |input| && 0 <= j < |input[0]| ==>
                          CellOutput(input, rk, i, j) == Ok(r.value[i, j])
      ensures r.Err? ==> (|input| == 0 && r.error == IndexError)
                         || (|input| > 0 && FirstFailure(input, rk, |input[0]|, r.error))
    {
      if |input| == 0 {
        return Err(IndexError);
      }
      var width := |input[0]|;
      var out := new string[|input|, width];
      var i := 0;
      while i < |input|
        invariant 0 <= i <= |input|
        invariant CacheConsistent(input, rk)
        invariant Extends(old(knownResults), knownResults) && Extends(old(overwrittenCells), overwrittenCells)
        invariant OkBefore(input, rk, width, i, 0)
        invariant forall i', j' {:trigger out[i', j']} :: 0 <= i' < i && 0 <= j' < width ==>
                    CellOutput(input, rk, i', j') == Ok(out[i', j'])
      {
        var j := 0;
        ghost var written: seq<string> := [];
        while j < width
          invariant 0 <= j <= width
          invariant CacheConsistent(input, rk)
          invariant Extends(old(knownResults), knownResults) && Extends(old(overwrittenCells), overwrittenCells)
          invariant OkBefore(input, rk, width, i, j)
          invariant forall i', j' {:trigger out[i', j']} :: 0 <= i' < i && 0 <= j' < width ==>
                      CellOutput(input, rk, i', j') == Ok(out[i', j'])
          invariant |written| == j
          invariant forall j' :: 0 <= j' < j ==> CellOutput(input, rk, i, j') == Ok(written[j'])
          invariant forall j' :: 0 <= j' < j ==> out[i, j'] == written[j']
        {
          ghost var texts, positions := knownResults, overwrittenCells;
          var text := CalculateCellText(input, rk, i, j);
          ExtendsTrans(old(knownResults), texts, knownResults);
          ExtendsTrans(old(overwrittenCells), positions, overwrittenCells);
          if text.Err? {
            FailureAt(input, rk, width, i, j, text.error);
            return Err(text.error);
          }
          OkBeforeStep(input, rk, width, i, j);
          RowStep(input, rk, i, j, written, text.value);
          out[i, j] := text.value;
          written := written + [text.value];
          j := j + 1;
        }
        OkBeforeNextRow(input, rk, width, i);
        i := i + 1;
      }
      return Ok(out);
    }
  }

  /** What checkSpreadsheet compares against the expected grid: calculate on a fresh
      evaluator, whose output is then a function of the grid alone. */
  method CheckSpreadsheet(input: Grid, ghost rk: Ranking) returns (r: Result<array2<string>>)
    requires Ranked(input, rk)
    ensures r.Ok? <==> |input| > 0 && OkBefore(input, rk, |input[0]|, |input|, 0)
    ensures r.Ok? ==> r.value.Length0 == |input| && r.value.Length1 == |input[0]|
    ensures r.Ok? ==> forall i, j :: 0 <= i < |input| && 0 <= j < |input[0]| ==>
                        CellOutput(input, rk, i, j) == Ok(r.value[i, j])
    ensures r.Err? ==> (|input| == 0 && r.error == IndexError)
                       || (|input| > 0 && FirstFailure(input, rk, |input[0]|, r.error))
  {
    var sheet := new Spreadsheet();
    r := sheet.Calculate(input, rk);
  }
}
