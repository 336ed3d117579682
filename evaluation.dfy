/** The value of a cell as a pure function of the grid: what calculateCell and
    calculateCellElement compute when their caches are ignored. */
module Evaluation {
  import opened Results
  import opened Numbers
  import opened References
  import opened FormulaParser
  import opened Operations

  /** Rows of cell texts, as String[][]: rows may differ in length. */
  type Grid = seq<seq<string>>

  predicate InBounds(g: Grid, p: Coord)
  {
    0 <= p.row < |g| && 0 <= p.col < |g[p.row]|
  }

  /** A witness that references in a grid do not form a cycle: a rank for every cell, below
      `bound`, that strictly drops along every reference the evaluator follows. */
  datatype Ranking = Ranking(rank: seq<seq<nat>>, bound: nat)

  predicate Shaped(g: Grid, rk: Ranking)
  {
    |rk.rank| == |g| && forall i :: 0 <= i < |g| ==> |rk.rank[i]| == |g[i]|
  }

  /** The cell that an operand or reference cell dereferences, if it names one inside the grid. */
  function ElemTarget(g: Grid, e: string): (r: Option<Coord>)
    ensures r.Some? ==> InBounds(g, r.value) && '$' in e && ParseReference(e) == Ok(r.value)
  {
    if '$' in e then
      match ParseReference(e)
      case Ok(p) => if InBounds(g, p) then Some(p) else None
      case Err(_) => None
    else None
  }

  predicate ElemBelow(g: Grid, rk: Ranking, e: string, b: nat)
    requires Shaped(g, rk)
  {
    match ElemTarget(g, e)
    case Some(p) => rk.rank[p.row][p.col] < b
    case None => true
  }

  /** Every cell the text `t` dereferences has rank below b. */
  predicate CellBelow(g: Grid, rk: Ranking, t: string, b: nat)
    requires Shaped(g, rk)
  {
    if '=' in t then
      match ParseFormulaicCell(t)
      case Ok(f) => ElemBelow(g, rk, f.left, b) && ElemBelow(g, rk, f.right, b)
      case Err(_) => true
    else if '$' in t then ElemBelow(g, rk, t, b)
    else true
  }

  /** rk shows the grid acyclic: each cell's references point to cells of lower rank. */
  predicate Ranked(g: Grid, rk: Ranking)
  {
    && Shaped(g, rk)
    && (forall i, j :: 0 <= i < |g| && 0 <= j < |g[i]| ==> rk.rank[i][j] < rk.bound)
    && (forall i, j :: 0 <= i < |g| && 0 <= j < |g[i]| ==> CellBelow(g, rk, g[i][j], rk.rank[i][j]))
  }

  /** calculateCell without its cache: '=' selects the formula path (even if '$' occurs too),
      otherwise '$' the reference path, otherwise the text is a literal. */
  function EvalCell(g: Grid, rk: Ranking, t: string, b: nat): Result<real>
    requires Ranked(g, rk) && CellBelow(g, rk, t, b)
    decreases b, 2
  {
    if '=' in t then
      match ParseFormulaicCell(t)
      case Err(e) => Err(e)
      case Ok(f) => EvalFormula(g, rk, f, b)
    else if '$' in t then EvalElem(g, rk, t, b)
    else ParseLiteral(t)
  }

  /** The formula path: both operands in order (the first failure wins), then the operation. */
  function EvalFormula(g: Grid, rk: Ranking, f: Formula, b: nat): Result<real>
    requires Ranked(g, rk) && ElemBelow(g, rk, f.left, b) && ElemBelow(g, rk, f.right, b)
    decreases b, 1
  {
    var l :- EvalElem(g, rk, f.left, b);
    var r :- EvalElem(g, rk, f.right, b);
    PerformFormulaCalculation(f.operation, l, r)
  }

  /** calculateCellElement without its cache: text without '$' is a literal; otherwise it is a
      reference, and the referenced cell's own text is evaluated. */
  function EvalElem(g: Grid, rk: Ranking, e: string, b: nat): Result<real>
    requires Ranked(g, rk) && ElemBelow(g, rk, e, b)
    decreases b, 0
  {
    if '$' !in e then ParseLiteral(e)
    else
      match ParseReference(e)
      case Err(err) => Err(err)
      case Ok(p) =>
        if InBounds(g, p) then EvalCell(g, rk, g[p.row][p.col], rk.rank[p.row][p.col])
        else Err(IndexError)
  }

  /** Any text's references lie in the grid, so their ranks are below the bound. */
  lemma BelowBound(g: Grid, rk: Ranking, t: string)
    requires Ranked(g, rk)
    ensures CellBelow(g, rk, t, rk.bound)
  {
  }

  /** The value of a cell text in grid g. */
  ghost function Value(g: Grid, rk: Ranking, t: string): Result<real>
    requires Ranked(g, rk)
  {
    BelowBound(g, rk, t);
    EvalCell(g, rk, t, rk.bound)
  }

  /** The value depends on neither the ranking nor the bound: rk only witnesses termination. */
  lemma {:induction false} CellIndependent(g: Grid, rk1: Ranking, b1: nat, rk2: Ranking, b2: nat, t: string)
    requires Ranked(g, rk1) && CellBelow(g, rk1, t, b1)
    requires Ranked(g, rk2) && CellBelow(g, rk2, t, b2)
    ensures EvalCell(g, rk1, t, b1) == EvalCell(g, rk2, t, b2)
    decreases b1, 2
  {
    if '=' in t {
      match ParseFormulaicCell(t)
      case Ok(f) =>
        ElemIndependent(g, rk1, b1, rk2, b2, f.left);
        ElemIndependent(g, rk1, b1, rk2, b2, f.right);
      case Err(_) =>
    } else if '$' in t {
      ElemIndependent(g, rk1, b1, rk2, b2, t);
    }
  }

  lemma {:induction false} ElemIndependent(g: Grid, rk1: Ranking, b1: nat, rk2: Ranking, b2: nat, e: string)
    requires Ranked(g, rk1) && ElemBelow(g, rk1, e, b1)
    requires Ranked(g, rk2) && ElemBelow(g, rk2, e, b2)
    ensures EvalElem(g, rk1, e, b1) == EvalElem(g, rk2, e, b2)
    decreases b1, 0
  {
    if '$' in e {
      match ParseReference(e)
      case Ok(p) =>
        if InBounds(g, p) {
          CellIndependent(g, rk1, rk1.rank[p.row][p.col], rk2, rk2.rank[p.row][p.col], g[p.row][p.col]);
        }
      case Err(_) =>
    }
  }

  /** Evaluating with any admissible bound gives the cell's value. */
  lemma EvalIsValue(g: Grid, rk: Ranking, t: string, b: nat)
    requires Ranked(g, rk) && CellBelow(g, rk, t, b)
    ensures EvalCell(g, rk, t, b) == Value(g, rk, t)
  {
    BelowBound(g, rk, t);
    CellIndependent(g, rk, b, rk, rk.bound, t);
  }

  /** The value of a text is the same whichever ranking witnesses acyclicity. */
  lemma ValueIndependent(g: Grid, rk1: Ranking, rk2: Ranking, t: string)
    requires Ranked(g, rk1) && Ranked(g, rk2)
    ensures Value(g, rk1, t) == Value(g, rk2, t)
  {
    BelowBound(g, rk1, t);
    BelowBound(g, rk2, t);
    CellIndependent(g, rk1, rk1.bound, rk2, rk2.bound, t);
  }

  /** An integer literal evaluates to exactly that number, wherever it stands. */
  lemma LiteralValue(g: Grid, rk: Ranking, n: int)
    requires Ranked(g, rk)
    ensures Value(g, rk, IntToString(n)) == Ok(n as real)
  {
    var t := IntToString(n);
    assert '=' !in t && '$' !in t by {
      forall k | 0 <= k < |t| ensures t[k] != '=' && t[k] != '$' { }
    }
    LiteralRoundTrip(n);
  }

  /** A reference cell (no '=') that names a cell inside the grid has that cell's value. */
  lemma ReferenceValue(g: Grid, rk: Ranking, t: string, p: Coord)
    requires Ranked(g, rk)
    requires '=' !in t && '$' in t && ParseReference(t) == Ok(p) && InBounds(g, p)
    ensures Value(g, rk, t) == Value(g, rk, g[p.row][p.col])
  {
    BelowBound(g, rk, t);
    assert EvalCell(g, rk, t, rk.bound) == EvalElem(g, rk, t, rk.bound);
    EvalIsValue(g, rk, g[p.row][p.col], rk.rank[p.row][p.col]);
  }

  /** An operand's references lie in the grid too, so their ranks are below the bound. */
  lemma ElemBelowBound(g: Grid, rk: Ranking, e: string)
    requires Ranked(g, rk)
    ensures ElemBelow(g, rk, e, rk.bound)
  {
  }

  /** The value of a formula operand in grid g. */
  ghost function ElemValue(g: Grid, rk: Ranking, e: string): Result<real>
    requires Ranked(g, rk)
  {
    ElemBelowBound(g, rk, e);
    EvalElem(g, rk, e, rk.bound)
  }

  /** An operand without '$' is a number literal; one naming a cell inside the grid has
      that cell's value; one naming a cell outside it is an index error. */
  lemma ElemValueCases(g: Grid, rk: Ranking, e: string)
    requires Ranked(g, rk)
    ensures '$' !in e ==> ElemValue(g, rk, e) == ParseLiteral(e)
    ensures '$' in e && ParseReference(e).Err? ==> ElemValue(g, rk, e) == Err(ParseReference(e).error)
    ensures '$' in e && ParseReference(e).Ok? && !InBounds(g, ParseReference(e).value)
            ==> ElemValue(g, rk, e) == Err(IndexError)
    ensures '$' in e && ParseReference(e).Ok? && InBounds(g, ParseReference(e).value)
            ==> var p := ParseReference(e).value; ElemValue(g, rk, e) == Value(g, rk, g[p.row][p.col])
  {
    ElemBelowBound(g, rk, e);
    if '$' in e && ParseReference(e).Ok? && InBounds(g, ParseReference(e).value) {
      var p := ParseReference(e).value;
      EvalIsValue(g, rk, g[p.row][p.col], rk.rank[p.row][p.col]);
    }
  }

  /** A formula cell `=NAME(L,R)` with plain parts: the left operand's failure wins, then the
      right operand's, and otherwise the operation is applied to the two operand values. */
  lemma FormulaValue(g: Grid, rk: Ranking, n: string, l: string, r: string)
    requires Ranked(g, rk)
    requires |n| > 0 && |l| > 0 && |r| > 0 && Plain(n) && Plain(l) && Plain(r)
    ensures ElemValue(g, rk, l).Err? ==> Value(g, rk, FormulaText(n, l, r)) == ElemValue(g, rk, l)
    ensures ElemValue(g, rk, l).Ok? && ElemValue(g, rk, r).Err?
            ==> Value(g, rk, FormulaText(n, l, r)) == ElemValue(g, rk, r)
    ensures ElemValue(g, rk, l).Ok? && ElemValue(g, rk, r).Ok?
            ==> Value(g, rk, FormulaText(n, l, r))
                == PerformFormulaCalculation(n, ElemValue(g, rk, l).value, ElemValue(g, rk, r).value)
  {
    var t := FormulaText(n, l, r);
    ParseFormulaShape(n, l, r);
    assert t[0] == '=';
    ElemBelowBound(g, rk, l);
    ElemBelowBound(g, rk, r);
    BelowBound(g, rk, t);
    assert Value(g, rk, t) == EvalFormula(g, rk, Formula(n, l, r), rk.bound);
  }

  /** The text written for a cell by calculate: its value floored, as decimal text; a missing
      cell of a short row is an ArrayIndexOutOfBoundsException. */
  ghost function CellOutput(g: Grid, rk: Ranking, i: int, j: int): Result<string>
    requires Ranked(g, rk) && 0 <= i < |g| && 0 <= j
  {
    if j < |g[i]| then
      match Value(g, rk, g[i][j])
      case Ok(v) => Ok(FormatFloor(v))
      case Err(e) => Err(e)
    else Err(IndexError)
  }

  /** The text calculate writes for a cell is the same whichever ranking witnesses acyclicity. */
  lemma OutputIndependent(g: Grid, rk1: Ranking, rk2: Ranking, i: int, j: int)
    requires Ranked(g, rk1) && Ranked(g, rk2) && 0 <= i < |g| && 0 <= j
    ensures CellOutput(g, rk1, i, j) == CellOutput(g, rk2, i, j)
  {
    if j < |g[i]| {
      ValueIndependent(g, rk1, rk2, g[i][j]);
    }
  }

  /** Every cell before (i, j) in row-major order, within the first w columns, has an output. */
  ghost predicate OkBefore(g: Grid, rk: Ranking, w: nat, i: int, j: int)
    requires Ranked(g, rk)
  {
    forall i', j' :: 0 <= i' < |g| && 0 <= j' < w && (i' < i || (i' == i && j' < j))
                     ==> CellOutput(g, rk, i', j').Ok?
  }

  /** e is the failure of the first cell in row-major order, within the first w columns, that fails. */
  ghost predicate FirstFailure(g: Grid, rk: Ranking, w: nat, e: Error)
    requires Ranked(g, rk)
  {
    exists i, j :: 0 <= i < |g| && 0 <= j < w && CellOutput(g, rk, i, j) == Err(e) && OkBefore(g, rk, w, i, j)
  }

  /** A cell that has an output extends the prefix of cells that have one. */
  lemma OkBeforeStep(g: Grid, rk: Ranking, w: nat, i: int, j: int)
    requires Ranked(g, rk) && OkBefore(g, rk, w, i, j) && 0 <= i < |g| && 0 <= j < w
    requires CellOutput(g, rk, i, j).Ok?
    ensures OkBefore(g, rk, w, i, j + 1)
  {
  }

  /** A whole row with outputs moves the prefix to the start of the next row. */
  lemma OkBeforeNextRow(g: Grid, rk: Ranking, w: nat, i: int)
    requires Ranked(g, rk) && OkBefore(g, rk, w, i, w)
    ensures OkBefore(g, rk, w, i + 1, 0)
  {
  }

  /** The first cell without an output gives the grid's failure. */
  lemma FailureAt(g: Grid, rk: Ranking, w: nat, i: int, j: int, e: Error)
    requires Ranked(g, rk) && OkBefore(g, rk, w, i, j) && 0 <= i < |g| && 0 <= j < w
    requires CellOutput(g, rk, i, j) == Err(e)
    ensures FirstFailure(g, rk, w, e)
  {
  }

  /** Row i's outputs so far, extended by the output of cell (i, j). */
  lemma RowStep(g: Grid, rk: Ranking, i: int, j: int, written: seq<string>, text: string)
    requires Ranked(g, rk) && 0 <= i < |g| && 0 <= j && |written| == j
    requires forall j' :: 0 <= j' < j ==> CellOutput(g, rk, i, j') == Ok(written[j'])
    requires CellOutput(g, rk, i, j) == Ok(text)
    ensures forall j' :: 0 <= j' < j + 1 ==> CellOutput(g, rk, i, j') == Ok((written + [text])[j'])
  {
    forall j' | 0 <= j' < j + 1
      ensures CellOutput(g, rk, i, j') == Ok((written + [text])[j'])
    {
      if j' < j {
        assert (written + [text])[j'] == written[j'];
      }
    }
  }
}
