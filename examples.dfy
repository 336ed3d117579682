/** Whole grids evaluated cell by cell. Each lemma takes the formula parts (`n`, `l`, `r`) as
    parameters pinned to literals by its preconditions, and builds the formula cell as
    `FormulaText(n, l, r)`; `FormulaCellText` shows that this is the literal cell text
    (`=ADD($A1,4)`, `=DIV($A1,$B1)`). Keeping the literals out of the grid means the
    parser's functions are reasoned about through their contracts (`ParseFormulaShape`) rather
    than unfolded character by character on a constant, which keeps each proof small. */
module Examples {
  import opened Results
  import opened Numbers
  import opened References
  import opened FormulaParser
  import opened Evaluation

  /** The formula texts used below, written out. */
  lemma FormulaCellText()
    ensures FormulaText("ADD", "$A1", "4") == "=ADD($A1,4)"
    ensures FormulaText("DIV", "$A1", "$B1") == "=DIV($A1,$B1)"
  {
  }

  /** The formula parts used below hold no delimiter. */
  lemma ExamplePartsPlain()
    ensures Plain("ADD") && Plain("$A1") && Plain("4") && Plain("DIV") && Plain("$B1")
  {
  }

  /** `=NAME(L,R)` with plain parts names the cells its operands name. */
  lemma FormulaCellBelow(g: Grid, rk: Ranking, n: string, l: string, r: string, b: nat)
    requires Shaped(g, rk)
    requires |n| > 0 && |l| > 0 && |r| > 0 && Plain(n) && Plain(l) && Plain(r)
    requires ElemBelow(g, rk, l, b) && ElemBelow(g, rk, r, b)
    ensures CellBelow(g, rk, FormulaText(n, l, r), b)
  {
    ParseFormulaShape(n, l, r);
    assert FormulaText(n, l, r)[0] == '=';
  }

  lemma AddGridRanked(g: Grid, n: string, l: string, r: string)
    requires n == "ADD" && l == "$A1" && r == "4"
    requires g == [["3", FormulaText(n, l, r)]]
    ensures Ranked(g, Ranking([[0, 1]], 2))
  {
    var rk := Ranking([[0, 1]], 2);
    forall i, j | 0 <= i < |g| && 0 <= j < |g[i]|
      ensures rk.rank[i][j] < rk.bound && CellBelow(g, rk, g[i][j], rk.rank[i][j])
    {
      if j == 0 {
        assert '=' !in g[0][0] && '$' !in g[0][0];
      } else {
        ReferenceExamples();
        assert ElemTarget(g, l) == Some(Coord(0, 0));
        assert '$' !in r;
        ExamplePartsPlain();
        FormulaCellBelow(g, rk, n, l, r, 1);
      }
    }
  }

  lemma AddGridValues(g: Grid, n: string, l: string, r: string, rk: Ranking)
    requires n == "ADD" && l == "$A1" && r == "4"
    requires g == [["3", FormulaText(n, l, r)]]
    requires rk == Ranking([[0, 1]], 2)
    ensures Ranked(g, rk)
    ensures Value(g, rk, g[0][0]) == Ok(3.0) && Value(g, rk, g[0][1]) == Ok(7.0)
  {
    AddGridRanked(g, n, l, r);
    assert Value(g, rk, g[0][0]) == Ok(3.0) by {
      LiteralValue(g, rk, 3);
      assert IntToString(3) == g[0][0];
    }
    assert ElemValue(g, rk, l) == Ok(3.0) by {
      ReferenceExamples();
      ElemValueCases(g, rk, l);
    }
    assert ElemValue(g, rk, r) == Ok(4.0) by {
      LiteralValue(g, rk, 4);
      assert IntToString(4) == r;
      ElemValueCases(g, rk, r);
    }
    ExamplePartsPlain();
    FormulaValue(g, rk, n, l, r);
  }

  lemma AddOutputTexts()
    ensures FormatFloor(3.0) == "3" && FormatFloor(7.0) == "7"
  {
  }

  /** The grid `3,=ADD($A1,4)` is acyclic and evaluates to `3,7`. */
  lemma AddGrid(g: Grid, n: string, l: string, r: string) returns (rk: Ranking)
    requires n == "ADD" && l == "$A1" && r == "4"
    requires g == [["3", FormulaText(n, l, r)]]
    ensures Ranked(g, rk)
    ensures CellOutput(g, rk, 0, 0) == Ok("3") && CellOutput(g, rk, 0, 1) == Ok("7")
  {
    rk := Ranking([[0, 1]], 2);
    AddGridValues(g, n, l, r, rk);
    AddOutputTexts();
  }

  lemma DivReferences()
    ensures ParseReference("$A1") == Ok(Coord(0, 0)) && ParseReference("$B1") == Ok(Coord(0, 1))
  {
    ReferenceExamples();
    ReferenceDecoding('B', 1);
    assert "$B1" == "$" + ['B'] + IntToString(1);
  }

  lemma DivGridRanked(g: Grid, n: string, l: string, r: string)
    requires n == "DIV" && l == "$A1" && r == "$B1"
    requires g == [["10", "$A1"], [FormulaText(n, l, r), "5"]]
    ensures Ranked(g, Ranking([[0, 1], [2, 0]], 3))
  {
    var rk := Ranking([[0, 1], [2, 0]], 3);
    forall i, j | 0 <= i < |g| && 0 <= j < |g[i]|
      ensures rk.rank[i][j] < rk.bound && CellBelow(g, rk, g[i][j], rk.rank[i][j])
    {
      if i == 0 && j == 0 {
        assert '=' !in g[0][0] && '$' !in g[0][0];
      } else if i == 0 {
        DivReferences();
        assert '=' !in g[0][1] && ElemTarget(g, g[0][1]) == Some(Coord(0, 0));
      } else if j == 0 {
        DivReferences();
        assert ElemTarget(g, l) == Some(Coord(0, 0));
        assert ElemTarget(g, r) == Some(Coord(0, 1));
        ExamplePartsPlain();
        FormulaCellBelow(g, rk, n, l, r, 2);
      } else {
        assert '=' !in g[1][1] && '$' !in g[1][1];
      }
    }
  }

  lemma DivGridValues(g: Grid, n: string, l: string, r: string, rk: Ranking)
    requires n == "DIV" && l == "$A1" && r == "$B1"
    requires g == [["10", "$A1"], [FormulaText(n, l, r), "5"]]
    requires rk == Ranking([[0, 1], [2, 0]], 3)
    ensures Ranked(g, rk)
    ensures Value(g, rk, g[0][0]) == Ok(10.0) && Value(g, rk, g[0][1]) == Ok(10.0)
    ensures Value(g, rk, g[1][0]) == Ok(1.0) && Value(g, rk, g[1][1]) == Ok(5.0)
  {
    DivGridRanked(g, n, l, r);
    assert Value(g, rk, g[0][0]) == Ok(10.0) by {
      LiteralValue(g, rk, 10);
      assert IntToString(10) == g[0][0];
    }
    assert Value(g, rk, g[1][1]) == Ok(5.0) by {
      LiteralValue(g, rk, 5);
      assert IntToString(5) == g[1][1];
    }
    assert Value(g, rk, g[0][1]) == Ok(10.0) by {
      DivReferences();
      ReferenceValue(g, rk, g[0][1], Coord(0, 0));
    }
    assert ElemValue(g, rk, l) == Ok(10.0) && ElemValue(g, rk, r) == Ok(10.0) by {
      DivReferences();
      ElemValueCases(g, rk, l);
      ElemValueCases(g, rk, r);
    }
    ExamplePartsPlain();
    FormulaValue(g, rk, n, l, r);
  }

  lemma DivOutputTexts()
    ensures FormatFloor(10.0) == "10" && FormatFloor(1.0) == "1" && FormatFloor(5.0) == "5"
  {
    assert IntToString(10) == "10";
  }

  /** The grid `10,$A1 / =DIV($A1,$B1),5`. `$B1` names row 1, column B, which holds `$A1`, so
      the formula divides 10 by 10: the output is `10,10 / 1,5`. */
  lemma DivGrid(g: Grid, n: string, l: string, r: string) returns (rk: Ranking)
    requires n == "DIV" && l == "$A1" && r == "$B1"
    requires g == [["10", "$A1"], [FormulaText(n, l, r), "5"]]
    ensures Ranked(g, rk)
    ensures CellOutput(g, rk, 0, 0) == Ok("10") && CellOutput(g, rk, 0, 1) == Ok("10")
    ensures CellOutput(g, rk, 1, 0) == Ok("1") && CellOutput(g, rk, 1, 1) == Ok("5")
  {
    rk := Ranking([[0, 1], [2, 0]], 3);
    DivGridValues(g, n, l, r, rk);
    DivOutputTexts();
  }
}
