/** Decoding a cell reference such as `$B12` into zero-based coordinates (parseReference). */
module References {
  import opened Results
  import opened Numbers

  /** A grid position, row first, as parseReference returns `[row, col]`. */
  datatype Coord = Coord(row: int, col: int)

  const ASCII_CAPITAL_A: int := 65

  /** Drops the first character (the `$` sigil), reads the next one as the column letter and
      the rest as the 1-based row. Too short a text fails on substring/charAt (IndexError);
      row text that Integer.parseInt rejects is a FormatError. The column is not range-checked. */
  function ParseReference(elem: string): (r: Result<Coord>)
    ensures |elem| < 2 <==> r == Err(IndexError)
    ensures r.Ok? ==> r.value.col == (elem[1] as int) - ASCII_CAPITAL_A
    ensures r.Ok? ==> ParseJavaInt(elem[2..]).Some? && INT_MIN <= r.value.row <= INT_MAX
    ensures 2 <= |elem| && ParseJavaInt(elem[2..]).None? ==> r == Err(FormatError(elem[2..]))
    ensures 2 <= |elem| && ParseJavaInt(elem[2..]).Some? ==>
              r == Ok(Coord(DecrementInt32(ParseJavaInt(elem[2..]).value), (elem[1] as int) - ASCII_CAPITAL_A))
  {
    if |elem| < 2 then Err(IndexError)
    else
      var rowText := elem[2..];
      match ParseJavaInt(rowText)
      case None => Err(FormatError(rowText))
      case Some(v) => Ok(Coord(DecrementInt32(v), (elem[1] as int) - ASCII_CAPITAL_A))
  }

  /** A reference spelled sigil, capital letter, row number decodes to row number minus one and
      the letter's place in the alphabet. */
  lemma ReferenceDecoding(letter: char, n: int)
    requires 'A' <= letter <= 'Z' && 1 <= n <= INT_MAX
    ensures ParseReference("$" + [letter] + IntToString(n)) == Ok(Coord(n - 1, (letter as int) - ('A' as int)))
  {
    var e := "$" + [letter] + IntToString(n);
    assert e[1] == letter;
    assert e[2..] == IntToString(n);
    JavaIntRoundTrip(n);
  }

  /** The two decodings the repository's unit test checks. */
  lemma ReferenceExamples()
    ensures ParseReference("$A1") == Ok(Coord(0, 0))
    ensures ParseReference("$Z910") == Ok(Coord(909, 25))
  {
    ReferenceDecoding('A', 1);
    assert "$A1" == "$" + ['A'] + IntToString(1);
    ReferenceDecoding('Z', 910);
    assert "$Z910" == "$" + ['Z'] + IntToString(910);
  }
}
