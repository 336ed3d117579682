/** buildRow from the repository's test file: a line of text split into cells at the commas
    that are not inside parentheses. */
module RowSplitting {

  /** The inParenthesis flag after scanning s from a cleared flag: any '(' sets it and any ')'
      clears it; it is a flag, not a nesting depth. */
  function ParenFlag(s: string): bool
  {
    if s == [] then false
    else
      var c := s[|s| - 1];
      if c == '(' then true else if c == ')' then false else ParenFlag(s[..|s| - 1])
  }

  /** The comma at index k of s separates cells: it is met while the flag is clear. */
  predicate IsSplitComma(s: string, k: int)
  {
    0 <= k < |s| && s[k] == ',' && !ParenFlag(s[..k])
  }

  predicate NoSplitComma(p: string)
  {
    forall k :: 0 <= k < |p| ==> !IsSplitComma(p, k)
  }

  /** The number of separating commas in s. */
  function CountSplits(s: string): nat
  {
    if s == [] then 0 else CountSplits(s[..|s| - 1]) + (if IsSplitComma(s, |s| - 1) then 1 else 0)
  }

  /** String.join(",", pieces). */
  function Join(pieces: seq<string>): string
  {
    if |pieces| == 0 then ""
    else if |pieces| == 1 then pieces[0]
    else Join(pieces[..|pieces| - 1]) + "," + pieces[|pieces| - 1]
  }

  lemma ParenFlagSnoc(s: string, c: char)
    ensures ParenFlag(s + [c]) == if c == '(' then true else if c == ')' then false else ParenFlag(s)
  {
    assert (s + [c])[..|s|] == s;
  }

  lemma JoinSnocChar(pieces: seq<string>, current: string, c: char)
    ensures Join(pieces + [current + [c]]) == Join(pieces + [current]) + [c]
  {
    var ps := pieces + [current + [c]];
    assert ps[..|ps| - 1] == pieces;
    assert (pieces + [current])[..|pieces|] == pieces;
  }

  lemma JoinSnocEmpty(pieces: seq<string>, current: string)
    ensures Join(pieces + [current] + [""]) == Join(pieces + [current]) + ","
  {
    assert (pieces + [current] + [""])[..|pieces| + 1] == pieces + [current];
  }

  lemma NoSplitCommaSnoc(p: string, c: char)
    requires NoSplitComma(p) && !(c == ',' && !ParenFlag(p))
    ensures NoSplitComma(p + [c])
  {
    var q := p + [c];
    forall k | 0 <= k < |q|
      ensures !IsSplitComma(q, k)
    {
      if k < |p| {
        assert q[k] == p[k] && q[..k] == p[..k];
        assert !IsSplitComma(p, k);
      } else {
        assert q[..k] == p;
      }
    }
  }

  /** pieces is a split of line into cells: joined with commas they give the line back, no
      piece holds a separating comma of its own, and every piece but the last ends with the flag
      clear, so that the comma after it separates. */
  ghost predicate IsRowSplit(line: string, pieces: seq<string>)
  {
    && |pieces| >= 1
    && Join(pieces) == line
    && (forall i :: 0 <= i < |pieces| ==> NoSplitComma(pieces[i]))
    && (forall i :: 0 <= i < |pieces| - 1 ==> !ParenFlag(pieces[i]))
  }

  /** buildRow: appends each character to the current cell, except that a comma met while the
      flag is clear closes the current cell; the last cell is closed at the end of the line. */
  method BuildRow(line: string) returns (result: seq<string>)
    ensures IsRowSplit(line, result)
    ensures |result| == 1 + CountSplits(line)
    ensures CountSplits(line) == 0 ==> result == [line]
  {
    result := [];
    var inParenthesis := false;
    var current := "";
    for k := 0 to |line|
      invariant Join(result + [current]) == line[..k]
      invariant inParenthesis == ParenFlag(line[..k]) && inParenthesis == ParenFlag(current)
      invariant |result| == CountSplits(line[..k])
      invariant forall i :: 0 <= i < |result| ==> NoSplitComma(result[i]) && !ParenFlag(result[i])
      invariant NoSplitComma(current)
    {
      var c := line[k];
      assert line[..k + 1] == line[..k] + [c];
      ParenFlagSnoc(line[..k], c);
      ParenFlagSnoc(current, c);
      if c == '(' {
        inParenthesis := true;
      } else if c == ')' {
        inParenthesis := false;
      }
      if c == ',' && !inParenthesis {
        JoinSnocEmpty(result, current);
        result := result + [current];
        current := "";
      } else {
        JoinSnocChar(result, current, c);
        NoSplitCommaSnoc(current, c);
        current := current + [c];
      }
    }
    assert line[..|line|] == line;
    result := result + [current];
  }

  lemma {:induction false} JoinCons(pieces: seq<string>)
    requires |pieces| >= 2
    ensures Join(pieces) == pieces[0] + "," + Join(pieces[1..])
    decreases |pieces|
  {
    var n := |pieces|;
    if n > 2 {
      JoinCons(pieces[..n - 1]);
      assert pieces[..n - 1][1..] == pieces[1..][..n - 2];
      assert pieces[..n - 1][0] == pieces[0];
    }
  }

  /** A line has exactly one split into cells, so the one buildRow returns is it. */
  lemma {:induction false} RowSplitUnique(line: string, p: seq<string>, q: seq<string>)
    requires IsRowSplit(line, p) && IsRowSplit(line, q)
    ensures p == q
    decreases |line|
  {
    if |p| > 1 { JoinCons(p); }
    if |q| > 1 { JoinCons(q); }
    var a, b := p[0], q[0];
    assert a == line[..|a|] && b == line[..|b|];
    if |a| < |b| {
      assert |p| > 1;
      assert b[..|a|] == a && b[|a|] == ',';
      assert IsSplitComma(b, |a|);
      assert false;
    } else if |b| < |a| {
      assert |q| > 1;
      assert a[..|b|] == b && a[|b|] == ',';
      assert IsSplitComma(a, |b|);
      assert false;
    }
    assert a == b;
    if |p| == 1 || |q| == 1 {
      assert |p| == 1 && |q| == 1;
    } else {
      var rest := line[|a| + 1..];
      assert Join(p[1..]) == rest && Join(q[1..]) == rest;
      assert IsRowSplit(rest, p[1..]);
      assert IsRowSplit(rest, q[1..]);
      RowSplitUnique(rest, p[1..], q[1..]);
      assert p == [a] + p[1..] && q == [b] + q[1..];
    }
  }

  lemma {:induction false} ParenFlagOpen(s: string, k: nat)
    requires k < |s| && s[k] == '('
    requires forall m :: k < m < |s| ==> s[m] != ')'
    ensures ParenFlag(s)
    decreases |s|
  {
    if k < |s| - 1 {
      ParenFlagOpen(s[..|s| - 1], k);
    }
  }

  /** The row `3,=ADD($A1,4)` splits into its two cells and no other way, so buildRow returns
      exactly these: the comma inside the parentheses is kept. */
  lemma RowExample()
    ensures IsRowSplit("3,=ADD($A1,4)", ["3", "=ADD($A1,4)"])
    ensures forall q :: IsRowSplit("3,=ADD($A1,4)", q) ==> q == ["3", "=ADD($A1,4)"]
  {
    var p := "=ADD($A1,4)";
    ParenFlagOpen(p[..8], 4);
    forall k | 0 <= k < |p| ensures !IsSplitComma(p, k) {
      if k != 8 {
        assert p[k] != ',';
      }
    }
    forall q | IsRowSplit("3,=ADD($A1,4)", q) ensures q == ["3", "=ADD($A1,4)"] {
      RowSplitUnique("3,=ADD($A1,4)", q, ["3", "=ADD($A1,4)"]);
    }
  }
}
