/** Splitting a formula cell `=NAME(L,R)` into its three parts (extractFormulaElem and
    parseFormulaicCell). Each part is what a find of one of the regular expressions `=.+\(`,
    `\(.+,` and `,.+\)` matches, minus its first and last character. */
module FormulaParser {
  import opened Results

  /** The characters Java's `.` does not match (outside DOTALL and UNIX_LINES mode). */
  predicate IsLineTerminator(c: char)
  {
    c == '\n' || c == '\r' || c == '\U{0085}' || c == '\U{2028}' || c == '\U{2029}'
  }

  /** The pattern `o.+c` matches exactly the span t[i..k+1]. */
  ghost predicate Matches(t: string, o: char, c: char, i: int, k: int)
  {
    0 <= i && i + 2 <= k < |t| && t[i] == o && t[k] == c
    && forall m :: i < m < k ==> !IsLineTerminator(t[m])
  }

  /** The span Matcher.find reports for `o.+c`: the leftmost start, and from there the longest
      match, because `.+` is greedy and gives characters back only as far as it must. */
  ghost predicate LeftmostGreedy(t: string, o: char, c: char, i: int, k: int)
  {
    && Matches(t, o, c, i, k)
    && (forall k' :: Matches(t, o, c, i, k') ==> k' <= k)
    && (forall i', k' :: i' < i ==> !Matches(t, o, c, i', k'))
  }

  /** The first index at or after j that holds a line terminator, or |t| if there is none. */
  function LineEnd(t: string, j: nat): (m: nat)
    requires j <= |t|
    ensures j <= m <= |t|
    ensures m < |t| ==> IsLineTerminator(t[m])
    ensures forall x :: j <= x < m ==> !IsLineTerminator(t[x])
    decreases |t| - j
  {
    if j == |t| || IsLineTerminator(t[j]) then j else LineEnd(t, j + 1)
  }

  /** The last index in [lo, hi) that holds c. */
  function LastIndexIn(t: string, c: char, lo: nat, hi: nat): (r: Option<nat>)
    requires hi <= |t|
    ensures r.Some? ==> lo <= r.value < hi && t[r.value] == c
    ensures r.Some? ==> forall x :: r.value < x < hi ==> t[x] != c
    ensures r.None? ==> forall x :: lo <= x < hi ==> t[x] != c
    decreases hi
  {
    if hi <= lo then None
    else if t[hi - 1] == c then Some(hi - 1)
    else LastIndexIn(t, c, lo, hi - 1)
  }

  /** Where a match starting at an `o` may end: up to and including the first line
      terminator after it (the closing `c` itself is matched literally, not by `.`). */
  function CloseLimit(t: string, i: nat): (hi: nat)
    requires i < |t|
    ensures hi <= |t|
  {
    var lineEnd := LineEnd(t, i + 1);
    if lineEnd < |t| then lineEnd + 1 else lineEnd
  }

  lemma MatchAtStart(t: string, o: char, c: char, i: nat, k: int)
    requires i < |t| && t[i] == o
    ensures Matches(t, o, c, i, k) <==> i + 2 <= k < CloseLimit(t, i) && t[k] == c
  {
  }

  /** Tries the start positions from `from` on, in order; at each `o`, the greedy `.+` runs to
      the end of the line and backs off to the last `c` at least two places further on. */
  function FindFrom(t: string, o: char, c: char, from: nat): (r: Option<(nat, nat)>)
    ensures r.Some? ==> from <= r.value.0 && Matches(t, o, c, r.value.0, r.value.1)
    ensures r.Some? ==> forall k' :: Matches(t, o, c, r.value.0, k') ==> k' <= r.value.1
    ensures r.Some? ==> forall i', k' :: from <= i' < r.value.0 ==> !Matches(t, o, c, i', k')
    ensures r.None? ==> forall i', k' :: from <= i' ==> !Matches(t, o, c, i', k')
    decreases |t| - from
  {
    if from >= |t| then None
    else if t[from] == o then
      var found := LastIndexIn(t, c, from + 2, CloseLimit(t, from));
      assert forall k :: Matches(t, o, c, from, k) <==> from + 2 <= k < CloseLimit(t, from) && t[k] == c by {
        forall k { MatchAtStart(t, o, c, from, k); }
      }
      match found
      case Some(k) => Some((from, k))
      case None => FindFrom(t, o, c, from + 1)
    else FindFrom(t, o, c, from + 1)
  }

  /** Matcher.find for `o.+c` on the whole text: the start and the last index of the match. */
  function Find(t: string, o: char, c: char): (r: Option<(nat, nat)>)
    ensures r.Some? ==> LeftmostGreedy(t, o, c, r.value.0, r.value.1)
    ensures r.None? <==> forall i, k :: !Matches(t, o, c, i, k)
  {
    FindFrom(t, o, c, 0)
  }

  /** extractFormulaElem: the found span without its first and last character, or the
      IllegalArgumentException naming the formula when nothing matches. */
  function ExtractFormulaElem(t: string, o: char, c: char): (r: Result<string>)
    ensures r.Ok? ==> exists i, k :: LeftmostGreedy(t, o, c, i, k) && r.value == t[i + 1..k]
    ensures r.Err? ==> r == Err(ParseError(t)) && forall i, k :: !Matches(t, o, c, i, k)
  {
    match Find(t, o, c)
    case Some((i, k)) => Ok(t[i + 1..k])
    case None => Err(ParseError(t))
  }

  /** The three raw parts of a formula cell, unevaluated. */
  datatype Formula = Formula(operation: string, left: string, right: string)

  /** parseFormulaicCell: the three extractions in order; the first failure is the result. */
  function ParseFormulaicCell(t: string): (r: Result<Formula>)
    ensures r.Err? ==> r == Err(ParseError(t))
    ensures r.Ok? <==> Find(t, '=', '(').Some? && Find(t, '(', ',').Some? && Find(t, ',', ')').Some?
    ensures r.Ok? ==> r == Ok(Formula(Inner(t, '=', '('), Inner(t, '(', ','), Inner(t, ',', ')')))
  {
    var operation :- ExtractFormulaElem(t, '=', '(');
    var left :- ExtractFormulaElem(t, '(', ',');
    var right :- ExtractFormulaElem(t, ',', ')');
    Ok(Formula(operation, left, right))
  }

  /** What lies strictly inside the span Matcher.find reports for `o.+c`. */
  ghost function Inner(t: string, o: char, c: char): string
    requires Find(t, o, c).Some?
  {
    var (i, k) := Find(t, o, c).value;
    t[i + 1..k]
  }

  lemma LeftmostGreedyUnique(t: string, o: char, c: char, i: int, k: int, i': int, k': int)
    requires LeftmostGreedy(t, o, c, i, k) && LeftmostGreedy(t, o, c, i', k')
    ensures i == i' && k == k'
  {
  }

  ghost predicate NoLineTerminator(t: string)
  {
    forall m :: 0 <= m < |t| ==> !IsLineTerminator(t[m])
  }

  /** On text without line terminators, a match exists exactly when the first `o` has a `c` at
      least two places after it, and the match then runs from that first `o` to the last `c`. */
  lemma FirstOpenLastClose(t: string, o: char, c: char, i: nat)
    requires NoLineTerminator(t)
    requires i < |t| && t[i] == o && forall m :: 0 <= m < i ==> t[m] != o
    ensures Find(t, o, c).Some? <==> exists k :: i + 2 <= k < |t| && t[k] == c
    ensures forall k :: i + 2 <= k < |t| && t[k] == c && (forall x :: k < x < |t| ==> t[x] != c)
                    ==> Find(t, o, c) == Some((i, k))
  {
    var r := Find(t, o, c);
    if r.Some? {
      assert t[r.value.0] == o;
      assert Matches(t, o, c, r.value.0, r.value.1);
    }
    forall k | i + 2 <= k < |t| && t[k] == c
      ensures Matches(t, o, c, i, k)
    {
    }
    forall k | i + 2 <= k < |t| && t[k] == c && (forall x :: k < x < |t| ==> t[x] != c)
      ensures Find(t, o, c) == Some((i, k))
    {
      assert LeftmostGreedy(t, o, c, i, k);
      LeftmostGreedyUnique(t, o, c, i, k, r.value.0, r.value.1);
    }
  }

  /** A part without delimiters or line terminators, as in a well-formed `=NAME(L,R)`. */
  predicate Plain(s: string)
  {
    forall m :: 0 <= m < |s| ==> s[m] != '=' && s[m] != '(' && s[m] != ',' && s[m] != ')'
                                 && !IsLineTerminator(s[m])
  }

  /** The text of the formula cell `=NAME(L,R)`. */
  function FormulaText(n: string, l: string, r: string): string
  {
    "=" + n + "(" + l + "," + r + ")"
  }

  lemma FormulaTextAt(n: string, l: string, r: string, m: int)
    requires 0 <= m < |FormulaText(n, l, r)|
    ensures var p := 1 + |n|; var q := p + 1 + |l|; var e := q + 1 + |r|;
      FormulaText(n, l, r)[m] ==
        if m == 0 then '=' else if m < p then n[m - 1] else if m == p then '('
        else if m < q then l[m - p - 1] else if m == q then ','
        else if m < e then r[m - q - 1] else ')'
  {
  }

  /** One extraction on a text without line terminators: the first `o` at i, the last `c` at k. */
  lemma ExtractBetween(t: string, o: char, c: char, i: nat, k: nat)
    requires NoLineTerminator(t)
    requires i + 2 <= k < |t| && t[i] == o && t[k] == c
    requires forall m :: 0 <= m < i ==> t[m] != o
    requires forall x :: k < x < |t| ==> t[x] != c
    ensures ExtractFormulaElem(t, o, c) == Ok(t[i + 1..k])
  {
    FirstOpenLastClose(t, o, c, i);
  }

  /** Where the delimiters of `=NAME(L,R)` stand, for plain parts. */
  lemma FormulaTextLayout(n: string, l: string, r: string)
    requires Plain(n) && Plain(l) && Plain(r)
    ensures var t := FormulaText(n, l, r); var p := 1 + |n|; var q := p + 1 + |l|; var e := q + 1 + |r|;
      && |t| == e + 1 && NoLineTerminator(t)
      && t[0] == '=' && t[p] == '(' && t[q] == ',' && t[e] == ')'
      && (forall m :: 0 <= m < |t| && t[m] == '(' ==> m == p)
      && (forall m :: 0 <= m < |t| && t[m] == ',' ==> m == q)
      && t[1..p] == n && t[p + 1..q] == l && t[q + 1..e] == r
  {
    var t := FormulaText(n, l, r);
    var p := 1 + |n|;
    var q := p + 1 + |l|;
    var e := q + 1 + |r|;
    forall m | 0 <= m < |t|
      ensures !IsLineTerminator(t[m])
      ensures t[m] == '(' ==> m == p
      ensures t[m] == ',' ==> m == q
    {
      FormulaTextAt(n, l, r, m);
    }
    FormulaTextAt(n, l, r, 0);
    FormulaTextAt(n, l, r, p);
    FormulaTextAt(n, l, r, q);
    FormulaTextAt(n, l, r, e);
    assert t[1..p] == n;
    assert t[p + 1..q] == l;
    assert t[q + 1..e] == r;
  }

  /** Splitting `=NAME(L,R)` returns exactly NAME, L and R when each is nonempty and plain. */
  lemma ParseFormulaShape(n: string, l: string, r: string)
    requires |n| > 0 && |l| > 0 && |r| > 0 && Plain(n) && Plain(l) && Plain(r)
    ensures ParseFormulaicCell(FormulaText(n, l, r)) == Ok(Formula(n, l, r))
  {
    ExtractName(n, l, r);
    ExtractLeft(n, l, r);
    ExtractRight(n, l, r);
  }

  lemma ExtractName(n: string, l: string, r: string)
    requires |n| > 0 && |l| > 0 && |r| > 0 && Plain(n) && Plain(l) && Plain(r)
    ensures ExtractFormulaElem(FormulaText(n, l, r), '=', '(') == Ok(n)
  {
    FormulaTextLayout(n, l, r);
    ExtractBetween(FormulaText(n, l, r), '=', '(', 0, 1 + |n|);
  }

  lemma ExtractLeft(n: string, l: string, r: string)
    requires |n| > 0 && |l| > 0 && |r| > 0 && Plain(n) && Plain(l) && Plain(r)
    ensures ExtractFormulaElem(FormulaText(n, l, r), '(', ',') == Ok(l)
  {
    var p := 1 + |n|;
    FormulaTextLayout(n, l, r);
    ExtractBetween(FormulaText(n, l, r), '(', ',', p, p + 1 + |l|);
  }

  lemma ExtractRight(n: string, l: string, r: string)
    requires |n| > 0 && |l| > 0 && |r| > 0 && Plain(n) && Plain(l) && Plain(r)
    ensures ExtractFormulaElem(FormulaText(n, l, r), ',', ')') == Ok(r)
  {
    var q := 1 + |n| + 1 + |l|;
    FormulaTextLayout(n, l, r);
    ExtractBetween(FormulaText(n, l, r), ',', ')', q, q + 1 + |r|);
  }

  /** The two splits the repository's unit test checks. */
  lemma ParseFormulaExamples()
    ensures ParseFormulaicCell("=SUM($A1,$B2)") == Ok(Formula("SUM", "$A1", "$B2"))
    ensures ParseFormulaicCell("=MOD(36,$101)") == Ok(Formula("MOD", "36", "$101"))
  {
    SumExampleParts();
    ModExampleParts();
    ExampleTexts();
  }

  lemma SumExampleParts()
    ensures ParseFormulaicCell(FormulaText("SUM", "$A1", "$B2")) == Ok(Formula("SUM", "$A1", "$B2"))
  {
    PlainExample("SUM", "$A1", "$B2");
  }

  lemma ModExampleParts()
    ensures ParseFormulaicCell(FormulaText("MOD", "36", "$101")) == Ok(Formula("MOD", "36", "$101"))
  {
    PlainExample("MOD", "36", "$101");
  }

  lemma ExampleTexts()
    ensures FormulaText("SUM", "$A1", "$B2") == "=SUM($A1,$B2)"
    ensures FormulaText("MOD", "36", "$101") == "=MOD(36,$101)"
  {
  }

  predicate IsTokenChar(c: char) { c == '$' || '0' <= c <= '9' || 'A' <= c <= 'Z' }

  lemma PlainExample(n: string, l: string, r: string)
    requires |n| > 0 && |l| > 0 && |r| > 0
    requires forall m :: 0 <= m < |n| ==> IsTokenChar(n[m])
    requires forall m :: 0 <= m < |l| ==> IsTokenChar(l[m])
    requires forall m :: 0 <= m < |r| ==> IsTokenChar(r[m])
    ensures ParseFormulaicCell(FormulaText(n, l, r)) == Ok(Formula(n, l, r))
  {
    ParseFormulaShape(n, l, r);
  }
}
