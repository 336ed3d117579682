/** The Java library conversions the evaluator relies on: Integer.parseInt, the integer
    subset of Double.parseDouble, String.valueOf(long), the (int) cast and int remainder. */
module Numbers {
  import opened Results

  const INT_MIN: int := -0x8000_0000
  const INT_MAX: int := 0x7fff_ffff

  predicate IsDigit(c: char) { '0' <= c <= '9' }

  predicate AllDigits(s: string) { forall i :: 0 <= i < |s| ==> IsDigit(s[i]) }

  function DigitValue(c: char): nat
    requires IsDigit(c)
  {
    (c as int) - ('0' as int)
  }

  function DigitChar(d: nat): (c: char)
    requires d < 10
    ensures IsDigit(c) && DigitValue(c) == d
  {
    (('0' as int) + d) as char
  }

  /** The value of a run of decimal digits, most significant digit first. */
  function DigitsValue(s: string): nat
    requires AllDigits(s)
  {
    if s == [] then 0 else DigitsValue(s[..|s| - 1]) * 10 + DigitValue(s[|s| - 1])
  }

  /** The shortest decimal spelling of n: it starts with '0' only when n is 0, and then it is
      that one digit. */
  function NatToDigits(n: nat): (s: string)
    ensures 1 <= |s| && AllDigits(s)
    ensures s[0] == '0' <==> n == 0
    ensures |s| == 1 || s[0] != '0'
    decreases n
  {
    if n < 10 then [DigitChar(n)] else NatToDigits(n / 10) + [DigitChar(n % 10)]
  }

  /** A digit run whose first digit is not zero has a positive value. */
  lemma {:induction false} LeadingDigitPositive(s: string)
    requires 1 <= |s| && AllDigits(s) && s[0] != '0'
    ensures DigitsValue(s) >= 1
    decreases |s|
  {
    if |s| > 1 {
      LeadingDigitPositive(s[..|s| - 1]);
    }
  }

  /** NatToDigits is the only spelling of n without leading zeros: any digit run of that
      shape with value n is NatToDigits(n). */
  lemma {:induction false} DigitsUnique(s: string, n: nat)
    requires 1 <= |s| && AllDigits(s) && (|s| == 1 || s[0] != '0') && DigitsValue(s) == n
    ensures s == NatToDigits(n)
    decreases |s|
  {
    var last := s[|s| - 1];
    if |s| == 1 {
      assert DigitsValue(s) == DigitValue(last);
      assert s == [DigitChar(n)];
    } else {
      var prefix := s[..|s| - 1];
      LeadingDigitPositive(prefix);
      assert n == DigitsValue(prefix) * 10 + DigitValue(last);
      assert n / 10 == DigitsValue(prefix) && n % 10 == DigitValue(last);
      DigitsUnique(prefix, n / 10);
      assert s == prefix + [last];
      assert last == DigitChar(n % 10);
    }
  }

  lemma {:induction false} DigitsRoundTrip(n: nat)
    ensures DigitsValue(NatToDigits(n)) == n
    decreases n
  {
    if n >= 10 {
      var s := NatToDigits(n);
      assert s[..|s| - 1] == NatToDigits(n / 10);
      DigitsRoundTrip(n / 10);
    }
  }

  /** String.valueOf(long): decimal text with a leading minus sign for negatives. */
  function IntToString(i: int): (s: string)
    ensures 1 <= |s|
    ensures forall k :: 0 <= k < |s| ==> IsDigit(s[k]) || (k == 0 && s[k] == '-')
    ensures (i < 0) <==> (s[0] == '-')
    ensures i < 0 ==> |s| >= 2 && s[1] != '0'
    ensures i >= 0 ==> |s| == 1 || s[0] != '0'
  {
    if i < 0 then "-" + NatToDigits(-i) else NatToDigits(i)
  }

  /** An optional sign ('+' or '-') followed by one or more ASCII digits, as both
      Integer.parseInt and (for integers) Double.parseDouble accept. */
  function ParseSignedInteger(s: string): Option<int>
  {
    if |s| > 0 && (s[0] == '-' || s[0] == '+') then
      if |s| > 1 && AllDigits(s[1..]) then
        var magnitude: int := DigitsValue(s[1..]);
        Some(if s[0] == '-' then -magnitude else magnitude)
      else None
    else if |s| > 0 && AllDigits(s) then Some(DigitsValue(s) as int)
    else None
  }

  /** Integer.parseInt: a signed integer that fits in 32 bits. */
  function ParseJavaInt(s: string): (r: Option<int>)
    ensures r.Some? ==> INT_MIN <= r.value <= INT_MAX
  {
    match ParseSignedInteger(s)
    case Some(v) => if INT_MIN <= v <= INT_MAX then Some(v) else None
    case None => None
  }

  /** Double.parseDouble restricted to integer literals; anything else is a FormatError. */
  function ParseLiteral(s: string): (r: Result<real>)
    ensures r.Err? ==> r.error == FormatError(s)
    ensures r.Ok? ==> r.value == r.value.Floor as real
  {
    match ParseSignedInteger(s)
    case Some(v) => Ok(v as real)
    case None => Err(FormatError(s))
  }

  /** Formatting an integer and parsing it back gives the integer. */
  lemma {:induction false} IntegerRoundTrip(i: int)
    ensures ParseSignedInteger(IntToString(i)) == Some(i)
  {
    var d := NatToDigits(if i < 0 then -i else i);
    DigitsRoundTrip(if i < 0 then -i else i);
    if i < 0 {
      assert IntToString(i)[1..] == d;
    }
  }

  /** A literal cell spelled as an integer evaluates to exactly that integer. */
  lemma LiteralRoundTrip(i: int)
    ensures ParseLiteral(IntToString(i)) == Ok(i as real)
  {
    IntegerRoundTrip(i);
  }

  lemma JavaIntRoundTrip(i: int)
    requires INT_MIN <= i <= INT_MAX
    ensures ParseJavaInt(IntToString(i)) == Some(i)
  {
    IntegerRoundTrip(i);
  }

  /** The (int) cast of a double: truncation toward zero (saturation is not modelled). */
  function Trunc(x: real): (t: int)
    ensures x >= 0.0 ==> t == x.Floor
    ensures x < 0.0 ==> (t as real) - 1.0 < x <= t as real
    ensures 0.0 <= x ==> 0 <= t
  {
    if x >= 0.0 then x.Floor else -((-x).Floor)
  }

  function Abs(i: int): nat { if i < 0 then -i else i }

  lemma SmallMultipleIsZero(k: int, m: int)
    requires m > 0 && -m < m * k < m
    ensures k == 0
  {
  }

  lemma MultipleRem(m: int, q: int)
    requires m > 0
    ensures (m * q) % m == 0
  {
    var k := m * q;
    assert k == m * (k / m) + k % m;
    assert k % m == m * (q - k / m);
    SmallMultipleIsZero(q - k / m, m);
  }

  /** Java's int `%`: the remainder of truncated division, carrying the dividend's sign. */
  function JavaRem(a: int, b: int): (r: int)
    requires b != 0
    ensures Abs(r) < Abs(b)
    ensures a >= 0 ==> 0 <= r
    ensures a <= 0 ==> r <= 0
    ensures (a - r) % Abs(b) == 0
  {
    var m := Abs(b);
    if a >= 0 then
      assert a - a % m == m * (a / m);
      MultipleRem(m, a / m);
      a % m
    else
      assert a + (-a) % m == m * (-((-a) / m));
      MultipleRem(m, -((-a) / m));
      -((-a) % m)
  }

  /** `Integer.parseInt(...) - 1` on a Java int: wraps around at the bottom of the range. */
  function DecrementInt32(v: int): (r: int)
    requires INT_MIN <= v <= INT_MAX
    ensures INT_MIN <= r <= INT_MAX
    ensures v > INT_MIN ==> r == v - 1
    ensures v == INT_MIN ==> r == INT_MAX
  {
    if v == INT_MIN then INT_MAX else v - 1
  }

  /** String.valueOf(Math.round(Math.floor(x))): the floor of x as decimal text, with a minus
      sign exactly for negative x and no leading zeros. */
  function FormatFloor(x: real): (s: string)
    ensures ParseSignedInteger(s) == Some(x.Floor)
    ensures 1 <= |s| && ((x < 0.0) <==> (s[0] == '-'))
    ensures x < 0.0 ==> |s| >= 2 && AllDigits(s[1..]) && s[1] != '0'
    ensures 0.0 <= x ==> AllDigits(s) && (|s| == 1 || s[0] != '0')
  {
    IntegerRoundTrip(x.Floor);
    IntToString(x.Floor)
  }
}
