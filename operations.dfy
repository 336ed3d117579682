/** The binary operations a formula may name (performFormulaCalculation). */
module Operations {
  import opened Results
  import opened Numbers

  function AbsReal(x: real): real { if x < 0.0 then -x else x }

  /** The MOD branch: `right` is made non-negative, a negative `left` is replaced by
      `right - left`, and the result is the int remainder of the two truncated values.
      A truncated divisor of zero throws ArithmeticException in Java. */
  function ShiftedMod(left: real, right: real): (r: Result<real>)
    ensures r.Err? <==> -1.0 < right < 1.0
    ensures r.Err? ==> r.error == ArithmeticError
    ensures r.Ok? ==> 0.0 <= r.value < Trunc(AbsReal(right)) as real
    ensures r.Ok? ==> r.value == r.value.Floor as real
  {
    var right' := if right < 0.0 then -right else right;
    var left' := if left < 0.0 then right' - left else left;
    var divisor := Trunc(right');
    if divisor == 0 then Err(ArithmeticError)
    else Ok(JavaRem(Trunc(left'), divisor) as real)
  }

  lemma ModAddDivisor(x: int, m: int)
    requires m > 0
    ensures (m + x) % m == x % m
  {
    var q1, r1 := (m + x) / m, (m + x) % m;
    var q0, r0 := x / m, x % m;
    assert m * (q1 - q0 - 1) == r0 - r1;
    SmallMultipleIsZero(q1 - q0 - 1, m);
  }

  /** For integer operands the shift makes MOD the remainder of |left| by |right|: always in
      [0, |right|), whatever the signs. */
  lemma ModOfIntegers(l: int, r: int)
    requires r != 0
    ensures ShiftedMod(l as real, r as real) == Ok((Abs(l) % Abs(r)) as real)
  {
    var m := Abs(r);
    assert Trunc(AbsReal(r as real)) == m;
    if l < 0 {
      ModAddDivisor(Abs(l), m);
      assert Trunc(AbsReal(r as real) - l as real) == m + Abs(l);
      assert JavaRem(m + Abs(l), m) == Abs(l) % m;
    } else {
      assert Trunc(l as real) == l;
      assert JavaRem(l, m) == Abs(l) % m;
    }
  }

  /** MOD(-7, 3) shifts -7 to 3 - (-7) = 10 and gives 10 % 3 = 1, unlike Java's -7 % 3 = -1 and
      the Euclidean -7 mod 3 = 2. */
  lemma ModExample()
    ensures ShiftedMod(-7.0, 3.0) == Ok(1.0)
    ensures JavaRem(-7, 3) == -1 && (-7) % 3 == 2
  {
    ModOfIntegers(-7, 3);
  }

  predicate IsOperation(op: string)
  {
    op == "ADD" || op == "SUB" || op == "MUL" || op == "DIV" || op == "MOD"
  }

  /** performFormulaCalculation: the four arithmetic operations, the shifted MOD, and 0 for any
      other name. Only DIV by zero and MOD by a divisor of magnitude below 1 do not give a value. */
  function PerformFormulaCalculation(op: string, left: real, right: real): (r: Result<real>)
    ensures r.Err? <==> (op == "DIV" && right == 0.0) || (op == "MOD" && -1.0 < right < 1.0)
    ensures !IsOperation(op) ==> r == Ok(0.0)
    ensures op == "ADD" ==> r == Ok(left + right)
    ensures op == "SUB" ==> r == Ok(left - right)
    ensures op == "MUL" ==> r == Ok(left * right)
    ensures op == "DIV" && right != 0.0 ==> r == Ok(left / right)
    ensures op == "MOD" ==> r == ShiftedMod(left, right)
    ensures op == "MOD" && r.Ok? ==> 0.0 <= r.value < AbsReal(right)
  {
    match op
    case "ADD" => Ok(left + right)
    case "SUB" => Ok(left - right)
    case "MUL" => Ok(left * right)
    case "DIV" => if right == 0.0 then Err(NonFinite) else Ok(left / right)
    case "MOD" => ShiftedMod(left, right)
    case _ => Ok(0.0)
  }
}
