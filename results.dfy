/** Outcomes of the evaluator: a value, or the exception the Java code would throw. */
module Results {

  /** The failures the evaluator can end in. */
  datatype Error =
    | ParseError(formula: string)  // IllegalArgumentException from extractFormulaElem, naming the formula
    | FormatError(input: string)   // NumberFormatException from Integer.parseInt or Double.parseDouble
    | IndexError                   // StringIndexOutOfBoundsException or ArrayIndexOutOfBoundsException
    | ArithmeticError              // int remainder by zero inside MOD
    | NonFinite                    // DIV by zero: an IEEE infinity or NaN in Java, not represented by `real`

  datatype Result<+T> = Ok(value: T) | Err(error: Error) {
    predicate IsFailure() { Err? }

    function PropagateFailure<U>(): Result<U>
      requires Err?
    {
      Err(error)
    }

    function Extract(): T
      requires Ok?
    {
      value
    }
  }

  datatype Option<+T> = None | Some(value: T)
}
