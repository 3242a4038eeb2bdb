/** Failure-compatible result types shared by every part of the engine. */
module Results {

  /** The ways a construction can fail; each one names the condition the
      engine raises on (`ROBDD.py` raises a plain exception, an IndexError on
      a pop or a too-short tuple, or a ValueError from the rank lookup). */
  datatype Error =
    | InvalidTerminalValue   // a terminal requested with a value other than 0 or 1
    | UnknownOperator        // an operator token outside NOT, AND, OR, XOR, NAND, NOR
    | MissingOperand         // a binary operator without its second operand
    | UnknownVariable        // a variable that is not in the ordering
    | PopFromEmptyStack      // a postfix operator with too few operands on the stack
    | InvalidExpression      // a postfix token list that does not leave exactly one item

  datatype Option<+T> = None | Some(value: T)

  datatype Result<+T> = Ok(value: T) | Err(error: Error) {
    predicate IsFailure() { Err? }

    function PropagateFailure<U>(): Result<U>
      requires Err?
    {
      Err(error)
    }

    function Extract(): T
      requires Ok?
    {
      value
    }
  }
}
