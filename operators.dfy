/** The 0/1 truth tables of the six operators (`apply_operator`). */
module Operators {
  import opened Results

  /** The values a terminal carries. */
  type Bit = b: int | 0 <= b <= 1

  /** The operator tokens; every other token is a leaf. */
  const OperatorTokens: set<string> := {"AND", "OR", "NOT", "XOR", "NAND", "NOR"}

  predicate IsOperator(op: string) {
    op in OperatorTokens
  }

  function ToBit(b: bool): Bit {
    if b then 1 else 0
  }

  /** Reference meaning of each operator as a connective on booleans. */
  ghost function BooleanMeaning(op: string, a: bool, b: bool): bool
    requires IsOperator(op)
  {
    if op == "NOT" then !a
    else if op == "AND" then a && b
    else if op == "OR" then a || b
    else if op == "XOR" then a != b
    else if op == "NAND" then !(a && b)
    else !(a || b)
  }

  /** Evaluates `op` on 0/1 values the way `apply_operator` in `ROBDD.py` does, with Python's
      `not` and its bitwise `&`, `|` and `^`. NOT ignores `val2`; a binary
      operator without a second operand fails, and so does any other token. */
  function ApplyOperator(op: string, val1: Bit, val2: Option<Bit>): (r: Result<Bit>)
    ensures r.Ok? <==> IsOperator(op) && (op == "NOT" || val2.Some?)
    ensures !IsOperator(op) ==> r == Err(UnknownOperator)
    ensures r.Ok? ==> r.value == ToBit(BooleanMeaning(op, val1 == 1, val2 == Some(1)))
  {
    if op == "NOT" then Ok(ToBit(val1 == 0))
    else if !IsOperator(op) then Err(UnknownOperator)
    else if val2.None? then Err(MissingOperand)
    else
      var a, b := val1 as bv1, val2.value as bv1;
      if op == "AND" then Ok((a & b) as int)
      else if op == "OR" then Ok((a | b) as int)
      else if op == "XOR" then Ok((a ^ b) as int)
      else if op == "NAND" then Ok(ToBit(a & b == 0))
      else Ok(ToBit(a | b == 0))
  }
}
