/** Expression trees as `build` receives them, and their direct meaning. */
module Expressions {
  import opened Results
  import opened Operators
  import opened Nodes

  /** A leaf token (a variable, "0" or "1"), a two-item tuple
      `(op, operand)` or a three-item tuple `(op, left, right)`. */
  datatype Expr =
    | Leaf(name: string)
    | Unary(op: string, operand: Expr)
    | Binary(op: string, left: Expr, right: Expr)

  /** The value of an expression, evaluated directly with the truth tables.
      As in `build`, a three-item tuple headed by NOT negates its first
      operand, and a two-item tuple headed by anything else lacks its
      second operand. */
  ghost function Eval(e: Expr, env: Assignment): Result<Bit> {
    match e
    case Leaf(name) =>
      if name == "1" then Ok(1) else if name == "0" then Ok(0) else Ok(ToBit(name in env))
    case Unary(op, x) =>
      if op == "NOT" then
        var a :- Eval(x, env);
        ApplyOperator("NOT", a, None)
      else Err(MissingOperand)
    case Binary(op, l, r) =>
      if op == "NOT" then
        var a :- Eval(l, env);
        ApplyOperator("NOT", a, None)
      else
        var a :- Eval(l, env);
        var b :- Eval(r, env);
        ApplyOperator(op, a, Some(b))
  }

  /** Two expressions agree when they evaluate alike under every assignment. */
  ghost predicate Agree(e1: Expr, e2: Expr) {
    forall env :: Eval(e1, env) == Eval(e2, env)
  }

  /** The trees `build` turns into a diagram under ordering `ord`: every
      variable leaf it reaches is in the ordering and every operator it
      applies is known, with its operands. */
  ghost predicate Buildable(ord: seq<string>, e: Expr) {
    match e
    case Leaf(name) => name == "1" || name == "0" || name in ord
    case Unary(op, x) => op == "NOT" && Buildable(ord, x)
    case Binary(op, l, r) =>
      if op == "NOT" then Buildable(ord, l)
      else IsOperator(op) && Buildable(ord, l) && Buildable(ord, r)
  }
}
