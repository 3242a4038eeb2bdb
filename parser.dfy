/** `parse_boolean_function`: reads a formula written in reverse Polish
    notation into an expression tree, with one stack of partial trees. */
module Parser {
  import opened Results
  import opened Operators
  import opened Expressions

  /** The trees the parser can produce: a leaf is any token that is not an
      operator, `NOT` takes one operand and the other operators two. */
  predicate WellFormed(e: Expr) {
    match e
    case Leaf(name) => name !in OperatorTokens
    case Unary(op, x) => op == "NOT" && WellFormed(x)
    case Binary(op, l, r) => op in OperatorTokens && op != "NOT" && WellFormed(l) && WellFormed(r)
  }

  /** The reverse Polish spelling of a tree: operands first, operator last. */
  function ToPostfix(e: Expr): seq<string> {
    match e
    case Leaf(name) => [name]
    case Unary(op, x) => ToPostfix(x) + [op]
    case Binary(op, l, r) => ToPostfix(l) + ToPostfix(r) + [op]
  }

  /** The tokens that the trees on a stack spell, bottom first. */
  function Flatten(stack: seq<Expr>): seq<string> {
    if stack == [] then [] else Flatten(stack[..|stack| - 1]) + ToPostfix(stack[|stack| - 1])
  }

  /** The leaf tokens of a tree. */
  function Leaves(e: Expr): set<string> {
    match e
    case Leaf(name) => {name}
    case Unary(_, x) => Leaves(x)
    case Binary(_, l, r) => Leaves(l) + Leaves(r)
  }

  /** Every tree on the stack is well formed. */
  predicate AllWellFormed(stack: seq<Expr>) {
    forall i | 0 <= i < |stack| :: WellFormed(stack[i])
  }

  /** One iteration of the loop: an operator pops its operands (the right
      one first) and pushes the node it makes; any other token is pushed as
      a leaf. Popping an empty stack is an error. */
  ghost function Shift(token: string, stack: seq<Expr>): Result<seq<Expr>> {
    if token !in OperatorTokens then Ok(stack + [Leaf(token)])
    else if |stack| == 0 then Err(PopFromEmptyStack)
    else if token == "NOT" then Ok(stack[..|stack| - 1] + [Unary("NOT", stack[|stack| - 1])])
    else if |stack| == 1 then Err(PopFromEmptyStack)
    else Ok(stack[..|stack| - 2] + [Binary(token, stack[|stack| - 2], stack[|stack| - 1])])
  }

  /** The loop over all remaining tokens. */
  ghost function Run(tokens: seq<string>, stack: seq<Expr>): Result<seq<Expr>>
    decreases |tokens|
  {
    if tokens == [] then Ok(stack)
    else
      var next :- Shift(tokens[0], stack);
      Run(tokens[1..], next)
  }

  /** The whole parse: the loop, then exactly one tree must be left. */
  ghost function Parse(tokens: seq<string>): Result<Expr> {
    var stack :- Run(tokens, []);
    if |stack| != 1 then Err(InvalidExpression) else Ok(stack[0])
  }

  /** Parsing the spelling of a well-formed tree pushes exactly that tree. */
  lemma {:induction false} RunPostfix(e: Expr, rest: seq<string>, stack: seq<Expr>)
    requires WellFormed(e)
    ensures Run(ToPostfix(e) + rest, stack) == Run(rest, stack + [e])
    decreases e
  {
    match e
    case Leaf(name) =>
      assert ([name] + rest)[1..] == rest;
    case Unary(op, x) =>
      calc {
        Run(ToPostfix(e) + rest, stack);
        { assert ToPostfix(e) + rest == ToPostfix(x) + ([op] + rest); }
        Run(ToPostfix(x) + ([op] + rest), stack);
        { RunPostfix(x, [op] + rest, stack); }
        Run([op] + rest, stack + [x]);
        { assert ([op] + rest)[1..] == rest; assert (stack + [x])[..|stack|] == stack; }
        Run(rest, stack + [e]);
      }
    case Binary(op, l, r) =>
      calc {
        Run(ToPostfix(e) + rest, stack);
        { assert ToPostfix(e) + rest == ToPostfix(l) + (ToPostfix(r) + ([op] + rest)); }
        Run(ToPostfix(l) + (ToPostfix(r) + ([op] + rest)), stack);
        { RunPostfix(l, ToPostfix(r) + ([op] + rest), stack); }
        Run(ToPostfix(r) + ([op] + rest), stack + [l]);
        { RunPostfix(r, [op] + rest, stack + [l]); }
        Run([op] + rest, stack + [l] + [r]);
        { assert ([op] + rest)[1..] == rest; assert (stack + [l] + [r])[..|stack|] == stack; }
        Run(rest, stack + [e]);
      }
  }

  /** One shift keeps the stack well formed and appends its token to what
      the stack spells. */
  lemma ShiftFlattens(token: string, stack: seq<Expr>, next: seq<Expr>)
    requires AllWellFormed(stack) && Shift(token, stack) == Ok(next)
    ensures AllWellFormed(next) && Flatten(next) == Flatten(stack) + [token]
  {
    if token !in OperatorTokens {
      assert next[..|next| - 1] == stack;
    } else if token == "NOT" {
      var p := stack[..|stack| - 1];
      assert next[..|next| - 1] == p;
      assert stack[..|stack| - 1] == p;
    } else {
      var p := stack[..|stack| - 2];
      var q := stack[..|stack| - 1];
      assert next[..|next| - 1] == p;
      assert q[..|q| - 1] == p;
    }
  }

  /** A completed loop leaves a well-formed stack spelling the stack it
      started from followed by every token read. */
  lemma {:induction false} RunFlattens(tokens: seq<string>, stack: seq<Expr>, out: seq<Expr>)
    requires AllWellFormed(stack) && Run(tokens, stack) == Ok(out)
    ensures AllWellFormed(out) && Flatten(out) == Flatten(stack) + tokens
    decreases |tokens|
  {
    if tokens == [] {
    } else {
      var step := Shift(tokens[0], stack);
      assert step.Ok?;
      var next := step.value;
      assert Run(tokens[1..], next) == Ok(out);
      ShiftFlattens(tokens[0], stack, next);
      RunFlattens(tokens[1..], next, out);
      assert [tokens[0]] + tokens[1..] == tokens;
    }
  }

  /** Parsing is a left inverse of spelling: every well-formed tree is
      read back from its reverse Polish tokens. */
  lemma ParseOfPostfix(e: Expr)
    requires WellFormed(e)
    ensures Parse(ToPostfix(e)) == Ok(e)
  {
    RunPostfix(e, [], []);
    assert ToPostfix(e) + [] == ToPostfix(e);
  }

  /** Spelling is a left inverse of parsing: a parsed tree is well formed
      and spells exactly the tokens it was read from. */
  lemma PostfixOfParse(tokens: seq<string>)
    ensures Parse(tokens).Ok? ==> WellFormed(Parse(tokens).value) && ToPostfix(Parse(tokens).value) == tokens
  {
    if Parse(tokens).Ok? {
      var out := Run(tokens, []).value;
      RunFlattens(tokens, [], out);
      assert |out| == 1 && out[0] == Parse(tokens).value;
      assert out[..0] == [];
      assert Flatten(out) == ToPostfix(out[0]);
    }
  }

  /** The two inverses together: a token list spells at most one
      well-formed tree, and parsing finds it when it exists. */
  lemma ParseComplete(tokens: seq<string>)
    ensures forall e | WellFormed(e) && ToPostfix(e) == tokens :: Parse(tokens) == Ok(e)
  {
    forall e | WellFormed(e) && ToPostfix(e) == tokens
      ensures Parse(tokens) == Ok(e)
    {
      ParseOfPostfix(e);
    }
  }

  /** A parsed tree is one `build` accepts under any ordering that names
      every variable token in it. */
  lemma {:induction false} WellFormedBuildable(ord: seq<string>, e: Expr)
    requires WellFormed(e)
    requires forall x | x in Leaves(e) :: x == "0" || x == "1" || x in ord
    ensures Buildable(ord, e)
    decreases e
  {
    match e
    case Leaf(_) =>
    case Unary(_, x) =>
      WellFormedBuildable(ord, x);
    case Binary(_, l, r) =>
      WellFormedBuildable(ord, l);
      WellFormedBuildable(ord, r);
  }

  /** `parse_boolean_function(tokens)`. */
  method ParseBooleanFunction(tokens: seq<string>) returns (r: Result<Expr>)
    ensures r == Parse(tokens)
    ensures r.Ok? ==> WellFormed(r.value) && ToPostfix(r.value) == tokens
    ensures forall e | WellFormed(e) && ToPostfix(e) == tokens :: r == Ok(e)
    ensures r.Err? ==> r.error == PopFromEmptyStack || r.error == InvalidExpression
  {
    PostfixOfParse(tokens);
    ParseComplete(tokens);
    var stack: seq<Expr> := [];
    for i := 0 to |tokens|
      invariant Run(tokens, []) == Run(tokens[i..], stack)
    {
      var token := tokens[i];
      ghost var before := stack;
      assert tokens[i..][0] == token && tokens[i..][1..] == tokens[i + 1..];
      if token in OperatorTokens {
        var node;
        if token == "NOT" {
          if |stack| == 0 {
            return Err(PopFromEmptyStack);
          }
          var operand := stack[|stack| - 1];
          stack := stack[..|stack| - 1];
          node := Unary("NOT", operand);
        } else {
          if |stack| == 0 {
            return Err(PopFromEmptyStack);
          }
          var right := stack[|stack| - 1];
          stack := stack[..|stack| - 1];
          if |stack| == 0 {
            return Err(PopFromEmptyStack);
          }
          var left := stack[|stack| - 1];
          stack := stack[..|stack| - 1];
          assert stack == before[..|before| - 2] && left == before[|before| - 2];
          node := Binary(token, left, right);
        }
        stack := stack + [node];
      } else {
        stack := stack + [Leaf(token)];
      }
      assert Shift(token, before) == Ok(stack);
    }
    assert tokens[|tokens|..] == [];
    if |stack| != 1 {
      return Err(InvalidExpression);
    }
    r := Ok(stack[0]);
  }
}
