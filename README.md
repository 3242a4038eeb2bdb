# ROBDD equivalence checker — a Dafny model

This project models the engine of a small reduced ordered binary decision
diagram (ROBDD) tool, `ROBDD.py`. The engine has four parts:

- A diagram node is either a terminal holding 0 or 1, or a decision on a
  variable with a low (0) and a high (1) child. Node equality is
  structural.
- `build_robdd` opens a construction session with a unique table and an
  apply cache. Inside the session:
  - `mk` applies the reduction rule and hash-conses nodes.
  - `apply_op` combines diagrams by memoised Shannon expansion, following
    the variable ordering.
  - `build` turns an expression tree into a diagram.
- `apply_operator` is the 0/1 truth table of NOT, AND, OR, XOR, NAND and
  NOR.
- `parse_boolean_function` reads a formula written in reverse Polish
  notation into an expression tree.

The tool decides whether two formulas are equivalent by building both and
comparing the two diagrams structurally. The model proves that this
comparison is sound and complete:

- every diagram `build` returns is reduced and ordered and has the value of
  its expression under every assignment;
- two reduced, ordered diagrams over the same ordering are equal exactly
  when they compute the same function (canonicity).

Layout, one module per file:

- `results.dfy` (`Results`): the error kinds, plus `Option` and `Result`.
- `operators.dfy` (`Operators`): the operator set and `apply_operator`.
- `nodes.dfy` (`Nodes`): nodes, their value under an assignment,
  reducedness, orderedness, and the canonicity theorem.
- `shannon.dfy` (`Shannon`): what a correct `apply_op` result is, and one
  lemma per expansion case.
- `expressions.dfy` (`Expressions`): expression trees and their direct
  evaluation.
- `engine.dfy` (`Engine`): the session as a class `Session`. Its fields are
  `unique` (the unique table) and `cache` (the apply cache), and `mk`,
  `apply_op` and `build` are its methods.
- `equivalence.dfy` (`Equivalence`): `build_robdd` and the equivalence
  verdict.
- `parser.dfy` (`Parser`): the stack parser, a loop over a stack of trees.
- `scenarios.dfy` (`Scenarios`): the repository's unit tests and one
  distributivity example, each proved to give the verdict the test asserts.

Representation choices:

- An assignment is the set of variables that are 1.
- A Python exception becomes an `Err` carrying an `Error` value:
  - `InvalidTerminalValue`: `mk` received a terminal value other than 0/1.
  - `UnknownOperator`: `apply_operator` received an operator outside the six.
  - `MissingOperand`: a binary operator lacks its second operand; in
    Python this is an `AttributeError` on `None` in `apply_op`, a
    `TypeError` on `val1 & None` in `apply_operator`, or an `IndexError`
    on a short tuple.
  - `UnknownVariable`: the `ValueError` of `ordering.index`.
  - `PopFromEmptyStack`: the `IndexError` of `pop`.
  - `InvalidExpression`: the parser's final stack size is not 1.
- Python tuples become `Expr` values: a two-item tuple `(op, x)` is
  `Unary(op, x)`, a three-item tuple `(op, l, r)` is `Binary(op, l, r)`,
  and a string is `Leaf(s)`.

## Model

| member | source | states |
|---|---|---|
| Operators.ApplyOperator | ROBDD.py:118-132 | Succeeds exactly for NOT, or for one of the five binary operators given a second operand. The 0/1 result agrees with the boolean truth table `BooleanMeaning` of that operator. Any other operator fails with `UnknownOperator`. |
| Nodes.IndexOf | ROBDD.py:76-87 | `ordering.index`: the first position at which the variable occurs. |
| Nodes.Reduce | ROBDD.py:39-46 | The node `mk` returns for a decision has value "high if the variable is 1, else low", stays reduced, and mentions no variables beyond `v` and the children's variables. |
| Nodes.ValueIgnores | ROBDD.py:5-18 | A diagram's value does not depend on variables that do not occur in it. |
| Nodes.Absorbs | ROBDD.py:5-18 | A reduced, ordered decision node cannot compute the same function as a reduced, ordered diagram whose variables all come later, unless both its children already equal that diagram. |
| Nodes.Canonical | ROBDD.py:14-18 | Two reduced, ordered diagrams over one ordering that compute the same function are structurally equal. |
| Nodes.CanonicalForm | ROBDD.py:196 | For reduced, ordered diagrams, structural equality (`robdd1 == robdd2`) holds if and only if they compute the same function. |
| Shannon.ExpandTerminals | ROBDD.py:54-57 | When both operands are terminals, or NOT is applied to a terminal, the terminal `mk` makes from `apply_operator`'s value is a correct result. |
| Shannon.ImplementsSplit | ROBDD.py:59-61 | The Shannon identity: a node rebuilt at `v` from a correct 0-cofactor result and a correct 1-cofactor result is correct for the operands. |
| Shannon.ExpandNot | ROBDD.py:58-61 | NOT of a decision node: negating both children and rebuilding at its variable gives a reduced, ordered, correct result. |
| Shannon.ExpandSecond | ROBDD.py:68-71 | A terminal first operand, or a second operand whose variable comes earlier (ROBDD.py:84-87): expanding on the second operand's variable gives a correct result that is ordered when the operands are. |
| Shannon.ExpandFirst | ROBDD.py:72-75 | A terminal second operand, or a first operand whose variable comes earlier (ROBDD.py:80-83): expanding on the first operand's variable gives a correct, ordered result. |
| Shannon.ExpandBoth | ROBDD.py:76-79 | Both operands branch on the same variable: expanding both at once gives a correct, ordered result. |
| Engine.Session.constructor | ROBDD.py:21-28 | A new session's unique table holds exactly the two terminals and its cache is empty. |
| Engine.Session.MkTerminal | ROBDD.py:31-38 | `mk(None, _, value)` returns the session's registered terminal for 0 or 1, and fails with `InvalidTerminalValue` for any other value. |
| Engine.Session.Mk | ROBDD.py:39-46 | Equal children give back the child and leave the table unchanged. Otherwise the result is the registered node `(v, low, high)`: a node already in the table leaves the table unchanged, and a new node is inserted keyed by itself. |
| Engine.Session.Apply | ROBDD.py:48-51 | `apply_op` succeeds exactly for a known operator with its operands. The result is registered and reduced, uses only the operands' variables, is ordered when the operands are, and has `apply_operator`'s value under every assignment. The result is cached under `(op, u1, u2)`, the session invariant (every cache entry is correct) is kept, and no existing table or cache entry changes. |
| Engine.Session.Compute | ROBDD.py:53-89 | The case analysis of `apply_op` on a cache miss, including the `MissingOperand` failure of a binary operator without a second operand. It gives the same success condition and the same registered, reduced, correct result (ordered when the operands are) as `Apply`, and only adds table and cache entries. |
| Engine.Session.Expand | ROBDD.py:59-87 | The two recursive `apply_op` calls on the cofactors, then `mk`. The result is `Reduce` of two correct cofactor results. |
| Engine.Session.Build | ROBDD.py:92-114 | `build` succeeds exactly on trees whose variable leaves are in the ordering and whose operators are known with their operands. It returns a registered, reduced, ordered diagram whose value equals the tree's evaluation under every assignment. |
| Engine.Session.Negate | ROBDD.py:106-108 | `apply_op('NOT', operand)` on a built diagram succeeds and returns its reduced, ordered negation. |
| Equivalence.BuildRobdd | ROBDD.py:20-28 | `build_robdd` in a fresh session: it succeeds exactly on buildable trees, with a reduced, ordered diagram of the tree's value. |
| Equivalence.Equivalent | ROBDD.py:191-196 | The structural comparison of the two diagrams is true if and only if the two expressions agree under every assignment. It fails exactly when one of them cannot be built. |
| Equivalence.Verdict | ROBDD.py:196 | For diagrams built from two expressions, diagram equality holds if and only if the expressions evaluate alike everywhere. |
| Equivalence.AgreeFromDiagrams | ROBDD.py:196 | Diagrams computing the same function come from expressions that agree everywhere. |
| Equivalence.AgreeFromExpressions | ROBDD.py:196 | Expressions that agree everywhere give diagrams computing the same function. |
| Parser.ParseBooleanFunction | ROBDD.py:134-150 | The loop computes `Parse`. A successful parse is a well-formed tree whose reverse Polish spelling is exactly the input. Every well-formed tree spelled by the input is the one returned. A failure is `PopFromEmptyStack` or `InvalidExpression`. |
| Parser.RunPostfix | ROBDD.py:136-147 | Reading the spelling of a well-formed tree pushes exactly that tree onto the stack. A binary operator takes the later operand as its right child. |
| Parser.ShiftFlattens | ROBDD.py:137-147 | One token keeps the stack well formed and appends that token to what the stack spells. |
| Parser.RunFlattens | ROBDD.py:136-147 | After the loop, the stack spells its starting contents followed by all tokens read. |
| Parser.ParseOfPostfix | ROBDD.py:134-150 | Parsing the spelling of any well-formed tree gives back that tree. |
| Parser.PostfixOfParse | ROBDD.py:148-150 | A successful parse returns a well-formed tree that spells the input exactly. |
| Parser.ParseComplete | ROBDD.py:134-150 | An input that spells a well-formed tree is parsed into that tree. |
| Parser.WellFormedBuildable | ROBDD.py:92-114 | A parsed tree whose variable tokens are all in the ordering is accepted by `build`. |
| Scenarios.ParseKnown | ROBDD.py:134-150 | Parsing the spelling of a known well-formed tree gives that tree. |
| Scenarios.DeMorgan | TEST.py:8-16 | NOT (A AND B) and NOT A OR NOT B give equal diagrams. |
| Scenarios.AndIsNotOr | TEST.py:18-26 | A AND B and A OR B give different diagrams. |
| Scenarios.CommutedDisjunction | TEST.py:28-36 | (A AND B) OR C and C OR (A AND B) give equal diagrams. |
| Scenarios.RegroupedMix | TEST.py:38-46 | (A OR B) AND C and A OR (B AND C), given as trees, give different diagrams. |
| Scenarios.NotATautology | TEST.py:48-56 | A OR B and the constant 1 give different diagrams. |
| Scenarios.Distributivity | ROBDD.py:191-196 | A AND (B OR C) and (A AND B) OR (A AND C) give equal diagrams. |

## Left out

- `visualize_robdd` is not modelled: it renders through the graphviz library into a file and a viewer.
- `main` is not modelled: it reads console input and prints. Its only logic, the comparison `robdd1 == robdd2`, is `Equivalence.Equivalent`.
- Python's `hash` values are not modelled. The unique table is a map keyed by the node itself, which matches the structural `__eq__` that the hash supports.
- Exception classes are not distinguished by Python type. Each raise becomes one `Error` value; the mapping is listed above.
- `build`'s unused `env` parameter is dropped. The unused local `index` is kept only through the membership check it implies, which raises `UnknownVariable`.
- The apply cache has no bound on its size or on the number of misses, because `ROBDD.py` promises none.
- Engine.Session.Apply: requires every variable of its operands to be in the ordering. Python calls `ordering.index` only when both operands are decision nodes (ROBDD.py:76-84), so it raises a `ValueError` there for a foreign variable and accepts one without error under NOT or beside a terminal operand; neither behaviour is modelled for such operands. No caller is affected: `apply_op` is local to `build_robdd`, and `build` only passes diagrams over the ordering.
- Operators.ApplyOperator: takes 0/1 operands only. Python's bitwise operators on other integers are not modelled.
- Engine.Session.Build: an expression node that is neither a string nor a tuple (the "Invalid expression node" raise at ROBDD.py:114), tuples longer than three items, and tuples shorter than two items (`()` or `('NOT',)`, which raise an `IndexError` at ROBDD.py:105, 107 or 110) are not representable as `Expr`.
- Python's object identity is not modelled; nodes are values. Two structurally equal nodes from different sessions are equal, as Python's `__eq__` makes them.
- A variable missing from the ordering raises at `ordering.index` (ROBDD.py:100) inside `build`, before any node is made for that leaf; `Engine.Session.Build` fails with `UnknownVariable` at that leaf.
- Each expression is built in its own session and the two diagrams are compared structurally (ROBDD.py:191-196); canonicity makes that comparison decide equivalence.
- An ordering with repeated names is accepted, as in the code: `Nodes.IndexOf` takes the first occurrence, as `ordering.index` does.
