/** The unit tests of the repository, each as a method whose contract is
    the verdict the test asserts, under the ordering A, B, C. */
module Scenarios {
  import opened Results
  import opened Expressions
  import opened Parser
  import opened Equivalence

  const Ordering: seq<string> := ["A", "B", "C"]

  /** Parses a token list the test spells for a known tree. */
  method ParseKnown(tokens: seq<string>, ghost tree: Expr) returns (e: Expr)
    requires WellFormed(tree) && ToPostfix(tree) == tokens
    ensures e == tree
  {
    var r := ParseBooleanFunction(tokens);
    e := r.value;
  }

  /** De Morgan: NOT (A AND B) is NOT A OR NOT B. */
  method DeMorgan() returns (verdict: Result<bool>)
    ensures verdict == Ok(true)
  {
    var e1 := ParseKnown(["A", "B", "AND", "NOT"], Unary("NOT", Binary("AND", Leaf("A"), Leaf("B"))));
    var e2 := ParseKnown(["A", "NOT", "B", "NOT", "OR"], Binary("OR", Unary("NOT", Leaf("A")), Unary("NOT", Leaf("B"))));
    verdict := Equivalent(e1, e2, Ordering);
    assert Agree(e1, e2);
  }

  /** A AND B is not A OR B: they differ where only A holds. */
  method AndIsNotOr() returns (verdict: Result<bool>)
    ensures verdict == Ok(false)
  {
    var e1 := ParseKnown(["A", "B", "AND"], Binary("AND", Leaf("A"), Leaf("B")));
    var e2 := ParseKnown(["A", "B", "OR"], Binary("OR", Leaf("A"), Leaf("B")));
    verdict := Equivalent(e1, e2, Ordering);
    assert Eval(e1, {"A"}) != Eval(e2, {"A"});
  }

  /** (A AND B) OR C is C OR (A AND B). */
  method CommutedDisjunction() returns (verdict: Result<bool>)
    ensures verdict == Ok(true)
  {
    var ab := Binary("AND", Leaf("A"), Leaf("B"));
    var e1 := ParseKnown(["A", "B", "AND", "C", "OR"], Binary("OR", ab, Leaf("C")));
    var e2 := ParseKnown(["C", "A", "B", "AND", "OR"], Binary("OR", Leaf("C"), ab));
    verdict := Equivalent(e1, e2, Ordering);
    assert Agree(e1, e2);
  }

  /** (A OR B) AND C is not A OR (B AND C), given as trees rather than
      tokens: they differ where only A holds. */
  method RegroupedMix() returns (verdict: Result<bool>)
    ensures verdict == Ok(false)
  {
    var e1 := Binary("AND", Binary("OR", Leaf("A"), Leaf("B")), Leaf("C"));
    var e2 := Binary("OR", Leaf("A"), Binary("AND", Leaf("B"), Leaf("C")));
    verdict := Equivalent(e1, e2, Ordering);
    assert Eval(e1, {"A"}) != Eval(e2, {"A"});
  }

  /** A OR B is not the constant 1: they differ where neither holds. */
  method NotATautology() returns (verdict: Result<bool>)
    ensures verdict == Ok(false)
  {
    var e1 := ParseKnown(["A", "B", "OR"], Binary("OR", Leaf("A"), Leaf("B")));
    var e2 := ParseKnown(["1"], Leaf("1"));
    verdict := Equivalent(e1, e2, Ordering);
    assert Eval(e1, {}) != Eval(e2, {});
  }

  /** Distributivity: A AND (B OR C) is (A AND B) OR (A AND C). */
  method Distributivity() returns (verdict: Result<bool>)
    ensures verdict == Ok(true)
  {
    var e1 := ParseKnown(["A", "B", "C", "OR", "AND"], Binary("AND", Leaf("A"), Binary("OR", Leaf("B"), Leaf("C"))));
    var e2 := ParseKnown(["A", "B", "AND", "A", "C", "AND", "OR"],
      Binary("OR", Binary("AND", Leaf("A"), Leaf("B")), Binary("AND", Leaf("A"), Leaf("C"))));
    verdict := Equivalent(e1, e2, Ordering);
    assert Agree(e1, e2);
  }
}
