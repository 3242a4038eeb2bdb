/** `build_robdd` and the comparison the console driver makes between two
    diagrams. */
module Equivalence {
  import opened Results
  import opened Nodes
  import opened Expressions
  import opened Engine

  /** `build_robdd(expr, ordering)`: builds `e` in a fresh session. */
  method BuildRobdd(e: Expr, ordering: seq<string>) returns (r: Result<Node>)
    ensures r.Ok? <==> Buildable(ordering, e)
    ensures r.Ok? ==> Robdd(ordering, r.value)
    ensures r.Ok? ==> forall env :: Eval(e, env) == Ok(Value(r.value, env))
  {
    var session := new Session(ordering);
    r := session.Build(e);
  }

  /** Builds both expressions, each in its own session, and compares the two
      diagrams structurally: the verdict is true exactly when the
      expressions agree under every assignment. */
  method Equivalent(e1: Expr, e2: Expr, ordering: seq<string>) returns (r: Result<bool>)
    ensures r.Ok? <==> Buildable(ordering, e1) && Buildable(ordering, e2)
    ensures r.Ok? ==> (r.value <==> Agree(e1, e2))
  {
    var d1 :- BuildRobdd(e1, ordering);
    var d2 :- BuildRobdd(e2, ordering);
    Verdict(ordering, e1, e2, d1, d2);
    r := Ok(d1 == d2);
  }

  /** Structural equality of the two diagrams decides whether the
      expressions they were built from agree everywhere. */
  lemma Verdict(ordering: seq<string>, e1: Expr, e2: Expr, d1: Node, d2: Node)
    requires Robdd(ordering, d1) && Robdd(ordering, d2)
    requires forall env :: Eval(e1, env) == Ok(Value(d1, env))
    requires forall env :: Eval(e2, env) == Ok(Value(d2, env))
    ensures d1 == d2 <==> Agree(e1, e2)
  {
    CanonicalForm(ordering, d1, d2);
    if d1 == d2 {
      AgreeFromDiagrams(e1, e2, d1, d2);
    }
    if Agree(e1, e2) {
      AgreeFromExpressions(e1, e2, d1, d2);
    }
  }

  /** Diagrams that agree everywhere give expressions that agree everywhere. */
  lemma AgreeFromDiagrams(e1: Expr, e2: Expr, d1: Node, d2: Node)
    requires forall env :: Eval(e1, env) == Ok(Value(d1, env))
    requires forall env :: Eval(e2, env) == Ok(Value(d2, env))
    requires SameFunction(d1, d2)
    ensures Agree(e1, e2)
  {
    forall env ensures Eval(e1, env) == Eval(e2, env) {
      assert Value(d1, env) == Value(d2, env);
    }
  }

  /** Expressions that agree everywhere give diagrams that agree everywhere. */
  lemma AgreeFromExpressions(e1: Expr, e2: Expr, d1: Node, d2: Node)
    requires forall env :: Eval(e1, env) == Ok(Value(d1, env))
    requires forall env :: Eval(e2, env) == Ok(Value(d2, env))
    requires Agree(e1, e2)
    ensures SameFunction(d1, d2)
  {
    forall env ensures Value(d1, env) == Value(d2, env) {
      assert Eval(e1, env) == Eval(e2, env);
    }
  }
}
