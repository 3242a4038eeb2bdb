/** What a correct result of the apply algorithm is, and the Shannon
    expansion steps that build one from the results for the cofactors. */
module Shannon {
  import opened Results
  import opened Operators
  import opened Nodes

  /** Under every assignment, `r` has the value the operator's truth table
      gives for the values of the operands. */
  ghost predicate Implements(op: string, u1: Node, u2: Option<Node>, r: Node) {
    forall env :: ApplyOperator(op, Value(u1, env), OptValue(u2, env)) == Ok(Value(r, env))
  }

  /** `r` is a correct, reduced result of applying `op` to `u1` (and `u2`):
      it computes the operator, tests only variables of the operands, and is
      ordered whenever the operands are. */
  ghost predicate ApplyResult(ord: seq<string>, op: string, u1: Node, u2: Option<Node>, r: Node) {
    && IsOperator(op) && (op == "NOT" || u2.Some?)
    && Reduced(r)
    && Vars(r) <= Vars(u1) + OptVars(u2)
    && (Ordered(ord, u1) && OptOrdered(ord, u2) ==> Ordered(ord, r))
    && Implements(op, u1, u2, r)
  }

  /** Both operands terminal (or the one operand of NOT): the truth table's
      value as a terminal. */
  lemma ExpandTerminals(ord: seq<string>, op: string, u1: Node, u2: Option<Node>, val: Bit)
    requires u1.Terminal? && (op == "NOT" || (u2.Some? && u2.value.Terminal?))
    requires ApplyOperator(op, u1.value, if op == "NOT" then None else Some(u2.value.value)) == Ok(val)
    ensures ApplyResult(ord, op, u1, u2, Terminal(val))
  {
  }

  /** Shannon expansion on `v`: if `lo` computes the operator when `v` is 0
      and `hi` when `v` is 1, the reduced node testing `v` computes it. */
  lemma {:induction false} ImplementsSplit(op: string, u1: Node, u2: Option<Node>, v: string, lo: Node, hi: Node)
    requires forall env | v !in env :: ApplyOperator(op, Value(u1, env), OptValue(u2, env)) == Ok(Value(lo, env))
    requires forall env | v in env :: ApplyOperator(op, Value(u1, env), OptValue(u2, env)) == Ok(Value(hi, env))
    ensures Implements(op, u1, u2, Reduce(v, lo, hi))
  {
    var r := Reduce(v, lo, hi);
    forall env ensures ApplyOperator(op, Value(u1, env), OptValue(u2, env)) == Ok(Value(r, env)) {
      if v in env {
        assert Value(r, env) == Value(hi, env);
      } else {
        assert Value(r, env) == Value(lo, env);
      }
    }
  }

  /** NOT on a decision node: negate both children and rebuild at its variable. */
  lemma ExpandNot(ord: seq<string>, u1: Node, u2: Option<Node>, lo: Node, hi: Node)
    requires u1.Decision?
    requires ApplyResult(ord, "NOT", u1.low, None, lo) && ApplyResult(ord, "NOT", u1.high, None, hi)
    ensures ApplyResult(ord, "NOT", u1, u2, Reduce(u1.variable, lo, hi))
  {
    var v := u1.variable;
    forall env | v !in env ensures ApplyOperator("NOT", Value(u1, env), OptValue(u2, env)) == Ok(Value(lo, env)) {
      assert Value(u1, env) == Value(u1.low, env);
      assert ApplyOperator("NOT", Value(u1.low, env), None) == Ok(Value(lo, env));
    }
    forall env | v in env ensures ApplyOperator("NOT", Value(u1, env), OptValue(u2, env)) == Ok(Value(hi, env)) {
      assert Value(u1, env) == Value(u1.high, env);
      assert ApplyOperator("NOT", Value(u1.high, env), None) == Ok(Value(hi, env));
    }
    ImplementsSplit("NOT", u1, u2, v, lo, hi);
    if Ordered(ord, u1) {
      ReduceOrdered(ord, v, lo, hi);
    }
  }

  lemma ImplementsFirst(op: string, u1: Node, u2: Node, lo: Node, hi: Node)
    requires u1.Decision?
    requires Implements(op, u1.low, Some(u2), lo) && Implements(op, u1.high, Some(u2), hi)
    ensures Implements(op, u1, Some(u2), Reduce(u1.variable, lo, hi))
  {
    var v := u1.variable;
    forall env | v !in env ensures ApplyOperator(op, Value(u1, env), OptValue(Some(u2), env)) == Ok(Value(lo, env)) {
      assert Value(u1, env) == Value(u1.low, env);
      assert ApplyOperator(op, Value(u1.low, env), OptValue(Some(u2), env)) == Ok(Value(lo, env));
    }
    forall env | v in env ensures ApplyOperator(op, Value(u1, env), OptValue(Some(u2), env)) == Ok(Value(hi, env)) {
      assert Value(u1, env) == Value(u1.high, env);
      assert ApplyOperator(op, Value(u1.high, env), OptValue(Some(u2), env)) == Ok(Value(hi, env));
    }
    ImplementsSplit(op, u1, Some(u2), v, lo, hi);
  }

  lemma ImplementsSecond(op: string, u1: Node, u2: Node, lo: Node, hi: Node)
    requires u2.Decision?
    requires Implements(op, u1, Some(u2.low), lo) && Implements(op, u1, Some(u2.high), hi)
    ensures Implements(op, u1, Some(u2), Reduce(u2.variable, lo, hi))
  {
    var v := u2.variable;
    forall env | v !in env ensures ApplyOperator(op, Value(u1, env), OptValue(Some(u2), env)) == Ok(Value(lo, env)) {
      assert OptValue(Some(u2), env) == OptValue(Some(u2.low), env);
      assert ApplyOperator(op, Value(u1, env), OptValue(Some(u2.low), env)) == Ok(Value(lo, env));
    }
    forall env | v in env ensures ApplyOperator(op, Value(u1, env), OptValue(Some(u2), env)) == Ok(Value(hi, env)) {
      assert OptValue(Some(u2), env) == OptValue(Some(u2.high), env);
      assert ApplyOperator(op, Value(u1, env), OptValue(Some(u2.high), env)) == Ok(Value(hi, env));
    }
    ImplementsSplit(op, u1, Some(u2), v, lo, hi);
  }

  lemma ImplementsBoth(op: string, u1: Node, u2: Node, lo: Node, hi: Node)
    requires u1.Decision? && u2.Decision? && u1.variable == u2.variable
    requires Implements(op, u1.low, Some(u2.low), lo) && Implements(op, u1.high, Some(u2.high), hi)
    ensures Implements(op, u1, Some(u2), Reduce(u1.variable, lo, hi))
  {
    var v := u1.variable;
    forall env | v !in env ensures ApplyOperator(op, Value(u1, env), OptValue(Some(u2), env)) == Ok(Value(lo, env)) {
      assert Value(u1, env) == Value(u1.low, env);
      assert OptValue(Some(u2), env) == OptValue(Some(u2.low), env);
      assert ApplyOperator(op, Value(u1.low, env), OptValue(Some(u2.low), env)) == Ok(Value(lo, env));
    }
    forall env | v in env ensures ApplyOperator(op, Value(u1, env), OptValue(Some(u2), env)) == Ok(Value(hi, env)) {
      assert Value(u1, env) == Value(u1.high, env);
      assert OptValue(Some(u2), env) == OptValue(Some(u2.high), env);
      assert ApplyOperator(op, Value(u1.high, env), OptValue(Some(u2.high), env)) == Ok(Value(hi, env));
    }
    ImplementsSplit(op, u1, Some(u2), v, lo, hi);
  }

  /** Rebuilding at `v` keeps the result ordered when `v` precedes every
      variable the cofactor results may test. */
  lemma OrderedRebuild(ord: seq<string>, v: string, s: set<string>, lo: Node, hi: Node)
    requires v in ord && forall x | x in s :: Precedes(ord, v, x)
    requires Ordered(ord, lo) && Ordered(ord, hi)
    requires Vars(lo) <= s && Vars(hi) <= s
    ensures Ordered(ord, Reduce(v, lo, hi))
  {
    ReduceOrdered(ord, v, lo, hi);
  }

  /** `u` is a terminal or starts strictly after `v`, so everything in it does. */
  lemma BelowTop(ord: seq<string>, v: string, u: Node)
    requires Ordered(ord, u)
    requires u.Decision? ==> Precedes(ord, v, u.variable)
    ensures Below(ord, v, u)
  {
    OrderedTop(ord, u);
  }

  /** Rebuilding at the variable of `u1` keeps the result ordered when
      `u2` is a terminal or its variable comes later. */
  lemma OrderedFirst(ord: seq<string>, u1: Node, u2: Node, lo: Node, hi: Node)
    requires u1.Decision? && Ordered(ord, u1) && Ordered(ord, u2)
    requires u2.Decision? ==> Precedes(ord, u1.variable, u2.variable)
    requires Ordered(ord, lo) && Ordered(ord, hi)
    requires Vars(lo) <= Vars(u1.low) + Vars(u2) && Vars(hi) <= Vars(u1.high) + Vars(u2)
    ensures Ordered(ord, Reduce(u1.variable, lo, hi))
  {
    BelowTop(ord, u1.variable, u2);
    OrderedRebuild(ord, u1.variable, Vars(u1.low) + Vars(u1.high) + Vars(u2), lo, hi);
  }

  /** Rebuilding at the variable of `u2` keeps the result ordered when
      `u1` is a terminal or its variable comes later. */
  lemma OrderedSecond(ord: seq<string>, u1: Node, u2: Node, lo: Node, hi: Node)
    requires u2.Decision? && Ordered(ord, u1) && Ordered(ord, u2)
    requires u1.Decision? ==> Precedes(ord, u2.variable, u1.variable)
    requires Ordered(ord, lo) && Ordered(ord, hi)
    requires Vars(lo) <= Vars(u1) + Vars(u2.low) && Vars(hi) <= Vars(u1) + Vars(u2.high)
    ensures Ordered(ord, Reduce(u2.variable, lo, hi))
  {
    BelowTop(ord, u2.variable, u1);
    OrderedRebuild(ord, u2.variable, Vars(u1) + Vars(u2.low) + Vars(u2.high), lo, hi);
  }

  /** A binary operator branching on the variable of `u1`, holding `u2`
      unexpanded: `u2` is a terminal or its variable comes later. */
  lemma ExpandFirst(ord: seq<string>, op: string, u1: Node, u2: Node, lo: Node, hi: Node)
    requires u1.Decision?
    requires u2.Decision? ==> Precedes(ord, u1.variable, u2.variable)
    requires ApplyResult(ord, op, u1.low, Some(u2), lo) && ApplyResult(ord, op, u1.high, Some(u2), hi)
    ensures ApplyResult(ord, op, u1, Some(u2), Reduce(u1.variable, lo, hi))
  {
    var r := Reduce(u1.variable, lo, hi);
    ImplementsFirst(op, u1, u2, lo, hi);
    assert Vars(r) <= Vars(u1) + Vars(u2);
    if Ordered(ord, u1) && Ordered(ord, u2) {
      OrderedFirst(ord, u1, u2, lo, hi);
    }
  }

  /** A binary operator branching on the variable of `u2`, holding `u1`
      unexpanded: `u1` is a terminal or its variable comes later. */
  lemma ExpandSecond(ord: seq<string>, op: string, u1: Node, u2: Node, lo: Node, hi: Node)
    requires u2.Decision?
    requires u1.Decision? ==> Precedes(ord, u2.variable, u1.variable)
    requires ApplyResult(ord, op, u1, Some(u2.low), lo) && ApplyResult(ord, op, u1, Some(u2.high), hi)
    ensures ApplyResult(ord, op, u1, Some(u2), Reduce(u2.variable, lo, hi))
  {
    var r := Reduce(u2.variable, lo, hi);
    ImplementsSecond(op, u1, u2, lo, hi);
    assert Vars(r) <= Vars(u1) + Vars(u2);
    if Ordered(ord, u1) && Ordered(ord, u2) {
      OrderedSecond(ord, u1, u2, lo, hi);
    }
  }

  /** A binary operator on two decision nodes testing the same variable:
      co-expand both. */
  lemma ExpandBoth(ord: seq<string>, op: string, u1: Node, u2: Node, lo: Node, hi: Node)
    requires u1.Decision? && u2.Decision? && u1.variable == u2.variable
    requires ApplyResult(ord, op, u1.low, Some(u2.low), lo)
    requires ApplyResult(ord, op, u1.high, Some(u2.high), hi)
    ensures ApplyResult(ord, op, u1, Some(u2), Reduce(u1.variable, lo, hi))
  {
    var r := Reduce(u1.variable, lo, hi);
    ImplementsBoth(op, u1, u2, lo, hi);
    // The remaining conjuncts of ApplyResult, one at a time, so that the
    // solver proves them separately.
    assert Reduced(r);
    assert Vars(r) <= Vars(u1) + Vars(u2);
    assert Ordered(ord, u1) && Ordered(ord, u2) ==> Ordered(ord, r);
  }
}
