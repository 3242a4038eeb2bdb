/** Decision-diagram nodes (`ROBDDNode`), their meaning under an assignment,
    the reduction and ordering invariants, and the canonicity theorem. */
module Nodes {
  import opened Results
  import opened Operators

  /** A terminal keeps its 0/1 value; a decision node tests `variable` and
      continues with `low` when it is 0 and with `high` when it is 1.
      Equality is structural, as the `__eq__` and `__hash__` of `ROBDDNode` in `ROBDD.py` are. */
  datatype Node =
    | Terminal(value: Bit)
    | Decision(variable: string, low: Node, high: Node)

  const Zero: Node := Terminal(0)
  const One: Node := Terminal(1)

  /** An assignment lists the variables that are 1; all others are 0. */
  type Assignment = set<string>

  ghost function Value(n: Node, env: Assignment): Bit {
    match n
    case Terminal(b) => b
    case Decision(v, lo, hi) => if v in env then Value(hi, env) else Value(lo, env)
  }

  ghost function Vars(n: Node): set<string> {
    match n
    case Terminal(_) => {}
    case Decision(v, lo, hi) => {v} + Vars(lo) + Vars(hi)
  }

  ghost function Size(n: Node): nat {
    match n
    case Terminal(_) => 1
    case Decision(_, lo, hi) => 1 + Size(lo) + Size(hi)
  }

  ghost function OptValue(u: Option<Node>, env: Assignment): Option<Bit> {
    match u
    case None => None
    case Some(n) => Some(Value(n, env))
  }

  ghost function OptVars(u: Option<Node>): set<string> {
    match u
    case None => {}
    case Some(n) => Vars(n)
  }

  ghost function OptSize(u: Option<Node>): nat {
    match u
    case None => 0
    case Some(n) => Size(n)
  }

  /** The position of `v` in the ordering, as Python's `list.index`: the
      first occurrence. */
  function IndexOf(ord: seq<string>, v: string): (i: nat)
    requires v in ord
    ensures i < |ord| && ord[i] == v
    ensures forall j | 0 <= j < i :: ord[j] != v
  {
    if ord[0] == v then 0 else 1 + IndexOf(ord[1..], v)
  }

  /** `v` comes strictly before `x` in the ordering. */
  ghost predicate Precedes(ord: seq<string>, v: string, x: string) {
    v in ord && x in ord && IndexOf(ord, v) < IndexOf(ord, x)
  }

  /** Every variable tested in `n` comes strictly after `v`. */
  ghost predicate Below(ord: seq<string>, v: string, n: Node) {
    forall x | x in Vars(n) :: Precedes(ord, v, x)
  }

  ghost predicate VarsIn(ord: seq<string>, n: Node) {
    forall x | x in Vars(n) :: x in ord
  }

  /** No decision node has two equal children. */
  ghost predicate Reduced(n: Node) {
    match n
    case Terminal(_) => true
    case Decision(_, lo, hi) => lo != hi && Reduced(lo) && Reduced(hi)
  }

  /** Every decision node's variable is in the ordering and precedes every
      variable reachable through its children. */
  ghost predicate Ordered(ord: seq<string>, n: Node) {
    match n
    case Terminal(_) => true
    case Decision(v, lo, hi) =>
      v in ord && Below(ord, v, lo) && Below(ord, v, hi) && Ordered(ord, lo) && Ordered(ord, hi)
  }

  ghost predicate OptOrdered(ord: seq<string>, u: Option<Node>) {
    u.Some? ==> Ordered(ord, u.value)
  }

  /** A reduced ordered diagram over `ord`. */
  ghost predicate Robdd(ord: seq<string>, n: Node) {
    Reduced(n) && Ordered(ord, n)
  }

  ghost predicate SameFunction(a: Node, b: Node) {
    forall env :: Value(a, env) == Value(b, env)
  }

  /** The node `mk` yields for a decision request: the reduction rule drops a
      test whose two branches agree; otherwise the triple itself. */
  ghost function Reduce(v: string, lo: Node, hi: Node): (r: Node)
    ensures forall env :: Value(r, env) == if v in env then Value(hi, env) else Value(lo, env)
    ensures Reduced(lo) && Reduced(hi) ==> Reduced(r)
    ensures Vars(r) <= {v} + Vars(lo) + Vars(hi)
  {
    if lo == hi then lo else Decision(v, lo, hi)
  }

  lemma ReduceOrdered(ord: seq<string>, v: string, lo: Node, hi: Node)
    requires v in ord && Ordered(ord, lo) && Ordered(ord, hi)
    requires Below(ord, v, lo) && Below(ord, v, hi)
    ensures Ordered(ord, Reduce(v, lo, hi))
  {
  }

  /** In an ordered diagram the top variable precedes everything below it. */
  lemma OrderedTop(ord: seq<string>, n: Node)
    requires Ordered(ord, n)
    ensures VarsIn(ord, n)
    ensures n.Decision? ==> forall x | x in Vars(n) && x != n.variable :: Precedes(ord, n.variable, x)
  {
  }

  /** A diagram that does not test `v` does not depend on it. */
  lemma {:induction false} ValueIgnores(n: Node, v: string, env: Assignment)
    requires v !in Vars(n)
    ensures Value(n, env + {v}) == Value(n, env)
    ensures Value(n, env - {v}) == Value(n, env)
  {
    match n
    case Terminal(_) =>
    case Decision(w, lo, hi) =>
      ValueIgnores(lo, v, env);
      ValueIgnores(hi, v, env);
  }

  /** If `a` tests a variable that comes before everything `b` tests, and the
      two denote the same function, both children of `a` are `b`. */
  lemma {:induction false} Absorbs(ord: seq<string>, a: Node, b: Node)
    requires a.Decision? && Robdd(ord, a) && Robdd(ord, b) && SameFunction(a, b)
    requires b.Decision? ==> Precedes(ord, a.variable, b.variable)
    ensures a.low == b && a.high == b
    decreases Size(a) + Size(b), 0
  {
    var v := a.variable;
    assert v !in Vars(b) by {
      if b.Decision? {
        OrderedTop(ord, b);
      }
    }
    assert v !in Vars(a.low) && v !in Vars(a.high) by {
      assert !Precedes(ord, v, v);
    }
    forall env ensures Value(a.low, env) == Value(b, env) {
      ValueIgnores(a.low, v, env);
      ValueIgnores(b, v, env);
      assert Value(a, env - {v}) == Value(b, env - {v});
    }
    forall env ensures Value(a.high, env) == Value(b, env) {
      ValueIgnores(a.high, v, env);
      ValueIgnores(b, v, env);
      assert Value(a, env + {v}) == Value(b, env + {v});
    }
    Canonical(ord, a.low, b);
    Canonical(ord, a.high, b);
  }

  /** Canonicity: two reduced ordered diagrams over the same ordering that
      agree under every assignment are structurally equal. */
  lemma {:induction false} Canonical(ord: seq<string>, a: Node, b: Node)
    requires Robdd(ord, a) && Robdd(ord, b) && SameFunction(a, b)
    ensures a == b
    decreases Size(a) + Size(b), 1
  {
    if a.Terminal? && b.Terminal? {
      assert Value(a, {}) == Value(b, {});
    } else if a.Decision? && (b.Terminal? || Precedes(ord, a.variable, b.variable)) {
      Absorbs(ord, a, b);
      assert false;
    } else if b.Decision? && (a.Terminal? || Precedes(ord, b.variable, a.variable)) {
      assert SameFunction(b, a);
      Absorbs(ord, b, a);
      assert false;
    } else {
      var v := a.variable;
      assert b.variable == v;
      forall env ensures Value(a.low, env) == Value(b.low, env) {
        ValueIgnores(a.low, v, env);
        ValueIgnores(b.low, v, env);
        assert Value(a, env - {v}) == Value(b, env - {v});
      }
      forall env ensures Value(a.high, env) == Value(b.high, env) {
        ValueIgnores(a.high, v, env);
        ValueIgnores(b.high, v, env);
        assert Value(a, env + {v}) == Value(b, env + {v});
      }
      Canonical(ord, a.low, b.low);
      Canonical(ord, a.high, b.high);
    }
  }

  /** Structural equality of reduced ordered diagrams decides equivalence. */
  lemma CanonicalForm(ord: seq<string>, a: Node, b: Node)
    requires Robdd(ord, a) && Robdd(ord, b)
    ensures a == b <==> SameFunction(a, b)
  {
    if SameFunction(a, b) {
      Canonical(ord, a, b);
    }
  }
}
