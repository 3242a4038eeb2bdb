/** One construction session: the unique table and the apply cache that
    `build_robdd` keeps for the duration of one call, with `mk`, `apply_op`
    and `build` as methods on it. */
module Engine {
  import opened Results
  import opened Operators
  import opened Nodes
  import opened Shannon
  import opened Expressions

  /** Memo key of `apply_op`: the operator and its operands; the second
      operand is absent for NOT. */
  type Key = (string, Node, Option<Node>)

  /** Map `b` keeps every entry of `a` unchanged. */
  ghost predicate Extends<K, V>(a: map<K, V>, b: map<K, V>) {
    forall k | k in a :: k in b && b[k] == a[k]
  }

  class Session {
    const ordering: seq<string>
    var unique: map<Node, Node>
    var cache: map<Key, Node>

    /** The session invariant: both terminals are registered, every table
        entry maps a node to itself, and every cache entry holds a
        registered, correct result for its key. */
    ghost predicate Valid()
      reads this
    {
      && Zero in unique && One in unique
      && (forall n | n in unique :: unique[n] == n)
      && (forall k | k in cache :: cache[k] in unique && ApplyResult(ordering, k.0, k.1, k.2, cache[k]))
    }

    /** A fresh session: the two predefined terminals and an empty cache. */
    constructor (ordering: seq<string>)
      ensures Valid()
      ensures this.ordering == ordering
      ensures unique == map[Zero := Zero, One := One] && cache == map[]
    {
      this.ordering := ordering;
      unique := map[Zero := Zero, One := One];
      cache := map[];
    }

    /** `mk` for a terminal request: the session's terminal for 0 or 1;
        any other value fails. */
    function MkTerminal(value: int): (r: Result<Node>)
      reads this
      requires Valid()
      ensures r.Ok? <==> value == 0 || value == 1
      ensures r.Ok? ==> r.value in unique && r.value.Terminal? && forall env :: Value(r.value, env) == value
      ensures r.Err? ==> r.error == InvalidTerminalValue
    {
      if value == 0 then Ok(Zero)
      else if value == 1 then Ok(One)
      else Err(InvalidTerminalValue)
    }

    /** `mk` for a decision request: the reduction rule, then hash-consing
        through the unique table, which only ever gains the new node. */
    method Mk(v: string, low: Node, high: Node) returns (r: Node)
      requires Valid()
      modifies this`unique
      ensures Valid()
      ensures r == Reduce(v, low, high)
      ensures low == high ==> r == low && unique == old(unique)
      ensures low != high ==> r in unique && unique == old(unique)[r := r]
      ensures low != high && r in old(unique) ==> unique == old(unique)
    {
      if low == high {
        return low;
      }
      var node := Decision(v, low, high);
      if node in unique {
        r := unique[node];
      } else {
        unique := unique[node := node];
        r := node;
      }
    }

    /** `apply_op`: the memoised Shannon-expansion apply. It succeeds exactly
        for a known operator with its operands, caches what it computes, and
        leaves every existing table and cache entry as it was. */
    method Apply(op: string, u1: Node, u2: Option<Node>) returns (r: Result<Node>)
      requires Valid()
      requires VarsIn(ordering, u1) && (u2.Some? ==> VarsIn(ordering, u2.value))
      modifies this
      ensures Valid()
      ensures Extends(old(unique), unique) && Extends(old(cache), cache)
      ensures r.Ok? <==> IsOperator(op) && (op == "NOT" || u2.Some?)
      ensures r.Ok? ==> r.value in unique && ApplyResult(ordering, op, u1, u2, r.value)
      ensures r.Ok? ==> (op, u1, u2) in cache && cache[(op, u1, u2)] == r.value
      decreases Size(u1) + OptSize(u2), 1
    {
      var key := (op, u1, u2);
      if key in cache {
        return Ok(cache[key]);
      }
      var result :- Compute(op, u1, u2);
      cache := cache[key := result];
      r := Ok(result);
    }

    /** The body of `apply_op` on a cache miss: the case analysis of the
        Shannon expansion. */
    method Compute(op: string, u1: Node, u2: Option<Node>) returns (r: Result<Node>)
      requires Valid()
      requires VarsIn(ordering, u1) && (u2.Some? ==> VarsIn(ordering, u2.value))
      modifies this
      ensures Valid()
      ensures Extends(old(unique), unique) && Extends(old(cache), cache)
      ensures r.Ok? <==> IsOperator(op) && (op == "NOT" || u2.Some?)
      ensures r.Ok? ==> r.value in unique && ApplyResult(ordering, op, u1, u2, r.value)
      decreases Size(u1) + OptSize(u2), 0
    {
      if op == "NOT" {
        if u1.Terminal? {
          var val := ApplyOperator(op, u1.value, None);
          r := MkTerminal(val.value);
          ExpandTerminals(ordering, op, u1, u2, val.value);
        } else {
          ghost var lo, hi;
          r, lo, hi := Expand(op, u1.variable, u1.low, None, u1.high, None);
          ExpandNot(ordering, u1, u2, lo, hi);
        }
      } else {
        if u2.None? {
          return Err(MissingOperand);
        }
        var w := u2.value;
        if u1.Terminal? && w.Terminal? {
          var val :- ApplyOperator(op, u1.value, Some(w.value));
          r := MkTerminal(val);
          ExpandTerminals(ordering, op, u1, u2, val);
        } else if u1.Terminal? {
          ghost var lo, hi;
          r, lo, hi := Expand(op, w.variable, u1, Some(w.low), u1, Some(w.high));
          if r.Ok? { ExpandSecond(ordering, op, u1, w, lo, hi); }
        } else if w.Terminal? {
          ghost var lo, hi;
          r, lo, hi := Expand(op, u1.variable, u1.low, u2, u1.high, u2);
          if r.Ok? { ExpandFirst(ordering, op, u1, w, lo, hi); }
        } else {
          var i1, i2 := IndexOf(ordering, u1.variable), IndexOf(ordering, w.variable);
          ghost var lo, hi;
          if i1 == i2 {
            r, lo, hi := Expand(op, u1.variable, u1.low, Some(w.low), u1.high, Some(w.high));
            if r.Ok? { ExpandBoth(ordering, op, u1, w, lo, hi); }
          } else if i1 < i2 {
            r, lo, hi := Expand(op, u1.variable, u1.low, u2, u1.high, u2);
            if r.Ok? { ExpandFirst(ordering, op, u1, w, lo, hi); }
          } else {
            r, lo, hi := Expand(op, w.variable, u1, Some(w.low), u1, Some(w.high));
            if r.Ok? { ExpandSecond(ordering, op, u1, w, lo, hi); }
          }
        }
      }
    }

    /** The step every expansion case of `apply_op` shares: apply `op` to
        the operands for `v` = 0, then for `v` = 1, and rebuild at `v`
        with `mk`. */
    method Expand(op: string, v: string, a1: Node, a2: Option<Node>, b1: Node, b2: Option<Node>)
      returns (r: Result<Node>, ghost lo: Node, ghost hi: Node)
      requires Valid()
      requires a2.Some? == b2.Some?
      requires VarsIn(ordering, a1) && (a2.Some? ==> VarsIn(ordering, a2.value))
      requires VarsIn(ordering, b1) && (b2.Some? ==> VarsIn(ordering, b2.value))
      modifies this
      ensures Valid()
      ensures Extends(old(unique), unique) && Extends(old(cache), cache)
      ensures r.Ok? <==> IsOperator(op) && (op == "NOT" || a2.Some?)
      ensures r.Ok? ==> r.value in unique && r.value == Reduce(v, lo, hi)
      ensures r.Ok? ==> ApplyResult(ordering, op, a1, a2, lo) && ApplyResult(ordering, op, b1, b2, hi)
      decreases Max(Size(a1) + OptSize(a2), Size(b1) + OptSize(b2)), 2
    {
      var low := Apply(op, a1, a2);
      if low.Err? {
        return low, a1, b1;
      }
      var high := Apply(op, b1, b2);
      lo, hi := low.value, high.value;
      var node := Mk(v, low.value, high.value);
      r := Ok(node);
    }

    /** `build`: turns an expression tree into a diagram of this session.
        It succeeds exactly on the trees `Buildable` admits, and the diagram
        it returns is reduced, ordered and has the tree's value under every
        assignment. */
    method Build(e: Expr) returns (r: Result<Node>)
      requires Valid()
      modifies this
      ensures Valid()
      ensures Extends(old(unique), unique) && Extends(old(cache), cache)
      ensures r.Ok? <==> Buildable(ordering, e)
      ensures r.Ok? ==> r.value in unique && Robdd(ordering, r.value)
      ensures r.Ok? ==> forall env :: Eval(e, env) == Ok(Value(r.value, env))
      decreases e
    {
      match e
      case Leaf(name) =>
        if name == "1" {
          r := Ok(One);
        } else if name == "0" {
          r := Ok(Zero);
        } else if name !in ordering {
          r := Err(UnknownVariable);
        } else {
          var node := Mk(name, Zero, One);
          r := Ok(node);
        }
      case Unary(op, x) =>
        var operand :- Build(x);
        if op == "NOT" {
          r := Negate(operand);
        } else {
          r := Err(MissingOperand);
        }
      case Binary(op, left, right) =>
        if op == "NOT" {
          var operand :- Build(left);
          r := Negate(operand);
        } else {
          var a :- Build(left);
          var b :- Build(right);
          OrderedTop(ordering, a);
          OrderedTop(ordering, b);
          r := Apply(op, a, Some(b));
        }
    }

    /** `apply_op('NOT', …)` on a diagram of this session. */
    method Negate(u: Node) returns (r: Result<Node>)
      requires Valid() && Robdd(ordering, u)
      modifies this
      ensures Valid()
      ensures Extends(old(unique), unique) && Extends(old(cache), cache)
      ensures r.Ok? && r.value in unique && Robdd(ordering, r.value)
      ensures forall env :: ApplyOperator("NOT", Value(u, env), None) == Ok(Value(r.value, env))
    {
      OrderedTop(ordering, u);
      r := Apply("NOT", u, None);
    }
  }

  ghost function Max(a: nat, b: nat): nat {
    if a < b then b else a
  }
}
