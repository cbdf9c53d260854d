/**
 Locations inside an expression. The rewriter holds pointers to operands of a nest of
 one connective and overwrites them; a location is the path to such an operand.
 */
module KconfigSpine {
  import opened KconfigExpr

  /** At each join, `false` goes left and `true` goes right. */
  type Path = seq<bool>

  function Child(e: Expr, right: bool): Expr
    requires IsJoin(e)
  {
    if right then e.right else e.left
  }

  /** The path passes through `op` joins only. */
  predicate OnSpine(op: Conn, e: Expr, p: Path)
    decreases |p|
  {
    p == [] || (Is(op, e) && OnSpine(op, Child(e, p[0]), p[1..]))
  }

  function At(op: Conn, e: Expr, p: Path): Expr
    requires OnSpine(op, e, p)
    decreases |p|
  {
    if p == [] then e else At(op, Child(e, p[0]), p[1..])
  }

  function Put(op: Conn, e: Expr, p: Path, x: Expr): Expr
    requires OnSpine(op, e, p)
    decreases |p|
  {
    if p == [] then x
    else if p[0] then Join(op, e.left, Put(op, e.right, p[1..], x))
    else Join(op, Put(op, e.left, p[1..], x), e.right)
  }

  /** The two trees have their `op` joins in the same places, from the root down. */
  predicate SameSpine(op: Conn, e: Expr, e': Expr)
  {
    Is(op, e) == Is(op, e') &&
    (Is(op, e) ==> SameSpine(op, e.left, e'.left) && SameSpine(op, e.right, e'.right))
  }

  function Joins(op: Conn, e: Expr): nat
  {
    if Is(op, e) then 1 + Joins(op, e.left) + Joins(op, e.right) else 0
  }

  lemma {:induction false} SameSpineTransitive(op: Conn, a: Expr, b: Expr, c: Expr)
    requires SameSpine(op, a, b) && SameSpine(op, b, c)
    ensures SameSpine(op, a, c)
  {
    if Is(op, a) {
      SameSpineTransitive(op, a.left, b.left, c.left);
      SameSpineTransitive(op, a.right, b.right, c.right);
    }
  }

  lemma {:induction false} SameSpineRefl(op: Conn, e: Expr)
    ensures SameSpine(op, e, e)
  {
    if Is(op, e) {
      SameSpineRefl(op, e.left);
      SameSpineRefl(op, e.right);
    }
  }

  lemma {:induction false} SameSpineJoins(op: Conn, a: Expr, b: Expr)
    requires SameSpine(op, a, b)
    ensures Joins(op, a) == Joins(op, b)
  {
    if Is(op, a) {
      SameSpineJoins(op, a.left, b.left);
      SameSpineJoins(op, a.right, b.right);
    }
  }

  /** Locations survive changes that keep the spine. */
  lemma {:induction false} SameSpineAt(op: Conn, e: Expr, e': Expr, p: Path)
    requires SameSpine(op, e, e') && OnSpine(op, e, p)
    ensures OnSpine(op, e', p) && SameSpine(op, At(op, e, p), At(op, e', p))
    decreases |p|
  {
    if p != [] {
      SameSpineAt(op, Child(e, p[0]), Child(e', p[0]), p[1..]);
    }
  }

  lemma {:induction false} OnSpineExtend(op: Conn, e: Expr, p: Path, right: bool)
    requires OnSpine(op, e, p) && Is(op, At(op, e, p))
    ensures OnSpine(op, e, p + [right]) && At(op, e, p + [right]) == Child(At(op, e, p), right)
    decreases |p|
  {
    if p != [] {
      OnSpineExtend(op, Child(e, p[0]), p[1..], right);
      assert (p + [right])[1..] == p[1..] + [right];
    }
  }

  /** Overwriting an operand with something that is not an `op` join keeps the spine. */
  lemma {:induction false} PutKeepsSpine(op: Conn, e: Expr, p: Path, x: Expr)
    requires OnSpine(op, e, p) && SameSpine(op, At(op, e, p), x)
    ensures SameSpine(op, e, Put(op, e, p, x))
    ensures Size(Put(op, e, p, x)) == Size(e) - Size(At(op, e, p)) + Size(x)
    decreases |p|
  {
    if p != [] {
      PutKeepsSpine(op, Child(e, p[0]), p[1..], x);
      SameSpineRefl(op, e.left);
      SameSpineRefl(op, e.right);
    }
  }

  lemma {:induction false} PutThenAt(op: Conn, e: Expr, p: Path, x: Expr)
    requires OnSpine(op, e, p)
    ensures OnSpine(op, Put(op, e, p, x), p) && At(op, Put(op, e, p, x), p) == x
    ensures Put(op, e, p, At(op, e, p)) == e
    decreases |p|
  {
    if p != [] {
      PutThenAt(op, Child(e, p[0]), p[1..], x);
    }
  }

  /** Two operands, neither of them an `op` join, are apart: writing one leaves the other. */
  lemma {:induction false} PutElsewhere(op: Conn, e: Expr, p: Path, q: Path, x: Expr)
    requires OnSpine(op, e, p) && OnSpine(op, e, q) && p != q
    requires !Is(op, At(op, e, p)) && !Is(op, At(op, e, q))
    ensures OnSpine(op, Put(op, e, p, x), q) && At(op, Put(op, e, p, x), q) == At(op, e, q)
    decreases |p|
  {
    assert p != [] && q != [];
    if p[0] == q[0] {
      assert p == [p[0]] + p[1..] && q == [q[0]] + q[1..];
      PutElsewhere(op, Child(e, p[0]), p[1..], q[1..], x);
    }
  }

  // ---------------------------------------------------------------- values

  /** The operand at `p` contributes its value to the whole, and nothing else of it matters. */
  lemma {:induction false} PutValue(op: Conn, e: Expr, p: Path, x: Expr, v: Valuation)
    requires Admissible(v) && OnSpine(op, e, p)
    ensures Value(Put(op, e, p, x), v) == Combine(op, Value(Put(op, e, p, Unit(op)), v), Value(x, v))
    decreases |p|
  {
    var u := Unit(op);
    if p == [] {
      assert Combine(op, Value(u, v), Value(x, v)) == Value(x, v);
    } else {
      var c := Child(e, p[0]);
      PutValue(op, c, p[1..], x, v);
      JoinValue(op, Put(op, e, p, x), v);
      JoinValue(op, Put(op, e, p, u), v);
      hide Value, Combine;
      CombineShuffle(op, Value(Child(e, !p[0]), v), Value(Put(op, c, p[1..], u), v), Value(x, v), Value(x, v));
      CombineShuffle(op, Value(Put(op, c, p[1..], u), v), Value(Child(e, !p[0]), v), Value(x, v), Value(x, v));
      CombineShuffle(op, Value(Child(e, !p[0]), v), Value(x, v), Value(x, v), Value(x, v));
    }
  }

  /** Two operands contribute their combined value. */
  lemma PutTwoValue(op: Conn, e: Expr, p: Path, q: Path, x: Expr, y: Expr, v: Valuation)
    requires Admissible(v) && OnSpine(op, e, p) && OnSpine(op, e, q) && p != q
    requires !Is(op, At(op, e, p)) && !Is(op, At(op, e, q))
    ensures OnSpine(op, Put(op, e, p, x), q) && OnSpine(op, Put(op, e, p, Unit(op)), q)
    ensures Value(Put(op, Put(op, e, p, x), q, y), v) ==
            Combine(op, Value(Put(op, Put(op, e, p, Unit(op)), q, Unit(op)), v), Combine(op, Value(x, v), Value(y, v)))
  {
    hide Value, Combine, Put, At, OnSpine;
    var u := Unit(op);
    PutElsewhere(op, e, p, q, x);
    PutElsewhere(op, e, p, q, u);
    PutElsewhere(op, e, q, p, u);
    PutCommute(op, e, p, q, x, u);
    PutCommute(op, e, p, q, u, u);
    PutValue(op, Put(op, e, p, x), q, y, v);
    PutValue(op, Put(op, e, q, u), p, x, v);
    CombineShuffle(op, Value(Put(op, Put(op, e, p, u), q, u), v), Value(x, v), Value(y, v), Value(y, v));
  }

  /** They may be exchanged for two others with the same combined value. */
  lemma PutBothValue(op: Conn, e: Expr, p: Path, q: Path, x: Expr, y: Expr, v: Valuation)
    requires Admissible(v) && OnSpine(op, e, p) && OnSpine(op, e, q) && p != q
    requires !Is(op, At(op, e, p)) && !Is(op, At(op, e, q))
    requires Combine(op, Value(x, v), Value(y, v)) == Combine(op, Value(At(op, e, p), v), Value(At(op, e, q), v))
    ensures OnSpine(op, Put(op, e, p, x), q)
    ensures Value(Put(op, Put(op, e, p, x), q, y), v) == Value(e, v)
  {
    hide Value, Combine, Put, At, OnSpine;
    PutTwoValue(op, e, p, q, x, y, v);
    PutTwoValue(op, e, p, q, At(op, e, p), At(op, e, q), v);
    PutThenAt(op, e, p, x);
    PutThenAt(op, e, q, y);
  }

  lemma {:induction false} PutCommute(op: Conn, e: Expr, p: Path, q: Path, x: Expr, y: Expr)
    requires OnSpine(op, e, p) && OnSpine(op, e, q) && p != q
    requires !Is(op, At(op, e, p)) && !Is(op, At(op, e, q))
    ensures OnSpine(op, Put(op, e, p, x), q) && OnSpine(op, Put(op, e, q, y), p)
    ensures Put(op, Put(op, e, p, x), q, y) == Put(op, Put(op, e, q, y), p, x)
    decreases |p|
  {
    assert p != [] && q != [];
    PutElsewhere(op, e, p, q, x);
    PutElsewhere(op, e, q, p, y);
    if p[0] == q[0] {
      assert p == [p[0]] + p[1..] && q == [q[0]] + q[1..];
      PutCommute(op, Child(e, p[0]), p[1..], q[1..], x, y);
    }
  }

  /** On an && spine the whole is at most any part; on an || spine at least. */
  lemma {:induction false} SpineBound(op: Conn, e: Expr, p: Path, v: Valuation)
    requires OnSpine(op, e, p)
    ensures Combine(op, Value(e, v), Value(At(op, e, p), v)) == Value(e, v)
    decreases |p|
  {
    if p != [] {
      SpineBound(op, Child(e, p[0]), p[1..], v);
    }
  }
}
