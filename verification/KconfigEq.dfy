/**
 Constant elimination and the comparison of expressions up to reordering: the
 comparison cancels equal parts of two copies against each other, and cancelling
 compares the parts.
 */
module KconfigEq {
  import opened KconfigExpr
  import opened KconfigSpine

  predicate IsYes(e: Expr) { e == Symb(SymYes) }
  predicate IsNo(e: Expr) { e == Symb(SymNo) }

  /** Drops `y` and `n` from joins; does not look below a negation. */
  function EliminateYn(e: Expr): Expr
  {
    match e
    case And(l, r) =>
      var l', r' := EliminateYn(l), EliminateYn(r);
      if IsNo(l') then l' else if IsYes(l') then r'
      else if IsNo(r') then r' else if IsYes(r') then l'
      else And(l', r')
    case Or(l, r) =>
      var l', r' := EliminateYn(l), EliminateYn(r);
      if IsNo(l') then r' else if IsYes(l') then l'
      else if IsNo(r') then l' else if IsYes(r') then r'
      else Or(l', r')
    case _ => e
  }

  /** A join somewhere, reached through joins only, has a constant operand. */
  predicate Reducible(e: Expr)
  {
    IsJoin(e) &&
    (IsYes(e.left) || IsNo(e.left) || IsYes(e.right) || IsNo(e.right) || Reducible(e.left) || Reducible(e.right))
  }

  lemma {:induction false} EliminateYnKeepsValue(e: Expr, v: Valuation)
    requires Admissible(v)
    ensures Value(EliminateYn(e), v) == Value(e, v)
  {
    if IsJoin(e) {
      EliminateYnKeepsValue(e.left, v);
      EliminateYnKeepsValue(e.right, v);
    }
  }

  /** The result is smaller exactly when there was something to drop, and nothing is left to drop. */
  lemma {:induction false} EliminateYnShrinks(e: Expr)
    ensures Size(EliminateYn(e)) <= Size(e)
    ensures Reducible(e) <==> Size(EliminateYn(e)) < Size(e)
    ensures !Reducible(e) ==> EliminateYn(e) == e
    ensures !Reducible(EliminateYn(e))
  {
    if IsJoin(e) {
      EliminateYnShrinks(e.left);
      EliminateYnShrinks(e.right);
    }
  }

  // ---------------------------------------------------------------- cancelling and comparing

  datatype Pair = Pair(fst: Expr, snd: Expr)

  function Measure(e1: Expr, e2: Expr): nat { Size(e1) + Size(e2) }

  /** Replaces parts of the two `op` lists that compare equal by the unit of `op`. */
  function Cancel(op: Conn, e1: Expr, e2: Expr): (p: Pair)
    ensures Size(p.fst) <= Size(e1) && Size(p.snd) <= Size(e2)
    ensures Is(op, p.fst) == Is(op, e1) && Is(op, p.snd) == Is(op, e2)
    decreases Measure(e1, e2), if Is(op, e1) || Is(op, e2) then 0 else 3
  {
    if Is(op, e1) then
      var p := Cancel(op, e1.left, e2);
      var q := Cancel(op, e1.right, p.snd);
      Pair(Join(op, p.fst, q.fst), q.snd)
    else if Is(op, e2) then
      var p := Cancel(op, e1, e2.left);
      var q := Cancel(op, p.fst, e2.right);
      Pair(q.fst, Join(op, p.snd, q.snd))
    else if e1 == e2 && (IsYes(e1) || IsNo(e1)) then Pair(e1, e2)
    else if !ExprEq(e1, e2) then Pair(e1, e2)
    else Pair(Unit(op), Unit(op))
  }

  function EliminateEq(e1: Expr, e2: Expr): (p: Pair)
    decreases Measure(e1, e2), 1
  {
    var p := if IsJoin(e1) then Cancel(OpOf(e1), e1, e2) else Pair(e1, e2);
    var q := if IsJoin(p.snd) && !(IsJoin(p.fst) && OpOf(p.fst) == OpOf(p.snd))
             then Cancel(OpOf(p.snd), p.fst, p.snd) else p;
    Pair(EliminateYn(q.fst), EliminateYn(q.snd))
  }

  predicate ExprEq(e1: Expr, e2: Expr)
    decreases Measure(e1, e2), 2
  {
    match (e1, e2)
    case (Equal(a, b), Equal(c, d)) => a == c && b == d
    case (Unequal(a, b), Unequal(c, d)) => a == c && b == d
    case (Symb(a), Symb(b)) => a == b
    case (Not(a), Not(b)) => ExprEq(a, b)
    case (And(_, _), And(_, _)) => var p := EliminateEq(e1, e2); p.fst.Symb? && p.fst == p.snd
    case (Or(_, _), Or(_, _)) => var p := EliminateEq(e1, e2); p.fst.Symb? && p.fst == p.snd
    case _ => false
  }

  /** `c` is a value that both expressions shared and both lost. */
  ghost predicate CommonPart(op: Conn, e1: Expr, e2: Expr, p: Pair, v: Valuation, c: Tristate)
  {
    Value(e1, v) == Combine(op, Value(p.fst, v), c) && Value(e2, v) == Combine(op, Value(p.snd, v), c)
  }

  function Neutral(op: Conn): Tristate { if op.AndOp? then YES else NO }

  /** Cancelling both operands of the first list in turn against the second. */
  lemma CommonFirst(op: Conn, l: Expr, r: Expr, e2: Expr, p: Pair, q: Pair, v: Valuation, c1: Tristate, c2: Tristate)
    requires CommonPart(op, l, e2, p, v, c1) && CommonPart(op, r, p.snd, q, v, c2)
    ensures CommonPart(op, Join(op, l, r), e2, Pair(Join(op, p.fst, q.fst), q.snd), v, Combine(op, c1, c2))
  {
    hide Value, Combine;
    JoinValue(op, Join(op, l, r), v);
    JoinValue(op, Join(op, p.fst, q.fst), v);
    CombineShuffle(op, Value(p.fst, v), Value(q.fst, v), c1, c2);
    CombineShuffle(op, Value(q.snd, v), c2, c1, c1);
    CombineShuffle(op, c1, c2, c1, c1);
  }

  lemma CommonSecond(op: Conn, e1: Expr, l: Expr, r: Expr, p: Pair, q: Pair, v: Valuation, c1: Tristate, c2: Tristate)
    requires CommonPart(op, e1, l, p, v, c1) && CommonPart(op, p.fst, r, q, v, c2)
    ensures CommonPart(op, e1, Join(op, l, r), Pair(q.fst, Join(op, p.snd, q.snd)), v, Combine(op, c1, c2))
  {
    hide Value, Combine;
    JoinValue(op, Join(op, l, r), v);
    JoinValue(op, Join(op, p.snd, q.snd), v);
    CombineShuffle(op, Value(p.snd, v), Value(q.snd, v), c1, c2);
    CombineShuffle(op, Value(q.fst, v), c2, c1, c1);
    CombineShuffle(op, c1, c2, c1, c1);
  }

  lemma CommonUnit(op: Conn, e1: Expr, e2: Expr, v: Valuation)
    requires Admissible(v)
    ensures CommonPart(op, e1, e2, Pair(e1, e2), v, Neutral(op))
    ensures Value(e1, v) == Value(e2, v) ==> CommonPart(op, e1, e2, Pair(Unit(op), Unit(op)), v, Value(e1, v))
  {
  }

  lemma {:induction false} CancelKeepsRest(op: Conn, e1: Expr, e2: Expr, v: Valuation) returns (c: Tristate)
    requires Admissible(v)
    ensures CommonPart(op, e1, e2, Cancel(op, e1, e2), v, c)
    decreases Measure(e1, e2), if Is(op, e1) || Is(op, e2) then 0 else 3
  {
    hide CommonPart, Value, Combine, ExprEq, Admissible;
    if Is(op, e1) {
      var p := Cancel(op, e1.left, e2);
      var c1 := CancelKeepsRest(op, e1.left, e2, v);
      var c2 := CancelKeepsRest(op, e1.right, p.snd, v);
      c := Combine(op, c1, c2);
      CommonFirst(op, e1.left, e1.right, e2, p, Cancel(op, e1.right, p.snd), v, c1, c2);
    } else if Is(op, e2) {
      var p := Cancel(op, e1, e2.left);
      var c1 := CancelKeepsRest(op, e1, e2.left, v);
      var c2 := CancelKeepsRest(op, p.fst, e2.right, v);
      c := Combine(op, c1, c2);
      CommonSecond(op, e1, e2.left, e2.right, p, Cancel(op, p.fst, e2.right), v, c1, c2);
    } else if (e1 == e2 && (IsYes(e1) || IsNo(e1))) || !ExprEq(e1, e2) {
      c := Neutral(op);
      CommonUnit(op, e1, e2, v);
    } else {
      ExprEqIsSound(e1, e2, v);
      c := Value(e1, v);
      CommonUnit(op, e1, e2, v);
    }
  }

  /** Expressions that compare equal have the same value. */
  lemma {:induction false} ExprEqIsSound(e1: Expr, e2: Expr, v: Valuation)
    requires Admissible(v) && ExprEq(e1, e2)
    ensures Value(e1, v) == Value(e2, v)
    decreases Measure(e1, e2), 2
  {
    if e1.Not? {
      ExprEqIsSound(e1.arg, e2.arg, v);
    } else if IsJoin(e1) {
      var p := Cancel(OpOf(e1), e1, e2);
      var c := CancelKeepsRest(OpOf(e1), e1, e2, v);
      assert EliminateEq(e1, e2) == Pair(EliminateYn(p.fst), EliminateYn(p.snd));
      EliminateYnKeepsValue(p.fst, v);
      EliminateYnKeepsValue(p.snd, v);
    }
  }

  // ---------------------------------------------------------------- every expression equals itself

  predicate IsYesNo(e: Expr) { IsYes(e) || IsNo(e) }

  /** An `op` list after all its operands were cancelled; constants are never cancelled. */
  function Cancelled(op: Conn, e: Expr): Expr
  {
    if Is(op, e) then Join(op, Cancelled(op, e.left), Cancelled(op, e.right))
    else if IsYesNo(e) then e else Unit(op)
  }

  /** The operands left of the part at `p` are cancelled, the others are not. */
  function CancelledBefore(op: Conn, e: Expr, p: Path): Expr
    requires OnSpine(op, e, p)
    decreases |p|
  {
    if p == [] then e
    else if p[0] then Join(op, Cancelled(op, e.left), CancelledBefore(op, e.right, p[1..]))
    else Join(op, CancelledBefore(op, e.left, p[1..]), e.right)
  }

  /** So are those of the part at `p`. */
  function CancelledThrough(op: Conn, e: Expr, p: Path): Expr
    requires OnSpine(op, e, p)
    decreases |p|
  {
    if p == [] then Cancelled(op, e)
    else if p[0] then Join(op, Cancelled(op, e.left), CancelledThrough(op, e.right, p[1..]))
    else Join(op, CancelledThrough(op, e.left, p[1..]), e.right)
  }

  lemma {:induction false} ConstantsStay(op: Conn, k: Expr, e: Expr)
    requires IsYesNo(k)
    ensures Cancel(op, k, e) == Pair(k, e)
  {
    if Is(op, e) {
      ConstantsStay(op, k, e.left);
      ConstantsStay(op, k, e.right);
    }
  }

  lemma {:induction false} NothingLeftToCancel(op: Conn, x: Expr, e: Expr)
    requires !Is(op, x)
    ensures Cancel(op, x, Cancelled(op, e)) == Pair(x, Cancelled(op, e))
  {
    if Is(op, e) {
      NothingLeftToCancel(op, x, e.left);
      NothingLeftToCancel(op, x, e.right);
    } else {
      var k := Cancelled(op, e);
      assert IsYesNo(k);
    }
  }

  /** An operand meets its own copy and cancels there. */
  lemma {:induction false} OperandCancels(op: Conn, e: Expr, p: Path)
    requires OnSpine(op, e, p) && !Is(op, At(op, e, p)) && ExprEq(At(op, e, p), At(op, e, p))
    ensures Cancel(op, At(op, e, p), CancelledBefore(op, e, p)) ==
            Pair(Cancelled(op, At(op, e, p)), CancelledThrough(op, e, p))
    decreases |p|
  {
    if p != [] {
      var x := At(op, e, p);
      OperandCancels(op, Child(e, p[0]), p[1..]);
      if p[0] {
        NothingLeftToCancel(op, x, e.left);
      } else {
        assert IsYesNo(Cancelled(op, x));
        ConstantsStay(op, Cancelled(op, x), e.right);
      }
    }
  }

  lemma {:induction false} ExtendBefore(op: Conn, e: Expr, p: Path)
    requires OnSpine(op, e, p) && Is(op, At(op, e, p))
    ensures OnSpine(op, e, p + [false]) && OnSpine(op, e, p + [true])
    ensures CancelledBefore(op, e, p + [false]) == CancelledBefore(op, e, p)
    ensures CancelledBefore(op, e, p + [true]) == CancelledThrough(op, e, p + [false])
    ensures CancelledThrough(op, e, p + [true]) == CancelledThrough(op, e, p)
    decreases |p|
  {
    OnSpineExtend(op, e, p, false);
    OnSpineExtend(op, e, p, true);
    if p != [] {
      ExtendBefore(op, Child(e, p[0]), p[1..]);
      assert (p + [false])[1..] == p[1..] + [false];
      assert (p + [true])[1..] == p[1..] + [true];
    }
  }

  lemma {:induction false} PartCancels(op: Conn, e: Expr, p: Path)
    requires Is(op, e) && OnSpine(op, e, p)
    ensures Cancel(op, At(op, e, p), CancelledBefore(op, e, p)) ==
            Pair(Cancelled(op, At(op, e, p)), CancelledThrough(op, e, p))
    decreases Size(e), Size(At(op, e, p))
  {
    var x := At(op, e, p);
    if Is(op, x) {
      ExtendBefore(op, e, p);
      OnSpineExtend(op, e, p, false);
      OnSpineExtend(op, e, p, true);
      PartCancels(op, e, p + [false]);
      PartCancels(op, e, p + [true]);
    } else {
      AtIsSmaller(op, e, p);
      ExprEqIsReflexive(x);
      OperandCancels(op, e, p);
    }
  }

  lemma {:induction false} AtIsSmaller(op: Conn, e: Expr, p: Path)
    requires OnSpine(op, e, p)
    ensures Size(At(op, e, p)) <= Size(e) && (p != [] ==> Size(At(op, e, p)) < Size(e))
    decreases |p|
  {
    if p != [] {
      AtIsSmaller(op, Child(e, p[0]), p[1..]);
    }
  }

  lemma {:induction false} CancelledIsConstant(op: Conn, e: Expr)
    ensures IsYesNo(EliminateYn(Cancelled(op, e)))
  {
    if Is(op, e) {
      CancelledIsConstant(op, e.left);
      CancelledIsConstant(op, e.right);
    }
  }

  /** The comparison finds every expression equal to itself, however it is built. */
  lemma {:induction false} ExprEqIsReflexive(e: Expr)
    ensures ExprEq(e, e)
    decreases Size(e), Size(e) + 1
  {
    if e.Not? {
      ExprEqIsReflexive(e.arg);
    } else if IsJoin(e) {
      var op := OpOf(e);
      PartCancels(op, e, []);
      CancelledIsConstant(op, e);
    }
  }
}
