/**
 What the comparison of expressions finds: equality up to the nesting and the order of the operands
 of each connective.
 */
module KconfigCanon {
  import opened KconfigExpr
  import opened KconfigEq

  /** An expression without the nesting and the order of its lists. */
  datatype Canon = Tested(e: Expr) | Negated(arg: Canon) | Listing(op: Conn, parts: multiset<Canon>)

  function CanonOf(e: Expr): Canon
    decreases e, 1
  {
    match e
    case Not(a) => Negated(CanonOf(a))
    case And(l, r) => Listing(AndOp, Parts(AndOp, l) + Parts(AndOp, r))
    case Or(l, r) => Listing(OrOp, Parts(OrOp, l) + Parts(OrOp, r))
    case _ => Tested(e)
  }

  /** The operands of an `op` list, other than y and n. */
  function Parts(op: Conn, e: Expr): multiset<Canon>
    decreases e, 2
  {
    if Is(op, e) then Parts(op, e.left) + Parts(op, e.right)
    else if IsYesNo(e) then multiset{} else multiset{CanonOf(e)}
  }

  /** No list anywhere in the expression has y or n for an operand. */
  predicate Plain(e: Expr)
  {
    match e
    case Not(a) => Plain(a)
    case And(l, r) => !IsYesNo(l) && !IsYesNo(r) && Plain(l) && Plain(r)
    case Or(l, r) => !IsYesNo(l) && !IsYesNo(r) && Plain(l) && Plain(r)
    case _ => true
  }

  /** Every operand of the `op` list is plain; y and n may be among them. */
  predicate PlainParts(op: Conn, e: Expr)
  {
    if Is(op, e) then PlainParts(op, e.left) && PlainParts(op, e.right) else Plain(e)
  }

  /** The constant that decides the list is among its operands: n for &&, y for ||. */
  predicate Decided(op: Conn, e: Expr)
  {
    if Is(op, e) then Decided(op, e.left) || Decided(op, e.right) else if op.AndOp? then IsNo(e) else IsYes(e)
  }

  lemma {:induction false} PlainIsPlainParts(op: Conn, e: Expr)
    requires Plain(e)
    ensures PlainParts(op, e) && !Reducible(e) && (Is(op, e) ==> !Decided(op, e))
  {
    if IsJoin(e) {
      PlainIsPlainParts(op, e.left);
      PlainIsPlainParts(op, e.right);
    }
  }

  // ---------------------------------------------------------------- cancelling

  /** What cancelling leaves of two lists: the operands that the other does not have as often. If it is
      not `strict`, it may have cancelled constants as well. */
  ghost predicate CancelsTo(op: Conn, e1: Expr, e2: Expr, p: Pair, strict: bool)
  {
    PlainParts(op, p.fst) && PlainParts(op, p.snd) &&
    Parts(op, p.fst) == Parts(op, e1) - Parts(op, e2) && Parts(op, p.snd) == Parts(op, e2) - Parts(op, e1) &&
    (Decided(op, p.fst) ==> Decided(op, e1)) && (Decided(op, p.snd) ==> Decided(op, e2)) &&
    (strict ==> Decided(op, p.fst) == Decided(op, e1) && Decided(op, p.snd) == Decided(op, e2))
  }

  lemma MinusTwice<T>(a: multiset<T>, b: multiset<T>, c: multiset<T>)
    ensures (c - a) - b == c - (a + b) && (a - c) + (b - (c - a)) == (a + b) - c
  {
  }

  lemma PartsOfJoin(op: Conn, a: Expr, b: Expr)
    ensures var e := Join(op, a, b);
            Is(op, e) && e.left == a && e.right == b && Parts(op, e) == Parts(op, a) + Parts(op, b) &&
            (PlainParts(op, e) <==> PlainParts(op, a) && PlainParts(op, b)) && (Decided(op, e) <==> Decided(op, a) || Decided(op, b))
  {
  }

  /** Cancelling both operands of the first list in turn against the second. */
  lemma DifferenceFirst(op: Conn, l: Expr, r: Expr, e2: Expr, p: Pair, q: Pair, strict: bool)
    requires CancelsTo(op, l, e2, p, strict) && CancelsTo(op, r, p.snd, q, strict)
    ensures CancelsTo(op, Join(op, l, r), e2, Pair(Join(op, p.fst, q.fst), q.snd), strict)
  {
    PartsOfJoin(op, l, r);
    PartsOfJoin(op, p.fst, q.fst);
    hide Parts, PlainParts, Decided, Join;
    MinusTwice(Parts(op, l), Parts(op, r), Parts(op, e2));
  }

  lemma DifferenceSecond(op: Conn, e1: Expr, l: Expr, r: Expr, p: Pair, q: Pair, strict: bool)
    requires CancelsTo(op, e1, l, p, strict) && CancelsTo(op, p.fst, r, q, strict)
    ensures CancelsTo(op, e1, Join(op, l, r), Pair(q.fst, Join(op, p.snd, q.snd)), strict)
  {
    PartsOfJoin(op, l, r);
    PartsOfJoin(op, p.snd, q.snd);
    hide Parts, PlainParts, Decided, Join;
    MinusTwice(Parts(op, l), Parts(op, r), Parts(op, e1));
  }

  /** Two operands that are no lists: both go, or both stay. */
  lemma DifferenceOfTwo(op: Conn, e1: Expr, e2: Expr)
    requires !Is(op, e1) && !Is(op, e2) && Plain(e1) && Plain(e2)
    ensures (IsYesNo(e1) || IsYesNo(e2) || CanonOf(e1) != CanonOf(e2)) ==> CancelsTo(op, e1, e2, Pair(e1, e2), true)
    ensures (!IsYesNo(e1) && !IsYesNo(e2) && CanonOf(e1) == CanonOf(e2)) ==> CancelsTo(op, e1, e2, Pair(Unit(op), Unit(op)), true)
    ensures IsYesNo(e1) && e1 == e2 ==> CancelsTo(op, e1, e2, Pair(Unit(op), Unit(op)), false)
  {
    hide CanonOf;
  }

  lemma {:induction false} CancelIsDifference(op: Conn, e1: Expr, e2: Expr)
    requires PlainParts(op, e1) && PlainParts(op, e2)
    ensures CancelsTo(op, e1, e2, Cancel(op, e1, e2), true)
    decreases Measure(e1, e2), if Is(op, e1) || Is(op, e2) then 0 else 3
  {
    hide CancelsTo, Parts, Decided, CanonOf;
    if Is(op, e1) {
      var p := Cancel(op, e1.left, e2);
      CancelIsDifference(op, e1.left, e2);
      LeftIsPlain(op, e1.left, e2, p, true);
      CancelIsDifference(op, e1.right, p.snd);
      DifferenceFirst(op, e1.left, e1.right, e2, p, Cancel(op, e1.right, p.snd), true);
    } else if Is(op, e2) {
      var p := Cancel(op, e1, e2.left);
      CancelIsDifference(op, e1, e2.left);
      LeftIsPlain(op, e1, e2.left, p, true);
      CancelIsDifference(op, p.fst, e2.right);
      DifferenceSecond(op, e1, e2.left, e2.right, p, Cancel(op, p.fst, e2.right), true);
    } else {
      DifferenceOfTwo(op, e1, e2);
      if !IsYesNo(e1) && !IsYesNo(e2) {
        EqualIffSameCanon(e1, e2);
      }
    }
  }

  lemma LeftIsPlain(op: Conn, e1: Expr, e2: Expr, p: Pair, strict: bool)
    requires CancelsTo(op, e1, e2, p, strict)
    ensures PlainParts(op, p.fst) && PlainParts(op, p.snd)
  {
  }

  function Decider(op: Conn): Expr { Symb(if op.AndOp? then SymNo else SymYes) }

  /** Dropping the constants of a list, from what is left of its two halves. */
  function DroppedJoin(op: Conn, a: Expr, b: Expr): Expr
  {
    if a == Decider(op) || b == Unit(op) then a else if a == Unit(op) || b == Decider(op) then b else Join(op, a, b)
  }

  /** `d` is what is left of the list `e` without its constants. */
  ghost predicate DropsTo(op: Conn, e: Expr, d: Expr)
  {
    if Decided(op, e) then d == Decider(op)
    else if Parts(op, e) == multiset{} then d == Unit(op)
    else !IsYesNo(d) && Parts(op, d) == Parts(op, e)
  }

  lemma DropsJoin(op: Conn, l: Expr, r: Expr, a: Expr, b: Expr)
    requires DropsTo(op, l, a) && DropsTo(op, r, b)
    ensures DropsTo(op, Join(op, l, r), DroppedJoin(op, a, b))
  {
    PartsOfJoin(op, l, r);
    PartsOfJoin(op, a, b);
    hide Parts, Decided;
  }

  lemma DroppedIsJoin(op: Conn, e: Expr)
    requires Is(op, e)
    ensures EliminateYn(e) == DroppedJoin(op, EliminateYn(e.left), EliminateYn(e.right))
  {
  }

  /** What dropping the constants leaves of a list. */
  lemma {:induction false} DroppedIs(op: Conn, e: Expr)
    requires PlainParts(op, e)
    ensures DropsTo(op, e, EliminateYn(e))
  {
    if Is(op, e) {
      DroppedIs(op, e.left);
      DroppedIs(op, e.right);
      DroppedIsJoin(op, e);
      hide DropsTo, EliminateYn;
      DropsJoin(op, e.left, e.right, EliminateYn(e.left), EliminateYn(e.right));
      assert Join(op, e.left, e.right) == e;
    } else {
      PlainIsPlainParts(op, e);
      EliminateYnShrinks(e);
    }
  }

  /** Two lists compare equal exactly when both are decided by a constant, or neither is and they have
      the same operands equally often. */
  lemma {:induction false} ListsEqualIff(op: Conn, e1: Expr, e2: Expr)
    requires Is(op, e1) && Is(op, e2) && PlainParts(op, e1) && PlainParts(op, e2)
    ensures ExprEq(e1, e2) <==> Decided(op, e1) == Decided(op, e2) && (!Decided(op, e1) ==> Parts(op, e1) == Parts(op, e2))
    decreases Measure(e1, e2), 1
  {
    var p := Cancel(op, e1, e2);
    CancelIsDifference(op, e1, e2);
    assert EliminateEq(e1, e2) == Pair(EliminateYn(p.fst), EliminateYn(p.snd));
    DroppedIs(op, p.fst);
    DroppedIs(op, p.snd);
    hide Cancel, EliminateYn, Parts, PlainParts, Decided;
    DifferenceEmpty(Parts(op, e1), Parts(op, e2));
  }

  lemma DifferenceEmpty<T>(a: multiset<T>, b: multiset<T>)
    ensures a == b <==> a - b == multiset{} && b - a == multiset{}
    ensures a - b == b - a ==> a == b
  {
    if a - b == multiset{} && b - a == multiset{} {
      assert forall x :: a[x] == b[x] by {
        forall x ensures a[x] == b[x] {
          assert (a - b)[x] == 0 && (b - a)[x] == 0;
        }
      }
    }
    if a - b == b - a {
      forall x ensures a[x] == b[x] {
        assert (a - b)[x] == (b - a)[x];
      }
    }
  }

  /** Expressions without constant operands compare equal exactly when they are the same up to the
      nesting and the order of their lists. */
  lemma {:induction false} EqualIffSameCanon(e1: Expr, e2: Expr)
    requires Plain(e1) && Plain(e2)
    ensures ExprEq(e1, e2) <==> CanonOf(e1) == CanonOf(e2)
    decreases Measure(e1, e2), 2
  {
    if e1.Not? && e2.Not? {
      EqualIffSameCanon(e1.arg, e2.arg);
    } else if IsJoin(e1) && IsJoin(e2) && OpOf(e1) == OpOf(e2) {
      PlainIsPlainParts(OpOf(e1), e1);
      PlainIsPlainParts(OpOf(e1), e2);
      ListsEqualIff(OpOf(e1), e1, e2);
    }
  }

  /** So on them the comparison does not mind order and nesting, and is an equivalence. */
  lemma Reordered(op: Conn, a: Expr, b: Expr, c: Expr)
    requires Plain(Join(op, a, b)) && Plain(Join(op, b, c))
    ensures ExprEq(Join(op, a, b), Join(op, b, a))
    ensures ExprEq(Join(op, Join(op, a, b), c), Join(op, a, Join(op, b, c)))
  {
    PartsOfJoin(op, a, b);
    PartsOfJoin(op, b, a);
    PartsOfJoin(op, b, c);
    PartsOfJoin(op, Join(op, a, b), c);
    PartsOfJoin(op, a, Join(op, b, c));
    hide Parts, ExprEq;
    EqualIffSameCanon(Join(op, a, b), Join(op, b, a));
    EqualIffSameCanon(Join(op, Join(op, a, b), c), Join(op, a, Join(op, b, c)));
  }

  lemma ExprEqIsEquivalence(e1: Expr, e2: Expr, e3: Expr)
    requires Plain(e1) && Plain(e2) && Plain(e3) && ExprEq(e1, e2)
    ensures ExprEq(e2, e1) && (ExprEq(e2, e3) ==> ExprEq(e1, e3))
  {
    EqualIffSameCanon(e1, e2);
    EqualIffSameCanon(e2, e1);
    EqualIffSameCanon(e2, e3);
    EqualIffSameCanon(e1, e3);
  }

  // ---------------------------------------------------------------- constants below

  /** The operands of a list as they are. */
  function Operands(op: Conn, e: Expr): multiset<Expr>
  {
    if Is(op, e) then Operands(op, e.left) + Operands(op, e.right) else multiset{e}
  }

  function OrNo(a: Symbol): Expr { Or(Symb(a), Symb(SymNo)) }
  function BothOrNo(a: Symbol, b: Symbol): Expr { And(OrNo(a), OrNo(b)) }
  function OneOrNo(a: Symbol, b: Symbol): Expr { And(Symb(a), OrNo(b)) }
  function Bare(a: Symbol, b: Symbol): Expr { And(Symb(a), Symb(b)) }

  /** The first operand is no constant and is found to be the second. */
  predicate Meets(x: Expr, y: Expr) { !IsYesNo(x) && ExprEq(x, y) }

  lemma CancelOperands(op: Conn, x: Expr, y: Expr)
    requires !Is(op, x) && !Is(op, y)
    ensures Cancel(op, x, y) == if Meets(x, y) then Pair(Unit(op), Unit(op)) else Pair(x, y)
  {
  }

  /** An operand against a list of two halves. */
  lemma CancelOperand(op: Conn, x: Expr, l: Expr, r: Expr)
    requires !Is(op, x)
    ensures var p := Cancel(op, x, l);
            Cancel(op, x, Join(op, l, r)) == Pair(Cancel(op, p.fst, r).fst, Join(op, p.snd, Cancel(op, p.fst, r).snd))
    ensures Cancel(op, Unit(op), r) == Pair(Unit(op), r)
  {
    ConstantsStay(op, Unit(op), r);
  }

  lemma CancelList(op: Conn, l: Expr, r: Expr, e: Expr)
    ensures var p := Cancel(op, l, e);
            Cancel(op, Join(op, l, r), e) == Pair(Join(op, p.fst, Cancel(op, r, p.snd).fst), Cancel(op, r, p.snd).snd)
  {
  }

  lemma OrNoEqual(a: Symbol, b: Symbol)
    requires !IsYesNo(Symb(a)) && !IsYesNo(Symb(b))
    ensures ExprEq(OrNo(a), OrNo(b)) <==> a == b
    ensures EliminateYn(OrNo(a)) == Symb(a)
  {
    ListsEqualIff(OrOp, OrNo(a), OrNo(b));
    PartsOfJoin(OrOp, Symb(a), Symb(SymNo));
    PartsOfJoin(OrOp, Symb(b), Symb(SymNo));
    assert Parts(OrOp, Symb(a)) == multiset{Tested(Symb(a))};
    assert Parts(OrOp, Symb(b)) == multiset{Tested(Symb(b))};
  }

  /** Two lists of two operands that only share the second. */
  lemma ShareSecond(x1: Expr, x2: Expr, y1: Expr, y2: Expr)
    requires !x1.And? && !x2.And? && !y1.And? && !y2.And?
    requires !Meets(x1, y1) && !Meets(x1, y2) && !Meets(x2, y1) && Meets(x2, y2)
    ensures ExprEq(And(x1, x2), And(y1, y2)) <==> EliminateYn(And(x1, Symb(SymYes))).Symb? && EliminateYn(And(x1, Symb(SymYes))) == EliminateYn(And(y1, Symb(SymYes)))
  {
    CancelOperands(AndOp, x1, y1);
    CancelOperands(AndOp, x1, y2);
    CancelOperands(AndOp, x2, y1);
    CancelOperands(AndOp, x2, y2);
    CancelOperand(AndOp, x1, y1, y2);
    CancelOperand(AndOp, x2, y1, y2);
    CancelList(AndOp, x1, x2, And(y1, y2));
    hide Meets, Cancel;
    assert Cancel(AndOp, And(x1, x2), And(y1, y2)) == Pair(And(x1, Symb(SymYes)), And(y1, Symb(SymYes)));
  }

  /** That only share the first. */
  lemma ShareFirst(x1: Expr, x2: Expr, y1: Expr, y2: Expr)
    requires !x1.And? && !x2.And? && !y1.And? && !y2.And? && Meets(x1, y1) && !Meets(x2, y2)
    ensures ExprEq(And(x1, x2), And(y1, y2)) <==> EliminateYn(And(Symb(SymYes), x2)).Symb? && EliminateYn(And(Symb(SymYes), x2)) == EliminateYn(And(Symb(SymYes), y2))
  {
    CancelOperands(AndOp, x1, y1);
    CancelOperands(AndOp, x2, Symb(SymYes));
    CancelOperands(AndOp, x2, y2);
    CancelOperand(AndOp, x1, y1, y2);
    CancelOperand(AndOp, x2, Symb(SymYes), y2);
    CancelList(AndOp, x1, x2, And(y1, y2));
    assert !Meets(x2, Symb(SymYes));
    hide Meets, Cancel;
    assert Cancel(AndOp, And(x1, x2), And(y1, y2)) == Pair(And(Symb(SymYes), x2), And(Symb(SymYes), y2));
  }

  /** That share none. */
  lemma ShareNone(x1: Expr, x2: Expr, y1: Expr, y2: Expr)
    requires !x1.And? && !x2.And? && !y1.And? && !y2.And?
    requires !Meets(x1, y1) && !Meets(x1, y2) && !Meets(x2, y1) && !Meets(x2, y2)
    ensures ExprEq(And(x1, x2), And(y1, y2)) <==> EliminateYn(And(x1, x2)).Symb? && EliminateYn(And(x1, x2)) == EliminateYn(And(y1, y2))
  {
    CancelOperands(AndOp, x1, y1);
    CancelOperands(AndOp, x1, y2);
    CancelOperands(AndOp, x2, y1);
    CancelOperands(AndOp, x2, y2);
    CancelOperand(AndOp, x1, y1, y2);
    CancelOperand(AndOp, x2, y1, y2);
    CancelList(AndOp, x1, x2, And(y1, y2));
    hide Meets, Cancel;
    assert Cancel(AndOp, And(x1, x2), And(y1, y2)) == Pair(And(x1, x2), And(y1, y2));
  }

  /** With constants below, the comparison is not transitive. */
  lemma {:induction false} NotTransitive(a: Symbol, b: Symbol)
    requires a != b && !IsYesNo(Symb(a)) && !IsYesNo(Symb(b))
    ensures ExprEq(BothOrNo(a, b), OneOrNo(a, b)) && ExprEq(OneOrNo(a, b), Bare(a, b))
    ensures !ExprEq(BothOrNo(a, b), Bare(a, b)) && !ExprEq(Bare(a, b), BothOrNo(a, b))
  {
    OrNoEqual(a, b);
    OrNoEqual(b, b);
    hide EliminateEq, Cancel;
    ShareSecond(OrNo(a), OrNo(b), Symb(a), OrNo(b));
    ShareFirst(Symb(a), OrNo(b), Symb(a), Symb(b));
    ShareNone(OrNo(a), OrNo(b), Symb(a), Symb(b));
    ShareNone(Symb(a), Symb(b), OrNo(a), OrNo(b));
  }

  /** Three operands against the same three, one place further. */
  lemma CancelRound(x: Expr, y: Expr, z: Expr)
    requires !x.Or? && !y.Or? && !z.Or? && Meets(x, y) && Meets(y, z) && !Meets(z, x) && !IsYesNo(x)
    ensures Cancel(OrOp, Or(Or(x, y), z), Or(Or(y, z), x)).fst == Or(Or(Symb(SymNo), Symb(SymNo)), z)
  {
    var no := Symb(SymNo);
    assert !Meets(y, no) && !Meets(z, no);
    CancelOperands(OrOp, x, y);
    CancelOperand(OrOp, x, y, z);
    CancelOperand(OrOp, x, Or(y, z), x);
    hide Cancel;
    assert Cancel(OrOp, x, Or(Or(y, z), x)) == Pair(no, Or(Or(no, z), x));
    CancelOperands(OrOp, y, no);
    CancelOperands(OrOp, y, z);
    CancelOperand(OrOp, y, no, z);
    CancelOperand(OrOp, y, Or(no, z), x);
    assert Cancel(OrOp, y, Or(Or(no, z), x)) == Pair(no, Or(Or(no, no), x));
    CancelOperands(OrOp, z, no);
    CancelOperands(OrOp, z, x);
    CancelOperand(OrOp, z, no, no);
    CancelOperand(OrOp, z, Or(no, no), x);
    CancelList(OrOp, x, y, Or(Or(y, z), x));
    CancelList(OrOp, Or(x, y), z, Or(Or(y, z), x));
  }

  /** So there a list can differ from the same list in another order. */
  lemma {:induction false} ReorderingMissed(a: Symbol, b: Symbol)
    requires a != b && !IsYesNo(Symb(a)) && !IsYesNo(Symb(b))
    ensures var x, y, z := BothOrNo(a, b), OneOrNo(a, b), Bare(a, b);
            var e1, e2 := Or(Or(x, y), z), Or(Or(y, z), x);
            Operands(OrOp, e1) == Operands(OrOp, e2) && !ExprEq(e1, e2)
  {
    var x, y, z := BothOrNo(a, b), OneOrNo(a, b), Bare(a, b);
    NotTransitive(a, b);
    CancelRound(x, y, z);
    assert EliminateYn(z) == z;
    assert EliminateYn(Or(Or(Symb(SymNo), Symb(SymNo)), z)) == z;
    hide Cancel, BothOrNo, OneOrNo;
  }
}
