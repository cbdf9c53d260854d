/**
 Where `m` breaks the rewriters: single expressions on which a rule that is right for `y` and `n`
 gives a wrong answer.
 */
module KconfigMod {
  import opened Options
  import opened KconfigExpr
  import opened KconfigSpine
  import opened KconfigEq
  import opened KconfigTransform
  import opened KconfigDups
  import opened KconfigCompare

  /** All tristate symbols are `m`. */
  function AllMod(): Valuation
  {
    Valuation(s => if s == SymYes then YES else if s == SymMod || IsTristate(s) then MOD else NO,
              (s: Symbol) => match s
                case SymYes => "y"
                case SymMod => "m"
                case Quoted(text) => seq(text + 2, _ => '#')
                case _ => if IsTristate(s) then "m" else "n")
  }

  lemma AllModIsAdmissible()
    ensures Admissible(AllMod())
  {
    var v := AllMod();
    forall s, s' | IsConst(s) && IsConst(s') && s != s' ensures v.str(s) != v.str(s') {
      assert s.Quoted? ==> |v.str(s)| == s.text + 2;
      assert s'.Quoted? ==> |v.str(s')| == s'.text + 2;
    }
  }

  /** Two tristate symbols. */
  predicate Two(a: Symbol, b: Symbol) { IsTristate(a) && IsTristate(b) && a != b }

  /** Against y, `!a` is taken for y when a is `m`, and against n for n. */
  lemma TransCompareOfNotMod(a: Symbol)
    requires IsTristate(a)
    ensures Admissible(AllMod()) && Value(Not(Symb(a)), AllMod()) == MOD
    ensures Value(TransCompare(Not(Symb(a)), true, SymYes), AllMod()) == YES
    ensures Value(TransCompare(Not(Symb(a)), true, SymNo), AllMod()) == YES
  {
    AllModIsAdmissible();
    TransCompareRounds(Not(Symb(a)), true, SymYes, AllMod());
    TransCompareRounds(Not(Symb(a)), true, SymNo, AllMod());
  }

  // ---------------------------------------------------------------- (a || b) && (!a && !b)

  function Either(a: Symbol, b: Symbol): Expr { Or(Symb(a), Symb(b)) }
  function Neither(a: Symbol, b: Symbol): Expr { And(Not(Symb(a)), Not(Symb(b))) }
  function Both(a: Symbol, b: Symbol): Expr { And(Either(a, b), Neither(a, b)) }
  function Dropped(a: Symbol, b: Symbol): Expr { And(Symb(SymNo), Neither(a, b)) }

  const LEFT: Path := [false]
  const RIGHT: Path := [true]
  const FIRST: Path := [true, false]
  const SECOND: Path := [true, true]

  /** The operands of a list whose second operand is a list. */
  lemma Places(op: Conn, x: Expr, y: Expr, z: Expr)
    ensures var e := Join(op, x, Join(op, y, z));
            OnSpine(op, e, []) && OnSpine(op, e, LEFT) && OnSpine(op, e, RIGHT) && OnSpine(op, e, FIRST) && OnSpine(op, e, SECOND) &&
            At(op, e, []) == e && At(op, e, LEFT) == x && At(op, e, RIGHT) == Join(op, y, z) &&
            At(op, e, FIRST) == y && At(op, e, SECOND) == z &&
            forall w :: Put(op, e, LEFT, w) == Join(op, w, Join(op, y, z))
  {
    var e, r := Join(op, x, Join(op, y, z)), Join(op, y, z);
    assert RIGHT[1..] == [] && LEFT[1..] == [] && FIRST[1..] == [false] && SECOND[1..] == [true];
    assert OnSpine(op, r, [false]) && At(op, r, [false]) == y;
    assert OnSpine(op, r, [true]) && At(op, r, [true]) == z;
    forall w ensures Put(op, e, LEFT, w) == Join(op, w, r) {
      assert Put(op, x, LEFT[1..], w) == w;
    }
  }

  /** What a pass with both pointers at places of `root` comes to when nothing below them changes. */
  lemma Dups1Idle(op: Conn, root: Expr, p1: Path, p2: Path)
    requires OnSpine(op, root, p1) && OnSpine(op, root, p2)
    requires Is(op, At(op, root, p1)) ==>
               OnSpine(op, root, p1 + [false]) && OnSpine(op, root, p1 + [true]) &&
               Dups1(op, root, p1 + [false], p2) == Rewrite(root, 0) == Dups1(op, root, p1 + [true], p2)
    requires !Is(op, At(op, root, p1)) && Is(op, At(op, root, p2)) ==>
               OnSpine(op, root, p2 + [false]) && OnSpine(op, root, p2 + [true]) &&
               Dups1(op, root, p1, p2 + [false]) == Rewrite(root, 0) == Dups1(op, root, p1, p2 + [true])
    requires !Is(op, At(op, root, p1)) && !Is(op, At(op, root, p2)) && p1 != p2 ==>
               JoinPair(op, At(op, root, p1), At(op, root, p2)).None? &&
               (IsJoin(At(op, root, p1)) ==>
                  Dups1(OpOf(At(op, root, p1)), At(op, root, p1), [], []) == Rewrite(At(op, root, p1), 0))
    ensures Dups1(op, root, p1, p2) == Rewrite(root, 0)
  {
    PutThenAt(op, root, p1, root);
  }

  /** The second pass leaves a list alone when the first pointer is at an operand that is no join. */
  lemma {:induction false} Dups2Leaf(op: Conn, root: Expr, p1: Path, p2: Path)
    requires OnSpine(op, root, p1) && OnSpine(op, root, p2) && !IsJoin(At(op, root, p1))
    ensures Dups2(op, root, p1, p2) == Rewrite(root, 0)
    decreases Joins(op, At(op, root, p2))
  {
    if p1 != p2 && Is(op, At(op, root, p2)) {
      SameSpineRefl(op, root);
      NextLocation(op, root, root, p2, false);
      NextLocation(op, root, root, p2, true);
      Dups2Leaf(op, root, p1, p2 + [false]);
      Dups2Leaf(op, root, p1, p2 + [true]);
      assert Dups2Below(op, root, p1, p2) == Rewrite(root, 0);
    }
  }

  lemma OrIsIdle(a: Symbol, b: Symbol)
    requires Two(a, b)
    ensures Dups1(OrOp, Either(a, b), [], []) == Rewrite(Either(a, b), 0)
    ensures Dups2(OrOp, Either(a, b), [], []) == Rewrite(Either(a, b), 0)
  {
    var e := Either(a, b);
    assert LEFT[1..] == [] && RIGHT[1..] == [] && [] + [false] == LEFT && [] + [true] == RIGHT;
    assert OnSpine(OrOp, e, LEFT) && At(OrOp, e, LEFT) == Symb(a);
    assert OnSpine(OrOp, e, RIGHT) && At(OrOp, e, RIGHT) == Symb(b);
    assert JoinPair(OrOp, Symb(a), Symb(b)).None? && JoinPair(OrOp, Symb(b), Symb(a)).None?;
    Dups1Idle(OrOp, e, LEFT, LEFT);
    Dups1Idle(OrOp, e, LEFT, RIGHT);
    Dups1Idle(OrOp, e, RIGHT, LEFT);
    Dups1Idle(OrOp, e, RIGHT, RIGHT);
    Dups1Idle(OrOp, e, LEFT, []);
    Dups1Idle(OrOp, e, RIGHT, []);
    Dups1Idle(OrOp, e, [], []);
    Dups2Leaf(OrOp, e, LEFT, []);
    Dups2Leaf(OrOp, e, RIGHT, []);
    SameSpineRefl(OrOp, e);
    NextLocation(OrOp, e, e, [], false);
    NextLocation(OrOp, e, e, [], true);
  }

  /** No two operands join. */
  lemma NothingJoins(a: Symbol, b: Symbol)
    requires Two(a, b)
    ensures JoinPair(AndOp, Either(a, b), Not(Symb(a))).None? && JoinPair(AndOp, Either(a, b), Not(Symb(b))).None?
    ensures JoinPair(AndOp, Not(Symb(a)), Either(a, b)).None? && JoinPair(AndOp, Not(Symb(b)), Either(a, b)).None?
    ensures JoinPair(AndOp, Not(Symb(a)), Not(Symb(b))).None? && JoinPair(AndOp, Not(Symb(b)), Not(Symb(a))).None?
  {
    NegationsDiffer(a, b);
  }

  lemma FirstPassFrom(a: Symbol, b: Symbol, p: Path)
    requires Two(a, b) && (p == LEFT || p == FIRST || p == SECOND)
    ensures OnSpine(AndOp, Both(a, b), p) && OnSpine(AndOp, Both(a, b), []) && Dups1(AndOp, Both(a, b), p, []) == Rewrite(Both(a, b), 0)
  {
    hide JoinPair, Dups1, At, OnSpine;
    Places(AndOp, Either(a, b), Not(Symb(a)), Not(Symb(b)));
    NothingJoins(a, b);
    OrIsIdle(a, b);
    assert [] + [false] == LEFT && [] + [true] == RIGHT && RIGHT + [false] == FIRST && RIGHT + [true] == SECOND;
    Dups1Idle(AndOp, Both(a, b), p, FIRST);
    Dups1Idle(AndOp, Both(a, b), p, SECOND);
    Dups1Idle(AndOp, Both(a, b), p, RIGHT);
    Dups1Idle(AndOp, Both(a, b), p, LEFT);
    Dups1Idle(AndOp, Both(a, b), p, []);
  }

  lemma FirstPassIsIdle(a: Symbol, b: Symbol)
    requires Two(a, b)
    ensures Dups1(AndOp, Both(a, b), [], []) == Rewrite(Both(a, b), 0)
  {
    hide JoinPair, Dups1, At, OnSpine;
    Places(AndOp, Either(a, b), Not(Symb(a)), Not(Symb(b)));
    assert [] + [false] == LEFT && [] + [true] == RIGHT && RIGHT + [false] == FIRST && RIGHT + [true] == SECOND;
    FirstPassFrom(a, b, LEFT);
    FirstPassFrom(a, b, FIRST);
    FirstPassFrom(a, b, SECOND);
    Dups1Idle(AndOp, Both(a, b), RIGHT, []);
    Dups1Idle(AndOp, Both(a, b), [], []);
  }

  /** The second pass with the first pointer at a join of the other kind, when nothing below changes. */
  lemma Dups2AtJoin(op: Conn, root: Expr, p1: Path, p2: Path)
    requires OnSpine(op, root, p1) && OnSpine(op, root, p2) && p1 != p2
    requires !Is(op, At(op, root, p1)) && IsJoin(At(op, root, p1)) && Dups2Below(op, root, p1, p2) == Rewrite(root, 0)
    requires Dups2(OpOf(At(op, root, p1)), At(op, root, p1), [], []) == Rewrite(At(op, root, p1), 0)
    ensures Dups2(op, root, p1, p2) ==
            if ExtractEq(op, Transform(Not(At(op, root, p1))), At(op, root, p2)).fst == Unit(op)
            then Rewrite(Put(op, root, p1, Absorber(op)), 1) else Rewrite(root, 0)
  {
    PutThenAt(op, root, p1, root);
    hide ExtractEq, Transform, Put, SameSpine;
  }

  lemma Dups2BelowIdle(op: Conn, root: Expr, p1: Path, p2: Path)
    requires OnSpine(op, root, p1) && OnSpine(op, root, p2) && !Is(op, At(op, root, p1)) && p1 != p2
    requires Is(op, At(op, root, p2)) ==>
               OnSpine(op, root, p2 + [false]) && OnSpine(op, root, p2 + [true]) &&
               Dups2(op, root, p1, p2 + [false]) == Rewrite(root, 0) == Dups2(op, root, p1, p2 + [true])
    ensures Dups2Below(op, root, p1, p2) == Rewrite(root, 0)
  {
  }

  /** How the operands compare. */
  lemma NegationsDiffer(a: Symbol, b: Symbol)
    requires Two(a, b)
    ensures var x, y, yes := Not(Symb(a)), Not(Symb(b)), Unit(AndOp);
            ExprEq(x, x) && ExprEq(y, y) && !ExprEq(x, y) && !ExprEq(y, x) &&
            !ExprEq(x, yes) && !ExprEq(y, yes) && !ExprEq(yes, x) && !ExprEq(yes, y)
  {
    assert ExprEq(Symb(a), Symb(a)) && ExprEq(Symb(b), Symb(b));
    assert !ExprEq(Symb(a), Symb(b)) && !ExprEq(Symb(b), Symb(a));
  }

  lemma NegatedEither(a: Symbol, b: Symbol)
    requires Two(a, b)
    ensures Transform(Not(Either(a, b))) == Neither(a, b)
  {
    assert Normal(Not(Symb(a))) && Normal(Not(Symb(b)));
    NormalIsFixed(Neither(a, b));
    NormalIsFixed(Either(a, b));
  }

  /** What is left of !a && !b when it is compared with !a, with !b and with both. */
  lemma NegationCancels(a: Symbol, b: Symbol)
    requires Two(a, b)
    ensures ExtractEq(AndOp, Neither(a, b), Not(Symb(a))).fst != Unit(AndOp)
    ensures ExtractEq(AndOp, Neither(a, b), Not(Symb(b))).fst != Unit(AndOp)
    ensures ExtractEq(AndOp, Neither(a, b), Neither(a, b)).fst == Unit(AndOp)
  {
    hide ExprEq;
    NegationsDiffer(a, b);
    var x, y, yes := Not(Symb(a)), Not(Symb(b)), Unit(AndOp);
    assert EliminateYn(x) == x && EliminateYn(y) == y && EliminateYn(yes) == yes;
    assert EliminateYn(And(yes, y)) == y && EliminateYn(And(x, yes)) == x && EliminateYn(And(yes, yes)) == yes;
    assert Extract(AndOp, None, Neither(a, b), x) == Extraction(Some(x), And(yes, y), yes);
    assert Extract(AndOp, None, Neither(a, b), y) == Extraction(Some(y), And(x, yes), yes);
    assert Extract(AndOp, None, x, Neither(a, b)) == Extraction(Some(x), yes, And(yes, y));
    assert Extract(AndOp, Some(x), y, And(yes, y)) == Extraction(Some(And(x, y)), yes, And(yes, yes));
    assert Extract(AndOp, None, Neither(a, b), Neither(a, b)) == Extraction(Some(And(x, y)), And(yes, yes), And(yes, yes));
  }

  lemma SecondPassDrops(a: Symbol, b: Symbol)
    requires Two(a, b)
    ensures OnSpine(AndOp, Both(a, b), LEFT) && OnSpine(AndOp, Both(a, b), RIGHT) && Dups2(AndOp, Both(a, b), LEFT, RIGHT) == Rewrite(Dropped(a, b), 1)
  {
    hide ExtractEq, Transform, Dups2, Dups2Below, At, OnSpine, Put;
    Places(AndOp, Either(a, b), Not(Symb(a)), Not(Symb(b)));
    NegatedEither(a, b);
    NegationCancels(a, b);
    OrIsIdle(a, b);
    assert RIGHT + [false] == FIRST && RIGHT + [true] == SECOND;
    Dups2BelowIdle(AndOp, Both(a, b), LEFT, FIRST);
    Dups2BelowIdle(AndOp, Both(a, b), LEFT, SECOND);
    Dups2AtJoin(AndOp, Both(a, b), LEFT, FIRST);
    Dups2AtJoin(AndOp, Both(a, b), LEFT, SECOND);
    Dups2BelowIdle(AndOp, Both(a, b), LEFT, RIGHT);
    Dups2AtJoin(AndOp, Both(a, b), LEFT, RIGHT);
  }

  lemma SecondPassLeft(a: Symbol, b: Symbol)
    requires Two(a, b)
    ensures OnSpine(AndOp, Both(a, b), LEFT) && OnSpine(AndOp, Both(a, b), []) && Dups2(AndOp, Both(a, b), LEFT, []) == Rewrite(Dropped(a, b), 1)
  {
    SecondPassDrops(a, b);
    Places(AndOp, Either(a, b), Not(Symb(a)), Not(Symb(b)));
    Places(AndOp, Symb(SymNo), Not(Symb(a)), Not(Symb(b)));
    SameSpineRefl(AndOp, Both(a, b));
    NextLocation(AndOp, Both(a, b), Both(a, b), [], false);
    NextLocation(AndOp, Both(a, b), Both(a, b), [], true);
    assert [] + [false] == LEFT && [] + [true] == RIGHT;
    hide At, OnSpine, ExtractEq, Transform;
    assert Dups2(AndOp, Both(a, b), LEFT, LEFT) == Rewrite(Both(a, b), 0);
    assert Dups2Below(AndOp, Both(a, b), LEFT, []) == Rewrite(Dropped(a, b), 1);
  }

  lemma SecondPassRight(a: Symbol, b: Symbol)
    requires Two(a, b)
    ensures OnSpine(AndOp, Dropped(a, b), RIGHT) && OnSpine(AndOp, Dropped(a, b), []) && Dups2(AndOp, Dropped(a, b), RIGHT, []) == Rewrite(Dropped(a, b), 0)
  {
    Places(AndOp, Symb(SymNo), Not(Symb(a)), Not(Symb(b)));
    SameSpineRefl(AndOp, Dropped(a, b));
    assert RIGHT + [false] == FIRST && RIGHT + [true] == SECOND;
    hide At, OnSpine, ExtractEq, Transform;
    Dups2Leaf(AndOp, Dropped(a, b), FIRST, []);
    Dups2Leaf(AndOp, Dropped(a, b), SECOND, []);
  }

  lemma BothIsMod(a: Symbol, b: Symbol)
    requires Two(a, b)
    ensures Value(Both(a, b), AllMod()) == MOD
  {
    var v := AllMod();
    assert v.tri(a) == MOD && v.tri(b) == MOD;
    assert Value(Symb(a), v) == MOD && Value(Symb(b), v) == MOD;
    assert Value(Not(Symb(a)), v) == MOD && Value(Not(Symb(b)), v) == MOD;
    assert Value(Either(a, b), v) == MOD;
    assert Value(Neither(a, b), v) == MOD;
  }

  /** (a || b) && (!a && !b) is eliminated to n although it is `m` when a and b are. */
  lemma EliminateDupsLosesMod(a: Symbol, b: Symbol)
    requires Two(a, b)
    ensures Admissible(AllMod()) && Value(Both(a, b), AllMod()) == MOD
    ensures EliminateDups(Both(a, b)) == Symb(SymNo)
  {
    AllModIsAdmissible();
    BothIsMod(a, b);
    FirstPassIsIdle(a, b);
    SecondPassLeft(a, b);
    SecondPassRight(a, b);
    assert [] + [false] == LEFT && [] + [true] == RIGHT;
    hide ExtractEq, Transform, Dups1, Dups2Below, DropContradiction;
    assert Dups2(AndOp, Both(a, b), [], []) == Rewrite(Dropped(a, b), 1);
    assert EliminateYn(Dropped(a, b)) == Symb(SymNo);
    assert EliminateDups(Symb(SymNo)) == Symb(SymNo);
  }
}
