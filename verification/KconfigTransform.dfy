/**
 The normaliser for dependency expressions: comparisons of booleans become the symbol
 or its negation, and negations move inward until they meet symbols.
 */
module KconfigTransform {
  import opened KconfigExpr

  /** Pushing a negation through a join must count as progress. */
  function Weight(e: Expr): nat
  {
    match e
    case Symb(_) => 1
    case Not(a) => 2 * Weight(a)
    case And(l, r) => 1 + Weight(l) + Weight(r)
    case Or(l, r) => 1 + Weight(l) + Weight(r)
    case Equal(_, _) => 2
    case Unequal(_, _) => 2
  }

  lemma WeightIsPositive(e: Expr)
    ensures Weight(e) >= 1
  {
  }

  lemma DeMorganWeight(x: Expr, y: Expr)
    ensures Weight(And(Not(x), Not(y))) == Weight(Or(Not(x), Not(y))) == 1 + 2 * Weight(x) + 2 * Weight(y)
  {
    assert Weight(Not(x)) == 2 * Weight(x) && Weight(Not(y)) == 2 * Weight(y);
  }

  function TransformComparison(e: Expr): Expr
    requires e.Equal? || e.Unequal?
  {
    if !IsBoolean(e.lsym) then e
    else if e.Equal? then
      match e.rsym
      case SymNo => Not(Symb(e.lsym))
      case SymMod => Symb(SymNo)
      case SymYes => Symb(e.lsym)
      case _ => e
    else
      match e.rsym
      case SymNo => Symb(e.lsym)
      case SymMod => Symb(SymYes)
      case SymYes => Not(Symb(e.lsym))
      case _ => e
  }

  function Transform(e: Expr): (r: Expr)
    ensures Weight(r) <= Weight(e)
    decreases Weight(e)
  {
    match e
    case Symb(_) => e
    case Equal(_, _) => TransformComparison(e)
    case Unequal(_, _) => TransformComparison(e)
    case And(l, r) => And(Transform(l), Transform(r))
    case Or(l, r) => Or(Transform(l), Transform(r))
    case Not(a) =>
      WeightIsPositive(a);
      match Transform(a)
      case Not(b) => WeightIsPositive(b); Transform(b)
      case Equal(x, y) => Unequal(x, y)
      case Unequal(x, y) => Equal(x, y)
      case Or(x, y) => DeMorganWeight(x, y); Transform(And(Not(x), Not(y)))
      case And(x, y) => DeMorganWeight(x, y); Transform(Or(Not(x), Not(y)))
      case Symb(SymYes) => Symb(SymNo)
      case Symb(SymMod) => Symb(SymMod)
      case Symb(SymNo) => Symb(SymYes)
      case Symb(s) => Not(Symb(s))
  }

  lemma TransformComparisonKeepsValue(e: Expr, v: Valuation)
    requires Admissible(v) && (e.Equal? || e.Unequal?)
    ensures Value(TransformComparison(e), v) == Value(e, v)
  {
    if IsBoolean(e.lsym) {
      assert v.str(e.lsym) == TristateName(v.tri(e.lsym));
    }
  }

  lemma {:induction false} TransformKeepsValue(e: Expr, v: Valuation)
    requires Admissible(v)
    ensures Value(Transform(e), v) == Value(e, v)
    decreases Weight(e)
  {
    match e
    case Symb(_) =>
    case Equal(_, _) => TransformComparisonKeepsValue(e, v);
    case Unequal(_, _) => TransformComparisonKeepsValue(e, v);
    case And(l, r) => TransformKeepsValue(l, v); TransformKeepsValue(r, v);
    case Or(l, r) => TransformKeepsValue(l, v); TransformKeepsValue(r, v);
    case Not(a) =>
      WeightIsPositive(a);
      TransformKeepsValue(a, v);
      match Transform(a)
      case Not(b) => WeightIsPositive(b); TransformKeepsValue(b, v);
      case Or(x, y) => DeMorganWeight(x, y); TransformKeepsValue(And(Not(x), Not(y)), v);
      case And(x, y) => DeMorganWeight(x, y); TransformKeepsValue(Or(Not(x), Not(y)), v);
      case _ =>
  }

  predicate Untransformable(e: Expr)
    requires e.Equal? || e.Unequal?
  {
    !(IsBoolean(e.lsym) && IsYmn(e.rsym))
  }

  /** Negation stands over symbols other than y, m and n only, and no boolean is compared with y, m or n. */
  predicate Normal(e: Expr)
  {
    match e
    case Symb(_) => true
    case Not(a) => a.Symb? && !IsYmn(a.sym)
    case And(l, r) => Normal(l) && Normal(r)
    case Or(l, r) => Normal(l) && Normal(r)
    case Equal(_, _) => Untransformable(e)
    case Unequal(_, _) => Untransformable(e)
  }

  lemma {:induction false} TransformIsNormal(e: Expr)
    ensures Normal(Transform(e))
    decreases Weight(e)
  {
    match e
    case Symb(_) =>
    case Equal(_, _) =>
    case Unequal(_, _) =>
    case And(l, r) => TransformIsNormal(l); TransformIsNormal(r);
    case Or(l, r) => TransformIsNormal(l); TransformIsNormal(r);
    case Not(a) =>
      WeightIsPositive(a);
      TransformIsNormal(a);
      match Transform(a)
      case Not(b) => WeightIsPositive(b); TransformIsNormal(b);
      case Or(x, y) => DeMorganWeight(x, y); TransformIsNormal(And(Not(x), Not(y)));
      case And(x, y) => DeMorganWeight(x, y); TransformIsNormal(Or(Not(x), Not(y)));
      case _ =>
  }

  /** No constant is negated. */
  predicate NegatesNoConstant(e: Expr)
  {
    match e
    case Not(a) => a.Symb? && !IsConst(a.sym)
    case And(l, r) => NegatesNoConstant(l) && NegatesNoConstant(r)
    case Or(l, r) => NegatesNoConstant(l) && NegatesNoConstant(r)
    case _ => true
  }

  /** No quoted constant stands under an odd number of negations (under an even number, if there is one
      around the expression already). */
  predicate NoQuotedNegated(e: Expr, negated: bool)
  {
    match e
    case Symb(s) => !(negated && s.Quoted?)
    case Not(a) => NoQuotedNegated(a, !negated)
    case And(l, r) => NoQuotedNegated(l, negated) && NoQuotedNegated(r, negated)
    case Or(l, r) => NoQuotedNegated(l, negated) && NoQuotedNegated(r, negated)
    case _ => true
  }

  lemma {:induction false} TransformKeepsParity(e: Expr, negated: bool)
    ensures NoQuotedNegated(Transform(e), negated) == NoQuotedNegated(e, negated)
    decreases Weight(e)
  {
    match e
    case Symb(_) =>
    case Equal(_, _) =>
    case Unequal(_, _) =>
    case And(l, r) => TransformKeepsParity(l, negated); TransformKeepsParity(r, negated);
    case Or(l, r) => TransformKeepsParity(l, negated); TransformKeepsParity(r, negated);
    case Not(a) =>
      WeightIsPositive(a);
      TransformKeepsParity(a, !negated);
      match Transform(a)
      case Not(b) => WeightIsPositive(b); TransformKeepsParity(b, negated);
      case Or(x, y) => DeMorganWeight(x, y); TransformKeepsParity(And(Not(x), Not(y)), negated);
      case And(x, y) => DeMorganWeight(x, y); TransformKeepsParity(Or(Not(x), Not(y)), negated);
      case _ =>
  }

  lemma {:induction false} NormalNegations(e: Expr)
    requires Normal(e)
    ensures NegatesNoConstant(e) <==> NoQuotedNegated(e, false)
  {
    match e
    case And(l, r) => NormalNegations(l); NormalNegations(r);
    case Or(l, r) => NormalNegations(l); NormalNegations(r);
    case _ =>
  }

  /** The result negates no constant exactly when no quoted constant was under an odd number of negations. */
  lemma NoConstantNegatedIff(e: Expr)
    ensures NegatesNoConstant(Transform(e)) <==> NoQuotedNegated(e, false)
  {
    TransformIsNormal(e);
    NormalNegations(Transform(e));
    TransformKeepsParity(e, false);
  }

  /** A negated string stays as it is. */
  lemma QuotedStaysNegated(text: nat)
    ensures var e := Not(Symb(Quoted(text))); Transform(e) == e && !NegatesNoConstant(e)
  {
  }

  lemma {:induction false} NormalIsFixed(e: Expr)
    requires Normal(e)
    ensures Transform(e) == e
  {
    match e
    case And(l, r) => NormalIsFixed(l); NormalIsFixed(r);
    case Or(l, r) => NormalIsFixed(l); NormalIsFixed(r);
    case _ =>
  }

  lemma TransformIsIdempotent(e: Expr)
    ensures Transform(Transform(e)) == Transform(e)
  {
    TransformIsNormal(e);
    NormalIsFixed(Transform(e));
  }
}
