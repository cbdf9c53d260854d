/**
 Comparisons of whole expressions with `y` or `n`, pushed down to the symbols, and the
 replacement of `FOO != n` by `FOO`.
 */
module KconfigCompare {
  import opened KconfigExpr
  import opened KconfigTransform
  import opened KconfigDups

  function Comparison(equal: bool, l: Symbol, r: Symbol): Expr
  {
    if equal then Equal(l, r) else Unequal(l, r)
  }

  function NegateUnless(positive: bool, e: Expr): Expr { if positive then e else Not(e) }

  function TransCompare(e: Expr, equal: bool, k: Symbol): Expr
    requires IsYmn(k)
  {
    match e
    case And(l, r) =>
      var l', r' := TransCompare(l, true, k), TransCompare(r, true, k);
      NegateUnless(equal, if k == SymYes then And(l', r') else if k == SymNo then Or(l', r') else e)
    case Or(l, r) =>
      var l', r' := TransCompare(l, true, k), TransCompare(r, true, k);
      NegateUnless(equal, if k == SymYes then Or(l', r') else if k == SymNo then And(l', r') else e)
    case Not(a) => TransCompare(a, !equal, k)
    case Equal(_, _) =>
      if k == SymMod then Symb(if equal then SymNo else SymYes) else NegateUnless(equal == (k == SymYes), e)
    case Unequal(_, _) =>
      if k == SymMod then Symb(if equal then SymNo else SymYes) else NegateUnless(equal == (k == SymYes), e)
    case Symb(s) => Comparison(equal, s, k)
  }

  predicate NotFree(e: Expr)
  {
    match e
    case Not(_) => false
    case And(l, r) => NotFree(l) && NotFree(r)
    case Or(l, r) => NotFree(l) && NotFree(r)
    case _ => true
  }

  /** Every symbol used as an expression is y, m, n, a boolean or a tristate. */
  predicate TruthValued(e: Expr)
  {
    match e
    case Symb(s) => IsYmn(s) || IsBoolean(s) || IsTristate(s)
    case Not(a) => TruthValued(a)
    case And(l, r) => TruthValued(l) && TruthValued(r)
    case Or(l, r) => TruthValued(l) && TruthValued(r)
    case _ => true
  }

  function CompareValue(t: Tristate, equal: bool, k: Symbol, v: Valuation): Tristate
  {
    if (t == v.tri(k)) == equal then YES else NO
  }

  /** A comparison of one symbol compares strings; it compares the truth value as well exactly when
      the two agree about being `k`. */
  lemma SymbolIsRightIff(s: Symbol, equal: bool, k: Symbol, v: Valuation)
    requires Admissible(v) && IsYmn(k)
    ensures Value(TransCompare(Symb(s), equal, k), v) == CompareValue(v.tri(s), equal, k, v) <==>
            (v.str(s) == v.str(k) <==> v.tri(s) == v.tri(k))
  {
    assert TransCompare(Symb(s), equal, k) == Comparison(equal, s, k);
  }

  /** Every symbol used as an expression has the string of `k` exactly when it has its truth value. */
  ghost predicate Agrees(e: Expr, k: Symbol, v: Valuation)
  {
    match e
    case Symb(s) => v.str(s) == v.str(k) <==> v.tri(s) == v.tri(k)
    case Not(a) => Agrees(a, k, v)
    case And(l, r) => Agrees(l, k, v) && Agrees(r, k, v)
    case Or(l, r) => Agrees(l, k, v) && Agrees(r, k, v)
    case _ => true
  }

  lemma {:induction false} TruthValuesAgree(e: Expr, k: Symbol, v: Valuation)
    requires Admissible(v) && IsYmn(k) && TruthValued(e)
    ensures Agrees(e, k, v)
  {
    match e
    case Symb(s) => if !IsYmn(s) { TestValue(s, k, v); }
    case Not(a) => TruthValuesAgree(a, k, v);
    case And(l, r) => TruthValuesAgree(l, k, v); TruthValuesAgree(r, k, v);
    case Or(l, r) => TruthValuesAgree(l, k, v); TruthValuesAgree(r, k, v);
    case _ =>
  }

  /** What is not `k` counts as far from it: as `n` against `y`, and as `y` against `n`. */
  function AwayFrom(k: Symbol): Tristate { if k == SymYes then NO else YES }

  /** The value of the expression when every symbol with the string of `k` is taken for `k` and every
      other symbol, be it `m` or no truth value at all, for the opposite. */
  function Rounded(e: Expr, v: Valuation, k: Symbol): Tristate
  {
    match e
    case Symb(s) => if v.str(s) == v.str(k) then v.tri(k) else AwayFrom(k)
    case Not(a) => 2 - Rounded(a, v, k)
    case And(l, r) => MinOf(Rounded(l, v, k), Rounded(r, v, k))
    case Or(l, r) => MaxOf(Rounded(l, v, k), Rounded(r, v, k))
    case _ => Value(e, v)
  }

  lemma {:induction false} RoundedIsCrisp(e: Expr, v: Valuation, k: Symbol)
    requires Admissible(v) && (k == SymYes || k == SymNo)
    ensures Rounded(e, v, k) != MOD
  {
    match e
    case Not(a) => RoundedIsCrisp(a, v, k);
    case And(l, r) => RoundedIsCrisp(l, v, k); RoundedIsCrisp(r, v, k);
    case Or(l, r) => RoundedIsCrisp(l, v, k); RoundedIsCrisp(r, v, k);
    case _ =>
  }

  /** The pushed-down comparison is the comparison of the rounded value, for every expression and
      every admissible valuation. */
  lemma {:induction false} TransCompareRounds(e: Expr, equal: bool, k: Symbol, v: Valuation)
    requires Admissible(v) && (k == SymYes || k == SymNo)
    ensures Value(TransCompare(e, equal, k), v) == CompareValue(Rounded(e, v, k), equal, k, v)
  {
    match e
    case And(l, r) =>
      TransCompareRounds(l, true, k, v);
      TransCompareRounds(r, true, k, v);
      RoundedIsCrisp(l, v, k);
      RoundedIsCrisp(r, v, k);
    case Or(l, r) =>
      TransCompareRounds(l, true, k, v);
      TransCompareRounds(r, true, k, v);
      RoundedIsCrisp(l, v, k);
      RoundedIsCrisp(r, v, k);
    case Not(a) =>
      TransCompareRounds(a, !equal, k, v);
      RoundedIsCrisp(a, v, k);
    case _ =>
  }

  /** So it is the comparison of the value exactly when rounding does not decide it. */
  lemma TransCompareIsRightIff(e: Expr, equal: bool, k: Symbol, v: Valuation)
    requires Admissible(v) && (k == SymYes || k == SymNo)
    ensures Value(TransCompare(e, equal, k), v) == CompareValue(Value(e, v), equal, k, v) <==>
            (Rounded(e, v, k) == v.tri(k) <==> Value(e, v) == v.tri(k))
  {
    TransCompareRounds(e, equal, k, v);
  }

  /** Where strings and truth values agree, rounding decides nothing without negations, or without `m`. */
  lemma {:induction false} RoundingIsHarmless(e: Expr, k: Symbol, v: Valuation)
    requires Admissible(v) && (k == SymYes || k == SymNo) && Agrees(e, k, v) && (NotFree(e) || Crisp(e, v))
    ensures Rounded(e, v, k) == v.tri(k) <==> Value(e, v) == v.tri(k)
    ensures Crisp(e, v) ==> Rounded(e, v, k) == Value(e, v)
  {
    match e
    case And(l, r) => RoundingIsHarmless(l, k, v); RoundingIsHarmless(r, k, v);
    case Or(l, r) => RoundingIsHarmless(l, k, v); RoundingIsHarmless(r, k, v);
    case Not(a) => RoundingIsHarmless(a, k, v);
    case _ =>
  }

  /** There the pushed-down comparison is the comparison of the value, unless a negation meets an `m`. */
  lemma TransCompareIsComparison(e: Expr, equal: bool, k: Symbol, v: Valuation)
    requires Admissible(v) && (k == SymYes || k == SymNo) && Agrees(e, k, v)
    requires NotFree(e) || Crisp(e, v)
    ensures Value(TransCompare(e, equal, k), v) == CompareValue(Value(e, v), equal, k, v)
  {
    RoundingIsHarmless(e, k, v);
    TransCompareIsRightIff(e, equal, k, v);
  }

  /** Over a negation of such an expression: right exactly when what is negated is not `m`. */
  lemma TransCompareOfNot(a: Expr, equal: bool, k: Symbol, v: Valuation)
    requires Admissible(v) && (k == SymYes || k == SymNo) && Agrees(a, k, v) && NotFree(a)
    ensures Value(TransCompare(Not(a), equal, k), v) == CompareValue(Value(Not(a), v), equal, k, v)
            <==> Value(a, v) != MOD
  {
    TransCompareIsComparison(a, !equal, k, v);
  }

  /** All declared symbols are `n`, and the one without a type has its name for a string. */
  function OneUndeclared(id: nat, name: string): Valuation
  {
    AllNo().(str := s => if s == Declared(id, UnknownType) then name else AllNo().str(s))
  }

  lemma OneUndeclaredIsAdmissible(id: nat, name: string)
    ensures Admissible(OneUndeclared(id, name))
  {
    AllNoIsAdmissible();
  }

  /** A symbol that is used and never declared is `n` and has its name for a string, so the question
      whether it differs from `n` is answered `y`, with neither a negation nor an `m` in it. */
  lemma UndeclaredIsMisread(id: nat, name: string)
    requires name != "n"
    ensures var e, v := Symb(Declared(id, UnknownType)), OneUndeclared(id, name);
            Admissible(v) && NotFree(e) && Crisp(e, v) && !Agrees(e, SymNo, v) &&
            Value(e, v) == NO && CompareValue(Value(e, v), false, SymNo, v) == NO &&
            Value(TransCompare(e, false, SymNo), v) == YES
  {
    OneUndeclaredIsAdmissible(id, name);
    TransCompareRounds(Symb(Declared(id, UnknownType)), false, SymNo, OneUndeclared(id, name));
  }

  // ---------------------------------------------------------------- against m

  /** Against `m` every negation turns the question around, although `!e` is `m` exactly when `e` is.
      A conjunction or a disjunction then answers for itself, a test of two symbols is never `m`, and a
      symbol is compared by its string. */
  ghost predicate RightAgainstMod(e: Expr, turned: bool, v: Valuation)
  {
    match e
    case Symb(s) => turned != (v.str(s) == v.str(SymMod) <==> v.tri(s) == MOD)
    case Not(a) => RightAgainstMod(a, !turned, v)
    case And(_, _) => Value(e, v) == (if turned then YES else NO)
    case Or(_, _) => Value(e, v) == (if turned then YES else NO)
    case _ => !turned
  }

  lemma {:induction false} TurnedModIsRightIff(e: Expr, equal: bool, turned: bool, v: Valuation)
    requires Admissible(v)
    ensures Value(TransCompare(e, equal != turned, SymMod), v) == CompareValue(Value(e, v), equal, SymMod, v) <==>
            RightAgainstMod(e, turned, v)
  {
    if e.Not? {
      TurnedModIsRightIff(e.arg, equal, !turned, v);
    }
  }

  /** When the comparison with `m` is the comparison of the value. */
  lemma TransCompareModIsRightIff(e: Expr, equal: bool, v: Valuation)
    requires Admissible(v)
    ensures Value(TransCompare(e, equal, SymMod), v) == CompareValue(Value(e, v), equal, SymMod, v) <==> RightAgainstMod(e, false, v)
  {
    TurnedModIsRightIff(e, equal, false, v);
  }

  // ---------------------------------------------------------------- FOO != n

  function TransBool(e: Expr): Expr
  {
    match e
    case And(l, r) => And(TransBool(l), TransBool(r))
    case Or(l, r) => Or(TransBool(l), TransBool(r))
    case Not(a) => Not(TransBool(a))
    case Unequal(s, SymNo) => if IsTristate(s) then Symb(s) else e
    case _ => e
  }

  /** On a normalised expression the result is `n` exactly when the expression is. */
  lemma {:induction false} TransBoolKeepsNo(e: Expr, v: Valuation)
    requires Admissible(v) && Normal(e)
    ensures Value(TransBool(e), v) == NO <==> Value(e, v) == NO
  {
    match e
    case And(l, r) => TransBoolKeepsNo(l, v); TransBoolKeepsNo(r, v);
    case Or(l, r) => TransBoolKeepsNo(l, v); TransBoolKeepsNo(r, v);
    case Unequal(s, k) =>
      if k == SymNo && IsTristate(s) {
        TestValue(s, SymNo, v);
      }
    case _ =>
  }

  lemma TransBoolAfterTransform(e: Expr, v: Valuation)
    requires Admissible(v)
    ensures Value(TransBool(Transform(e)), v) == NO <==> Value(e, v) == NO
  {
    TransformIsNormal(e);
    TransformKeepsValue(e, v);
    TransBoolKeepsNo(Transform(e), v);
  }

  /** Somewhere a tristate symbol is tested against `n`. */
  predicate TestsAgainstNo(e: Expr)
  {
    match e
    case And(l, r) => TestsAgainstNo(l) || TestsAgainstNo(r)
    case Or(l, r) => TestsAgainstNo(l) || TestsAgainstNo(r)
    case Not(a) => TestsAgainstNo(a)
    case Unequal(s, k) => IsTristate(s) && k == SymNo
    case _ => false
  }

  /** All such tests are replaced, and where there is none nothing changes. */
  lemma {:induction false} TransBoolReplacesAll(e: Expr)
    ensures !TestsAgainstNo(TransBool(e)) && (TransBool(e) == e <==> !TestsAgainstNo(e)) && Size(TransBool(e)) == Size(e)
  {
    match e
    case And(l, r) => TransBoolReplacesAll(l); TransBoolReplacesAll(r);
    case Or(l, r) => TransBoolReplacesAll(l); TransBoolReplacesAll(r);
    case Not(a) => TransBoolReplacesAll(a);
    case _ =>
  }

  // ---------------------------------------------------------------- order

  /** The symbols that are used or tested, from left to right. */
  function Mentioned(e: Expr): seq<Symbol>
  {
    match e
    case And(l, r) => Mentioned(l) + Mentioned(r)
    case Or(l, r) => Mentioned(l) + Mentioned(r)
    case Not(a) => Mentioned(a)
    case Symb(s) => [s]
    case Equal(s, _) => [s]
    case Unequal(s, _) => [s]
  }

  /** Comparing with `y` or `n`, and replacing tests against `n`, keep all symbols in their order. */
  lemma {:induction false} OrderIsKept(e: Expr, equal: bool, k: Symbol)
    requires k == SymYes || k == SymNo
    ensures Mentioned(TransCompare(e, equal, k)) == Mentioned(e) && Mentioned(TransBool(e)) == Mentioned(e)
  {
    match e
    case And(l, r) => OrderIsKept(l, true, k); OrderIsKept(r, true, k);
    case Or(l, r) => OrderIsKept(l, true, k); OrderIsKept(r, true, k);
    case Not(a) => OrderIsKept(a, !equal, k);
    case _ =>
  }
}
