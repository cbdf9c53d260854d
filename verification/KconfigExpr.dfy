/**
 Kconfig dependency expressions over three truth values: the expression trees, the
 valuations under which they are compared, and their evaluator.
 */
module KconfigExpr {

  /** no < mod < yes. */
  type Tristate = t: nat | t <= 2
  const NO: Tristate := 0
  const MOD: Tristate := 1
  const YES: Tristate := 2

  function MinOf(a: Tristate, b: Tristate): Tristate { if a < b then a else b }
  function MaxOf(a: Tristate, b: Tristate): Tristate { if a > b then a else b }

  datatype SymbolType = UnknownType | Boolean | TristateType | IntType | HexType | StringType | OtherType

  /** Symbols are compared by identity. Constants (y, m, n and quoted strings) have no type. */
  datatype Symbol = SymYes | SymMod | SymNo | Quoted(text: nat) | Declared(id: nat, kind: SymbolType)

  predicate IsConst(s: Symbol) { !s.Declared? }
  predicate IsYmn(s: Symbol) { s.SymYes? || s.SymMod? || s.SymNo? }
  predicate IsBoolean(s: Symbol) { s.Declared? && s.kind == Boolean }
  predicate IsTristate(s: Symbol) { s.Declared? && s.kind == TristateType }

  datatype Expr =
    | Symb(sym: Symbol)
    | Not(arg: Expr)
    | And(left: Expr, right: Expr)
    | Or(left: Expr, right: Expr)
    | Equal(lsym: Symbol, rsym: Symbol)
    | Unequal(lsym: Symbol, rsym: Symbol)

  /** The two connectives that join subexpressions. */
  datatype Conn = AndOp | OrOp

  predicate Is(op: Conn, e: Expr) { if op.AndOp? then e.And? else e.Or? }
  predicate IsJoin(e: Expr) { e.And? || e.Or? }

  function OpOf(e: Expr): Conn
    requires IsJoin(e)
  {
    if e.And? then AndOp else OrOp
  }

  function Join(op: Conn, l: Expr, r: Expr): Expr { if op.AndOp? then And(l, r) else Or(l, r) }

  /** The constant that a connective absorbs: y for &&, n for ||. */
  function Unit(op: Conn): Expr { Symb(if op.AndOp? then SymYes else SymNo) }

  function Combine(op: Conn, a: Tristate, b: Tristate): Tristate
  {
    if op.AndOp? then MinOf(a, b) else MaxOf(a, b)
  }

  lemma CombineShuffle(op: Conn, a: Tristate, b: Tristate, c: Tristate, d: Tristate)
    ensures Combine(op, Combine(op, a, c), Combine(op, b, d)) == Combine(op, Combine(op, a, b), Combine(op, c, d))
    ensures Combine(op, Combine(op, a, b), c) == Combine(op, a, Combine(op, b, c))
    ensures Combine(op, a, b) == Combine(op, b, a)
  {
  }

  function Size(e: Expr): nat
  {
    match e
    case Not(a) => 1 + Size(a)
    case And(l, r) => 1 + Size(l) + Size(r)
    case Or(l, r) => 1 + Size(l) + Size(r)
    case _ => 1
  }

  // ---------------------------------------------------------------- evaluation

  /** What `sym_calc_value` leaves in each symbol: a tristate and a string. */
  datatype Valuation = Valuation(tri: Symbol -> Tristate, str: Symbol -> string)

  function TristateName(t: Tristate): string
  {
    if t == YES then "y" else if t == MOD then "m" else "n"
  }

  /** Constants have their own values, booleans are never `m`, the string of a boolean or
      tristate symbol names its value, and different constants have different strings. */
  ghost predicate Admissible(v: Valuation)
  {
    v.tri(SymYes) == YES && v.tri(SymMod) == MOD && v.tri(SymNo) == NO &&
    v.str(SymYes) == "y" && v.str(SymMod) == "m" && v.str(SymNo) == "n" &&
    (forall s :: IsBoolean(s) ==> v.tri(s) != MOD) &&
    (forall s :: IsBoolean(s) || IsTristate(s) ==> v.str(s) == TristateName(v.tri(s))) &&
    (forall s, s' :: IsConst(s) && IsConst(s') && s != s' ==> v.str(s) != v.str(s'))
  }

  /** All declared symbols are `n`. */
  function AllNo(): Valuation
  {
    Valuation(s => if s == SymYes then YES else if s == SymMod then MOD else NO,
              (s: Symbol) => match s
                case SymYes => "y"
                case SymMod => "m"
                case Quoted(text) => seq(text + 2, _ => '#')
                case _ => "n")
  }

  lemma AllNoIsAdmissible()
    ensures Admissible(AllNo())
  {
    var v := AllNo();
    forall s, s' | IsConst(s) && IsConst(s') && s != s' ensures v.str(s) != v.str(s') {
      assert s.Quoted? ==> |v.str(s)| == s.text + 2;
      assert s'.Quoted? ==> |v.str(s')| == s'.text + 2;
    }
  }

  function Value(e: Expr, v: Valuation): Tristate
  {
    match e
    case Symb(s) => v.tri(s)
    case And(l, r) => MinOf(Value(l, v), Value(r, v))
    case Or(l, r) => MaxOf(Value(l, v), Value(r, v))
    case Not(a) => 2 - Value(a, v)
    case Equal(a, b) => if v.str(a) == v.str(b) then YES else NO
    case Unequal(a, b) => if v.str(a) == v.str(b) then NO else YES
  }

  lemma JoinValue(op: Conn, e: Expr, v: Valuation)
    requires Is(op, e)
    ensures Value(e, v) == Combine(op, Value(e.left, v), Value(e.right, v))
    ensures Join(op, e.left, e.right) == e
  {
  }

  /** No symbol tested by the expression evaluates to `m`. */
  ghost predicate Crisp(e: Expr, v: Valuation)
  {
    match e
    case Symb(s) => v.tri(s) != MOD
    case Not(a) => Crisp(a, v)
    case And(l, r) => Crisp(l, v) && Crisp(r, v)
    case Or(l, r) => Crisp(l, v) && Crisp(r, v)
    case _ => true
  }

  lemma {:induction false} CrispValue(e: Expr, v: Valuation)
    requires Crisp(e, v)
    ensures Value(e, v) != MOD
  {
    match e
    case Not(a) => CrispValue(a, v);
    case And(l, r) => CrispValue(l, v); CrispValue(r, v);
    case Or(l, r) => CrispValue(l, v); CrispValue(r, v);
    case _ =>
  }
}
