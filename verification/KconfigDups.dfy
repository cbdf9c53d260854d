/**
 Removal of duplicate, contradictory and redundant operands. Both passes walk one tree
 with two pointers into it, compare every operand with every other, and overwrite
 operands in place while they go.
 */
module KconfigDups {
  import opened Options
  import opened KconfigExpr
  import opened KconfigSpine
  import opened KconfigEq
  import opened KconfigTransform

  // ---------------------------------------------------------------- joining two operands

  function TestedSymbol(e: Expr): Option<Symbol>
  {
    match e
    case Symb(s) => Some(s)
    case Equal(s, _) => Some(s)
    case Unequal(s, _) => Some(s)
    case _ => None
  }

  /** The symbol of the first operand; a negated comparison has one too. */
  function FirstSymbol(e: Expr): Option<Symbol>
  {
    if e.Not? then TestedSymbol(e.arg) else TestedSymbol(e)
  }

  /** The symbol of the second operand; only a negated symbol has one. */
  function SecondSymbol(e: Expr): Option<Symbol>
  {
    if e.Not? then (if e.arg.Symb? then Some(e.arg.sym) else None) else TestedSymbol(e)
  }

  function SharedSymbol(e1: Expr, e2: Expr): Option<Symbol>
  {
    match (FirstSymbol(e1), SecondSymbol(e2))
    case (Some(s1), Some(s2)) => if s1 == s2 && (IsBoolean(s1) || IsTristate(s1)) then Some(s1) else None
    case _ => None
  }

  predicate OneEach(a: Symbol, b: Symbol, x: Symbol, y: Symbol)
  {
    (a == x && b == y) || (a == y && b == x)
  }

  /** One operand is the bare symbol, the other compares it with `k`. */
  predicate SymbolAndTest(e1: Expr, e2: Expr, equal: bool, k: Symbol)
  {
    (e1.Symb? && Tests(e2, equal, k)) || (e2.Symb? && Tests(e1, equal, k))
  }

  predicate Tests(e: Expr, equal: bool, k: Symbol)
  {
    (if equal then e.Equal? else e.Unequal?) && e.rsym == k
  }

  function JoinOr(e1: Expr, e2: Expr): Option<Expr>
  {
    if ExprEq(e1, e2) then Some(e1)
    else match SharedSymbol(e1, e2)
      case None => None
      case Some(s) =>
        if IsTristate(s) && e1.Equal? && e2.Equal? then
          if OneEach(e1.rsym, e2.rsym, SymYes, SymMod) then Some(Unequal(s, SymNo))
          else if OneEach(e1.rsym, e2.rsym, SymYes, SymNo) then Some(Unequal(s, SymMod))
          else if OneEach(e1.rsym, e2.rsym, SymMod, SymNo) then Some(Unequal(s, SymYes))
          else None
        else if IsBoolean(s) && ((e1.Not? && e1.arg.Symb? && e2.Symb?) || (e2.Not? && e2.arg.Symb? && e1.Symb?)) then
          Some(Symb(SymYes))
        else None
  }

  function JoinEqualUnequal(s: Symbol, b: Symbol, c: Symbol): Option<Expr>
  {
    if !IsConst(b) || !IsConst(c) then None
    else if b != c then Some(Equal(s, b)) else Some(Symb(SymNo))
  }

  function JoinAnd(e1: Expr, e2: Expr): Option<Expr>
  {
    if ExprEq(e1, e2) then Some(e1)
    else match SharedSymbol(e1, e2)
      case None => None
      case Some(s) =>
        if SymbolAndTest(e1, e2, true, SymYes) then Some(Equal(s, SymYes))
        else if SymbolAndTest(e1, e2, false, SymNo) then Some(Symb(s))
        else if SymbolAndTest(e1, e2, false, SymMod) then Some(Equal(s, SymYes))
        else if !IsTristate(s) then None
        else if e1.Equal? && e2.Unequal? then JoinEqualUnequal(s, e1.rsym, e2.rsym)
        else if e1.Unequal? && e2.Equal? then JoinEqualUnequal(s, e2.rsym, e1.rsym)
        else if e1.Unequal? && e2.Unequal? then
          if OneEach(e1.rsym, e2.rsym, SymYes, SymNo) then Some(Equal(s, SymMod))
          else if OneEach(e1.rsym, e2.rsym, SymYes, SymMod) then Some(Equal(s, SymNo))
          else if OneEach(e1.rsym, e2.rsym, SymMod, SymNo) then Some(Equal(s, SymYes))
          else None
        else None
  }

  function JoinPair(op: Conn, e1: Expr, e2: Expr): Option<Expr>
  {
    if op.AndOp? then JoinAnd(e1, e2) else JoinOr(e1, e2)
  }

  lemma TestValue(s: Symbol, k: Symbol, v: Valuation)
    requires Admissible(v) && (IsBoolean(s) || IsTristate(s)) && IsYmn(k)
    ensures v.str(s) == v.str(k) <==> v.tri(s) == v.tri(k)
  {
    assert v.str(s) == TristateName(v.tri(s));
  }

  lemma JoinOrKeepsValue(e1: Expr, e2: Expr, v: Valuation)
    requires Admissible(v) && JoinOr(e1, e2).Some?
    ensures Value(JoinOr(e1, e2).value, v) == MaxOf(Value(e1, v), Value(e2, v))
  {
    if ExprEq(e1, e2) {
      ExprEqIsSound(e1, e2, v);
    } else {
      var s := SharedSymbol(e1, e2).value;
      TestValue(s, SymYes, v);
      TestValue(s, SymMod, v);
      TestValue(s, SymNo, v);
    }
  }

  lemma JoinAndKeepsValue(e1: Expr, e2: Expr, v: Valuation)
    requires Admissible(v) && JoinAnd(e1, e2).Some?
    ensures Value(JoinAnd(e1, e2).value, v) == MinOf(Value(e1, v), Value(e2, v))
  {
    if ExprEq(e1, e2) {
      ExprEqIsSound(e1, e2, v);
    } else {
      var s := SharedSymbol(e1, e2).value;
      TestValue(s, SymYes, v);
      TestValue(s, SymMod, v);
      TestValue(s, SymNo, v);
    }
  }

  lemma JoinPairKeepsValue(op: Conn, e1: Expr, e2: Expr, v: Valuation)
    requires Admissible(v) && JoinPair(op, e1, e2).Some?
    ensures Value(JoinPair(op, e1, e2).value, v) == Combine(op, Value(e1, v), Value(e2, v))
  {
    if op.AndOp? {
      JoinAndKeepsValue(e1, e2, v);
    } else {
      JoinOrKeepsValue(e1, e2, v);
    }
  }

  lemma JoinPairShape(op: Conn, e1: Expr, e2: Expr)
    requires JoinPair(op, e1, e2).Some?
    ensures var t := JoinPair(op, e1, e2).value; t == e1 || (!IsJoin(t) && Size(t) == 1)
  {
  }

  // ---------------------------------------------------------------- extracting common operands

  datatype Extraction = Extraction(common: Option<Expr>, fst: Expr, snd: Expr)

  function Collect(op: Conn, acc: Option<Expr>, e: Expr): Option<Expr>
  {
    Some(if acc.None? then e else Join(op, acc.value, e))
  }

  /** Moves operands common to two `op` lists out of both. */
  function Extract(op: Conn, acc: Option<Expr>, e1: Expr, e2: Expr): (x: Extraction)
    ensures SameSpine(op, e1, x.fst) && SameSpine(op, e2, x.snd)
    decreases Joins(op, e1) + Joins(op, e2)
  {
    if Is(op, e1) then
      var x := Extract(op, acc, e1.left, e2);
      SameSpineJoins(op, e2, x.snd);
      var y := Extract(op, x.common, e1.right, x.snd);
      SameSpineTransitive(op, e2, x.snd, y.snd);
      Extraction(y.common, Join(op, x.fst, y.fst), y.snd)
    else if Is(op, e2) then
      var x := Extract(op, acc, e1, e2.left);
      SameSpineJoins(op, e1, x.fst);
      var y := Extract(op, x.common, x.fst, e2.right);
      SameSpineTransitive(op, e1, x.fst, y.fst);
      Extraction(y.common, y.fst, Join(op, x.snd, y.snd))
    else if ExprEq(e1, e2) then Extraction(Collect(op, acc, e1), Unit(op), Unit(op))
    else Extraction(acc, e1, e2)
  }

  /** `expr_extract_eq_and` and `expr_extract_eq_or`. */
  function ExtractEq(op: Conn, e1: Expr, e2: Expr): Extraction
  {
    var x := Extract(op, None, e1, e2);
    if x.common.None? then x else Extraction(x.common, EliminateYn(x.fst), EliminateYn(x.snd))
  }

  function CommonValue(op: Conn, common: Option<Expr>, v: Valuation): Tristate
  {
    if common.None? then Neutral(op) else Value(common.value, v)
  }

  lemma {:induction false} ExtractKeepsValue(op: Conn, acc: Option<Expr>, e1: Expr, e2: Expr, v: Valuation)
    returns (c: Tristate)
    requires Admissible(v)
    ensures var x := Extract(op, acc, e1, e2);
            CommonPart(op, e1, e2, Pair(x.fst, x.snd), v, c) &&
            CommonValue(op, x.common, v) == Combine(op, CommonValue(op, acc, v), c)
    decreases Joins(op, e1) + Joins(op, e2)
  {
    if Is(op, e1) {
      var x := Extract(op, acc, e1.left, e2);
      var y := Extract(op, x.common, e1.right, x.snd);
      SameSpineJoins(op, e2, x.snd);
      var c1 := ExtractKeepsValue(op, acc, e1.left, e2, v);
      var c2 := ExtractKeepsValue(op, x.common, e1.right, x.snd, v);
      c := Combine(op, c1, c2);
      JoinValue(op, e1, v);
      JoinValue(op, Join(op, x.fst, y.fst), v);
      hide Value, Combine, CommonValue;
      CombineShuffle(op, Value(x.fst, v), Value(y.fst, v), c1, c2);
      CombineShuffle(op, Value(y.snd, v), c2, c1, c1);
      CombineShuffle(op, c1, c2, c1, c1);
      CombineShuffle(op, CommonValue(op, acc, v), c1, c2, c2);
    } else if Is(op, e2) {
      var x := Extract(op, acc, e1, e2.left);
      var y := Extract(op, x.common, x.fst, e2.right);
      SameSpineJoins(op, e1, x.fst);
      var c1 := ExtractKeepsValue(op, acc, e1, e2.left, v);
      var c2 := ExtractKeepsValue(op, x.common, x.fst, e2.right, v);
      c := Combine(op, c1, c2);
      JoinValue(op, e2, v);
      JoinValue(op, Join(op, x.snd, y.snd), v);
      hide Value, Combine, CommonValue;
      CombineShuffle(op, Value(x.snd, v), Value(y.snd, v), c1, c2);
      CombineShuffle(op, Value(y.fst, v), c2, c1, c1);
      CombineShuffle(op, c1, c2, c1, c1);
      CombineShuffle(op, CommonValue(op, acc, v), c1, c2, c2);
    } else if ExprEq(e1, e2) {
      ExprEqIsSound(e1, e2, v);
      c := Value(e1, v);
    } else {
      c := Neutral(op);
    }
  }

  /** Each expression is its remainder joined with the common part (none counts as the unit). */
  lemma ExtractEqSplits(op: Conn, e1: Expr, e2: Expr, v: Valuation)
    requires Admissible(v)
    ensures var x := ExtractEq(op, e1, e2);
            CommonPart(op, e1, e2, Pair(x.fst, x.snd), v, CommonValue(op, x.common, v))
  {
    var x := Extract(op, None, e1, e2);
    var c := ExtractKeepsValue(op, None, e1, e2, v);
    assert Combine(op, Neutral(op), c) == c;
    EliminateYnKeepsValue(x.fst, v);
    EliminateYnKeepsValue(x.snd, v);
  }

  // ---------------------------------------------------------------- first pass: joining operands

  /** The rewritten tree and how often `trans_count` was bumped. */
  datatype Rewrite = Rewrite(root: Expr, count: nat)

  lemma NextLocation(op: Conn, root: Expr, root': Expr, p: Path, right: bool)
    requires OnSpine(op, root, p) && Is(op, At(op, root, p)) && SameSpine(op, root, root')
    ensures OnSpine(op, root', p + [right])
    ensures Joins(op, At(op, root', p + [right])) < Joins(op, At(op, root, p))
  {
    SameSpineAt(op, root, root', p);
    OnSpineExtend(op, root', p, right);
    SameSpineJoins(op, At(op, root, p), At(op, root', p));
  }

  lemma KeptLocation(op: Conn, root: Expr, root': Expr, p: Path)
    requires OnSpine(op, root, p) && SameSpine(op, root, root')
    ensures OnSpine(op, root', p) && Joins(op, At(op, root', p)) == Joins(op, At(op, root, p))
    ensures Is(op, At(op, root', p)) == Is(op, At(op, root, p))
  {
    SameSpineAt(op, root, root', p);
    SameSpineJoins(op, At(op, root, p), At(op, root', p));
  }

  /** Two different operands, the first already cleaned inside. */
  function JoinOperands(op: Conn, root: Expr, p1: Path, p2: Path, inner: Rewrite): (r: Rewrite)
    requires OnSpine(op, root, p1) && OnSpine(op, root, p2) && p1 != p2
    requires !Is(op, At(op, root, p1)) && !Is(op, At(op, root, p2))
    requires !Is(op, inner.root) && Size(inner.root) <= Size(At(op, root, p1))
    ensures SameSpine(op, root, r.root) && Size(r.root) <= Size(root)
  {
    PutElsewhere(op, root, p1, p2, inner.root);
    PutElsewhere(op, root, p1, p2, Unit(op));
    PutKeepsSpine(op, root, p1, inner.root);
    var e2 := At(op, root, p2);
    match JoinPair(op, inner.root, e2)
    case None => Rewrite(Put(op, root, p1, inner.root), inner.count)
    case Some(t) =>
      JoinPairShape(op, inner.root, e2);
      PutKeepsSpine(op, root, p1, Unit(op));
      PutKeepsSpine(op, Put(op, root, p1, Unit(op)), p2, t);
      SameSpineTransitive(op, root, Put(op, root, p1, Unit(op)), Put(op, Put(op, root, p1, Unit(op)), p2, t));
      Rewrite(Put(op, Put(op, root, p1, Unit(op)), p2, t), inner.count + 1)
  }

  function Dups1(op: Conn, root: Expr, p1: Path, p2: Path): (r: Rewrite)
    requires OnSpine(op, root, p1) && OnSpine(op, root, p2)
    ensures SameSpine(op, root, r.root) && Size(r.root) <= Size(root)
    decreases Size(root), Joins(op, At(op, root, p1)) + Joins(op, At(op, root, p2))
  {
    var e1, e2 := At(op, root, p1), At(op, root, p2);
    SameSpineRefl(op, root);
    if Is(op, e1) then
      NextLocation(op, root, root, p1, false);
      var r := Dups1(op, root, p1 + [false], p2);
      NextLocation(op, root, r.root, p1, true);
      KeptLocation(op, root, r.root, p2);
      var r' := Dups1(op, r.root, p1 + [true], p2);
      SameSpineTransitive(op, root, r.root, r'.root);
      Rewrite(r'.root, r.count + r'.count)
    else if Is(op, e2) then
      NextLocation(op, root, root, p2, false);
      var r := Dups1(op, root, p1, p2 + [false]);
      NextLocation(op, root, r.root, p2, true);
      KeptLocation(op, root, r.root, p1);
      var r' := Dups1(op, r.root, p1, p2 + [true]);
      SameSpineTransitive(op, root, r.root, r'.root);
      Rewrite(r'.root, r.count + r'.count)
    else if p1 == p2 then Rewrite(root, 0)
    else
      AtIsSmaller(op, root, p1);
      var inner := if IsJoin(e1) then Dups1(OpOf(e1), e1, [], []) else Rewrite(e1, 0);
      JoinOperands(op, root, p1, p2, inner)
  }

  /** What a rewrite promises: nothing counted means nothing changed, something counted leaves a
      constant to drop, and the value is kept (by the second pass, unless it was `m`). */
  ghost predicate Kept(loosely: bool, root: Expr, r: Rewrite, v: Valuation)
  {
    (if r.count == 0 then r.root == root else Reducible(r.root)) &&
    (Value(r.root, v) == Value(root, v) || (loosely && Value(root, v) == MOD))
  }

  function Then(r: Rewrite, r': Rewrite): Rewrite
  {
    Rewrite(r'.root, r.count + r'.count)
  }

  lemma KeptThen(loosely: bool, root: Expr, r: Rewrite, r': Rewrite, v: Valuation)
    requires Kept(loosely, root, r, v) && Kept(loosely, r.root, r', v)
    ensures Kept(loosely, root, Then(r, r'), v)
  {
  }

  lemma {:induction false} PutReducible(op: Conn, e: Expr, p: Path, x: Expr)
    requires OnSpine(op, e, p) && p != [] && (IsYesNo(x) || Reducible(x))
    ensures Reducible(Put(op, e, p, x))
    decreases |p|
  {
    if |p| > 1 {
      PutReducible(op, Child(e, p[0]), p[1..], x);
    } else {
      assert Put(op, Child(e, p[0]), p[1..], x) == x;
    }
  }

  /** Cleaning one operand inside keeps the whole. */
  lemma PutKept(loosely: bool, op: Conn, root: Expr, p: Path, inner: Rewrite, v: Valuation)
    requires Admissible(v) && OnSpine(op, root, p) && p != [] && Kept(loosely, At(op, root, p), inner, v)
    ensures Kept(loosely, root, Rewrite(Put(op, root, p, inner.root), inner.count), v)
  {
    var e := At(op, root, p);
    PutThenAt(op, root, p, e);
    PutValue(op, root, p, inner.root, v);
    PutValue(op, root, p, e, v);
    if inner.count > 0 {
      PutReducible(op, root, p, inner.root);
    }
  }

  lemma JoinedKept(op: Conn, root: Expr, p1: Path, p2: Path, e1: Expr, t: Expr, v: Valuation)
    requires Admissible(v)
    requires OnSpine(op, root, p1) && OnSpine(op, root, p2) && p1 != p2
    requires !Is(op, At(op, root, p1)) && !Is(op, At(op, root, p2))
    requires Value(e1, v) == Value(At(op, root, p1), v)
    requires JoinPair(op, e1, At(op, root, p2)) == Some(t)
    ensures OnSpine(op, Put(op, root, p1, Unit(op)), p2)
    ensures Kept(false, root, Rewrite(Put(op, Put(op, root, p1, Unit(op)), p2, t), 1), v)
  {
    var e2, u := At(op, root, p2), Unit(op);
    PutCommute(op, root, p1, p2, u, t);
    assert p1 != [];
    PutReducible(op, Put(op, root, p2, t), p1, u);
    JoinPairKeepsValue(op, e1, e2, v);
    assert Combine(op, Value(u, v), Value(t, v)) == Value(t, v);
    PutBothValue(op, root, p1, p2, u, t, v);
  }

  lemma JoinOperandsKept(op: Conn, root: Expr, p1: Path, p2: Path, inner: Rewrite, v: Valuation)
    requires Admissible(v)
    requires OnSpine(op, root, p1) && OnSpine(op, root, p2) && p1 != p2
    requires !Is(op, At(op, root, p1)) && !Is(op, At(op, root, p2))
    requires !Is(op, inner.root) && Size(inner.root) <= Size(At(op, root, p1))
    requires Kept(false, At(op, root, p1), inner, v)
    ensures Kept(false, root, JoinOperands(op, root, p1, p2, inner), v)
  {
    match JoinPair(op, inner.root, At(op, root, p2))
    case None => PutKept(false, op, root, p1, inner, v);
    case Some(t) => JoinedKept(op, root, p1, p2, inner.root, t, v);
  }

  /** The first pass keeps the value under every admissible valuation, `m` included. */
  lemma {:induction false} Dups1Kept(op: Conn, root: Expr, p1: Path, p2: Path, v: Valuation)
    requires Admissible(v) && OnSpine(op, root, p1) && OnSpine(op, root, p2)
    ensures Kept(false, root, Dups1(op, root, p1, p2), v)
    decreases Size(root), Joins(op, At(op, root, p1)) + Joins(op, At(op, root, p2))
  {
    var e1, e2 := At(op, root, p1), At(op, root, p2);
    SameSpineRefl(op, root);
    if Is(op, e1) {
      NextLocation(op, root, root, p1, false);
      var r := Dups1(op, root, p1 + [false], p2);
      NextLocation(op, root, r.root, p1, true);
      KeptLocation(op, root, r.root, p2);
      Dups1Kept(op, root, p1 + [false], p2, v);
      Dups1Kept(op, r.root, p1 + [true], p2, v);
      KeptThen(false, root, r, Dups1(op, r.root, p1 + [true], p2), v);
    } else if Is(op, e2) {
      NextLocation(op, root, root, p2, false);
      var r := Dups1(op, root, p1, p2 + [false]);
      NextLocation(op, root, r.root, p2, true);
      KeptLocation(op, root, r.root, p1);
      Dups1Kept(op, root, p1, p2 + [false], v);
      Dups1Kept(op, r.root, p1, p2 + [true], v);
      KeptThen(false, root, r, Dups1(op, r.root, p1, p2 + [true]), v);
    } else if p1 != p2 {
      AtIsSmaller(op, root, p1);
      var inner := if IsJoin(e1) then Dups1(OpOf(e1), e1, [], []) else Rewrite(e1, 0);
      if IsJoin(e1) {
        Dups1Kept(OpOf(e1), e1, [], [], v);
      }
      JoinOperandsKept(op, root, p1, p2, inner, v);
    }
  }

  // ---------------------------------------------------------------- second pass: contradictions

  /** What a single operand of this value turns an `op` list into: n for &&, y for ||. */
  function Absorber(op: Conn): Expr { Symb(if op.AndOp? then SymNo else SymYes) }

  /** The operand at `p1` is a join of the other kind whose negation `At(p2)` already contains. */
  function DropContradiction(op: Conn, root: Expr, p1: Path, p2: Path, inner: Rewrite): (r: Rewrite)
    requires OnSpine(op, root, p1) && OnSpine(op, root, p2) && !Is(op, At(op, root, p1))
    requires !Is(op, inner.root) && Size(inner.root) <= Size(At(op, root, p1))
    ensures SameSpine(op, root, r.root) && Size(r.root) <= Size(root)
  {
    PutKeepsSpine(op, root, p1, inner.root);
    PutKeepsSpine(op, root, p1, Absorber(op));
    var root' := Put(op, root, p1, inner.root);
    SameSpineAt(op, root, root', p2);
    var x := ExtractEq(op, Transform(Not(inner.root)), At(op, root', p2));
    if x.fst == Unit(op) then Rewrite(Put(op, root, p1, Absorber(op)), inner.count + 1)
    else Rewrite(root', inner.count)
  }

  function Dups2(op: Conn, root: Expr, p1: Path, p2: Path): (r: Rewrite)
    requires OnSpine(op, root, p1) && OnSpine(op, root, p2)
    ensures SameSpine(op, root, r.root) && Size(r.root) <= Size(root)
    decreases Size(root), Joins(op, At(op, root, p1)) + Joins(op, At(op, root, p2))
  {
    var e1, e2 := At(op, root, p1), At(op, root, p2);
    SameSpineRefl(op, root);
    if Is(op, e1) then
      NextLocation(op, root, root, p1, false);
      var r := Dups2(op, root, p1 + [false], p2);
      NextLocation(op, root, r.root, p1, true);
      KeptLocation(op, root, r.root, p2);
      var r' := Dups2(op, r.root, p1 + [true], p2);
      SameSpineTransitive(op, root, r.root, r'.root);
      Then(r, r')
    else if p1 == p2 then Rewrite(root, 0)
    else
      var q := Dups2Below(op, root, p1, p2);
      KeptLocation(op, root, q.root, p1);
      KeptLocation(op, root, q.root, p2);
      AtIsSmaller(op, q.root, p1);
      var e1' := At(op, q.root, p1);
      if !IsJoin(e1') then q
      else
        var inner := Dups2(OpOf(e1'), e1', [], []);
        var r := DropContradiction(op, q.root, p1, p2, inner);
        SameSpineTransitive(op, root, q.root, r.root);
        Then(q, r)
  }

  /** The part of the second pass that goes down the second pointer; the caller then goes on
      with the whole list still under it. */
  function Dups2Below(op: Conn, root: Expr, p1: Path, p2: Path): (r: Rewrite)
    requires OnSpine(op, root, p1) && OnSpine(op, root, p2) && !Is(op, At(op, root, p1)) && p1 != p2
    ensures SameSpine(op, root, r.root) && Size(r.root) <= Size(root)
    decreases Size(root), Joins(op, At(op, root, p1)) + Joins(op, At(op, root, p2)), 0
  {
    SameSpineRefl(op, root);
    if !Is(op, At(op, root, p2)) then Rewrite(root, 0)
    else
      NextLocation(op, root, root, p2, false);
      var r := Dups2(op, root, p1, p2 + [false]);
      NextLocation(op, root, r.root, p2, true);
      KeptLocation(op, root, r.root, p1);
      var r' := Dups2(op, r.root, p1, p2 + [true]);
      SameSpineTransitive(op, root, r.root, r'.root);
      Then(r, r')
  }

  /** Where the rule applies, its two operands have the absorbing value together, unless both are m. */
  lemma ContradictionUnlessBothMod(op: Conn, e1: Expr, e2: Expr, v: Valuation)
    requires Admissible(v) && ExtractEq(op, Transform(Not(e1)), e2).fst == Unit(op)
    ensures Combine(op, Value(e1, v), Value(e2, v)) == Value(Absorber(op), v) <==> !(Value(e1, v) == MOD && Value(e2, v) == MOD)
  {
    TransformKeepsValue(Not(e1), v);
    ExtractEqSplits(op, Transform(Not(e1)), e2, v);
  }

  /** Overwriting the first of them keeps the value of the whole list, unless that was m. */
  lemma ContradictionValue(op: Conn, root: Expr, p1: Path, p2: Path, v: Valuation)
    requires Admissible(v) && OnSpine(op, root, p1) && OnSpine(op, root, p2)
    requires ExtractEq(op, Transform(Not(At(op, root, p1))), At(op, root, p2)).fst == Unit(op)
    ensures Value(Put(op, root, p1, Absorber(op)), v) == Value(root, v) || Value(root, v) == MOD
  {
    ContradictionUnlessBothMod(op, At(op, root, p1), At(op, root, p2), v);
    SpineBound(op, root, p1, v);
    SpineBound(op, root, p2, v);
    PutValue(op, root, p1, Absorber(op), v);
  }

  lemma DropContradictionKept(op: Conn, root: Expr, p1: Path, p2: Path, inner: Rewrite, v: Valuation)
    requires Admissible(v) && OnSpine(op, root, p1) && OnSpine(op, root, p2) && p1 != [] && !Is(op, At(op, root, p1))
    requires !Is(op, inner.root) && Size(inner.root) <= Size(At(op, root, p1))
    requires Kept(true, At(op, root, p1), inner, v)
    ensures Kept(true, root, DropContradiction(op, root, p1, p2, inner), v)
  {
    PutKept(true, op, root, p1, inner, v);
    PutKeepsSpine(op, root, p1, inner.root);
    var root' := Put(op, root, p1, inner.root);
    SameSpineAt(op, root, root', p2);
    PutThenAt(op, root, p1, inner.root);
    PutTwice(op, root, p1, inner.root, Absorber(op));
    if ExtractEq(op, Transform(Not(inner.root)), At(op, root', p2)).fst == Unit(op) {
      PutReducible(op, root, p1, Absorber(op));
      ContradictionValue(op, root', p1, p2, v);
    }
  }

  lemma {:induction false} PutTwice(op: Conn, e: Expr, p: Path, x: Expr, y: Expr)
    requires OnSpine(op, e, p)
    ensures OnSpine(op, Put(op, e, p, x), p) && Put(op, Put(op, e, p, x), p, y) == Put(op, e, p, y)
    decreases |p|
  {
    if p != [] {
      PutTwice(op, Child(e, p[0]), p[1..], x, y);
    }
  }

  /** The second pass keeps the value, unless it was `m`. */
  lemma {:induction false} Dups2Kept(op: Conn, root: Expr, p1: Path, p2: Path, v: Valuation)
    requires Admissible(v) && OnSpine(op, root, p1) && OnSpine(op, root, p2)
    ensures Kept(true, root, Dups2(op, root, p1, p2), v)
    decreases Size(root), Joins(op, At(op, root, p1)) + Joins(op, At(op, root, p2))
  {
    var e1 := At(op, root, p1);
    SameSpineRefl(op, root);
    if Is(op, e1) {
      NextLocation(op, root, root, p1, false);
      var r := Dups2(op, root, p1 + [false], p2);
      NextLocation(op, root, r.root, p1, true);
      KeptLocation(op, root, r.root, p2);
      Dups2Kept(op, root, p1 + [false], p2, v);
      Dups2Kept(op, r.root, p1 + [true], p2, v);
      KeptThen(true, root, r, Dups2(op, r.root, p1 + [true], p2), v);
    } else if p1 != p2 {
      var q := Dups2Below(op, root, p1, p2);
      Dups2BelowKept(op, root, p1, p2, v);
      KeptLocation(op, root, q.root, p1);
      KeptLocation(op, root, q.root, p2);
      AtIsSmaller(op, q.root, p1);
      var e1' := At(op, q.root, p1);
      if IsJoin(e1') {
        var inner := Dups2(OpOf(e1'), e1', [], []);
        Dups2Kept(OpOf(e1'), e1', [], [], v);
        DropContradictionKept(op, q.root, p1, p2, inner, v);
        KeptThen(true, root, q, DropContradiction(op, q.root, p1, p2, inner), v);
      }
    }
  }

  lemma {:induction false} Dups2BelowKept(op: Conn, root: Expr, p1: Path, p2: Path, v: Valuation)
    requires Admissible(v)
    requires OnSpine(op, root, p1) && OnSpine(op, root, p2) && !Is(op, At(op, root, p1)) && p1 != p2
    ensures Kept(true, root, Dups2Below(op, root, p1, p2), v)
    decreases Size(root), Joins(op, At(op, root, p1)) + Joins(op, At(op, root, p2)), 0
  {
    SameSpineRefl(op, root);
    if Is(op, At(op, root, p2)) {
      NextLocation(op, root, root, p2, false);
      var r := Dups2(op, root, p1, p2 + [false]);
      NextLocation(op, root, r.root, p2, true);
      KeptLocation(op, root, r.root, p1);
      Dups2Kept(op, root, p1, p2 + [false], v);
      Dups2Kept(op, r.root, p1, p2 + [true], v);
      KeptThen(true, root, r, Dups2(op, r.root, p1, p2 + [true]), v);
    }
  }

  // ---------------------------------------------------------------- to the fixpoint

  function OnePass(e: Expr): (r: Rewrite)
    ensures Size(r.root) <= Size(e)
  {
    if !IsJoin(e) then Rewrite(e, 0)
    else
      var r := Dups1(OpOf(e), e, [], []);
      Then(r, Dups2(OpOf(e), r.root, [], []))
  }

  lemma Dups1KeptExactly(e: Expr, v: Valuation)
    requires Admissible(v) && IsJoin(e)
    ensures Kept(true, e, Dups1(OpOf(e), e, [], []), v)
  {
    Dups1Kept(OpOf(e), e, [], [], v);
  }

  lemma OnePassKept(e: Expr, v: Valuation)
    requires Admissible(v)
    ensures Kept(true, e, OnePass(e), v)
  {
    if IsJoin(e) {
      var r := Dups1(OpOf(e), e, [], []);
      Dups1KeptExactly(e, v);
      Dups2Kept(OpOf(e), r.root, [], [], v);
      KeptThen(true, e, r, Dups2(OpOf(e), r.root, [], []), v);
    }
  }

  /** A pass either changes nothing or leaves something for the constant elimination. */
  lemma OnePassProgress(e: Expr)
    ensures OnePass(e).count == 0 ==> OnePass(e).root == e
    ensures OnePass(e).count > 0 ==> Size(EliminateYn(OnePass(e).root)) < Size(e)
  {
    AllNoIsAdmissible();
    OnePassKept(e, AllNo());
    EliminateYnShrinks(OnePass(e).root);
  }

  function EliminateDups(e: Expr): Expr
    decreases Size(e)
  {
    OnePassProgress(e);
    var r := OnePass(e);
    if r.count == 0 then r.root else EliminateDups(EliminateYn(r.root))
  }

  /** Duplicate elimination keeps the value of an expression that is not `m`, whatever its symbols are. */
  lemma {:induction false} EliminateDupsKeepsValue(e: Expr, v: Valuation)
    requires Admissible(v) && Value(e, v) != MOD
    ensures Value(EliminateDups(e), v) == Value(e, v)
    decreases Size(e)
  {
    OnePassProgress(e);
    OnePassKept(e, v);
    var r := OnePass(e);
    if r.count > 0 {
      EliminateYnKeepsValue(r.root, v);
      EliminateDupsKeepsValue(EliminateYn(r.root), v);
    }
  }

  lemma {:induction false} EliminateDupsIsIdempotent(e: Expr)
    ensures OnePass(EliminateDups(e)).count == 0
    ensures EliminateDups(EliminateDups(e)) == EliminateDups(e)
    decreases Size(e)
  {
    OnePassProgress(e);
    var r := OnePass(e);
    if r.count > 0 {
      EliminateDupsIsIdempotent(EliminateYn(r.root));
    }
  }

  /** The first pass alone, run to its own end, keeps the value with `m` as well. */
  lemma FirstPassKeepsValue(e: Expr, v: Valuation)
    requires Admissible(v) && IsJoin(e)
    ensures Value(EliminateYn(Dups1(OpOf(e), e, [], []).root), v) == Value(e, v)
  {
    Dups1Kept(OpOf(e), e, [], [], v);
    EliminateYnKeepsValue(Dups1(OpOf(e), e, [], []).root, v);
  }
}
