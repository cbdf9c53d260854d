/**
 What the elimination of duplicates leaves: lists in which no two operands could still be joined, and
 no operand whose negation the list contains.
 */
module KconfigClean {
  import opened Options
  import opened KconfigExpr
  import opened KconfigSpine
  import opened KconfigEq
  import opened KconfigTransform
  import opened KconfigCanon
  import opened KconfigDups

  // ---------------------------------------------------------------- pairs of operands

  /** Tests of one tristate for two of y, m and n. */
  predicate TwoTests(a: Expr, b: Expr)
  {
    ((a.Equal? && b.Equal?) || (a.Unequal? && b.Unequal?)) &&
    a.lsym == b.lsym && IsTristate(a.lsym) && IsYmn(a.rsym) && IsYmn(b.rsym) && a.rsym != b.rsym
  }

  /** A boolean and its negation. */
  predicate Opposites(a: Expr, b: Expr) { a.Symb? && IsBoolean(a.sym) && b == Not(a) }

  /** A boolean or tristate, and a test that it is y, not m or not n. */
  predicate SymbolAndItsTest(a: Expr, b: Expr)
  {
    a.Symb? && (IsBoolean(a.sym) || IsTristate(a.sym)) &&
    (b == Equal(a.sym, SymYes) || b == Unequal(a.sym, SymMod) || b == Unequal(a.sym, SymNo))
  }

  /** A tristate tested for one constant and against another. */
  predicate ForAndAgainst(a: Expr, b: Expr)
  {
    a.Equal? && b.Unequal? && a.lsym == b.lsym && IsTristate(a.lsym) && IsConst(a.rsym) && IsConst(b.rsym)
  }

  /** The two operands of an `op` list can be replaced by one. */
  predicate Joinable(op: Conn, a: Expr, b: Expr)
  {
    ExprEq(a, b) ||
    if op.OrOp? then (a.Equal? && TwoTests(a, b)) || Opposites(a, b) || Opposites(b, a)
    else (a.Unequal? && TwoTests(a, b)) || SymbolAndItsTest(a, b) || SymbolAndItsTest(b, a) || ForAndAgainst(a, b) || ForAndAgainst(b, a)
  }

  lemma JoinsOr(a: Expr, b: Expr)
    ensures JoinOr(a, b).Some? <==> Joinable(OrOp, a, b)
  {
  }

  lemma JoinsAnd(a: Expr, b: Expr)
    ensures JoinAnd(a, b).Some? <==> Joinable(AndOp, a, b)
  {
  }

  /** Two operands are joined exactly when they are duplicates or one of these pairs. */
  lemma JoinsIffJoinable(op: Conn, a: Expr, b: Expr)
    ensures JoinPair(op, a, b).Some? <==> Joinable(op, a, b)
  {
    if op.OrOp? {
      JoinsOr(a, b);
    } else {
      JoinsAnd(a, b);
    }
  }

  // ---------------------------------------------------------------- first pass

  /** The place of an operand of the `op` list. */
  predicate Place(op: Conn, e: Expr, p: Path) { OnSpine(op, e, p) && !Is(op, At(op, e, p)) }

  /** Nothing to join in the two operands, and nothing to do within the first. */
  ghost predicate Settled(op: Conn, a: Expr, b: Expr)
  {
    !Joinable(op, a, b) && (IsJoin(a) ==> Dups1(OpOf(a), a, [], []).count == 0)
  }

  ghost predicate SettledPairs(op: Conn, root: Expr, p1: Path, p2: Path)
    requires OnSpine(op, root, p1) && OnSpine(op, root, p2)
  {
    var e1, e2 := At(op, root, p1), At(op, root, p2);
    forall q1, q2 :: Place(op, e1, q1) && Place(op, e2, q2) && p1 + q1 != p2 + q2 ==> Settled(op, At(op, e1, q1), At(op, e2, q2))
  }

  lemma NothingChanged(op: Conn, root: Expr, p1: Path, p2: Path)
    requires OnSpine(op, root, p1) && OnSpine(op, root, p2) && Dups1(op, root, p1, p2).count == 0
    ensures Dups1(op, root, p1, p2).root == root
  {
    AllNoIsAdmissible();
    Dups1Kept(op, root, p1, p2, AllNo());
  }

  lemma SettledFirst(op: Conn, root: Expr, p1: Path, p2: Path)
    requires OnSpine(op, root, p1) && OnSpine(op, root, p2) && Is(op, At(op, root, p1))
    requires OnSpine(op, root, p1 + [false]) && OnSpine(op, root, p1 + [true])
    requires SettledPairs(op, root, p1 + [false], p2) && SettledPairs(op, root, p1 + [true], p2)
    ensures SettledPairs(op, root, p1, p2)
  {
    var e1, e2 := At(op, root, p1), At(op, root, p2);
    OnSpineExtend(op, root, p1, false);
    OnSpineExtend(op, root, p1, true);
    forall q1, q2 | Place(op, e1, q1) && Place(op, e2, q2) && p1 + q1 != p2 + q2 ensures Settled(op, At(op, e1, q1), At(op, e2, q2)) {
      assert q1 != [];
      assert (p1 + [q1[0]]) + q1[1..] == p1 + q1;
      assert Place(op, Child(e1, q1[0]), q1[1..]);
    }
  }

  lemma SettledSecond(op: Conn, root: Expr, p1: Path, p2: Path)
    requires OnSpine(op, root, p1) && OnSpine(op, root, p2) && Is(op, At(op, root, p2))
    requires OnSpine(op, root, p2 + [false]) && OnSpine(op, root, p2 + [true])
    requires SettledPairs(op, root, p1, p2 + [false]) && SettledPairs(op, root, p1, p2 + [true])
    ensures SettledPairs(op, root, p1, p2)
  {
    var e1, e2 := At(op, root, p1), At(op, root, p2);
    OnSpineExtend(op, root, p2, false);
    OnSpineExtend(op, root, p2, true);
    forall q1, q2 | Place(op, e1, q1) && Place(op, e2, q2) && p1 + q1 != p2 + q2 ensures Settled(op, At(op, e1, q1), At(op, e2, q2)) {
      assert q2 != [];
      assert (p2 + [q2[0]]) + q2[1..] == p2 + q2;
      assert Place(op, Child(e2, q2[0]), q2[1..]);
    }
  }

  lemma SettledTwo(op: Conn, root: Expr, p1: Path, p2: Path)
    requires Place(op, root, p1) && Place(op, root, p2) && p1 != p2 && Dups1(op, root, p1, p2).count == 0
    ensures SettledPairs(op, root, p1, p2)
  {
    var e1, e2 := At(op, root, p1), At(op, root, p2);
    var inner := if IsJoin(e1) then Dups1(OpOf(e1), e1, [], []) else Rewrite(e1, 0);
    AtIsSmaller(op, root, p1);
    assert Dups1(op, root, p1, p2) == JoinOperands(op, root, p1, p2, inner);
    if IsJoin(e1) {
      NothingChanged(OpOf(e1), e1, [], []);
    }
    JoinsIffJoinable(op, e1, e2);
    forall q1, q2 | Place(op, e1, q1) && Place(op, e2, q2) && p1 + q1 != p2 + q2 ensures Settled(op, At(op, e1, q1), At(op, e2, q2)) {
      assert q1 == [] && q2 == [];
    }
  }

  /** Where two operands are joined, the first becomes the neutral constant, the second what they are
      joined into, a duplicate being the first of the two, and no other operand changes. */
  lemma JoinedInPlace(op: Conn, root: Expr, p1: Path, p2: Path, q: Path)
    requires Place(op, root, p1) && Place(op, root, p2) && p1 != p2 && !IsJoin(At(op, root, p1)) && Joinable(op, At(op, root, p1), At(op, root, p2))
    requires Place(op, root, q) && q != p1 && q != p2
    ensures var r := Dups1(op, root, p1, p2);
            r.count == 1 && OnSpine(op, r.root, p1) && At(op, r.root, p1) == Unit(op) && OnSpine(op, r.root, p2) &&
            (ExprEq(At(op, root, p1), At(op, root, p2)) ==> At(op, r.root, p2) == At(op, root, p1)) &&
            OnSpine(op, r.root, q) && At(op, r.root, q) == At(op, root, q)
  {
    var e1, e2 := At(op, root, p1), At(op, root, p2);
    JoinsIffJoinable(op, e1, e2);
    var t := JoinPair(op, e1, e2).value;
    assert Dups1(op, root, p1, p2) == JoinOperands(op, root, p1, p2, Rewrite(e1, 0));
    var r1 := Put(op, root, p1, Unit(op));
    PutThenAt(op, root, p1, Unit(op));
    PutElsewhere(op, root, p1, p2, Unit(op));
    PutElsewhere(op, root, p1, q, Unit(op));
    hide Joinable, ExprEq, JoinOr, JoinAnd;
    PutThenAt(op, r1, p2, t);
    PutElsewhere(op, r1, p2, p1, t);
    PutElsewhere(op, r1, p2, q, t);
  }

  /** A first pass that changes nothing has found nothing to join. */
  lemma {:induction false} NothingToJoin(op: Conn, root: Expr, p1: Path, p2: Path)
    requires OnSpine(op, root, p1) && OnSpine(op, root, p2) && Dups1(op, root, p1, p2).count == 0
    ensures SettledPairs(op, root, p1, p2)
    decreases Joins(op, At(op, root, p1)) + Joins(op, At(op, root, p2))
  {
    hide SettledPairs;
    SameSpineRefl(op, root);
    if Is(op, At(op, root, p1)) {
      NextLocation(op, root, root, p1, false);
      NextLocation(op, root, root, p1, true);
      NothingChanged(op, root, p1 + [false], p2);
      NothingToJoin(op, root, p1 + [false], p2);
      NothingToJoin(op, root, p1 + [true], p2);
      SettledFirst(op, root, p1, p2);
    } else if Is(op, At(op, root, p2)) {
      NextLocation(op, root, root, p2, false);
      NextLocation(op, root, root, p2, true);
      NothingChanged(op, root, p1, p2 + [false]);
      NothingToJoin(op, root, p1, p2 + [false]);
      NothingToJoin(op, root, p1, p2 + [true]);
      SettledSecond(op, root, p1, p2);
    } else if p1 == p2 {
      assert SettledPairs(op, root, p1, p2) by {
        SettledAlone(op, root, p1);
      }
    } else {
      SettledTwo(op, root, p1, p2);
    }
  }

  lemma SettledAlone(op: Conn, root: Expr, p: Path)
    requires Place(op, root, p)
    ensures SettledPairs(op, root, p, p)
  {
    var e := At(op, root, p);
    assert forall q :: Place(op, e, q) ==> q == [];
  }

  // ---------------------------------------------------------------- second pass

  function Rest(x: Extraction): Pair { Pair(x.fst, x.snd) }

  /** Extracting leaves of two lists what cancelling does, but it extracts constants too. */
  lemma {:induction false} ExtractIsDifference(op: Conn, acc: Option<Expr>, e1: Expr, e2: Expr)
    requires PlainParts(op, e1) && PlainParts(op, e2)
    ensures CancelsTo(op, e1, e2, Rest(Extract(op, acc, e1, e2)), false)
    decreases Joins(op, e1) + Joins(op, e2)
  {
    hide CancelsTo, Parts, Decided, CanonOf, ExprEq;
    if Is(op, e1) {
      var x := Extract(op, acc, e1.left, e2);
      SameSpineJoins(op, e2, x.snd);
      ExtractIsDifference(op, acc, e1.left, e2);
      LeftIsPlain(op, e1.left, e2, Rest(x), false);
      ExtractIsDifference(op, x.common, e1.right, x.snd);
      DifferenceFirst(op, e1.left, e1.right, e2, Rest(x), Rest(Extract(op, x.common, e1.right, x.snd)), false);
    } else if Is(op, e2) {
      var x := Extract(op, acc, e1, e2.left);
      SameSpineJoins(op, e1, x.fst);
      ExtractIsDifference(op, acc, e1, e2.left);
      LeftIsPlain(op, e1, e2.left, Rest(x), false);
      ExtractIsDifference(op, x.common, x.fst, e2.right);
      DifferenceSecond(op, e1, e2.left, e2.right, Rest(x), Rest(Extract(op, x.common, x.fst, e2.right)), false);
    } else {
      DifferenceOfTwo(op, e1, e2);
      ConstantIsItself(e1, e2);
      if !IsYesNo(e1) && !IsYesNo(e2) {
        EqualIffSameCanon(e1, e2);
      }
      StrictIsLoose(op, e1, e2, Pair(e1, e2));
      StrictIsLoose(op, e1, e2, Pair(Unit(op), Unit(op)));
    }
  }

  lemma ConstantIsItself(e1: Expr, e2: Expr)
    ensures IsYesNo(e1) || IsYesNo(e2) ==> (ExprEq(e1, e2) <==> e1 == e2)
  {
  }

  lemma StrictIsLoose(op: Conn, e1: Expr, e2: Expr, p: Pair)
    ensures CancelsTo(op, e1, e2, p, true) ==> CancelsTo(op, e1, e2, p, false)
  {
  }

  lemma {:induction false} NothingExtracted(op: Conn, acc: Option<Expr>, e1: Expr, e2: Expr)
    requires Extract(op, acc, e1, e2).common.None?
    ensures Extract(op, acc, e1, e2).fst == e1 && Extract(op, acc, e1, e2).snd == e2 && acc.None?
    decreases Joins(op, e1) + Joins(op, e2)
  {
    if Is(op, e1) {
      var x := Extract(op, acc, e1.left, e2);
      SameSpineJoins(op, e2, x.snd);
      NothingExtracted(op, x.common, e1.right, x.snd);
      NothingExtracted(op, acc, e1.left, e2);
    } else if Is(op, e2) {
      var x := Extract(op, acc, e1, e2.left);
      SameSpineJoins(op, e1, x.fst);
      NothingExtracted(op, x.common, x.fst, e2.right);
      NothingExtracted(op, acc, e1, e2.left);
    }
  }

  /** A plain expression is a list of something. */
  lemma {:induction false} SomeParts(op: Conn, e: Expr)
    requires Plain(e) && !IsYesNo(e)
    ensures Parts(op, e) != multiset{} && !Decided(op, e)
  {
    if Is(op, e) {
      SomeParts(op, e.left);
      SomeParts(op, e.right);
    }
  }

  /** All of the first expression is extracted exactly when the second has all its operands, as often. */
  lemma ExtractsAllIff(op: Conn, e1: Expr, e2: Expr)
    requires Plain(e1) && !IsYesNo(e1) && Plain(e2) && !IsYesNo(e2)
    ensures ExtractEq(op, e1, e2).fst == Unit(op) <==> Parts(op, e1) <= Parts(op, e2)
  {
    hide Extract, Parts, Decided, PlainParts, Plain, EliminateYn, CanonOf;
    PlainIsPlainParts(op, e1);
    PlainIsPlainParts(op, e2);
    SomeParts(op, e1);
    SubsetIffNoRest(Parts(op, e1), Parts(op, e2));
    var x := Extract(op, None, e1, e2);
    ExtractIsDifference(op, None, e1, e2);
    if x.common.None? {
      NothingExtracted(op, None, e1, e2);
    } else {
      DroppedIs(op, x.fst);
      UnitHasNoParts(op);
    }
  }

  lemma UnitHasNoParts(op: Conn)
    ensures Parts(op, Unit(op)) == multiset{}
  {
  }

  lemma SubsetIffNoRest<T>(a: multiset<T>, b: multiset<T>)
    ensures a <= b <==> a - b == multiset{}
  {
    if a - b == multiset{} {
      forall x ensures a[x] <= b[x] {
        assert (a - b)[x] == 0;
      }
    }
  }

  /** The list does not contain the negation of its operand `a`, a list of the other kind. */
  ghost predicate Uncontradicted(op: Conn, list: Expr, a: Expr)
  {
    ExtractEq(op, Transform(Not(a)), list).fst != Unit(op) && (IsJoin(a) ==> Dups2(OpOf(a), a, [], []).count == 0)
  }

  lemma NothingDropped(op: Conn, root: Expr, p1: Path, p2: Path)
    requires OnSpine(op, root, p1) && OnSpine(op, root, p2) && Dups2(op, root, p1, p2).count == 0
    ensures Dups2(op, root, p1, p2).root == root
  {
    AllNoIsAdmissible();
    Dups2Kept(op, root, p1, p2, AllNo());
  }

  lemma NothingDroppedBelow(op: Conn, root: Expr, p1: Path, p2: Path)
    requires OnSpine(op, root, p1) && OnSpine(op, root, p2) && !Is(op, At(op, root, p1)) && p1 != p2
    requires Dups2Below(op, root, p1, p2).count == 0
    ensures Dups2Below(op, root, p1, p2).root == root
  {
    AllNoIsAdmissible();
    Dups2BelowKept(op, root, p1, p2, AllNo());
  }

  lemma UncontradictedHere(op: Conn, root: Expr, p1: Path, p2: Path)
    requires Place(op, root, p1) && OnSpine(op, root, p2) && p1 != p2 && IsJoin(At(op, root, p1)) && Dups2(op, root, p1, p2).count == 0
    ensures Uncontradicted(op, At(op, root, p2), At(op, root, p1))
  {
    NothingDroppedBelow(op, root, p1, p2);
    AtIsSmaller(op, root, p1);
    var a := At(op, root, p1);
    NothingDropped(OpOf(a), a, [], []);
    PutThenAt(op, root, p1, a);
  }

  /** A second pass that changes nothing has found no contradiction. */
  lemma {:induction false} NothingContradicted(op: Conn, root: Expr, p1: Path, p2: Path, q: Path)
    requires OnSpine(op, root, p1) && OnSpine(op, root, p2) && Dups2(op, root, p1, p2).count == 0
    requires Place(op, At(op, root, p1), q) && p1 + q != p2 && IsJoin(At(op, At(op, root, p1), q))
    ensures Uncontradicted(op, At(op, root, p2), At(op, At(op, root, p1), q))
    decreases |q|
  {
    SameSpineRefl(op, root);
    if q == [] {
      assert p1 + q == p1;
      UncontradictedHere(op, root, p1, p2);
    } else {
      OnSpineExtend(op, root, p1, q[0]);
      OnSpineExtend(op, root, p1, false);
      NothingDropped(op, root, p1 + [false], p2);
      assert (p1 + [q[0]]) + q[1..] == p1 + q;
      hide Uncontradicted;
      NothingContradicted(op, root, p1 + [q[0]], p2, q[1..]);
    }
  }

  // ---------------------------------------------------------------- what is left

  /** In the `op` list no two operands can be joined. */
  ghost predicate NoDuplicates(op: Conn, e: Expr)
  {
    forall p, q :: Place(op, e, p) && Place(op, e, q) && p != q ==> !Joinable(op, At(op, e, p), At(op, e, q))
  }

  /** And it does not have all operands of the negation of one of them. */
  ghost predicate NoContradiction(op: Conn, e: Expr)
  {
    forall p :: Place(op, e, p) && IsJoin(At(op, e, p)) ==> !Contains(op, e, Transform(Not(At(op, e, p))))
  }

  /** Neither has constant operands, and the list has all operands of `n` as often as `n` has them. */
  ghost predicate Contains(op: Conn, list: Expr, n: Expr)
  {
    Plain(list) && Plain(n) && !IsYesNo(n) && Parts(op, n) <= Parts(op, list)
  }

  /** That is so of the list and of all lists below it that are reached through lists. */
  ghost predicate Clean(e: Expr)
    decreases e, 0
  {
    IsJoin(e) ==>
      NoDuplicates(OpOf(e), e) && NoContradiction(OpOf(e), e) && CleanBelow(OpOf(e), e.left) && CleanBelow(OpOf(e), e.right)
  }

  ghost predicate CleanBelow(op: Conn, e: Expr)
    decreases e, 1
  {
    if Is(op, e) then CleanBelow(op, e.left) && CleanBelow(op, e.right) else Clean(e)
  }

  lemma FoundNoDuplicates(op: Conn, e: Expr)
    requires Dups1(op, e, [], []).count == 0
    ensures NoDuplicates(op, e)
  {
    hide Dups1, Joinable;
    NothingToJoin(op, e, [], []);
    forall p, q | Place(op, e, p) && Place(op, e, q) && p != q ensures !Joinable(op, At(op, e, p), At(op, e, q)) {
      assert [] + p == p && [] + q == q;
      assert Settled(op, At(op, e, p), At(op, e, q));
    }
  }

  lemma NotContained(op: Conn, list: Expr, a: Expr)
    requires Uncontradicted(op, list, a) && IsJoin(list)
    ensures !Contains(op, list, Transform(Not(a)))
  {
    hide ExtractEq, Transform, Parts, Plain, Dups2;
    if Contains(op, list, Transform(Not(a))) {
      ExtractsAllIff(op, Transform(Not(a)), list);
    }
  }

  lemma FoundNoContradiction(op: Conn, e: Expr)
    requires Is(op, e) && Dups2(op, e, [], []).count == 0
    ensures NoContradiction(op, e)
  {
    hide Dups2, Contains, Transform, Uncontradicted;
    forall p | Place(op, e, p) && IsJoin(At(op, e, p)) ensures !Contains(op, e, Transform(Not(At(op, e, p)))) {
      assert [] + p == p && p != [];
      NothingContradicted(op, e, [], [], p);
      NotContained(op, e, At(op, e, p));
    }
  }

  /** A list in which neither pass finds anything to do is clean. */
  lemma {:induction false} FixpointIsClean(e: Expr)
    requires IsJoin(e) && Dups1(OpOf(e), e, [], []).count == 0 && Dups2(OpOf(e), e, [], []).count == 0
    ensures Clean(e)
    decreases Size(e), 2
  {
    hide Dups1, Dups2, NoDuplicates, NoContradiction;
    var op := OpOf(e);
    FoundNoDuplicates(op, e);
    FoundNoContradiction(op, e);
    CleanWithin(op, e, [false]);
    CleanWithin(op, e, [true]);
    assert At(op, e, [false]) == e.left && At(op, e, [true]) == e.right;
  }

  lemma {:induction false} CleanWithin(op: Conn, e: Expr, p: Path)
    requires Is(op, e) && OnSpine(op, e, p) && p != [] && Dups1(op, e, [], []).count == 0 && Dups2(op, e, [], []).count == 0
    ensures CleanBelow(op, At(op, e, p))
    decreases Size(e), 1, Size(At(op, e, p))
  {
    hide Dups1, Dups2, Clean;
    var a := At(op, e, p);
    if Is(op, a) {
      OnSpineExtend(op, e, p, false);
      OnSpineExtend(op, e, p, true);
      CleanWithin(op, e, p + [false]);
      CleanWithin(op, e, p + [true]);
    } else if IsJoin(a) {
      AtIsSmaller(op, e, p);
      WithinFixpoint(op, e, p);
      FixpointIsClean(a);
    } else {
      assert Clean(a) by {
        LeafIsClean(a);
      }
    }
  }

  lemma LeafIsClean(e: Expr)
    requires !IsJoin(e)
    ensures Clean(e)
  {
  }

  /** Both passes have been within every operand. */
  lemma WithinFixpoint(op: Conn, e: Expr, p: Path)
    requires Is(op, e) && Place(op, e, p) && IsJoin(At(op, e, p)) && Dups1(op, e, [], []).count == 0 && Dups2(op, e, [], []).count == 0
    ensures var a := At(op, e, p); Dups1(OpOf(a), a, [], []).count == 0 && Dups2(OpOf(a), a, [], []).count == 0
  {
    hide Dups1, Dups2, ExtractEq, Joinable;
    assert [] + p == p && p != [];
    NothingContradicted(op, e, [], [], p);
    var q := OtherPlace(op, e, p);
    NothingToJoin(op, e, [], []);
    assert [] + q == q;
    assert Settled(op, At(op, e, p), At(op, e, q));
  }

  /** A list has at least two operands. */
  lemma OtherPlace(op: Conn, e: Expr, p: Path) returns (q: Path)
    requires Is(op, e) && p != []
    ensures Place(op, e, q) && q != p
  {
    var q' := SomePlace(op, Child(e, !p[0]));
    q := [!p[0]] + q';
    assert q[1..] == q';
  }

  lemma {:induction false} SomePlace(op: Conn, e: Expr) returns (p: Path)
    ensures Place(op, e, p)
  {
    if Is(op, e) {
      var p' := SomePlace(op, e.left);
      p := [false] + p';
      assert p[1..] == p';
    } else {
      p := [];
    }
  }

  /** What the elimination of duplicates returns is clean, and has no constant operands unless it
      was not changed at all. */
  lemma {:induction false} EliminateDupsIsClean(e: Expr)
    ensures Clean(EliminateDups(e)) && (EliminateDups(e) == e || !Reducible(EliminateDups(e)))
    decreases Size(e)
  {
    OnePassProgress(e);
    var r := OnePass(e);
    if r.count > 0 {
      EliminateYnShrinks(r.root);
      hide Clean;
      EliminateDupsIsClean(EliminateYn(r.root));
    } else if IsJoin(e) {
      NothingChanged(OpOf(e), e, [], []);
      hide Clean, Dups1, Dups2;
      FixpointIsClean(e);
    } else {
      LeafIsClean(e);
    }
  }

  /** `expr_eliminate_dups`: passes until one changes nothing. */
  method EliminateAllDups(e0: Expr) returns (e: Expr)
    ensures e == EliminateDups(e0) && Clean(e)
    ensures forall v :: Admissible(v) && Value(e0, v) != MOD ==> Value(e, v) == Value(e0, v)
  {
    hide Clean;
    e := e0;
    while true
      invariant EliminateDups(e) == EliminateDups(e0)
      decreases Size(e)
    {
      var transCount := 0;
      OnePassProgress(e);
      ghost var pass := OnePass(e);
      if IsJoin(e) {
        var op := OpOf(e);
        var first := Dups1(op, e, [], []);
        var second := Dups2(op, first.root, [], []);
        e, transCount := second.root, first.count + second.count;
      }
      assert pass == Rewrite(e, transCount);
      if transCount == 0 {
        break;
      }
      e := EliminateYn(e);
    }
    forall v | Admissible(v) && Value(e0, v) != MOD ensures Value(e, v) == Value(e0, v) {
      EliminateDupsKeepsValue(e0, v);
    }
    EliminateDupsIsClean(e0);
  }

  /** Two copies of anything do not stay side by side. */
  lemma {:induction false} DuplicateIsDropped(op: Conn, a: Expr)
    requires !Is(op, a)
    ensures !NoDuplicates(op, Join(op, a, a)) && EliminateDups(Join(op, a, a)) != Join(op, a, a)
  {
    var e := Join(op, a, a);
    ExprEqIsReflexive(a);
    assert At(op, e, [false]) == a && At(op, e, [true]) == a && [false] != [true];
    assert Place(op, e, [false]) && Place(op, e, [true]);
    EliminateDupsIsClean(e);
  }
}
