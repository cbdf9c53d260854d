/**
 What a deletion does to the shape of the balanced tree: the node sinks to a leaf by rotations, is
 cut off, and the walk up rebalances what it passes. The walk alone also ends an insertion.
 */
module AvlDelete {
  import opened AvlShape
  import opened AvlItems

  // ---------------------------------------------------------------- the walk up

  /** The tree when the walk that starts at `s`, at place `c`, has come to the root. */
  ghost function Walked(c: Ctx, s: Tree): (t: Tree)
    requires s.Fork? && ExactDeep(s) && ExactBeside(c)
    ensures ExactBelow(t)
    decreases c, Imbalance(s)
  {
    if Skewed(s) then
      WalkTurns(c, s, 0);
      Walked(c, Lighten(RefreshKids(s), Bfactor(s) > 1))
    else
      WalkOn(c, s, 0);
      if c.Top? then RefreshKids(s) else Walked(c.up, Outer(c, RefreshKids(s)))
  }

  lemma {:induction false} WalkedKept(c: Ctx, s: Tree)
    requires s.Fork? && ExactDeep(s) && ExactBeside(c)
    ensures Kept(Zip(c, s), Walked(c, s))
    decreases c, Imbalance(s)
  {
    hide Kept, ExactDeep, Lighten, Imbalance;
    if Skewed(s) {
      WalkTurns(c, s, 0);
      var s2 := Lighten(RefreshKids(s), Bfactor(s) > 1);
      ZipKept(c, s, s2);
      WalkedKept(c, s2);
      KeptTwice(Zip(c, s), Zip(c, s2), Walked(c, s2));
    } else {
      WalkOn(c, s, 0);
      var s1 := RefreshKids(s);
      ZipKept(c, s, s1);
      if c.In? {
        WalkedKept(c.up, Outer(c, s1));
        KeptTwice(Zip(c, s), Zip(c, s1), Walked(c.up, Outer(c, s1)));
      }
    }
  }

  /** After an insertion the walk ends with a balanced tree. */
  lemma {:induction false} InsertBalances(c: Ctx, s: Tree, h: nat)
    requires s.Fork? && ExactDeep(s) && ExactBeside(c) && Due(c, s, h)
    ensures Balanced(Walked(c, s))
    decreases c, Imbalance(s)
  {
    hide Due, ExactDeep, Lighten, Imbalance, Balanced;
    if Skewed(s) {
      WalkTurns(c, s, h);
      InsertBalances(c, Lighten(RefreshKids(s), Bfactor(s) > 1), h);
    } else {
      WalkOn(c, s, h);
      if c.In? {
        InsertBalances(c.up, Outer(c, RefreshKids(s)), 1 + Max(h, Height(c.other)));
      }
    }
  }

  // ---------------------------------------------------------------- sinking

  datatype Spot = Spot(c: Ctx, s: Tree)

  ghost predicate SameNode(s: Tree, s0: Tree) { s.Fork? && s0.Fork? && s.a == s0.a && s.key == s0.key && s.val == s0.val }

  /** Where the node is after one rotation has taken it down. */
  function Down(c: Ctx, s: Tree, right: bool): Spot
    requires s.Fork? && Kid(s, !right).Fork?
  {
    var r := Rotate(s, right);
    Spot(Inner(c, r, right), Kid(r, right))
  }

  /** One rotation takes the node one level down and its subtree loses a node. */
  lemma {:induction false} SinkStep(c: Ctx, s: Tree, right: bool)
    requires s.Fork? && Kid(s, !right).Fork?
    ensures var r, d := Rotate(s, right), Down(c, s, right);
            r.Fork? && SameNode(d.s, s) && Outer(d.c, d.s) == r && d.c.up == c &&
            Kid(d.s, right) == Kid(s, right) && Count(d.s) < Count(s) && Kept(Zip(c, s), Zip(c, r)) && Zip(d.c, d.s) == Zip(c, r) &&
            (ExactBeside(c) && ExactBelow(s) ==> ExactBeside(d.c) && ExactBelow(d.s))
  {
    var y := Kid(s, !right);
    RotateKeeps(s, right);
    ZipKept(c, s, Rotate(s, right));
    assert ExactBelow(s) ==> Exact(y) && Exact(Kid(y, right)) && Exact(Kid(y, !right));
  }

  /** Where it is after one iteration of the loop. */
  function SinkOnce(c: Ctx, s: Tree): Spot
    requires s.Fork? && (s.left.Fork? || s.right.Fork?)
  {
    var s1, hl, hr := RefreshKids(s), NodeHeight(s.left), NodeHeight(s.right);
    if hl == 0 then Down(c, s1, false)
    else if hr == 0 then Down(c, s1, true)
    else if hl <= hr then var d := Down(c, s1, true); Down(d.c, d.s, false)
    else var d := Down(c, s1, false); Down(d.c, d.s, true)
  }

  lemma {:induction false} SinkOnceKeeps(c: Ctx, s: Tree)
    requires s.Fork? && (s.left.Fork? || s.right.Fork?)
    ensures var d := SinkOnce(c, s);
            SameNode(d.s, s) && Count(d.s) < Count(s) && Kept(Zip(c, s), Zip(d.c, d.s)) && d.c.In? &&
            (ExactBeside(c) && ExactBelow(s) ==> ExactBeside(d.c) && ExactBelow(d.s))
  {
    hide Kept, Rotate, Zip, ExactBeside;
    var s1, hl, hr := RefreshKids(s), NodeHeight(s.left), NodeHeight(s.right);
    RestedKids(c, s);
    if hl == 0 {
      SinkStep(c, s1, false);
      KeptTwice(Zip(c, s), Zip(c, s1), Zip(c, Rotate(s1, false)));
    } else if hr == 0 {
      SinkStep(c, s1, true);
      KeptTwice(Zip(c, s), Zip(c, s1), Zip(c, Rotate(s1, true)));
    } else {
      var first := hl <= hr;
      var d := Down(c, s1, first);
      SinkStep(c, s1, first);
      SinkStep(d.c, d.s, !first);
      KeptTwice(Zip(c, s), Zip(c, s1), Zip(c, Rotate(s1, first)));
      KeptTwice(Zip(c, s), Zip(d.c, d.s), Zip(d.c, Rotate(d.s, !first)));
    }
  }

  lemma {:induction false} RestedKids(c: Ctx, s: Tree)
    requires s.Fork?
    ensures var s1 := RefreshKids(s);
            Kept(Zip(c, s), Zip(c, s1)) && Count(s1) == Count(s) && SameNode(s1, s) && (ExactBelow(s) ==> s1 == s) &&
            (NodeHeight(s.left) == 0 <==> s1.left.Leaf?) && (NodeHeight(s.right) == 0 <==> s1.right.Leaf?) &&
            (s.left.Leaf? <==> s1.left.Leaf?) && (s.right.Leaf? <==> s1.right.Leaf?)
  {
    RefreshKidsExact(s);
    ZipKept(c, s, RefreshKids(s));
    if ExactBelow(s) {
      ExactStays(s.left);
      ExactStays(s.right);
    }
  }

  /** Where it is when it has become a leaf. */
  ghost function Sunk(c: Ctx, s: Tree): (d: Spot)
    requires s.Fork?
    ensures SameNode(d.s, s) && d.s.left.Leaf? && d.s.right.Leaf?
    ensures ExactBeside(c) && ExactBelow(s) ==> ExactBeside(d.c)
    decreases Count(s)
  {
    if s.left.Leaf? && s.right.Leaf? then Spot(c, s)
    else
      SinkOnceKeeps(c, s);
      var d := SinkOnce(c, s);
      Sunk(d.c, d.s)
  }

  lemma {:induction false} SunkKept(c: Ctx, s: Tree)
    requires s.Fork?
    ensures Kept(Zip(c, s), Zip(Sunk(c, s).c, Sunk(c, s).s))
    decreases Count(s)
  {
    hide Kept, SinkOnce, Zip;
    if s.left.Leaf? && s.right.Leaf? {
      KeptSame(Zip(c, s));
    } else {
      SinkOnceKeeps(c, s);
      var d := SinkOnce(c, s);
      SunkKept(d.c, d.s);
      KeptTwice(Zip(c, s), Zip(d.c, d.s), Zip(Sunk(d.c, d.s).c, Sunk(d.c, d.s).s));
    }
  }

  // ---------------------------------------------------------------- the whole deletion

  /** Where the search for a key ends. */
  function Found(c: Ctx, s: Tree, key: int): Spot
    decreases s
  {
    if s.Leaf? || s.key == key then Spot(c, s) else Found(Inner(c, s, key > s.key), Kid(s, key > s.key), key)
  }

  lemma {:induction false} FoundIs(c: Ctx, s: Tree, key: int)
    ensures var f := Found(c, s, key);
            Zip(f.c, f.s) == Zip(c, s) && (Lookup(s, key) != NOTFOUND ==> f.s.Fork? && f.s.key == key) &&
            (ExactBeside(c) && ExactBelow(s) ==> ExactBeside(f.c) && ExactBelow(f.s)) &&
            (Balanced(s) && BalancedFor(c, Height(s)) ==> Balanced(f.s) && BalancedFor(f.c, Height(f.s)))
    decreases s
  {
    if s.Fork? && s.key != key {
      FoundIs(Inner(c, s, key > s.key), Kid(s, key > s.key), key);
    }
  }

  /** Cutting the leaf off leaves exact heights for the walk to start with. */
  lemma CutExact(c: Ctx)
    requires c.In? && ExactBeside(c)
    ensures ExactDeep(Outer(c, Leaf)) && ExactBeside(c.up)
  {
  }

  /** The tree when the leaf at place `c` has been cut off and the walk up is over. */
  ghost function Cut(c: Ctx): (t: Tree)
    requires ExactBeside(c)
    ensures ExactBelow(t)
  {
    if c.Top? then Leaf else CutExact(c); Walked(c.up, Outer(c, Leaf))
  }

  /** The tree after the deletion of a key that is found. */
  ghost function Deleted(t: Tree, key: int): Tree
    requires ExactBelow(t) && Lookup(t, key) != NOTFOUND
  {
    FoundIs(Top, t, key);
    var f := Found(Top, t, key);
    Cut(Sunk(f.c, f.s).c)
  }

  lemma KeptSame(t: Tree)
    ensures Kept(t, t)
  {
  }

  lemma KeptTwice(t: Tree, t': Tree, t'': Tree)
    requires Kept(t, t') && Kept(t', t'')
    ensures Kept(t, t'')
  {
  }
}
