/**
 When a deletion keeps the balanced tree balanced. The node sinks to a leaf by rotations that pay no
 attention to balance, so on its way back up the walk can meet nodes whose subtrees differ by
 three or four, and it turns each of them only once.
 */
module AvlBalance {
  import opened AvlShape
  import opened AvlItems
  import opened AvlDelete

  // ---------------------------------------------------------------- the walk above the place

  /** What the walk up after a deletion knows where it stands, as long as all is well: before the
      deletion the tree was balanced with a subtree of height `h` here, which now is at most one lower. */
  ghost predicate Lowered(c: Ctx, s: Tree, h: nat)
  {
    s.Fork? && BalancedFor(c, h) && Balanced(s.left) && Balanced(s.right) && h - 1 <= Height(s) <= h &&
    (Gap(Height(s.left), Height(s.right)) <= 1 || (Gap(Height(s.left), Height(s.right)) == 2 && Height(s) == h))
  }

  lemma {:induction false} LoweredAbove(c: Ctx, s: Tree, h: nat)
    requires c.In? && Balanced(s) && BalancedFor(c, h) && h - 1 <= Height(s) <= h
    ensures Lowered(c.up, Outer(c, s), 1 + Max(h, Height(c.other)))
  {
  }

  lemma {:induction false} LoweredTurns(c: Ctx, s: Tree, h: nat)
    requires ExactDeep(s) && Lowered(c, s, h) && Skewed(s)
    ensures RefreshKids(s).Fork? && Kid(RefreshKids(s), Bfactor(s) > 1).Fork?
    ensures Lowered(c, Lighten(RefreshKids(s), Bfactor(s) > 1), h)
  {
    RefreshKidsExact(s);
    var s1, heavy := RefreshKids(s), Bfactor(s) > 1;
    LightenLowers(s1, heavy);
    LightenMends(s1, heavy);
    hide Lighten, RefreshKids, Exact;
  }

  lemma {:induction false} LoweredBalances(c: Ctx, s: Tree, h: nat)
    requires s.Fork? && ExactDeep(s) && ExactBeside(c) && Lowered(c, s, h)
    ensures Balanced(Walked(c, s))
    decreases c, Imbalance(s)
  {
    if Skewed(s) {
      hide Lowered, ExactDeep, Lighten, Imbalance, Balanced, BalancedFor;
      WalkTurns(c, s, 0);
      LoweredTurns(c, s, h);
      LoweredBalances(c, Lighten(RefreshKids(s), Bfactor(s) > 1), h);
    } else {
      WalkOn(c, s, 0);
      RefreshKidsExact(s);
      var s1 := RefreshKids(s);
      assert Balanced(s1) && h - 1 <= Height(s1) <= h;
      hide ExactDeep, Imbalance, Balanced, BalancedFor;
      if c.In? {
        LoweredAbove(c, s1, h);
        LoweredBalances(c.up, Outer(c, s1), 1 + Max(h, Height(c.other)));
      }
    }
  }

  /** From place `c` with `s` there, the walk goes on to end with `t`. */
  ghost predicate Leads(c: Ctx, s: Tree, t: Tree)
  {
    if c.Top? then t == s
    else ExactDeep(Outer(c, s)) && ExactBeside(c.up) && t == Walked(c.up, Outer(c, s))
  }

  /** A subtree that is as high as before stops nothing: the walk turns no node above it. */
  lemma {:induction false} SameHeightStays(c: Ctx, s: Tree, t: Tree)
    requires BalancedFor(c, Height(s)) && Leads(c, s, t)
    ensures Balanced(t) <==> Balanced(s)
    decreases c
  {
    if c.In? {
      var o := Outer(c, s);
      RefreshKidsExact(o);
      assert Gap(Height(o.left), Height(o.right)) <= 1 && !Skewed(o);
      WalkOn(c.up, o, 0);
      var o1 := RefreshKids(o);
      assert Balanced(o1) <==> Balanced(s);
      assert Height(o1) == 1 + Max(Height(s), Height(c.other));
      assert Leads(c.up, o1, t);
      SameHeightStays(c.up, o1, t);
    }
  }

  // ---------------------------------------------------------------- settling one node

  /** The two subtrees have different heights. */
  ghost predicate Differ(k: Tree) { k.Fork? && Height(k.left) != Height(k.right) }

  /** The side `heavy` is higher by `much`. */
  ghost predicate Tilted(x: Tree, heavy: bool, much: nat) { x.Fork? && Height(Kid(x, heavy)) == Height(Kid(x, !heavy)) + much }

  /** Balanced subtrees whose heights differ by at most two, or by three if the higher one leans. */
  ghost predicate Settles(x: Tree)
  {
    x.Fork? && Balanced(x.left) && Balanced(x.right) &&
    (Gap(Height(x.left), Height(x.right)) <= 2 ||
     (Tilted(x, true, 3) && Differ(x.right)) || (Tilted(x, false, 3) && Differ(x.left)))
  }

  /** What a turn makes of a node that is off by two: it is one lower and level, or it leans the other way. */
  ghost predicate TurnedTo(x: Tree, heavy: bool, s: Tree)
  {
    x.Fork? && s.Fork? &&
    if Differ(Kid(x, heavy)) then Height(s) == Height(x) - 1 && !Differ(s)
    else Height(s) == Height(x) && Height(Kid(s, !heavy)) == Height(Kid(s, heavy)) + 1
  }

  /** What the walk makes of a node that settles. */
  ghost predicate SettledTo(x: Tree, s: Tree)
  {
    x.Fork? && s.Fork? && Balanced(s) &&
    (Gap(Height(x.left), Height(x.right)) <= 1 ==>
      s == RefreshKids(x) && Height(s.left) == Height(x.left) && Height(s.right) == Height(x.right)) &&
    (Tilted(x, true, 2) ==> TurnedTo(x, true, s)) && (Tilted(x, false, 2) ==> TurnedTo(x, false, s)) &&
    (Tilted(x, true, 3) || Tilted(x, false, 3) ==> Height(s) == Height(x) - 1)
  }

  /** What the two sides say about a node. */
  lemma {:induction false} Sides(t: Tree, heavy: bool)
    requires t.Fork?
    ensures Height(t) == 1 + Max(Height(Kid(t, heavy)), Height(Kid(t, !heavy)))
    ensures Balanced(t) <==>
            Gap(Height(Kid(t, heavy)), Height(Kid(t, !heavy))) <= 1 && Balanced(Kid(t, heavy)) && Balanced(Kid(t, !heavy))
    ensures Differ(t) <==> Height(Kid(t, heavy)) != Height(Kid(t, !heavy))
  {
  }

  /** A node with the given subtrees on its two sides. */
  ghost predicate Joins(t: Tree, heavy: bool, k: Tree, o: Tree) { t.Fork? && Kid(t, heavy) == k && Kid(t, !heavy) == o }

  /** One rotation, or two if the higher subtree leans inward. */
  ghost predicate Turned(x: Tree, heavy: bool, s: Tree)
  {
    x.Fork? && Kid(x, heavy).Fork? && s.Fork? &&
    var k, o := Kid(x, heavy), Kid(x, !heavy);
    if Height(Kid(k, !heavy)) > Height(Kid(k, heavy)) then
      var m := Kid(k, !heavy);
      m.Fork? && Joins(Kid(s, heavy), heavy, Kid(k, heavy), Kid(m, heavy)) && Joins(Kid(s, !heavy), heavy, Kid(m, !heavy), o)
    else
      Kid(s, heavy) == Kid(k, heavy) && Joins(Kid(s, !heavy), heavy, Kid(k, !heavy), o)
  }

  lemma {:induction false} LightenTurns(x: Tree, heavy: bool)
    requires ExactBelow(x) && Heavy(x, heavy)
    ensures Kid(x, heavy).Fork? && Turned(x, heavy, Lighten(x, heavy))
  {
    HeavyKid(x, heavy);
    hide Exact, ExactBelow;
  }

  /** The heights that `Turned` relates. */
  lemma {:induction false} TurnedSides(x: Tree, heavy: bool, s: Tree)
    requires Turned(x, heavy, s)
    ensures var k := Kid(x, heavy);
            (Kid(k, !heavy).Fork? ==> Height(Kid(k, !heavy)) == 1 + Max(Height(Kid(Kid(k, !heavy), heavy)), Height(Kid(Kid(k, !heavy), !heavy)))) &&
            Height(x) == 1 + Max(Height(k), Height(Kid(x, !heavy))) && Height(k) == 1 + Max(Height(Kid(k, heavy)), Height(Kid(k, !heavy))) &&
            Height(s) == 1 + Max(Height(Kid(s, heavy)), Height(Kid(s, !heavy))) && (Differ(s) <==> Height(Kid(s, heavy)) != Height(Kid(s, !heavy))) &&
            (Differ(k) <==> Height(Kid(k, heavy)) != Height(Kid(k, !heavy)))
    ensures Kid(s, !heavy).Fork? && (Height(Kid(Kid(x, heavy), !heavy)) > Height(Kid(Kid(x, heavy), heavy)) ==> Kid(s, heavy).Fork?)
  {
    Sides(x, heavy);
    Sides(Kid(x, heavy), heavy);
    Sides(s, heavy);
    if Kid(Kid(x, heavy), !heavy).Fork? {
      Sides(Kid(Kid(x, heavy), !heavy), heavy);
    }
  }

  lemma {:induction false} TwoTurns(x: Tree, heavy: bool, s: Tree)
    requires Turned(x, heavy, s) && Tilted(x, heavy, 2) && Balanced(Kid(x, heavy)) && Balanced(Kid(x, !heavy))
    ensures Balanced(s) && TurnedTo(x, heavy, s)
  {
    hide Kid, Height, Balanced, Differ;
    var k := Kid(x, heavy);
    TurnedSides(x, heavy, s);
    Sides(k, heavy);
    Sides(s, heavy);
    Sides(Kid(s, !heavy), heavy);
    if Height(Kid(k, !heavy)) > Height(Kid(k, heavy)) {
      Sides(Kid(k, !heavy), heavy);
      Sides(Kid(s, heavy), heavy);
    }
  }

  lemma {:induction false} ThreeTurns(x: Tree, heavy: bool, s: Tree)
    requires Turned(x, heavy, s) && Tilted(x, heavy, 3) && Balanced(Kid(x, heavy)) && Balanced(Kid(x, !heavy))
    ensures if Differ(Kid(x, heavy)) then Balanced(s) && Height(s) == Height(x) - 1
            else !Balanced(s) && Height(s) == Height(x) && Gap(Height(Kid(s, heavy)), Height(Kid(s, !heavy))) == 1
  {
    hide Kid, Height, Balanced, Differ;
    var k := Kid(x, heavy);
    TurnedSides(x, heavy, s);
    Sides(k, heavy);
    Sides(s, heavy);
    Sides(Kid(s, !heavy), heavy);
    if Height(Kid(k, !heavy)) > Height(Kid(k, heavy)) {
      Sides(Kid(k, !heavy), heavy);
      Sides(Kid(s, heavy), heavy);
    }
  }

  /** Off by four, with the higher subtree and its own higher subtree both leaning inward. */
  ghost predicate FarOff(x: Tree, heavy: bool)
  {
    Tilted(x, heavy, 4) && Kid(x, heavy).Fork? && Kid(Kid(x, heavy), !heavy).Fork? &&
    Tilted(Kid(x, heavy), !heavy, 1) && Tilted(Kid(Kid(x, heavy), !heavy), !heavy, 1)
  }

  lemma {:induction false} FourTurns(x: Tree, heavy: bool, s: Tree)
    requires Turned(x, heavy, s) && FarOff(x, heavy)
    ensures !Balanced(s) && Height(s) == Height(x) - 1 && !Differ(s)
  {
    TurnedSides(x, heavy, s);
    Sides(s, heavy);
    Sides(Kid(s, !heavy), heavy);
    Sides(Kid(s, heavy), heavy);
    hide Height, Balanced, Differ;
  }

  /** Refreshing the cached heights of the children changes no height. */
  lemma {:induction false} RefreshedSame(x: Tree)
    requires x.Fork?
    ensures var x1 := RefreshKids(x);
            Height(x1) == Height(x) && Height(x1.left) == Height(x.left) && Height(x1.right) == Height(x.right) &&
            (Balanced(x1) <==> Balanced(x)) && (Balanced(x1.left) <==> Balanced(x.left)) && (Balanced(x1.right) <==> Balanced(x.right)) &&
            (Differ(x1.left) <==> Differ(x.left)) && (Differ(x1.right) <==> Differ(x.right)) &&
            (FarOff(x, true) <==> FarOff(x1, true)) && (FarOff(x, false) <==> FarOff(x1, false))
  {
    RefreshKidsExact(x);
  }

  /** The walk leaves a node whose subtrees differ by one at most. */
  lemma {:induction false} Rests(c: Ctx, x: Tree)
    requires x.Fork? && ExactDeep(x) && ExactBeside(c) && Gap(Height(x.left), Height(x.right)) <= 1
    ensures Leads(c, RefreshKids(x), Walked(c, x))
  {
    RefreshKidsExact(x);
    WalkOn(c, x, 0);
  }

  /** It turns any other one, and then leaves the node that has taken its place, if that is so there. */
  lemma {:induction false} Turns(c: Ctx, x: Tree, heavy: bool) returns (s: Tree)
    requires x.Fork? && ExactDeep(x) && ExactBeside(c) && Heavy(x, heavy)
    ensures Turned(RefreshKids(x), heavy, s)
    ensures Gap(Height(s.left), Height(s.right)) <= 1 ==> Leads(c, RefreshKids(s), Walked(c, x))
  {
    RefreshKidsExact(x);
    assert Skewed(x) && heavy == (Bfactor(x) > 1);
    WalkTurns(c, x, 0);
    LightenTurns(RefreshKids(x), heavy);
    s := Lighten(RefreshKids(x), heavy);
    hide Lighten, RefreshKids, Exact, Leads, Turned;
    if Gap(Height(s.left), Height(s.right)) <= 1 {
      Rests(c, s);
    }
  }

  lemma {:induction false} SettleTurned(c: Ctx, x: Tree, heavy: bool) returns (s: Tree)
    requires ExactDeep(x) && ExactBeside(c) && Settles(x) && (Tilted(x, heavy, 2) || Tilted(x, heavy, 3))
    ensures s.Fork? && Balanced(s) && Leads(c, s, Walked(c, x))
    ensures (Tilted(x, heavy, 2) ==> TurnedTo(x, heavy, s)) && (Tilted(x, heavy, 3) ==> Height(s) == Height(x) - 1)
  {
    hide Lighten, Exact, ExactDeep, Walked, Leads, FarOff, Turned;
    RefreshedSame(x);
    var s1 := Turns(c, x, heavy);
    var x1 := RefreshKids(x);
    if Tilted(x, heavy, 2) {
      TwoTurns(x1, heavy, s1);
    } else {
      ThreeTurns(x1, heavy, s1);
    }
    RefreshedSame(s1);
    s := RefreshKids(s1);
    hide RefreshKids, Height;
  }

  /** The walk settles such a node and goes on above it. */
  lemma {:induction false} Settle(c: Ctx, x: Tree) returns (s: Tree)
    requires ExactDeep(x) && ExactBeside(c) && Settles(x)
    ensures SettledTo(x, s) && Leads(c, s, Walked(c, x))
  {
    hide Exact, ExactDeep, Walked, Leads, TurnedTo;
    if Gap(Height(x.left), Height(x.right)) <= 1 {
      RefreshedSame(x);
      Rests(c, x);
      s := RefreshKids(x);
    } else {
      s := SettleTurned(c, x, Height(x.left) < Height(x.right));
    }
  }

  /** A node that does not settle: it is off by three with a level subtree, or far off. */
  ghost predicate Fails(x: Tree, heavy: bool)
  {
    x.Fork? && Balanced(x.left) && Balanced(x.right) && ((Tilted(x, heavy, 3) && !Differ(Kid(x, heavy))) || FarOff(x, heavy))
  }

  lemma {:induction false} Spoils(c: Ctx, x: Tree, heavy: bool) returns (s: Tree)
    requires ExactDeep(x) && ExactBeside(c) && Fails(x, heavy)
    ensures s.Fork? && !Balanced(s) && Height(s) == (if FarOff(x, heavy) then Height(x) - 1 else Height(x))
    ensures Leads(c, s, Walked(c, x))
  {
    hide Lighten, Exact, ExactDeep, Walked, Leads, Turned;
    RefreshedSame(x);
    var s1 := Turns(c, x, heavy);
    var x1 := RefreshKids(x);
    if FarOff(x, heavy) {
      FourTurns(x1, heavy, s1);
    } else {
      ThreeTurns(x1, heavy, s1);
    }
    RefreshedSame(s1);
    s := RefreshKids(s1);
    hide RefreshKids;
  }

  // ---------------------------------------------------------------- deleting a node

  ghost predicate Place(c: Ctx, s: Tree) { s.Fork? && ExactBelow(s) && ExactBeside(c) }

  /** Deleting the node `s` at place `c` puts `m` there, from where the walk goes on. */
  ghost predicate Becomes(c: Ctx, s: Tree, m: Tree)
    requires Place(c, s)
  {
    Leads(c, m, Cut(Sunk(c, s).c))
  }

  lemma {:induction false} SinkOn(c: Ctx, s: Tree)
    requires Place(c, s) && (s.left.Fork? || s.right.Fork?)
    ensures var d := SinkOnce(c, s); Place(d.c, d.s) && Sunk(c, s) == Sunk(d.c, d.s) && Count(d.s) < Count(s)
  {
    SinkOnceKeeps(c, s);
  }

  lemma {:induction false} OneDown(c: Ctx, s: Tree, right: bool)
    requires Place(c, s) && Kid(s, right).Fork? && Kid(s, !right).Leaf?
    ensures var d, k := SinkOnce(c, s), Kid(s, right);
            d.c.In? && d.c.up == c && d.c.right == !right && d.c.other == Kid(k, right) && Joins(d.s, right, Kid(k, !right), Leaf)
  {
    ExactStays(s.left);
    ExactStays(s.right);
  }

  /** Of a node with at most one child only the child's height is left. */
  lemma {:induction false} OneChild(c: Ctx, s: Tree) returns (m: Tree)
    requires Place(c, s) && (s.left.Leaf? || s.right.Leaf?) && Balanced(s.left) && Balanced(s.right)
    ensures Balanced(m) && Height(m) == Height(s) - 1 && Becomes(c, s, m)
    decreases Count(s)
  {
    if s.left.Leaf? && s.right.Leaf? {
      m := Leaf;
      if c.In? {
        CutExact(c);
      }
    } else {
      var right, d := s.right.Fork?, SinkOnce(c, s);
      OneDown(c, s, right);
      SinkOn(c, s);
      hide SinkOnce, Sunk, ExactBeside, Exact;
      var m1 := OneChild(d.c, d.s);
      m := Settle(c, Outer(d.c, m1));
    }
  }

  /** What a deletion leaves of a node with children of height at most two. */
  ghost predicate Gone(n: Tree, m: Tree)
  {
    n.Fork? && Balanced(m) && (n.left.Leaf? || n.right.Leaf? ==> Height(m) == Height(n) - 1) &&
    (Height(n.left) == Height(n.right) == 1 ==> Height(m) == 2 && Differ(m)) &&
    (Height(n.left) == Height(n.right) == 2 ==> Height(m) == 3) && Shifts(n, m, true) && Shifts(n, m, false)
  }

  /** If one child has height two and the other one: a level higher child shifts its height to the other side. */
  ghost predicate Shifts(n: Tree, m: Tree, heavy: bool)
  {
    n.Fork? &&
    (Tilted(n, heavy, 1) && Height(Kid(n, heavy)) == 2 ==>
      if Differ(Kid(n, heavy)) then Height(m) == 2 else m.Fork? && Height(Kid(m, !heavy)) == 2 && Height(Kid(m, heavy)) == 1)
  }

  /** The node between the inner subtrees of its children. */
  function Between(s: Tree): Tree
    requires s.Fork? && s.left.Fork? && s.right.Fork?
  {
    s.(left := s.left.right, right := s.right.left)
  }

  /** A node with two children, the one on the side `first` at least as high as the other. */
  ghost predicate Wide(s: Tree, first: bool)
  {
    s.Fork? && s.left.Fork? && s.right.Fork? && Balanced(s) && first == (Height(s.left) <= Height(s.right))
  }

  /** What is left in the middle has come under the outer subtree of the higher child. */
  ghost predicate Lower(s: Tree, first: bool, m: Tree, x: Tree)
  {
    Wide(s, first) && Gone(Between(s), m) && Joins(x, first, Kid(Kid(s, first), first), m)
  }

  /** And that, settled, has come beside the outer subtree of the other child. */
  ghost predicate Upper(s: Tree, first: bool, z: Tree, y: Tree)
  {
    Wide(s, first) && Joins(y, first, z, Kid(Kid(s, !first), !first))
  }

  /** The heights two levels down. */
  lemma {:induction false} Deeper(s: Tree, first: bool)
    requires Wide(s, first)
    ensures var k, o, n := Kid(s, first), Kid(s, !first), Between(s);
            k.Fork? && o.Fork? && Joins(n, first, Kid(k, !first), Kid(o, first)) && Height(o) <= Height(k) <= Height(o) + 1 &&
            Height(s) == 1 + Height(k) &&
            Height(k) == 1 + Max(Height(Kid(k, first)), Height(Kid(k, !first))) && Gap(Height(Kid(k, first)), Height(Kid(k, !first))) <= 1 &&
            Height(o) == 1 + Max(Height(Kid(o, first)), Height(Kid(o, !first))) && Gap(Height(Kid(o, first)), Height(Kid(o, !first))) <= 1 &&
            Balanced(Kid(k, first)) && Balanced(Kid(k, !first)) && Balanced(Kid(o, first)) && Balanced(Kid(o, !first))
  {
    Sides(s, first);
    Sides(Kid(s, first), first);
    Sides(Kid(s, !first), first);
    assert if first then Kid(s, first) == s.right && Kid(s, !first) == s.left else Kid(s, first) == s.left && Kid(s, !first) == s.right;
    hide Height, Balanced, Differ;
  }

  /** The same about what is left of a node. */
  lemma {:induction false} GoneSides(n: Tree, m: Tree, first: bool)
    requires Gone(n, m)
    ensures Balanced(m) && Height(n) == 1 + Max(Height(Kid(n, first)), Height(Kid(n, !first)))
    ensures Height(Kid(n, first)) == 0 || Height(Kid(n, !first)) == 0 ==> Height(m) == Height(n) - 1
    ensures Height(Kid(n, first)) == Height(Kid(n, !first)) == 1 ==> Height(m) == 2 && Differ(m)
    ensures Height(Kid(n, first)) == Height(Kid(n, !first)) == 2 ==> Height(m) == 3
    ensures Shifts(n, m, first) && Shifts(n, m, !first)
    ensures m.Fork? ==> Height(m) == 1 + Max(Height(Kid(m, first)), Height(Kid(m, !first))) && (Differ(m) <==> Height(Kid(m, first)) != Height(Kid(m, !first)))
  {
  }

  lemma {:induction false} SettlesSides(x: Tree, heavy: bool)
    requires x.Fork?
    ensures Settles(x) <==>
            Balanced(Kid(x, heavy)) && Balanced(Kid(x, !heavy)) &&
            (Gap(Height(Kid(x, heavy)), Height(Kid(x, !heavy))) <= 2 ||
             (Tilted(x, heavy, 3) && Differ(Kid(x, heavy))) || (Tilted(x, !heavy, 3) && Differ(Kid(x, !heavy))))
  {
  }

  lemma {:induction false} LowerSettles(s: Tree, first: bool, m: Tree, x: Tree)
    requires Lower(s, first, m, x) && Height(s) <= 4
    ensures Settles(x)
  {
    hide Kid, Height, Balanced, Differ, Gone, Settles;
    Deeper(s, first);
    GoneSides(Between(s), m, first);
    SettlesSides(x, first);
  }

  lemma {:induction false} SettledSides(x: Tree, z: Tree, heavy: bool)
    requires SettledTo(x, z)
    ensures x.Fork? && z.Fork? && Balanced(z)
    ensures Height(z) == 1 + Max(Height(Kid(z, heavy)), Height(Kid(z, !heavy))) && Height(x) == 1 + Max(Height(Kid(x, heavy)), Height(Kid(x, !heavy)))
    ensures Gap(Height(Kid(x, heavy)), Height(Kid(x, !heavy))) <= 1 ==>
              Height(Kid(z, heavy)) == Height(Kid(x, heavy)) && Height(Kid(z, !heavy)) == Height(Kid(x, !heavy))
    ensures (Tilted(x, heavy, 2) ==> TurnedTo(x, heavy, z)) && (Tilted(x, !heavy, 2) ==> TurnedTo(x, !heavy, z))
    ensures Tilted(x, heavy, 3) || Tilted(x, !heavy, 3) ==> Height(z) == Height(x) - 1
    ensures Differ(z) <==> Height(Kid(z, heavy)) != Height(Kid(z, !heavy))
  {
    Sides(z, heavy);
    Sides(x, heavy);
    hide Height, Balanced, Differ, RefreshKids;
  }

  /** The walk settles what is below, and what comes of that stands beside the outer subtree above. */
  ghost predicate Stacked(s: Tree, first: bool, m: Tree, x: Tree, z: Tree, y: Tree)
  {
    Lower(s, first, m, x) && SettledTo(x, z) && Upper(s, first, z, y)
  }

  lemma {:induction false} LevelStack(s: Tree, first: bool, m: Tree, x: Tree, z: Tree, y: Tree)
    requires Stacked(s, first, m, x, z, y) && Height(Kid(s, first)) == Height(Kid(s, !first)) <= 2
    ensures Settles(y)
    ensures Height(s) == 2 ==> Height(z) == 1 && Height(Kid(y, !first)) == 0
    ensures Height(s) == 3 ==> Height(Kid(y, !first)) <= 1 && (Height(z) == 2 || (Height(z) == 3 && Differ(z)))
    ensures Height(s) == 3 && Height(z) == 2 ==> !Differ(z) || Height(Kid(y, !first)) == 1
  {
    hide Kid, Height, Balanced, Differ, Gone, Settles, SettledTo;
    Deeper(s, first);
    GoneSides(Between(s), m, first);
    SettledSides(x, z, first);
    SettlesSides(y, first);
  }

  lemma {:induction false} SteepStack(s: Tree, first: bool, m: Tree, x: Tree, z: Tree, y: Tree)
    requires Stacked(s, first, m, x, z, y) && Height(Kid(s, first)) == 2 && Height(Kid(s, !first)) == 1
    ensures Settles(y) && Height(z) == 2 && Height(Kid(y, !first)) == 0 && (Differ(z) <==> Differ(Kid(s, first)))
  {
    hide Kid, Height, Balanced, Differ, Gone, Settles, SettledTo;
    Deeper(s, first);
    GoneSides(Between(s), m, first);
    SettledSides(x, z, first);
    Sides(Kid(s, first), first);
    SettlesSides(y, first);
  }

  /** `Gone` from one side. */
  lemma {:induction false} GoneFrom(s: Tree, m: Tree, first: bool)
    requires Wide(s, first) && Height(s) <= 3 && Balanced(m)
    requires Height(s) == 2 ==> Height(m) == 2 && Differ(m)
    requires Height(Kid(s, first)) == Height(Kid(s, !first)) == 2 ==> Height(m) == 3
    requires Height(s) == 3 && Height(Kid(s, !first)) == 1 ==> Shifts(s, m, first)
    ensures Gone(s, m)
  {
    Deeper(s, first);
    hide Height, Balanced, Differ;
  }

  lemma {:induction false} SmallGone(s: Tree, first: bool, m: Tree, x: Tree, z: Tree, y: Tree, s': Tree)
    requires Stacked(s, first, m, x, z, y) && Height(s) <= 3 && SettledTo(y, s')
    ensures Gone(s, s')
  {
    hide Kid, Height, Balanced, Differ, Gone, Lower, Settles, SettledTo;
    Deeper(s, first);
    SettledSides(y, s', first);
    if Height(Kid(s, first)) == Height(Kid(s, !first)) {
      LevelStack(s, first, m, x, z, y);
    } else {
      SteepStack(s, first, m, x, z, y);
    }
    GoneFrom(s, s', first);
  }

  /** On the side `heavy` the node has outgrown the other, which is thin. */
  ghost predicate Outgrows(s: Tree, heavy: bool)
  {
    s.Fork? && Height(Kid(s, heavy)) == 3 && Height(Kid(s, !heavy)) == 2 && Height(Kid(Kid(s, !heavy), !heavy)) == 0 &&
    (Height(Kid(Kid(s, heavy), heavy)) == 2 || !Differ(Kid(Kid(s, heavy), !heavy)))
  }

  lemma {:induction false} UpperBig(s: Tree, first: bool, m: Tree, x: Tree, z: Tree, y: Tree)
    requires Stacked(s, first, m, x, z, y) && Height(s) == 4
    ensures if Outgrows(s, first) then Tilted(y, first, 4) || (Tilted(y, first, 3) && !Differ(z)) else Settles(y)
  {
    hide Kid, Height, Balanced, Differ, Gone, Settles, SettledTo;
    Deeper(s, first);
    GoneSides(Between(s), m, first);
    SettledSides(x, z, first);
    SettlesSides(y, first);
  }

  /** A node off by four is far off: its higher subtree was not turned. */
  lemma {:induction false} BigIsFarOff(s: Tree, first: bool, m: Tree, x: Tree, z: Tree, y: Tree)
    requires Stacked(s, first, m, x, z, y) && Height(s) == 4 && Outgrows(s, first) && Tilted(y, first, 4)
    ensures FarOff(y, first)
  {
    hide Kid, Height, Balanced, Differ, Gone, SettledTo;
    Deeper(s, first);
    GoneSides(Between(s), m, first);
    SettledSides(x, z, first);
    SameKids(x, z, !first);
  }

  lemma {:induction false} SameKids(x: Tree, z: Tree, side: bool)
    requires SettledTo(x, z) && Gap(Height(Kid(x, side)), Height(Kid(x, !side))) <= 1 && Kid(x, side).Fork?
    ensures Kid(z, side).Fork? && Kid(Kid(z, side), side) == Kid(Kid(x, side), side) && Kid(Kid(z, side), !side) == Kid(Kid(x, side), !side)
  {
  }

  // ---------------------------------------------------------------- the whole deletion

  /** Two rotations take a node with two children down between their inner subtrees. */
  lemma {:induction false} TwoDown(c: Ctx, s: Tree, first: bool)
    requires Wide(s, first) && Place(c, s)
    ensures var d := SinkOnce(c, s);
            d.s == Between(s) && d.c.In? && d.c.right == !first && d.c.other == Kid(Kid(s, first), first) &&
            d.c.up.In? && d.c.up.right == first && d.c.up.other == Kid(Kid(s, !first), !first) && d.c.up.up == c
  {
    ExactStays(s.left);
    ExactStays(s.right);
  }

  /** Children of height at most two, both balanced. */
  ghost predicate Low(s: Tree) { s.Fork? && Balanced(s.left) && Balanced(s.right) && Height(s.left) <= 2 && Height(s.right) <= 2 }

  lemma {:induction false} BetweenLow(s: Tree, first: bool)
    requires Wide(s, first) && Height(s) <= 4
    ensures Low(Between(s)) && Height(Between(s)) < Height(s)
  {
    Deeper(s, first);
    hide Height, Balanced;
  }

  /** What comes of a node with two children before the walk is where the node was. */
  lemma {:induction false} Descend(c: Ctx, s: Tree, first: bool) returns (m: Tree, x: Tree, z: Tree, y: Tree)
    requires Place(c, s) && Wide(s, first) && Height(s) <= 4
    ensures Stacked(s, first, m, x, z, y) && ExactDeep(y) && Cut(Sunk(c, s).c) == Walked(c, y)
    decreases Height(s), 0
  {
    var d := SinkOnce(c, s);
    TwoDown(c, s, first);
    SinkOn(c, s);
    BetweenLow(s, first);
    hide SinkOnce, Sunk, Walked, Cut, Exact, ExactDeep, Wide, Balanced, Height, SettledTo, Settles, Gone;
    m := LowDelete(d.c, d.s);
    x := Outer(d.c, m);
    LowerSettles(s, first, m, x);
    z := Settle(d.c.up, x);
    y := Outer(d.c.up, z);
  }

  /** Deleting a node with children of height at most two leaves a balanced subtree. */
  lemma {:induction false} LowDelete(c: Ctx, s: Tree) returns (m: Tree)
    requires Place(c, s) && Low(s)
    ensures Gone(s, m) && Becomes(c, s, m)
    decreases Height(s), 1
  {
    if s.left.Leaf? || s.right.Leaf? {
      m := OneChild(c, s);
    } else {
      var first := Height(s.left) <= Height(s.right);
      var m0, x, z, y := Descend(c, s, first);
      hide Sunk, Walked, Cut, Exact, ExactDeep, Balanced, SettledTo, Settles, Gone, Leads;
      if Height(Kid(s, first)) == Height(Kid(s, !first)) {
        LevelStack(s, first, m0, x, z, y);
      } else {
        SteepStack(s, first, m0, x, z, y);
      }
      m := Settle(c, y);
      SmallGone(s, first, m0, x, z, y, m);
    }
  }

  /** A node of height four that has outgrown one of its sides. */
  ghost predicate Outgrown(s: Tree) { Height(s) == 4 && (Outgrows(s, true) || Outgrows(s, false)) }

  lemma {:induction false} LowHeights(s: Tree, m: Tree)
    requires Balanced(s) && Height(s) <= 3 && Gone(s, m)
    ensures Low(s) && !Outgrown(s) && Height(s) - 1 <= Height(m) <= Height(s)
  {
  }

  lemma {:induction false} BigGone(s: Tree, first: bool, m: Tree, x: Tree, z: Tree, y: Tree, s': Tree)
    requires Stacked(s, first, m, x, z, y) && Height(s) == 4 && !Outgrows(s, first) && SettledTo(y, s')
    ensures Balanced(s') && 3 <= Height(s') <= 4
  {
    hide Kid, Height, Balanced, Differ, Gone, Settles, SettledTo;
    Deeper(s, first);
    GoneSides(Between(s), m, first);
    SettledSides(x, z, first);
    SettledSides(y, s', first);
  }

  lemma {:induction false} BigWide(s: Tree, first: bool)
    requires s.Fork? && Balanced(s) && Height(s) == 4 && first == (Height(s.left) <= Height(s.right))
    ensures Wide(s, first) && (Outgrown(s) <==> Outgrows(s, first))
  {
    hide Differ;
  }

  /** A node of height four leaves a balanced subtree, at most one lower, exactly if it has not
      outgrown a side; otherwise it leaves an unbalanced one of the same height. */
  lemma {:induction false} BigDelete(c: Ctx, s: Tree) returns (s': Tree)
    requires Place(c, s) && Balanced(s) && Height(s) == 4
    ensures Becomes(c, s, s') && (Balanced(s') <==> !Outgrown(s)) && 3 <= Height(s') <= 4 && (Outgrown(s) ==> Height(s') == 4)
  {
    var first := Height(s.left) <= Height(s.right);
    BigWide(s, first);
    var m, x, z, y := Descend(c, s, first);
    hide Sunk, Walked, Cut, Exact, ExactDeep, ExactBelow, Balanced, SettledTo, Settles, Gone, Leads, Outgrown;
    UpperBig(s, first, m, x, z, y);
    if Outgrows(s, first) {
      OutgrownFails(s, first, m, x, z, y);
      s' := Spoils(c, y, first);
    } else {
      s' := Settle(c, y);
      BigGone(s, first, m, x, z, y, s');
    }
  }

  lemma {:induction false} OutgrownFails(s: Tree, first: bool, m: Tree, x: Tree, z: Tree, y: Tree)
    requires Stacked(s, first, m, x, z, y) && Height(s) == 4 && Outgrows(s, first)
    ensures Fails(y, first) && Height(y) == (if FarOff(y, first) then 5 else 4)
  {
    UpperBig(s, first, m, x, z, y);
    if Tilted(y, first, 4) {
      BigIsFarOff(s, first, m, x, z, y);
    }
    Deeper(s, first);
    Sides(y, first);
    hide Height, Balanced, Differ, Gone, FarOff;
  }

  /** The deletion of a node of height at most four keeps the tree balanced exactly if the node has
      not outgrown one of its sides. */
  lemma {:induction false} DeleteBalancesIff(t: Tree, key: int)
    requires ExactBelow(t) && Balanced(t) && Lookup(t, key) != NOTFOUND && Height(Found(Top, t, key).s) <= 4
    ensures Balanced(Deleted(t, key)) <==> !Outgrown(Found(Top, t, key).s)
  {
    FoundIs(Top, t, key);
    var f := Found(Top, t, key);
    var s', h := Leaf, Height(f.s);
    if h == 4 {
      s' := BigDelete(f.c, f.s);
    } else {
      assert Low(f.s);
      s' := LowDelete(f.c, f.s);
      LowHeights(f.s, s');
    }
    hide Found, Sunk, Walked, Cut, ExactDeep, Balanced, BalancedFor, Outgrown, Gone;
    if Outgrown(f.s) {
      SameHeightStays(f.c, s', Deleted(t, key));
    } else if f.c.In? {
      LoweredAbove(f.c, s', h);
      LoweredBalances(f.c.up, Outer(f.c, s'), 1 + Max(h, Height(f.c.other)));
    }
  }

  function One(a: Addr, key: int, val: int): Tree { Fork(a, key, val, 1, Leaf, Leaf) }

  function Two(a: Addr, key: int, val: int): Tree { Fork(a, key, val, 2, Leaf, One(a + 1, key + 1, val)) }

  /** Seven keys from `k` on, all with the value `v`, in a balanced tree at addresses from `a` on. */
  function Seven(a: Addr, k: int, v: int): Tree
  {
    Fork(a + 2, k + 2, v, 4, Two(a, k, v), Fork(a + 4, k + 4, v, 3, One(a + 3, k + 3, v), Two(a + 5, k + 5, v)))
  }

  lemma OneIs(a: Addr, k: int, v: int)
    ensures var t := One(a, k, v);
            Exact(t) && Balanced(t) && Height(t) == 1 && Addrs(t) == {a} && (a != 0 ==> Separate(t)) && InOrder(t) == [Item(k, v)]
  {
  }

  lemma TwoIs(a: Addr, k: int, v: int)
    ensures var t := Two(a, k, v);
            Exact(t) && Balanced(t) && Height(t) == 2 && Addrs(t) == {a, a + 1} && (a != 0 ==> Separate(t)) &&
            InOrder(t) == [Item(k, v), Item(k + 1, v)]
  {
    OneIs(a + 1, k + 1, v);
  }

  lemma {:induction false} SevenIsSeparate(a: Addr, k: int, v: int)
    requires a != 0
    ensures Separate(Seven(a, k, v)) && Strict(InOrder(Seven(a, k, v)))
  {
    TwoIs(a, k, v);
    OneIs(a + 3, k + 3, v);
    TwoIs(a + 5, k + 5, v);
    hide One, Two;
    var t := Seven(a, k, v);
    assert Addrs(t.right) == {a + 3, a + 4, a + 5, a + 6} && Separate(t.right);
    assert InOrder(t.right) == [Item(k + 3, v), Item(k + 4, v), Item(k + 5, v), Item(k + 6, v)];
    assert InOrder(t) == InOrder(t.left) + [Item(k + 2, v)] + InOrder(t.right);
  }

  /** The deletion of the third of them unbalances it. */
  lemma {:induction false} UnbalancingDelete(a: Addr, k: int, v: int)
    requires v != NOTFOUND
    ensures var t := Seven(a, k, v);
            Exact(t) && Balanced(t) && Lookup(t, k + 2) != NOTFOUND && !Balanced(Deleted(t, k + 2))
  {
    TwoIs(a, k, v);
    OneIs(a + 3, k + 3, v);
    TwoIs(a + 5, k + 5, v);
    var t := Seven(a, k, v);
    assert Exact(t.right) && Balanced(t.right) && Height(t.right) == 3;
    OneIs(a + 1, k + 1, v);
    DeleteBalancesIff(t, k + 2);
  }
}
