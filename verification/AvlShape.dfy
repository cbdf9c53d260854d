/**
 The balanced tree of the kernel as a value: search trees whose nodes carry a cached height,
 a place in such a tree, rotations, and the AVL invariant.
 */
module AvlShape {

  type Addr = nat

  /** A node at address `a` with the height `h` it has cached. Keys stand for their place in the
      order that the tree's comparison function defines. */
  datatype Tree = Leaf | Fork(a: Addr, key: int, val: int, h: nat, left: Tree, right: Tree)

  datatype Item = Item(key: int, val: int)

  function InOrder(t: Tree): seq<Item>
  {
    if t.Leaf? then [] else InOrder(t.left) + [Item(t.key, t.val)] + InOrder(t.right)
  }

  function Max(x: int, y: int): int { if x < y then y else x }

  function Gap(x: int, y: int): nat { if x < y then y - x else x - y }

  /** The true height. */
  function Height(t: Tree): nat
  {
    if t.Leaf? then 0 else 1 + Max(Height(t.left), Height(t.right))
  }

  function Count(t: Tree): nat
  {
    if t.Leaf? then 0 else 1 + Count(t.left) + Count(t.right)
  }

  function Addrs(t: Tree): set<Addr>
  {
    if t.Leaf? then {} else {t.a} + Addrs(t.left) + Addrs(t.right)
  }

  /** No address occurs twice. */
  ghost predicate Separate(t: Tree)
  {
    t.Leaf? ||
    (t.a != 0 && Separate(t.left) && Separate(t.right) &&
     t.a !in Addrs(t.left) && t.a !in Addrs(t.right) && Addrs(t.left) !! Addrs(t.right))
  }

  /** Every cached height is the true one. */
  ghost predicate Exact(t: Tree)
  {
    t.Fork? ==> t.h == Height(t) && Exact(t.left) && Exact(t.right)
  }

  /** Every cached height below the root is the true one. */
  ghost predicate ExactBelow(t: Tree)
  {
    t.Fork? ==> Exact(t.left) && Exact(t.right)
  }

  /** Every cached height two or more levels below the root is the true one. */
  ghost predicate ExactDeep(t: Tree)
  {
    t.Fork? ==> ExactBelow(t.left) && ExactBelow(t.right)
  }

  ghost predicate Balanced(t: Tree)
  {
    t.Fork? ==> Gap(Height(t.left), Height(t.right)) <= 1 && Balanced(t.left) && Balanced(t.right)
  }

  function Fib(n: nat): nat { if n < 2 then n else Fib(n - 1) + Fib(n - 2) }

  lemma {:induction false} FibGrows(m: nat, n: nat)
    requires m <= n
    ensures Fib(m) <= Fib(n)
    decreases n
  {
    if m < n && n >= 2 {
      if m <= n - 1 {
        FibGrows(m, n - 1);
      }
    }
  }

  /** A balanced tree of height `h` has at least Fib(h + 2) - 1 nodes. */
  lemma {:induction false} BalancedIsBushy(t: Tree)
    requires Balanced(t)
    ensures Count(t) >= Fib(Height(t) + 2) - 1
  {
    if t.Fork? {
      BalancedIsBushy(t.left);
      BalancedIsBushy(t.right);
      var h := Height(t);
      FibGrows(h, Height(t.left) + 2);
      FibGrows(h, Height(t.right) + 2);
    }
  }

  // ---------------------------------------------------------------- places in a tree

  /** What is around a subtree: the nodes above it, each with its other subtree. */
  datatype Ctx = Top | In(up: Ctx, right: bool, a: Addr, key: int, val: int, h: nat, other: Tree)

  function Parent(c: Ctx): Addr { if c.Top? then 0 else c.a }

  /** The subtree one level up when `t` is at the place. */
  function Outer(c: Ctx, t: Tree): Tree
    requires c.In?
  {
    if c.right then Fork(c.a, c.key, c.val, c.h, c.other, t) else Fork(c.a, c.key, c.val, c.h, t, c.other)
  }

  function Zip(c: Ctx, t: Tree): Tree
    decreases c
  {
    if c.Top? then t else Zip(c.up, Outer(c, t))
  }

  function Inner(c: Ctx, t: Tree, right: bool): Ctx
    requires t.Fork?
  {
    In(c, right, t.a, t.key, t.val, t.h, if right then t.left else t.right)
  }

  function Kid(t: Tree, right: bool): Tree
    requires t.Fork?
  {
    if right then t.right else t.left
  }

  function Depth(c: Ctx): nat { if c.Top? then 0 else 1 + Depth(c.up) }

  function CtxAddrs(c: Ctx): set<Addr>
  {
    if c.Top? then {} else {c.a} + Addrs(c.other) + CtxAddrs(c.up)
  }

  ghost predicate SeparateCtx(c: Ctx)
  {
    c.Top? ||
    (c.a != 0 && Separate(c.other) && SeparateCtx(c.up) &&
     c.a !in Addrs(c.other) && c.a !in CtxAddrs(c.up) && Addrs(c.other) !! CtxAddrs(c.up))
  }

  /** `t` at place `c` has no address twice. */
  ghost predicate Apart(c: Ctx, t: Tree) { SeparateCtx(c) && Separate(t) && Addrs(t) !! CtxAddrs(c) }

  function Before(c: Ctx): seq<Item>
  {
    if c.Top? then [] else if c.right then Before(c.up) + InOrder(c.other) + [Item(c.key, c.val)] else Before(c.up)
  }

  function After(c: Ctx): seq<Item>
  {
    if c.Top? then [] else if c.right then After(c.up) else [Item(c.key, c.val)] + InOrder(c.other) + After(c.up)
  }

  lemma {:induction false} ZipInOrder(c: Ctx, t: Tree)
    ensures InOrder(Zip(c, t)) == Before(c) + InOrder(t) + After(c)
    decreases c
  {
    if c.In? {
      ZipInOrder(c.up, Outer(c, t));
      Regroup(Before(c.up), InOrder(c.other), Item(c.key, c.val), InOrder(t), After(c.up));
    }
  }

  lemma Regroup(b: seq<Item>, o: seq<Item>, x: Item, m: seq<Item>, f: seq<Item>)
    ensures b + (o + [x] + m) + f == (b + o + [x]) + m + f
    ensures b + (m + [x] + o) + f == b + m + ([x] + o + f)
  {
  }

  lemma {:induction false} ZipAddrs(c: Ctx, t: Tree)
    ensures Addrs(Zip(c, t)) == CtxAddrs(c) + Addrs(t)
    ensures Separate(Zip(c, t)) <==> Apart(c, t)
    ensures Count(Zip(c, t)) == Count(t) + CtxCount(c)
    decreases c
  {
    if c.In? {
      ZipAddrs(c.up, Outer(c, t));
    }
  }

  function CtxCount(c: Ctx): nat { if c.Top? then 0 else 1 + Count(c.other) + CtxCount(c.up) }

  /** The cached heights beside the place are true. */
  ghost predicate ExactBeside(c: Ctx)
  {
    c.In? ==> Exact(c.other) && ExactBeside(c.up)
  }

  /** The whole tree would be balanced if a balanced tree of height `h` were at the place. */
  ghost predicate BalancedFor(c: Ctx, h: nat)
  {
    c.In? ==> Balanced(c.other) && Gap(h, Height(c.other)) <= 1 && BalancedFor(c.up, 1 + Max(h, Height(c.other)))
  }

  // ---------------------------------------------------------------- rotations

  function RotateLeft(t: Tree): Tree
    requires t.Fork? && t.right.Fork?
  {
    var y := t.right;
    y.(left := t.(right := y.left))
  }

  function RotateRight(t: Tree): Tree
    requires t.Fork? && t.left.Fork?
  {
    var y := t.left;
    y.(right := t.(left := y.right))
  }

  function Rotate(t: Tree, right: bool): Tree
    requires t.Fork? && Kid(t, !right).Fork?
  {
    if right then RotateRight(t) else RotateLeft(t)
  }

  lemma RotateKeeps(t: Tree, right: bool)
    requires t.Fork? && Kid(t, !right).Fork?
    ensures InOrder(Rotate(t, right)) == InOrder(t) && Addrs(Rotate(t, right)) == Addrs(t)
    ensures Count(Rotate(t, right)) == Count(t) && (Separate(t) ==> Separate(Rotate(t, right)))
  {
    if right {
      RotateOrder(t, RotateRight(t));
    } else {
      RotateOrder(RotateLeft(t), t);
    }
  }

  /** `l` has the same nodes as `r`, with the root one step to the left. */
  lemma RotateOrder(l: Tree, r: Tree)
    requires l.Fork? && l.left.Fork? && r == RotateRight(l)
    ensures InOrder(l) == InOrder(r) && Addrs(l) == Addrs(r) && Count(l) == Count(r) && (Separate(l) <==> Separate(r))
  {
    var y := l.left;
    var n := r.right;
    RotateInOrder(InOrder(y.left), Item(y.key, y.val), InOrder(y.right), Item(l.key, l.val), InOrder(l.right));
    assert InOrder(y) == InOrder(y.left) + [Item(y.key, y.val)] + InOrder(y.right);
    assert InOrder(n) == InOrder(y.right) + [Item(l.key, l.val)] + InOrder(l.right);
    assert Addrs(y) == {y.a} + Addrs(y.left) + Addrs(y.right) && Addrs(n) == {l.a} + Addrs(y.right) + Addrs(l.right);
    RotateSeparate(l, y, n, r);
  }

  lemma RotateInOrder(a: seq<Item>, y: Item, b: seq<Item>, x: Item, c: seq<Item>)
    ensures (a + [y] + b) + [x] + c == a + [y] + (b + [x] + c)
  {
  }

  lemma RotateSeparate(l: Tree, y: Tree, n: Tree, r: Tree)
    requires l.Fork? && l.left == y && y.Fork? && n == l.(left := y.right) && r == y.(right := n)
    ensures Separate(l) <==> Separate(r)
  {
    assert Addrs(y) == {y.a} + Addrs(y.left) + Addrs(y.right) && Addrs(n) == {l.a} + Addrs(y.right) + Addrs(l.right);
    assert Separate(y) <==> y.a != 0 && Separate(y.left) && Separate(y.right) && y.a !in Addrs(y.left) && y.a !in Addrs(y.right) && Addrs(y.left) !! Addrs(y.right);
    assert Separate(n) <==> l.a != 0 && Separate(y.right) && Separate(l.right) && l.a !in Addrs(y.right) && l.a !in Addrs(l.right) && Addrs(y.right) !! Addrs(l.right);
  }

  // ---------------------------------------------------------------- cached heights

  function Cached(t: Tree): nat { if t.Leaf? then 0 else t.h }

  /** What `node_height` computes from the cached heights of the children. */
  function NodeHeight(t: Tree): nat
  {
    if t.Leaf? then 0 else 1 + Max(Cached(t.left), Cached(t.right))
  }

  /** `node_height` also stores what it computes. */
  function Refresh(t: Tree): Tree
  {
    if t.Leaf? then t else t.(h := NodeHeight(t))
  }

  /** What `node_bfactor` stores. */
  function RefreshKids(t: Tree): Tree
    requires t.Fork?
  {
    t.(left := Refresh(t.left), right := Refresh(t.right))
  }

  function Bfactor(t: Tree): int
    requires t.Fork?
  {
    NodeHeight(t.right) - NodeHeight(t.left)
  }

  predicate Skewed(t: Tree)
    requires t.Fork?
  {
    Bfactor(t) < -1 || Bfactor(t) > 1
  }

  /** `Kid` replaced. */
  function WithKid(t: Tree, right: bool, k: Tree): Tree
    requires t.Fork?
  {
    if right then t.(right := k) else t.(left := k)
  }

  /** `node_rebalance` when the side `heavy` is too high. */
  function Lighten(t: Tree, heavy: bool): Tree
    requires t.Fork? && Kid(t, heavy).Fork?
  {
    var k := RefreshKids(Kid(t, heavy));
    var inward := if heavy then Bfactor(Kid(t, heavy)) < 0 else Bfactor(Kid(t, heavy)) > 0;
    if inward && Kid(k, !heavy).Fork? then Rotate(WithKid(t, heavy, Rotate(k, heavy)), !heavy)
    else Rotate(WithKid(t, heavy, k), !heavy)
  }

  lemma RefreshExact(t: Tree)
    ensures ExactBelow(t) ==> NodeHeight(t) == Height(t) && Exact(Refresh(t))
    ensures Height(Refresh(t)) == Height(t) && InOrder(Refresh(t)) == InOrder(t) && Addrs(Refresh(t)) == Addrs(t)
    ensures Count(Refresh(t)) == Count(t) && (Balanced(Refresh(t)) <==> Balanced(t)) && (Separate(Refresh(t)) <==> Separate(t))
  {
  }

  lemma RefreshKidsExact(t: Tree)
    requires t.Fork?
    ensures ExactDeep(t) ==> Bfactor(t) == Height(t.right) - Height(t.left) && ExactBelow(RefreshKids(t))
    ensures Height(RefreshKids(t)) == Height(t) && InOrder(RefreshKids(t)) == InOrder(t) && Addrs(RefreshKids(t)) == Addrs(t)
    ensures Count(RefreshKids(t)) == Count(t) && (Balanced(RefreshKids(t)) <==> Balanced(t))
    ensures Separate(RefreshKids(t)) <==> Separate(t)
    ensures Height(RefreshKids(t).left) == Height(t.left) && Height(RefreshKids(t).right) == Height(t.right)
    ensures Balanced(RefreshKids(t).left) == Balanced(t.left) && Balanced(RefreshKids(t).right) == Balanced(t.right)
  {
    RefreshExact(t.left);
    RefreshExact(t.right);
  }

  // ---------------------------------------------------------------- rebalancing

  /** The side `heavy` is more than one level higher. */
  ghost predicate Heavy(t: Tree, heavy: bool) { t.Fork? && Height(Kid(t, heavy)) >= Height(Kid(t, !heavy)) + 2 }

  lemma LightenKeeps(t: Tree, heavy: bool)
    requires t.Fork? && Kid(t, heavy).Fork?
    ensures var s := Lighten(t, heavy);
            s.Fork? && InOrder(s) == InOrder(t) && Addrs(s) == Addrs(t) && Count(s) == Count(t) && (Separate(t) ==> Separate(s))
  {
    var k := Kid(t, heavy);
    RefreshKidsExact(k);
    var k' := RefreshKids(k);
    KidKeeps(t, heavy, k');
    if Kid(k', !heavy).Fork? {
      RotateKeeps(k', heavy);
      KidKeeps(t, heavy, Rotate(k', heavy));
      RotateKeeps(WithKid(t, heavy, Rotate(k', heavy)), !heavy);
    }
    RotateKeeps(WithKid(t, heavy, k'), !heavy);
  }

  lemma KidKeeps(t: Tree, right: bool, k: Tree)
    requires t.Fork? && InOrder(k) == InOrder(Kid(t, right)) && Addrs(k) == Addrs(Kid(t, right)) && Count(k) == Count(Kid(t, right))
    requires Separate(Kid(t, right)) ==> Separate(k)
    ensures var t' := WithKid(t, right, k);
            InOrder(t') == InOrder(t) && Addrs(t') == Addrs(t) && Count(t') == Count(t) && (Separate(t) ==> Separate(t'))
  {
  }

  /** The kid on the heavy side, once its own kids are fresh, is exact below, and so on down. */
  lemma HeavyKid(t: Tree, heavy: bool)
    requires ExactBelow(t) && Heavy(t, heavy)
    ensures var k := Kid(t, heavy);
            k.Fork? && RefreshKids(k) == k && Bfactor(k) == Height(k.right) - Height(k.left) && ExactBelow(k)
  {
    var k := Kid(t, heavy);
    ExactStays(k.left);
    ExactStays(k.right);
  }

  lemma ExactStays(t: Tree)
    requires Exact(t)
    ensures Refresh(t) == t && NodeHeight(t) == Height(t)
  {
    assert ExactBelow(t);
  }

  /** On exact heights, rebalancing lowers the tree or leaves its root balanced, and all cached
      heights two levels down are true. */
  lemma LightenLowers(t: Tree, heavy: bool)
    requires ExactBelow(t) && Heavy(t, heavy)
    ensures Kid(t, heavy).Fork?
    ensures var s := Lighten(t, heavy);
            ExactDeep(s) && Height(s) <= Height(t) && (Height(s) == Height(t) ==> Gap(Height(s.left), Height(s.right)) <= 1)
  {
    HeavyKid(t, heavy);
    var k := Kid(t, heavy);
    if heavy {
      assert k == t.right;
    } else {
      assert k == t.left;
    }
  }

  /** If everything below is balanced and the root is off by two, rebalancing mends it. */
  lemma LightenMends(t: Tree, heavy: bool)
    requires ExactBelow(t) && Heavy(t, heavy) && Balanced(t.left) && Balanced(t.right) && Gap(Height(t.left), Height(t.right)) == 2
    ensures Kid(t, heavy).Fork?
    ensures Balanced(Lighten(t, heavy)) && Height(t) - 1 <= Height(Lighten(t, heavy))
  {
    HeavyKid(t, heavy);
    hide Exact, ExactBelow;
    if heavy {
      MendsRight(t);
    } else {
      MendsLeft(t);
    }
  }

  lemma MendsLeft(t: Tree)
    requires t.Fork? && t.left.Fork? && Balanced(t.left) && Balanced(t.right) && Height(t.left) == Height(t.right) + 2
    requires RefreshKids(t.left) == t.left && Bfactor(t.left) == Height(t.left.right) - Height(t.left.left)
    ensures Balanced(Lighten(t, false)) && Height(t) - 1 <= Height(Lighten(t, false))
  {
  }

  lemma MendsRight(t: Tree)
    requires t.Fork? && t.right.Fork? && Balanced(t.left) && Balanced(t.right) && Height(t.right) == Height(t.left) + 2
    requires RefreshKids(t.right) == t.right && Bfactor(t.right) == Height(t.right.right) - Height(t.right.left)
    ensures Balanced(Lighten(t, true)) && Height(t) - 1 <= Height(Lighten(t, true))
  {
  }

  // ---------------------------------------------------------------- retracing

  /** The same nodes and items in the same order. */
  ghost predicate Kept(t: Tree, t': Tree)
  {
    InOrder(t') == InOrder(t) && Addrs(t') == Addrs(t) && Count(t') == Count(t) && (Separate(t) ==> Separate(t'))
  }

  lemma ZipKept(c: Ctx, t: Tree, t': Tree)
    requires Kept(t, t')
    ensures Kept(Zip(c, t), Zip(c, t'))
  {
    ZipInOrder(c, t);
    ZipInOrder(c, t');
    ZipAddrs(c, t);
    ZipAddrs(c, t');
  }

  /** What the upward walk of an insertion knows where it stands: before the insertion the tree
      was balanced with a subtree of height `h` here, which now is at most one higher. */
  ghost predicate Due(c: Ctx, s: Tree, h: nat)
  {
    s.Fork? && BalancedFor(c, h) && Balanced(s.left) && Balanced(s.right) && h <= Height(s) <= h + 1 &&
    (Gap(Height(s.left), Height(s.right)) <= 1 || (Gap(Height(s.left), Height(s.right)) == 2 && Height(s) == h + 1))
  }

  /** What remains to be done at a node before the walk leaves it. */
  function Imbalance(s: Tree): nat
  {
    if s.Fork? && Gap(Height(s.left), Height(s.right)) > 1 then Height(s) else 0
  }

  /** The walk leaves a node that is not skewed. */
  lemma WalkOn(c: Ctx, s: Tree, h: nat)
    requires s.Fork? && ExactDeep(s) && !Skewed(s)
    ensures var s1 := RefreshKids(s);
            Kept(s, s1) && ExactBelow(s1) && (Due(c, s, h) ==> Balanced(s1) && h <= Height(s1) <= h + 1)
    ensures c.In? && Exact(c.other) ==> ExactDeep(Outer(c, RefreshKids(s)))
    ensures c.In? && Due(c, s, h) ==> Due(c.up, Outer(c, RefreshKids(s)), 1 + Max(h, Height(c.other)))
  {
    RefreshKidsExact(s);
    var s1 := RefreshKids(s);
    if c.In? && Due(c, s, h) {
      DueAbove(c, s1, h);
    }
    hide Balanced, BalancedFor, Exact;
  }

  lemma DueAbove(c: Ctx, s: Tree, h: nat)
    requires c.In? && Balanced(s) && BalancedFor(c, h) && h <= Height(s) <= h + 1
    ensures Due(c.up, Outer(c, s), 1 + Max(h, Height(c.other)))
  {
  }

  /** A skewed node is rebalanced, and the walk goes on at the node that took its place. */
  lemma WalkTurns(c: Ctx, s: Tree, h: nat)
    requires s.Fork? && ExactDeep(s) && Skewed(s)
    ensures var s1, heavy := RefreshKids(s), Bfactor(s) > 1;
            Bfactor(s1) == Bfactor(s) && RefreshKids(s1) == s1 && Kid(s1, heavy).Fork? &&
            var s2 := Lighten(s1, heavy);
            s2.Fork? && Kid(s2, !heavy).Fork? && Kid(s2, !heavy).a == s.a && Kept(s, s2) && ExactDeep(s2) && Imbalance(s2) < Imbalance(s) &&
            (Due(c, s, h) ==> Due(c, s2, h))
  {
    RefreshKidsExact(s);
    var s1, heavy := RefreshKids(s), Bfactor(s) > 1;
    ExactStays(s1.left);
    ExactStays(s1.right);
    LightenLowers(s1, heavy);
    LightenKeeps(s1, heavy);
    LightenRoot(s1, heavy);
    if Due(c, s, h) {
      LightenMends(s1, heavy);
    }
  }

  lemma LightenRoot(t: Tree, heavy: bool)
    requires t.Fork? && Kid(t, heavy).Fork?
    ensures var s := Lighten(t, heavy); s.Fork? && Kid(s, !heavy).Fork? && Kid(s, !heavy).a == t.a
  {
  }
}
