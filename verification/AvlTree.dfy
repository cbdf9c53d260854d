/**
 The balanced tree of the kernel in memory: nodes linked to their children and parent, cached
 heights refreshed only from above, insertion, search and deletion.
 */
module AvlTree {
  import opened AvlShape
  import opened AvlItems
  import opened AvlDelete

  datatype Node = Node(key: int, val: int, height: nat, parent: Addr, left: Addr, right: Addr)

  type Mem = map<Addr, Node>

  function Child(n: Node, right: bool): Addr { if right then n.right else n.left }

  function WithChild(n: Node, right: bool, a: Addr): Node { if right then n.(right := a) else n.(left := a) }

  function Root(t: Tree): Addr { if t.Leaf? then 0 else t.a }

  /** Memory holds the tree `t` under the node `up`. */
  ghost predicate Rep(mem: Mem, up: Addr, t: Tree)
    decreases t
  {
    t.Leaf? ||
    (t.a in mem && mem[t.a] == Node(t.key, t.val, t.h, up, Root(t.left), Root(t.right)) &&
     Rep(mem, t.a, t.left) && Rep(mem, t.a, t.right))
  }

  /** Memory holds what is around the place `c`, at which the node `hole` is linked. */
  ghost predicate RepCtx(mem: Mem, root: Addr, c: Ctx, hole: Addr)
    decreases c
  {
    if c.Top? then root == hole
    else
      c.a in mem &&
      mem[c.a] == WithChild(Node(c.key, c.val, c.h, Parent(c.up), Root(c.other), Root(c.other)), c.right, hole) &&
      Rep(mem, c.a, c.other) && RepCtx(mem, root, c.up, c.a)
  }

  /** Memory holds `t` at place `c`. */
  ghost predicate Held(mem: Mem, root: Addr, c: Ctx, t: Tree)
  {
    RepCtx(mem, root, c, Root(t)) && Rep(mem, Parent(c), t) && Apart(c, t)
  }

  ghost predicate SameOn(mem: Mem, mem': Mem, addrs: set<Addr>)
  {
    forall x :: x in addrs && x in mem ==> x in mem' && mem'[x] == mem[x]
  }

  lemma {:induction false} RepFrame(mem: Mem, mem': Mem, up: Addr, t: Tree)
    requires Rep(mem, up, t) && SameOn(mem, mem', Addrs(t))
    ensures Rep(mem', up, t)
    decreases t
  {
    if t.Fork? {
      RepFrame(mem, mem', t.a, t.left);
      RepFrame(mem, mem', t.a, t.right);
    }
  }

  lemma {:induction false} CtxFrame(mem: Mem, mem': Mem, root: Addr, c: Ctx, hole: Addr)
    requires RepCtx(mem, root, c, hole) && SameOn(mem, mem', CtxAddrs(c))
    ensures RepCtx(mem', root, c, hole)
    decreases c
  {
    if c.In? {
      RepFrame(mem, mem', c.a, c.other);
      CtxFrame(mem, mem', root, c.up, c.a);
    }
  }

  /** Only the root's parent link differs. */
  lemma RepMoved(mem: Mem, mem': Mem, up: Addr, up': Addr, t: Tree)
    requires Rep(mem, up, t) && Separate(t) && SameOn(mem, mem', Addrs(t) - {Root(t)})
    requires t.Fork? ==> t.a in mem' && mem'[t.a] == mem[t.a].(parent := up')
    ensures Rep(mem', up', t)
  {
    if t.Fork? {
      RepFrame(mem, mem', t.a, t.left);
      RepFrame(mem, mem', t.a, t.right);
    }
  }

  /** Stepping up one level, and down. */
  lemma StepUp(mem: Mem, root: Addr, c: Ctx, t: Tree)
    requires c.In?
    ensures Held(mem, root, c, t) <==> Held(mem, root, c.up, Outer(c, t))
  {
  }

  lemma StepDown(mem: Mem, root: Addr, c: Ctx, t: Tree, right: bool)
    requires t.Fork?
    ensures Held(mem, root, c, t) <==> Held(mem, root, Inner(c, t, right), Kid(t, right))
    ensures Zip(Inner(c, t, right), Kid(t, right)) == Zip(c, t)
  {
    StepUp(mem, root, Inner(c, t, right), Kid(t, right));
  }

  // ---------------------------------------------------------------- relinking

  function Relink(mem: Mem, parent: Addr, right: bool, y: Addr): Mem
    requires parent != 0 ==> parent in mem
  {
    if parent == 0 then mem else mem[parent := WithChild(mem[parent], right, y)]
  }

  function RelinkRoot(root: Addr, parent: Addr, y: Addr): Addr { if parent == 0 then y else root }

  function Side(c: Ctx): bool { c.In? && c.right }

  lemma Relinked(mem: Mem, root: Addr, c: Ctx, hole: Addr, y: Addr)
    requires RepCtx(mem, root, c, hole) && SeparateCtx(c)
    ensures Parent(c) != 0 ==> Parent(c) in mem
    ensures RepCtx(Relink(mem, Parent(c), Side(c), y), RelinkRoot(root, Parent(c), y), c, y)
  {
    if c.In? {
      var mem' := Relink(mem, c.a, c.right, y);
      RepFrame(mem, mem', c.a, c.other);
      CtxFrame(mem, mem', root, c.up, c.a);
    }
  }

  // ---------------------------------------------------------------- rotating

  /** The stores of a rotation of `n`, apart from the link from above. */
  function Turn(mem: Mem, n: Addr, right: bool): Mem
    requires n in mem && Child(mem[n], !right) in mem
    requires var i := Child(mem[Child(mem[n], !right)], right); i != 0 ==> i in mem
  {
    var y := Child(mem[n], !right);
    var inner := Child(mem[y], right);
    var m1 := mem[n := WithChild(mem[n], !right, inner)];
    var m2 := if inner == 0 then m1 else m1[inner := m1[inner].(parent := n)];
    var m3 := m2[y := WithChild(m2[y].(parent := m2[n].parent), right, n)];
    m3[n := m3[n].(parent := y)]
  }

  lemma TurnRep(mem: Mem, up: Addr, t: Tree, right: bool)
    requires Rep(mem, up, t) && Separate(t) && t.Fork? && Kid(t, !right).Fork?
    ensures var y := Kid(t, !right);
            t.a in mem && Child(mem[t.a], !right) == y.a && y.a in mem && mem[t.a].parent == up &&
            Child(mem[y.a], right) == Root(Kid(y, right)) && (Kid(y, right).Fork? ==> Root(Kid(y, right)) in mem)
    ensures Rep(Turn(mem, t.a, right), up, Rotate(t, right))
    ensures SameOn(mem, Turn(mem, t.a, right), mem.Keys - Addrs(t)) && Turn(mem, t.a, right).Keys == mem.Keys
  {
    var y := Kid(t, !right);
    var inner, outer, rest := Kid(y, right), Kid(y, !right), Kid(t, right);
    assert Rep(mem, t.a, y) && Rep(mem, t.a, rest) && Rep(mem, y.a, inner) && Rep(mem, y.a, outer);
    assert inner.Fork? ==> inner.a in mem && inner.a in Addrs(inner);
    var mem' := Turn(mem, t.a, right);
    assert Addrs(y) == {y.a} + Addrs(inner) + Addrs(outer) && Separate(y);
    RepMoved(mem, mem', y.a, t.a, inner);
    RepFrame(mem, mem', y.a, outer);
    RepFrame(mem, mem', t.a, rest);
  }

  lemma RotatedHeld(mem: Mem, root: Addr, c: Ctx, t: Tree, right: bool)
    requires Held(mem, root, c, t) && t.Fork? && Kid(t, !right).Fork?
    ensures t.a in mem && mem[t.a].parent == Parent(c) && Parent(c) != t.a
    ensures var y := Kid(t, !right);
            Child(mem[t.a], !right) == y.a && y.a in mem && y.a != t.a && y.a != Parent(c) && y.a != 0 &&
            Child(mem[y.a], right) == Root(Kid(y, right)) && (Kid(y, right).Fork? ==> Root(Kid(y, right)) in mem) &&
            Root(Kid(y, right)) != t.a && Root(Kid(y, right)) != y.a && (Parent(c) != 0 ==> Root(Kid(y, right)) != Parent(c))
    ensures Parent(c) != 0 ==> Parent(c) in mem && Parent(c) in Turn(mem, t.a, right) && (t.a == mem[Parent(c)].left <==> !Side(c))
    ensures Held(Relink(Turn(mem, t.a, right), Parent(c), Side(c), Kid(t, !right).a), RelinkRoot(root, Parent(c), Kid(t, !right).a), c,
                 Rotate(t, right))
  {
    var y := Kid(t, !right);
    RotateKeeps(t, right);
    TurnRep(mem, Parent(c), t, right);
    var mem1 := Turn(mem, t.a, right);
    assert SameOn(mem, mem1, CtxAddrs(c));
    CtxFrame(mem, mem1, root, c, t.a);
    Relinked(mem1, root, c, t.a, y.a);
    assert y.a in Addrs(y) && (Kid(y, right).Fork? ==> Root(Kid(y, right)) in Addrs(Kid(y, right)));
    assert c.In? ==> c.a in CtxAddrs(c) && Addrs(c.other) <= CtxAddrs(c);
    var mem2 := Relink(mem1, Parent(c), Side(c), y.a);
    RepFrame(mem1, mem2, Parent(c), Rotate(t, right));
    assert c.In? ==> mem[c.a].left == if c.right then Root(c.other) else t.a;
  }

  /** The stores in the order the program makes them. */
  lemma TurnInPlace(mem: Mem, n: Addr, right: bool, p: Addr, side: bool)
    requires n in mem && Child(mem[n], !right) in mem && p == mem[n].parent && p != n
    requires var y := Child(mem[n], !right);
             var i := Child(mem[y], right);
             y != n && y != p && i != n && i != y && (i != 0 ==> i in mem && i != p) && (p != 0 ==> p in mem && p in Turn(mem, n, right))
    ensures var y := Child(mem[n], !right);
            var i := Child(mem[y], right);
            var m1 := mem[n := WithChild(mem[n], !right, i)];
            var m2 := if i == 0 then m1 else m1[i := m1[i].(parent := n)];
            var m3 := m2[y := m2[y].(parent := p)];
            var m4 := if p == 0 then m3 else m3[p := WithChild(m3[p], side, y)];
            var m5 := m4[y := WithChild(m4[y], right, n)];
            m5[n := m5[n].(parent := y)] == Relink(Turn(mem, n, right), p, side, y)
  {
    var y := Child(mem[n], !right);
    var i := Child(mem[y], right);
    var m1 := mem[n := WithChild(mem[n], !right, i)];
    var m2 := if i == 0 then m1 else m1[i := m1[i].(parent := n)];
    assert m2[n].parent == p && m2[y] == mem[y] && (p != 0 ==> m2[p] == mem[p]);
    Swap(m2, n, y, p, side, right);
  }

  lemma Swap(m: Mem, n: Addr, y: Addr, p: Addr, side: bool, right: bool)
    requires n in m && y in m && n != y && n != p && y != p && (p != 0 ==> p in m)
    ensures var m3 := m[y := m[y].(parent := p)];
            var m4 := if p == 0 then m3 else m3[p := WithChild(m3[p], side, y)];
            var m5 := m4[y := WithChild(m4[y], right, n)];
            var t3 := m[y := WithChild(m[y].(parent := p), right, n)];
            m5[n := m5[n].(parent := y)] == Relink(t3[n := t3[n].(parent := y)], p, side, y)
  {
    hide WithChild;
    var m3 := m[y := m[y].(parent := p)];
    var t3 := m[y := WithChild(m[y].(parent := p), right, n)];
    if p != 0 {
      var m4 := m3[p := WithChild(m3[p], side, y)];
      assert m4[y := WithChild(m4[y], right, n)] == t3[p := WithChild(m[p], side, y)];
    }
  }

  lemma HeightHeld(mem: Mem, up: Addr, t: Tree, k: nat)
    requires Rep(mem, up, t) && Separate(t) && t.Fork?
    ensures t.a in mem && Rep(mem[t.a := mem[t.a].(height := k)], up, t.(h := k))
  {
    var mem' := mem[t.a := mem[t.a].(height := k)];
    RepFrame(mem, mem', t.a, t.left);
    RepFrame(mem, mem', t.a, t.right);
  }

  lemma KidHeld(mem: Mem, mem': Mem, up: Addr, t: Tree, right: bool, k: Tree)
    requires Rep(mem, up, t) && Separate(t) && t.Fork? && Rep(mem', t.a, k) && Root(k) == Root(Kid(t, right))
    requires SameOn(mem, mem', mem.Keys - Addrs(Kid(t, right)))
    ensures Rep(mem', up, WithKid(t, right, k))
  {
    RepFrame(mem, mem', t.a, Kid(t, !right));
  }

  class Avl {
    var mem: Mem
    var root: Addr
    var len: nat
    ghost var t: Tree

    /** The nodes in memory are the tree `t`, in order of their keys, with true heights cached
        everywhere but perhaps at the root. */
    ghost predicate Valid()
      reads this
    {
      Held(mem, root, Top, t) && Sorted(InOrder(t)) && ExactBelow(t) && len == Count(t)
    }

    /** `create_tree`; the source leaves `len` unset. */
    constructor ()
      ensures Valid() && t == Leaf
    {
      mem, root, len, t := map[], 0, 0, Leaf;
    }

    /** `rotate_left` and `rotate_right`, which mirror each other. */
    method Rotate(n: Addr, right: bool, ghost c: Ctx, ghost s: Tree)
      requires Held(mem, root, c, s) && s.Fork? && n == s.a && Kid(s, !right).Fork?
      modifies this`mem, this`root
      ensures Held(mem, root, c, AvlShape.Rotate(s, right)) && mem.Keys == old(mem).Keys
    {
      hide Held, AvlShape.Rotate, Turn, Relink;
      RotatedHeld(mem, root, c, s, right);
      TurnInPlace(mem, n, right, Parent(c), Side(c));
      var y := Child(mem[n], !right);
      var inner := Child(mem[y], right);
      mem := mem[n := WithChild(mem[n], !right, inner)];
      if inner != 0 {
        mem := mem[inner := mem[inner].(parent := n)];
      }
      var p := mem[n].parent;
      mem := mem[y := mem[y].(parent := p)];
      if p == 0 {
        root := y;
      } else {
        mem := mem[p := WithChild(mem[p], n != mem[p].left, y)];
      }
      mem := mem[y := WithChild(mem[y], right, n)];
      mem := mem[n := mem[n].(parent := y)];
    }

    /** `node_height` */
    method NodeHeight(n: Addr, ghost up: Addr, ghost s: Tree) returns (h: nat)
      requires Rep(mem, up, s) && Separate(s) && n == Root(s)
      modifies this`mem
      ensures h == AvlShape.NodeHeight(s) && Rep(mem, up, Refresh(s))
      ensures SameOn(old(mem), mem, old(mem).Keys - Addrs(s)) && mem.Keys == old(mem).Keys
    {
      if n == 0 {
        return 0;
      }
      var tempL, tempR := 0, 0;
      if mem[n].left != 0 {
        tempL := mem[mem[n].left].height;
      }
      if mem[n].right != 0 {
        tempR := mem[mem[n].right].height;
      }
      h := if tempL + 1 > tempR + 1 then tempL + 1 else tempR + 1;
      HeightHeld(mem, up, s, h);
      mem := mem[n := mem[n].(height := h)];
    }

    /** `node_height` of both children */
    method KidHeights(n: Addr, ghost c: Ctx, ghost s: Tree) returns (hl: int, hr: int)
      requires Held(mem, root, c, s) && s.Fork? && n == s.a
      modifies this`mem
      ensures hl == AvlShape.NodeHeight(s.left) && hr == AvlShape.NodeHeight(s.right)
      ensures Held(mem, root, c, RefreshKids(s)) && mem.Keys == old(mem).Keys
    {
      ghost var m0, up := mem, Parent(c);
      hr := NodeHeight(mem[n].right, n, s.right);
      KidHeld(m0, mem, up, s, true, Refresh(s.right));
      ghost var s1, m1 := WithKid(s, true, Refresh(s.right)), mem;
      RefreshExact(s.right);
      hl := NodeHeight(mem[n].left, n, s1.left);
      KidHeld(m1, mem, up, s1, false, Refresh(s1.left));
      RefreshKidsExact(s);
      CtxFrame(old(mem), mem, root, c, n);
    }

    /** `node_bfactor` */
    method Bfactor(n: Addr, ghost c: Ctx, ghost s: Tree) returns (b: int)
      requires Held(mem, root, c, s) && s.Fork? && n == s.a
      modifies this`mem
      ensures Held(mem, root, c, RefreshKids(s)) && b == AvlShape.Bfactor(s) && mem.Keys == old(mem).Keys
    {
      var hl, hr := KidHeights(n, c, s);
      b := hr - hl;
    }

    /** `node_rebalance`: whatever the cached heights are, no rotation goes through a null child. */
    method Rebalance(n: Addr, ghost c: Ctx, ghost s: Tree)
      requires Held(mem, root, c, s) && s.Fork? && n == s.a
      modifies this`mem, this`root
      ensures Held(mem, root, c, Rebalanced(s)) && mem.Keys == old(mem).Keys
    {
      ghost var s1 := RefreshKids(s);
      RebalancedCases(s);
      var b := Bfactor(n, c, s);
      if b < -1 {
        LightenSide(n, false, c, s1);
      } else if b > 1 {
        LightenSide(n, true, c, s1);
      }
    }

    /** The half of `node_rebalance` for one side. */
    method LightenSide(n: Addr, heavy: bool, ghost c: Ctx, ghost s: Tree)
      requires Held(mem, root, c, s) && s.Fork? && n == s.a && Kid(s, heavy).Fork?
      modifies this`mem, this`root
      ensures Held(mem, root, c, Lighten(s, heavy)) && mem.Keys == old(mem).Keys
    {
      ghost var k, c1 := Kid(s, heavy), Inner(c, s, heavy);
      ghost var k1 := RefreshKids(k);
      StepDown(mem, root, c, s, heavy);
      InwardFork(k, heavy);
      var m := Child(mem[n], heavy);
      var b := Bfactor(m, c1, k);
      if (if heavy then b < 0 else b > 0) {
        Rotate(m, heavy, c1, k1);
        StepUp(mem, root, c1, AvlShape.Rotate(k1, heavy));
        Rotate(n, !heavy, c, WithKid(s, heavy, AvlShape.Rotate(k1, heavy)));
      } else {
        StepUp(mem, root, c1, k1);
        Rotate(n, !heavy, c, WithKid(s, heavy, k1));
      }
    }

    /** The walk up from `start` to the root after an insertion or a deletion: it ends, and all cached
        heights below the root are true again. */
    method Retrace(start: Addr, ghost c0: Ctx, ghost s0: Tree) returns (ghost t': Tree)
      requires Held(mem, root, c0, s0) && s0.Fork? && start == s0.a && ExactDeep(s0) && ExactBeside(c0)
      modifies this`mem, this`root
      ensures t' == Walked(c0, s0) && Held(mem, root, Top, t') && Kept(Zip(c0, s0), t') && ExactBelow(t')
      ensures mem.Keys == old(mem).Keys
    {
      hide Held, ExactDeep, Exact, Balanced, BalancedFor, Kept, Imbalance, Lighten;
      var n := start;
      ghost var c, s := c0, s0;
      NodeHeld(mem, root, c, s);
      WalkedKept(c, s);
      while n != 0
        invariant Held(mem, root, c, s) && mem.Keys == old(mem).Keys
        invariant n == 0 ==> c.Top? && s == Walked(c0, s0)
        invariant n != 0 ==> s.Fork? && n == s.a && ExactDeep(s) && ExactBeside(c) && Walked(c, s) == Walked(c0, s0)
        decreases if n == 0 then 0 else 1 + Depth(c), Imbalance(s)
      {
        var b := Bfactor(n, c, s);
        if b < -1 || b > 1 {
          WalkTurns(c, s, 0);
          RebalancedCases(RefreshKids(s));
          Rebalance(n, c, RefreshKids(s));
          ghost var heavy := b > 1;
          s := Lighten(RefreshKids(s), heavy);
          ParentOf(mem, root, c, s, !heavy);
          n := mem[n].parent;
        } else {
          WalkOn(c, s, 0);
          s := RefreshKids(s);
          ParentAbove(mem, root, c, s);
          n := mem[n].parent;
          if c.In? {
            StepUp(mem, root, c, s);
            c, s := c.up, Outer(c, s);
          }
        }
      }
      t' := s;
    }

    /** `tree_search` */
    method Search(key: int) returns (val: int)
      requires Valid()
      ensures val == Lookup(t, key)
    {
      if len == 0 {
        return NOTFOUND;
      }
      var n := root;
      ghost var c, s := Top, t;
      while n != 0
        invariant Held(mem, root, c, s) && n == Root(s) && Lookup(s, key) == Lookup(t, key)
        decreases s
      {
        if key == mem[n].key {
          return mem[n].val;
        }
        var right := key > mem[n].key;
        StepDown(mem, root, c, s, right);
        n := Child(mem[n], right);
        c, s := Inner(c, s, right), Kid(s, right);
      }
      return NOTFOUND;
    }

    /** `tree_insert`; `x` is the address of the new node. */
    method Insert(key: int, val: int, x: Addr) returns (ghost i: nat)
      requires Valid() && x != 0 && x !in Addrs(t)
      modifies this
      ensures Valid()
      ensures Lookup(old(t), key) != NOTFOUND ==> t == old(t)
      ensures Lookup(old(t), key) == NOTFOUND ==>
                i <= |InOrder(old(t))| && InOrder(t) == Inserted(InOrder(old(t)), i, Item(key, val)) &&
                Addrs(t) == Addrs(old(t)) + {x}
      ensures Balanced(old(t)) ==> Balanced(t)
    {
      i := 0;
      var found := Search(key);
      if found != NOTFOUND {
        return;
      }
      ghost var t0 := t;
      FreshHeld(mem, root, t, x, Node(key, val, 0, 0, 0, 0));
      mem := mem[x := Node(key, val, 0, 0, 0, 0)];
      len := len + 1;
      if root == 0 {
        NullIsLeaf(mem, root, t);
        root := x;
        t := Fork(x, key, val, 0, Leaf, Leaf);
        assert InOrder(t0) == [] && InOrder(t) == [Item(key, val)];
        SingleHeld(mem, x, key, val);
        return;
      }
      var n;
      ghost var c, s, right;
      n, c, s, right := Attach(key, val, x);
      Grown(c, s, right, x, key, val);
      ghost var s' := WithKid(s, right, Fork(x, key, val, 0, Leaf, Leaf));
      i := |Before(Inner(c, s, right))|;
      InsertedHere(c, s, right, x, key, val);
      InsertedNode(c, s, right, x, key, val);
      hide Held, Sorted, ExactBelow, Balanced, Due, Apart;
      if Balanced(t0) {
        InsertBalances(c, s', Height(s));
      }
      t := Retrace(n, c, s');
    }

    /** The walk of `tree_insert` down to a free place, and the new node's links. */
    method Attach(key: int, val: int, x: Addr) returns (n: Addr, ghost c: Ctx, ghost s: Tree, ghost right: bool)
      requires Held(mem, root, Top, t) && t.Fork? && Sorted(InOrder(t)) && ExactBelow(t)
      requires x in mem && mem[x] == Node(key, val, 0, 0, 0, 0) && x != 0 && x !in Addrs(t)
      modifies this`mem
      ensures s.Fork? && n == s.a && Kid(s, right).Leaf? && Zip(c, s) == t && Around(Inner(c, s, right), key)
      ensures Held(mem, root, c, WithKid(s, right, Fork(x, key, val, 0, Leaf, Leaf)))
      ensures ExactBeside(c) && ExactBelow(s) && (Balanced(t) ==> Balanced(s) && BalancedFor(c, Height(s)))
    {
      n := root;
      c, s := Top, t;
      assert n == s.a && Around(c, key) && ExactBeside(c) && BalancedFor(c, Height(s));
      hide Held, Sorted, Balanced, BalancedFor, ExactBeside, ExactBelow, Around;
      while true
        invariant mem == old(mem) && Held(mem, root, c, s) && s.Fork? && n == s.a && Zip(c, s) == t && Around(c, key)
        invariant ExactBeside(c) && ExactBelow(s) && (Balanced(t) ==> Balanced(s) && BalancedFor(c, Height(s)))
        decreases s
      {
        NodeHeld(mem, root, c, s);
        var rightward := key >= mem[n].key;
        right := rightward;
        AroundStep(c, s, key, right);
        Descends(c, s, right);
        if Child(mem[n], rightward) == 0 {
          AttachHeld(mem, root, c, s, right, x, key, val);
          mem := mem[n := WithChild(mem[n], rightward, x)];
          mem := mem[x := mem[x].(parent := n)];
          break;
        }
        StepDown(mem, root, c, s, right);
        n := Child(mem[n], rightward);
        c, s := Inner(c, s, right), Kid(s, right);
      }
    }

    /** `tree_delete` of a node that no iterator refers to. */
    method Delete(key: int) returns (ghost i: nat)
      requires Valid()
      modifies this
      ensures Valid()
      ensures Lookup(old(t), key) == NOTFOUND ==> t == old(t)
      ensures Lookup(old(t), key) != NOTFOUND ==>
                i < |InOrder(old(t))| && InOrder(old(t))[i].key == key && InOrder(t) == Removed(InOrder(old(t)), i) &&
                t == Deleted(old(t), key)
    {
      i := 0;
      if len == 0 {
        return;
      }
      var found := Search(key);
      if found == NOTFOUND {
        return;
      }
      var n;
      ghost var c, s;
      n, c, s := Locate(key);
      FoundIs(Top, t, key);
      i := RemoveNode(n, c, s);
    }

    /** The walk of `tree_delete` to the node it removes. */
    method Locate(key: int) returns (n: Addr, ghost c: Ctx, ghost s: Tree)
      requires Valid() && Lookup(t, key) != NOTFOUND
      ensures Held(mem, root, c, s) && s.Fork? && n == s.a && s.key == key && Zip(c, s) == t && ExactBeside(c) && ExactBelow(s)
      ensures Spot(c, s) == Found(Top, t, key)
    {
      n := root;
      c, s := Top, t;
      while n != 0
        invariant Held(mem, root, c, s) && n == Root(s) && Lookup(s, key) != NOTFOUND && Zip(c, s) == t
        invariant ExactBeside(c) && ExactBelow(s) && Found(c, s, key) == Found(Top, t, key)
        decreases s
      {
        if key == mem[n].key {
          return;
        }
        var right := key > mem[n].key;
        StepDown(mem, root, c, s, right);
        n := Child(mem[n], right);
        c, s := Inner(c, s, right), Kid(s, right);
      }
    }

    /** `remove_node` */
    method RemoveNode(n: Addr, ghost c0: Ctx, ghost s0: Tree) returns (ghost i: nat)
      requires Valid() && Held(mem, root, c0, s0) && s0.Fork? && n == s0.a && Zip(c0, s0) == t && ExactBeside(c0) && ExactBelow(s0)
      modifies this
      ensures Valid() && i < |InOrder(old(t))| && InOrder(old(t))[i] == Item(s0.key, s0.val)
      ensures InOrder(t) == Removed(InOrder(old(t)), i) && t == Cut(Sunk(c0, s0).c)
    {
      ZipAddrs(c0, s0);
      len := len - 1;
      ghost var c, s := SinkToLeaf(n, c0, s0);
      SunkKept(c0, s0);
      ghost var t1, items := Zip(c, s), InOrder(t);
      i := |Before(c)|;
      CutLeaf(c, s);
      UnlinkHeld(mem, root, c, s);
      hide Held, Sorted, Kept;
      var p := mem[n].parent;
      if p == 0 {
        root := 0;
      } else {
        mem := mem[p := WithChild(mem[p], mem[p].left != n, 0)];
      }
      // The walk up starts at the node itself, which has no children left and needs nothing.
      t := Leaf;
      if p != 0 {
        StepUp(mem, root, c, Leaf);
        t := Retrace(p, c.up, Outer(c, Leaf));
      }
      Forgotten(mem, root, t, n);
      mem := mem - {n};
      KeptCut(old(t), t1, Zip(c, Leaf), t, i);
      RemovedSorted(items, i);
    }

    /** The first loop of `remove_node`: rotates the node down until it is a leaf, whatever the
        cached heights are. */
    method SinkToLeaf(n: Addr, ghost c0: Ctx, ghost s0: Tree) returns (ghost c: Ctx, ghost s: Tree)
      requires Held(mem, root, c0, s0) && s0.Fork? && n == s0.a
      modifies this`mem, this`root
      ensures Held(mem, root, c, s) && Spot(c, s) == Sunk(c0, s0) && mem.Keys == old(mem).Keys
    {
      c, s := c0, s0;
      hide Held, Kept, AvlShape.Rotate;
      NodeHeld(mem, root, c, s);
      while mem[n].left != 0 || mem[n].right != 0
        invariant n in mem && Held(mem, root, c, s) && s.Fork? && n == s.a && Sunk(c, s) == Sunk(c0, s0)
        invariant mem[n].left == Root(s.left) && mem[n].right == Root(s.right) && mem.Keys == old(mem).Keys
        decreases Count(s)
      {
        NodeHeld(mem, root, c, s);
        SinkOnceKeeps(c, s);
        RestedKids(c, s);
        var hl, hr := KidHeights(n, c, s);
        ghost var s1 := RefreshKids(s);
        if hl == 0 {
          c, s := TurnDown(n, false, c, s1);
        } else if hr == 0 {
          c, s := TurnDown(n, true, c, s1);
        } else if hl <= hr {
          c, s := TurnDown(n, true, c, s1);
          c, s := TurnDown(n, false, c, s);
        } else {
          c, s := TurnDown(n, false, c, s1);
          c, s := TurnDown(n, true, c, s);
        }
        NodeHeld(mem, root, c, s);
      }
      RootsAreLeaves(mem, root, c, s);
    }

    /** One rotation down. */
    method TurnDown(n: Addr, right: bool, ghost c: Ctx, ghost s: Tree) returns (ghost c': Ctx, ghost s': Tree)
      requires Held(mem, root, c, s) && s.Fork? && n == s.a && Kid(s, !right).Fork?
      modifies this`mem, this`root
      ensures Held(mem, root, c', s') && Spot(c', s') == Down(c, s, right) && mem.Keys == old(mem).Keys
      ensures SameNode(s', s) && Kid(s', right) == Kid(s, right)
    {
      SinkStep(c, s, right);
      hide Held, AvlShape.Rotate;
      Rotate(n, right, c, s);
      ghost var r := AvlShape.Rotate(s, right);
      StepDown(mem, root, c, r, right);
      c', s' := Inner(c, r, right), Kid(r, right);
    }
  }

  /** A key whose stored value is the sentinel is stored a second time. */
  method StoreTwice() returns (tree: Avl)
    ensures fresh(tree) && tree.Valid() && !Strict(InOrder(tree.t))
  {
    tree := new Avl();
    ghost var i := tree.Insert(5, NOTFOUND, 8);
    assert InOrder(tree.t) == [Item(5, NOTFOUND)];
    LookupIsMap(tree.t, 5, map[5 := NOTFOUND]);
    i := tree.Insert(5, 1, 16);
    InsertedAt([Item(5, NOTFOUND)], i, Item(5, 1));
    assert InOrder(tree.t)[0].key == InOrder(tree.t)[1].key;
  }

  function Rebalanced(s: Tree): Tree
    requires s.Fork?
  {
    var s1 := RefreshKids(s);
    if AvlShape.Bfactor(s) < -1 && s1.left.Fork? then Lighten(s1, false)
    else if AvlShape.Bfactor(s) > 1 && s1.right.Fork? then Lighten(s1, true)
    else s1
  }

  /** A side that is too high is not empty. */
  lemma RebalancedCases(s: Tree)
    requires s.Fork?
    ensures var s1 := RefreshKids(s);
            (AvlShape.Bfactor(s) < -1 ==> s1.left.Fork? && Rebalanced(s) == Lighten(s1, false)) &&
            (AvlShape.Bfactor(s) > 1 ==> s1.right.Fork? && Rebalanced(s) == Lighten(s1, true))
  {
  }

  lemma InwardFork(k: Tree, heavy: bool)
    requires k.Fork?
    ensures (if heavy then AvlShape.Bfactor(k) < 0 else AvlShape.Bfactor(k) > 0) ==> Kid(RefreshKids(k), !heavy).Fork?
  {
  }

  lemma ParentOf(mem: Mem, root: Addr, c: Ctx, s: Tree, right: bool)
    requires Held(mem, root, c, s) && s.Fork? && Kid(s, right).Fork?
    ensures Kid(s, right).a in mem && mem[Kid(s, right).a].parent == s.a != 0
  {
    assert Rep(mem, s.a, Kid(s, right));
  }

  lemma ParentAbove(mem: Mem, root: Addr, c: Ctx, s: Tree)
    requires Held(mem, root, c, s) && s.Fork?
    ensures s.a in mem && mem[s.a].parent == Parent(c) && (c.In? <==> Parent(c) != 0)
  {
  }

  lemma NodeHeld(mem: Mem, root: Addr, c: Ctx, s: Tree)
    requires Held(mem, root, c, s) && s.Fork?
    ensures s.a in mem && s.a != 0 && mem[s.a] == Node(s.key, s.val, s.h, Parent(c), Root(s.left), Root(s.right))
    ensures Root(s.left) == 0 <==> s.left.Leaf?
    ensures Root(s.right) == 0 <==> s.right.Leaf?
  {
    assert Separate(s.left) && Separate(s.right);
  }

  lemma NullIsLeaf(mem: Mem, root: Addr, t: Tree)
    requires Held(mem, root, Top, t) && root == 0
    ensures t.Leaf?
  {
  }

  lemma RootsAreLeaves(mem: Mem, root: Addr, c: Ctx, s: Tree)
    requires Held(mem, root, c, s) && s.Fork? && Root(s.left) == 0 && Root(s.right) == 0
    ensures s.left.Leaf? && s.right.Leaf?
  {
    NodeHeld(mem, root, c, s);
  }

  /** The items when the leaf `s` at place `c` is cut off. */
  lemma CutLeaf(c: Ctx, s: Tree)
    requires s.Fork? && s.left.Leaf? && s.right.Leaf? && Apart(c, s)
    ensures var items, i := InOrder(Zip(c, s)), |Before(c)|;
            i < |items| && items[i] == Item(s.key, s.val) && InOrder(Zip(c, Leaf)) == Removed(items, i)
    ensures Count(Zip(c, Leaf)) == Count(Zip(c, s)) - 1 && s.a !in Addrs(Zip(c, Leaf))
    ensures ExactBeside(c) && c.In? ==> ExactDeep(Outer(c, Leaf))
  {
    ZipInOrder(c, s);
    ZipInOrder(c, Leaf);
    ZipAddrs(c, s);
    ZipAddrs(c, Leaf);
    assert s.a in Addrs(s);
  }

  lemma UnlinkHeld(mem: Mem, root: Addr, c: Ctx, s: Tree)
    requires Held(mem, root, c, s) && s.Fork?
    ensures s.a in mem && mem[s.a].parent == Parent(c) && (c.In? <==> Parent(c) != 0)
    ensures Parent(c) != 0 ==> Parent(c) in mem && (mem[Parent(c)].left != s.a <==> Side(c))
    ensures Held(Relink(mem, Parent(c), Side(c), 0), RelinkRoot(root, Parent(c), 0), c, Leaf)
  {
    Relinked(mem, root, c, s.a, 0);
    assert s.a in Addrs(s) && (c.In? ==> c.a in CtxAddrs(c) && Addrs(c.other) <= CtxAddrs(c));
    assert c.In? && c.other.Fork? ==> c.other.a in Addrs(c.other);
  }

  lemma Forgotten(mem: Mem, root: Addr, t: Tree, n: Addr)
    requires Held(mem, root, Top, t) && n !in Addrs(t)
    ensures Held(mem - {n}, root, Top, t)
  {
    RepFrame(mem, mem - {n}, 0, t);
  }

  lemma KeptCut(t0: Tree, t1: Tree, t2: Tree, t3: Tree, i: nat)
    requires Kept(t0, t1) && i < |InOrder(t1)| && InOrder(t2) == Removed(InOrder(t1), i) && Kept(t2, t3) && Count(t2) == Count(t1) - 1
    ensures i < |InOrder(t0)| && InOrder(t0)[i] == InOrder(t1)[i] && InOrder(t3) == Removed(InOrder(t0), i)
    ensures Count(t3) == Count(t0) - 1 && Addrs(t3) == Addrs(t2)
  {
    hide InOrder, Count, Addrs, Removed, Separate;
  }

  // ---------------------------------------------------------------- inserting

  lemma SingleHeld(mem: Mem, x: Addr, key: int, val: int)
    requires x != 0 && x in mem && mem[x] == Node(key, val, 0, 0, 0, 0)
    ensures Held(mem, x, Top, Fork(x, key, val, 0, Leaf, Leaf))
  {
    var t := Fork(x, key, val, 0, Leaf, Leaf);
    assert Addrs(t.left) == {} && Separate(t.left);
  }

  lemma FreshHeld(mem: Mem, root: Addr, t: Tree, x: Addr, n: Node)
    requires Held(mem, root, Top, t) && x !in Addrs(t)
    ensures Held(mem[x := n], root, Top, t)
  {
    RepFrame(mem, mem[x := n], 0, t);
  }

  /** The key fits between what is before the place and what is after it. */
  ghost predicate Around(c: Ctx, key: int)
  {
    (forall j :: 0 <= j < |Before(c)| ==> Before(c)[j].key <= key) && (forall j :: 0 <= j < |After(c)| ==> key <= After(c)[j].key)
  }

  /** Below a place, heights stay true and subtrees balanced. */
  lemma Descends(c: Ctx, s: Tree, right: bool)
    requires s.Fork?
    ensures ExactBeside(c) && ExactBelow(s) ==> ExactBeside(Inner(c, s, right)) && ExactBelow(Kid(s, right))
    ensures Balanced(s) && BalancedFor(c, Height(s)) ==>
              Balanced(Kid(s, right)) && BalancedFor(Inner(c, s, right), Height(Kid(s, right)))
  {
  }

  lemma AroundStep(c: Ctx, s: Tree, key: int, right: bool)
    requires s.Fork? && Sorted(InOrder(Zip(c, s))) && Around(c, key) && (if right then s.key <= key else key <= s.key)
    ensures Around(Inner(c, s, right), key)
  {
    hide InOrder, Sorted, Zip, Before, After;
    ZipInOrder(c, s);
    MiddleSorted(Before(c), InOrder(s), After(c));
    SortedParts(s);
    InnerItems(c, s);
    AllAtMost(Before(c), InOrder(s.left), Item(s.key, s.val), key);
    AllAtLeast(Item(s.key, s.val), InOrder(s.right), After(c), key);
  }

  lemma InnerItems(c: Ctx, s: Tree)
    requires s.Fork?
    ensures Before(Inner(c, s, false)) == Before(c) && After(Inner(c, s, true)) == After(c)
    ensures Before(Inner(c, s, true)) == Before(c) + InOrder(s.left) + [Item(s.key, s.val)]
    ensures After(Inner(c, s, false)) == [Item(s.key, s.val)] + InOrder(s.right) + After(c)
  {
  }

  lemma AllAtMost(a: seq<Item>, b: seq<Item>, x: Item, key: int)
    requires forall j :: 0 <= j < |a| ==> a[j].key <= key
    requires forall j :: 0 <= j < |b| ==> b[j].key <= x.key
    ensures var s := a + b + [x]; x.key <= key ==> forall j :: 0 <= j < |s| ==> s[j].key <= key
  {
  }

  lemma AllAtLeast(x: Item, b: seq<Item>, a: seq<Item>, key: int)
    requires forall j :: 0 <= j < |a| ==> key <= a[j].key
    requires forall j :: 0 <= j < |b| ==> x.key <= b[j].key
    ensures var s := [x] + b + a; key <= x.key ==> forall j :: 0 <= j < |s| ==> key <= s[j].key
  {
  }

  lemma MiddleSorted(a: seq<Item>, b: seq<Item>, c: seq<Item>)
    requires Sorted(a + b + c)
    ensures Sorted(b)
  {
    var s := a + b + c;
    forall i, j | 0 <= i < j < |b| ensures b[i].key <= b[j].key {
      assert s[|a| + i] == b[i] && s[|a| + j] == b[j];
    }
  }

  lemma AttachHeld(mem: Mem, root: Addr, c: Ctx, s: Tree, right: bool, x: Addr, key: int, val: int)
    requires Held(mem, root, c, s) && s.Fork? && Kid(s, right).Leaf? && x != 0 && x !in Addrs(Zip(c, s))
    requires x in mem && mem[x] == Node(key, val, 0, 0, 0, 0)
    ensures s.a in mem
    ensures Held(mem[s.a := WithChild(mem[s.a], right, x)][x := mem[x].(parent := s.a)], root, c,
                 WithKid(s, right, Fork(x, key, val, 0, Leaf, Leaf)))
  {
    ZipAddrs(c, s);
    var mem' := mem[s.a := WithChild(mem[s.a], right, x)][x := mem[x].(parent := s.a)];
    RepFrame(mem, mem', s.a, Kid(s, !right));
    CtxFrame(mem, mem', root, c, s.a);
    AttachApart(c, s, right, Fork(x, key, val, 0, Leaf, Leaf));
  }

  lemma AttachApart(c: Ctx, s: Tree, right: bool, n: Tree)
    requires Apart(c, s) && s.Fork? && Kid(s, right).Leaf? && n.Fork? && n.left.Leaf? && n.right.Leaf?
    requires n.a != 0 && n.a !in Addrs(s) && n.a !in CtxAddrs(c)
    ensures Apart(c, WithKid(s, right, n))
  {
    assert Addrs(n) == {n.a} && Separate(n);
    assert Addrs(WithKid(s, right, n)) == Addrs(s) + {n.a};
  }

  /** What the walk up after an insertion starts from. */
  lemma Grown(c: Ctx, s: Tree, right: bool, x: Addr, key: int, val: int)
    requires s.Fork? && Kid(s, right).Leaf? && ExactBelow(s)
    ensures var s' := WithKid(s, right, Fork(x, key, val, 0, Leaf, Leaf));
            ExactDeep(s') && (Balanced(s) && BalancedFor(c, Height(s)) ==> Due(c, s', Height(s)))
  {
  }

  lemma InsertedHere(c: Ctx, s: Tree, right: bool, x: Addr, key: int, val: int)
    requires s.Fork? && Kid(s, right).Leaf? && Sorted(InOrder(Zip(c, s))) && Around(Inner(c, s, right), key)
    ensures var items, items' := InOrder(Zip(c, s)), InOrder(Zip(c, WithKid(s, right, Fork(x, key, val, 0, Leaf, Leaf))));
            var i := |Before(Inner(c, s, right))|;
            i <= |items| && items' == Inserted(items, i, Item(key, val)) && Sorted(items')
  {
    var c', n := Inner(c, s, right), Fork(x, key, val, 0, Leaf, Leaf);
    InnerZip(c, s, right, n);
    assert InOrder(Leaf) == [] && InOrder(n) == [Item(key, val)];
    hide InOrder, Before, After, Zip, Sorted, Inner, WithKid;
    ZipInOrder(c', Leaf);
    ZipInOrder(c', n);
    assert InOrder(Zip(c, s)) == Before(c') + After(c');
    InsertedBetween(Before(c'), After(c'), Item(key, val));
  }

  /** The whole tree, seen from the place of a missing child. */
  lemma InnerZip(c: Ctx, s: Tree, right: bool, n: Tree)
    requires s.Fork? && Kid(s, right).Leaf?
    ensures var c' := Inner(c, s, right); Zip(c', Leaf) == Zip(c, s) && Zip(c', n) == Zip(c, WithKid(s, right, n))
  {
    var c' := Inner(c, s, right);
    assert Outer(c', Leaf) == s && Outer(c', n) == WithKid(s, right, n);
  }

  lemma InsertedNode(c: Ctx, s: Tree, right: bool, x: Addr, key: int, val: int)
    requires s.Fork? && Kid(s, right).Leaf?
    ensures var t, t' := Zip(c, s), Zip(c, WithKid(s, right, Fork(x, key, val, 0, Leaf, Leaf)));
            Count(t') == Count(t) + 1 && Addrs(t') == Addrs(t) + {x}
  {
    var c', n := Inner(c, s, right), Fork(x, key, val, 0, Leaf, Leaf);
    InnerZip(c, s, right, n);
    assert Count(n) == 1 && Addrs(n) == {x};
    hide Zip, Inner, WithKid;
    ZipAddrs(c', Leaf);
    ZipAddrs(c', n);
  }

  lemma InsertedBetween(a: seq<Item>, b: seq<Item>, x: Item)
    requires Sorted(a + b)
    requires forall j :: 0 <= j < |a| ==> a[j].key <= x.key
    requires forall j :: 0 <= j < |b| ==> x.key <= b[j].key
    ensures a + [x] + b == Inserted(a + b, |a|, x) && Sorted(a + [x] + b)
  {
    var s := a + b;
    assert s[..|a|] == a && s[|a|..] == b;
    InsertedSorted(s, |a|, x);
  }
}
