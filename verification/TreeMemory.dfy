/**
 How a bin's trie is laid out in memory: chunks linked by `child`, `parent`, `fd` and
 `bk`, and what the allocator's pointer updates do to that layout.
 */
module TreeMemory {
  import opened BinIndex
  import opened Tries

  /** The parent field of a chunk: null, the address of its bin, or another chunk. */
  datatype Link = NoParent | Bin(i: nat) | Under(a: Addr)

  datatype TChunk = TChunk(size: nat, fd: Addr, bk: Addr, child0: Addr, child1: Addr, parent: Link, index: nat)

  type Mem = map<Addr, TChunk>

  function Child(c: TChunk, right: bool): Addr { if right then c.child1 else c.child0 }

  function WithChild(c: TChunk, right: bool, a: Addr): TChunk
  {
    if right then c.(child1 := a) else c.(child0 := a)
  }

  function Next(j: nat, n: nat): nat { if j + 1 == n then 0 else j + 1 }
  function Prev(j: nat, n: nat): nat requires n > 0 { if j == 0 then n - 1 else j - 1 }

  /** Element `j` of the ring sits between its neighbours; only the first one is in the tree. */
  ghost predicate RingAt(mem: Mem, i: nat, ring: seq<Addr>, size: nat, j: nat)
    requires j < |ring|
  {
    ring[j] != 0 && ring[j] in mem &&
    var c := mem[ring[j]];
    c.size == size && c.index == i && c.fd == ring[Next(j, |ring|)] && c.bk == ring[Prev(j, |ring|)] &&
    (j > 0 ==> c.parent == NoParent && c.child0 == 0 && c.child1 == 0)
  }

  ghost predicate RingRep(mem: Mem, i: nat, ring: seq<Addr>, size: nat)
  {
    ring != [] && forall j :: 0 <= j < |ring| ==> RingAt(mem, i, ring, size, j)
  }

  /** Memory at `a` is the trie `t` of bin `i`, hanging from `up`. */
  ghost predicate Rep(mem: Mem, i: nat, a: Addr, up: Link, t: Trie)
    decreases t
  {
    match t
    case Empty => a == 0
    case Node(size, ring, l, r) =>
      RingRep(mem, i, ring, size) && a == ring[0] && a in mem && a != 0 && mem[a].parent == up &&
      Rep(mem, i, mem[a].child0, Under(a), l) && Rep(mem, i, mem[a].child1, Under(a), r)
  }

  ghost predicate SameOn(mem: Mem, mem': Mem, addrs: set<Addr>)
  {
    forall a :: a in addrs && a in mem ==> a in mem' && mem'[a] == mem[a]
  }

  lemma RingFrame(mem: Mem, mem': Mem, i: nat, ring: seq<Addr>, size: nat)
    requires RingRep(mem, i, ring, size) && SameOn(mem, mem', RingSet(ring))
    ensures RingRep(mem', i, ring, size)
  {
    forall j | 0 <= j < |ring| ensures RingAt(mem', i, ring, size, j) {
      assert RingAt(mem, i, ring, size, j);
      assert ring[j] in RingSet(ring);
    }
  }

  /** A trie depends on its own chunks only. */
  lemma {:induction false} RepFrame(mem: Mem, mem': Mem, i: nat, a: Addr, up: Link, t: Trie)
    requires Rep(mem, i, a, up, t) && SameOn(mem, mem', Addrs(t))
    ensures Rep(mem', i, a, up, t)
    decreases t
  {
    if t.Node? {
      RingFrame(mem, mem', i, t.ring, t.size);
      assert t.ring[0] in RingSet(t.ring);
      RepFrame(mem, mem', i, mem[a].child0, Under(a), t.left);
      RepFrame(mem, mem', i, mem[a].child1, Under(a), t.right);
    }
  }

  /** Moving a trie under another parent touches the parent field of its root only. */
  lemma RepMoved(mem: Mem, mem': Mem, i: nat, a: Addr, up: Link, up': Link, t: Trie)
    requires Rep(mem, i, a, up, t) && t.Node? && Separate(t)
    requires SameOn(mem, mem', Addrs(t) - {a}) && a in mem' && mem'[a] == mem[a].(parent := up')
    ensures Rep(mem', i, a, up', t)
  {
    forall j | 0 <= j < |t.ring| ensures RingAt(mem', i, t.ring, t.size, j) {
      assert RingAt(mem, i, t.ring, t.size, j);
      assert t.ring[j] in RingSet(t.ring);
      assert j > 0 ==> t.ring[j] != t.ring[0];
    }
    assert a in RingSet(t.ring);
    RepFrame(mem, mem', i, mem[a].child0, Under(a), t.left);
    RepFrame(mem, mem', i, mem[a].child1, Under(a), t.right);
  }

  // ---------------------------------------------------------------- inserting

  /** Where the walk for a size ends: at a chunk of that size, or at a null child. */
  datatype Spot = AtRing(a: Addr) | AtChild(a: Addr, right: bool)

  function SpotOf(t: Trie, s: nat, lo: nat, m: nat): Spot
    requires t.Node? && t.ring != []
  {
    if t.size == s || m == 0 then AtRing(t.ring[0])
    else
      var right := GoesRight(s, lo, m);
      var c := if right then t.right else t.left;
      if c.Empty? || c.ring == [] then AtChild(t.ring[0], right)
      else SpotOf(c, s, HalfLow(right, lo, m), m - 1)
  }

  /** The stores that link `x` in at the spot; `x` already has its size, index and null children. */
  function InsertAt(mem: Mem, spot: Spot, x: Addr): Mem
  {
    if x !in mem || spot.a !in mem then mem
    else match spot
      case AtChild(a, right) =>
        var mem1 := mem[a := WithChild(mem[a], right, x)];
        mem1[x := mem1[x].(parent := Under(a), fd := x, bk := x)]
      case AtRing(a) =>
        var f := mem[a].fd;
        var mem1 := mem[a := mem[a].(fd := x)];
        var mem2 := if f in mem1 then mem1[f := mem1[f].(bk := x)] else mem1;
        mem2[x := mem2[x].(fd := f, bk := a, parent := NoParent)]
  }

  ghost predicate Prepared(mem: Mem, i: nat, x: Addr, s: nat)
  {
    x != 0 && x in mem && mem[x].size == s && mem[x].index == i && mem[x].child0 == 0 && mem[x].child1 == 0
  }

  /** The tree fields of a chunk are the same. */
  ghost predicate SameTree(mem: Mem, mem': Mem, a: Addr)
  {
    a in mem && a in mem' && mem'[a].parent == mem[a].parent &&
    mem'[a].child0 == mem[a].child0 && mem'[a].child1 == mem[a].child1
  }

  lemma RingInsert(mem: Mem, i: nat, ring: seq<Addr>, size: nat, x: Addr)
    requires RingRep(mem, i, ring, size) && Distinct(ring) && x !in ring && Prepared(mem, i, x, size)
    ensures var mem' := InsertAt(mem, AtRing(ring[0]), x);
            RingRep(mem', i, RingWith(ring, x), size) && SameTree(mem, mem', ring[0]) &&
            SameOn(mem, mem', mem.Keys - RingSet(ring) - {x})
  {
    var n := |ring|;
    assert RingAt(mem, i, ring, size, 0);
    var f := mem[ring[0]].fd;
    assert f == ring[Next(0, n)];
    var mem' := InsertAt(mem, AtRing(ring[0]), x);
    var ring' := RingWith(ring, x);
    forall j | 0 <= j < n + 1 ensures RingAt(mem', i, ring', size, j) {
      if j == 1 {
        assert ring'[1] == x;
      } else {
        var k := if j == 0 then 0 else j - 1;
        assert RingAt(mem, i, ring, size, k);
        assert ring'[j] == ring[k];
      }
    }
  }

  lemma {:induction false} SpotIsInside(mem: Mem, i: nat, a: Addr, up: Link, t: Trie, s: nat, lo: nat, m: nat)
    requires Rep(mem, i, a, up, t) && t.Node?
    ensures SpotOf(t, s, lo, m).a in Addrs(t)
    decreases t
  {
    assert t.ring[0] in RingSet(t.ring);
    if t.size != s && m > 0 {
      var right := GoesRight(s, lo, m);
      var c := if right then t.right else t.left;
      if c.Node? && c.ring != [] {
        SpotIsInside(mem, i, Child(mem[a], right), Under(a), c, s, HalfLow(right, lo, m), m - 1);
      }
    }
  }

  /** Linking a chunk in only writes to it and to chunks of the trie. */
  lemma {:induction false} InsertWrites(mem: Mem, i: nat, a: Addr, up: Link, t: Trie, s: nat, lo: nat, m: nat, x: Addr)
    requires Rep(mem, i, a, up, t) && t.Node? && x in mem && Fits(t, lo, m) && Within(s, lo, m)
    ensures SameOn(mem, InsertAt(mem, SpotOf(t, s, lo, m), x), mem.Keys - Addrs(t) - {x})
    decreases t
  {
    assert t.ring[0] in RingSet(t.ring);
    if t.size != s && m > 0 {
      var right := GoesRight(s, lo, m);
      var c := if right then t.right else t.left;
      if c.Node? && c.ring != [] {
        InsertWrites(mem, i, Child(mem[a], right), Under(a), c, s, HalfLow(right, lo, m), m - 1, x);
      }
    } else {
      assert RingAt(mem, i, t.ring, t.size, 0);
      assert mem[a].fd == t.ring[Next(0, |t.ring|)];
      assert t.ring[Next(0, |t.ring|)] in RingSet(t.ring);
    }
  }

  /** The stores at the spot turn the layout of a trie into that of the trie with the chunk inserted. */
  lemma {:induction false} InsertRep(mem: Mem, i: nat, a: Addr, up: Link, t: Trie, s: nat, lo: nat, m: nat, x: Addr)
    requires Rep(mem, i, a, up, t) && t.Node? && Separate(t) && Fits(t, lo, m) && Within(s, lo, m)
    requires x !in Addrs(t) && Prepared(mem, i, x, s)
    ensures Rep(InsertAt(mem, SpotOf(t, s, lo, m), x), i, a, up, Inserted(t, x, s, lo, m))
    decreases t
  {
    var mem' := InsertAt(mem, SpotOf(t, s, lo, m), x);
    if t.size == s || m == 0 {
      RingInsert(mem, i, t.ring, t.size, x);
      RepFrame(mem, mem', i, mem[a].child0, Under(a), t.left);
      RepFrame(mem, mem', i, mem[a].child1, Under(a), t.right);
    } else {
      InsertChildRep(mem, i, a, up, t, s, lo, m, x);
    }
  }

  lemma InsertLeafRep(mem: Mem, i: nat, a: Addr, up: Link, t: Trie, s: nat, right: bool, x: Addr)
    requires Rep(mem, i, a, up, t) && t.Node? && Separate(t) && x !in Addrs(t) && Prepared(mem, i, x, s)
    requires if right then t.right.Empty? else t.left.Empty?
    ensures var leaf := Node(s, [x], Empty, Empty);
            Rep(InsertAt(mem, AtChild(a, right), x), i, a, up, if right then t.(right := leaf) else t.(left := leaf))
  {
    var mem' := InsertAt(mem, AtChild(a, right), x);
    assert a in RingSet(t.ring);
    forall j | 0 <= j < |t.ring| ensures RingAt(mem', i, t.ring, t.size, j) {
      assert RingAt(mem, i, t.ring, t.size, j);
      assert t.ring[j] in RingSet(t.ring);
    }
    assert RingAt(mem', i, [x], s, 0);
    RepFrame(mem, mem', i, Child(mem[a], !right), Under(a), if right then t.left else t.right);
  }

  lemma {:induction false} InsertChildRep(mem: Mem, i: nat, a: Addr, up: Link, t: Trie, s: nat, lo: nat, m: nat, x: Addr)
    requires Rep(mem, i, a, up, t) && t.Node? && Separate(t) && Fits(t, lo, m) && Within(s, lo, m)
    requires x !in Addrs(t) && Prepared(mem, i, x, s) && t.size != s && m > 0
    ensures Rep(InsertAt(mem, SpotOf(t, s, lo, m), x), i, a, up, Inserted(t, x, s, lo, m))
    decreases t, 0
  {
    var mem' := InsertAt(mem, SpotOf(t, s, lo, m), x);
    var right := GoesRight(s, lo, m);
    var c, d := if right then t.right else t.left, if right then t.left else t.right;
    if c.Empty? {
      InsertLeafRep(mem, i, a, up, t, s, right, x);
    } else {
      InsertRep(mem, i, Child(mem[a], right), Under(a), c, s, HalfLow(right, lo, m), m - 1, x);
      InsertWrites(mem, i, Child(mem[a], right), Under(a), c, s, HalfLow(right, lo, m), m - 1, x);
      hide Rep, InsertAt, Fits, Separate, Addrs;
      KidReplaced(mem, mem', i, a, up, t, right, Inserted(c, x, s, HalfLow(right, lo, m), m - 1), x);
    }
  }

  /** One subtree is replaced, by writes to its own chunks and one from outside. */
  lemma KidReplaced(mem: Mem, mem': Mem, i: nat, a: Addr, up: Link, t: Trie, right: bool, c': Trie, x: Addr)
    requires Rep(mem, i, a, up, t) && t.Node? && Separate(t) && x !in Addrs(t)
    requires SameOn(mem, mem', mem.Keys - Addrs(if right then t.right else t.left) - {x})
    requires Rep(mem', i, Child(mem[a], right), Under(a), c')
    ensures Rep(mem', i, a, up, if right then t.(right := c') else t.(left := c'))
  {
    var c, d := if right then t.right else t.left, if right then t.left else t.right;
    assert t.ring[0] in RingSet(t.ring);
    RingFrame(mem, mem', i, t.ring, t.size);
    RepFrame(mem, mem', i, Child(mem[a], !right), Under(a), d);
  }

  // ---------------------------------------------------------------- unlinking: the stores

  /** Takes `x` out of the list of its size. */
  function RingCut(mem: Mem, x: Addr): Mem
  {
    if x !in mem || mem[x].fd !in mem || mem[x].bk !in mem then mem
    else
      var f, r := mem[x].fd, mem[x].bk;
      var mem1 := mem[f := mem[f].(bk := r)];
      mem1[r := mem1[r].(fd := f)]
  }

  /** The rightmost leaf below a node, and the child field that points to it. */
  datatype LeafAt = LeafAt(leaf: Addr, parent: Addr, right: bool)

  function LeafOf(t: Trie, p: Addr, right: bool): LeafAt
    requires t.Node? && Separate(t)
  {
    if t.right.Node? then LeafOf(t.right, t.ring[0], true)
    else if t.left.Node? then LeafOf(t.left, t.ring[0], false)
    else LeafAt(t.ring[0], p, right)
  }

  function SetChild(mem: Mem, p: Addr, right: bool, a: Addr): Mem
  {
    if p in mem then mem[p := WithChild(mem[p], right, a)] else mem
  }

  /** Hands a child of `x` over to `r`. */
  function Adopt(mem: Mem, x: Addr, r: Addr, right: bool): Mem
  {
    if x !in mem || r !in mem || Child(mem[x], right) !in mem || Child(mem[x], right) == 0 then mem
    else
      var c := Child(mem[x], right);
      var mem1 := mem[r := WithChild(mem[r], right, c)];
      mem1[c := mem1[c].(parent := Under(r))]
  }

  /** Puts `r` (maybe null) in the place of `x`; the bin's own pointer is not in this memory. */
  function Relink(mem: Mem, x: Addr, r: Addr): Mem
  {
    if x !in mem then mem
    else
      var xp := mem[x].parent;
      var mem1 := if xp.Under? && xp.a in mem then SetChild(mem, xp.a, mem[xp.a].child0 != x, r) else mem;
      if r == 0 || r !in mem1 then mem1
      else Adopt(Adopt(mem1[r := mem1[r].(parent := xp)], x, r, false), x, r, true)
  }

  /** Takes `x` out of its ring, or else the replacement leaf out of its place. */
  function Detached(mem: Mem, x: Addr, q: LeafAt): Mem
  {
    if x !in mem then mem
    else if mem[x].bk != x then RingCut(mem, x)
    else if q.leaf == 0 then mem
    else SetChild(mem, q.parent, q.right, 0)
  }

  function UnlinkAt(mem: Mem, x: Addr, q: LeafAt): Mem
  {
    if x in mem && mem[x].parent != NoParent then Relink(Detached(mem, x, q), x, Successor(mem, x, q))
    else Detached(mem, x, q)
  }

  /** What stands where `x` stood. */
  function Successor(mem: Mem, x: Addr, q: LeafAt): Addr
  {
    if x in mem && mem[x].bk != x then mem[x].bk else q.leaf
  }

  // ---------------------------------------------------------------- unlinking: rings

  lemma RingCutHead(mem: Mem, i: nat, ring: seq<Addr>, size: nat)
    requires RingRep(mem, i, ring, size) && Distinct(ring) && |ring| > 1
    ensures var mem' := RingCut(mem, ring[0]);
            RingRep(mem', i, RingWithout(ring, ring[0]), size) &&
            SameOn(mem, mem', mem.Keys - RingSet(ring)) && mem'.Keys == mem.Keys && SameTree(mem, mem', ring[0])
    ensures mem[ring[0]].bk == RingWithout(ring, ring[0])[0]
    ensures var mem', r := RingCut(mem, ring[0]), mem[ring[0]].bk;
            r in mem' && mem'[r].child0 == 0 && mem'[r].child1 == 0
  {
    var n := |ring|;
    assert RingAt(mem, i, ring, size, 0) && RingAt(mem, i, ring, size, n - 1) && RingAt(mem, i, ring, size, 1);
    var mem' := RingCut(mem, ring[0]);
    var ring' := RingWithout(ring, ring[0]);
    assert ring[1] in RingSet(ring) && ring[n - 1] in RingSet(ring);
    forall j | 0 <= j < n - 1 ensures RingAt(mem', i, ring', size, j) {
      var k := if j == 0 then n - 1 else j;
      assert RingAt(mem, i, ring, size, k);
      assert ring'[j] == ring[k];
    }
  }

  lemma {:induction false} ExceptIs(s: seq<Addr>, x: Addr, k: nat)
    requires k < |s| && s[k] == x && Distinct(s)
    ensures Except(s, x) == s[..k] + s[k + 1..]
  {
    if k > 0 {
      ExceptIs(s[1..], x, k - 1);
      assert s == [s[0]] + s[1..];
    }
  }

  /** The fields of the chunks that stay in a ring. */
  lemma RingCutFields(mem: Mem, i: nat, ring: seq<Addr>, size: nat, k: nat, o: nat)
    requires RingRep(mem, i, ring, size) && Distinct(ring) && k < |ring| && o < |ring| && o != k
    ensures var mem', n := RingCut(mem, ring[k]), |ring|;
            ring[o] in mem && ring[o] in mem' &&
            mem'[ring[o]] == mem[ring[o]].(
              fd := if o == Prev(k, n) then ring[Next(k, n)] else ring[Next(o, n)],
              bk := if o == Next(k, n) then ring[Prev(k, n)] else ring[Prev(o, n)])
  {
    var n := |ring|;
    assert RingAt(mem, i, ring, size, k) && RingAt(mem, i, ring, size, o);
    assert RingAt(mem, i, ring, size, Next(k, n)) && RingAt(mem, i, ring, size, Prev(k, n));
  }

  lemma RingCutAt(mem: Mem, i: nat, ring: seq<Addr>, ring': seq<Addr>, size: nat, k: nat, j: nat)
    requires RingRep(mem, i, ring, size) && Distinct(ring) && 0 < k < |ring| && j < |ring| - 1
    requires ring' == ring[..k] + ring[k + 1..]
    ensures RingAt(RingCut(mem, ring[k]), i, ring', size, j)
  {
    var n, o := |ring|, if j < k then j else j + 1;
    RingCutFields(mem, i, ring, size, k, o);
    assert RingAt(mem, i, ring, size, o);
    hide RingRep, Distinct, RingCut;
    assert ring'[j] == ring[o];
  }

  lemma RingCutMember(mem: Mem, i: nat, ring: seq<Addr>, size: nat, k: nat)
    requires RingRep(mem, i, ring, size) && Distinct(ring) && 0 < k < |ring|
    ensures var mem' := RingCut(mem, ring[k]);
            RingRep(mem', i, RingWithout(ring, ring[k]), size) && RingWithout(ring, ring[k])[0] == ring[0] &&
            SameTree(mem, mem', ring[0])
    ensures SameOn(mem, RingCut(mem, ring[k]), mem.Keys - RingSet(ring))
  {
    var n := |ring|;
    ExceptIs(ring[1..], ring[k], k - 1);
    var ring' := RingWithout(ring, ring[k]);
    assert ring' == ring[..k] + ring[k + 1..];
    forall j | 0 <= j < n - 1 ensures RingAt(RingCut(mem, ring[k]), i, ring', size, j) {
      RingCutAt(mem, i, ring, ring', size, k, j);
    }
    RingCutFields(mem, i, ring, size, k, 0);
    RingCutElsewhere(mem, i, ring, size, k);
  }

  lemma RingCutElsewhere(mem: Mem, i: nat, ring: seq<Addr>, size: nat, k: nat)
    requires RingRep(mem, i, ring, size) && k < |ring|
    ensures SameOn(mem, RingCut(mem, ring[k]), mem.Keys - RingSet(ring))
  {
    assert RingAt(mem, i, ring, size, k);
    assert ring[Next(k, |ring|)] in RingSet(ring) && ring[Prev(k, |ring|)] in RingSet(ring);
  }

  // ---------------------------------------------------------------- unlinking: the replacement leaf

  /** Child fields of the chunk in the tree are no part of the ring. */
  lemma RingHeadChanges(mem: Mem, mem': Mem, i: nat, ring: seq<Addr>, size: nat)
    requires RingRep(mem, i, ring, size) && Distinct(ring) && SameOn(mem, mem', RingSet(ring) - {ring[0]})
    requires ring[0] in mem && ring[0] in mem' &&
             mem'[ring[0]] == mem[ring[0]].(
               child0 := mem'[ring[0]].child0, child1 := mem'[ring[0]].child1, parent := mem'[ring[0]].parent)
    ensures RingRep(mem', i, ring, size)
  {
    forall j | 0 <= j < |ring| ensures RingAt(mem', i, ring, size, j) {
      assert RingAt(mem, i, ring, size, j);
      assert ring[j] in RingSet(ring);
      assert j > 0 ==> ring[j] != ring[0];
    }
  }

  /** What cutting off the rightmost leaf of `t` under `p` leaves behind. */
  ghost predicate LeafCut(mem: Mem, mem': Mem, i: nat, p: Addr, right: bool, k: Taken, leaf: Addr)
  {
    k.ring != [] && leaf == k.ring[0] && leaf != 0 && leaf in mem' && mem'[leaf].child0 == 0 && mem'[leaf].child1 == 0 &&
    RingRep(mem', i, k.ring, k.size) &&
    p in mem && p in mem' && mem'[p] == WithChild(mem[p], right, Child(mem'[p], right)) &&
    Rep(mem', i, Child(mem'[p], right), Under(p), k.rest) &&
    SameOn(mem, mem', mem.Keys - Addrs(k.rest) - {p})
  }

  lemma {:induction false} TakeLeafRep(mem: Mem, i: nat, p: Addr, right: bool, t: Trie)
    requires p in mem && p !in Addrs(t) && t.Node? && Separate(t) && Rep(mem, i, Child(mem[p], right), Under(p), t)
    ensures var q := LeafOf(t, p, right);
            LeafCut(mem, SetChild(mem, q.parent, q.right, 0), i, p, right, TakeLeaf(t), q.leaf)
    decreases t
  {
    var q, k := LeafOf(t, p, right), TakeLeaf(t);
    var mem' := SetChild(mem, q.parent, q.right, 0);
    var a := t.ring[0];
    assert a in RingSet(t.ring);
    TakeLeafSeparate(t);
    if t.right.Node? {
      TakeLeafRep(mem, i, a, true, t.right);
      TakeLeafBelow(mem, mem', i, p, right, t, true);
    } else if t.left.Node? {
      TakeLeafRep(mem, i, a, false, t.left);
      TakeLeafBelow(mem, mem', i, p, right, t, false);
    } else {
      RingFrame(mem, mem', i, t.ring, t.size);
    }
  }

  lemma TakeLeafBelow(mem: Mem, mem': Mem, i: nat, p: Addr, right: bool, t: Trie, side: bool)
    requires p in mem && p !in Addrs(t) && t.Node? && Separate(t) && Rep(mem, i, Child(mem[p], right), Under(p), t)
    requires var c := if side then t.right else t.left;
             c.Node? && LeafCut(mem, mem', i, t.ring[0], side, TakeLeaf(c), LeafOf(c, t.ring[0], side).leaf)
    ensures var c := if side then t.right else t.left;
            var k := TakeLeaf(c);
            LeafCut(mem, mem', i, p, right, k.(rest := if side then t.(right := k.rest) else t.(left := k.rest)),
                    LeafOf(c, t.ring[0], side).leaf)
  {
    var c, d := if side then t.right else t.left, if side then t.left else t.right;
    var a, k := t.ring[0], TakeLeaf(c);
    assert a in RingSet(t.ring);
    TakeLeafSeparate(c);
    RingHeadChanges(mem, mem', i, t.ring, t.size);
    RepFrame(mem, mem', i, Child(mem[a], !side), Under(a), d);
  }

  // ---------------------------------------------------------------- unlinking: taking the place

  lemma AdoptRep(mem: Mem, i: nat, x: Addr, r: Addr, right: bool, t: Trie)
    requires x in mem && r in mem && r !in Addrs(t) && x !in Addrs(t) && x != r && Separate(t)
    requires Child(mem[r], right) == 0 && Rep(mem, i, Child(mem[x], right), Under(x), t)
    ensures var mem' := Adopt(mem, x, r, right);
            mem'.Keys == mem.Keys && mem'[x] == mem[x] && mem'[r] == WithChild(mem[r], right, Child(mem[x], right)) &&
            Rep(mem', i, Child(mem'[r], right), Under(r), t) &&
            SameOn(mem, mem', mem.Keys - Addrs(t) - {r})
  {
    var mem' := Adopt(mem, x, r, right);
    if t.Node? {
      var c := Child(mem[x], right);
      assert c in RingSet(t.ring);
      RepMoved(mem, mem', i, c, Under(x), Under(r), t);
    }
  }

  /** The pieces from which a node is put together in the place of `x`. */
  ghost predicate Pieces(mem: Mem, i: nat, x: Addr, ring: seq<Addr>, size: nat, l: Trie, r: Trie)
  {
    x in mem && ring != [] && Distinct(ring) && RingRep(mem, i, ring, size) && ring[0] in mem &&
    mem[ring[0]].child0 == 0 && mem[ring[0]].child1 == 0 &&
    Rep(mem, i, mem[x].child0, Under(x), l) && Rep(mem, i, mem[x].child1, Under(x), r) &&
    Separate(l) && Separate(r) && Addrs(l) !! Addrs(r) &&
    RingSet(ring) !! Addrs(l) && RingSet(ring) !! Addrs(r) &&
    x !in RingSet(ring) && x !in Addrs(l) && x !in Addrs(r)
  }

  lemma AdoptBoth(mem: Mem, i: nat, x: Addr, ring: seq<Addr>, size: nat, l: Trie, r: Trie)
    requires Pieces(mem, i, x, ring, size, l, r)
    ensures var mem' := Adopt(Adopt(mem, x, ring[0], false), x, ring[0], true);
            Rep(mem', i, ring[0], mem[ring[0]].parent, Node(size, ring, l, r)) &&
            SameOn(mem, mem', mem.Keys - RingSet(ring) - Addrs(l) - Addrs(r))
  {
    var a := ring[0];
    assert a in RingSet(ring);
    assert RingAt(mem, i, ring, size, 0);
    var mem1 := Adopt(mem, x, a, false);
    AdoptRep(mem, i, x, a, false, l);
    RepFrame(mem, mem1, i, mem[x].child1, Under(x), r);
    var mem2 := Adopt(mem1, x, a, true);
    AdoptRep(mem1, i, x, a, true, r);
    RepFrame(mem1, mem2, i, mem1[a].child0, Under(a), l);
    RingHeadChanges(mem, mem2, i, ring, size);
  }

  lemma PiecesFrame(mem: Mem, mem': Mem, i: nat, x: Addr, ring: seq<Addr>, size: nat, l: Trie, r: Trie)
    requires Pieces(mem, i, x, ring, size, l, r) && x in mem' && mem'[x] == mem[x]
    requires SameOn(mem, mem', RingSet(ring) - {ring[0]}) && SameOn(mem, mem', Addrs(l) + Addrs(r))
    requires ring[0] in mem' && mem'[ring[0]] == mem[ring[0]].(parent := mem'[ring[0]].parent)
    ensures Pieces(mem', i, x, ring, size, l, r)
  {
    RingHeadChanges(mem, mem', i, ring, size);
    RepFrame(mem, mem', i, mem[x].child0, Under(x), l);
    RepFrame(mem, mem', i, mem[x].child1, Under(x), r);
  }

  /** The parent, if it is a chunk, is none of the pieces and points to `x` once. */
  ghost predicate PointsAt(mem: Mem, up: Link, a: Addr)
  {
    match up
    case NoParent => false
    case Bin(_) => true
    case Under(p) => p in mem && a != 0 && (mem[p].child0 == a) != (mem[p].child1 == a)
  }

  lemma RelinkRep(mem: Mem, i: nat, x: Addr, ring: seq<Addr>, size: nat, l: Trie, r: Trie)
    requires Pieces(mem, i, x, ring, size, l, r) && PointsAt(mem, mem[x].parent, x)
    requires var up := mem[x].parent; up.Under? ==> up.a != x && up.a !in RingSet(ring) + Addrs(l) + Addrs(r)
    ensures var mem', up := Relink(mem, x, ring[0]), mem[x].parent;
            Rep(mem', i, ring[0], up, Node(size, ring, l, r)) &&
            (up.Under? ==> up.a in mem' && mem'[up.a] == WithChild(mem[up.a], mem[up.a].child0 != x, ring[0])) &&
            SameOn(mem, mem', mem.Keys - RingSet(ring) - Addrs(l) - Addrs(r) - (if up.Under? then {up.a} else {}))
  {
    var a, up := ring[0], mem[x].parent;
    assert a in RingSet(ring);
    assert RingAt(mem, i, ring, size, 0);
    var mem1 := if up.Under? then SetChild(mem, up.a, mem[up.a].child0 != x, a) else mem;
    var mem2 := mem1[a := mem1[a].(parent := up)];
    PiecesFrame(mem, mem2, i, x, ring, size, l, r);
    AdoptBoth(mem2, i, x, ring, size, l, r);
  }

  // ---------------------------------------------------------------- unlinking: the whole effect

  /** The node whose ring contains `x`. */
  function NodeOf(t: Trie, x: Addr): Trie
  {
    if t.Empty? || x in t.ring then t
    else if x in Addrs(t.left) then NodeOf(t.left, x) else NodeOf(t.right, x)
  }

  /** The leaf that replaces a node, as the code looks for it: right child first. */
  function LeafBelow(t: Trie): LeafAt
    requires Separate(t)
  {
    if t.Empty? then LeafAt(0, 0, false)
    else if t.right.Node? then LeafOf(t.right, t.ring[0], true)
    else if t.left.Node? then LeafOf(t.left, t.ring[0], false)
    else LeafAt(0, 0, false)
  }

  lemma {:induction false} NodeOfSeparate(t: Trie, x: Addr)
    requires Separate(t) && x in Addrs(t)
    ensures var n := NodeOf(t, x); n.Node? && Separate(n) && x in n.ring && Addrs(n) <= Addrs(t)
  {
    if x !in t.ring {
      NodeOfSeparate(if x in Addrs(t.left) then t.left else t.right, x);
    }
  }

  lemma {:induction false} NodeOfRep(mem: Mem, i: nat, a: Addr, up: Link, t: Trie, x: Addr)
    requires Rep(mem, i, a, up, t) && Separate(t) && x in Addrs(t)
    ensures var n := NodeOf(t, x);
            n.Node? && n.ring != [] && n.ring[0] in mem && Rep(mem, i, n.ring[0], mem[n.ring[0]].parent, n)
    decreases t
  {
    if x !in t.ring {
      if x in Addrs(t.left) {
        NodeOfRep(mem, i, mem[a].child0, Under(a), t.left, x);
      } else {
        NodeOfRep(mem, i, mem[a].child1, Under(a), t.right, x);
      }
    }
  }

  function UpSet(up: Link): set<Addr> { if up.Under? then {up.a} else {} }

  /** After the stores: the trie without `x` stands where the trie stood, its parent points to
      whatever is there now, and nothing else was written. */
  ghost predicate UnlinkDone(mem: Mem, mem': Mem, i: nat, a: Addr, up: Link, t: Trie, x: Addr, y: Addr)
  {
    Rep(mem', i, if a == x then y else a, up, Unlinked(t, x)) &&
    SameOn(mem, mem', mem.Keys - Addrs(t) - UpSet(up)) &&
    (up.Under? ==> UpDone(mem, mem', up.a, a, x, y))
  }

  ghost predicate UpDone(mem: Mem, mem': Mem, p: Addr, a: Addr, x: Addr, y: Addr)
  {
    p in mem && p in mem' && mem'[p] == (if a == x then WithChild(mem[p], mem[p].child0 != x, y) else mem[p])
  }

  ghost predicate Attached(mem: Mem, i: nat, a: Addr, up: Link, t: Trie)
  {
    Rep(mem, i, a, up, t) && Separate(t) && PointsAt(mem, up, a) && UpSet(up) !! Addrs(t)
  }

  lemma UnlinkHead(mem: Mem, i: nat, a: Addr, up: Link, t: Trie, q: LeafAt)
    requires Attached(mem, i, a, up, t) && t.Node? && |t.ring| > 1
    ensures UnlinkDone(mem, UnlinkAt(mem, a, q), i, a, up, t, a, Successor(mem, a, q))
  {
    var mem1, ring' := RingCut(mem, a), RingWithout(t.ring, a);
    RingCutHead(mem, i, t.ring, t.size);
    RingWithoutRemoves(t.ring, a);
    assert a in RingSet(t.ring) && ring'[0] in RingSet(ring');
    RepFrame(mem, mem1, i, mem[a].child0, Under(a), t.left);
    RepFrame(mem, mem1, i, mem[a].child1, Under(a), t.right);
    assert Pieces(mem1, i, a, ring', t.size, t.left, t.right);
    RelinkRep(mem1, i, a, ring', t.size, t.left, t.right);
    assert mem[a].bk != a;
  }

  lemma UnlinkMember(mem: Mem, i: nat, a: Addr, up: Link, t: Trie, x: Addr, q: LeafAt)
    requires Attached(mem, i, a, up, t) && t.Node? && x in t.ring && x != a
    ensures UnlinkDone(mem, UnlinkAt(mem, x, q), i, a, up, t, x, Successor(mem, x, q))
  {
    var k :| 0 <= k < |t.ring| && t.ring[k] == x;
    var mem1 := RingCut(mem, x);
    assert RingAt(mem, i, t.ring, t.size, k);
    RingCutMember(mem, i, t.ring, t.size, k);
    RepFrame(mem, mem1, i, mem[a].child0, Under(a), t.left);
    RepFrame(mem, mem1, i, mem[a].child1, Under(a), t.right);
  }

  lemma UnlinkLast(mem: Mem, i: nat, a: Addr, up: Link, t: Trie)
    requires Attached(mem, i, a, up, t) && t.Node? && t.ring == [a]
    ensures var q := LeafBelow(t);
            UnlinkDone(mem, UnlinkAt(mem, a, q), i, a, up, t, a, Successor(mem, a, q))
  {
    var q := LeafBelow(t);
    assert RingAt(mem, i, t.ring, t.size, 0);
    assert a in RingSet(t.ring);
    if t.right.Node? {
      UnlinkInner(mem, i, a, up, t, true);
    } else if t.left.Node? {
      UnlinkInner(mem, i, a, up, t, false);
    }
  }

  lemma InnerPieces(mem: Mem, i: nat, a: Addr, up: Link, t: Trie, side: bool)
    requires Attached(mem, i, a, up, t) && t.Node? && t.ring == [a]
    requires if side then t.right.Node? else t.right.Empty? && t.left.Node?
    ensures var q, k := LeafBelow(t), TakeLeaf(if side then t.right else t.left);
            var mem1 := SetChild(mem, q.parent, q.right, 0);
            k.ring != [] && q.leaf == k.ring[0] && q.leaf != 0 &&
            Pieces(mem1, i, a, k.ring, k.size, if side then t.left else k.rest, if side then k.rest else t.right) &&
            mem1[a].parent == up && mem1.Keys == mem.Keys && SameOn(mem, mem1, mem.Keys - Addrs(t)) &&
            RingSet(k.ring) + Addrs(k.rest) <= Addrs(t)
  {
    var q := LeafBelow(t);
    var c, d := if side then t.right else t.left, if side then t.left else t.right;
    var k, mem1 := TakeLeaf(c), SetChild(mem, q.parent, q.right, 0);
    assert a in RingSet(t.ring);
    TakeLeafSeparate(c);
    TakeLeafRep(mem, i, a, side, c);
    RepFrame(mem, mem1, i, Child(mem[a], !side), Under(a), d);
  }

  lemma UnlinkInner(mem: Mem, i: nat, a: Addr, up: Link, t: Trie, side: bool)
    requires Attached(mem, i, a, up, t) && t.Node? && t.ring == [a] && mem[a].bk == a
    requires if side then t.right.Node? else t.right.Empty? && t.left.Node?
    ensures var q := LeafBelow(t);
            UnlinkDone(mem, UnlinkAt(mem, a, q), i, a, up, t, a, Successor(mem, a, q))
  {
    var q := LeafBelow(t);
    var k, mem1 := TakeLeaf(if side then t.right else t.left), SetChild(mem, q.parent, q.right, 0);
    assert a in RingSet(t.ring);
    InnerPieces(mem, i, a, up, t, side);
    RelinkRep(mem1, i, a, k.ring, k.size, if side then t.left else k.rest, if side then k.rest else t.right);
  }

  lemma RootIsFirst(mem: Mem, i: nat, a: Addr, up: Link, t: Trie)
    requires Rep(mem, i, a, up, t)
    ensures if t.Node? then a != 0 && a in mem && a in t.ring && a in Addrs(t) else a == 0
  {
    if t.Node? {
      assert a in RingSet(t.ring);
    }
  }

  lemma AttachedChild(mem: Mem, i: nat, a: Addr, up: Link, t: Trie, side: bool)
    requires Attached(mem, i, a, up, t) && t.Node? && (if side then t.right.Node? else t.left.Node?)
    ensures Attached(mem, i, Child(mem[a], side), Under(a), if side then t.right else t.left)
  {
    var c, d := if side then t.right else t.left, if side then t.left else t.right;
    RootIsFirst(mem, i, a, up, t);
    RootIsFirst(mem, i, Child(mem[a], side), Under(a), c);
    RootIsFirst(mem, i, Child(mem[a], !side), Under(a), d);
  }

  lemma UnlinkBelow(mem: Mem, mem': Mem, i: nat, a: Addr, up: Link, t: Trie, x: Addr, side: bool, y: Addr)
    requires Attached(mem, i, a, up, t) && t.Node? && x !in t.ring
    requires var c := if side then t.right else t.left;
             c.Node? && x in Addrs(c) && UnlinkDone(mem, mem', i, Child(mem[a], side), Under(a), c, x, y)
    ensures UnlinkDone(mem, mem', i, a, up, t, x, y)
  {
    var c, d := if side then t.right else t.left, if side then t.left else t.right;
    RootIsFirst(mem, i, a, up, t);
    RootIsFirst(mem, i, Child(mem[a], side), Under(a), c);
    RootIsFirst(mem, i, Child(mem[a], !side), Under(a), d);
    RingHeadChanges(mem, mem', i, t.ring, t.size);
    RepFrame(mem, mem', i, Child(mem[a], !side), Under(a), d);
  }

  /** `unlink_large_chunk` on any chunk of a trie yields the trie without it. */
  lemma {:induction false} UnlinkRep(mem: Mem, i: nat, a: Addr, up: Link, t: Trie, x: Addr)
    requires Attached(mem, i, a, up, t) && x in Addrs(t)
    ensures Separate(NodeOf(t, x))
    ensures var q := LeafBelow(NodeOf(t, x));
            UnlinkDone(mem, UnlinkAt(mem, x, q), i, a, up, t, x, Successor(mem, x, q))
    decreases t
  {
    NodeOfSeparate(t, x);
    var q := LeafBelow(NodeOf(t, x));
    if x in t.ring {
      assert t.ring[0] == a;
      if x != a {
        UnlinkMember(mem, i, a, up, t, x, q);
      } else if |t.ring| > 1 {
        UnlinkHead(mem, i, a, up, t, q);
      } else {
        assert t.ring == [a];
        UnlinkLast(mem, i, a, up, t);
      }
    } else {
      var side := x !in Addrs(t.left);
      AttachedChild(mem, i, a, up, t, side);
      UnlinkRep(mem, i, Child(mem[a], side), Under(a), if side then t.right else t.left, x);
      UnlinkBelow(mem, UnlinkAt(mem, x, q), i, a, up, t, x, side, Successor(mem, x, q));
    }
  }

  lemma {:induction false} AddrsInMem(mem: Mem, i: nat, a: Addr, up: Link, t: Trie)
    requires Rep(mem, i, a, up, t)
    ensures Addrs(t) <= mem.Keys && 0 !in Addrs(t)
    decreases t
  {
    if t.Node? {
      forall b | b in RingSet(t.ring) ensures b in mem && b != 0 {
        var j :| 0 <= j < |t.ring| && t.ring[j] == b;
        assert RingAt(mem, i, t.ring, t.size, j);
      }
      AddrsInMem(mem, i, mem[a].child0, Under(a), t.left);
      AddrsInMem(mem, i, mem[a].child1, Under(a), t.right);
    }
  }

  lemma {:induction false} LeafOfIsInside(t: Trie, p: Addr, right: bool)
    requires t.Node? && Separate(t)
    ensures LeafOf(t, p, right).leaf in Addrs(t) && LeafOf(t, p, right).parent in Addrs(t) + {p}
  {
    assert t.ring[0] in RingSet(t.ring);
    if t.right.Node? {
      LeafOfIsInside(t.right, t.ring[0], true);
    } else if t.left.Node? {
      LeafOfIsInside(t.left, t.ring[0], false);
    }
  }

  /** The replacement leaf is another chunk of the trie, and so is its parent (or it is `x`). */
  lemma LeafBelowOk(mem: Mem, i: nat, x: Addr, up: Link, n: Trie)
    requires n.Node? && Separate(n) && Rep(mem, i, x, up, n)
    ensures var q := LeafBelow(n); q.leaf != 0 ==> q.leaf in mem && q.parent in mem && q.leaf != x
    ensures LeafBelow(n).leaf == 0 <==> n.left.Empty? && n.right.Empty?
  {
    RootIsFirst(mem, i, x, up, n);
    AddrsInMem(mem, i, x, up, n);
    assert x in RingSet(n.ring);
    if n.right.Node? {
      LeafOfIsInside(n.right, x, true);
    } else if n.left.Node? {
      LeafOfIsInside(n.left, x, false);
    }
  }
}
