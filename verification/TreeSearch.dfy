/**
 The best-fit search through a trie: what has been covered so far while the walk goes
 down, and why the deepest untaken right subtree is the one to look at last.
 */
module TreeSearch {
  import opened BinIndex
  import opened Tries
  import opened TreeMemory

  /** Everything in `t` is smaller than `z`. */
  ghost predicate Above(t: Trie, z: nat)
  {
    t.Node? && forall a: Addr, s: nat :: Holds(t, a, s) ==> s < z
  }

  ghost predicate AtLeast(t: Trie, lo: nat)
  {
    forall a: Addr, s: nat :: Holds(t, a, s) ==> lo <= s
  }

  /** Every chunk of `all` that fits is at least `bound`, or still ahead in `cur`, or kept in
      `rest`, or larger than something kept in `rest`. */
  ghost predicate Covered(all: Trie, nb: nat, bound: nat, cur: Trie, rest: Trie)
  {
    forall a: Addr, z: nat :: Holds(all, a, z) && nb <= z ==> Accounted(a, z, bound, cur, rest)
  }

  /** The same with nothing but `cur` ahead. */
  ghost predicate Narrowed(all: Trie, nb: nat, bound: nat, cur: Trie)
  {
    forall a: Addr, z: nat :: Holds(all, a, z) && nb <= z ==> Accounted(a, z, bound, Empty, cur)
  }

  /** `bound` is the size of the best chunk so far; `SIZE_RANGE` if there is none. */
  ghost predicate BestSoFar(all: Trie, nb: nat, v: Addr, bound: nat)
  {
    if v == 0 then bound == SIZE_RANGE else nb <= bound < SIZE_RANGE && Holds(all, v, bound)
  }

  /** Remainders are 32-bit differences. */
  function Remainder(size: nat, nb: nat): nat
    requires size < SIZE_RANGE && nb < SIZE_RANGE
  {
    (size - nb) % SIZE_RANGE
  }

  function Improved(bound: nat, size: nat, nb: nat): nat
  {
    if nb <= size < bound then size else bound
  }

  /** A chunk that is too small never looks better than what there is. */
  lemma RemainderCompares(size: nat, nb: nat, bound: nat)
    requires size < SIZE_RANGE && 0 < nb < SIZE_RANGE && nb <= bound <= SIZE_RANGE
    ensures Remainder(size, nb) < bound - nb <==> nb <= size < bound
    ensures nb <= size ==> Remainder(size, nb) == size - nb
  {
  }

  lemma NodeHoldsRoot(t: Trie)
    requires t.Node? && t.ring != []
    ensures Holds(t, t.ring[0], t.size)
  {
  }

  /** Where a chunk that fits can be. */
  ghost predicate Accounted(a: Addr, z: nat, bound: nat, cur: Trie, rest: Trie)
  {
    bound <= z || Holds(cur, a, z) || Holds(rest, a, z) || Above(rest, z)
  }

  lemma HalvesApart(cur: Trie, lo: nat, m: nat)
    requires cur.Node? && Fits(cur, lo, m) && m > 0
    ensures AtLeast(cur.right, lo + Pow2(m - 1)) && Pow2(m) == 2 * Pow2(m - 1)
    ensures forall a: Addr, s: nat :: Holds(cur.right, a, s) ==> s < lo + Pow2(m)
    ensures forall a: Addr, s: nat :: Holds(cur.left, a, s) ==> s < lo + Pow2(m - 1)
  {
    forall a: Addr, s: nat | Holds(cur.right, a, s) ensures lo + Pow2(m - 1) <= s < lo + Pow2(m) {
      HoldsWithin(cur.right, lo + Pow2(m - 1), m - 1, a, s);
    }
    forall a: Addr, s: nat | Holds(cur.left, a, s) ensures s < lo + Pow2(m - 1) {
      HoldsWithin(cur.left, lo, m - 1, a, s);
    }
  }

  lemma NodeIsAbove(t: Trie, z: nat, hi: nat)
    requires t.Node? && (forall a: Addr, s: nat :: Holds(t, a, s) ==> s < hi) && hi <= z
    ensures Above(t, z)
  {
  }

  lemma StepDownOne(nb: nat, bound: nat, cur: Trie, rest: Trie, lo: nat, m: nat, a: Addr, z: nat)
    requires Accounted(a, z, bound, cur, rest) && nb <= z
    requires cur.Node? && Fits(cur, lo, m) && m > 0 && Within(nb, lo, m) && AtLeast(rest, lo + Pow2(m))
    requires rest.Node? ==> rest.ring != []
    ensures var right := GoesRight(nb, lo, m);
            Accounted(a, z, Improved(bound, cur.size, nb), if right then cur.right else cur.left,
                      if !right && cur.right.Node? then cur.right else rest)
  {
    HalvesApart(cur, lo, m);
    if bound <= z {
    } else if Holds(cur, a, z) {
      if Holds(cur.left, a, z) {
      } else if Holds(cur.right, a, z) {
      } else {
        assert z == cur.size;
      }
    } else if !GoesRight(nb, lo, m) && cur.right.Node? {
      if Above(rest, z) {
        NodeHoldsRoot(rest);
      }
      NodeIsAbove(cur.right, z, lo + Pow2(m));
    }
  }

  /** One step down: the half without `nb` is either too small or becomes the new fallback. */
  lemma StepDown(all: Trie, nb: nat, bound: nat, cur: Trie, rest: Trie, lo: nat, m: nat)
    requires Covered(all, nb, bound, cur, rest) && cur.Node? && Fits(cur, lo, m) && m > 0 && Within(nb, lo, m)
    requires AtLeast(rest, lo + Pow2(m)) && (rest.Node? ==> rest.ring != [])
    ensures var right := GoesRight(nb, lo, m);
            var next := if right then cur.right else cur.left;
            var rest' := if !right && cur.right.Node? then cur.right else rest;
            Covered(all, nb, Improved(bound, cur.size, nb), next, rest') &&
            AtLeast(rest', HalfLow(right, lo, m) + Pow2(m - 1))
  {
    forall a: Addr, z: nat | Holds(all, a, z) && nb <= z
      ensures var right := GoesRight(nb, lo, m);
              Accounted(a, z, Improved(bound, cur.size, nb), if right then cur.right else cur.left,
                        if !right && cur.right.Node? then cur.right else rest)
    {
      StepDownOne(nb, bound, cur, rest, lo, m, a, z);
    }
    HalvesApart(cur, lo, m);
  }

  lemma NothingAhead(all: Trie, nb: nat, bound: nat, rest: Trie)
    requires Covered(all, nb, bound, Empty, rest)
    ensures Narrowed(all, nb, bound, rest)
  {
  }

  function Leftmost(t: Trie): Trie
    requires t.Node?
  {
    if t.left.Node? then t.left else t.right
  }

  /** The smallest chunk of a trie is on its leftmost path. */
  lemma StepLeft(all: Trie, nb: nat, bound: nat, cur: Trie, lo: nat, m: nat)
    requires Narrowed(all, nb, bound, cur) && cur.Node? && Fits(cur, lo, m) && AtLeast(cur, nb) && cur.ring != []
    ensures Narrowed(all, nb, Improved(bound, cur.size, nb), Leftmost(cur)) && AtLeast(Leftmost(cur), nb)
    ensures Leftmost(cur).Node? ==> m > 0 && Fits(Leftmost(cur), if cur.left.Node? then lo else lo + Pow2(m - 1), m - 1)
  {
    var next := Leftmost(cur);
    forall a: Addr, s: nat | Holds(next, a, s) ensures nb <= s {
      assert Holds(cur, a, s);
    }
    forall a: Addr, z: nat | Holds(all, a, z) && nb <= z ensures Accounted(a, z, Improved(bound, cur.size, nb), Empty, next) {
      StepLeftOne(nb, bound, cur, lo, m, a, z);
    }
  }

  lemma StepLeftOne(nb: nat, bound: nat, cur: Trie, lo: nat, m: nat, a: Addr, z: nat)
    requires Accounted(a, z, bound, Empty, cur) && nb <= z
    requires cur.Node? && Fits(cur, lo, m) && AtLeast(cur, nb) && cur.ring != []
    ensures Accounted(a, z, Improved(bound, cur.size, nb), Empty, Leftmost(cur))
  {
    NodeHoldsRoot(cur);
    var next := Leftmost(cur);
    if m > 0 {
      HalvesApart(cur, lo, m);
      if Holds(cur.right, a, z) && cur.left.Node? {
        NodeIsAbove(cur.left, z, lo + Pow2(m - 1));
      }
    }
    if Above(cur, z) && next.Node? {
      forall a': Addr, s: nat | Holds(next, a', s) ensures s < z {
        assert Holds(cur, a', s);
      }
    }
  }

  /** Nothing is left to look at: the best so far is the best. */
  lemma SearchEnds(all: Trie, nb: nat, bound: nat)
    requires Narrowed(all, nb, bound, Empty)
    ensures forall a: Addr, z: nat :: Holds(all, a, z) && nb <= z ==> bound <= z
  {
  }

  // ---------------------------------------------------------------- the search over memory

  /** A subtrie with its address, its parent link and the interval it covers. */
  datatype Place = Place(at: Addr, up: Link, t: Trie, lo: nat, m: nat)

  const NOWHERE := Place(0, NoParent, Empty, 0, 0)

  ghost predicate Placed(mem: Mem, i: nat, all: Trie, p: Place)
  {
    Rep(mem, i, p.at, p.up, p.t) && Separate(p.t) && Fits(p.t, p.lo, p.m) &&
    (forall a: Addr, z: nat :: Holds(p.t, a, z) ==> Holds(all, a, z))
  }

  function Half(mem: Mem, p: Place, right: bool): Place
    requires p.at in mem && p.t.Node? && p.m > 0
  {
    Place(Child(mem[p.at], right), Under(p.at), if right then p.t.right else p.t.left, HalfLow(right, p.lo, p.m), p.m - 1)
  }

  lemma PlacedHalf(mem: Mem, i: nat, all: Trie, p: Place, right: bool)
    requires Placed(mem, i, all, p) && p.t.Node? && p.m > 0
    ensures p.at in mem && Placed(mem, i, all, Half(mem, p, right))
    ensures Half(mem, p, right).at == 0 <==> Half(mem, p, right).t.Empty?
  {
    var h := Half(mem, p, right);
    RootIsFirst(mem, i, h.at, h.up, h.t);
    forall a: Addr, z: nat | Holds(h.t, a, z) ensures Holds(all, a, z) {
      assert Holds(p.t, a, z);
    }
  }

  /** The best chunk so far, with everything that fits accounted for. */
  ghost predicate Searching(mem: Mem, i: nat, all: Trie, nb: nat, v: Addr, bound: nat, k: nat, p: Place, rest: Place)
  {
    p.t.Node? && Placed(mem, i, all, p) && Placed(mem, i, all, rest) && Steers(k, nb, p.lo, p.m) &&
    BestSoFar(all, nb, v, bound) && nb < bound && Covered(all, nb, bound, p.t, rest.t) && AtLeast(rest.t, p.lo + Pow2(p.m))
  }

  ghost predicate Settled(mem: Mem, i: nat, all: Trie, nb: nat, v: Addr, bound: nat, p: Place)
  {
    Placed(mem, i, all, p) && BestSoFar(all, nb, v, bound) && Narrowed(all, nb, bound, p.t) &&
    (bound == nb || AtLeast(p.t, nb))
  }

  lemma RootSize(mem: Mem, i: nat, all: Trie, p: Place)
    requires Placed(mem, i, all, p) && p.t.Node?
    ensures p.at in mem && mem[p.at].size == p.t.size && p.at != 0 && Holds(p.t, p.at, p.t.size) && Holds(all, p.at, p.t.size)
    ensures p.m == 0 ==> p.t.size == p.lo
  {
    assert RingAt(mem, i, p.t.ring, p.t.size, 0);
    NodeHoldsRoot(p.t);
    assert Pow2(0) == 1;
  }

  /** Looking at one chunk: it becomes the best if it fits better. */
  lemma Look(all: Trie, nb: nat, v: Addr, bound: nat, a: Addr, size: nat)
    requires BestSoFar(all, nb, v, bound) && a != 0 && Holds(all, a, size) && size < SIZE_RANGE && nb <= bound
    ensures BestSoFar(all, nb, if nb <= size < bound then a else v, Improved(bound, size, nb))
    ensures nb <= Improved(bound, size, nb)
  {
  }

  function NextRest(p: Place, mem: Mem, right: bool, rest: Place): Place
    requires p.at in mem && p.t.Node? && p.m > 0
  {
    if !right && p.t.right.Node? then Half(mem, p, true) else rest
  }

  lemma SearchStep(mem: Mem, i: nat, all: Trie, nb: nat, v: Addr, bound: nat, k: nat, p: Place, rest: Place)
    requires Searching(mem, i, all, nb, v, bound, k, p, rest) && p.t.size != nb && p.t.size < SIZE_RANGE
    ensures p.m > 0 && p.at in mem
    ensures var right := k / SIGN_BIT % 2 == 1;
            var v', bound' := if nb <= p.t.size < bound then p.at else v, Improved(bound, p.t.size, nb);
            var next, rest' := Half(mem, p, right), NextRest(p, mem, right, rest);
            rest'.at == (if mem[p.at].child1 != 0 && mem[p.at].child1 != next.at then mem[p.at].child1 else rest.at) &&
            (if next.at == 0 then Settled(mem, i, all, nb, v', bound', rest')
             else Searching(mem, i, all, nb, v', bound', NextBits(k), next, rest'))
  {
    hide Covered, AtLeast, BestSoFar, Narrowed, Holds, Fits, Pow2, Rep, NextBits;
    BitsLeft(mem, i, all, nb, k, p);
    RootSize(mem, i, all, p);
    NextBitsSteer(k, nb, p.lo, p.m);
    Look(all, nb, v, bound, p.at, p.t.size);
    PlacedHalf(mem, i, all, p, true);
    PlacedHalf(mem, i, all, p, false);
    var right := GoesRight(nb, p.lo, p.m);
    RestHasRing(rest);
    StepDown(all, nb, bound, p.t, rest.t, p.lo, p.m);
    ChildrenDiffer(mem, i, all, p);
    var next, rest' := Half(mem, p, right), NextRest(p, mem, right, rest);
    if next.at == 0 {
      NothingAhead(all, nb, Improved(bound, p.t.size, nb), rest'.t);
      AtLeastLess(rest'.t, next.lo + Pow2(next.m), nb);
    }
  }

  lemma AtLeastLess(t: Trie, x: nat, y: nat)
    requires AtLeast(t, x) && y <= x
    ensures AtLeast(t, y)
  {
  }

  /** A node of another size than the one looked for still has a bit to decide. */
  lemma BitsLeft(mem: Mem, i: nat, all: Trie, nb: nat, k: nat, p: Place)
    requires p.t.Node? && Placed(mem, i, all, p) && Steers(k, nb, p.lo, p.m) && p.t.size != nb
    ensures p.m > 0
  {
    RootSize(mem, i, all, p);
    assert Pow2(0) == 1;
  }

  lemma RestHasRing(p: Place)
    requires Separate(p.t)
    ensures p.t.Node? ==> p.t.ring != []
  {
  }

  lemma ChildrenDiffer(mem: Mem, i: nat, all: Trie, p: Place)
    requires Placed(mem, i, all, p) && p.t.Node? && p.m > 0
    ensures p.at in mem && (mem[p.at].child1 != 0 ==> mem[p.at].child0 != mem[p.at].child1)
  {
    PlacedHalf(mem, i, all, p, true);
    PlacedHalf(mem, i, all, p, false);
    RootIsFirst(mem, i, mem[p.at].child0, Under(p.at), p.t.left);
    RootIsFirst(mem, i, mem[p.at].child1, Under(p.at), p.t.right);
  }

  function LeftmostAddr(c: TChunk): Addr { if c.child0 != 0 then c.child0 else c.child1 }

  lemma LeftStep(mem: Mem, i: nat, all: Trie, nb: nat, v: Addr, bound: nat, p: Place) returns (next: Place)
    requires Settled(mem, i, all, nb, v, bound, p) && p.t.Node? && p.t.size < SIZE_RANGE && nb <= bound
    ensures p.at in mem && next.at == LeftmostAddr(mem[p.at]) && next.t == Leftmost(p.t)
    ensures Settled(mem, i, all, nb, if nb <= p.t.size < bound then p.at else v, Improved(bound, p.t.size, nb), next)
    ensures nb <= Improved(bound, p.t.size, nb)
  {
    RootSize(mem, i, all, p);
    Look(all, nb, v, bound, p.at, p.t.size);
    if p.m == 0 {
      next := NOWHERE;
      RootIsFirst(mem, i, mem[p.at].child0, Under(p.at), p.t.left);
      RootIsFirst(mem, i, mem[p.at].child1, Under(p.at), p.t.right);
    } else {
      PlacedHalf(mem, i, all, p, true);
      PlacedHalf(mem, i, all, p, false);
      next := Half(mem, p, !p.t.left.Node?);
    }
    if bound == nb {
    } else {
      RestHasRing(p);
      StepLeft(all, nb, bound, p.t, p.lo, p.m);
    }
  }
}
