/**
 The tree bins of the kernel allocator: 32 roots, the map of non-empty ones, and the
 operations that link, unlink and search large free chunks.
 */
module TreeBins {
  import opened BinIndex
  import opened BinMap
  import opened Tries
  import opened TreeMemory
  import opened TreeSearch

  /** A size that belongs in a tree bin. */
  predicate LargeSize(s: nat) { MIN_LARGE_SIZE <= s < SIZE_RANGE && s % 8 == 0 }

  ghost predicate AllInBin(t: Trie, i: nat)
  {
    forall s :: s in Sizes(t) ==> LargeSize(s) && InBin(s, i)
  }

  ghost predicate BinOk(mem: Mem, root: Addr, marked: bool, t: Trie, i: nat)
  {
    Rep(mem, i, root, Link.Bin(i), t) && Separate(t) && Fits(t, BinLow(i), BinBits(i)) && AllInBin(t, i) &&
    (marked <==> t.Node?)
  }

  /** Bin `i` is the trie `tries[i]` in memory, marked in the map exactly when not empty, and no
      chunk is in two bins. */
  ghost predicate BinsOk(mem: Mem, roots: seq<Addr>, m: Map, tries: seq<Trie>)
  {
    |roots| == NTREEBINS && |tries| == NTREEBINS &&
    (forall i :: 0 <= i < NTREEBINS ==> BinOk(mem, roots[i], Marked(m, i), tries[i], i)) &&
    (forall i, j :: 0 <= i < j < NTREEBINS ==> Addrs(tries[i]) !! Addrs(tries[j]))
  }

  /** Chunk `a` of size `s` is in the bins. */
  ghost predicate Stores(tries: seq<Trie>, a: Addr, s: nat)
  {
    LargeSize(s) && |tries| == NTREEBINS && TreeIndex(s) < NTREEBINS && Holds(tries[TreeIndex(s)], a, s)
  }

  ghost predicate Absent(tries: seq<Trie>, x: Addr)
  {
    forall i :: 0 <= i < |tries| ==> x !in Addrs(tries[i])
  }

  lemma HoldsIsInBin(t: Trie, i: nat, a: Addr, s: nat)
    requires Fits(t, BinLow(i), BinBits(i)) && AllInBin(t, i) && Holds(t, a, s)
    ensures LargeSize(s) && InBin(s, i) && TreeIndex(s) == i
  {
    HoldsWithin(t, BinLow(i), BinBits(i), a, s);
    TreeIndexIsTheBin(s, i);
  }

  /** Changing one bin, and writing only to its chunks and one chunk from outside, keeps the others. */
  lemma OneBinChanged(mem: Mem, mem': Mem, roots: seq<Addr>, m: Map, m': Map, tries: seq<Trie>,
                      i: nat, root: Addr, t: Trie, more: set<Addr>)
    requires BinsOk(mem, roots, m, tries) && i < NTREEBINS && BinOk(mem', root, Marked(m', i), t, i)
    requires forall j :: 0 <= j < NTREEBINS && j != i ==> (Marked(m', j) <==> Marked(m, j)) && more !! Addrs(tries[j])
    requires SameOn(mem, mem', mem.Keys - Addrs(tries[i]) - more) && Addrs(t) <= Addrs(tries[i]) + more
    ensures BinsOk(mem', roots[i := root], m', tries[i := t])
  {
    hide Marked;
    forall j | 0 <= j < NTREEBINS && j != i ensures BinOk(mem', roots[j], Marked(m', j), tries[j], j) {
      assert BinOk(mem, roots[j], Marked(m, j), tries[j], j);
      if i < j {
        assert Addrs(tries[i]) !! Addrs(tries[j]);
      } else {
        assert Addrs(tries[j]) !! Addrs(tries[i]);
      }
      RepFrame(mem, mem', j, roots[j], Link.Bin(j), tries[j]);
    }
  }

  lemma {:induction false} SizesAligned(t: Trie, i: nat)
    requires AllInBin(t, i)
    ensures Aligned(t)
  {
    if t.Node? {
      assert t.size in Sizes(t);
      SizesAligned(t.left, i);
      SizesAligned(t.right, i);
    }
  }

  lemma BinLowAligned(i: nat)
    ensures BinLow(i) % 8 == 0 && BinBits(i) >= 7
  {
    hide Pow2;
    Pow2Eight(i / 2 + 7);
    Pow2Eight(i / 2 + 8);
    assert MinSize(i) == if i % 2 == 0 then Pow2(i / 2 + 8) else Pow2(i / 2 + 8) + Pow2(i / 2 + 7);
  }

  /** A walk down a bin takes no more steps than there are bits that tell its sizes apart. */
  lemma BinDepth(mem: Mem, roots: seq<Addr>, m: Map, tries: seq<Trie>, i: nat)
    requires BinsOk(mem, roots, m, tries) && i < NTREEBINS
    ensures Height(tries[i]) <= BinBits(i) - 2
  {
    assert BinOk(mem, roots[i], Marked(m, i), tries[i], i);
    hide Marked, Rep, Separate;
    SizesAligned(tries[i], i);
    BinLowAligned(i);
    HeightBound(tries[i], BinLow(i), BinBits(i));
  }

  // ---------------------------------------------------------------- linking

  lemma SizesInBin(t: Trie, t': Trie, s: nat, i: nat)
    requires AllInBin(t, i) && LargeSize(s) && InBin(s, i) && Sizes(t') <= Sizes(t) + {s}
    ensures AllInBin(t', i)
  {
  }

  lemma InsertedBinOk(mem: Mem, root: Addr, t: Trie, i: nat, x: Addr, s: nat)
    requires BinOk(mem, root, true, t, i) && LargeSize(s) && InBin(s, i)
    requires x !in Addrs(t) && Prepared(mem, i, x, s)
    ensures var spot := SpotOf(t, s, BinLow(i), BinBits(i));
            BinOk(InsertAt(mem, spot, x), root, true, Inserted(t, x, s, BinLow(i), BinBits(i)), i)
  {
    BinInterval(s, i);
    InsertRep(mem, i, root, Link.Bin(i), t, s, BinLow(i), BinBits(i), x);
    InsertedFits(t, x, s, BinLow(i), BinBits(i));
    InsertedSeparate(t, x, s, BinLow(i), BinBits(i));
    InsertedAddrs(t, x, s, BinLow(i), BinBits(i));
    SizesInBin(t, Inserted(t, x, s, BinLow(i), BinBits(i)), s, i);
  }

  lemma FirstBinOk(mem: Mem, i: nat, x: Addr, s: nat)
    requires i < NTREEBINS && LargeSize(s) && InBin(s, i) && Prepared(mem, i, x, s)
    requires mem[x].fd == x && mem[x].bk == x && mem[x].parent == Link.Bin(i)
    ensures BinOk(mem, x, true, Node(s, [x], Empty, Empty), i)
  {
    BinInterval(s, i);
    assert RingAt(mem, i, [x], s, 0);
  }

  function WithInserted(tries: seq<Trie>, x: Addr, s: nat): seq<Trie>
  {
    var i := TreeIndex(s);
    if i < |tries| then tries[i := Inserted(tries[i], x, s, BinLow(i), BinBits(i))] else tries
  }

  /** What the bins hold after bin `TreeIndex(s)` gained exactly `x`. */
  lemma InsertedStores(tries: seq<Trie>, x: Addr, s: nat, a: Addr, z: nat)
    requires |tries| == NTREEBINS && LargeSize(s)
    requires TreeIndex(s) < NTREEBINS && Fits(tries[TreeIndex(s)], BinLow(TreeIndex(s)), BinBits(TreeIndex(s)))
    ensures Stores(WithInserted(tries, x, s), a, z) <==> Stores(tries, a, z) || (a == x && z == s)
  {
    var i := TreeIndex(s);
    TreeIndexPlaces(s);
    BinInterval(s, i);
    InsertedHolds(tries[i], x, s, BinLow(i), BinBits(i), a, z);
  }

  class Bins {
    var mem: Mem
    var treebins: seq<Addr>
    var treemap: Map
    ghost var tries: seq<Trie>

    ghost predicate Valid()
      reads this
    {
      BinsOk(mem, treebins, treemap, tries)
    }

    constructor ()
      ensures Valid() && forall a: Addr, s: nat :: !Stores(tries, a, s)
    {
      mem, treemap := map[], 0;
      treebins := seq(NTREEBINS, _ => 0);
      tries := seq(NTREEBINS, _ => Empty);
      new;
      forall i | 0 <= i < NTREEBINS ensures BinOk(mem, treebins[i], Marked(treemap, i), tries[i], i) {
        EmptyMap(i);
      }
    }

    /** `insert_large_chunk` */
    method InsertLarge(x: Addr, s: nat)
      requires Valid() && x != 0 && LargeSize(s) && Absent(tries, x)
      modifies this
      ensures Valid() && tries == WithInserted(old(tries), x, s)
      ensures forall a: Addr, z: nat :: Stores(tries, a, z) <==> Stores(old(tries), a, z) || (a == x && z == s)
    {
      var i := TreeIndex(s);
      TreeIndexPlaces(s);
      ghost var t0 := tries[i];
      assert BinOk(mem, treebins[i], Marked(treemap, i), t0, i);
      Overwritten(mem, treebins, treemap, tries, x, TChunk(s, 0, 0, 0, 0, NoParent, i));
      mem := mem[x := TChunk(s, 0, 0, 0, 0, NoParent, i)];
      assert BinOk(mem, treebins[i], Marked(treemap, i), t0, i);
      if !Marked(treemap, i) {
        FirstInserted(mem, treebins, treemap, tries, x, s);
        treemap := Mark(treemap, i);
        treebins := treebins[i := x];
        mem := mem[x := mem[x].(parent := Link.Bin(i), fd := x, bk := x)];
      } else {
        NextInserted(mem, treebins, treemap, tries, x, s);
        LinkIn(x, s, i, t0);
      }
      tries := WithInserted(tries, x, s);
      forall a: Addr, z: nat ensures Stores(tries, a, z) <==> Stores(old(tries), a, z) || (a == x && z == s) {
        InsertedStores(old(tries), x, s, a, z);
      }
    }

    /** The walk of `insert_large_chunk` down a non-empty bin. */
    method LinkIn(x: Addr, s: nat, i: nat, ghost t0: Trie)
      requires i < |treebins| && i < NTREEBINS && InBin(s, i) && LargeSize(s) && x in mem && x !in Addrs(t0)
      requires BinOk(mem, treebins[i], true, t0, i)
      modifies this`mem
      ensures mem == InsertAt(old(mem), SpotOf(t0, s, BinLow(i), BinBits(i)), x)
    {
      var t := treebins[i];
      var k: nat := FirstBits(s, i);
      FirstBitsSteer(s, i);
      ghost var cur, up, lo: nat, m: nat := t0, Link.Bin(i), BinLow(i), BinBits(i);
      ghost var spot := SpotOf(t0, s, lo, m);
      assert Walking(mem, i, t, up, cur, k, s, lo, m, spot);
      hide Rep, Fits, Steers, BinOk, SpotOf, Separate, Pow2, Addrs;
      while true
        invariant mem == old(mem) && x in mem && Walking(mem, i, t, up, cur, k, s, lo, m, spot)
        decreases cur
      {
        WalkStep(mem, i, t, up, cur, k, s, lo, m, spot);
        if mem[t].size != s {
          var right := k / SIGN_BIT % 2 == 1;
          k := NextBits(k);
          var c := Child(mem[t], right);
          if c != 0 {
            cur, up, lo, m, t := if right then cur.right else cur.left, Under(t), HalfLow(right, lo, m), m - 1, c;
          } else {
            mem := mem[t := WithChild(mem[t], right, x)];
            mem := mem[x := mem[x].(parent := Under(t), fd := x, bk := x)];
            break;
          }
        } else {
          var f := mem[t].fd;
          mem := mem[t := mem[t].(fd := x)];
          mem := mem[f := mem[f].(bk := x)];
          mem := mem[x := mem[x].(fd := f, bk := t, parent := NoParent)];
          break;
        }
      }
    }

    /** `unlink_large_chunk`; `s` is the size of the chunk. */
    method UnlinkLarge(x: Addr, ghost s: nat)
      requires Valid() && Stores(tries, x, s)
      modifies this
      ensures Valid() && tries == WithUnlinked(old(tries), x, s)
      ensures forall a: Addr, z: nat :: Stores(tries, a, z) <==> Stores(old(tries), a, z) && a != x
    {
      hide Rep, Separate, NodeOf, LeafBelow, Detached, Relink, Marked, Clear, WithUnlinked, TreeIndex, Holds, LargeSize;
      ghost var i, n := TreeIndex(s), NodeOf(tries[TreeIndex(s)], x);
      UnlinkStart(mem, treebins, treemap, tries, x, s);
      UnlinkedBins(mem, treebins, treemap, tries, x, s);
      UnlinkedStores(mem, treebins, treemap, tries, x, s);
      var xp := mem[x].parent;
      var r := Detach(x, i, n);
      if xp != NoParent {
        TakePlace(x, r);
      }
      tries := WithUnlinked(tries, x, s);
    }

    /** The first part of `unlink_large_chunk`: leaves the ring, or picks a replacement. */
    method Detach(x: Addr, ghost i: nat, ghost n: Trie) returns (r: Addr)
      requires Linked(mem, i, x, n)
      modifies this`mem
      ensures mem == Detached(old(mem), x, LeafBelow(n)) && r == Successor(old(mem), x, LeafBelow(n))
      ensures DetachedOk(old(mem), mem, x, r)
    {
      if mem[x].bk != x {
        var f := mem[x].fd;
        r := mem[x].bk;
        mem := mem[f := mem[f].(bk := r)];
        mem := mem[r := mem[r].(fd := f)];
      } else {
        var leaf := FindLeaf(x, i, n);
        LeafBelowOk(mem, i, x, mem[x].parent, n);
        r := leaf.leaf;
        if r != 0 {
          mem := mem[leaf.parent := WithChild(mem[leaf.parent], leaf.right, 0)];
        }
      }
    }

    /** Looks for the rightmost leaf below `x`; null if `x` is a leaf itself. */
    method FindLeaf(x: Addr, ghost i: nat, ghost n: Trie) returns (q: LeafAt)
      requires n.Node? && Separate(n) && n.ring[0] == x && x in mem && Rep(mem, i, x, mem[x].parent, n)
      ensures q == LeafBelow(n)
    {
      q := LeafAt(mem[x].child1, x, true);
      RootIsFirst(mem, i, mem[x].child1, Under(x), n.right);
      RootIsFirst(mem, i, mem[x].child0, Under(x), n.left);
      if q.leaf == 0 {
        q := LeafAt(mem[x].child0, x, false);
      }
      if q.leaf == 0 {
        return LeafAt(0, 0, false);
      }
      ghost var cur, up := if q.right then n.right else n.left, Under(x);
      LeafStep(mem, i, q, up, cur);
      while mem[q.leaf].child1 != 0 || mem[q.leaf].child0 != 0
        invariant LeafWalk(mem, i, q, up, cur) && LeafOf(cur, q.parent, q.right) == LeafBelow(n)
        invariant q.leaf in mem
        decreases cur
      {
        LeafStep(mem, i, q, up, cur);
        var right := mem[q.leaf].child1 != 0;
        cur, up := if right then cur.right else cur.left, Under(q.leaf);
        q := LeafAt(Child(mem[q.leaf], right), q.leaf, right);
        LeafStep(mem, i, q, up, cur);
      }
      LeafStep(mem, i, q, up, cur);
    }

    /** Puts `r` where `x` was, and `x`'s children under `r`. */
    method TakePlace(x: Addr, r: Addr)
      requires x in mem && mem[x].parent != NoParent && mem[x].index < |treebins| && |treebins| == NTREEBINS
      requires treebins[mem[x].index] == x <==> mem[x].parent.Bin?
      requires mem[x].parent.Under? ==> mem[x].parent.a in mem
      requires r != 0 ==> r in mem && r != x
      requires ChildOk(mem, x, mem[x].child0) && ChildOk(mem, x, mem[x].child1)
      modifies this`mem, this`treebins, this`treemap
      ensures mem == Relink(old(mem), x, r)
      ensures var i := old(mem)[x].index;
              if old(treebins)[i] != x then treebins == old(treebins) && treemap == old(treemap)
              else treebins == old(treebins)[i := r] && treemap == if r == 0 then Clear(old(treemap), i) else old(treemap)
    {
      var i, xp := mem[x].index, mem[x].parent;
      if treebins[i] == x {
        treebins := treebins[i := r];
        if r == 0 {
          treemap := Clear(treemap, i);
        }
      } else if mem[xp.a].child0 == x {
        mem := mem[xp.a := mem[xp.a].(child0 := r)];
      } else {
        mem := mem[xp.a := mem[xp.a].(child1 := r)];
      }
      if r != 0 {
        mem := mem[r := mem[r].(parent := xp)];
        HandOver(x, r, false);
        HandOver(x, r, true);
      }
    }

    method HandOver(x: Addr, r: Addr, right: bool)
      requires x in mem && r in mem && x != r && ChildOk(mem, x, Child(mem[x], right))
      modifies this`mem
      ensures mem == Adopt(old(mem), x, r, right)
    {
      var c := Child(mem[x], right);
      if c != 0 {
        mem := mem[r := WithChild(mem[r], right, c)];
        mem := mem[c := mem[c].(parent := Under(r))];
      }
    }

    /** The search of `tmalloc_large` for the best fit: null if nothing fits. */
    method FindBest(nb: nat) returns (v: Addr, rsize: nat)
      requires Valid() && MIN_LARGE_SIZE <= nb < SIZE_RANGE
      ensures BestFit(tries, nb, v, rsize)
    {
      var idx := TreeIndex(nb);
      TreeIndexPlaces(nb);
      assert BinOk(mem, treebins[idx], Marked(treemap, idx), tries[idx], idx);
      var t := treebins[idx];
      ghost var all, p := tries[idx], NOWHERE;
      hide Marked;
      if t != 0 {
        t, v, rsize, p := WalkDown(nb, idx, all);
      } else {
        v, rsize := 0, SIZE_RANGE - nb;
        RootIsFirst(mem, idx, t, Link.Bin(idx), all);
        EmptyBin(mem, idx, all, nb);
      }
      ghost var home := idx;
      BinIsBounded(all, idx);
      if t == 0 && v == 0 {
        NoneInHome(mem, idx, all, nb, p);
        var leftbits := MarkedAfter(treemap, idx);
        if leftbits == 0 {
          NoneAfter(mem, treebins, treemap, tries, nb);
          return;
        }
        var i := BitToIdx(LeastBit(leftbits), 0);
        NextBin(mem, treebins, treemap, tries, nb);
        t, home, all := treebins[i], i, tries[i];
        p := Place(t, Link.Bin(i), all, BinLow(i), BinBits(i));
      } else {
        SomethingFits(mem, idx, all, nb, v, nb + rsize, p);
        LowerBinsTooSmall(mem, treebins, treemap, tries, nb);
      }
      v, rsize := WalkLeft(nb, t, v, rsize, home, all, p);
      BestOverall(mem, treebins, treemap, tries, nb, home, v, rsize);
    }

    /** The descent towards `nb`; the result `t` is the subtree still to search. */
    method WalkDown(nb: nat, idx: nat, ghost all: Trie) returns (t: Addr, v: Addr, rsize: nat, ghost p: Place)
      requires idx < |treebins| && idx < NTREEBINS && MIN_LARGE_SIZE <= nb < SIZE_RANGE && InBin(nb, idx)
      requires BinOk(mem, treebins[idx], true, all, idx)
      ensures 0 <= rsize <= SIZE_RANGE - nb && t == p.at && Settled(mem, idx, all, nb, v, nb + rsize, p)
    {
      hide BinOk, Searching, Settled, InBin, FirstBits, NextBits, BinLow, BinBits;
      v, rsize := 0, SIZE_RANGE - nb;
      t := treebins[idx];
      var sizebits: nat := FirstBits(nb, idx);
      var rst := 0;
      p := Place(t, Link.Bin(idx), all, BinLow(idx), BinBits(idx));
      ghost var rest := NOWHERE;
      SearchStarts(mem, idx, all, nb, p);
      while true
        invariant rsize <= SIZE_RANGE - nb && t == p.at && rst == rest.at
        invariant Searching(mem, idx, all, nb, v, nb + rsize, sizebits, p, rest) && p.t.Node?
        decreases p.t
      {
        SearchAt(mem, treebins[idx], idx, all, nb, v, nb + rsize, sizebits, p, rest);
        var trem := Remainder(mem[t].size, nb);
        RemainderCompares(mem[t].size, nb, nb + rsize);
        if trem < rsize {
          ghost var v0, bound0 := v, nb + rsize;
          v, rsize := t, trem;
          if rsize == 0 {
            ExactFit(mem, idx, all, nb, v0, bound0, sizebits, p, rest);
            break;
          }
        }
        var rt := mem[t].child1;
        var right := sizebits / SIGN_BIT % 2 == 1;
        ghost var next, rest' := Half(mem, p, right), NextRest(p, mem, right, rest);
        t := Child(mem[t], right);
        if rt != 0 && rt != t {
          rst := rt;
        }
        p, rest := next, rest';
        if t == 0 {
          t, p := rst, rest;
          break;
        }
        sizebits := NextBits(sizebits);
      }
    }

    /** The walk along the leftmost path of `t`, keeping the smallest chunk that fits. */
    method WalkLeft(nb: nat, t0: Addr, v0: Addr, rsize0: nat, ghost i: nat, ghost all: Trie, ghost p0: Place)
      returns (v: Addr, rsize: nat)
      requires 0 < nb < SIZE_RANGE && rsize0 <= SIZE_RANGE - nb && t0 == p0.at
      requires Settled(mem, i, all, nb, v0, nb + rsize0, p0) && Bounded(all)
      ensures rsize <= SIZE_RANGE - nb && BestSoFar(all, nb, v, nb + rsize)
      ensures forall a: Addr, z: nat :: Holds(all, a, z) && nb <= z ==> nb + rsize <= z
    {
      v, rsize := v0, rsize0;
      var t := t0;
      ghost var p := p0;
      hide Settled;
      while t != 0
        invariant rsize <= SIZE_RANGE - nb && t == p.at && Settled(mem, i, all, nb, v, nb + rsize, p)
        decreases p.t
      {
        PlaceAt(mem, i, all, nb, v, nb + rsize, p);
        var trem := Remainder(mem[t].size, nb);
        RemainderCompares(mem[t].size, nb, nb + rsize);
        ghost var next := LeftStep(mem, i, all, nb, v, nb + rsize, p);
        if trem < rsize {
          rsize := trem;
          v := t;
        }
        t := LeftmostAddr(mem[t]);
        p := next;
      }
      WalkLeftEnds(mem, i, all, nb, v, nb + rsize, p);
    }

    /** The search of `tmalloc_small`: some bin is not empty and every chunk in it fits. */
    method FindSmallest(nb: nat) returns (v: Addr, rsize: nat)
      requires Valid() && 0 < nb < MIN_LARGE_SIZE && treemap != 0
      ensures v != 0 && BestFit(tries, nb, v, rsize)
    {
      var i := FirstMarked(treemap);
      FirstMarkedIsFirst(treemap);
      assert BinOk(mem, treebins[i], Marked(treemap, i), tries[i], i);
      ghost var all := tries[i];
      var t := treebins[i];
      ghost var p := Place(t, Link.Bin(i), all, BinLow(i), BinBits(i));
      SmallestStarts(mem, t, i, all, nb);
      v := t;
      rsize := mem[t].size - nb;
      t := LeftmostAddr(mem[t]);
      p := LeftStep(mem, i, all, nb, 0, SIZE_RANGE, p);
      v, rsize := WalkLeft(nb, t, v, rsize, i, all, p);
      SmallestOverall(mem, treebins, treemap, tries, nb, i, v, rsize);
    }
  }

  /** The walk for size `s` stands at `t`, which is the trie `cur`, and will end at `spot`. */
  ghost predicate Walking(mem: Mem, i: nat, t: Addr, up: Link, cur: Trie, k: nat, s: nat, lo: nat, m: nat, spot: Spot)
  {
    cur.Node? && cur.ring != [] && Rep(mem, i, t, up, cur) && Separate(cur) && Fits(cur, lo, m) && Steers(k, s, lo, m) &&
    SpotOf(cur, s, lo, m) == spot
  }

  lemma WalkStep(mem: Mem, i: nat, t: Addr, up: Link, cur: Trie, k: nat, s: nat, lo: nat, m: nat, spot: Spot)
    requires Walking(mem, i, t, up, cur, k, s, lo, m, spot)
    ensures t in mem && t in Addrs(cur) && mem[t].size == cur.size
    ensures cur.size == s ==> mem[t].fd in mem && mem[t].fd in Addrs(cur) && spot == AtRing(t)
    ensures cur.size != s ==> m > 0 && WalkNext(mem, i, t, cur, k, s, lo, m, spot)
  {
    assert RingAt(mem, i, cur.ring, cur.size, 0);
    assert t in RingSet(cur.ring);
    if cur.size == s {
      assert RingAt(mem, i, cur.ring, cur.size, Next(0, |cur.ring|));
      assert mem[t].fd in RingSet(cur.ring);
    } else {
      assert m > 0 by { assert m == 0 ==> Pow2(m) == 1; }
      NextBitsSteer(k, s, lo, m);
      var right := GoesRight(s, lo, m);
      RootIsFirst(mem, i, Child(mem[t], right), Under(t), if right then cur.right else cur.left);
    }
  }

  ghost predicate WalkNext(mem: Mem, i: nat, t: Addr, cur: Trie, k: nat, s: nat, lo: nat, m: nat, spot: Spot)
    requires m > 0 && cur.Node? && t in mem
  {
    var right := k / SIGN_BIT % 2 == 1;
    var c, next := Child(mem[t], right), if right then cur.right else cur.left;
    if c == 0 then next.Empty? && spot == AtChild(t, right)
    else Walking(mem, i, c, Under(t), next, NextBits(k), s, HalfLow(right, lo, m), m - 1, spot)
  }

  lemma Overwritten(mem: Mem, roots: seq<Addr>, m: Map, tries: seq<Trie>, x: Addr, c: TChunk)
    requires BinsOk(mem, roots, m, tries) && Absent(tries, x)
    ensures BinsOk(mem[x := c], roots, m, tries)
  {
    hide Marked;
    forall i | 0 <= i < NTREEBINS ensures BinOk(mem[x := c], roots[i], Marked(m, i), tries[i], i) {
      assert BinOk(mem, roots[i], Marked(m, i), tries[i], i);
      RepFrame(mem, mem[x := c], i, roots[i], Link.Bin(i), tries[i]);
    }
  }

  lemma FirstInserted(mem: Mem, roots: seq<Addr>, m: Map, tries: seq<Trie>, x: Addr, s: nat)
    requires BinsOk(mem, roots, m, tries) && Absent(tries, x) && LargeSize(s)
    requires TreeIndex(s) < NTREEBINS && !Marked(m, TreeIndex(s)) && Prepared(mem, TreeIndex(s), x, s)
    ensures var i := TreeIndex(s);
            BinsOk(mem[x := mem[x].(parent := Link.Bin(i), fd := x, bk := x)], roots[i := x], Mark(m, i), WithInserted(tries, x, s))
  {
    var i := TreeIndex(s);
    var mem' := mem[x := mem[x].(parent := Link.Bin(i), fd := x, bk := x)];
    TreeIndexPlaces(s);
    assert BinOk(mem, roots[i], Marked(m, i), tries[i], i);
    FirstBinOk(mem', i, x, s);
    MarkSets(m, i, i);
    forall j | 0 <= j < NTREEBINS && j != i ensures Marked(Mark(m, i), j) <==> Marked(m, j) {
      MarkSets(m, i, j);
    }
    hide Marked, Mark;
    OneBinChanged(mem, mem', roots, m, Mark(m, i), tries, i, x, Node(s, [x], Empty, Empty), {x});
  }

  lemma NextInserted(mem: Mem, roots: seq<Addr>, m: Map, tries: seq<Trie>, x: Addr, s: nat)
    requires BinsOk(mem, roots, m, tries) && Absent(tries, x) && LargeSize(s)
    requires TreeIndex(s) < NTREEBINS && Marked(m, TreeIndex(s)) && Prepared(mem, TreeIndex(s), x, s)
    ensures var i := TreeIndex(s);
            tries[i].Node? && tries[i].ring != [] &&
            BinsOk(InsertAt(mem, SpotOf(tries[i], s, BinLow(i), BinBits(i)), x), roots, m, WithInserted(tries, x, s))
  {
    var i := TreeIndex(s);
    var t := tries[i];
    TreeIndexPlaces(s);
    BinInterval(s, i);
    assert BinOk(mem, roots[i], Marked(m, i), t, i);
    InsertedBinOk(mem, roots[i], t, i, x, s);
    InsertWrites(mem, i, roots[i], Link.Bin(i), t, s, BinLow(i), BinBits(i), x);
    InsertedAddrs(t, x, s, BinLow(i), BinBits(i));
    hide Marked;
    OneBinChanged(mem, InsertAt(mem, SpotOf(t, s, BinLow(i), BinBits(i)), x), roots, m, m, tries, i, roots[i],
                  Inserted(t, x, s, BinLow(i), BinBits(i)), {x});
    assert roots[i := roots[i]] == roots;
  }

  // ---------------------------------------------------------------- unlinking

  function WithUnlinked(tries: seq<Trie>, x: Addr, s: nat): seq<Trie>
  {
    var i := TreeIndex(s);
    if i < |tries| then tries[i := Unlinked(tries[i], x)] else tries
  }

  ghost predicate LeafWalk(mem: Mem, i: nat, q: LeafAt, up: Link, cur: Trie)
  {
    cur.Node? && Separate(cur) && Rep(mem, i, q.leaf, up, cur)
  }

  lemma LeafStep(mem: Mem, i: nat, q: LeafAt, up: Link, cur: Trie)
    requires LeafWalk(mem, i, q, up, cur)
    ensures q.leaf in mem && q.leaf != 0
    ensures mem[q.leaf].child1 != 0 ==>
              LeafWalk(mem, i, LeafAt(mem[q.leaf].child1, q.leaf, true), Under(q.leaf), cur.right) &&
              LeafOf(cur, q.parent, q.right) == LeafOf(cur.right, q.leaf, true)
    ensures mem[q.leaf].child1 == 0 && mem[q.leaf].child0 != 0 ==>
              LeafWalk(mem, i, LeafAt(mem[q.leaf].child0, q.leaf, false), Under(q.leaf), cur.left) &&
              LeafOf(cur, q.parent, q.right) == LeafOf(cur.left, q.leaf, false)
    ensures mem[q.leaf].child1 == 0 && mem[q.leaf].child0 == 0 ==> LeafOf(cur, q.parent, q.right) == q
  {
    RootIsFirst(mem, i, mem[q.leaf].child1, Under(q.leaf), cur.right);
    RootIsFirst(mem, i, mem[q.leaf].child0, Under(q.leaf), cur.left);
  }

  ghost predicate ChildOk(mem: Mem, x: Addr, c: Addr) { c != 0 ==> c in mem && c != x }

  /** What `unlink_large_chunk` relies on about the chunk it is given. */
  ghost predicate Linked(mem: Mem, i: nat, x: Addr, n: Trie)
  {
    x in mem && mem[x].index == i && mem[x].fd in mem && mem[x].bk in mem &&
    ChildOk(mem, x, mem[x].child0) && ChildOk(mem, x, mem[x].child1) &&
    n.Node? && Separate(n) &&
    (if mem[x].bk == x then mem[x].parent != NoParent && n.ring == [x] && Rep(mem, i, x, mem[x].parent, n)
     else mem[x].fd != x && mem[x].bk != 0)
  }

  ghost predicate DetachedOk(mem: Mem, mem': Mem, x: Addr, r: Addr)
  {
    mem'.Keys == mem.Keys && x in mem && mem'[x].parent == mem[x].parent && mem'[x].index == mem[x].index &&
    ChildOk(mem', x, mem'[x].child0) && ChildOk(mem', x, mem'[x].child1) && (r != 0 ==> r in mem' && r != x)
  }

  lemma UnlinkStart(mem: Mem, roots: seq<Addr>, m: Map, tries: seq<Trie>, x: Addr, s: nat)
    requires BinsOk(mem, roots, m, tries) && Stores(tries, x, s)
    ensures Linked(mem, TreeIndex(s), x, NodeOf(tries[TreeIndex(s)], x))
    ensures roots[TreeIndex(s)] == x <==> mem[x].parent.Bin?
    ensures mem[x].parent.Under? ==> mem[x].parent.a in mem
    ensures roots[TreeIndex(s)] != 0
  {
    var i := TreeIndex(s);
    assert BinOk(mem, roots[i], Marked(m, i), tries[i], i);
    HoldsAddr(tries[i], x, s);
    NodeOfSeparate(tries[i], x);
    NodeOfRep(mem, i, roots[i], Link.Bin(i), tries[i], x);
    RootIsFirst(mem, i, roots[i], Link.Bin(i), tries[i]);
    ParentOf(mem, i, roots[i], Link.Bin(i), tries[i], x);
    RingOf(mem, i, NodeOf(tries[i], x), x);
  }

  lemma RingOf(mem: Mem, i: nat, n: Trie, x: Addr)
    requires n.Node? && Separate(n) && x in n.ring && RingRep(mem, i, n.ring, n.size)
    ensures x in mem && mem[x].index == i && mem[x].fd in mem && mem[x].bk in mem && mem[x].bk != 0
    ensures if mem[x].bk == x then n.ring == [x] else mem[x].fd != x
  {
    var k :| 0 <= k < |n.ring| && n.ring[k] == x;
    assert RingAt(mem, i, n.ring, n.size, k);
    assert RingAt(mem, i, n.ring, n.size, Next(k, |n.ring|)) && RingAt(mem, i, n.ring, n.size, Prev(k, |n.ring|));
    if mem[x].bk == x {
      assert Prev(k, |n.ring|) == k;
    }
  }

  /** Only the root of a trie hangs from its bin. */
  lemma {:induction false} ParentOf(mem: Mem, i: nat, a: Addr, up: Link, t: Trie, x: Addr)
    requires Rep(mem, i, a, up, t) && Separate(t) && x in Addrs(t)
    ensures x in mem && (if x == a then mem[x].parent == up else !mem[x].parent.Bin?)
    ensures x != a && mem[x].parent == NoParent ==> mem[x].bk != x
    ensures x != a && mem[x].parent.Under? ==> mem[x].parent.a in mem
    ensures ChildOk(mem, x, mem[x].child0) && ChildOk(mem, x, mem[x].child1)
    decreases t
  {
    RootIsFirst(mem, i, a, up, t);
    RootIsFirst(mem, i, mem[a].child0, Under(a), t.left);
    RootIsFirst(mem, i, mem[a].child1, Under(a), t.right);
    if x in t.ring {
      assert x in RingSet(t.ring);
      var k :| 0 <= k < |t.ring| && t.ring[k] == x;
      assert RingAt(mem, i, t.ring, t.size, k);
    } else if x in Addrs(t.left) {
      ParentOf(mem, i, mem[a].child0, Under(a), t.left, x);
    } else {
      ParentOf(mem, i, mem[a].child1, Under(a), t.right, x);
    }
  }

  lemma UnlinkedBinOk(mem: Mem, root: Addr, t: Trie, i: nat, x: Addr)
    requires BinOk(mem, root, true, t, i) && x in Addrs(t)
    ensures Separate(NodeOf(t, x))
    ensures var q := LeafBelow(NodeOf(t, x));
            var root' := if root == x then Successor(mem, x, q) else root;
            BinOk(UnlinkAt(mem, x, q), root', root' != 0, Unlinked(t, x), i) &&
            SameOn(mem, UnlinkAt(mem, x, q), mem.Keys - Addrs(t))
  {
    UnlinkRep(mem, i, root, Link.Bin(i), t, x);
    var q := LeafBelow(NodeOf(t, x));
    UnlinkedFits(t, x, BinLow(i), BinBits(i));
    UnlinkedSeparate(t, x);
    RootIsFirst(mem, i, root, Link.Bin(i), t);
    RootIsFirst(UnlinkAt(mem, x, q), i, if root == x then Successor(mem, x, q) else root, Link.Bin(i), Unlinked(t, x));
  }

  /** The stores of `unlink_large_chunk` keep the bins in order. */
  lemma UnlinkedBins(mem: Mem, roots: seq<Addr>, m: Map, tries: seq<Trie>, x: Addr, s: nat)
    requires BinsOk(mem, roots, m, tries) && Stores(tries, x, s)
    ensures Separate(NodeOf(tries[TreeIndex(s)], x))
    ensures var i := TreeIndex(s);
            var q := LeafBelow(NodeOf(tries[i], x));
            var root := if roots[i] == x then Successor(mem, x, q) else roots[i];
            BinsOk(UnlinkAt(mem, x, q), roots[i := root], if root == 0 then Clear(m, i) else m, WithUnlinked(tries, x, s))
  {
    var i := TreeIndex(s);
    var t := tries[i];
    HoldsAddr(t, x, s);
    assert BinOk(mem, roots[i], Marked(m, i), t, i);
    UnlinkedBinOk(mem, roots[i], t, i, x);
    UnlinkedSeparate(t, x);
    var q := LeafBelow(NodeOf(t, x));
    var root := if roots[i] == x then Successor(mem, x, q) else roots[i];
    var m' := if root == 0 then Clear(m, i) else m;
    forall j | 0 <= j < NTREEBINS ensures Marked(m', j) <==> Marked(m, j) && (j == i ==> root != 0) {
      MarkSets(m, i, j);
    }
    hide Marked, Clear;
    OneBinChanged(mem, UnlinkAt(mem, x, q), roots, m, m', tries, i, root, Unlinked(t, x), {});
  }

  lemma UnlinkedStoresOne(mem: Mem, roots: seq<Addr>, m: Map, tries: seq<Trie>, x: Addr, s: nat, a: Addr, z: nat)
    requires BinsOk(mem, roots, m, tries) && Stores(tries, x, s)
    ensures Stores(WithUnlinked(tries, x, s), a, z) <==> Stores(tries, a, z) && a != x
  {
    var i, j := TreeIndex(s), TreeIndex(z);
    assert BinOk(mem, roots[i], Marked(m, i), tries[i], i);
    HoldsAddr(tries[i], x, s);
    UnlinkedHolds(tries[i], x, a, z);
    if j != i && Stores(tries, a, z) {
      HoldsAddr(tries[j], a, z);
      if i < j {
        assert Addrs(tries[i]) !! Addrs(tries[j]);
      } else {
        assert Addrs(tries[j]) !! Addrs(tries[i]);
      }
    }
  }

  lemma UnlinkedStores(mem: Mem, roots: seq<Addr>, m: Map, tries: seq<Trie>, x: Addr, s: nat)
    requires BinsOk(mem, roots, m, tries) && Stores(tries, x, s)
    ensures forall a: Addr, z: nat :: Stores(WithUnlinked(tries, x, s), a, z) <==> Stores(tries, a, z) && a != x
  {
    forall a: Addr, z: nat ensures Stores(WithUnlinked(tries, x, s), a, z) <==> Stores(tries, a, z) && a != x {
      UnlinkedStoresOne(mem, roots, m, tries, x, s, a, z);
    }
  }

  // ---------------------------------------------------------------- searching

  /** `v` is a chunk of least size that fits, `rsize` too large; null means that nothing fits. */
  ghost predicate BestFit(tries: seq<Trie>, nb: nat, v: Addr, rsize: nat)
  {
    (v == 0 ==> forall a: Addr, z: nat :: Stores(tries, a, z) ==> z < nb) &&
    (v != 0 ==> Stores(tries, v, nb + rsize) &&
                forall a: Addr, z: nat :: Stores(tries, a, z) && nb <= z ==> nb + rsize <= z)
  }

  ghost predicate Bounded(t: Trie)
  {
    forall a: Addr, s: nat :: Holds(t, a, s) ==> s < SIZE_RANGE
  }

  lemma BinIsBounded(t: Trie, i: nat)
    requires Fits(t, BinLow(i), BinBits(i)) && AllInBin(t, i)
    ensures Bounded(t)
  {
    forall a: Addr, s: nat | Holds(t, a, s) ensures s < SIZE_RANGE {
      HoldsIsInBin(t, i, a, s);
    }
  }

  lemma EmptyBin(mem: Mem, i: nat, all: Trie, nb: nat)
    requires nb < SIZE_RANGE && all.Empty?
    ensures Settled(mem, i, all, nb, 0, SIZE_RANGE, NOWHERE)
  {
  }

  lemma SearchStarts(mem: Mem, i: nat, all: Trie, nb: nat, p: Place)
    requires BinOk(mem, p.at, true, all, i) && i < NTREEBINS && nb < SIZE_RANGE && InBin(nb, i)
    requires p == Place(p.at, Link.Bin(i), all, BinLow(i), BinBits(i))
    ensures p.t.Node? && Searching(mem, i, all, nb, 0, SIZE_RANGE, FirstBits(nb, i), p, NOWHERE)
  {
    FirstBitsSteer(nb, i);
  }

  lemma SearchAt(mem: Mem, root: Addr, i: nat, all: Trie, nb: nat, v: Addr, bound: nat, k: nat, p: Place, rest: Place)
    requires BinOk(mem, root, true, all, i) && Searching(mem, i, all, nb, v, bound, k, p, rest)
    ensures p.at in mem && mem[p.at].size == p.t.size < SIZE_RANGE && nb < bound
    ensures p.t.size != nb ==> p.m > 0 && SearchNext(mem, i, all, nb, v, bound, k, p, rest)
  {
    RootSize(mem, i, all, p);
    HoldsIsInBin(all, i, p.at, p.t.size);
    if p.t.size != nb {
      SearchStep(mem, i, all, nb, v, bound, k, p, rest);
    }
  }

  /** Where the search stands after looking at the chunk at `p` and going on. */
  ghost predicate SearchNext(mem: Mem, i: nat, all: Trie, nb: nat, v: Addr, bound: nat, k: nat, p: Place, rest: Place)
    requires p.m > 0 && p.t.Node? && p.at in mem
  {
    var right := k / SIGN_BIT % 2 == 1;
    var v', bound' := if nb <= p.t.size < bound then p.at else v, Improved(bound, p.t.size, nb);
    var next, rest' := Half(mem, p, right), NextRest(p, mem, right, rest);
    rest'.at == (if mem[p.at].child1 != 0 && mem[p.at].child1 != next.at then mem[p.at].child1 else rest.at) &&
    (if next.at == 0 then Settled(mem, i, all, nb, v', bound', rest')
     else next.t.Node? && Searching(mem, i, all, nb, v', bound', NextBits(k), next, rest'))
  }

  lemma ExactFit(mem: Mem, i: nat, all: Trie, nb: nat, v: Addr, bound: nat, k: nat, p: Place, rest: Place)
    requires Searching(mem, i, all, nb, v, bound, k, p, rest) && p.t.size == nb < SIZE_RANGE
    ensures Settled(mem, i, all, nb, p.at, nb, p)
  {
    RootSize(mem, i, all, p);
  }

  lemma PlaceAt(mem: Mem, i: nat, all: Trie, nb: nat, v: Addr, bound: nat, p: Place)
    requires Settled(mem, i, all, nb, v, bound, p) && p.at != 0 && Bounded(all)
    ensures p.t.Node? && p.at in mem && mem[p.at].size == p.t.size < SIZE_RANGE
  {
    RootIsFirst(mem, i, p.at, p.up, p.t);
    RootSize(mem, i, all, p);
  }

  lemma WalkLeftEnds(mem: Mem, i: nat, all: Trie, nb: nat, v: Addr, bound: nat, p: Place)
    requires Settled(mem, i, all, nb, v, bound, p) && p.at == 0
    ensures BestSoFar(all, nb, v, bound)
    ensures forall a: Addr, z: nat :: Holds(all, a, z) && nb <= z ==> bound <= z
  {
    RootIsFirst(mem, i, p.at, p.up, p.t);
    SearchEnds(all, nb, bound);
  }

  /** Nothing in `t` fits. */
  ghost predicate TooSmall(t: Trie, nb: nat)
  {
    forall a: Addr, z: nat :: Holds(t, a, z) ==> z < nb
  }

  ghost predicate HasFit(t: Trie, nb: nat)
  {
    exists a: Addr, z: nat :: Holds(t, a, z) && nb <= z
  }

  ghost predicate NoneBelow(tries: seq<Trie>, nb: nat, home: nat)
  {
    forall j :: 0 <= j < home < |tries| ==> TooSmall(tries[j], nb)
  }

  lemma NoneInHome(mem: Mem, i: nat, all: Trie, nb: nat, p: Place)
    requires nb < SIZE_RANGE && Settled(mem, i, all, nb, 0, SIZE_RANGE, p) && p.at == 0 && Bounded(all)
    ensures TooSmall(all, nb)
  {
    WalkLeftEnds(mem, i, all, nb, 0, SIZE_RANGE, p);
  }

  lemma SomethingFits(mem: Mem, i: nat, all: Trie, nb: nat, v: Addr, bound: nat, p: Place)
    requires Settled(mem, i, all, nb, v, bound, p) && (p.at != 0 || v != 0) && nb < SIZE_RANGE && Bounded(all)
    ensures HasFit(all, nb)
  {
    if v != 0 {
      assert Holds(all, v, bound) && nb <= bound;
    } else {
      PlaceAt(mem, i, all, nb, v, bound, p);
      RootSize(mem, i, all, p);
      assert Holds(all, p.at, p.t.size) && nb <= p.t.size;
    }
  }

  lemma LowerBinsTooSmall(mem: Mem, roots: seq<Addr>, m: Map, tries: seq<Trie>, nb: nat)
    requires BinsOk(mem, roots, m, tries) && MIN_LARGE_SIZE <= nb < SIZE_RANGE && TreeIndex(nb) < NTREEBINS
    ensures NoneBelow(tries, nb, TreeIndex(nb))
  {
    forall j | 0 <= j < TreeIndex(nb) ensures TooSmall(tries[j], nb) {
      assert BinOk(mem, roots[j], Marked(m, j), tries[j], j);
      forall a: Addr, z: nat | Holds(tries[j], a, z) ensures z < nb {
        HoldsIsInBin(tries[j], j, a, z);
        if nb <= z {
          TreeIndexIsMonotone(nb, z);
        }
      }
    }
  }

  lemma EmptyBetween(mem: Mem, roots: seq<Addr>, m: Map, tries: seq<Trie>, nb: nat, idx: nat, home: nat)
    requires BinsOk(mem, roots, m, tries) && idx < home <= NTREEBINS && NoneBelow(tries, nb, idx) && TooSmall(tries[idx], nb)
    requires forall j :: idx < j < home ==> !Marked(m, j)
    ensures forall j :: 0 <= j < home ==> TooSmall(tries[j], nb)
  {
    forall j | 0 <= j < home ensures TooSmall(tries[j], nb) {
      if idx < j {
        assert BinOk(mem, roots[j], Marked(m, j), tries[j], j);
      }
    }
  }

  /** No bin after the first is marked: nothing fits anywhere. */
  lemma NoneAfter(mem: Mem, roots: seq<Addr>, m: Map, tries: seq<Trie>, nb: nat)
    requires BinsOk(mem, roots, m, tries) && MIN_LARGE_SIZE <= nb < SIZE_RANGE && TreeIndex(nb) < NTREEBINS
    requires TooSmall(tries[TreeIndex(nb)], nb) && MarkedAfter(m, TreeIndex(nb)) == 0
    ensures BestFit(tries, nb, 0, SIZE_RANGE - nb)
  {
    var idx := TreeIndex(nb);
    LowerBinsTooSmall(mem, roots, m, tries, nb);
    forall j | idx < j < NTREEBINS ensures !Marked(m, j) {
      MarkedAfterMeans(m, idx, j);
      EmptyMap(j);
    }
    hide Marked, MarkedAfter;
    EmptyBetween(mem, roots, m, tries, nb, idx, NTREEBINS);
    forall a: Addr, z: nat | Stores(tries, a, z) ensures z < nb {
      assert TooSmall(tries[TreeIndex(z)], nb);
    }
  }

  lemma NextMarked(m: Map, idx: nat)
    requires idx < NTREEBINS && MarkedAfter(m, idx) != 0
    ensures var i := FirstMarked(MarkedAfter(m, idx));
            idx < i < NTREEBINS && Marked(m, i) && forall j :: idx < j < i ==> !Marked(m, j)
  {
    var left := MarkedAfter(m, idx);
    FirstMarkedIsFirst(left);
    var i := FirstMarked(left);
    MarkedAfterMeans(m, idx, i);
    forall j | idx < j < i ensures !Marked(m, j) {
      MarkedAfterMeans(m, idx, j);
    }
  }

  /** The next marked bin is where the best fit is, and any of its chunks fits. */
  lemma NextBin(mem: Mem, roots: seq<Addr>, m: Map, tries: seq<Trie>, nb: nat)
    requires BinsOk(mem, roots, m, tries) && MIN_LARGE_SIZE <= nb < SIZE_RANGE && TreeIndex(nb) < NTREEBINS
    requires TooSmall(tries[TreeIndex(nb)], nb) && MarkedAfter(m, TreeIndex(nb)) != 0
    ensures var i := FirstMarked(MarkedAfter(m, TreeIndex(nb)));
            i < NTREEBINS && NoneBelow(tries, nb, i) && HasFit(tries[i], nb) && Bounded(tries[i]) &&
            Settled(mem, i, tries[i], nb, 0, SIZE_RANGE, Place(roots[i], Link.Bin(i), tries[i], BinLow(i), BinBits(i)))
  {
    var idx := TreeIndex(nb);
    var i := FirstMarked(MarkedAfter(m, idx));
    TreeIndexPlaces(nb);
    NextMarked(m, idx);
    LowerBinsTooSmall(mem, roots, m, tries, nb);
    hide Marked, MarkedAfter, FirstMarked, Settled, HasFit, TooSmall;
    EmptyBetween(mem, roots, m, tries, nb, idx, i);
    assert BinOk(mem, roots[i], Marked(m, i), tries[i], i);
    BinSettled(mem, roots[i], i, tries[i], nb, idx);
  }

  lemma BinSettled(mem: Mem, root: Addr, i: nat, all: Trie, nb: nat, idx: nat)
    requires BinOk(mem, root, true, all, i) && idx < i && InBin(nb, idx) && nb < SIZE_RANGE
    ensures HasFit(all, nb) && Bounded(all)
    ensures Settled(mem, i, all, nb, 0, SIZE_RANGE, Place(root, Link.Bin(i), all, BinLow(i), BinBits(i)))
  {
    MinSizeGrows(idx, i);
    BinIsBounded(all, i);
    forall a: Addr, z: nat | Holds(all, a, z) ensures nb <= z {
      HoldsIsInBin(all, i, a, z);
    }
    NodeHoldsRoot(all);
    var p := Place(root, Link.Bin(i), all, BinLow(i), BinBits(i));
    assert Holds(all, all.ring[0], all.size) && nb <= all.size;
  }

  /** The smallest fit of its bin is the smallest fit of all bins. */
  lemma BestOverall(mem: Mem, roots: seq<Addr>, m: Map, tries: seq<Trie>, nb: nat, home: nat, v: Addr, rsize: nat)
    requires BinsOk(mem, roots, m, tries) && home < NTREEBINS && NoneBelow(tries, nb, home) && HasFit(tries[home], nb)
    requires Bounded(tries[home]) && BestSoFar(tries[home], nb, v, nb + rsize)
    requires forall a: Addr, z: nat :: Holds(tries[home], a, z) && nb <= z ==> nb + rsize <= z
    ensures v != 0 && BestFit(tries, nb, v, rsize)
  {
    var all, bound := tries[home], nb + rsize;
    assert BinOk(mem, roots[home], Marked(m, home), all, home);
    hide Marked;
    var a0: Addr, z0: nat :| Holds(all, a0, z0) && nb <= z0;
    HoldsIsInBin(all, home, v, bound);
    forall a: Addr, z: nat | Stores(tries, a, z) && nb <= z ensures bound <= z {
      var j := TreeIndex(z);
      assert BinOk(mem, roots[j], Marked(m, j), tries[j], j);
      HoldsIsInBin(tries[j], j, a, z);
      if home < j {
        MinSizeGrows(home, j);
      }
    }
  }

  lemma SmallestStarts(mem: Mem, root: Addr, i: nat, all: Trie, nb: nat)
    requires BinOk(mem, root, true, all, i) && 0 < nb < MIN_LARGE_SIZE
    ensures root in mem && nb <= mem[root].size == all.size < SIZE_RANGE && root != 0
    ensures HasFit(all, nb) && Bounded(all)
    ensures Settled(mem, i, all, nb, 0, SIZE_RANGE, Place(root, Link.Bin(i), all, BinLow(i), BinBits(i)))
  {
    BinIsBounded(all, i);
    forall a: Addr, z: nat | Holds(all, a, z) ensures nb <= z {
      HoldsIsInBin(all, i, a, z);
    }
    var p := Place(root, Link.Bin(i), all, BinLow(i), BinBits(i));
    RootSize(mem, i, all, p);
    assert Holds(all, root, all.size);
  }

  lemma SmallestOverall(mem: Mem, roots: seq<Addr>, m: Map, tries: seq<Trie>, nb: nat, home: nat, v: Addr, rsize: nat)
    requires BinsOk(mem, roots, m, tries) && home < NTREEBINS && HasFit(tries[home], nb) && Bounded(tries[home])
    requires BestSoFar(tries[home], nb, v, nb + rsize)
    requires forall a: Addr, z: nat :: Holds(tries[home], a, z) && nb <= z ==> nb + rsize <= z
    requires forall j :: 0 <= j < home ==> !Marked(m, j)
    ensures v != 0 && BestFit(tries, nb, v, rsize)
  {
    forall j | 0 <= j < home ensures TooSmall(tries[j], nb) {
      assert BinOk(mem, roots[j], Marked(m, j), tries[j], j);
    }
    BestOverall(mem, roots, m, tries, nb, home, v, rsize);
  }
}
