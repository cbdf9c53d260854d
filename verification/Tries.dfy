/**
 The content of one tree bin: a bitwise trie of distinct sizes, each size with the ring
 of chunks that have it. A node covers an interval of sizes; its own size is anywhere in
 it, its children split it in halves.
 */
module Tries {
  import opened BinIndex

  /** Chunk addresses; 0 is the null pointer. */
  type Addr = nat

  /** The first chunk of the ring is the one in the tree; the others follow in `fd` order. */
  datatype Trie = Empty | Node(size: nat, ring: seq<Addr>, left: Trie, right: Trie)

  /** The trie holds chunk `a`, of size `s`. */
  ghost predicate Holds(t: Trie, a: Addr, s: nat)
  {
    match t
    case Empty => false
    case Node(size, ring, l, r) => (a in ring && s == size) || Holds(l, a, s) || Holds(r, a, s)
  }

  function Addrs(t: Trie): set<Addr>
  {
    match t
    case Empty => {}
    case Node(_, ring, l, r) => RingSet(ring) + Addrs(l) + Addrs(r)
  }

  function RingSet(ring: seq<Addr>): set<Addr> { set a | a in ring }

  function Sizes(t: Trie): set<nat>
  {
    match t
    case Empty => {}
    case Node(size, _, l, r) => {size} + Sizes(l) + Sizes(r)
  }

  /** The trie covers the sizes from `lo` up to `lo + 2^m`, each at most once. */
  ghost predicate Fits(t: Trie, lo: nat, m: nat)
  {
    match t
    case Empty => true
    case Node(size, ring, l, r) =>
      Within(size, lo, m) && size !in Sizes(l) && size !in Sizes(r) &&
      (if m == 0 then l.Empty? && r.Empty?
       else Fits(l, lo, m - 1) && Fits(r, lo + Pow2(m - 1), m - 1))
  }

  /** No chunk is in two places. */
  ghost predicate Separate(t: Trie)
  {
    match t
    case Empty => true
    case Node(_, ring, l, r) =>
      ring != [] && Distinct(ring) &&
      RingSet(ring) !! Addrs(l) && RingSet(ring) !! Addrs(r) && Addrs(l) !! Addrs(r) &&
      Separate(l) && Separate(r)
  }

  ghost predicate Aligned(t: Trie)
  {
    t.Node? ==> t.size % 8 == 0 && Aligned(t.left) && Aligned(t.right)
  }

  function Height(t: Trie): nat
  {
    match t
    case Empty => 0
    case Node(_, _, l, r) => 1 + if Height(l) < Height(r) then Height(r) else Height(l)
  }

  lemma {:induction false} HoldsWithin(t: Trie, lo: nat, m: nat, a: Addr, s: nat)
    requires Fits(t, lo, m) && Holds(t, a, s)
    ensures Within(s, lo, m) && a in Addrs(t) && s in Sizes(t)
  {
    if !(a in t.ring && s == t.size) {
      if Holds(t.left, a, s) {
        HoldsWithin(t.left, lo, m - 1, a, s);
      } else {
        HoldsWithin(t.right, lo + Pow2(m - 1), m - 1, a, s);
      }
    }
  }

  lemma {:induction false} SizesWithin(t: Trie, lo: nat, m: nat, s: nat)
    requires Fits(t, lo, m) && s in Sizes(t)
    ensures Within(s, lo, m)
  {
    if s != t.size {
      if s in Sizes(t.left) {
        SizesWithin(t.left, lo, m - 1, s);
      } else {
        SizesWithin(t.right, lo + Pow2(m - 1), m - 1, s);
      }
    }
  }

  /** Two chunks held at one address have one size. */
  lemma {:induction false} HoldsOnce(t: Trie, a: Addr, s: nat, s': nat)
    requires Separate(t) && Holds(t, a, s) && Holds(t, a, s')
    ensures s == s'
  {
    HoldsAddr(t.left, a, s);
    HoldsAddr(t.right, a, s);
    HoldsAddr(t.left, a, s');
    HoldsAddr(t.right, a, s');
    if Holds(t.left, a, s) && Holds(t.left, a, s') {
      HoldsOnce(t.left, a, s, s');
    }
    if Holds(t.right, a, s) && Holds(t.right, a, s') {
      HoldsOnce(t.right, a, s, s');
    }
  }

  lemma {:induction false} HoldsAddr(t: Trie, a: Addr, s: nat)
    ensures Holds(t, a, s) ==> a in Addrs(t)
  {
    if t.Node? {
      HoldsAddr(t.left, a, s);
      HoldsAddr(t.right, a, s);
    }
  }

  lemma {:induction false} AddrHolds(t: Trie, a: Addr) returns (s: nat)
    requires a in Addrs(t)
    ensures Holds(t, a, s)
  {
    if a in t.ring {
      s := t.size;
    } else if a in Addrs(t.left) {
      s := AddrHolds(t.left, a);
    } else {
      s := AddrHolds(t.right, a);
    }
  }

  /** Sizes are multiples of 8, so a walk down a bin takes at most as many steps as bits 3 and up can differ. */
  lemma {:induction false} HeightBound(t: Trie, lo: nat, m: nat)
    requires Fits(t, lo, m) && m >= 3 && lo % 8 == 0 && Aligned(t)
    ensures Height(t) <= m - 2
  {
    if t.Node? {
      if m == 3 {
        OneSizeLeft(t, lo);
      } else {
        hide Within, Sizes, Pow2;
        Pow2Eight(m - 1);
        HeightBound(t.left, lo, m - 1);
        HeightBound(t.right, lo + Pow2(m - 1), m - 1);
      }
    }
  }

  lemma {:induction false} Pow2Eight(m: nat)
    requires m >= 3
    ensures Pow2(m) % 8 == 0
  {
    if m == 3 {
      assert Pow2(3) == 8;
    } else {
      Pow2Eight(m - 1);
    }
  }

  lemma OneSizeLeft(t: Trie, lo: nat)
    requires t.Node? && Fits(t, lo, 3) && lo % 8 == 0 && Aligned(t)
    ensures Height(t) == 1
  {
    hide Fits, Pow2, Sizes;
    FitsEight(t, lo);
    SameMultiple(t.size, lo);
    NoOtherSize(t.left, lo, t.size);
    NoOtherSize(t.right, lo + 4, t.size);
  }

  lemma FitsEight(t: Trie, lo: nat)
    requires t.Node? && Fits(t, lo, 3)
    ensures lo <= t.size < lo + 8 && Fits(t.left, lo, 2) && Fits(t.right, lo + 4, 2) && t.size !in Sizes(t.left) && t.size !in Sizes(t.right)
  {
    assert Pow2(2) == 4 && Pow2(3) == 8;
  }

  /** Within four consecutive sizes there is at most one multiple of eight. */
  lemma NoOtherSize(t: Trie, lo: nat, s: nat)
    requires Fits(t, lo, 2) && Aligned(t) && s % 8 == 0 && s <= lo && lo + 4 <= s + 8 && s !in Sizes(t)
    ensures t.Empty?
  {
    assert Pow2(2) == 4;
    SizeOfNode(t);
    if t.Node? {
      SameMultiple(t.size, s);
    }
  }

  lemma SameMultiple(s: nat, lo: nat)
    requires s % 8 == 0 && lo % 8 == 0 && lo <= s < lo + 8
    ensures s == lo
  {
  }

  lemma SizeOfNode(t: Trie)
    ensures t.Node? ==> t.size in Sizes(t)
  {
  }

  // ---------------------------------------------------------------- inserting

  predicate GoesRight(s: nat, lo: nat, m: nat) { m > 0 && s >= lo + Pow2(m - 1) }

  function HalfLow(right: bool, lo: nat, m: nat): nat
    requires m > 0
  {
    if right then lo + Pow2(m - 1) else lo
  }

  function Inserted(t: Trie, x: Addr, s: nat, lo: nat, m: nat): Trie
  {
    match t
    case Empty => Node(s, [x], Empty, Empty)
    case Node(size, ring, l, r) =>
      if size == s then Node(size, RingWith(ring, x), l, r)
      else if m == 0 then t
      else if GoesRight(s, lo, m) then Node(size, ring, l, Inserted(r, x, s, lo + Pow2(m - 1), m - 1))
      else Node(size, ring, Inserted(l, x, s, lo, m - 1), r)
  }

  /** A newcomer goes right behind the chunk in the tree. */
  function RingWith(ring: seq<Addr>, x: Addr): seq<Addr>
  {
    if ring == [] then [x] else [ring[0], x] + ring[1..]
  }

  lemma RingWithAdds(ring: seq<Addr>, x: Addr)
    ensures RingSet(RingWith(ring, x)) == RingSet(ring) + {x}
  {
    var ring' := RingWith(ring, x);
    if ring != [] {
      assert ring' == [ring[0], x] + ring[1..];
      assert ring == [ring[0]] + ring[1..];
    }
  }

  lemma {:induction false} InsertedAddrs(t: Trie, x: Addr, s: nat, lo: nat, m: nat)
    requires Fits(t, lo, m) && Within(s, lo, m)
    ensures Addrs(Inserted(t, x, s, lo, m)) == Addrs(t) + {x}
    ensures Sizes(Inserted(t, x, s, lo, m)) == Sizes(t) + {s}
  {
    if t.Node? {
      RingWithAdds(t.ring, x);
      if t.size != s && m > 0 {
        if GoesRight(s, lo, m) {
          InsertedAddrs(t.right, x, s, lo + Pow2(m - 1), m - 1);
        } else {
          InsertedAddrs(t.left, x, s, lo, m - 1);
        }
      }
    }
  }

  /** Inserting keeps the trie and adds exactly the one chunk. */
  lemma {:induction false} InsertedFits(t: Trie, x: Addr, s: nat, lo: nat, m: nat)
    requires Fits(t, lo, m) && Within(s, lo, m)
    ensures Fits(Inserted(t, x, s, lo, m), lo, m)
  {
    if t.Node? && t.size != s && m > 0 {
      if GoesRight(s, lo, m) {
        InsertedFits(t.right, x, s, lo + Pow2(m - 1), m - 1);
        InsertedAddrs(t.right, x, s, lo + Pow2(m - 1), m - 1);
      } else {
        InsertedFits(t.left, x, s, lo, m - 1);
        InsertedAddrs(t.left, x, s, lo, m - 1);
      }
    }
  }

  lemma RingWithDistinct(ring: seq<Addr>, x: Addr)
    requires Distinct(ring) && x !in ring
    ensures Distinct(RingWith(ring, x))
  {
  }

  /** A child may change as long as what it holds comes from itself or from outside. */
  lemma SeparateChild(t: Trie, right: bool, c: Trie, more: set<Addr>)
    requires t.Node? && Separate(t) && Separate(c) && more !! Addrs(t)
    requires Addrs(c) <= Addrs(if right then t.right else t.left) + more
    ensures Separate(if right then t.(right := c) else t.(left := c))
  {
  }

  lemma SeparateRing(t: Trie, x: Addr)
    requires t.Node? && Separate(t) && x !in Addrs(t)
    ensures Separate(Node(t.size, RingWith(t.ring, x), t.left, t.right))
  {
    RingWithAdds(t.ring, x);
    RingWithDistinct(t.ring, x);
  }

  lemma {:induction false} InsertedSeparate(t: Trie, x: Addr, s: nat, lo: nat, m: nat)
    requires Separate(t) && x !in Addrs(t) && Fits(t, lo, m) && Within(s, lo, m)
    ensures Separate(Inserted(t, x, s, lo, m))
  {
    if t.Empty? {
    } else if t.size == s {
      SeparateRing(t, x);
    } else if m > 0 {
      var right := GoesRight(s, lo, m);
      var c := if right then t.right else t.left;
      var c' := Inserted(c, x, s, HalfLow(right, lo, m), m - 1);
      InsertedSeparate(c, x, s, HalfLow(right, lo, m), m - 1);
      InsertedAddrs(c, x, s, HalfLow(right, lo, m), m - 1);
      SeparateChild(t, right, c', {x});
    }
  }

  lemma {:induction false} InsertedHolds(t: Trie, x: Addr, s: nat, lo: nat, m: nat, a: Addr, z: nat)
    requires Fits(t, lo, m) && Within(s, lo, m)
    ensures Holds(Inserted(t, x, s, lo, m), a, z) <==> Holds(t, a, z) || (a == x && z == s)
  {
    if t.Node? {
      RingWithAdds(t.ring, x);
      assert a in RingWith(t.ring, x) <==> a in RingSet(RingWith(t.ring, x));
      assert a in t.ring <==> a in RingSet(t.ring);
      if t.size != s && m > 0 {
        if GoesRight(s, lo, m) {
          InsertedHolds(t.right, x, s, lo + Pow2(m - 1), m - 1, a, z);
        } else {
          InsertedHolds(t.left, x, s, lo, m - 1, a, z);
        }
      }
    }
  }

  // ---------------------------------------------------------------- unlinking

  /** A ring without one of its chunks; if it was the one in the tree, its `bk` takes over. */
  function RingWithout(ring: seq<Addr>, x: Addr): seq<Addr>
  {
    if |ring| < 2 then []
    else if ring[0] == x then [ring[|ring| - 1]] + ring[1..|ring| - 1]
    else [ring[0]] + Except(ring[1..], x)
  }

  function Except(s: seq<Addr>, x: Addr): seq<Addr>
  {
    if s == [] then [] else if s[0] == x then s[1..] else [s[0]] + Except(s[1..], x)
  }

  /** A trie with its rightmost leaf taken out. */
  datatype Taken = Taken(size: nat, ring: seq<Addr>, rest: Trie)

  function TakeLeaf(t: Trie): Taken
    requires t.Node?
  {
    if t.right.Node? then
      var k := TakeLeaf(t.right);
      k.(rest := t.(right := k.rest))
    else if t.left.Node? then
      var k := TakeLeaf(t.left);
      k.(rest := t.(left := k.rest))
    else Taken(t.size, t.ring, Empty)
  }

  /** What replaces a node whose last chunk goes: the rightmost leaf below it. */
  function Collapsed(l: Trie, r: Trie): Trie
  {
    if r.Node? then
      var k := TakeLeaf(r);
      Node(k.size, k.ring, l, k.rest)
    else if l.Node? then
      var k := TakeLeaf(l);
      Node(k.size, k.ring, k.rest, r)
    else Empty
  }

  function Unlinked(t: Trie, x: Addr): Trie
  {
    match t
    case Empty => Empty
    case Node(size, ring, l, r) =>
      if x in ring then
        if |ring| > 1 then Node(size, RingWithout(ring, x), l, r) else Collapsed(l, r)
      else if x in Addrs(l) then Node(size, ring, Unlinked(l, x), r)
      else Node(size, ring, l, Unlinked(r, x))
  }

  lemma {:induction false} ExceptRemoves(s: seq<Addr>, x: Addr)
    requires x in s && Distinct(s)
    ensures RingSet(Except(s, x)) == RingSet(s) - {x}
    ensures Distinct(Except(s, x))
    ensures |Except(s, x)| == |s| - 1
  {
    assert s == [s[0]] + s[1..];
    if s[0] == x {
      assert RingSet(s) == {x} + RingSet(s[1..]);
    } else {
      ExceptRemoves(s[1..], x);
      assert RingSet(s) == {s[0]} + RingSet(s[1..]);
      var e := Except(s[1..], x);
      assert RingSet([s[0]] + e) == {s[0]} + RingSet(e);
      assert forall k :: 0 <= k < |e| ==> e[k] in RingSet(e);
    }
  }

  ghost predicate Distinct(ring: seq<Addr>)
  {
    forall j, k :: 0 <= j < k < |ring| ==> ring[j] != ring[k]
  }

  lemma RingSetAppend(r: seq<Addr>, r': seq<Addr>)
    ensures RingSet(r + r') == RingSet(r) + RingSet(r')
  {
  }

  lemma HeadRemoved(ring: seq<Addr>)
    requires |ring| > 1 && Distinct(ring)
    ensures var ring' := [ring[|ring| - 1]] + ring[1..|ring| - 1];
            RingSet(ring') == RingSet(ring) - {ring[0]} && Distinct(ring')
  {
    var n := |ring|;
    var mid := ring[1..n - 1];
    RingSetAppend([ring[n - 1]], mid);
    RingSetAppend([ring[0]] + mid, [ring[n - 1]]);
    RingSetAppend([ring[0]], mid);
    assert ring == [ring[0]] + mid + [ring[n - 1]];
  }

  lemma RingWithoutRemoves(ring: seq<Addr>, x: Addr)
    requires |ring| > 1 && x in ring && Distinct(ring)
    ensures RingSet(RingWithout(ring, x)) == RingSet(ring) - {x} && RingWithout(ring, x) != []
    ensures Distinct(RingWithout(ring, x))
  {
    if ring[0] == x {
      HeadRemoved(ring);
    } else {
      assert ring == [ring[0]] + ring[1..];
      ExceptRemoves(ring[1..], x);
      HeadStays(ring[0], ring[1..], Except(ring[1..], x), x);
    }
  }

  lemma HeadStays(h: Addr, r: seq<Addr>, r': seq<Addr>, x: Addr)
    requires h != x && h !in r && Distinct(r') && RingSet(r') == RingSet(r) - {x}
    ensures RingSet([h] + r') == RingSet([h] + r) - {x} && Distinct([h] + r')
  {
    RingSetAppend([h], r);
    RingSetAppend([h], r');
    forall k | 0 <= k < |r'| ensures r'[k] != h {
      assert r'[k] in RingSet(r');
    }
  }

  lemma {:induction false} TakeLeafFits(t: Trie, lo: nat, m: nat)
    requires t.Node? && Fits(t, lo, m)
    ensures var k := TakeLeaf(t);
            Fits(k.rest, lo, m) && Within(k.size, lo, m) && k.size !in Sizes(k.rest) &&
            Sizes(t) == Sizes(k.rest) + {k.size}
  {
    if t.right.Node? {
      TakeLeafFits(t.right, lo + Pow2(m - 1), m - 1);
      NotInLowerHalf(t.left, lo, m, TakeLeaf(t.right).size);
    } else if t.left.Node? {
      TakeLeafFits(t.left, lo, m - 1);
    }
  }

  lemma NotInLowerHalf(l: Trie, lo: nat, m: nat, s: nat)
    requires m > 0 && Fits(l, lo, m - 1) && s >= lo + Pow2(m - 1)
    ensures s !in Sizes(l)
  {
    if s in Sizes(l) {
      SizesWithin(l, lo, m - 1, s);
    }
  }

  lemma {:induction false} TakeLeafSeparate(t: Trie)
    requires t.Node? && Separate(t)
    ensures var k := TakeLeaf(t);
            Separate(k.rest) && k.ring != [] && Distinct(k.ring) &&
            RingSet(k.ring) !! Addrs(k.rest) && Addrs(t) == RingSet(k.ring) + Addrs(k.rest)
  {
    if t.right.Node? {
      TakeLeafSeparate(t.right);
    } else if t.left.Node? {
      TakeLeafSeparate(t.left);
    }
  }

  lemma {:induction false} TakeLeafHolds(t: Trie, a: Addr, z: nat)
    requires t.Node?
    ensures var k := TakeLeaf(t); Holds(t, a, z) <==> Holds(k.rest, a, z) || (a in k.ring && z == k.size)
  {
    if t.right.Node? {
      TakeLeafHolds(t.right, a, z);
    } else if t.left.Node? {
      TakeLeafHolds(t.left, a, z);
    }
  }

  lemma CollapsedFits(l: Trie, r: Trie, lo: nat, m: nat)
    requires m > 0 && Fits(l, lo, m - 1) && Fits(r, lo + Pow2(m - 1), m - 1)
    ensures Fits(Collapsed(l, r), lo, m) && Sizes(Collapsed(l, r)) == Sizes(l) + Sizes(r)
  {
    if r.Node? {
      TakeLeafFits(r, lo + Pow2(m - 1), m - 1);
      NotInLowerHalf(l, lo, m, TakeLeaf(r).size);
    } else if l.Node? {
      TakeLeafFits(l, lo, m - 1);
    }
  }

  lemma CollapsedSeparate(l: Trie, r: Trie)
    requires Separate(l) && Separate(r) && Addrs(l) !! Addrs(r)
    ensures Separate(Collapsed(l, r)) && Addrs(Collapsed(l, r)) == Addrs(l) + Addrs(r)
  {
    if r.Node? {
      TakeLeafSeparate(r);
    } else if l.Node? {
      TakeLeafSeparate(l);
    }
  }

  /** Unlinking keeps the trie, and no new size appears. */
  lemma {:induction false} UnlinkedFits(t: Trie, x: Addr, lo: nat, m: nat)
    requires Fits(t, lo, m)
    ensures Fits(Unlinked(t, x), lo, m) && Sizes(Unlinked(t, x)) <= Sizes(t)
  {
    if t.Node? {
      if x in t.ring {
        if |t.ring| <= 1 && m > 0 {
          CollapsedFits(t.left, t.right, lo, m);
        }
      } else if m > 0 {
        if x in Addrs(t.left) {
          UnlinkedFits(t.left, x, lo, m - 1);
        } else {
          UnlinkedFits(t.right, x, lo + Pow2(m - 1), m - 1);
        }
      }
    }
  }

  lemma {:induction false} UnlinkedSeparate(t: Trie, x: Addr)
    requires Separate(t) && x in Addrs(t)
    ensures Separate(Unlinked(t, x)) && Addrs(Unlinked(t, x)) == Addrs(t) - {x}
  {
    if x in t.ring {
      if |t.ring| > 1 {
        RingWithoutRemoves(t.ring, x);
      } else {
        assert t.ring == [x];
        CollapsedSeparate(t.left, t.right);
      }
    } else if x in Addrs(t.left) {
      UnlinkedSeparate(t.left, x);
    } else {
      UnlinkedSeparate(t.right, x);
    }
  }

  /** Unlinking removes exactly the one chunk. */
  lemma {:induction false} UnlinkedHolds(t: Trie, x: Addr, a: Addr, z: nat)
    requires Separate(t) && x in Addrs(t)
    ensures Holds(Unlinked(t, x), a, z) <==> Holds(t, a, z) && a != x
  {
    HoldsAddr(t.left, a, z);
    HoldsAddr(t.right, a, z);
    if x in t.ring {
      assert a in t.ring <==> a in RingSet(t.ring);
      if |t.ring| > 1 {
        RingWithoutRemoves(t.ring, x);
        assert a in RingWithout(t.ring, x) <==> a in RingSet(RingWithout(t.ring, x));
      } else {
        assert t.ring == [x];
        if t.right.Node? {
          TakeLeafHolds(t.right, a, z);
        } else if t.left.Node? {
          TakeLeafHolds(t.left, a, z);
        }
      }
    } else if x in Addrs(t.left) {
      UnlinkedHolds(t.left, x, a, z);
    } else {
      UnlinkedHolds(t.right, x, a, z);
    }
  }
}
