/**
 The 32-bit maps of non-empty bins in the kernel allocator, with their bit tricks.
 */
module BinMap {

  type Map = bv32

  const NBINS: nat := 32

  function IdxToBit(i: nat): Map
    requires i < NBINS
  {
    if i == 0 then 1 else IdxToBit(i - 1) << 1
  }

  predicate Marked(m: Map, i: nat)
    requires i < NBINS
  {
    Meets(m, IdxToBit(i))
  }

  predicate Meets(m: Map, b: Map) { m & b != 0 }

  function Mark(m: Map, i: nat): Map
    requires i < NBINS
  {
    Union(m, IdxToBit(i))
  }

  function Clear(m: Map, i: nat): Map
    requires i < NBINS
  {
    Minus(m, IdxToBit(i))
  }

  function Union(m: Map, b: Map): Map { m | b }
  function Minus(m: Map, b: Map): Map { m & !b }
  function Common(m: Map, b: Map): Map { m & b }

  function LeastBit(m: Map): Map { m & -m }

  /** All bits to the left of the least bit of `m`. */
  function LeftBits(m: Map): Map { (m << 1) | -(m << 1) }

  /** The number of zero bits below the least bit that is set (`__builtin_ctz`). */
  function BitToIdx(m: Map, from: nat): nat
    requires from < NBINS
    decreases NBINS - from
  {
    if from == NBINS - 1 || Marked(m, from) then from else BitToIdx(m, from + 1)
  }

  /** The first marked bin, as `tmalloc_small` finds it. */
  function FirstMarked(m: Map): nat
  {
    BitToIdx(LeastBit(m), 0)
  }

  /** The marked bins after `i`, as `tmalloc_large` masks them. */
  function MarkedAfter(m: Map, i: nat): Map
    requires i < NBINS
  {
    Common(LeftBits(IdxToBit(i)), m)
  }

  // ---------------------------------------------------------------- single bits

  predicate Single(b: Map) { b != 0 && b & (b - 1) == 0 }

  predicate Below(b: Map, c: Map) { b < c }

  lemma SingleDoubles(b: Map)
    requires Single(b) && b << 1 != 0
    ensures Single(b << 1) && Below(b, b << 1)
  {
  }

  lemma SingleBelow(b: Map, c: Map, d: Map)
    requires Single(b) && Single(c) && Single(d) && c == d << 1 && !Below(c, b) && b != c
    ensures !Below(d, b)
  {
  }

  lemma SinglesApart(a: Map, c: Map)
    requires a != 0 && a & (a - 1) == 0 && c != 0 && c & (c - 1) == 0 && a != c
    ensures a & c == 0
  {
  }

  lemma UnionMeets(m: Map, a: Map, c: Map)
    requires a == c || a & c == 0
    requires c != 0
    ensures (m | a) & c != 0 <==> m & c != 0 || a == c
  {
  }

  lemma MinusMeets(m: Map, a: Map, c: Map)
    requires a == c || a & c == 0
    requires c != 0
    ensures (m & !a) & c != 0 <==> m & c != 0 && a != c
  {
  }

  lemma SingleMark(m: Map, a: Map, c: Map)
    requires Single(a) && Single(c)
    ensures Meets(Union(m, a), c) <==> Meets(m, c) || a == c
    ensures Meets(Minus(m, a), c) <==> Meets(m, c) && a != c
  {
    if a != c {
      SinglesApart(a, c);
    }
    UnionMeets(m, a, c);
    MinusMeets(m, a, c);
  }

  lemma LeftMeets(b: Map, c: Map)
    requires Single(b) && Single(c)
    ensures Meets(LeftBits(b), c) <==> Below(b, c)
  {
  }

  lemma AllOrNothing(m: Map, c: Map)
    requires Single(c)
    ensures m & c == 0 || m & c == c
  {
  }

  lemma AndAssociates(l: Map, m: Map, c: Map)
    ensures (l & m) & c == l & (m & c) && l & 0 == 0
  {
  }

  lemma CommonMeets(l: Map, m: Map, c: Map)
    requires Single(c)
    ensures Meets(Common(l, m), c) <==> Meets(l, c) && Meets(m, c)
  {
    AllOrNothing(m, c);
    AndAssociates(l, m, c);
    hide Single;
  }

  lemma SingleLeft(m: Map, b: Map, c: Map)
    requires Single(b) && Single(c)
    ensures Meets(Common(LeftBits(b), m), c) <==> Below(b, c) && Meets(m, c)
  {
    hide Single, Below, Meets, Common, LeftBits;
    LeftMeets(b, c);
    CommonMeets(LeftBits(b), m, c);
  }

  lemma LeastIsSingle(m: Map)
    requires m != 0
    ensures Single(LeastBit(m)) && Meets(m, LeastBit(m))
  {
  }

  lemma LeastIsLeast(m: Map, c: Map)
    requires Single(c) && Meets(m, c)
    ensures !Below(c, LeastBit(m))
  {
  }

  lemma SingleMeet(b: Map, c: Map)
    requires Single(b) && Single(c)
    ensures Meets(b, c) <==> b == c
  {
  }

  lemma LastBit()
    ensures IdxToBit(31) == 0x8000_0000
  {
    hide IdxToBit;
    BitStep(1); BitStep(2); BitStep(3); BitStep(4); BitStep(5); BitStep(6); BitStep(7); BitStep(8);
    BitStep(9); BitStep(10); BitStep(11); BitStep(12); BitStep(13); BitStep(14); BitStep(15); BitStep(16);
    BitStep(17); BitStep(18); BitStep(19); BitStep(20); BitStep(21); BitStep(22); BitStep(23); BitStep(24);
    BitStep(25); BitStep(26); BitStep(27); BitStep(28); BitStep(29); BitStep(30); BitStep(31);
  }

  lemma BitStep(i: nat)
    requires 0 < i < NBINS
    ensures IdxToBit(0) == 1 && IdxToBit(i) == IdxToBit(i - 1) << 1
  {
  }

  lemma ZeroStays(b: Map)
    requires b == 0
    ensures b << 1 == 0
  {
  }

  lemma {:induction false} BitIsNonZero(i: nat)
    requires i < NBINS
    ensures IdxToBit(i) != 0
    decreases NBINS - i
  {
    if i == NBINS - 1 {
      LastBit();
    } else {
      hide IdxToBit;
      BitIsNonZero(i + 1);
      BitStep(i + 1);
      if IdxToBit(i) == 0 {
        ZeroStays(IdxToBit(i));
      }
    }
  }

  lemma {:induction false} BitIsSingle(i: nat)
    requires i < NBINS
    ensures Single(IdxToBit(i))
  {
    if i > 0 {
      BitIsSingle(i - 1);
      BitIsNonZero(i);
      BitStep(i);
      hide IdxToBit, Single;
      SingleDoubles(IdxToBit(i - 1));
    } else {
      assert IdxToBit(0) == 1;
    }
  }

  lemma BelowIsTransitive(a: Map, b: Map, c: Map)
    requires Below(a, b) && Below(b, c)
    ensures Below(a, c)
  {
  }

  lemma {:induction false} BitsAreOrdered(i: nat, j: nat)
    requires i < j < NBINS
    ensures Below(IdxToBit(i), IdxToBit(j))
  {
    BitIsSingle(j - 1);
    BitIsNonZero(j);
    BitStep(j);
    hide IdxToBit, Single, Below;
    SingleDoubles(IdxToBit(j - 1));
    if i < j - 1 {
      BitsAreOrdered(i, j - 1);
      BelowIsTransitive(IdxToBit(i), IdxToBit(j - 1), IdxToBit(j));
    }
  }

  lemma OneIsLeast(b: Map)
    requires Single(b) && !Below(1, b)
    ensures b == 1
  {
  }

  lemma {:induction false} SingleIsABit(b: Map, k: nat) returns (i: nat)
    requires k < NBINS && Single(b) && !Below(IdxToBit(k), b)
    ensures i <= k && IdxToBit(i) == b
  {
    i := k;
    if k == 0 {
      OneIsLeast(b);
    } else if b != IdxToBit(k) {
      BitIsSingle(k);
      BitIsSingle(k - 1);
      BitStep(k);
      hide IdxToBit, Single, Below;
      SingleBelow(b, IdxToBit(k), IdxToBit(k - 1));
      i := SingleIsABit(b, k - 1);
    }
  }

  lemma SingleIsAtMostLast(b: Map)
    requires Single(b)
    ensures !Below(0x8000_0000, b)
  {
  }

  /** The least bit of a map with a marked bin is the bit of some bin. */
  lemma LeastIsABit(m: Map) returns (i: nat)
    requires m != 0
    ensures i < NBINS && IdxToBit(i) == LeastBit(m)
  {
    LeastIsSingle(m);
    LastBit();
    SingleIsAtMostLast(LeastBit(m));
    hide IdxToBit, Single, Below, LeastBit;
    i := SingleIsABit(LeastBit(m), 31);
  }

  // ---------------------------------------------------------------- what the operations mean

  lemma BitsDiffer(i: nat, j: nat)
    requires i < NBINS && j < NBINS
    ensures i == j <==> IdxToBit(i) == IdxToBit(j)
    ensures i < j <==> Below(IdxToBit(i), IdxToBit(j))
  {
    BelowIsStrict(IdxToBit(i), IdxToBit(j));
    hide IdxToBit, Below;
    if i < j {
      BitsAreOrdered(i, j);
    } else if j < i {
      BitsAreOrdered(j, i);
    }
  }

  lemma BelowIsStrict(a: Map, b: Map)
    ensures !(Below(a, b) && Below(b, a)) && !Below(a, a) && !Below(b, b)
  {
  }

  lemma MarkSets(m: Map, i: nat, j: nat)
    requires i < NBINS && j < NBINS
    ensures Marked(Mark(m, i), j) <==> Marked(m, j) || i == j
    ensures Marked(Clear(m, i), j) <==> Marked(m, j) && i != j
  {
    BitIsSingle(i);
    BitIsSingle(j);
    BitsDiffer(i, j);
    hide IdxToBit, Single, Below, Meets, Union, Minus;
    SingleMark(m, IdxToBit(i), IdxToBit(j));
  }

  lemma MarkedAfterMeans(m: Map, i: nat, j: nat)
    requires i < NBINS && j < NBINS
    ensures Marked(MarkedAfter(m, i), j) <==> i < j && Marked(m, j)
  {
    BitIsSingle(i);
    BitIsSingle(j);
    BitsDiffer(i, j);
    hide IdxToBit, Single, LeftBits, Below, Meets, Common;
    SingleLeft(m, IdxToBit(i), IdxToBit(j));
  }

  lemma {:induction false} BitToIdxFinds(i: nat, from: nat)
    requires from <= i < NBINS
    ensures BitToIdx(IdxToBit(i), from) == i
    decreases i - from
  {
    BitIsSingle(i);
    BitIsSingle(from);
    BitsDiffer(i, from);
    hide IdxToBit, Single, Below, Meets;
    SingleMeet(IdxToBit(i), IdxToBit(from));
    if from < i {
      BitToIdxFinds(i, from + 1);
    }
  }

  lemma NoneBefore(m: Map, i: nat, j: nat)
    requires j < i < NBINS && IdxToBit(i) == LeastBit(m)
    ensures !Marked(m, j)
  {
    BitsAreOrdered(j, i);
    BitIsSingle(j);
    hide IdxToBit, Single, LeastBit, Below, Meets;
    if Marked(m, j) {
      LeastIsLeast(m, IdxToBit(j));
    }
  }

  /** The first marked bin of a non-empty map is marked and none before it is. */
  lemma FirstMarkedIsFirst(m: Map)
    requires m != 0
    ensures FirstMarked(m) < NBINS && Marked(m, FirstMarked(m))
    ensures forall j :: 0 <= j < FirstMarked(m) ==> !Marked(m, j)
  {
    var i := LeastIsABit(m);
    LeastIsSingle(m);
    hide IdxToBit, Single, LeastBit, Below, Meets;
    BitToIdxFinds(i, 0);
    forall j | 0 <= j < i ensures !Marked(m, j) {
      NoneBefore(m, i, j);
    }
  }

  /** An empty map has no marked bin. */
  lemma EmptyMap(j: nat)
    requires j < NBINS
    ensures !Marked(0, j)
  {
    ZeroMeets(IdxToBit(j));
    hide IdxToBit, Meets;
  }

  lemma ZeroMeets(b: Map)
    ensures !Meets(0, b)
  {
  }

  // ---------------------------------------------------------------- shifted maps

  function ShiftDown(m: Map, i: nat): Map
  {
    if i == 0 then m else ShiftDown(m, i - 1) >> 1
  }

  function ShiftUp(m: Map, i: nat): Map
  {
    if i == 0 then m else ShiftUp(m, i - 1) << 1
  }

  lemma DownMeets(x: Map, b: Map)
    ensures Meets(x >> 1, b) <==> Meets(x, b << 1)
  {
  }

  lemma UpMeets(x: Map, b: Map)
    ensures Meets(x << 1, b << 1) <==> Meets(x, b) && b << 1 != 0
    requires Single(b)
  {
  }

  lemma UpMeetsOne(x: Map)
    ensures !Meets(x << 1, 1)
  {
  }

  lemma LastBitLeaves()
    ensures IdxToBit(31) << 1 == 0
  {
    LastBit();
  }

  /** The bits one place up, and one place down. */
  function Up(b: Map): Map { b << 1 }
  function Down(x: Map): Map { x >> 1 }

  lemma DownMeetsUp(x: Map, b: Map)
    ensures Meets(Down(x), b) <==> Meets(x, Up(b))
  {
    DownMeets(x, b);
  }

  lemma UpOfInner(j: nat)
    requires j + 1 < NBINS
    ensures Up(IdxToBit(j)) == IdxToBit(j + 1)
  {
    BitStep(j + 1);
  }

  lemma UpOfLast()
    ensures Up(IdxToBit(31)) == 0
  {
    LastBitLeaves();
  }

  lemma UpOfBit(j: nat)
    requires j < NBINS
    ensures Up(IdxToBit(j)) == if j + 1 < NBINS then IdxToBit(j + 1) else 0
  {
    hide IdxToBit, Up;
    if j + 1 < NBINS {
      UpOfInner(j);
    } else {
      UpOfLast();
    }
  }

  lemma DownStep(x: Map, j: nat)
    requires j < NBINS
    ensures Marked(Down(x), j) <==> j + 1 < NBINS && Marked(x, j + 1)
  {
    hide Meets, IdxToBit, Up, Down;
    DownMeetsUp(x, IdxToBit(j));
    UpOfBit(j);
    NothingMeets(x);
  }

  lemma {:induction false} ShiftDownMarks(m: Map, i: nat, j: nat)
    requires j < NBINS
    ensures Marked(ShiftDown(m, i), j) <==> i + j < NBINS && Marked(m, i + j)
    decreases i
  {
    hide Marked;
    if i > 0 {
      DownStep(ShiftDown(m, i - 1), j);
      if j + 1 < NBINS {
        ShiftDownMarks(m, i - 1, j + 1);
      }
    }
  }

  lemma NothingMeets(x: Map)
    ensures !Meets(x, 0)
  {
  }

  lemma UpStep(x: Map, j: nat)
    requires j < NBINS
    ensures Marked(x << 1, j) <==> j > 0 && Marked(x, j - 1)
  {
    hide Meets, IdxToBit, Single;
    BitIsNonZero(j);
    if j == 0 {
      BitStep(1);
      UpMeetsOne(x);
    } else {
      BitStep(j);
      BitIsSingle(j - 1);
      UpMeets(x, IdxToBit(j - 1));
    }
  }

  lemma {:induction false} ShiftUpMarks(m: Map, i: nat, j: nat)
    requires j < NBINS
    ensures Marked(ShiftUp(m, i), j) <==> i <= j && Marked(m, j - i)
    decreases i
  {
    hide Marked;
    if i > 0 {
      UpStep(ShiftUp(m, i - 1), j);
      if j > 0 {
        ShiftUpMarks(m, i - 1, j - 1);
      }
    }
  }

  lemma LowTwo(x: Map)
    ensures Meets(x, 3) <==> Meets(x, 1) || Meets(x, 2)
  {
  }

  lemma LowBits()
    ensures IdxToBit(0) == 1 && IdxToBit(1) == 2
  {
  }

  /** The test `smallbits & 3` of `dlmalloc` asks about the bins `i` and `i + 1`. */
  lemma ThisOrNext(m: Map, i: nat)
    requires i < NBINS
    ensures Meets(ShiftDown(m, i), 1) <==> Marked(m, i)
    ensures Meets(ShiftDown(m, i), 3) <==> Marked(m, i) || (i + 1 < NBINS && Marked(m, i + 1))
  {
    hide Meets;
    LowTwo(ShiftDown(m, i));
    LowBits();
    ShiftDownMarks(m, i, 0);
    ShiftDownMarks(m, i, 1);
  }

  /** `smallbits` is zero when no bin from `i` on is marked. */
  lemma NoneFrom(m: Map, i: nat, j: nat)
    requires i <= j < NBINS && ShiftDown(m, i) == 0
    ensures !Marked(m, j)
  {
    hide Meets;
    ShiftDownMarks(m, i, j - i);
    ZeroMeets(IdxToBit(j - i));
  }

  /** `(smallbits << idx) & left_bits(idx2bit(idx))` holds the marked bins after `i`. */
  function SmallLeft(m: Map, i: nat): Map
    requires i < NBINS
  {
    Common(LeftBits(IdxToBit(i)), ShiftUp(ShiftDown(m, i), i))
  }

  lemma SmallLeftMarks(m: Map, i: nat, j: nat)
    requires i < NBINS && j < NBINS
    ensures Marked(SmallLeft(m, i), j) <==> i < j && Marked(m, j)
  {
    hide Meets, LeftBits, Common, ShiftUp, ShiftDown, Single, Below;
    BitIsSingle(i);
    BitIsSingle(j);
    SingleLeft(ShiftUp(ShiftDown(m, i), i), IdxToBit(i), IdxToBit(j));
    BitsDiffer(i, j);
    ShiftUpMarks(ShiftDown(m, i), i, j);
    if i < j {
      ShiftDownMarks(m, i, j - i);
    }
  }

  /** When the two low bits are clear, the first bin left is the first one from `i` on. */
  lemma SmallLeftFirst(m: Map, i: nat)
    requires i < NBINS && ShiftDown(m, i) != 0 && !Meets(ShiftDown(m, i), 3)
    ensures SmallLeft(m, i) != 0
    ensures var k := FirstMarked(SmallLeft(m, i));
            i + 1 < k < NBINS && Marked(m, k) && forall j :: i <= j < k ==> !Marked(m, j)
  {
    hide Meets, LeftBits, Common, ShiftUp, ShiftDown, Single, SmallLeft, FirstMarked, LeastBit;
    FirstMarkedIsFirst(ShiftDown(m, i));
    var j := FirstMarked(ShiftDown(m, i));
    ShiftDownMarks(m, i, j);
    ThisOrNext(m, i);
    SmallLeftMarks(m, i, i + j);
    EmptyMap(i + j);
    FirstMarkedIsFirst(SmallLeft(m, i));
    SmallLeftMarks(m, i, FirstMarked(SmallLeft(m, i)));
    forall j | i <= j < FirstMarked(SmallLeft(m, i)) ensures !Marked(m, j) {
      SmallLeftMarks(m, i, j);
    }
  }
}
