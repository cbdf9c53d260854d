/**
 Which tree bin holds a size, and how the bits of a size steer the walk down a bin
 (32-bit sizes).
 */
module BinIndex {

  const NTREEBINS: nat := 32
  const MIN_LARGE_SIZE: nat := 256
  /** One more than the largest `size_t`. */
  const SIZE_RANGE: nat := 0x1_0000_0000
  const SIGN_BIT: nat := 0x8000_0000

  function Pow2(n: nat): (p: nat)
    ensures p >= 1
  {
    if n == 0 then 1 else 2 * Pow2(n - 1)
  }

  /** The position of the highest bit: 31 - clz(x). */
  function HighBit(x: nat): nat
    requires x > 0
  {
    if x == 1 then 0 else 1 + HighBit(x / 2)
  }

  function TreeIndex(s: nat): nat
  {
    var x := s / 256;
    if x == 0 then 0
    else if x > 0xFFFF then NTREEBINS - 1
    else
      var k := HighBit(x);
      2 * k + s / Pow2(k + 7) % 2
  }

  /** The smallest size held in bin `i`. */
  function MinSize(i: nat): nat
  {
    Pow2(i / 2 + 8) + i % 2 * Pow2(i / 2 + 7)
  }

  function LeftShift(i: nat): nat
    requires i < NTREEBINS
  {
    if i == NTREEBINS - 1 then 0 else 31 - (i / 2 + 6)
  }

  // ---------------------------------------------------------------- the bins partition the sizes

  lemma {:induction false} HighBitBounds(x: nat)
    requires x > 0
    ensures Pow2(HighBit(x)) <= x < 2 * Pow2(HighBit(x))
  {
    if x > 1 {
      HighBitBounds(x / 2);
    }
  }

  lemma {:induction false} Pow2Grows(m: nat, n: nat)
    requires m <= n
    ensures Pow2(m) <= Pow2(n)
    ensures m < n ==> 2 * Pow2(m) <= Pow2(n)
  {
    if m < n {
      Pow2Grows(m, n - 1);
    }
  }

  lemma {:induction false} Pow2Adds(m: nat, n: nat)
    ensures Pow2(m) * Pow2(n) == Pow2(m + n)
  {
    if m > 0 {
      Pow2Adds(m - 1, n);
    }
  }

  lemma Pow2Values()
    ensures Pow2(7) == 128 && Pow2(8) == 256 && Pow2(16) == 0x1_0000 && Pow2(23) == 0x80_0000 && Pow2(32) == SIZE_RANGE
  {
    Pow2Adds(8, 8);
    Pow2Adds(16, 16);
    Pow2Adds(7, 16);
  }

  lemma MinSizeStep(i: nat)
    ensures MinSize(i) + Pow2(i / 2 + 7) == MinSize(i + 1)
    ensures MinSize(i) == (2 + i % 2) * Pow2(i / 2 + 7)
  {
    assert Pow2(i / 2 + 8) == 2 * Pow2(i / 2 + 7);
    if i % 2 == 1 {
      assert (i + 1) / 2 == i / 2 + 1 && (i + 1) % 2 == 0;
    } else {
      assert (i + 1) / 2 == i / 2 && (i + 1) % 2 == 1;
    }
  }

  lemma {:induction false} MinSizeGrows(i: nat, j: nat)
    requires i < j
    ensures MinSize(i + 1) <= MinSize(j)
  {
    if i + 1 < j {
      MinSizeGrows(i, j - 1);
      MinSizeStep(j - 1);
    }
  }

  ghost predicate InBin(s: nat, i: nat)
  {
    i < NTREEBINS && MinSize(i) <= s && (i < NTREEBINS - 1 ==> s < MinSize(i + 1))
  }

  lemma HighBitScales(s: nat, k: nat)
    requires s / 256 > 0 && k == HighBit(s / 256)
    ensures Pow2(k + 8) <= s < 2 * Pow2(k + 8)
  {
    hide Pow2, HighBit;
    HighBitBounds(s / 256);
    Pow2Values();
    assert Pow2(k + 8) == Pow2(k) * 256 by { Pow2Adds(k, 8); }
  }

  lemma HalfBit(s: nat, h: nat)
    requires h > 0 && 2 * h <= s < 4 * h
    ensures s / h % 2 == (if s < 3 * h then 0 else 1)
  {
    if s < 3 * h {
      assert s / h == 2 by { DivideBetween(s, h, 2); }
    } else {
      assert s / h == 3 by { DivideBetween(s, h, 3); }
    }
  }

  lemma TimesKeepsOrder(a: nat, b: nat, h: nat)
    ensures a <= b ==> a * h <= b * h
  {
  }

  lemma StrictTimes(a: nat, b: nat, h: nat)
    ensures a < b && h > 0 ==> a * h < b * h
  {
  }

  lemma DivideBetween(s: nat, h: nat, q: nat)
    requires h > 0 && q * h <= s < (q + 1) * h
    ensures s / h == q
  {
    var d := s / h;
    assert s == d * h + s % h;
    TimesKeepsOrder(d + 1, q, h);
    TimesKeepsOrder(q + 1, d, h);
  }

  lemma TreeIndexPlaces(s: nat)
    requires MIN_LARGE_SIZE <= s < SIZE_RANGE
    ensures InBin(s, TreeIndex(s))
  {
    var x := s / 256;
    Pow2Values();
    if x > 0xFFFF {
      MinSizeStep(31);
      Pow2Grows(22, 23);
    } else {
      var k := HighBit(x);
      HighBitScales(s, k);
      HighBitBounds(x);
      if k >= 16 {
        Pow2Grows(16, k);
      }
      var h := Pow2(k + 7);
      HalfBit(s, h);
      var i := TreeIndex(s);
      MinSizeStep(i);
      assert i / 2 == k;
    }
  }

  /** The index of a size is the one bin whose range contains it. */
  lemma TreeIndexIsTheBin(s: nat, i: nat)
    requires MIN_LARGE_SIZE <= s < SIZE_RANGE && i < NTREEBINS
    ensures TreeIndex(s) == i <==> InBin(s, i)
  {
    TreeIndexPlaces(s);
    var j := TreeIndex(s);
    if i < j {
      MinSizeGrows(i, j);
    } else if j < i {
      MinSizeGrows(j, i);
    }
  }

  lemma TreeIndexIsMonotone(s: nat, s': nat)
    requires MIN_LARGE_SIZE <= s <= s' < SIZE_RANGE
    ensures TreeIndex(s) <= TreeIndex(s')
  {
    TreeIndexPlaces(s);
    TreeIndexPlaces(s');
    if TreeIndex(s') < TreeIndex(s) {
      MinSizeGrows(TreeIndex(s'), TreeIndex(s));
    }
  }

  // ---------------------------------------------------------------- walking down a bin

  /** Every size of bin `i` lies in `BinLow(i) .. BinLow(i) + 2^BinBits(i)`. */
  function BinLow(i: nat): nat { if i == NTREEBINS - 1 then 0 else MinSize(i) }
  function BinBits(i: nat): nat { if i == NTREEBINS - 1 then 32 else i / 2 + 7 }

  ghost predicate Within(s: nat, lo: nat, m: nat)
  {
    lo <= s < lo + Pow2(m)
  }

  lemma BinInterval(s: nat, i: nat)
    requires s < SIZE_RANGE && InBin(s, i)
    ensures Within(s, BinLow(i), BinBits(i))
  {
    Pow2Values();
    MinSizeStep(i);
  }

  function FirstBits(s: nat, i: nat): nat
    requires i < NTREEBINS
  {
    s * Pow2(LeftShift(i)) % SIZE_RANGE
  }

  function NextBits(bits: nat): nat { bits * 2 % SIZE_RANGE }

  /** `bits` holds the part of `s` that is still undecided, moved up to the sign bit. */
  ghost predicate Steers(bits: nat, s: nat, lo: nat, m: nat)
  {
    Within(s, lo, m) && bits * Pow2(m) == (s - lo) * SIZE_RANGE
  }

  lemma FirstBitsSteer(s: nat, i: nat)
    requires s < SIZE_RANGE && InBin(s, i)
    ensures Steers(FirstBits(s, i), s, BinLow(i), BinBits(i))
  {
    BinInterval(s, i);
    Pow2Values();
    if i < NTREEBINS - 1 {
      hide Pow2;
      var p, w, c := Pow2(LeftShift(i)), Pow2(BinBits(i)), 2 + i % 2;
      Pow2Adds(LeftShift(i), BinBits(i));
      MinSizeStep(i);
      var r := s - BinLow(i);
      FirstBitsAre(s, i, c, r, w, p);
    }
  }

  /** Shifting a size left moves its leading `c` out of the word and its rest up to the sign bit. */
  lemma ShiftedOut(c: nat, r: nat, w: nat, p: nat)
    requires r < w && p * w == SIZE_RANGE
    ensures (c * w + r) * p == c * SIZE_RANGE + r * p && r * p < SIZE_RANGE && (r * p) * w == r * SIZE_RANGE
  {
    assert r * p < w * p;
    assert (c * w) * p == c * (p * w);
    assert (r * p) * w == r * (p * w);
  }

  lemma RemainderOf(y: nat, q: nat, x: nat)
    requires x < SIZE_RANGE && y == q * SIZE_RANGE + x
    ensures y % SIZE_RANGE == x
  {
  }

  lemma FirstBitsAre(s: nat, i: nat, c: nat, r: nat, w: nat, p: nat)
    requires i < NTREEBINS && p == Pow2(LeftShift(i)) && r < w && p * w == SIZE_RANGE && s == c * w + r
    ensures FirstBits(s, i) * w == r * SIZE_RANGE
  {
    hide Pow2;
    ShiftedOut(c, r, w, p);
    RemainderOf(s * p, c, r * p);
  }

  /** The sign bit of the steering word picks the half that contains the size. */
  lemma NextBitsSteer(bits: nat, s: nat, lo: nat, m: nat)
    requires m > 0 && Steers(bits, s, lo, m)
    ensures bits < SIZE_RANGE && bits / SIGN_BIT % 2 == (if s < lo + Pow2(m - 1) then 0 else 1)
    ensures Steers(NextBits(bits), s, if s < lo + Pow2(m - 1) then lo else lo + Pow2(m - 1), m - 1)
  {
    var h, r := Pow2(m - 1), s - lo;
    assert bits * h == r * SIGN_BIT by { assert bits * (2 * h) == r * (2 * SIGN_BIT); }
    if r < h {
      ProductBelow(bits, h, r, SIGN_BIT);
      assert NextBits(bits) == bits * 2;
      assert bits * 2 * h == r * SIZE_RANGE;
    } else {
      ProductAtLeast(bits, h, r, SIGN_BIT);
      ProductBelow(bits, 2 * h, r, SIZE_RANGE);
      assert NextBits(bits) == bits * 2 - SIZE_RANGE;
      assert (bits * 2 - SIZE_RANGE) * h == bits * (2 * h) - SIZE_RANGE * h;
    }
  }

  lemma ProductAtLeast(b: nat, h: nat, r: nat, n: nat)
    requires b * h == r * n && r >= h > 0
    ensures b >= n
  {
    TimesKeepsOrder(h, r, n);
    StrictTimes(b, n, h);
  }

  lemma ProductBelow(b: nat, h: nat, r: nat, n: nat)
    requires b * h == r * n && r < h && n > 0
    ensures b < n
  {
    TimesKeepsOrder(n, b, h);
    StrictTimes(r, h, n);
  }
}
