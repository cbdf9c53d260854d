/**
 The boot loader's disks: whole disks and partitions, read in blocks or at any byte offset.
 */
module BlockDevice {

  newtype Byte = x: int | 0 <= x < 256

  /** A disk with its contents and the blocks that cannot be read, or a partition of one. */
  datatype Disk =
    | Root(blksize: nat, blocks: nat, data: seq<Byte>, bad: set<nat>)
    | Partition(parent: Disk, lba: nat, count: nat)

  /** `Strayed`: the driver is asked for blocks that the disk does not have. */
  datatype Status = Done | Failed | BeyondEnd | Strayed

  /** Offsets and sizes are 64-bit numbers. */
  const SPACE: nat := 0x1_0000_0000_0000_0000

  function BlockSize(d: Disk): nat { if d.Root? then d.blksize else BlockSize(d.parent) }

  function Blocks(d: Disk): nat { if d.Root? then d.blocks else d.count }

  ghost predicate WellFormed(d: Disk)
  {
    if d.Root? then d.blksize > 0 && |d.data| == d.blocks * d.blksize
    else WellFormed(d.parent) && d.lba + d.count <= Blocks(d.parent)
  }

  /** The byte at offset `x`. */
  function ByteAt(d: Disk, x: nat): Byte
  {
    if d.Root? then (if x < |d.data| then d.data[x] else 0) else ByteAt(d.parent, d.lba * BlockSize(d) + x)
  }

  predicate Good(d: Disk, block: nat) { if d.Root? then block !in d.bad else Good(d.parent, d.lba + block) }

  /** How far into the whole disk a partition starts, through all levels. */
  function Offset(d: Disk): nat { if d.Root? then 0 else Offset(d.parent) + d.lba }

  function RootOf(d: Disk): Disk { if d.Root? then d else RootOf(d.parent) }

  /** A byte of a partition is a byte of the whole disk, at the sum of the offsets. */
  lemma {:induction false} PartitionByte(d: Disk, x: nat)
    ensures ByteAt(d, x) == ByteAt(RootOf(d), Offset(d) * BlockSize(d) + x)
    ensures BlockSize(d) == BlockSize(RootOf(d))
  {
    if d.Partition? {
      PartitionByte(d.parent, d.lba * BlockSize(d) + x);
      assert (Offset(d.parent) + d.lba) * BlockSize(d) == Offset(d.parent) * BlockSize(d) + d.lba * BlockSize(d);
    }
  }

  lemma {:induction false} PositiveSize(d: Disk)
    requires WellFormed(d)
    ensures BlockSize(d) > 0
  {
    if d.Partition? {
      PositiveSize(d.parent);
    }
  }

  lemma MulMonotone(a: nat, b: nat, n: nat)
    requires a <= b
    ensures a * n <= b * n
  {
  }

  lemma MulCancel(a: nat, b: nat, n: nat)
    requires n > 0 && a * n < b * n + n
    ensures a <= b
  {
    if b < a {
      MulMonotone(b + 1, a, n);
    }
  }

  predicate AllGood(d: Disk, lba: nat, n: nat) { forall b :: lba <= b < lba + n ==> Good(d, b) }

  lemma AllGoodParent(d: Disk, lba: nat, n: nat)
    requires d.Partition?
    ensures AllGood(d, lba, n) <==> AllGood(d.parent, d.lba + lba, n)
  {
    if AllGood(d, lba, n) {
      forall b | d.lba + lba <= b < d.lba + lba + n ensures Good(d.parent, b) {
        assert Good(d, b - d.lba);
      }
    }
    if AllGood(d.parent, d.lba + lba, n) {
      forall b | lba <= b < lba + n ensures Good(d, b) {
      }
    }
  }

  /** From `pos` on, `s` holds `n` bytes of the disk from offset `x`. */
  ghost predicate Filled(s: seq<Byte>, pos: nat, d: Disk, x: nat, n: nat)
  {
    pos + n <= |s| && forall i :: pos <= i < pos + n ==> s[i] == ByteAt(d, x + (i - pos))
  }

  lemma FilledParent(s: seq<Byte>, pos: nat, d: Disk, lba: nat, n: nat)
    requires d.Partition? && Filled(s, pos, d.parent, (d.lba + lba) * BlockSize(d), n)
    ensures Filled(s, pos, d, lba * BlockSize(d), n)
  {
    var size := BlockSize(d);
    assert (d.lba + lba) * size == d.lba * size + lba * size;
    forall i | pos <= i < pos + n ensures s[i] == ByteAt(d, lba * size + (i - pos)) {
      assert d.lba * size + (lba * size + (i - pos)) == (d.lba + lba) * size + (i - pos);
    }
  }

  lemma InsideRoot(d: Disk, lba: nat, n: nat)
    requires d.Root? && WellFormed(d) && lba + n <= d.blocks
    ensures lba * d.blksize + n * d.blksize <= |d.data|
  {
    MulMonotone(lba + n, d.blocks, d.blksize);
    assert (lba + n) * d.blksize == lba * d.blksize + n * d.blksize;
  }

  /** Reads whole blocks into `buf` at `pos`: the driver's read, or `partition_disk_read`. */
  method ReadBlocks(d: Disk, buf: array<Byte>, pos: nat, lba: nat, n: nat) returns (ok: bool)
    requires WellFormed(d) && lba + n <= Blocks(d) && pos + n * BlockSize(d) <= buf.Length
    modifies buf
    ensures ok <==> AllGood(d, lba, n)
    ensures ok ==> Filled(buf[..], pos, d, lba * BlockSize(d), n * BlockSize(d))
    ensures forall i :: 0 <= i < buf.Length && !(pos <= i < pos + n * BlockSize(d)) ==> buf[i] == old(buf[i])
    decreases d
  {
    var size := BlockSize(d);
    if d.Root? {
      ok := AllGood(d, lba, n);
      if ok {
        InsideRoot(d, lba, n);
        var from, total := lba * size, n * size;
        forall i | pos <= i < pos + total {
          buf[i] := d.data[from + (i - pos)];
        }
      }
    } else {
      AllGoodParent(d, lba, n);
      ok := ReadBlocks(d.parent, buf, pos, d.lba + lba, n);
      if ok {
        FilledParent(buf[..], pos, d, lba, n * size);
      }
    }
  }

  // ---------------------------------------------------------------- any byte offset

  function Quot(x: nat, n: nat): nat requires n > 0 { x / n }
  function Rem(x: nat, n: nat): nat requires n > 0 { x % n }
  function Times(q: nat, n: nat): nat { q * n }

  /** `x` is `r` bytes into block `q`. */
  lemma InBlock(x: nat, n: nat, q: nat, r: nat)
    requires n > 0 && x == q * n + r && r < n
    ensures x / n == q && x % n == r
  {
    var q', r' := x / n, x % n;
    assert q * n + r == q' * n + r';
    if q < q' {
      MulMonotone(q + 1, q', n);
    } else if q' < q {
      MulMonotone(q' + 1, q, n);
    }
  }

  lemma TimesStep(q: nat, n: nat)
    ensures Times(0, n) == 0 && Times(q + 1, n) == Times(q, n) + n
  {
  }

  lemma QuotRem(x: nat, n: nat, q: nat)
    requires n > 0
    ensures x == Times(Quot(x, n), n) + Rem(x, n) && Rem(x, n) < n && (x < Times(q, n) ==> Quot(x, n) < q)
  {
    assert x == (x / n) * n + x % n;
    if x < q * n {
      MulCancel(x / n + 1, q, n);
    }
  }

  /** Where a transfer of `count` bytes from `offset` starts and ends. */
  lemma Span(offset: nat, count: nat, n: nat, blocks: nat)
    requires n > 0 && count > 0 && offset + count <= Times(blocks, n)
    ensures var start, end, skip := Quot(offset, n), Quot(offset + count - 1, n), Rem(offset, n);
            start <= end < blocks && Times(start, n) + skip == offset && skip < n && Times(start + 1, n) == Times(start, n) + n &&
            (start == end ==> skip + count <= n) && (start < end ==> n - skip < count)
  {
    var start, end := Quot(offset, n), Quot(offset + count - 1, n);
    hide Quot, Rem, Times;
    QuotRem(offset, n, 0);
    QuotRem(offset + count - 1, n, blocks);
    TimesOrder(start, end, n);
    TimesOrder(start + 1, end, n);
    TimesStep(start, n);
  }

  lemma TimesOrder(a: nat, b: nat, n: nat)
    requires n > 0
    ensures Times(a, n) < Times(b, n) + n ==> a <= b
    ensures a <= b ==> Times(a, n) <= Times(b, n)
  {
    if a <= b {
      MulMonotone(a, b, n);
    } else {
      MulMonotone(b + 1, a, n);
    }
  }

  /** What is left behind the first partial block: `full` blocks from `start`, then `tail` bytes. */
  lemma Remaining(offset: nat, count: nat, n: nat, blocks: nat, start: nat, left: nat)
    requires n > 0 && 0 < left <= count && offset + count <= Times(blocks, n) && Times(start, n) + left == offset + count
    ensures var full, tail := Quot(left, n), Rem(left, n);
            left == Times(full, n) + tail && tail < n && start + full <= blocks && (tail > 0 ==> start + full < blocks) &&
            (full == 0 ==> Times(full, n) == 0) && Times(start + full, n) == Times(start, n) + Times(full, n) &&
            Quot(offset + count - 1, n) + 1 == start + full + (if tail > 0 then 1 else 0)
  {
    var full, tail := left / n, left % n;
    assert left == full * n + tail;
    assert (start + full) * n == start * n + full * n;
    if tail > 0 {
      InBlock(offset + count - 1, n, start + full, tail - 1);
      MulCancel(start + full + 1, blocks, n);
    } else {
      assert full > 0;
      assert (start + full - 1) * n == (start + full) * n - n;
      InBlock(offset + count - 1, n, start + full - 1, n - 1);
      MulCancel(start + full, blocks, n);
    }
  }

  lemma FilledTwice(s: seq<Byte>, base: nat, d: Disk, offset: nat, pos: nat, more: nat)
    requires Filled(s, base, d, offset, pos) && Filled(s, base + pos, d, offset + pos, more)
    ensures Filled(s, base, d, offset, pos + more)
  {
    hide ByteAt;
    forall i | base <= i < base + pos + more ensures s[i] == ByteAt(d, offset + (i - base)) {
      assert i >= base + pos ==> offset + pos + (i - (base + pos)) == offset + (i - base);
    }
  }

  lemma FilledFrame(s: seq<Byte>, s': seq<Byte>, pos: nat, d: Disk, x: nat, n: nat)
    requires Filled(s, pos, d, x, n) && |s| == |s'| && forall i :: pos <= i < pos + n ==> s'[i] == s[i]
    ensures Filled(s', pos, d, x, n)
  {
    hide ByteAt;
  }

  lemma AllGoodSplit(d: Disk, lba: nat, n: nat, m: nat)
    ensures AllGood(d, lba, n + m) <==> AllGood(d, lba, n) && AllGood(d, lba + n, m)
    ensures AllGood(d, lba, 0) && (AllGood(d, lba, 1) <==> Good(d, lba))
  {
    hide Good;
    assert AllGood(d, lba, 1) ==> Good(d, lba);
  }

  /** Reads block `lba` into `block`, and copies `size` of its bytes from `skip` on to `buf` at `pos`. */
  method ReadPart(d: Disk, buf: array<Byte>, block: array<Byte>, pos: nat, lba: nat, skip: nat, size: nat) returns (ok: bool)
    requires WellFormed(d) && lba < Blocks(d) && block.Length == BlockSize(d) && block != buf
    requires skip + size <= BlockSize(d) && pos + size <= buf.Length
    modifies buf, block
    ensures ok <==> Good(d, lba)
    ensures ok ==> Filled(buf[..], pos, d, Times(lba, BlockSize(d)) + skip, size)
    ensures forall i :: 0 <= i < buf.Length && !(pos <= i < pos + size) ==> buf[i] == old(buf[i])
  {
    ok := ReadBlocks(d, block, 0, lba, 1);
    AllGoodSplit(d, lba, 0, 1);
    hide Good, ByteAt, WellFormed;
    if ok {
      forall i | pos <= i < pos + size {
        buf[i] := block[skip + (i - pos)];
      }
      forall i | pos <= i < pos + size ensures buf[..][i] == ByteAt(d, lba * BlockSize(d) + skip + (i - pos)) {
        assert block[..][skip + (i - pos)] == ByteAt(d, lba * BlockSize(d) + (skip + (i - pos) - 0));
      }
    }
  }

  /** The last part of `disk_read`: full blocks, and anything that is left. */
  method ReadRest(d: Disk, buf: array<Byte>, base: nat, block: array?<Byte>, count: nat, offset: nat, at: nat, from: nat)
    returns (ok: bool)
    requires WellFormed(d) && BlockSize(d) > 0 && at < count && base + count <= buf.Length
    requires offset + count <= Times(Blocks(d), BlockSize(d)) && Times(from, BlockSize(d)) == offset + at
    requires Filled(buf[..], base, d, offset, at)
    requires Rem(count - at, BlockSize(d)) != 0 ==> block != null && block.Length == BlockSize(d) && block != buf
    modifies buf, block
    ensures from <= Quot(offset + count - 1, BlockSize(d))
    ensures ok <==> AllGood(d, from, Quot(offset + count - 1, BlockSize(d)) + 1 - from)
    ensures ok ==> Filled(buf[..], base, d, offset, count)
    ensures forall i :: 0 <= i < buf.Length && !(base <= i < base + count) ==> buf[i] == old(buf[i])
  {
    var n := BlockSize(d);
    Remaining(offset, count, n, Blocks(d), from, count - at);
    var size, tail := Quot(count - at, n), Rem(count - at, n);
    hide Filled, WellFormed, AllGood, Good, BlockSize, Quot, Rem, Times;
    AllGoodSplit(d, from, size, 1);
    AllGoodSplit(d, from + size, 0, 0);
    ok := true;
    if size != 0 {
      ok := ReadFull(d, buf, base, offset, at, from, size);
      if !ok {
        return;
      }
    }
    if tail > 0 {
      ok := ReadMore(d, buf, base, block, offset, at + Times(size, n), from + size, tail);
    }
  }

  /** Full blocks, read into the destination directly. */
  method ReadFull(d: Disk, buf: array<Byte>, base: nat, ghost offset: nat, at: nat, lba: nat, n: nat) returns (ok: bool)
    requires WellFormed(d) && lba + n <= Blocks(d) && base + at + Times(n, BlockSize(d)) <= buf.Length
    requires Times(lba, BlockSize(d)) == offset + at && Filled(buf[..], base, d, offset, at)
    modifies buf
    ensures ok <==> AllGood(d, lba, n)
    ensures ok ==> Filled(buf[..], base, d, offset, at + Times(n, BlockSize(d)))
    ensures forall i :: 0 <= i < buf.Length && !(base + at <= i < base + at + Times(n, BlockSize(d))) ==> buf[i] == old(buf[i])
  {
    hide Filled, WellFormed, AllGood;
    ghost var s0 := buf[..];
    ok := ReadBlocks(d, buf, base + at, lba, n);
    if ok {
      FilledFrame(s0, buf[..], base, d, offset, at);
      FilledTwice(buf[..], base, d, offset, at, Times(n, BlockSize(d)));
    }
  }

  /** The start of a block, read through the temporary buffer. */
  method ReadMore(d: Disk, buf: array<Byte>, base: nat, block: array<Byte>, ghost offset: nat, at: nat, lba: nat, size: nat)
    returns (ok: bool)
    requires WellFormed(d) && lba < Blocks(d) && block.Length == BlockSize(d) && block != buf
    requires size <= BlockSize(d) && base + at + size <= buf.Length
    requires Times(lba, BlockSize(d)) == offset + at && Filled(buf[..], base, d, offset, at)
    modifies buf, block
    ensures ok <==> Good(d, lba)
    ensures ok ==> Filled(buf[..], base, d, offset, at + size)
    ensures forall i :: 0 <= i < buf.Length && !(base + at <= i < base + at + size) ==> buf[i] == old(buf[i])
  {
    hide Filled, WellFormed, Good, Times, BlockSize;
    ghost var s0 := buf[..];
    ok := ReadPart(d, buf, block, base + at, lba, 0, size);
    if ok {
      FilledFrame(s0, buf[..], base, d, offset, at);
      FilledTwice(buf[..], base, d, offset, at, size);
    }
  }

  function Wrap(x: nat): nat { x % SPACE }

  /** The test of `disk_read` for the end of the disk, with both sides in 64 bits. */
  predicate PastEnd(d: Disk, offset: nat, count: nat) { Wrap(offset + count) > Wrap(Times(Blocks(d), BlockSize(d))) }

  /** The bytes are on the disk. */
  predicate OnDisk(d: Disk, offset: nat, count: nat) { offset + count <= Times(Blocks(d), BlockSize(d)) }

  /** On a disk of less than 2^64 bytes the test is right exactly when the end of the transfer does not
      wrap around, or wraps around to an offset that is beyond the end as well. */
  lemma EndTestIsRight(d: Disk, offset: nat, count: nat)
    requires offset < SPACE && count < SPACE && Times(Blocks(d), BlockSize(d)) < SPACE
    ensures (PastEnd(d, offset, count) <==> !OnDisk(d, offset, count)) <==>
            offset + count < SPACE || offset + count - SPACE > Times(Blocks(d), BlockSize(d))
  {
    hide Times, BlockSize, Blocks;
    if offset + count >= SPACE {
      assert Wrap(offset + count) == offset + count - SPACE;
    }
  }

  /** A transfer of 4096 bytes from the last 512 of all offsets gets past the test. */
  lemma EndTestExample()
    ensures var d := Root(512, 8, seq(4096, _ => 0), {});
            WellFormed(d) && !PastEnd(d, SPACE - 512, 4096) && !OnDisk(d, SPACE - 512, 4096)
  {
  }

  /** `disk_read` into `buf` at `base` */
  method Read(d: Disk, buf: array<Byte>, base: nat, count: nat, offset: nat) returns (s: Status)
    requires WellFormed(d) && BlockSize(d) > 0 && base + count <= buf.Length
    modifies buf
    ensures s.BeyondEnd? <==> count > 0 && PastEnd(d, offset, count)
    ensures s.Strayed? <==> count > 0 && !PastEnd(d, offset, count) && !OnDisk(d, offset, count)
    ensures s.Done? ==> Filled(buf[..], base, d, offset, count)
    ensures forall i :: 0 <= i < buf.Length && !(base <= i < base + count) ==> buf[i] == old(buf[i])
    ensures s.Done? <==>
              count == 0 || (!PastEnd(d, offset, count) && OnDisk(d, offset, count) && Touched(d, offset, count))
  {
    var n := BlockSize(d);
    assert Filled(buf[..], base, d, offset, 0);
    if count == 0 {
      return Done;
    }
    if PastEnd(d, offset, count) {
      return BeyondEnd;
    }
    if !OnDisk(d, offset, count) {
      return Strayed;
    }
    Span(offset, count, n, Blocks(d));
    hide Filled, WellFormed, AllGood, Good, BlockSize, Quot, Rem, Times, PastEnd;
    var start, end, skip := Quot(offset, n), Quot(offset + (count - 1), n), Rem(offset, n);
    var block: array?<Byte> := null;
    if skip != 0 || Rem(count, n) != 0 {
      block := new Byte[n];
    }
    AllGoodSplit(d, start, 1, end - start);
    var pos := 0;
    if skip != 0 {
      var size := if start == end then count else n - skip;
      var ok := ReadPart(d, buf, block, base, start, skip, size);
      if !ok {
        return Failed;
      }
      pos, start := size, start + 1;
    }
    if pos == count {
      return Done;
    }
    var ok := ReadRest(d, buf, base, block, count, offset, pos, start);
    return if ok then Done else Failed;
  }

  /** Every block that the bytes lie in can be read. */
  predicate Touched(d: Disk, offset: nat, count: nat)
    requires BlockSize(d) > 0 && count > 0
  {
    var first, last := Quot(offset, BlockSize(d)), Quot(offset + count - 1, BlockSize(d));
    first <= last && AllGood(d, first, last + 1 - first)
  }
}
