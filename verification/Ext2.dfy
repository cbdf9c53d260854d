/**
 Files on an Ext2 or Ext4 file system as the boot loader reads them: logical blocks found through
 indirect blocks or a tree of extents, and reads at any offset.
 */
module Ext2 {
  import opened BlockDevice

  const NDIR_BLOCKS: nat := 12
  const IND_BLOCK: nat := 12
  const DIND_BLOCK: nat := 13
  const EXT_MAGIC: nat := 0xF30A
  const WORD: nat := 0x1_0000_0000

  datatype Mount = Mount(disk: Disk, bs: nat)

  predicate Sized(m: Mount) { BlockSize(m.disk) > 0 && m.bs > 0 }

  ghost predicate Sound(m: Mount) { WellFormed(m.disk) && BlockSize(m.disk) > 0 && m.bs >= 1024 && m.bs % 4 == 0 }

  // ---------------------------------------------------------------- decoding

  /** A little-endian 16-bit number at offset `o`. */
  function Half(s: seq<Byte>, o: nat): nat
    requires o + 2 <= |s|
  {
    s[o] as nat + 256 * s[o + 1] as nat
  }

  /** A little-endian 32-bit number at offset `o`. */
  function Word(s: seq<Byte>, o: nat): nat
    requires o + 4 <= |s|
  {
    Half(s, o) + 0x10000 * Half(s, o + 2)
  }

  /** Block `num` of the file system. */
  ghost function Block(m: Mount, num: nat): (s: seq<Byte>)
    ensures |s| == m.bs
  {
    seq(m.bs, j requires 0 <= j < m.bs => ByteAt(m.disk, Times(num, m.bs) + j))
  }

  /** From `pos` on, `s` holds `t`. */
  ghost predicate HasAt(s: seq<Byte>, pos: nat, t: seq<Byte>) { pos + |t| <= |s| && s[pos..pos + |t|] == t }

  /** The disk can read block `num` of the file system. */
  predicate Readable(m: Mount, num: nat)
    requires Sized(m)
  {
    var x := Times(num, m.bs);
    !PastEnd(m.disk, x, m.bs) && OnDisk(m.disk, x, m.bs) && Touched(m.disk, x, m.bs)
  }

  /** `ext2_block_read` into `buf` at `pos` */
  method ReadBlock(m: Mount, buf: array<Byte>, pos: nat, num: nat) returns (ok: bool)
    requires Sound(m) && pos + m.bs <= buf.Length
    modifies buf
    ensures ok <==> Readable(m, num)
    ensures ok ==> HasAt(buf[..], pos, Block(m, num))
    ensures forall i :: 0 <= i < buf.Length && !(pos <= i < pos + m.bs) ==> buf[i] == old(buf[i])
  {
    var s := Read(m.disk, buf, pos, m.bs, Times(num, m.bs));
    ok := s.Done?;
    if ok {
      hide ByteAt, Times, WellFormed, Touched, Readable;
      forall j | 0 <= j < m.bs ensures buf[..][pos..pos + m.bs][j] == Block(m, num)[j] {
        assert buf[..][pos + j] == ByteAt(m.disk, Times(num, m.bs) + (pos + j - pos));
      }
    }
  }

  lemma HasWhole(s: seq<Byte>, t: seq<Byte>)
    requires HasAt(s, 0, t) && |s| == |t|
    ensures s == t
  {
    assert s[0..|t|] == s;
  }

  /** `ext2_block_read` into a buffer of just one block */
  method ReadInto(m: Mount, buf: array<Byte>, num: nat) returns (ok: bool)
    requires Sound(m) && buf.Length == m.bs
    modifies buf
    ensures ok <==> Readable(m, num)
    ensures ok ==> buf[..] == Block(m, num)
  {
    hide HasAt, Readable;
    ok := ReadBlock(m, buf, 0, num);
    if ok {
      HasWhole(buf[..], Block(m, num));
    }
  }

  // ---------------------------------------------------------------- indirect blocks

  /** The number of block numbers in a block. */
  function PerBlock(m: Mount): nat { m.bs / 4 }

  lemma SomePerBlock(m: Mount)
    requires Sound(m)
    ensures PerBlock(m) > 0
  {
  }

  function Zeros(n: nat): seq<nat> { seq(n, _ => 0) }

  /** The block numbers in block `num`; a missing block stands for none. */
  ghost function Numbers(m: Mount, num: nat): (s: seq<nat>)
    ensures |s| == PerBlock(m)
  {
    if num == 0 then Zeros(PerBlock(m))
    else seq(PerBlock(m), k requires 0 <= k < PerBlock(m) => Word(Block(m, num), 4 * k))
  }

  ghost function Joined(m: Mount, nums: seq<nat>): seq<nat>
  {
    if nums == [] then [] else Numbers(m, nums[0]) + Joined(m, nums[1..])
  }

  /** The block numbers of a file, in order, through its direct, indirect and bi-indirect blocks. */
  ghost function Flat(m: Mount, inode: seq<nat>): seq<nat>
    requires |inode| == 15
  {
    inode[..NDIR_BLOCKS] + Numbers(m, inode[IND_BLOCK]) + Joined(m, Numbers(m, inode[DIND_BLOCK]))
  }

  lemma {:induction false} JoinedAt(m: Mount, nums: seq<nat>, q: nat, r: nat)
    requires q < |nums| && r < PerBlock(m)
    ensures |Joined(m, nums)| == Times(|nums|, PerBlock(m))
    ensures Times(q, PerBlock(m)) + r < |Joined(m, nums)| && Joined(m, nums)[Times(q, PerBlock(m)) + r] == Numbers(m, nums[q])[r]
  {
    hide Numbers, Times, PerBlock;
    JoinedLength(m, nums);
    JoinedLength(m, nums[1..]);
    TimesStep(|nums| - 1, PerBlock(m));
    if q > 0 {
      JoinedAt(m, nums[1..], q - 1, r);
      TimesStep(q - 1, PerBlock(m));
    }
  }

  lemma {:induction false} JoinedLength(m: Mount, nums: seq<nat>)
    ensures |Joined(m, nums)| == Times(|nums|, PerBlock(m))
  {
    hide Numbers, Times, PerBlock;
    TimesStep(0, PerBlock(m));
    if nums != [] {
      JoinedLength(m, nums[1..]);
      TimesStep(|nums| - 1, PerBlock(m));
    }
  }

  lemma ThreeParts(a: seq<nat>, b: seq<nat>, c: seq<nat>, n: nat)
    requires n < |a| + |b| + |c|
    ensures (a + b + c)[n] == if n < |a| then a[n] else if n < |a| + |b| then b[n - |a|] else c[n - |a| - |b|]
  {
  }

  /** Where the block numbers of the three kinds lie in the list. */
  lemma FlatAt(m: Mount, inode: seq<nat>, n: nat)
    requires |inode| == 15
    ensures var p, b, c := PerBlock(m), Numbers(m, inode[IND_BLOCK]), Joined(m, Numbers(m, inode[DIND_BLOCK]));
            |Flat(m, inode)| == NDIR_BLOCKS + p + Times(p, p) && |c| == Times(p, p) &&
            (n < |Flat(m, inode)| ==>
               Flat(m, inode)[n] == if n < NDIR_BLOCKS then inode[n] else if n < NDIR_BLOCKS + p then b[n - NDIR_BLOCKS]
                                    else c[n - NDIR_BLOCKS - p])
  {
    hide Numbers, Times, PerBlock, Joined, Block;
    var a, b, d := inode[..NDIR_BLOCKS], Numbers(m, inode[IND_BLOCK]), Numbers(m, inode[DIND_BLOCK]);
    JoinedLength(m, d);
    if n < |Flat(m, inode)| {
      ThreeParts(a, b, Joined(m, d), n);
    }
  }

  /** An indirect block that is missing, or can be read. */
  predicate NumberOk(m: Mount, num: nat)
    requires Sized(m)
  {
    num == 0 || Readable(m, num)
  }

  /** How many entries the bi-indirect block is taken to reach: a 32-bit product. */
  function Reach(p: nat): (r: nat)
    ensures r <= Times(p, p)
  {
    Low(Times(p, p))
  }

  /** It is all of them exactly for blocks of less than 256 KiB. */
  lemma ReachIsFullIff(m: Mount)
    requires Sound(m)
    ensures Reach(PerBlock(m)) == Times(PerBlock(m), PerBlock(m)) <==> m.bs < 0x40000
  {
    var p := PerBlock(m);
    if p < 0x10000 {
      MulMonotone(p, 0xFFFF, p);
      MulMonotone(p, 0xFFFF, 0xFFFF);
    } else {
      MulMonotone(0x10000, p, p);
      MulMonotone(0x10000, p, 0x10000);
    }
    assert Times(p, p) < WORD <==> p < 0x10000;
  }

  /** For larger blocks, whose size is a power of two, it is none. */
  lemma NothingInReach(j: nat)
    ensures Reach(0x10000 * j) == 0
  {
    var k := Times(j, j);
    assert Times(0x10000 * j, 0x10000 * j) == WORD * k;
    LowMultiple(k);
  }

  lemma LowMultiple(k: nat)
    ensures Low(WORD * k) == 0
  {
  }

  /** The indirect blocks on the way to block number `n` of the file can be read. */
  ghost predicate IndirectOk(m: Mount, inode: seq<nat>, n: nat)
    requires Sized(m) && |inode| == 15 && PerBlock(m) > 0
  {
    var p := PerBlock(m);
    if n < NDIR_BLOCKS then true
    else if n < NDIR_BLOCKS + p then NumberOk(m, inode[IND_BLOCK])
    else n < NDIR_BLOCKS + p + Reach(p) && BelowOk(m, inode[DIND_BLOCK], n - NDIR_BLOCKS - p)
  }

  ghost predicate BelowOk(m: Mount, num: nat, k: nat)
    requires Sized(m) && PerBlock(m) > 0 && k < Times(PerBlock(m), PerBlock(m))
  {
    var p := PerBlock(m);
    QuotRem(k, p, p);
    NumberOk(m, num) && NumberOk(m, Numbers(m, num)[Quot(k, p)])
  }

  /** The half of `ext2_inode_block_get` for inodes without extents. */
  method IndirectGet(m: Mount, inode: seq<nat>, block: nat) returns (ok: bool, num: nat)
    requires Sound(m) && |inode| == 15 && PerBlock(m) > 0
    ensures ok <==> IndirectOk(m, inode, block)
    ensures ok ==> block < |Flat(m, inode)| && num == Flat(m, inode)[block]
  {
    hide Flat, Numbers, Times, Block, PerBlock, Joined, NumberOk, BelowOk, WellFormed;
    var p := PerBlock(m);
    FlatAt(m, inode, block);
    num := 0;
    if block < NDIR_BLOCKS {
      return true, inode[block];
    }
    var k := block - NDIR_BLOCKS;
    if k < p {
      ok, num := NumberIn(m, inode[IND_BLOCK], k);
      return;
    }
    k := k - p;
    if k < Reach(p) {
      ok, num := NumberBelow(m, inode[DIND_BLOCK], k);
      return;
    }
    ok := false;
  }

  /** Entry `k` of the indirect blocks below the bi-indirect block `num`. */
  method NumberBelow(m: Mount, num: nat, k: nat) returns (ok: bool, entry: nat)
    requires Sound(m) && PerBlock(m) > 0 && k < Times(PerBlock(m), PerBlock(m))
    ensures ok <==> BelowOk(m, num, k)
    ensures |Joined(m, Numbers(m, num))| == Times(PerBlock(m), PerBlock(m))
    ensures ok ==> entry == Joined(m, Numbers(m, num))[k]
  {
    hide Numbers, Times, Quot, Rem, Block, PerBlock, Joined, NumberOk, WellFormed;
    var p := PerBlock(m);
    QuotRem(k, p, p);
    JoinedAt(m, Numbers(m, num), Quot(k, p), Rem(k, p));
    ok, entry := NumberIn(m, num, Quot(k, p));
    if ok {
      ok, entry := NumberIn(m, entry, Rem(k, p));
    }
  }

  /** Entry `k` of the indirect block `num`, which may be missing. */
  method NumberIn(m: Mount, num: nat, k: nat) returns (ok: bool, entry: nat)
    requires Sound(m) && k < PerBlock(m)
    ensures ok <==> NumberOk(m, num)
    ensures ok ==> entry == Numbers(m, num)[k]
  {
    if num == 0 {
      return true, 0;
    }
    var buf := new Byte[m.bs];
    ok := ReadInto(m, buf, num);
    entry := if ok then Word(buf[..], 4 * k) else 0;
  }

  // ---------------------------------------------------------------- extents

  datatype Extent = Extent(block: nat, len: nat, start: nat)

  /** A node without the magic number is `Broken`. */
  datatype Tree = Leaf(extents: seq<Extent>) | Index(keys: seq<nat>, kids: seq<Tree>) | Broken

  /** The number at the start of entry `i` behind an extent header. */
  function Key(s: seq<Byte>, i: nat): nat
    requires 24 + 12 * i <= |s|
  {
    Word(s, 12 + 12 * i)
  }

  predicate Header(s: seq<Byte>, entries: nat, depth: nat)
  {
    12 + 12 * entries <= |s| && Half(s, 0) == EXT_MAGIC && Half(s, 2) == entries && Half(s, 6) == depth
  }

  ghost predicate ExtentAt(s: seq<Byte>, i: nat, e: Extent)
    requires 24 + 12 * i <= |s|
  {
    Key(s, i) == e.block && Half(s, 16 + 12 * i) == e.len && Half(s, 18 + 12 * i) == 0 && Word(s, 20 + 12 * i) == e.start
  }

  /** The header `s` and what it points to is the tree `t`; the depth falls by one with each level. */
  ghost predicate Stored(m: Mount, s: seq<Byte>, t: Tree, depth: nat)
    decreases t
  {
    match t
    case Leaf(es) => depth == 0 && Header(s, |es|, 0) && forall i :: 0 <= i < |es| ==> ExtentAt(s, i, es[i])
    case Index(keys, kids) =>
      depth > 0 && |keys| == |kids| && Header(s, |keys|, depth) &&
      forall i :: 0 <= i < |kids| ==> Key(s, i) == keys[i] && Stored(m, Block(m, Word(s, 16 + 12 * i)), kids[i], depth - 1)
    case Broken => |s| >= 12 && Half(s, 0) != EXT_MAGIC
  }

  /** The extents are sorted and disjoint, and each subtree keeps to the blocks its key promises. */
  ghost predicate Ordered(t: Tree, lo: nat, hi: nat)
    decreases t
  {
    match t
    case Leaf(es) =>
      (forall i :: 0 <= i < |es| ==> lo <= es[i].block && es[i].block + es[i].len <= hi && es[i].start + es[i].len <= WORD) &&
      (forall i, j :: 0 <= i < j < |es| ==> es[i].block + es[i].len <= es[j].block)
    case Index(keys, kids) =>
      |keys| == |kids| && (forall i :: 0 <= i < |keys| ==> lo <= keys[i] <= hi) &&
      Ascending(keys) && (forall i :: 0 <= i < |kids| ==> Ordered(kids[i], keys[i], Next(keys, i, hi)))
    case Broken => true
  }

  ghost predicate Ascending(keys: seq<nat>) { forall i, j :: 0 <= i < j < |keys| ==> keys[i] < keys[j] }

  lemma KeyOrder(keys: seq<nat>, i: nat, j: nat)
    requires Ascending(keys) && i < j < |keys|
    ensures keys[i + 1] <= keys[j]
  {
  }

  lemma KidOrdered(t: Tree, lo: nat, hi: nat, j: nat)
    requires t.Index? && Ordered(t, lo, hi) && j < |t.kids|
    ensures |t.keys| == |t.kids| && Ascending(t.keys) && Ordered(t.kids[j], t.keys[j], Next(t.keys, j, hi))
  {
  }

  function Next(keys: seq<nat>, i: nat, hi: nat): nat { if i + 1 < |keys| then keys[i + 1] else hi }

  /** `e` is an extent of the tree. */
  ghost predicate Has(t: Tree, e: Extent)
    decreases t
  {
    match t
    case Leaf(es) => e in es
    case Index(_, kids) => exists i :: 0 <= i < |kids| && Has(kids[i], e)
    case Broken => false
  }

  predicate Covers(e: Extent, n: nat) { e.block <= n < e.block + e.len }

  /** `raw` is where the extents put block `n` of the file; zero stands for a hole. */
  ghost predicate Mapped(t: Tree, n: nat, raw: nat)
  {
    (exists e :: Has(t, e) && Covers(e, n) && raw == e.start + (n - e.block)) ||
    (raw == 0 && forall e :: Has(t, e) ==> !Covers(e, n))
  }

  lemma {:induction false} Inside(t: Tree, lo: nat, hi: nat, e: Extent)
    requires Ordered(t, lo, hi) && Has(t, e)
    ensures lo <= e.block && e.block + e.len <= hi
    decreases t
  {
    if t.Index? {
      var i :| 0 <= i < |t.kids| && Has(t.kids[i], e);
      Inside(t.kids[i], t.keys[i], Next(t.keys, i, hi), e);
    }
  }

  /** The extent that covers a block is in the subtree whose key is the last one not beyond it. */
  lemma ChildHolds(t: Tree, lo: nat, hi: nat, n: nat, i: nat, raw: nat)
    requires t.Index? && Ordered(t, lo, hi) && i < |t.kids| && t.keys[i] <= n && (i + 1 < |t.keys| ==> n < t.keys[i + 1])
    requires Mapped(t.kids[i], n, raw)
    ensures Mapped(t, n, raw)
  {
    if e :| Has(t.kids[i], e) && Covers(e, n) && raw == e.start + (n - e.block) {
      assert Has(t, e);
    } else {
      forall e | Has(t, e) ensures !Covers(e, n) {
        var j :| 0 <= j < |t.kids| && Has(t.kids[j], e);
        if j != i {
          OtherChild(t, lo, hi, n, i, j, e);
        }
      }
    }
  }

  lemma OtherChild(t: Tree, lo: nat, hi: nat, n: nat, i: nat, j: nat, e: Extent)
    requires t.Index? && Ordered(t, lo, hi) && i < |t.kids| && t.keys[i] <= n && (i + 1 < |t.keys| ==> n < t.keys[i + 1])
    requires j < |t.kids| && j != i && Has(t.kids[j], e)
    ensures !Covers(e, n)
  {
    hide Has, Ordered, Ascending;
    KidOrdered(t, lo, hi, j);
    Inside(t.kids[j], t.keys[j], Next(t.keys, j, hi), e);
    if j < i {
      KeyOrder(t.keys, j, i);
    } else {
      KeyOrder(t.keys, i, j);
    }
  }

  /** In a leaf, it is the last extent that starts not beyond the block. */
  lemma LeafHolds(es: seq<Extent>, lo: nat, hi: nat, n: nat, i: nat)
    requires Ordered(Leaf(es), lo, hi) && i < |es| && es[i].block <= n && (i + 1 < |es| ==> n < es[i + 1].block)
    ensures Mapped(Leaf(es), n, if n - es[i].block >= es[i].len then 0 else n - es[i].block + es[i].start)
  {
    if n - es[i].block < es[i].len {
      assert Has(Leaf(es), es[i]) && Covers(es[i], n);
    } else {
      forall e | Has(Leaf(es), e) ensures !Covers(e, n) {
        var j :| 0 <= j < |es| && es[j] == e;
        assert j < i ==> es[j].block + es[j].len <= es[i].block;
        assert j > i + 1 ==> es[i + 1].block + es[i + 1].len <= es[j].block;
      }
    }
  }

  /** How many keys come before one that is beyond `n`. */
  function Leading(keys: seq<nat>, n: nat): (i: nat)
    ensures i <= |keys|
  {
    if keys == [] || n < keys[0] then 0 else 1 + Leading(keys[1..], n)
  }

  lemma {:induction false} LeadingIs(keys: seq<nat>, n: nat, i: nat)
    requires i <= |keys| && (forall j :: 0 <= j < i ==> keys[j] <= n) && (i < |keys| ==> n < keys[i])
    ensures Leading(keys, n) == i
  {
    if i > 0 {
      assert keys[0] <= n;
      LeadingIs(keys[1..], n, i - 1);
    }
  }

  /** The tree has an extent that starts not beyond block `n` where the search looks for it, and the
      blocks on the way there can be read. */
  ghost predicate Findable(m: Mount, s: seq<Byte>, t: Tree, depth: nat, n: nat)
    requires Sized(m) && Stored(m, s, t, depth)
    decreases t
  {
    match t
    case Leaf(es) => es != [] && es[0].block <= n
    case Index(keys, kids) =>
      var i := Leading(keys, n);
      i > 0 && Readable(m, Word(s, 4 + 12 * i)) && Findable(m, Block(m, Word(s, 4 + 12 * i)), kids[i - 1], depth - 1, n)
    case Broken => false
  }

  /** The loop over the entries behind a header: how many start not beyond `block`. */
  method CountKeys(s: seq<Byte>, entries: nat, block: nat) returns (i: nat)
    requires 12 + 12 * entries <= |s|
    ensures i <= entries && (forall j :: 0 <= j < i ==> Key(s, j) <= block) && (i < entries ==> block < Key(s, i))
  {
    i := 0;
    while i < entries && !(block < Key(s, i))
      invariant i <= entries && forall j :: 0 <= j < i ==> Key(s, j) <= block
    {
      i := i + 1;
    }
  }

  /** `ext4_find_leaf` */
  method FindLeaf(m: Mount, root: seq<Byte>, block: nat, ghost t0: Tree, ghost hi0: nat)
    returns (ok: bool, header: seq<Byte>, ghost t: Tree, ghost lo: nat, ghost hi: nat)
    requires Sound(m) && Sized(m) && |root| >= 12 && Stored(m, root, t0, Half(root, 6)) && Ordered(t0, 0, hi0)
    ensures ok ==> t.Leaf? && Stored(m, header, t, 0) && Ordered(t, lo, hi)
    ensures ok ==> forall raw :: Mapped(t, block, raw) ==> Mapped(t0, block, raw)
    ensures Findable(m, root, t0, Half(root, 6), block) <==> ok && Findable(m, header, t, 0, block)
  {
    hide Mapped, Ordered, Sound, Sized, Block, Word, Half, Key, Stored, Findable, Readable;
    header, t, lo, hi := root, t0, 0, hi0;
    var buf := new Byte[m.bs];
    while true
      invariant |header| >= 12 && Stored(m, header, t, Half(header, 6)) && Ordered(t, lo, hi)
      invariant forall raw :: Mapped(t, block, raw) ==> Mapped(t0, block, raw)
      invariant Findable(m, root, t0, Half(root, 6), block) <==> Findable(m, header, t, Half(header, 6), block)
      decreases t
    {
      ghost var depth := Half(header, 6);
      StoredParts(m, header, t, depth);
      if Half(header, 0) != EXT_MAGIC {
        assert !Findable(m, header, t, depth, block) by { BrokenFails(m, header, t, depth, block); }
        ok := false;
        return;
      } else if Half(header, 6) == 0 {
        ok := true;
        return;
      }
      var i := CountKeys(header, Half(header, 2), block);
      LeadingIs(t.keys, block, i);
      FindableStep(m, header, t, depth, block);
      if i == 0 {
        ok := false;
        return;
      }
      ok := ReadInto(m, buf, Word(header, 4 + 12 * i));
      if !ok {
        return;
      }
      ghost var kid := t.kids[i - 1];
      KidOrdered(t, lo, hi, i - 1);
      forall raw | Mapped(kid, block, raw) ensures Mapped(t, block, raw) {
        ChildHolds(t, lo, hi, block, i - 1, raw);
      }
      header, lo, hi, t := buf[..], t.keys[i - 1], Next(t.keys, i - 1, hi), kid;
      OwnDepth(m, header, t, depth - 1, block);
    }
  }

  /** Nothing is found in a node without the magic number. */
  lemma BrokenFails(m: Mount, s: seq<Byte>, t: Tree, depth: nat, n: nat)
    requires Sized(m) && Stored(m, s, t, depth) && |s| >= 12 && Half(s, 0) != EXT_MAGIC
    ensures !Findable(m, s, t, depth, n)
  {
  }

  /** A node has its own depth; it does not matter for a broken one. */
  lemma OwnDepth(m: Mount, s: seq<Byte>, t: Tree, depth: nat, n: nat)
    requires Sized(m) && Stored(m, s, t, depth)
    ensures |s| >= 12 && Stored(m, s, t, Half(s, 6)) && (Findable(m, s, t, Half(s, 6), n) <==> Findable(m, s, t, depth, n))
  {
    StoredParts(m, s, t, depth);
    assert !t.Broken? ==> depth == Half(s, 6);
  }

  lemma FindableStep(m: Mount, s: seq<Byte>, t: Tree, depth: nat, n: nat)
    requires Sized(m) && Stored(m, s, t, depth) && t.Index?
    ensures var i := Leading(t.keys, n);
            if i == 0 then !Findable(m, s, t, depth, n)
            else i <= |t.kids| && 12 + 12 * i <= |s| && Stored(m, Block(m, Word(s, 4 + 12 * i)), t.kids[i - 1], depth - 1) &&
                 (Findable(m, s, t, depth, n) <==>
                    Readable(m, Word(s, 4 + 12 * i)) && Findable(m, Block(m, Word(s, 4 + 12 * i)), t.kids[i - 1], depth - 1, n))
  {
    hide Readable, Sized, Word, Key, Block;
    StoredParts(m, s, t, depth);
    var i := Leading(t.keys, n);
    assert i > 0 ==> 16 + 12 * (i - 1) == 4 + 12 * i;
  }

  lemma StoredParts(m: Mount, s: seq<Byte>, t: Tree, depth: nat)
    requires Stored(m, s, t, depth)
    ensures |s| >= 12 && (t.Broken? <==> Half(s, 0) != EXT_MAGIC)
    ensures !t.Broken? ==> Header(s, Half(s, 2), depth) && (depth == 0 <==> t.Leaf?)
    ensures t.Index? ==> Half(s, 2) == |t.keys| == |t.kids| && forall i :: 0 <= i < |t.keys| ==> Key(s, i) == t.keys[i]
    ensures t.Index? ==> forall i :: 0 <= i < |t.kids| ==> Stored(m, Block(m, Word(s, 16 + 12 * i)), t.kids[i], depth - 1)
  {
  }

  /** The half of `ext2_inode_block_get` for inodes with extents. */
  method ExtentGet(m: Mount, root: seq<Byte>, block: nat, ghost t: Tree) returns (ok: bool, num: nat)
    requires Sound(m) && Sized(m) && |root| >= 12 && Stored(m, root, t, Half(root, 6)) && Ordered(t, 0, WORD)
    ensures ok <==> Findable(m, root, t, Half(root, 6), block)
    ensures ok ==> Mapped(t, block, num)
  {
    hide Mapped, Sound, Sized, Block, Stored, Ordered, Half, Word, Key, Findable;
    num := 0;
    var header;
    ghost var leaf, lo, hi;
    ok, header, leaf, lo, hi := FindLeaf(m, root, block, t, WORD);
    if ok {
      ok, num := LeafGet(m, header, block, leaf, lo, hi);
    }
  }

  /** The search of a leaf for the block. */
  method LeafGet(m: Mount, header: seq<Byte>, block: nat, ghost leaf: Tree, ghost lo: nat, ghost hi: nat) returns (ok: bool, num: nat)
    requires Sized(m) && leaf.Leaf? && Stored(m, header, leaf, 0) && Ordered(leaf, lo, hi)
    ensures ok <==> Findable(m, header, leaf, 0, block)
    ensures ok ==> Mapped(leaf, block, num)
  {
    hide Mapped, Block, Stored, Half, Word, Key, Ordered;
    LeafParts(m, header, leaf);
    var i := CountKeys(header, Half(header, 2), block);
    assert i > 0 ==> Key(header, 0) <= block;
    if i == 0 {
      return false, 0;
    }
    LeafAnswer(m, header, leaf, lo, hi, block, i);
    var k := block - Key(header, i - 1);
    if k >= Half(header, 16 + 12 * (i - 1)) {
      num := 0;
    } else {
      num := (k + Word(header, 20 + 12 * (i - 1))) % WORD;
    }
    ok := true;
  }

  lemma LeafAnswer(m: Mount, s: seq<Byte>, leaf: Tree, lo: nat, hi: nat, n: nat, i: nat)
    requires leaf.Leaf? && Stored(m, s, leaf, 0) && Ordered(leaf, lo, hi) && Header(s, |leaf.extents|, 0) && 0 < i <= |leaf.extents|
    requires Key(s, i - 1) <= n && (i < |leaf.extents| ==> n < Key(s, i))
    ensures var k, len := n - Key(s, i - 1), Half(s, 16 + 12 * (i - 1));
            Mapped(leaf, n, if k >= len then 0 else (k + Word(s, 20 + 12 * (i - 1))) % WORD)
  {
    hide Mapped, Block, Half, Word, Key;
    LeafParts(m, s, leaf);
    var e := leaf.extents[i - 1];
    assert ExtentAt(s, i - 1, e) && e.start + e.len <= WORD;
    LeafHolds(leaf.extents, lo, hi, n, i - 1);
  }

  lemma LeafParts(m: Mount, s: seq<Byte>, t: Tree)
    requires t.Leaf? && Stored(m, s, t, 0)
    ensures Header(s, |t.extents|, 0) && forall i :: 0 <= i < |t.extents| ==> ExtentAt(s, i, t.extents[i]) && Key(s, i) == t.extents[i].block
  {
  }

  // ---------------------------------------------------------------- files

  /** An inode with block numbers, or with the root of a tree of extents. */
  datatype Inode = Numbered(size: nat, numbers: seq<nat>) | Extended(size: nat, root: seq<Byte>)

  /** `t` is the tree of extents, if there is one. */
  ghost predicate SoundInode(m: Mount, inode: Inode, t: Tree)
  {
    if inode.Numbered? then |inode.numbers| == 15
    else |inode.root| >= 12 && Stored(m, inode.root, t, Half(inode.root, 6)) && Ordered(t, 0, WORD)
  }

  /** Block `n` of the file is block `raw` of the file system; zero stands for a hole. */
  ghost predicate IsAt(m: Mount, inode: Inode, t: Tree, n: nat, raw: nat)
    requires SoundInode(m, inode, t)
  {
    if inode.Numbered? then n < |Flat(m, inode.numbers)| && raw == Flat(m, inode.numbers)[n] else Mapped(t, n, raw)
  }

  /** Block `n` of the file lies within it, can be found, and can be read. */
  ghost predicate BlockOk(m: Mount, inode: Inode, t: Tree, n: nat)
    requires Sound(m) && Sized(m) && SoundInode(m, inode, t)
  {
    n < BlocksIn(inode.size, m.bs) && Gettable(m, inode, t, n) && forall raw :: IsAt(m, inode, t, n, raw) ==> NumberOk(m, raw)
  }

  ghost predicate Gettable(m: Mount, inode: Inode, t: Tree, n: nat)
    requires Sound(m) && Sized(m) && SoundInode(m, inode, t)
  {
    SomePerBlock(m);
    if inode.Numbered? then IndirectOk(m, inode.numbers, n) else Findable(m, inode.root, t, Half(inode.root, 6), n)
  }

  ghost function Content(m: Mount, raw: nat): (s: seq<Byte>)
    ensures |s| == m.bs
  {
    if raw == 0 then seq(m.bs, _ => 0) else Block(m, raw)
  }

  /** Block numbers are 32-bit numbers: the number of the block that is read for logical block `n`. */
  function Low(n: nat): nat { n % WORD }

  /** The byte that is read for offset `x` of the file is `b`. */
  ghost predicate ByteRead(m: Mount, inode: Inode, t: Tree, x: nat, b: Byte)
    requires SoundInode(m, inode, t) && m.bs > 0
  {
    exists raw :: IsAt(m, inode, t, Low(Quot(x, m.bs)), raw) && b == Content(m, raw)[Rem(x, m.bs)]
  }

  /** The byte at offset `x` of the file is `b`. */
  ghost predicate FileByte(m: Mount, inode: Inode, t: Tree, x: nat, b: Byte)
    requires SoundInode(m, inode, t) && m.bs > 0
  {
    exists raw :: IsAt(m, inode, t, Quot(x, m.bs), raw) && b == Content(m, raw)[Rem(x, m.bs)]
  }

  /** Rounding up to a multiple of `bs`, in 32 bits. */
  function RoundUp(size: nat, bs: nat): nat
    requires bs > 0
  {
    if Rem(size, bs) == 0 then size else (size - Rem(size, bs) + bs) % WORD
  }

  /** How many blocks `ext2_inode_block_read` takes a file of `size` bytes to have. */
  function BlocksIn(size: nat, bs: nat): nat requires bs > 0 { Quot(RoundUp(size, bs), bs) }

  /** The size does not fill its last block, and the end of that block is not a 32-bit number. */
  predicate RoundWraps(size: nat, bs: nat) requires bs > 0 { Rem(size, bs) != 0 && size - Rem(size, bs) + bs >= WORD }

  lemma BlocksAre(size: nat, bs: nat)
    requires size < WORD && 0 < bs < WORD
    ensures RoundWraps(size, bs) ==> BlocksIn(size, bs) == 0
    ensures !RoundWraps(size, bs) ==> BlocksIn(size, bs) == Quot(size, bs) + (if Rem(size, bs) == 0 then 0 else 1)
    ensures BlocksIn(size, bs) <= size
  {
    var q, r := Quot(size, bs), Rem(size, bs);
    QuotRem(size, bs, 0);
    TimesStep(q, bs);
    EnoughBlocks(q, bs);
    if RoundWraps(size, bs) {
      InBlock(RoundUp(size, bs), bs, 0, RoundUp(size, bs));
    } else if r != 0 {
      assert RoundUp(size, bs) == (q + 1) * bs;
      InBlock(RoundUp(size, bs), bs, q + 1, 0);
    }
  }

  /** Every byte of a file lies in a block that is taken to be part of it, unless the size wraps around
      when it is rounded up. */
  lemma AllBytesCountedIff(size: nat, bs: nat)
    requires 0 < size < WORD && 0 < bs < WORD
    ensures (forall x :: 0 <= x < size ==> Quot(x, bs) < BlocksIn(size, bs)) <==> !RoundWraps(size, bs)
  {
    BlocksAre(size, bs);
    QuotRem(size, bs, 0);
    if RoundWraps(size, bs) {
      assert !(Quot(0, bs) < BlocksIn(size, bs));
    } else {
      forall x | 0 <= x < size ensures Quot(x, bs) < BlocksIn(size, bs) {
        TimesStep(Quot(size, bs), bs);
        QuotRem(x, bs, BlocksIn(size, bs));
      }
    }
  }

  /** No block of such a file can be read: for one, if it has 2^32 - 1 bytes in blocks of 1024. */
  lemma NothingReadableIfWrapped(m: Mount, inode: Inode, t: Tree, n: nat)
    requires Sound(m) && Sized(m) && SoundInode(m, inode, t) && inode.size < WORD && m.bs < WORD && RoundWraps(inode.size, m.bs)
    ensures !BlockOk(m, inode, t, n) && RoundWraps(WORD - 1, 1024)
  {
    BlocksAre(inode.size, m.bs);
  }

  /** `ext2_inode_block_get` */
  method GetBlock(m: Mount, inode: Inode, block: nat, ghost t: Tree) returns (ok: bool, raw: nat)
    requires Sound(m) && Sized(m) && SoundInode(m, inode, t)
    ensures ok <==> Gettable(m, inode, t, block)
    ensures ok ==> IsAt(m, inode, t, block, raw)
  {
    SomePerBlock(m);
    hide Sound, Sized, Stored, Ordered, Mapped, Half, Flat, Block, Findable, IndirectOk;
    if inode.Numbered? {
      ok, raw := IndirectGet(m, inode.numbers, block);
    } else {
      ok, raw := ExtentGet(m, inode.root, block, t);
    }
  }

  /** A sparse block reads as zeros. */
  method ZeroBlock(m: Mount, buf: array<Byte>, pos: nat)
    requires pos + m.bs <= buf.Length
    modifies buf
    ensures HasAt(buf[..], pos, Content(m, 0))
    ensures forall i :: 0 <= i < buf.Length && !(pos <= i < pos + m.bs) ==> buf[i] == old(buf[i])
  {
    forall i | pos <= i < pos + m.bs {
      buf[i] := 0;
    }
    assert buf[..][pos..pos + m.bs] == Content(m, 0);
  }

  /** `ext2_inode_block_read` into `buf` at `pos` */
  method ReadInodeBlock(m: Mount, inode: Inode, buf: array<Byte>, pos: nat, block: nat, ghost t: Tree) returns (ok: bool)
    requires Sound(m) && Sized(m) && SoundInode(m, inode, t) && pos + m.bs <= buf.Length
    modifies buf
    ensures ok <==> BlockOk(m, inode, t, block)
    ensures ok ==> exists raw :: IsAt(m, inode, t, block, raw) && HasAt(buf[..], pos, Content(m, raw))
    ensures forall i :: 0 <= i < buf.Length && !(pos <= i < pos + m.bs) ==> buf[i] == old(buf[i])
  {
    hide Sound, SoundInode, IsAt, BlocksIn, HasAt, Block, Gettable, Readable;
    if block >= BlocksIn(inode.size, m.bs) {
      return false;
    }
    var raw;
    ok, raw := GetBlock(m, inode, block, t);
    if !ok {
      return;
    }
    forall raw' | IsAt(m, inode, t, block, raw') ensures raw' == raw {
      IsAtUnique(m, inode, t, block, raw, raw');
    }
    if raw == 0 {
      ZeroBlock(m, buf, pos);
    } else {
      ok := ReadBlock(m, buf, pos, raw);
    }
    assert ok ==> IsAt(m, inode, t, block, raw) && HasAt(buf[..], pos, Content(m, raw));
  }

  // ---------------------------------------------------------------- reading a file

  /** From `base` on, `s` holds the `n` bytes that are read for offset `x` of the file. */
  ghost predicate Holds(s: seq<Byte>, base: nat, m: Mount, inode: Inode, t: Tree, x: nat, n: nat)
    requires SoundInode(m, inode, t) && m.bs > 0
  {
    base + n <= |s| && forall i :: base <= i < base + n ==> ByteRead(m, inode, t, x + (i - base), s[i])
  }

  /** Part of a block of the file, copied to `base`. */
  lemma BlockHolds(s: seq<Byte>, base: nat, m: Mount, inode: Inode, t: Tree, block: nat, skip: nat, size: nat, raw: nat)
    requires SoundInode(m, inode, t) && m.bs > 0 && skip + size <= m.bs && base + size <= |s|
    requires IsAt(m, inode, t, Low(block), raw) && s[base..base + size] == Content(m, raw)[skip..skip + size]
    ensures Holds(s, base, m, inode, t, Times(block, m.bs) + skip, size)
  {
    hide SoundInode, IsAt, Content;
    forall i | base <= i < base + size ensures ByteRead(m, inode, t, Times(block, m.bs) + skip + (i - base), s[i]) {
      var r := skip + (i - base);
      InBlock(Times(block, m.bs) + r, m.bs, block, r);
      assert s[base..base + size][i - base] == Content(m, raw)[skip..skip + size][i - base];
      assert IsAt(m, inode, t, Low(Quot(Times(block, m.bs) + r, m.bs)), raw);
    }
  }

  lemma HoldsTwice(s: seq<Byte>, base: nat, m: Mount, inode: Inode, t: Tree, x: nat, n: nat, more: nat)
    requires SoundInode(m, inode, t) && m.bs > 0
    requires Holds(s, base, m, inode, t, x, n) && Holds(s, base + n, m, inode, t, x + n, more)
    ensures Holds(s, base, m, inode, t, x, n + more)
  {
    hide SoundInode, ByteRead;
    forall i | base <= i < base + n + more ensures ByteRead(m, inode, t, x + (i - base), s[i]) {
      assert i >= base + n ==> x + n + (i - (base + n)) == x + (i - base);
    }
  }

  lemma HoldsNothing(s: seq<Byte>, m: Mount, inode: Inode, t: Tree, x: nat)
    requires SoundInode(m, inode, t) && m.bs > 0
    ensures Holds(s, 0, m, inode, t, x, 0)
  {
  }

  lemma HoldsFrame(s: seq<Byte>, s': seq<Byte>, base: nat, m: Mount, inode: Inode, t: Tree, x: nat, n: nat)
    requires SoundInode(m, inode, t) && m.bs > 0
    requires Holds(s, base, m, inode, t, x, n) && |s| == |s'| && forall i :: base <= i < base + n ==> s'[i] == s[i]
    ensures Holds(s', base, m, inode, t, x, n)
  {
    hide SoundInode, ByteRead;
  }

  /** A part of a block behind what is there already. */
  lemma PartAppended(s0: seq<Byte>, s: seq<Byte>, m: Mount, inode: Inode, t: Tree, offset: nat, at: nat, block: nat, skip: nat, size: nat, raw: nat)
    requires SoundInode(m, inode, t) && m.bs > 0 && Holds(s0, 0, m, inode, t, offset, at) && |s0| == |s|
    requires forall i :: 0 <= i < at ==> s[i] == s0[i]
    requires skip + size <= m.bs && at + size <= |s| && Times(block, m.bs) + skip == offset + at
    requires IsAt(m, inode, t, Low(block), raw) && s[at..at + size] == Content(m, raw)[skip..skip + size]
    ensures Holds(s, 0, m, inode, t, offset, at + size)
  {
    hide SoundInode, Holds, IsAt, Content, Times;
    BlockHolds(s, at, m, inode, t, block, skip, size, raw);
    HoldsFrame(s0, s, 0, m, inode, t, offset, at);
    HoldsTwice(s, 0, m, inode, t, offset, at, size);
  }

  lemma BlockAppended(s0: seq<Byte>, s: seq<Byte>, m: Mount, inode: Inode, t: Tree, offset: nat, at: nat, block: nat, raw: nat)
    requires SoundInode(m, inode, t) && m.bs > 0 && Holds(s0, 0, m, inode, t, offset, at) && |s0| == |s|
    requires forall i :: 0 <= i < at ==> s[i] == s0[i]
    requires at + m.bs <= |s| && Times(block, m.bs) == offset + at && IsAt(m, inode, t, Low(block), raw) && HasAt(s, at, Content(m, raw))
    ensures Holds(s, 0, m, inode, t, offset, at + m.bs)
  {
    hide SoundInode, Holds, IsAt, Content, Times;
    assert Content(m, raw)[0..m.bs] == Content(m, raw);
    PartAppended(s0, s, m, inode, t, offset, at, block, 0, m.bs, raw);
  }

  /** Appends `size` bytes of a block from `skip` on, through the temporary buffer. */
  method AppendPart(m: Mount, inode: Inode, buf: array<Byte>, tmp: array<Byte>, ghost offset: nat, at: nat, block: nat, skip: nat, size: nat,
                    ghost t: Tree) returns (ok: bool)
    requires Sound(m) && Sized(m) && SoundInode(m, inode, t) && tmp.Length == m.bs && tmp != buf
    requires skip + size <= m.bs && at + size <= buf.Length && Times(block, m.bs) + skip == offset + at
    requires Holds(buf[..], 0, m, inode, t, offset, at)
    modifies buf, tmp
    ensures ok <==> BlockOk(m, inode, t, Low(block))
    ensures ok ==> Holds(buf[..], 0, m, inode, t, offset, at + size)
    ensures forall i :: at + size <= i < buf.Length ==> buf[i] == old(buf[i])
  {
    hide Sound, SoundInode, Holds, IsAt, Content, Times, HasAt, BlockOk;
    ghost var s0 := buf[..];
    ok := ReadInodeBlock(m, inode, tmp, 0, Low(block), t);
    if ok {
      ghost var raw :| IsAt(m, inode, t, Low(block), raw) && HasAt(tmp[..], 0, Content(m, raw));
      ghost var full := tmp[..];
      HasWhole(full, Content(m, raw));
      forall i | at <= i < at + size {
        buf[i] := tmp[skip + (i - at)];
      }
      assert buf[..][at..at + size] == full[skip..skip + size];
      PartAppended(s0, buf[..], m, inode, t, offset, at, block, skip, size, raw);
    }
  }

  /** Appends a whole block, read into the destination directly. */
  method AppendBlock(m: Mount, inode: Inode, buf: array<Byte>, ghost offset: nat, at: nat, block: nat, ghost t: Tree) returns (ok: bool)
    requires Sound(m) && Sized(m) && SoundInode(m, inode, t) && at + m.bs <= buf.Length && Times(block, m.bs) == offset + at
    requires Holds(buf[..], 0, m, inode, t, offset, at)
    modifies buf
    ensures ok <==> BlockOk(m, inode, t, Low(block))
    ensures ok ==> Holds(buf[..], 0, m, inode, t, offset, at + m.bs)
    ensures forall i :: at + m.bs <= i < buf.Length ==> buf[i] == old(buf[i])
  {
    hide Sound, SoundInode, Holds, IsAt, Content, Times, HasAt, BlockOk;
    ghost var s0 := buf[..];
    ok := ReadInodeBlock(m, inode, buf, at, Low(block), t);
    if ok {
      ghost var raw :| IsAt(m, inode, t, Low(block), raw) && HasAt(buf[..], at, Content(m, raw));
      BlockAppended(s0, buf[..], m, inode, t, offset, at, block, raw);
    }
  }

  /** The blocks that are read for `n` blocks of the file from `first` on can be read. */
  ghost predicate AllOk(m: Mount, inode: Inode, t: Tree, first: nat, n: nat)
    requires Sound(m) && Sized(m) && SoundInode(m, inode, t)
  {
    forall b :: first <= b < first + n ==> BlockOk(m, inode, t, Low(b))
  }

  lemma AllOkSplit(m: Mount, inode: Inode, t: Tree, first: nat, n: nat)
    requires Sound(m) && Sized(m) && SoundInode(m, inode, t)
    ensures AllOk(m, inode, t, first, 0)
    ensures AllOk(m, inode, t, first, n + 1) <==> BlockOk(m, inode, t, Low(first)) && AllOk(m, inode, t, first + 1, n)
  {
    hide Sound, Sized, SoundInode, BlockOk;
    assert AllOk(m, inode, t, first, n + 1) ==> BlockOk(m, inode, t, Low(first));
  }

  /** `ext2_read`; callers do not ask for zero bytes. */
  method ReadFile(m: Mount, inode: Inode, buf: array<Byte>, count: nat, offset: nat, ghost t: Tree) returns (ok: bool)
    requires Sound(m) && Sized(m) && SoundInode(m, inode, t) && 0 < count <= buf.Length
    modifies buf
    ensures Quot(offset, m.bs) <= Quot(offset + count - 1, m.bs)
    ensures ok <==> AllOk(m, inode, t, Quot(offset, m.bs), Quot(offset + count - 1, m.bs) + 1 - Quot(offset, m.bs))
    ensures ok ==> Holds(buf[..], 0, m, inode, t, offset, count)
    ensures forall i :: count <= i < buf.Length ==> buf[i] == old(buf[i])
  {
    hide Sound, SoundInode, Holds, Times, Quot, Rem, AllOk, BlockOk, BlockSize;
    var n := m.bs;
    HoldsNothing(buf[..], m, inode, t, offset);
    EnoughBlocks(offset + count, n);
    Span(offset, count, n, offset + count);
    var start, end, skip := Quot(offset, n), Quot(offset + (count - 1), n), Rem(offset, n);
    AllOkSplit(m, inode, t, start, end - start);
    AllOkSplit(m, inode, t, start + 1, 0);
    var tmp: array?<Byte> := null;
    if skip != 0 || Rem(count, n) != 0 {
      tmp := new Byte[n];
    }
    var pos := 0;
    if skip != 0 {
      var size := if start == end then count else n - skip;
      ok := AppendPart(m, inode, buf, tmp, offset, 0, start, skip, size, t);
      if !ok {
        return;
      }
      pos, start := size, start + 1;
    }
    if pos == count {
      return true;
    }
    ok := ReadRestOfFile(m, inode, buf, tmp, count, offset, pos, start, t);
  }

  /** The last part of `ext2_read`: full blocks, and anything that is left. */
  method ReadRestOfFile(m: Mount, inode: Inode, buf: array<Byte>, tmp: array?<Byte>, count: nat, ghost offset: nat, at: nat, from: nat,
                        ghost t: Tree) returns (ok: bool)
    requires Sound(m) && Sized(m) && SoundInode(m, inode, t) && at < count <= buf.Length && Times(from, m.bs) == offset + at
    requires Rem(count - at, m.bs) != 0 ==> tmp != null && tmp.Length == m.bs && tmp != buf
    requires Holds(buf[..], 0, m, inode, t, offset, at)
    modifies buf, tmp
    ensures from <= Quot(offset + count - 1, m.bs)
    ensures ok <==> AllOk(m, inode, t, from, Quot(offset + count - 1, m.bs) + 1 - from)
    ensures ok ==> Holds(buf[..], 0, m, inode, t, offset, count)
    ensures forall i :: count <= i < buf.Length ==> buf[i] == old(buf[i])
  {
    hide Sound, SoundInode, Holds, Times, Quot, Rem, AllOk, BlockOk, BlockSize;
    var n := m.bs;
    EnoughBlocks(offset + count, n);
    Remaining(offset, count, n, offset + count, from, count - at);
    var size, tail := Quot(count - at, n), Rem(count - at, n);
    TimesStep(0, n);
    ghost var all := Quot(offset + count - 1, n) + 1 - from;
    var i, pos, start := 0, at, from;
    while i < size
      invariant i <= size && pos == at + Times(i, n) && Times(start, n) == offset + pos && start == from + i
      invariant pos + Times(size - i, n) + tail == count
      invariant Holds(buf[..], 0, m, inode, t, offset, pos)
      invariant AllOk(m, inode, t, from, all) <==> AllOk(m, inode, t, start, all - i)
      invariant forall j :: count <= j < buf.Length ==> buf[j] == old(buf[j])
    {
      TimesStep(size - i - 1, n);
      TimesStep(i, n);
      TimesStep(start, n);
      AllOkSplit(m, inode, t, start, all - i - 1);
      ok := AppendBlock(m, inode, buf, offset, pos, start, t);
      if !ok {
        return;
      }
      i, pos, start := i + 1, pos + n, start + 1;
    }
    AllOkSplit(m, inode, t, start, 0);
    AllOkSplit(m, inode, t, start + 1, 0);
    if tail > 0 {
      ok := AppendPart(m, inode, buf, tmp, offset, pos, start, 0, tail, t);
    } else {
      ok := true;
    }
  }

  lemma EnoughBlocks(x: nat, n: nat)
    requires n > 0
    ensures x <= Times(x, n)
  {
    MulMonotone(1, n, x);
  }

  /** The bytes read are the bytes of the file, if no block number wraps around. */
  lemma HoldsIsSlice(s: seq<Byte>, m: Mount, inode: Inode, t: Tree, offset: nat, count: nat, i: nat)
    requires SoundInode(m, inode, t) && m.bs > 0 && Holds(s, 0, m, inode, t, offset, count) && i < count
    requires Quot(offset + count - 1, m.bs) < WORD
    ensures FileByte(m, inode, t, offset + i, s[i])
  {
    hide Quot, Rem, IsAt, SoundInode, Content;
    QuotGrows(offset + i, offset + count - 1, m.bs);
    assert ByteRead(m, inode, t, offset + (i - 0), s[i]);
    assert Low(Quot(offset + i, m.bs)) == Quot(offset + i, m.bs);
  }

  lemma QuotGrows(x: nat, y: nat, n: nat)
    requires n > 0 && x <= y
    ensures Quot(x, n) <= Quot(y, n)
  {
    hide Quot, Rem, Times;
    QuotRem(x, n, 0);
    QuotRem(y, n, 0);
    TimesOrder(Quot(x, n), Quot(y, n), n);
  }

  /** A read that succeeds is one of blocks of the file exactly when no block number wraps around. */
  lemma SuccessIsWithinIff(m: Mount, inode: Inode, t: Tree, first: nat, last: nat)
    requires Sound(m) && Sized(m) && SoundInode(m, inode, t) && inode.size < WORD && m.bs < WORD
    requires first <= last && AllOk(m, inode, t, first, last + 1 - first)
    ensures last < BlocksIn(inode.size, m.bs) <==> last < WORD
  {
    BlocksAre(inode.size, m.bs);
    hide Sound, Sized, SoundInode, BlocksIn;
    assert BlockOk(m, inode, t, Low(last));
  }

  lemma OkIsWithin(m: Mount, inode: Inode, t: Tree, n: nat)
    requires Sound(m) && Sized(m) && SoundInode(m, inode, t) && BlockOk(m, inode, t, n)
    ensures n < BlocksIn(inode.size, m.bs)
  {
    hide Sound, SoundInode, IsAt, BlocksIn, Block, Gettable, Readable;
  }

  lemma LowWraps(n: nat)
    requires n < WORD
    ensures Low(WORD + n) == n
  {
  }

  /** And one that wraps around does succeed: behind 2^32 blocks the file starts over. */
  lemma WrappedReadSucceeds(m: Mount, inode: Inode, t: Tree, n: nat)
    requires Sound(m) && Sized(m) && SoundInode(m, inode, t) && inode.size < WORD && m.bs < WORD && BlockOk(m, inode, t, n)
    ensures AllOk(m, inode, t, WORD + n, 1) && !(WORD + n < BlocksIn(inode.size, m.bs))
  {
    hide Sound, SoundInode, BlocksIn, BlockOk, Low, RoundWraps, Quot, Rem;
    BlocksAre(inode.size, m.bs);
    OkIsWithin(m, inode, t, n);
    LowWraps(n);
  }

  /** The byte of the file at an offset is determined. */
  lemma FileByteUnique(m: Mount, inode: Inode, t: Tree, x: nat, b: Byte, c: Byte)
    requires SoundInode(m, inode, t) && m.bs > 0 && FileByte(m, inode, t, x, b) && FileByte(m, inode, t, x, c)
    ensures b == c
  {
    var n := Quot(x, m.bs);
    var raw :| IsAt(m, inode, t, n, raw) && b == Content(m, raw)[Rem(x, m.bs)];
    var raw' :| IsAt(m, inode, t, n, raw') && c == Content(m, raw')[Rem(x, m.bs)];
    IsAtUnique(m, inode, t, n, raw, raw');
  }

  lemma IsAtUnique(m: Mount, inode: Inode, t: Tree, n: nat, raw: nat, raw': nat)
    requires SoundInode(m, inode, t) && IsAt(m, inode, t, n, raw) && IsAt(m, inode, t, n, raw')
    ensures raw == raw'
  {
    if inode.Extended? {
      MappedUnique(t, 0, WORD, n, raw, raw');
    }
  }

  lemma MappedUnique(t: Tree, lo: nat, hi: nat, n: nat, raw: nat, raw': nat)
    requires Ordered(t, lo, hi) && Mapped(t, n, raw) && Mapped(t, n, raw')
    ensures raw == raw'
  {
    hide Has, Ordered, Covers;
    if e :| Has(t, e) && Covers(e, n) && raw == e.start + (n - e.block) {
      var e' :| Has(t, e') && Covers(e', n) && raw' == e'.start + (n - e'.block);
      CoverUnique(t, lo, hi, n, e, e');
    }
  }

  lemma {:induction false} CoverUnique(t: Tree, lo: nat, hi: nat, n: nat, e: Extent, e': Extent)
    requires Ordered(t, lo, hi) && Has(t, e) && Has(t, e') && Covers(e, n) && Covers(e', n)
    ensures e == e'
    decreases t
  {
    if t.Leaf? {
      var i :| 0 <= i < |t.extents| && t.extents[i] == e;
      var j :| 0 <= j < |t.extents| && t.extents[j] == e';
      assert i < j ==> e.block + e.len <= e'.block;
      assert j < i ==> e'.block + e'.len <= e.block;
    } else {
      var i :| 0 <= i < |t.kids| && Has(t.kids[i], e);
      var j :| 0 <= j < |t.kids| && Has(t.kids[j], e');
      KidOrdered(t, lo, hi, i);
      Inside(t.kids[i], t.keys[i], Next(t.keys, i, hi), e);
      if i == j {
        CoverUnique(t.kids[i], t.keys[i], Next(t.keys, i, hi), n, e, e');
      } else {
        OtherChild(t, lo, hi, n, i, j, e');
      }
    }
  }
}
