/**
 How block numbers and extents are laid out on the disk, byte by byte, and that the boot loader reads
 them as they were written.
 */
module Ext2Layout {
  import opened BlockDevice
  import opened Ext2

  // ---------------------------------------------------------------- numbers

  /** A number in two bytes, the low one first. */
  function Little2(n: nat): seq<Byte> { [(n % 256) as Byte, (n / 256 % 256) as Byte] }

  /** A number in four bytes, the low one first. */
  function Little4(n: nat): seq<Byte>
  {
    [(n % 256) as Byte, (n / 256 % 256) as Byte, (n / 0x10000 % 256) as Byte, (n / 0x100_0000 % 256) as Byte]
  }

  /** Reading back a 16-bit number. */
  lemma HalfReadsBack(s: seq<Byte>, o: nat, n: nat)
    requires n < 0x10000 && HasAt(s, o, Little2(n))
    ensures Half(s, o) == n
  {
    var t := s[o..o + 2];
    assert s[o] == t[0] && s[o + 1] == t[1];
  }

  /** Reading back a 32-bit number. */
  lemma WordReadsBack(s: seq<Byte>, o: nat, n: nat)
    requires n < WORD && HasAt(s, o, Little4(n))
    ensures Word(s, o) == n
  {
    var t := s[o..o + 4];
    assert s[o] == t[0] && s[o + 1] == t[1] && s[o + 2] == t[2] && s[o + 3] == t[3];
    FourDigits(n);
  }

  lemma FourDigits(n: nat)
    requires n < WORD
    ensures n == n % 256 + 256 * (n / 256 % 256) + 0x10000 * (n / 0x10000 % 256) + 0x100_0000 * (n / 0x100_0000 % 256)
  {
    assert n / 0x10000 == n / 256 / 256 && n / 0x100_0000 == n / 0x10000 / 256;
  }

  // ---------------------------------------------------------------- records

  function Concat(parts: seq<seq<Byte>>): seq<Byte> { if parts == [] then [] else parts[0] + Concat(parts[1..]) }

  /** Records of one size lie one behind the other. */
  lemma {:induction false} ConcatAt(parts: seq<seq<Byte>>, w: nat, k: nat)
    requires (forall i :: 0 <= i < |parts| ==> |parts[i]| == w) && k < |parts|
    ensures |Concat(parts)| == |parts| * w && HasAt(Concat(parts), k * w, parts[k])
  {
    ConcatLength(parts, w);
    var rest := Concat(parts[1..]);
    assert Concat(parts) == parts[0] + rest;
    if k > 0 {
      ConcatAt(parts[1..], w, k - 1);
      assert k * w == (k - 1) * w + w;
      assert (parts[0] + rest)[k * w..k * w + w] == rest[(k - 1) * w..(k - 1) * w + w];
    }
  }

  lemma {:induction false} ConcatLength(parts: seq<seq<Byte>>, w: nat)
    requires forall i :: 0 <= i < |parts| ==> |parts[i]| == w
    ensures |Concat(parts)| == |parts| * w
  {
    if parts != [] {
      ConcatLength(parts[1..], w);
    }
  }

  lemma HasWithin(s: seq<Byte>, pos: nat, t: seq<Byte>, o: nat, u: seq<Byte>)
    requires HasAt(s, pos, t) && HasAt(t, o, u)
    ensures HasAt(s, pos + o, u)
  {
    forall j | 0 <= j < |u| ensures s[pos + o..pos + o + |u|][j] == u[j] {
      assert s[pos..pos + |t|][o + j] == t[o + j] && t[o..o + |u|][j] == u[j];
    }
  }

  /** The bytes from the start of block `num` of the file system on. */
  ghost predicate Written(m: Mount, num: nat, bytes: seq<Byte>)
  {
    |bytes| <= m.bs && forall j :: 0 <= j < |bytes| ==> ByteAt(m.disk, num * m.bs + j) == bytes[j]
  }

  lemma BlockHas(m: Mount, num: nat, bytes: seq<Byte>)
    requires Written(m, num, bytes)
    ensures HasAt(Block(m, num), 0, bytes)
  {
    assert Times(num, m.bs) == num * m.bs;
    forall j | 0 <= j < |bytes| ensures Block(m, num)[0..|bytes|][j] == bytes[j] {
      assert Block(m, num)[j] == ByteAt(m.disk, Times(num, m.bs) + j);
    }
  }

  // ---------------------------------------------------------------- indirect blocks

  function NumberRecords(nums: seq<nat>): seq<seq<Byte>> { seq(|nums|, i requires 0 <= i < |nums| => Little4(nums[i])) }

  ghost predicate AllWords(nums: seq<nat>) { forall i :: 0 <= i < |nums| ==> nums[i] < WORD }

  /** An indirect block is read as the numbers written to it. */
  lemma NumbersReadBack(m: Mount, num: nat, nums: seq<nat>)
    requires num != 0 && |nums| == PerBlock(m) && AllWords(nums) && Written(m, num, Concat(NumberRecords(nums)))
    ensures Numbers(m, num) == nums
  {
    var parts := NumberRecords(nums);
    BlockHas(m, num, Concat(parts));
    hide Word, Little4;
    forall k | 0 <= k < |nums| ensures Numbers(m, num)[k] == nums[k] {
      assert |parts[k]| == 4 by { LittleLengths(nums[k]); }
      forall i | 0 <= i < |parts| ensures |parts[i]| == 4 { LittleLengths(nums[i]); }
      ConcatAt(parts, 4, k);
      HasWithin(Block(m, num), 0, Concat(parts), k * 4, parts[k]);
      WordReadsBack(Block(m, num), 4 * k, nums[k]);
    }
  }

  lemma LittleLengths(n: nat)
    ensures |Little2(n)| == 2 && |Little4(n)| == 4
  {
  }

  /** Where block `n` of a file is: in one of the twelve direct numbers, in the block that the
      thirteenth names, or in a block named in the block that the fourteenth names. */
  lemma IndirectLookup(m: Mount, inode: seq<nat>, nums: seq<nat>, k: nat)
    requires |inode| == 15 && inode[12] != 0 && |nums| == PerBlock(m) && AllWords(nums)
    requires Written(m, inode[12], Concat(NumberRecords(nums))) && k < PerBlock(m)
    ensures 12 + k < |Flat(m, inode)| && Flat(m, inode)[12 + k] == nums[k]
    ensures k < 12 ==> Flat(m, inode)[k] == inode[k]
  {
    NumbersReadBack(m, inode[12], nums);
    FlatAt(m, inode, 12 + k);
    FlatAt(m, inode, k);
  }

  lemma DoubleLookup(m: Mount, inode: seq<nat>, outer: seq<nat>, inner: seq<nat>, q: nat, r: nat, n: nat)
    requires |inode| == 15 && inode[13] != 0 && |outer| == |inner| == PerBlock(m) && AllWords(outer) && AllWords(inner)
    requires q < PerBlock(m) && r < PerBlock(m) && outer[q] != 0 && n == 12 + PerBlock(m) + Times(q, PerBlock(m)) + r
    requires Written(m, inode[13], Concat(NumberRecords(outer))) && Written(m, outer[q], Concat(NumberRecords(inner)))
    ensures n < |Flat(m, inode)| && Flat(m, inode)[n] == inner[r]
  {
    hide Times, PerBlock, Flat, Written, Numbers, Joined, AllWords;
    NumbersReadBack(m, inode[13], outer);
    NumbersReadBack(m, outer[q], inner);
    JoinedAt(m, outer, q, r);
    FlatAt(m, inode, n);
  }

  // ---------------------------------------------------------------- extents

  /** The header of a node: magic number, entries, capacity, depth and generation. */
  function HeaderBytes(entries: nat, max: nat, depth: nat, generation: nat): seq<Byte>
  {
    Little2(0xF30A) + Little2(entries) + Little2(max) + Little2(depth) + Little4(generation)
  }

  /** First block of the file, length, and where it starts: the high half, which is zero, and the low word. */
  function ExtentBytes(e: Extent): seq<Byte> { Little4(e.block) + Little2(e.len) + Little2(0) + Little4(e.start) }

  /** First block of the file, the block of the next level, its high half, which is zero, and a filler. */
  function IndexBytes(key: nat, leaf: nat): seq<Byte> { Little4(key) + Little4(leaf) + Little2(0) + Little2(0) }

  function ExtentRecords(es: seq<Extent>): seq<seq<Byte>> { seq(|es|, i requires 0 <= i < |es| => ExtentBytes(es[i])) }

  function IndexRecords(keys: seq<nat>, leaves: seq<nat>): seq<seq<Byte>>
    requires |keys| == |leaves|
  {
    seq(|keys|, i requires 0 <= i < |keys| => IndexBytes(keys[i], leaves[i]))
  }

  lemma HeaderReadsBack(s: seq<Byte>, entries: nat, max: nat, depth: nat, generation: nat)
    requires entries < 0x10000 && depth < 0x10000 && 12 + 12 * entries <= |s| && HasAt(s, 0, HeaderBytes(entries, max, depth, generation))
    ensures Header(s, entries, depth)
  {
    var h := HeaderBytes(entries, max, depth, generation);
    assert h[0..2] == Little2(0xF30A) && h[2..4] == Little2(entries) && h[6..8] == Little2(depth);
    HasWithin(s, 0, h, 0, Little2(0xF30A));
    HasWithin(s, 0, h, 2, Little2(entries));
    HasWithin(s, 0, h, 6, Little2(depth));
    hide Little2, Little4, Half;
    HalfReadsBack(s, 0, 0xF30A);
    HalfReadsBack(s, 2, entries);
    HalfReadsBack(s, 6, depth);
  }

  lemma ExtentReadsBack(s: seq<Byte>, i: nat, e: Extent)
    requires e.block < WORD && e.len < 0x10000 && e.start < WORD && HasAt(s, 12 + 12 * i, ExtentBytes(e))
    ensures 24 + 12 * i <= |s| && ExtentAt(s, i, e)
  {
    var h, o := ExtentBytes(e), 12 + 12 * i;
    assert h[0..4] == Little4(e.block) && h[4..6] == Little2(e.len) && h[6..8] == Little2(0) && h[8..12] == Little4(e.start);
    HasWithin(s, o, h, 0, Little4(e.block));
    HasWithin(s, o, h, 4, Little2(e.len));
    HasWithin(s, o, h, 6, Little2(0));
    HasWithin(s, o, h, 8, Little4(e.start));
    assert |h| == 12;
    hide Little2, Little4, Half, Word;
    WordReadsBack(s, o, e.block);
    HalfReadsBack(s, o + 4, e.len);
    HalfReadsBack(s, o + 6, 0);
    WordReadsBack(s, o + 8, e.start);
  }

  lemma IndexReadsBack(s: seq<Byte>, i: nat, key: nat, leaf: nat)
    requires key < WORD && leaf < WORD && HasAt(s, 12 + 12 * i, IndexBytes(key, leaf))
    ensures 24 + 12 * i <= |s| && Key(s, i) == key && Word(s, 16 + 12 * i) == leaf
  {
    var h, o := IndexBytes(key, leaf), 12 + 12 * i;
    assert h[0..4] == Little4(key) && h[4..8] == Little4(leaf);
    HasWithin(s, o, h, 0, Little4(key));
    HasWithin(s, o, h, 4, Little4(leaf));
    assert |h| == 12;
    hide Little2, Little4, Half, Word;
    WordReadsBack(s, o, key);
    WordReadsBack(s, o + 4, leaf);
  }

  lemma RecordAt(s: seq<Byte>, parts: seq<seq<Byte>>, i: nat)
    requires HasAt(s, 12, Concat(parts)) && i < |parts| && forall k :: 0 <= k < |parts| ==> |parts[k]| == 12
    ensures 12 + 12 * |parts| <= |s| && HasAt(s, 12 + 12 * i, parts[i])
  {
    ConcatAt(parts, 12, i);
    HasWithin(s, 12, Concat(parts), i * 12, parts[i]);
  }

  ghost predicate SmallExtents(es: seq<Extent>)
  {
    |es| < 0x10000 && forall i :: 0 <= i < |es| ==> es[i].block < WORD && es[i].len < 0x10000 && es[i].start < WORD
  }

  /** A leaf as it is written. */
  function LeafBytes(es: seq<Extent>, max: nat, generation: nat): seq<Byte>
  {
    HeaderBytes(|es|, max, 0, generation) + Concat(ExtentRecords(es))
  }

  /** An index node as it is written. */
  function NodeBytes(keys: seq<nat>, leaves: seq<nat>, max: nat, depth: nat, generation: nat): seq<Byte>
    requires |keys| == |leaves|
  {
    HeaderBytes(|keys|, max, depth, generation) + Concat(IndexRecords(keys, leaves))
  }

  lemma HeaderThen(s: seq<Byte>, header: seq<Byte>, rest: seq<Byte>)
    requires HasAt(s, 0, header + rest) && |header| == 12
    ensures HasAt(s, 0, header) && HasAt(s, 12, rest)
  {
    assert (header + rest)[0..12] == header && (header + rest)[12..12 + |rest|] == rest;
    HasWithin(s, 0, header + rest, 0, header);
    HasWithin(s, 0, header + rest, 12, rest);
  }

  /** A leaf is read as the extents written to it. */
  lemma LeafReadsBack(m: Mount, s: seq<Byte>, es: seq<Extent>, max: nat, generation: nat)
    requires SmallExtents(es) && HasAt(s, 0, LeafBytes(es, max, generation))
    ensures Stored(m, s, Leaf(es), 0)
  {
    var parts := ExtentRecords(es);
    HeaderThen(s, HeaderBytes(|es|, max, 0, generation), Concat(parts));
    ConcatLength(parts, 12);
    HeaderReadsBack(s, |es|, max, 0, generation);
    hide HeaderBytes, ExtentBytes, ExtentAt, Header, Block;
    forall i | 0 <= i < |es| ensures ExtentAt(s, i, es[i]) {
      forall k | 0 <= k < |parts| ensures |parts[k]| == 12 { ExtentLength(es[k]); }
      RecordAt(s, parts, i);
      ExtentReadsBack(s, i, es[i]);
    }
  }

  lemma ExtentLength(e: Extent)
    ensures |ExtentBytes(e)| == 12
  {
  }

  /** An index node is read as the keys and blocks written to it. */
  lemma NodeReadsBack(m: Mount, s: seq<Byte>, keys: seq<nat>, leaves: seq<nat>, kids: seq<Tree>, max: nat, depth: nat, generation: nat)
    requires |keys| == |leaves| == |kids| < 0x10000 && 0 < depth < 0x10000 && AllWords(keys) && AllWords(leaves)
    requires HasAt(s, 0, NodeBytes(keys, leaves, max, depth, generation))
    requires forall i :: 0 <= i < |kids| ==> Stored(m, Block(m, leaves[i]), kids[i], depth - 1)
    ensures Stored(m, s, Index(keys, kids), depth)
  {
    var parts := IndexRecords(keys, leaves);
    HeaderThen(s, HeaderBytes(|keys|, max, depth, generation), Concat(parts));
    ConcatLength(parts, 12);
    HeaderReadsBack(s, |keys|, max, depth, generation);
    hide HeaderBytes, IndexBytes, Header, Block, Word, Key;
    forall i | 0 <= i < |kids| ensures Key(s, i) == keys[i] && Stored(m, Block(m, Word(s, 16 + 12 * i)), kids[i], depth - 1) {
      forall k | 0 <= k < |parts| ensures |parts[k]| == 12 { IndexLength(keys[k], leaves[k]); }
      RecordAt(s, parts, i);
      IndexReadsBack(s, i, keys[i], leaves[i]);
    }
  }

  lemma IndexLength(key: nat, leaf: nat)
    ensures |IndexBytes(key, leaf)| == 12
  {
  }

  /** `s` starts with the root of the tree as it is written, and the blocks it names with its children. */
  ghost predicate WrittenTree(m: Mount, s: seq<Byte>, t: Tree, depth: nat)
    decreases t
  {
    match t
    case Leaf(es) => depth == 0 && SmallExtents(es) && exists max: nat, generation: nat :: HasAt(s, 0, LeafBytes(es, max, generation))
    case Index(keys, kids) =>
      0 < depth < 0x10000 && |keys| == |kids| < 0x10000 && AllWords(keys) &&
      exists leaves: seq<nat>, max: nat, generation: nat ::
        |leaves| == |keys| && AllWords(leaves) && HasAt(s, 0, NodeBytes(keys, leaves, max, depth, generation)) &&
        forall i :: 0 <= i < |kids| ==> WrittenTree(m, Block(m, leaves[i]), kids[i], depth - 1)
    case Broken => |s| >= 12 && s[0..2] != Little2(0xF30A)
  }

  /** A tree of any depth is read as it was written. */
  lemma {:induction false} TreeReadsBack(m: Mount, s: seq<Byte>, t: Tree, depth: nat)
    requires WrittenTree(m, s, t, depth)
    ensures Stored(m, s, t, depth)
    decreases t
  {
    hide LeafBytes, NodeBytes, HasAt, Stored, Block;
    match t
    case Leaf(es) =>
      var max: nat, generation: nat :| HasAt(s, 0, LeafBytes(es, max, generation));
      LeafReadsBack(m, s, es, max, generation);
    case Index(keys, kids) =>
      var leaves: seq<nat>, max: nat, generation: nat :|
        |leaves| == |keys| && AllWords(leaves) && HasAt(s, 0, NodeBytes(keys, leaves, max, depth, generation)) &&
        forall i :: 0 <= i < |kids| ==> WrittenTree(m, Block(m, leaves[i]), kids[i], depth - 1);
      forall i | 0 <= i < |kids| ensures Stored(m, Block(m, leaves[i]), kids[i], depth - 1) {
        TreeReadsBack(m, Block(m, leaves[i]), kids[i], depth - 1);
      }
      NodeReadsBack(m, s, keys, leaves, kids, max, depth, generation);
    case Broken => BrokenReadsBack(m, s, depth);
  }

  /** A node that does not start with the bytes 0A F3 has not got the magic number. */
  lemma BrokenReadsBack(m: Mount, s: seq<Byte>, depth: nat)
    requires |s| >= 12 && s[0..2] != Little2(0xF30A)
    ensures Stored(m, s, Broken, depth)
  {
    MagicBytes(s);
  }

  lemma MagicBytes(s: seq<Byte>)
    requires |s| >= 2
    ensures Half(s, 0) == EXT_MAGIC ==> s[0..2] == Little2(0xF30A)
  {
    if Half(s, 0) == EXT_MAGIC {
      assert s[1] as nat == 0xF3 && s[0] as nat == 0x0A;
      assert s[0..2] == [s[0], s[1]];
    }
  }

  /** Sorted extents under keys that divide them make an ordered tree. */
  lemma SortedIsOrdered(keys: seq<nat>, leaves: seq<seq<Extent>>, hi: nat)
    requires |keys| == |leaves| && hi <= WORD && Ascending(keys) && (keys != [] ==> keys[|keys| - 1] <= hi)
    requires forall i, j :: 0 <= i < |leaves| && 0 <= j < |leaves[i]| ==> keys[i] <= leaves[i][j].block && leaves[i][j].start + leaves[i][j].len <= WORD
    requires forall i, j :: 0 <= i < |leaves| && 0 <= j < |leaves[i]| ==> InTime(leaves[i][j], if i < |keys| - 1 then keys[1..][i] else hi)
    requires forall i, j, k :: 0 <= i < |leaves| && 0 <= j < k < |leaves[i]| ==> InTime(leaves[i][j], leaves[i][k].block)
    ensures Ordered(Index(keys, seq(|leaves|, i requires 0 <= i < |leaves| => Leaf(leaves[i]))), 0, hi)
  {
    var kids := seq(|leaves|, i requires 0 <= i < |leaves| => Leaf(leaves[i]));
    forall i | 0 <= i < |kids| ensures Ordered(kids[i], keys[i], Next(keys, i, hi)) {
      assert i < |keys| - 1 ==> keys[1..][i] == keys[i + 1];
    }
    forall i | 0 <= i < |keys| ensures keys[i] <= hi {
      assert i < |keys| - 1 ==> keys[i] < keys[|keys| - 1];
    }
  }

  /** The extent ends not behind block `n` of the file. */
  predicate InTime(e: Extent, n: nat) { e.block + e.len <= n }

  /** A block that an extent of the tree covers is where that extent puts it. */
  lemma ExtentLookup(m: Mount, inode: Inode, t: Tree, depth: nat, e: Extent, n: nat)
    requires inode.Extended? && |inode.root| >= 12 && WrittenTree(m, inode.root, t, depth) && Ordered(t, 0, WORD)
    requires Has(t, e) && Covers(e, n)
    ensures SoundInode(m, inode, t) && IsAt(m, inode, t, n, e.start + (n - e.block))
  {
    TreeReadsBack(m, inode.root, t, depth);
    StoredParts(m, inode.root, t, depth);
  }
}
