/**
 The boot loader's heap: a list of chunks that tile a fixed array, first-fit allocation, and
 freeing that joins neighbours.
 */
module BootHeap {

  /** `size_t` is 32-bit. */
  const WORD: nat := 0x1_0000_0000
  const HEAP_SIZE: nat := 131072
  /** The size of a chunk header: two list pointers and the chunk's size. */
  const HEADER: nat := 12

  /** A chunk of the list, with the address of its header; the low bit of the size word is `used`. */
  datatype Chunk = Chunk(addr: nat, size: nat, used: bool)

  /** `Overrun`: the bytes to be copied do not fit into the block. */
  datatype Outcome = Block(addr: nat) | ZeroSized | Exhausted | Overrun(addr: nat)

  /** The chunks lie one behind the other from `lo` to `hi`. */
  ghost predicate Tiled(cs: seq<Chunk>, lo: nat, hi: nat)
  {
    if cs == [] then lo == hi
    else cs[0].addr == lo && cs[0].size >= HEADER && Tiled(cs[1..], lo + cs[0].size, hi)
  }

  /** No two neighbours are both free. */
  ghost predicate Coalesced(cs: seq<Chunk>)
  {
    forall i :: 0 <= i < |cs| ==> NotBothFree(cs, i)
  }

  ghost predicate NotBothFree(cs: seq<Chunk>, i: nat)
    requires i < |cs|
  {
    i + 1 < |cs| ==> cs[i].used || cs[i + 1].used
  }

  ghost predicate Well(cs: seq<Chunk>, base: nat)
  {
    cs == [] || (Tiled(cs, base, base + HEAP_SIZE) && Coalesced(cs))
  }

  lemma {:induction false} TiledConcat(a: seq<Chunk>, b: seq<Chunk>, lo: nat, hi: nat) returns (mid: nat)
    requires Tiled(a + b, lo, hi)
    ensures Tiled(a, lo, mid) && Tiled(b, mid, hi)
    decreases a
  {
    if a == [] {
      assert a + b == b;
      mid := lo;
    } else {
      assert (a + b)[1..] == a[1..] + b;
      mid := TiledConcat(a[1..], b, lo + a[0].size, hi);
    }
  }

  lemma {:induction false} ConcatTiled(a: seq<Chunk>, b: seq<Chunk>, lo: nat, mid: nat, hi: nat)
    requires Tiled(a, lo, mid) && Tiled(b, mid, hi)
    ensures Tiled(a + b, lo, hi)
    decreases a
  {
    if a == [] {
      assert a + b == b;
    } else {
      assert (a + b)[1..] == a[1..] + b;
      ConcatTiled(a[1..], b, lo + a[0].size, mid, hi);
    }
  }

  lemma {:induction false} TiledSpan(cs: seq<Chunk>, lo: nat, hi: nat)
    requires Tiled(cs, lo, hi)
    ensures lo <= hi && (cs != [] ==> lo + HEADER <= hi)
  {
    if cs != [] {
      TiledSpan(cs[1..], lo + cs[0].size, hi);
    }
  }

  /** Chunks do not overlap, and stay inside the heap. */
  lemma {:induction false} ChunksApart(cs: seq<Chunk>, lo: nat, hi: nat, i: nat, j: nat)
    requires Tiled(cs, lo, hi) && i < |cs| && j < |cs|
    ensures lo <= cs[i].addr && cs[i].addr + cs[i].size <= hi && cs[i].size >= HEADER
    ensures i < j ==> cs[i].addr + cs[i].size <= cs[j].addr
    ensures j == i + 1 ==> cs[i].addr + cs[i].size == cs[j].addr
  {
    TiledSpan(cs[1..], lo + cs[0].size, hi);
    if i > 0 {
      ChunksApart(cs[1..], lo + cs[0].size, hi, i - 1, if j > 0 then j - 1 else 0);
    } else if j > 0 {
      ChunksApart(cs[1..], lo + cs[0].size, hi, j - 1, j - 1);
    }
  }

  /** A heap without a live block is one free chunk. */
  lemma AllFreeIsOne(cs: seq<Chunk>, base: nat)
    requires Well(cs, base) && cs != [] && forall i :: 0 <= i < |cs| ==> !cs[i].used
    ensures cs == [Chunk(base, HEAP_SIZE, false)]
  {
    assert NotBothFree(cs, 0);
    assert cs == [cs[0]] && cs[1..] == [];
    assert Tiled(cs[1..], base + cs[0].size, base + HEAP_SIZE);
  }

  // ---------------------------------------------------------------- allocating

  /** The size of the chunk for a request: rounded up to 8 bytes, with a header, in 32 bits. */
  function Total(size: nat): nat
  {
    (RoundUp(size) + HEADER) % WORD
  }

  function RoundUp(size: nat): nat { (size + 7) / 8 * 8 % WORD }

  function Started(cs: seq<Chunk>, base: nat): seq<Chunk>
  {
    if cs == [] then [Chunk(base, HEAP_SIZE, false)] else cs
  }

  predicate Fits(c: Chunk, total: nat) { !c.used && c.size >= total }

  predicate FirstFit(cs: seq<Chunk>, total: nat, i: int)
  {
    0 <= i < |cs| && Fits(cs[i], total) && forall j :: 0 <= j < i ==> !Fits(cs[j], total)
  }

  /** The list when chunk `i` has been cut to `total` bytes, if that leaves room for a header, and
      marked as used. */
  function Carved(cs: seq<Chunk>, i: nat, total: nat): seq<Chunk>
    requires i < |cs|
  {
    var c := cs[i];
    if c.size >= (total + HEADER) % WORD
    then cs[..i] + [Chunk(c.addr, total, true), Chunk((c.addr + total) % WORD, (c.size - total) % WORD, false)] + cs[i + 1..]
    else cs[i := c.(used := true)]
  }

  /** The chunk that `kmalloc` takes: the whole heap at first, without a look at its size. */
  predicate Picked(cs: seq<Chunk>, total: nat, i: int) { if cs == [] then i == 0 else FirstFit(cs, total, i) }

  /** The request does not wrap around and, if it is the first, is not larger than the heap. */
  predicate Sane(cs: seq<Chunk>, size: nat) { size <= WORD - 16 && (cs == [] ==> size + HEADER <= HEAP_SIZE) }

  lemma TotalIs(size: nat)
    requires 0 < size < WORD
    ensures size <= WORD - 16 ==> size + HEADER <= Total(size) < size + 8 + HEADER && (Total(size) - HEADER) % 8 == 0
    ensures size > WORD - 16 ==> Total(size) <= HEADER
  {
    if size <= WORD - 16 {
      assert RoundUp(size) <= WORD - 16;
    }
  }

  lemma TiledAround(cs: seq<Chunk>, lo: nat, hi: nat, i: nat)
    requires Tiled(cs, lo, hi) && i < |cs|
    ensures Tiled(cs[..i], lo, cs[i].addr) && Tiled(cs[i + 1..], cs[i].addr + cs[i].size, hi)
    ensures cs[i].size >= HEADER && lo <= cs[i].addr && cs[i].addr + cs[i].size <= hi
  {
    assert cs == cs[..i] + cs[i..];
    var mid := TiledConcat(cs[..i], cs[i..], lo, hi);
    assert cs[i..][1..] == cs[i + 1..];
    ChunksApart(cs, lo, hi, i, i);
  }

  lemma TiledWith(a: seq<Chunk>, m: seq<Chunk>, b: seq<Chunk>, lo: nat, x: nat, y: nat, hi: nat)
    requires Tiled(a, lo, x) && Tiled(m, x, y) && Tiled(b, y, hi)
    ensures Tiled(a + m + b, lo, hi)
  {
    ConcatTiled(a, m, lo, x, y);
    ConcatTiled(a + m, b, lo, y, hi);
  }

  lemma OneTiled(c: Chunk)
    requires c.size >= HEADER
    ensures Tiled([c], c.addr, c.addr + c.size)
  {
    assert [c][1..] == [];
  }

  lemma TwoTiled(c: Chunk, d: Chunk)
    requires c.size >= HEADER && d.size >= HEADER && d.addr == c.addr + c.size
    ensures Tiled([c, d], c.addr, d.addr + d.size)
  {
    assert [c, d][1..] == [d];
    OneTiled(d);
  }

  lemma CarvedTiled(cs: seq<Chunk>, base: nat, i: nat, total: nat)
    requires Tiled(cs, base, base + HEAP_SIZE) && base + HEAP_SIZE < WORD
    requires i < |cs| && HEADER <= total < WORD - HEADER
    ensures Tiled(Carved(cs, i, total), base, base + HEAP_SIZE)
  {
    var c := cs[i];
    TiledAround(cs, base, base + HEAP_SIZE, i);
    hide Tiled;
    if c.size >= total + HEADER {
      var m := [Chunk(c.addr, total, true), Chunk(c.addr + total, c.size - total, false)];
      TwoTiled(m[0], m[1]);
      TiledWith(cs[..i], m, cs[i + 1..], base, c.addr, c.addr + c.size, base + HEAP_SIZE);
    } else {
      OneTiled(c.(used := true));
      TiledWith(cs[..i], [c.(used := true)], cs[i + 1..], base, c.addr, c.addr + c.size, base + HEAP_SIZE);
      assert Carved(cs, i, total) == cs[..i] + [c.(used := true)] + cs[i + 1..];
    }
  }

  lemma CarvedCoalesced(cs: seq<Chunk>, i: nat, total: nat)
    requires Coalesced(cs) && i < |cs| && !cs[i].used
    ensures Coalesced(Carved(cs, i, total)) && Carved(cs, i, total)[i].used
  {
    var cs' := Carved(cs, i, total);
    forall k | 0 <= k < |cs'| ensures NotBothFree(cs', k) {
      assert NotBothFree(cs, i);
      if |cs'| == |cs| {
        assert NotBothFree(cs, k);
      } else if k < i {
        assert NotBothFree(cs, k);
      } else if k > i + 1 {
        assert NotBothFree(cs, k - 1);
      }
    }
  }

  /** What `kmalloc` hands out is large enough and inside the heap exactly when the request is sane. */
  lemma ServesIffSane(cs: seq<Chunk>, base: nat, size: nat, i: nat)
    requires Well(cs, base) && 0 < size < WORD && base + HEAP_SIZE < WORD
    requires i < |Started(cs, base)| && Picked(cs, Total(size), i)
    ensures var c := Carved(Started(cs, base), i, Total(size))[i];
            c.size >= size + HEADER && c.addr + c.size <= base + HEAP_SIZE <==> Sane(cs, size)
  {
    TotalIs(size);
    var cs0 := Started(cs, base);
    assert cs == [] ==> Tiled(cs0[1..], base + HEAP_SIZE, base + HEAP_SIZE);
    ChunksApart(cs0, base, base + HEAP_SIZE, i, i);
  }

  /** The first request for as many bytes as the heap has, and a request that wraps around. */
  lemma NotServed(base: nat)
    requires base + HEAP_SIZE < WORD
    ensures !Sane([], HEAP_SIZE) && Picked([], Total(HEAP_SIZE), 0)
    ensures Carved(Started([], base), 0, Total(HEAP_SIZE))[0] == Chunk(base, HEAP_SIZE, true)
    ensures !Sane([Chunk(base, HEAP_SIZE, false)], WORD - 9) && Picked([Chunk(base, HEAP_SIZE, false)], Total(WORD - 9), 0)
    ensures Carved([Chunk(base, HEAP_SIZE, false)], 0, Total(WORD - 9))[0] == Chunk(base, 4, true)
  {
    assert Total(WORD - 9) == 4;
  }

  lemma StartedWell(cs: seq<Chunk>, base: nat)
    requires Well(cs, base)
    ensures Tiled(Started(cs, base), base, base + HEAP_SIZE) && Coalesced(Started(cs, base))
  {
    var cs0 := Started(cs, base);
    assert cs == [] ==> Tiled(cs0[1..], base + HEAP_SIZE, base + HEAP_SIZE);
  }

  lemma CarvedWell(cs: seq<Chunk>, base: nat, size: nat, i: nat)
    requires Well(cs, base) && 0 < size < WORD && base + HEAP_SIZE < WORD && Sane(cs, size)
    requires i < |Started(cs, base)| && Picked(cs, Total(size), i)
    ensures Well(Carved(Started(cs, base), i, Total(size)), base)
  {
    TotalIs(size);
    StartedWell(cs, base);
    var cs0 := Started(cs, base);
    ChunksApart(cs0, base, base + HEAP_SIZE, i, i);
    CarvedTiled(cs0, base, i, Total(size));
    CarvedCoalesced(cs0, i, Total(size));
  }

  /** A request of any size leaves the list in order exactly when the chunk taken keeps its header. */
  lemma CarvedWellIff(cs: seq<Chunk>, base: nat, total: nat, i: nat)
    requires Well(cs, base) && cs != [] && base + HEAP_SIZE < WORD && FirstFit(cs, total, i)
    ensures Well(Carved(cs, i, total), base) <==> Carved(cs, i, total)[i].size >= HEADER
    ensures Carved(cs, i, total)[i].size <= cs[i].size && Carved(cs, i, total)[i].addr == cs[i].addr
  {
    ChunksApart(cs, base, base + HEAP_SIZE, i, i);
    var cs' := Carved(cs, i, total);
    CarvedCoalesced(cs, i, total);
    if total >= HEADER {
      CarvedTiled(cs, base, i, total);
    } else if cs[i].size < total + HEADER {
      assert cs' == cs[i := cs[i].(used := true)];
      UsedTiled(cs, base, base + HEAP_SIZE, i);
    } else if Well(cs', base) {
      ChunksApart(cs', base, base + HEAP_SIZE, i, i);
    }
  }

  lemma UsedTiled(cs: seq<Chunk>, lo: nat, hi: nat, i: nat)
    requires Tiled(cs, lo, hi) && i < |cs|
    ensures Tiled(cs[i := cs[i].(used := true)], lo, hi)
  {
    var c := cs[i].(used := true);
    TiledAround(cs, lo, hi, i);
    OneTiled(c);
    TiledWith(cs[..i], [c], cs[i + 1..], lo, c.addr, c.addr + c.size, hi);
    assert cs[i := c] == cs[..i] + [c] + cs[i + 1..];
  }

  // ---------------------------------------------------------------- freeing

  /** Chunk `i` marked as free and joined with a free one behind it. */
  function JoinedNext(cs: seq<Chunk>, i: nat): seq<Chunk>
    requires i < |cs|
  {
    var c := cs[i].(used := false);
    if i + 1 < |cs| && !cs[i + 1].used then cs[..i] + [c.(size := c.size + cs[i + 1].size)] + cs[i + 2..]
    else cs[i := c]
  }

  /** Chunk `i`, which is free, joined with a free one before it. */
  function JoinedPrev(cs: seq<Chunk>, i: nat): seq<Chunk>
    requires i < |cs|
  {
    if i > 0 && !cs[i - 1].used then cs[..i - 1] + [cs[i - 1].(size := cs[i - 1].size + cs[i].size)] + cs[i + 1..]
    else cs
  }

  function Freed(cs: seq<Chunk>, i: nat): seq<Chunk>
    requires i < |cs|
  {
    JoinedPrev(JoinedNext(cs, i), i)
  }

  lemma JoinedNextTiled(cs: seq<Chunk>, lo: nat, hi: nat, i: nat)
    requires Tiled(cs, lo, hi) && i < |cs|
    ensures Tiled(JoinedNext(cs, i), lo, hi)
  {
    var c := cs[i].(used := false);
    TiledAround(cs, lo, hi, i);
    if i + 1 < |cs| && !cs[i + 1].used {
      var n := cs[i + 1];
      TiledAround(cs, lo, hi, i + 1);
      ChunksApart(cs, lo, hi, i, i + 1);
      var m := [c.(size := c.size + n.size)];
      OneTiled(m[0]);
      TiledWith(cs[..i], m, cs[i + 2..], lo, c.addr, c.addr + c.size + n.size, hi);
    } else {
      OneTiled(c);
      TiledWith(cs[..i], [c], cs[i + 1..], lo, c.addr, c.addr + c.size, hi);
      assert cs[i := c] == cs[..i] + [c] + cs[i + 1..];
    }
  }

  lemma JoinedPrevTiled(cs: seq<Chunk>, lo: nat, hi: nat, i: nat)
    requires Tiled(cs, lo, hi) && i < |cs|
    ensures Tiled(JoinedPrev(cs, i), lo, hi)
  {
    if i > 0 && !cs[i - 1].used {
      var p, c := cs[i - 1], cs[i];
      TiledAround(cs, lo, hi, i - 1);
      TiledAround(cs, lo, hi, i);
      ChunksApart(cs, lo, hi, i - 1, i);
      var m := [p.(size := p.size + c.size)];
      OneTiled(m[0]);
      TiledWith(cs[..i - 1], m, cs[i + 1..], lo, p.addr, p.addr + p.size + c.size, hi);
    }
  }

  lemma FreedCoalesced(cs: seq<Chunk>, i: nat)
    requires Coalesced(cs) && i < |cs| && cs[i].used
    ensures Coalesced(Freed(cs, i))
  {
    var c1 := JoinedNext(cs, i);
    var d := |cs| - |c1|;
    NextIsUsed(cs, i);
    forall k | 0 <= k < |c1| && k + 1 != i ensures NotBothFree(c1, k) {
      assert NotBothFree(cs, if k < i then k else k + d);
    }
    var c2 := JoinedPrev(c1, i);
    if |c2| < |c1| {
      forall k | 0 <= k < |c2| ensures NotBothFree(c2, k) {
        if k + 1 < i - 1 {
          assert NotBothFree(c1, k);
        } else if k + 1 == i - 1 {
          assert NotBothFree(cs, k);
        } else {
          assert NotBothFree(c1, k + 1);
        }
      }
    } else {
      forall k | 0 <= k < |c2| ensures NotBothFree(c2, k) {
        assert k + 1 != i ==> NotBothFree(c1, k);
      }
    }
  }

  /** Behind a chunk that was just joined forward there is a used one, or the end. */
  lemma NextIsUsed(cs: seq<Chunk>, i: nat)
    requires Coalesced(cs) && i < |cs|
    ensures var c1 := JoinedNext(cs, i); i < |c1| && (i + 1 < |c1| ==> c1[i + 1].used) && (i > 0 ==> c1[i - 1] == cs[i - 1])
  {
    if i + 1 < |cs| {
      assert NotBothFree(cs, i + 1);
    }
  }

  lemma FreedWell(cs: seq<Chunk>, base: nat, i: nat)
    requires Well(cs, base) && i < |cs| && cs[i].used
    ensures Well(Freed(cs, i), base)
  {
    JoinedNextTiled(cs, base, base + HEAP_SIZE, i);
    NextIsUsed(cs, i);
    JoinedPrevTiled(JoinedNext(cs, i), base, base + HEAP_SIZE, i);
    FreedCoalesced(cs, i);
  }

  /** Freeing what was just allocated restores the list. */
  lemma FreeUndoesAlloc(cs: seq<Chunk>, base: nat, size: nat, i: nat)
    requires Well(cs, base) && cs != [] && 0 < size < WORD && base + HEAP_SIZE < WORD && Sane(cs, size)
    requires i < |cs| && FirstFit(cs, Total(size), i)
    ensures Freed(Carved(cs, i, Total(size)), i) == cs
  {
    TotalIs(size);
    ChunksApart(cs, base, base + HEAP_SIZE, i, i);
    var c, cs' := cs[i], Carved(cs, i, Total(size));
    assert NotBothFree(cs, i) && (i > 0 ==> NotBothFree(cs, i - 1));
    assert JoinedNext(cs', i) == cs;
  }

  // ---------------------------------------------------------------- live blocks

  /** The chunks in use. */
  function Live(cs: seq<Chunk>): set<Chunk> { set c | c in cs && c.used }

  lemma LiveConcat(a: seq<Chunk>, b: seq<Chunk>)
    ensures Live(a + b) == Live(a) + Live(b)
  {
  }

  lemma LiveAround(cs: seq<Chunk>, i: nat)
    requires i < |cs|
    ensures Live(cs) == Live(cs[..i]) + (if cs[i].used then {cs[i]} else {}) + Live(cs[i + 1..])
  {
    assert cs == cs[..i] + [cs[i]] + cs[i + 1..];
    LiveConcat(cs[..i], [cs[i]]);
    LiveConcat(cs[..i] + [cs[i]], cs[i + 1..]);
    assert Live([cs[i]]) == if cs[i].used then {cs[i]} else {};
  }

  /** A list in order is determined by where it lies and what is live in it. */
  lemma {:induction false} LiveDetermines(a: seq<Chunk>, b: seq<Chunk>, lo: nat, hi: nat)
    requires Tiled(a, lo, hi) && Tiled(b, lo, hi) && Coalesced(a) && Coalesced(b) && Live(a) == Live(b)
    ensures a == b
  {
    TiledSpan(a, lo, hi);
    TiledSpan(b, lo, hi);
    if a != [] && b != [] {
      if a[0].used {
        UsedFirst(a, b, lo, hi);
      } else if b[0].used {
        UsedFirst(b, a, lo, hi);
      } else {
        FreeFirst(a, b, lo, hi);
        FreeFirst(b, a, lo, hi);
      }
      TailLive(a, lo, hi);
      TailLive(b, lo, hi);
      LiveDetermines(a[1..], b[1..], lo + a[0].size, hi);
    }
  }

  lemma TailLive(a: seq<Chunk>, lo: nat, hi: nat)
    requires Tiled(a, lo, hi) && Coalesced(a) && a != []
    ensures Coalesced(a[1..]) && Live(a[1..]) == Live(a) - {a[0]}
  {
    forall i | 0 <= i < |a[1..]| ensures NotBothFree(a[1..], i) && a[1..][i] != a[0] {
      assert NotBothFree(a, i + 1);
      ChunksApart(a, lo, hi, 0, i + 1);
    }
    LiveAround(a, 0);
    assert a[..0] == [];
  }

  lemma UsedFirst(a: seq<Chunk>, b: seq<Chunk>, lo: nat, hi: nat)
    requires Tiled(a, lo, hi) && Tiled(b, lo, hi) && Live(a) == Live(b) && a != [] && b != [] && a[0].used
    ensures b[0] == a[0]
  {
    assert a[0] in Live(b);
    var j :| 0 <= j < |b| && b[j] == a[0];
    ChunksApart(b, lo, hi, 0, j);
  }

  lemma FreeFirst(a: seq<Chunk>, b: seq<Chunk>, lo: nat, hi: nat)
    requires Tiled(a, lo, hi) && Tiled(b, lo, hi) && Coalesced(a) && Live(a) == Live(b) && a != [] && b != [] && !a[0].used && !b[0].used
    ensures b[0].size <= a[0].size
  {
    ChunksApart(b, lo, hi, 0, 0);
    if |a| == 1 {
      assert a[1..] == [];
    } else {
      assert NotBothFree(a, 0);
      assert a[1] in Live(b);
      var j :| 0 <= j < |b| && b[j] == a[1];
      ChunksApart(a, lo, hi, 0, 1);
      ChunksApart(b, lo, hi, 0, j);
    }
  }

  /** Freeing a block takes that block out of the live ones and no other. */
  lemma FreedLive(cs: seq<Chunk>, lo: nat, hi: nat, i: nat)
    requires Tiled(cs, lo, hi) && i < |cs| && cs[i].used
    ensures Live(Freed(cs, i)) == Live(cs) - {cs[i]}
  {
    forall j | 0 <= j < |cs| && j != i ensures cs[j] != cs[i] {
      ChunksApart(cs, lo, hi, i, j);
      ChunksApart(cs, lo, hi, j, i);
    }
    LiveAround(cs, i);
    JoinedNextLive(cs, i);
    JoinedPrevLive(JoinedNext(cs, i), i);
  }

  lemma JoinedNextLive(cs: seq<Chunk>, i: nat)
    requires i < |cs|
    ensures var c1 := JoinedNext(cs, i); i < |c1| && !c1[i].used && Live(c1) == Live(cs[..i]) + Live(cs[i + 1..])
  {
    var c1 := JoinedNext(cs, i);
    LiveAround(c1, i);
    assert c1[..i] == cs[..i];
    if |c1| < |cs| {
      assert c1[i + 1..] == cs[i + 2..] == cs[i + 1..][1..];
      LiveAround(cs[i + 1..], 0);
      assert cs[i + 1..][..0] == [];
    } else {
      assert c1[i + 1..] == cs[i + 1..];
    }
  }

  lemma JoinedPrevLive(cs: seq<Chunk>, i: nat)
    requires i < |cs| && !cs[i].used
    ensures Live(JoinedPrev(cs, i)) == Live(cs)
  {
    var c1 := JoinedPrev(cs, i);
    if |c1| < |cs| {
      LiveAround(cs, i);
      LiveAround(c1, i - 1);
      LiveAround(cs[..i], i - 1);
      assert c1[..i - 1] == cs[..i][..i - 1] && c1[i..] == cs[i + 1..] && cs[..i][i..] == [];
    }
  }

  /** `c`, with its block at `addr`, is new among the live ones, and wastes less than a header. */
  ghost predicate Serves(before: seq<Chunk>, cs: seq<Chunk>, c: Chunk, addr: nat, size: nat)
  {
    c.used && addr == c.addr + HEADER && c !in Live(before) && Live(cs) == Live(before) + {c} && size + HEADER <= c.size < Total(size) + HEADER
  }

  lemma SaneServes(cs: seq<Chunk>, base: nat, size: nat, i: nat)
    requires Well(cs, base) && 0 < size < WORD && base + HEAP_SIZE < WORD && Sane(cs, size)
    requires i < |Started(cs, base)| && Picked(cs, Total(size), i)
    ensures var cs0 := Started(cs, base); var c := Carved(cs0, i, Total(size))[i];
            Serves(cs, Carved(cs0, i, Total(size)), c, cs0[i].addr + HEADER, size)
  {
    TotalIs(size);
    StartedWell(cs, base);
    var cs0 := Started(cs, base);
    assert Live(cs) == Live(cs0);
    ServesIffSane(cs, base, size, i);
    CarvedLive(cs0, i, Total(size));
    forall d | d in Live(cs0) ensures d.addr != cs0[i].addr {
      var j :| 0 <= j < |cs0| && cs0[j] == d;
      ChunksApart(cs0, base, base + HEAP_SIZE, i, j);
      ChunksApart(cs0, base, base + HEAP_SIZE, j, i);
    }
  }

  /** An allocation adds the block handed out to the live ones, and wastes less than a header. */
  lemma CarvedLive(cs: seq<Chunk>, i: nat, total: nat)
    requires i < |cs| && !cs[i].used
    ensures var cs' := Carved(cs, i, total); cs'[i].used && cs'[i].addr == cs[i].addr && Live(cs') == Live(cs) + {cs'[i]}
    ensures total < WORD - HEADER ==> Carved(cs, i, total)[i].size < total + HEADER
  {
    var cs' := Carved(cs, i, total);
    LiveAround(cs, i);
    LiveAround(cs', i);
    assert cs'[..i] == cs[..i];
    if |cs'| > |cs| {
      LiveAround(cs'[i + 1..], 0);
      assert cs'[i + 1..][..0] == [] && cs'[i + 1..][1..] == cs[i + 1..];
    } else {
      assert cs'[i + 1..] == cs[i + 1..];
    }
  }

  class Heap {
    const base: nat
    var chunks: seq<Chunk>

    ghost predicate Valid()
      reads this
    {
      Well(chunks, base) && base + HEAP_SIZE < WORD
    }

    constructor (at: nat)
      requires at + HEAP_SIZE < WORD
      ensures Valid() && chunks == [] && base == at
    {
      base := at;
      chunks := [];
    }

    /** `kmalloc`; `i` is the place in the list of the chunk taken. */
    method Kmalloc(size: nat) returns (got: Outcome, i: nat)
      requires Valid() && size < WORD
      modifies this
      ensures !got.Overrun? && (got.ZeroSized? <==> size == 0)
      ensures got.ZeroSized? || got.Exhausted? ==> chunks == old(chunks)
      ensures got.Exhausted? <==>
                size > 0 && old(chunks) != [] &&
                forall j :: 0 <= j < |old(chunks)| ==> old(chunks)[j].used || old(chunks)[j].size < Total(size)
      ensures got.Block? ==>
                var cs := Started(old(chunks), base);
                i < |cs| && Picked(old(chunks), Total(size), i) && chunks == Carved(cs, i, Total(size)) && got.addr == cs[i].addr + HEADER
      ensures got.Block? && old(chunks) != [] ==>
                !old(chunks)[i].used && old(chunks)[i].size >= Total(size) &&
                forall j :: 0 <= j < i ==> old(chunks)[j].used || old(chunks)[j].size < Total(size)
      ensures got.Block? && Sane(old(chunks), size) ==> i < |chunks| && Serves(old(chunks), chunks, chunks[i], got.addr, size)
      ensures Sane(old(chunks), size) ==> Valid()
    {
      i := 0;
      if size == 0 {
        return ZeroSized, 0;
      }
      var total := Total(size);
      var k := 0;
      ghost var cs := chunks;
      hide Well, Carved;
      if chunks == [] {
        chunks := [Chunk(base, HEAP_SIZE, false)];
      } else {
        k := FindFree(total);
        if k == |chunks| {
          return Exhausted, 0;
        }
      }
      i := k;
      if Sane(cs, size) {
        CarvedWell(cs, base, size, i);
        SaneServes(cs, base, size, i);
      }
      got := Block(chunks[k].addr + HEADER);
      Carve(k, total);
    }

    /** The search of `kmalloc` for a free chunk that is large enough. */
    method FindFree(total: nat) returns (k: nat)
      ensures k <= |chunks| && forall j :: 0 <= j < k ==> !Fits(chunks[j], total)
      ensures k < |chunks| ==> Fits(chunks[k], total)
    {
      k := 0;
      while k < |chunks| && !Fits(chunks[k], total)
        invariant k <= |chunks| && forall j :: 0 <= j < k ==> !Fits(chunks[j], total)
      {
        k := k + 1;
      }
    }

    /** Cuts chunk `k` if it is too big, and marks it as used. */
    method Carve(k: nat, total: nat)
      requires k < |chunks|
      modifies this
      ensures chunks == Carved(old(chunks), k, total)
    {
      var c := chunks[k];
      if c.size >= (total + HEADER) % WORD {
        chunks := chunks[..k + 1] + [Chunk((c.addr + total) % WORD, (c.size - total) % WORD, false)] + chunks[k + 1..];
        chunks := chunks[k := c.(size := total)];
      }
      chunks := chunks[k := chunks[k].(used := true)];
    }

    /** `kfree` of a block, which is chunk `i` of the list, or of null. A block that is free already
        is refused. */
    method Kfree(addr: nat, i: nat) returns (ok: bool)
      requires Valid() && (addr != 0 ==> i < |chunks| && addr == chunks[i].addr + HEADER)
      modifies this
      ensures ok <==> addr == 0 || old(chunks)[i].used
      ensures Valid() && chunks == if ok && addr != 0 then Freed(old(chunks), i) else old(chunks)
      ensures ok && addr != 0 ==> Live(chunks) == Live(old(chunks)) - {old(chunks)[i]}
    {
      ok := addr == 0 || chunks[i].used;
      if addr == 0 || !chunks[i].used {
        return;
      }
      ghost var cs := chunks;
      FreedWell(cs, base, i);
      FreedLive(cs, base, base + HEAP_SIZE, i);
      JoinedNextTiled(cs, base, base + HEAP_SIZE, i);
      NextIsUsed(cs, i);
      hide Well, JoinedNext, JoinedPrev, Tiled, Live;
      JoinNext(i);
      JoinPrev(i);
    }

    method JoinNext(i: nat)
      requires i < |chunks| && Tiled(chunks, base, base + HEAP_SIZE)
      modifies this
      ensures chunks == JoinedNext(old(chunks), i)
    {
      var chunk := chunks[i].(used := false);
      if i + 1 < |chunks| && !chunks[i + 1].used {
        var adj := chunks[i + 1];
        ChunksApart(chunks, base, base + HEAP_SIZE, i, i + 1);
        assert adj.addr == chunk.addr + chunk.size;
        chunk := chunk.(size := chunk.size + adj.size);
        chunks := chunks[..i + 1] + chunks[i + 2..];
      }
      chunks := chunks[i := chunk];
    }

    method JoinPrev(i: nat)
      requires i < |chunks| && Tiled(chunks, base, base + HEAP_SIZE)
      modifies this
      ensures chunks == JoinedPrev(old(chunks), i)
    {
      if i != 0 && !chunks[i - 1].used {
        var chunk, adj := chunks[i], chunks[i - 1];
        ChunksApart(chunks, base, base + HEAP_SIZE, i - 1, i);
        assert chunk.addr == adj.addr + adj.size;
        chunks := chunks[..i] + chunks[i + 1..];
        chunks := chunks[i - 1 := adj.(size := adj.size + chunk.size)];
      }
    }

    /** `krealloc` of a live block, which is chunk `i` of the list, or of null; `copied` is how many
        bytes of the old block are copied, and `k` is the chunk that was taken. The model stops where
        the copy would overrun the new block. */
    method Krealloc(addr: nat, i: nat, size: nat) returns (got: Outcome, copied: nat, k: nat)
      requires Valid() && size < WORD
      requires addr != 0 ==> i < |chunks| && chunks[i].used && addr == chunks[i].addr + HEADER
      modifies this
      ensures got.ZeroSized? <==> size == 0
      ensures size == 0 ==> Valid() && chunks == if addr == 0 then old(chunks) else Freed(old(chunks), i)
      ensures got.Exhausted? <==>
                size > 0 && old(chunks) != [] &&
                forall j :: 0 <= j < |old(chunks)| ==> old(chunks)[j].used || old(chunks)[j].size < Total(size)
      ensures got.Exhausted? ==> Valid() && chunks == old(chunks)
      ensures got.Block? || got.Overrun? ==>
                var cs := Started(old(chunks), base);
                k < |cs| && Picked(old(chunks), Total(size), k) && got.addr == cs[k].addr + HEADER
      ensures (got.Block? && addr == 0) || got.Overrun? ==> chunks == Carved(Started(old(chunks), base), k, Total(size))
      ensures got.Block? && addr != 0 ==>
                var cs := old(chunks);
                Moved(cs, k, Total(size), i) < |Carved(cs, k, Total(size))| &&
                chunks == Freed(Carved(cs, k, Total(size)), Moved(cs, k, Total(size), i)) && Valid() &&
                copied == Min(cs[i].size - HEADER, size) && CopyIsInside(cs[i], got.addr, copied, base)
      ensures got.Block? && addr != 0 ==>
                Live(chunks) == Live(old(chunks)) + {Carved(old(chunks), k, Total(size))[k]} - {old(chunks)[i]}
      ensures (got.Block? || got.Overrun?) && addr != 0 ==>
                (got.Overrun? <==> Min(old(chunks)[i].size - HEADER, size) > Carved(old(chunks), k, Total(size))[k].size - HEADER)
      ensures got.Overrun? ==> addr != 0
      ensures Sane(old(chunks), size) ==> Valid() && !got.Overrun?
    {
      copied, k := 0, 0;
      if size == 0 {
        var _ := Kfree(addr, i);
        return ZeroSized, 0, 0;
      }
      got, k := Kmalloc(size);
      if got.Block? && addr != 0 {
        ghost var cs, total := old(chunks), Total(size);
        CarvedAgain(cs, base, size, k, i);
        hide Well, Carved, Freed, Moved, Total, Live, Serves;
        var j := if chunks[i].used && chunks[i].addr + HEADER == addr then i else i + 1;
        var bytes := Min(chunks[j].size - HEADER, size);
        if bytes > chunks[k].size - HEADER {
          return Overrun(got.addr), 0, k;
        }
        CopyFits(cs, base, total, k, i, bytes);
        copied := bytes;
        var _ := Kfree(addr, j);
      }
    }
  }

  function Min(a: int, b: int): int { if a < b then a else b }

  /** Where chunk `i` of the list is after chunk `k` has been carved. */
  function Moved(cs: seq<Chunk>, k: nat, total: nat, i: nat): nat
    requires k < |cs|
  {
    if i < k || |Carved(cs, k, total)| == |cs| then i else i + 1
  }

  /** The bytes copied lie within the old block and within the heap, and the two blocks are apart. */
  ghost predicate CopyIsInside(c: Chunk, to: nat, copied: nat, base: nat)
  {
    copied <= c.size - HEADER && base <= to - HEADER && to + copied <= base + HEAP_SIZE &&
    (c.addr + c.size <= to - HEADER || to + copied <= c.addr)
  }

  /** A live block is still in the list after an allocation. */
  lemma StillThere(cs: seq<Chunk>, base: nat, total: nat, k: nat, i: nat)
    requires Well(cs, base) && base + HEAP_SIZE < WORD && cs != []
    requires k < |cs| && FirstFit(cs, total, k) && i < |cs| && cs[i].used
    ensures var cs', j := Carved(cs, k, total), Moved(cs, k, total, i);
            j < |cs'| && cs'[j] == cs[i] && cs[i].size >= HEADER && (j == i <==> cs'[i].used && cs'[i].addr == cs[i].addr)
  {
    var cs' := Carved(cs, k, total);
    var j := Moved(cs, k, total, i);
    assert i != k && cs'[j] == cs[i];
    ChunksApart(cs, base, base + HEAP_SIZE, i, i);
    if j == i + 1 && i > k + 1 {
      assert cs'[i] == cs[i - 1];
      ChunksApart(cs, base, base + HEAP_SIZE, i - 1, i);
    }
  }

  /** What `krealloc` finds after its allocation. */
  lemma CarvedAgain(cs: seq<Chunk>, base: nat, size: nat, k: nat, i: nat)
    requires Well(cs, base) && base + HEAP_SIZE < WORD && cs != [] && 0 < size < WORD
    requires k < |cs| && FirstFit(cs, Total(size), k) && i < |cs| && cs[i].used
    ensures var total := Total(size); var cs', j := Carved(cs, k, total), Moved(cs, k, total, i);
            j < |cs'| && cs'[j] == cs[i] && cs[i].size >= HEADER && j == (if cs'[i].used && cs'[i].addr == cs[i].addr then i else i + 1) &&
            (cs'[k].size >= HEADER ==> Well(cs', base)) && Live(cs') == Live(cs) + {cs'[k]} &&
            (Sane(cs, size) ==> cs'[k].size >= size + HEADER)
  {
    var total := Total(size);
    StillThere(cs, base, total, k, i);
    CarvedWellIff(cs, base, total, k);
    CarvedLive(cs, k, total);
    if Sane(cs, size) {
      ServesIffSane(cs, base, size, k);
    }
  }

  /** What is copied into the new block stays apart from the old one. */
  lemma CopyFits(cs: seq<Chunk>, base: nat, total: nat, k: nat, i: nat, copied: int)
    requires Well(cs, base) && base + HEAP_SIZE < WORD && cs != []
    requires k < |cs| && FirstFit(cs, total, k) && i < |cs| && cs[i].used
    requires 0 <= copied <= Carved(cs, k, total)[k].size - HEADER && copied <= cs[i].size - HEADER
    ensures CopyIsInside(cs[i], cs[k].addr + HEADER, copied, base)
  {
    CarvedWellIff(cs, base, total, k);
    ChunksApart(cs, base, base + HEAP_SIZE, i, k);
    ChunksApart(cs, base, base + HEAP_SIZE, k, i);
  }
}
