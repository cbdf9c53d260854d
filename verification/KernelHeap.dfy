/**
 The kernel allocator proper: `dlmalloc` and `dlfree` over one segment, with its designated
 victim, its top chunk and its bins of free chunks.
 */
module KernelHeap {
  import opened BinIndex
  import opened BinMap
  import opened Tries
  import opened BoundaryTags
  import TreeSearch
  import TreeMemory
  import SmallBins
  import TreeBins

  const CHUNK_OVERHEAD: nat := 4
  const MIN_REQUEST: nat := 11
  const MAX_SMALL_REQUEST: nat := 244
  const MAX_REQUEST: nat := SIZE_RANGE - 64
  const MAX_SIZE_T: nat := SIZE_RANGE - 1
  const TWO_WORDS: nat := 8

  /** A size a free chunk can have. */
  predicate ChunkSize(s: nat) { MIN_CHUNK_SIZE <= s < SIZE_RANGE && s % 8 == 0 }

  ghost predicate InBins(lists: seq<seq<SmallBins.Ptr>>, tries: seq<Trie>, a: Addr, s: nat)
  {
    SmallBins.Has(lists, a, s) || TreeBins.Stores(tries, a, s)
  }

  /** The bins hold exactly the chunks in `b`. */
  ghost predicate Binned(lists: seq<seq<SmallBins.Ptr>>, tries: seq<Trie>, b: map<Addr, nat>)
  {
    forall a: Addr, s: nat :: InBins(lists, tries, a, s) <==> a in b && b[a] == s
  }

  /** Every free chunk is in one place: it is the designated victim, or it is in a bin. */
  ghost predicate Placed(free: map<Addr, nat>, dv: Addr, dvsize: nat, binned: map<Addr, nat>)
  {
    if dvsize == 0 then dv == 0 && binned == free
    else dv in free && free[dv] == dvsize && binned == free - {dv}
  }

  lemma SmallOrLarge(s: nat)
    requires ChunkSize(s)
    ensures SmallBins.IsSmall(s) ==> SmallBins.SmallSize(s) && !TreeBins.LargeSize(s)
    ensures !SmallBins.IsSmall(s) ==> TreeBins.LargeSize(s) && !SmallBins.SmallSize(s)
  {
  }

  lemma NotInSmall(links: SmallBins.Store, m: Map, lists: seq<seq<SmallBins.Ptr>>, tries: seq<Trie>, b: map<Addr, nat>, x: Addr)
    requires SmallBins.BinsOk(links, m, lists) && Binned(lists, tries, b) && x !in b
    ensures forall i :: 0 <= i < SmallBins.NSMALLBINS ==> SmallBins.Chunk(x) !in lists[i]
  {
    forall i | 0 <= i < SmallBins.NSMALLBINS ensures SmallBins.Chunk(x) !in lists[i] {
      assert SmallBins.BinOk(links, Marked(m, i), lists[i], i);
      assert SmallBins.Chunk(x) in lists[i] ==> SmallBins.Has(lists, x, 8 * i);
      assert SmallBins.Chunk(x) in lists[i] ==> InBins(lists, tries, x, 8 * i);
    }
  }

  lemma NotInTrees(mem: TreeMemory.Mem, roots: seq<Addr>, m: Map, lists: seq<seq<SmallBins.Ptr>>, tries: seq<Trie>, b: map<Addr, nat>, x: Addr)
    requires TreeBins.BinsOk(mem, roots, m, tries) && Binned(lists, tries, b) && x !in b
    ensures TreeBins.Absent(tries, x)
  {
    forall i | 0 <= i < |tries| ensures x !in Addrs(tries[i]) {
      if x in Addrs(tries[i]) {
        var s := AddrHolds(tries[i], x);
        assert TreeBins.BinOk(mem, roots[i], Marked(m, i), tries[i], i);
        TreeBins.HoldsIsInBin(tries[i], i, x, s);
        assert InBins(lists, tries, x, s);
      }
    }
  }

  lemma BinnedWithout(lists: seq<seq<SmallBins.Ptr>>, tries: seq<Trie>, lists': seq<seq<SmallBins.Ptr>>, tries': seq<Trie>,
                      b: map<Addr, nat>, p: Addr, s: nat)
    requires Binned(lists, tries, b) && p in b && b[p] == s && ChunkSize(s)
    requires if SmallBins.IsSmall(s)
             then tries' == tries && forall a: Addr, z: nat :: SmallBins.Has(lists', a, z) <==> SmallBins.Has(lists, a, z) && a != p
             else lists' == lists && forall a: Addr, z: nat :: TreeBins.Stores(tries', a, z) <==> TreeBins.Stores(tries, a, z) && a != p
    ensures Binned(lists', tries', b - {p})
  {
    forall a: Addr, z: nat ensures InBins(lists', tries', a, z) <==> a in b && a != p && b[a] == z {
      assert InBins(lists, tries, a, z) <==> a in b && b[a] == z;
    }
  }

  lemma BinnedWith(lists: seq<seq<SmallBins.Ptr>>, tries: seq<Trie>, lists': seq<seq<SmallBins.Ptr>>, tries': seq<Trie>,
                   b: map<Addr, nat>, p: Addr, s: nat)
    requires Binned(lists, tries, b) && p !in b && ChunkSize(s)
    requires if SmallBins.IsSmall(s)
             then tries' == tries && forall a: Addr, z: nat :: SmallBins.Has(lists', a, z) <==> SmallBins.Has(lists, a, z) || (a == p && z == s)
             else lists' == lists && forall a: Addr, z: nat :: TreeBins.Stores(tries', a, z) <==> TreeBins.Stores(tries, a, z) || (a == p && z == s)
    ensures Binned(lists', tries', b[p := s])
  {
    forall a: Addr, z: nat ensures InBins(lists', tries', a, z) <==> a in b[p := s] && b[p := s][a] == z {
      assert InBins(lists, tries, a, z) <==> a in b && b[a] == z;
    }
  }

  // ---------------------------------------------------------------- the segment as a value

  /** The tags of the segment with its tiling. */
  datatype Segment = Segment(head: Heads, foot: Feet, marks: seq<Addr>, end: Addr)

  /** The segment is tiled, `top` is its last chunk, and these are its free and its live chunks. */
  ghost predicate Tagging(g: Segment, top: Addr, topsize: nat, free: map<Addr, nat>, live: map<Addr, nat>)
  {
    Tiled(g.head, g.foot, g.marks, g.end) && top == g.marks[|g.marks| - 1] && topsize == g.end - top &&
    free == Free(g.head, g.marks) && live == Live(g.head, g.marks)
  }

  lemma NotThere(m: map<Addr, nat>, p: Addr)
    requires p !in m
    ensures m - {p} == m
  {
  }

  lemma NotAStart(head: Heads, marks: seq<Addr>, r: Addr)
    requires r !in marks
    ensures r !in Free(head, marks) && r !in Live(head, marks)
  {
  }

  lemma ChunkAt(g: Segment, top: Addr, topsize: nat, free: map<Addr, nat>, live: map<Addr, nat>, a: Addr)
    requires Tagging(g, top, topsize, free, live) && a in free
    ensures 0 < a && a % 8 == 0 && ChunkSize(free[a]) && a + free[a] < g.end < SIZE_RANGE && a !in live
  {
    hide TagOk, Used;
    var i := Position(g.head, g.foot, g.marks, g.end, a);
    ChunkFacts(g.head, g.foot, g.marks, g.end, i);
    Ordered(g.marks, 0, i);
    ApartMaps(g.head, g.marks);
    hide Ascending;
  }

  /** Taking the whole free chunk at `p`. */
  lemma TakeAt(g: Segment, top: Addr, topsize: nat, free: map<Addr, nat>, live: map<Addr, nat>, p: Addr)
    requires Tagging(g, top, topsize, free, live) && p in free
    ensures p !in live && free[p] > 0 && p + free[p] in g.head
    ensures Tagging(g.(head := SetInuse(g.head, p, free[p])), top, topsize, free - {p}, live[p := free[p]])
  {
    var i := Position(g.head, g.foot, g.marks, g.end, p);
    NotThere(live, p);
    hide Tiled, Free, Live;
    TakeWhole(g.head, g.foot, g.marks, g.end, i);
  }

  lemma SplitPlace(head: Heads, foot: Feet, marks: seq<Addr>, end: Addr, p: Addr, nb: nat) returns (i: nat)
    requires Tiled(head, foot, marks, end) && p in Free(head, marks) && ChunkSize(nb) && nb + MIN_CHUNK_SIZE <= Free(head, marks)[p]
    ensures i < |marks| - 1 && Splits(head, marks, i, nb) && marks[i] == p && marks[i + 1] == p + Free(head, marks)[p]
    ensures p !in Live(head, marks) && p + nb !in Free(head, marks)
    ensures var marks' := WithMark(marks, i, p + nb); marks'[|marks'| - 1] == marks[|marks| - 1]
  {
    i := Position(head, foot, marks, end, p);
    SplitAscending(marks, i, p + nb);
    NotAStart(head, marks, p + nb);
  }

  ghost function SplitSegment(g: Segment, i: nat, p: Addr, s: nat, nb: nat): Segment
    requires i < |g.marks| && nb <= s
  {
    Segment(SplitHeads(g.head, p, nb, s - nb), g.foot[p + s := s - nb], WithMark(g.marks, i, p + nb), g.end)
  }

  /** Splitting the free chunk at `p`. */
  lemma SplitAt(g: Segment, top: Addr, topsize: nat, free: map<Addr, nat>, live: map<Addr, nat>, p: Addr, nb: nat) returns (i: nat)
    requires Tagging(g, top, topsize, free, live) && p in free && ChunkSize(nb) && nb + MIN_CHUNK_SIZE <= free[p]
    ensures i < |g.marks| && p !in live && p + nb !in free
    ensures Tagging(SplitSegment(g, i, p, free[p], nb), top, topsize, (free - {p})[p + nb := free[p] - nb], live[p := nb])
  {
    hide Tiled, Free, Live, Splits, WithMark;
    i := SplitPlace(g.head, g.foot, g.marks, g.end, p, nb);
    NotThere(live, p);
    SplitTiled(g.head, g.foot, g.marks, g.end, i, nb);
    SplitMaps(g.head, g.foot, g.marks, g.end, i, nb);
    assert g.marks[i + 1] - p - nb == free[p] - nb;
  }

  /** Chunks handed out are aligned, lie below top and do not overlap each other or a free chunk. */
  lemma LiveApart(g: Segment, top: Addr, topsize: nat, free: map<Addr, nat>, live: map<Addr, nat>, a: Addr, b: Addr)
    requires Tagging(g, top, topsize, free, live) && a in live && (b in live || b in free) && a != b
    ensures a % 8 == 0 && ChunkSize(live[a]) && a + live[a] <= top
    ensures a < b ==> a + live[a] <= b
    ensures b < a ==> b + (if b in live then live[b] else free[b]) <= a
  {
    hide TagOk;
    var i := Position(g.head, g.foot, g.marks, g.end, a);
    var j := Position(g.head, g.foot, g.marks, g.end, b);
    ChunkFacts(g.head, g.foot, g.marks, g.end, i);
    ChunkFacts(g.head, g.foot, g.marks, g.end, j);
    Ordered(g.marks, i, j);
    Ordered(g.marks, i + 1, j);
    Ordered(g.marks, i, j + 1);
    AlignedGap(a, g.marks[i + 1]);
    hide Ascending;
  }

  // ---------------------------------------------------------------- where free chunks are

  lemma TookBinned(free: map<Addr, nat>, dv: Addr, dvsize: nat, binned: map<Addr, nat>, v: Addr)
    requires Placed(free, dv, dvsize, binned) && v in binned
    ensures v in free && free[v] == binned[v] && (dvsize != 0 ==> v != dv)
    ensures Placed(free - {v}, dv, dvsize, binned - {v})
  {
  }

  lemma SplitToBin(free: map<Addr, nat>, dv: Addr, dvsize: nat, binned: map<Addr, nat>, v: Addr, r: Addr, rs: nat)
    requires Placed(free, dv, dvsize, binned) && v in binned && r !in free
    ensures r !in binned - {v} && Placed((free - {v})[r := rs], dv, dvsize, (binned - {v})[r := rs])
  {
  }

  lemma SplitToDv(free: map<Addr, nat>, dv: Addr, dvsize: nat, binned: map<Addr, nat>, v: Addr, r: Addr, rs: nat)
    requires Placed(free, dv, dvsize, binned) && v in binned && r !in free && rs != 0
    ensures Placed((free - {v})[r := rs], r, rs, if dvsize == 0 then binned - {v} else (binned - {v})[dv := dvsize])
  {
  }

  lemma TookDv(free: map<Addr, nat>, dv: Addr, dvsize: nat, binned: map<Addr, nat>, r: Addr, rs: nat)
    requires Placed(free, dv, dvsize, binned) && dvsize != 0
    ensures Placed(free - {dv}, 0, 0, binned)
    ensures r !in free && rs != 0 ==> Placed((free - {dv})[r := rs], r, rs, binned)
  {
  }

  lemma NotPlaced(free: map<Addr, nat>, dv: Addr, dvsize: nat, binned: map<Addr, nat>, p: Addr)
    requires Placed(free, dv, dvsize, binned) && p !in free && p != 0
    ensures p !in binned && p != dv
  {
  }

  /** A binned chunk that fits better than the designated victim. */
  lemma VictimLoses(free: map<Addr, nat>, dv: Addr, dvsize: nat, binned: map<Addr, nat>, nb: nat, v: Addr)
    requires Placed(free, dv, dvsize, binned) && v in binned && nb <= binned[v] && nb <= dvsize && binned[v] < dvsize
    ensures !BestOf(free, dv, nb)
  {
    assert v in free && free[v] == binned[v];
  }

  lemma TopNotFree(g: Segment, top: Addr, topsize: nat, free: map<Addr, nat>, live: map<Addr, nat>)
    requires Tagging(g, top, topsize, free, live)
    ensures top !in free && top > 0
  {
    hide TagOk, Used;
    Ordered(g.marks, 0, |g.marks| - 1);
    if top in free {
      var _ := Position(g.head, g.foot, g.marks, g.end, top);
    }
  }

  lemma DvFacts(g: Segment, top: Addr, topsize: nat, free: map<Addr, nat>, live: map<Addr, nat>, dv: Addr, dvsize: nat, binned: map<Addr, nat>)
    requires Tagging(g, top, topsize, free, live) && Placed(free, dv, dvsize, binned)
    ensures dvsize != 0 ==> dv in free && free[dv] == dvsize && dv != 0 && dv !in binned && ChunkSize(dvsize)
  {
    if dvsize != 0 {
      ChunkAt(g, top, topsize, free, live, dv);
    }
  }

  // ---------------------------------------------------------------- requests

  function PadRequest(bytes: nat): nat { (bytes + CHUNK_OVERHEAD + 7) / 8 * 8 }

  /** The chunk size that serves a request. */
  function RequestSize(bytes: nat): nat { if bytes < MIN_REQUEST then MIN_CHUNK_SIZE else PadRequest(bytes) }

  lemma RequestFits(bytes: nat)
    requires bytes < MAX_REQUEST
    ensures ChunkSize(RequestSize(bytes)) && bytes + CHUNK_OVERHEAD <= RequestSize(bytes) < bytes + CHUNK_OVERHEAD + MIN_CHUNK_SIZE
    ensures RequestSize(bytes) == MIN_CHUNK_SIZE || RequestSize(bytes) < bytes + CHUNK_OVERHEAD + 8
    ensures bytes <= MAX_SMALL_REQUEST <==> SmallBins.IsSmall(RequestSize(bytes))
  {
  }

  /** A chunk of little more than `nb` bytes was added to the live ones, and nothing else changed. */
  ghost predicate Served(live: map<Addr, nat>, live': map<Addr, nat>, p: Addr, nb: nat)
  {
    p !in live && p in live' && nb <= live'[p] < nb + MIN_CHUNK_SIZE && live' == live[p := live'[p]]
  }

  lemma ServedBy(live: map<Addr, nat>, p: Addr, z: nat, nb: nat)
    requires p !in live && nb <= z < nb + MIN_CHUNK_SIZE
    ensures Served(live, live[p := z], p, nb)
  {
  }

  /** What is left of the chunk `p` of `s` bytes becomes the designated victim, if it is a chunk at all. */
  ghost predicate RestIsVictim(dv: Addr, dvsize: nat, p: Addr, nb: nat, s: nat, dv': Addr, dvsize': nat)
  {
    if s >= nb + MIN_CHUNK_SIZE then dv' == p + nb && dvsize' == s - nb else dv' == dv && dvsize' == dvsize
  }

  /** The designated victim stays, perhaps larger, unless top has swallowed it. */
  ghost predicate VictimKept(dv: Addr, dvsize: nat, dv': Addr, dvsize': nat, top': Addr)
  {
    if dvsize == 0 then dvsize' == 0
    else if dvsize' == 0 then top' == dv
    else dv' <= dv && dv + dvsize <= dv' + dvsize'
  }

  /** Some chunk in the bins is a small one of just `nb` bytes, or of eight more. */
  ghost predicate Snug(b: map<Addr, nat>, nb: nat)
  {
    exists a :: a in b && SmallBins.IsSmall(b[a]) && (b[a] == nb || b[a] == nb + 8)
  }

  /** Where a request may be served from, and what becomes of the designated victim: a small request
      leaves the rest of a binned chunk as the new victim, a large one does not touch it. */
  ghost predicate ServedFrom(small: bool, p: Addr, nb: nat, top: Addr, dv: Addr, dvsize: nat, b: map<Addr, nat>, dv': Addr, dvsize': nat)
  {
    if p in b then nb <= b[p] && if small then RestIsVictim(dv, dvsize, p, nb, b[p], dv', dvsize') else dv' == dv && dvsize' == dvsize
    else if p == dv && dvsize != 0 then nb <= dvsize && RestIsVictim(0, 0, p, nb, dvsize, dv', dvsize')
    else p == top && dv' == dv && dvsize' == dvsize
  }

  /** `p` is a free chunk of least size among those of at least `nb` bytes. */
  ghost predicate BestOf(free: map<Addr, nat>, p: Addr, nb: nat)
  {
    p in free && nb <= free[p] && forall a :: a in free && nb <= free[a] ==> free[p] <= free[a]
  }

  ghost predicate NoneFits(free: map<Addr, nat>, nb: nat)
  {
    forall a :: a in free ==> free[a] < nb
  }

  lemma BestBinned(lists: seq<seq<SmallBins.Ptr>>, tries: seq<Trie>, b: map<Addr, nat>, nb: nat, v: Addr, rsize: nat)
    requires Binned(lists, tries, b) && TreeBins.BestFit(tries, nb, v, rsize)
    ensures v != 0 ==> v in b && b[v] == nb + rsize
    ensures MIN_LARGE_SIZE <= nb && v == 0 ==> NoneFits(b, nb)
    ensures MIN_LARGE_SIZE <= nb && v != 0 ==> BestOf(b, v, nb)
  {
    assert v != 0 ==> InBins(lists, tries, v, nb + rsize);
    forall a | a in b ensures InBins(lists, tries, a, b[a]) {
    }
  }

  /** Where the best fit is, when the designated victim is a candidate too. */
  lemma BestWithDv(free: map<Addr, nat>, dv: Addr, dvsize: nat, binned: map<Addr, nat>, nb: nat, v: Addr)
    requires Placed(free, dv, dvsize, binned) && nb > 0 && (if v == 0 then NoneFits(binned, nb) else BestOf(binned, v, nb))
    ensures v != 0 && (nb <= dvsize ==> binned[v] < dvsize) ==> BestOf(free, v, nb)
    ensures nb <= dvsize && (v != 0 ==> dvsize <= binned[v]) ==> BestOf(free, dv, nb)
    ensures v == 0 && dvsize < nb ==> NoneFits(free, nb)
  {
    assert forall a :: a in free ==> a == dv || (a in binned && binned[a] == free[a]);
  }

  /** What the search of `tmalloc_large` found is in a tree bin, and the wrapped comparison with
      the designated victim means what it should. */
  lemma LargeFit(g: Segment, top: Addr, topsize: nat, free: map<Addr, nat>, live: map<Addr, nat>, dv: Addr, dvsize: nat,
                 binned: map<Addr, nat>, nb: nat, v: Addr, rsize: nat)
    requires Tagging(g, top, topsize, free, live) && Placed(free, dv, dvsize, binned) && ChunkSize(nb) && !SmallBins.IsSmall(nb)
    requires v != 0 ==> v in binned && binned[v] == nb + rsize
    ensures v != 0 ==> ChunkSize(nb + rsize) && !SmallBins.IsSmall(nb + rsize)
    ensures dvsize < SIZE_RANGE
    ensures v != 0 ==> (rsize < TreeSearch.Remainder(dvsize, nb) <==> nb <= dvsize ==> nb + rsize < dvsize)
  {
    DvFacts(g, top, topsize, free, live, dv, dvsize, binned);
    if v != 0 {
      TookBinned(free, dv, dvsize, binned, v);
      ChunkAt(g, top, topsize, free, live, v);
    }
  }

  lemma TreeFit(g: Segment, top: Addr, topsize: nat, free: map<Addr, nat>, live: map<Addr, nat>, dv: Addr, dvsize: nat,
                lists: seq<seq<SmallBins.Ptr>>, tries: seq<Trie>, binned: map<Addr, nat>, nb: nat, v: Addr, rsize: nat)
    requires Tagging(g, top, topsize, free, live) && Placed(free, dv, dvsize, binned) && ChunkSize(nb) && SmallBins.IsSmall(nb)
    requires v != 0 && v in binned && binned[v] == nb + rsize && TreeBins.BestFit(tries, nb, v, rsize)
    ensures ChunkSize(nb + rsize) && !SmallBins.IsSmall(nb + rsize) && (dvsize < nb ==> SmallBins.IsSmall(dvsize))
  {
  }

  /** Splitting top. */
  lemma TopAt(g: Segment, top: Addr, topsize: nat, free: map<Addr, nat>, live: map<Addr, nat>, nb: nat)
    requires Tagging(g, top, topsize, free, live) && ChunkSize(nb) && nb < topsize
    ensures 0 < top && top !in live
    ensures Tagging(g.(head := g.head[top + nb := Tag(topsize - nb, true, false)][top := Tag(nb, true, true)],
                       marks := g.marks + [top + nb]),
                    top + nb, topsize - nb, free, live[top := nb])
  {
    SplitTop(g.head, g.foot, g.marks, g.end, nb);
    Ordered(g.marks, 0, |g.marks| - 1);
    hide Tiled, Free, Live;
    assert g.head[top + nb := Tag(topsize - nb, true, false)][top := Tag(nb, true, true)] ==
           SplitHeads(g.head, top, nb, g.end - top - nb);
  }

  /** Growing top. */
  lemma GrowAt(g: Segment, top: Addr, topsize: nat, free: map<Addr, nat>, live: map<Addr, nat>, extra: nat)
    requires Tagging(g, top, topsize, free, live) && extra % 8 == 0 && g.end + extra + TOP_FOOT_SIZE <= SIZE_RANGE
    ensures top < g.end < SIZE_RANGE && g.end - top == topsize
    ensures Tagging(g.(head := GrowHeads(g.head, top, g.end + extra), end := g.end + extra), top, topsize + extra, free, live)
  {
    GrowTop(g.head, g.foot, g.marks, g.end, g.end + extra);
  }

  /** With no small bin marked from `nb` on, no small chunk fits. */
  lemma NoneSmall(links: SmallBins.Store, m: Map, lists: seq<seq<SmallBins.Ptr>>, nb: nat)
    requires SmallBins.BinsOk(links, m, lists) && ChunkSize(nb) && SmallBins.IsSmall(nb)
    requires ShiftDown(m, SmallBins.SmallIndex(nb)) == 0
    ensures forall a: Addr, s: nat :: SmallBins.Has(lists, a, s) ==> s < nb
  {
    forall a: Addr, s: nat | SmallBins.Has(lists, a, s) ensures s < nb {
      var i := SmallBins.SmallIndex(s);
      assert SmallBins.BinOk(links, Marked(m, i), lists[i], i);
      if nb <= s {
        NoneFrom(m, SmallBins.SmallIndex(nb), i);
      }
    }
  }

  /** `v` is a smallest chunk of those in the trees. */
  ghost predicate SmallestLarge(b: map<Addr, nat>, v: Addr)
  {
    v in b && !SmallBins.IsSmall(b[v]) && forall a :: a in b && !SmallBins.IsSmall(b[a]) ==> b[v] <= b[a]
  }

  lemma SmallestBinned(lists: seq<seq<SmallBins.Ptr>>, tries: seq<Trie>, b: map<Addr, nat>, nb: nat, v: Addr, rsize: nat)
    requires Binned(lists, tries, b) && TreeBins.BestFit(tries, nb, v, rsize) && v != 0 && SmallBins.IsSmall(nb)
    ensures SmallestLarge(b, v)
  {
    assert InBins(lists, tries, v, nb + rsize);
    forall a | a in b && !SmallBins.IsSmall(b[a]) ensures b[v] <= b[a] {
      assert InBins(lists, tries, a, b[a]);
    }
  }

  /** With nothing in the small bins that fits, a smallest chunk of the trees is the best fit. */
  lemma SmallestIsBest(lists: seq<seq<SmallBins.Ptr>>, tries: seq<Trie>, b: map<Addr, nat>, nb: nat, v: Addr)
    requires Binned(lists, tries, b) && SmallestLarge(b, v) && SmallBins.IsSmall(nb)
    requires forall a: Addr, s: nat :: SmallBins.Has(lists, a, s) ==> s < nb
    ensures BestOf(b, v, nb)
  {
    forall a | a in b && nb <= b[a] ensures b[v] <= b[a] {
      assert InBins(lists, tries, a, b[a]);
    }
  }

  /** A chunk out of the first marked small bin that fits is the best fit among the chunks in bins. */
  lemma FirstBinIsBest(links: SmallBins.Store, m: Map, lists: seq<seq<SmallBins.Ptr>>, tries: seq<Trie>, b: map<Addr, nat>,
                       nb: nat, i: nat, p: Addr)
    requires SmallBins.BinsOk(links, m, lists) && Binned(lists, tries, b) && nb <= 8 * i && i < SmallBins.NSMALLBINS
    requires forall j :: SmallBins.SmallIndex(nb) <= j < i ==> !Marked(m, j)
    requires p in b && b[p] == 8 * i
    ensures BestOf(b, p, nb)
  {
    hide Marked;
    forall a | a in b && nb <= b[a] ensures 8 * i <= b[a] {
      assert InBins(lists, tries, a, b[a]);
      if SmallBins.Has(lists, a, b[a]) {
        var j := SmallBins.SmallIndex(b[a]);
        assert SmallBins.BinOk(links, Marked(m, j), lists[j], j);
      }
    }
  }

  /** The two low bits of the shifted map say whether there is a snug chunk. */
  lemma SnugIff(links: SmallBins.Store, m: Map, lists: seq<seq<SmallBins.Ptr>>, tries: seq<Trie>, b: map<Addr, nat>, nb: nat)
    requires SmallBins.BinsOk(links, m, lists) && Binned(lists, tries, b) && ChunkSize(nb) && SmallBins.IsSmall(nb)
    ensures Snug(b, nb) <==>
            var i := SmallBins.SmallIndex(nb); Marked(m, i) || (i + 1 < SmallBins.NSMALLBINS && Marked(m, i + 1))
  {
    hide Marked;
    var i := SmallBins.SmallIndex(nb);
    if a :| a in b && SmallBins.IsSmall(b[a]) && (b[a] == nb || b[a] == nb + 8) {
      assert InBins(lists, tries, a, b[a]);
      var j := SmallBins.SmallIndex(b[a]);
      assert SmallBins.BinOk(links, Marked(m, j), lists[j], j);
    }
    MarkedHas(links, m, lists, tries, b, i);
    if i + 1 < SmallBins.NSMALLBINS {
      MarkedHas(links, m, lists, tries, b, i + 1);
    }
  }

  lemma MarkedHas(links: SmallBins.Store, m: Map, lists: seq<seq<SmallBins.Ptr>>, tries: seq<Trie>, b: map<Addr, nat>, i: nat)
    requires SmallBins.BinsOk(links, m, lists) && Binned(lists, tries, b) && i < SmallBins.NSMALLBINS
    ensures Marked(m, i) ==> exists a :: a in b && b[a] == 8 * i
  {
    hide Marked;
    assert SmallBins.BinOk(links, Marked(m, i), lists[i], i);
    if lists[i] != [] {
      var a := lists[i][0].a;
      assert SmallBins.Has(lists, a, 8 * i);
      assert InBins(lists, tries, a, 8 * i);
    }
  }

  lemma NoTrees(mem: TreeMemory.Mem, roots: seq<Addr>, m: Map, tries: seq<Trie>)
    requires TreeBins.BinsOk(mem, roots, m, tries) && m == 0
    ensures forall a: Addr, s: nat :: !TreeBins.Stores(tries, a, s)
  {
    forall a: Addr, s: nat ensures !TreeBins.Stores(tries, a, s) {
      var i := TreeIndex(s);
      if i < NTREEBINS {
        assert TreeBins.BinOk(mem, roots[i], Marked(m, i), tries[i], i);
        EmptyMap(i);
      }
    }
  }

  lemma NothingBinned(lists: seq<seq<SmallBins.Ptr>>, tries: seq<Trie>, b: map<Addr, nat>, nb: nat)
    requires Binned(lists, tries, b)
    requires forall a: Addr, s: nat :: SmallBins.Has(lists, a, s) ==> s < nb
    requires forall a: Addr, s: nat :: !TreeBins.Stores(tries, a, s)
    ensures NoneFits(b, nb)
  {
    forall a | a in b ensures b[a] < nb {
      assert InBins(lists, tries, a, b[a]);
    }
  }

  lemma NoneLarge(lists: seq<seq<SmallBins.Ptr>>, tries: seq<Trie>, b: map<Addr, nat>, nb: nat)
    requires Binned(lists, tries, b) && MIN_LARGE_SIZE <= nb
    requires forall a: Addr, s: nat :: !TreeBins.Stores(tries, a, s)
    ensures NoneFits(b, nb)
  {
    NothingBinned(lists, tries, b, nb);
  }

  lemma NotBoth(free: map<Addr, nat>, nb: nat)
    ensures forall p :: BestOf(free, p, nb) ==> !NoneFits(free, nb)
  {
  }

  lemma BinnedNonNull(g: Segment, top: Addr, topsize: nat, free: map<Addr, nat>, live: map<Addr, nat>, dv: Addr, dvsize: nat,
                      binned: map<Addr, nat>, p: Addr)
    requires Tagging(g, top, topsize, free, live) && Placed(free, dv, dvsize, binned) && p in binned
    ensures p != 0
  {
    TookBinned(free, dv, dvsize, binned, p);
    ChunkAt(g, top, topsize, free, live, p);
  }

  // ---------------------------------------------------------------- freeing

  function Without(m: map<Addr, nat>, b: bool, a: Addr): map<Addr, nat> { if b then m - {a} else m }

  /** What `dlfree` reads about the live chunk at mark `i` and its neighbours. */
  ghost predicate Around(g: Segment, top: Addr, free: map<Addr, nat>, live: map<Addr, nat>, i: nat)
  {
    i + 1 < |g.marks| &&
    var p, n := g.marks[i], g.marks[i + 1];
    p in live && p in g.head && n in g.head && p < n && g.head[p].size == live[p] == n - p && g.head[p].cinuse && 0 < p &&
    (g.head[p].pinuse <==> i == 0 || Used(g.head, g.marks, i - 1)) && g.head[n].pinuse &&
    (!g.head[p].pinuse ==> i > 0 && p in g.foot && 0 < g.foot[p] <= p && p - g.foot[p] == g.marks[i - 1] > 0) &&
    (!g.head[p].pinuse ==> g.marks[i - 1] in free && free[g.marks[i - 1]] == g.foot[p] && (i > 1 ==> Used(g.head, g.marks, i - 2))) &&
    (n == top <==> i + 2 == |g.marks|) &&
    (g.head[n].cinuse <==> n != top && Used(g.head, g.marks, i + 1)) &&
    (n != top && !g.head[n].cinuse ==> n in free && free[n] == g.head[n].size && i + 3 < |g.marks| && Used(g.head, g.marks, i + 2) &&
                                       g.marks[i + 2] == n + free[n] && g.marks[i + 2] in g.head && !g.head[g.marks[i + 2]].pinuse)
  }

  lemma LiveAt(g: Segment, top: Addr, topsize: nat, free: map<Addr, nat>, live: map<Addr, nat>, p: Addr) returns (i: nat)
    requires Tagging(g, top, topsize, free, live) && p in live
    ensures i + 1 < |g.marks| && g.marks[i] == p && Around(g, top, free, live, i)
  {
    i := Position(g.head, g.foot, g.marks, g.end, p);
    LiveBefore(g, top, topsize, free, live, i);
    if i < |g.marks| - 2 {
      LiveAfter(g, top, topsize, free, live, i);
    }
    Ordered(g.marks, 0, i);
    Ordered(g.marks, i + 1, |g.marks| - 1);
  }

  lemma LiveBefore(g: Segment, top: Addr, topsize: nat, free: map<Addr, nat>, live: map<Addr, nat>, i: nat)
    requires Tagging(g, top, topsize, free, live) && 0 <= i < |g.marks| - 1
    ensures var p := g.marks[i];
            p in g.head && (!g.head[p].pinuse ==>
              i > 0 && p in g.foot && 0 < g.foot[p] <= p && p - g.foot[p] == g.marks[i - 1] > 0 &&
              g.marks[i - 1] in free && free[g.marks[i - 1]] == g.foot[p] && (i > 1 ==> Used(g.head, g.marks, i - 2)))
  {
    Tags(g.head, g.foot, g.marks, g.end, i);
    if !g.head[g.marks[i]].pinuse {
      Tags(g.head, g.foot, g.marks, g.end, i - 1);
      Ordered(g.marks, 0, i - 1);
      assert g.marks[i - 1] in Starts(g.marks);
    }
  }

  lemma LiveAfter(g: Segment, top: Addr, topsize: nat, free: map<Addr, nat>, live: map<Addr, nat>, i: nat)
    requires Tagging(g, top, topsize, free, live) && 0 <= i < |g.marks| - 2
    ensures var n := g.marks[i + 1];
            n in g.head && (!g.head[n].cinuse ==>
              n in free && free[n] == g.head[n].size && i + 3 < |g.marks| && Used(g.head, g.marks, i + 2) &&
              g.marks[i + 2] == n + free[n] && g.marks[i + 2] in g.head && !g.head[g.marks[i + 2]].pinuse)
  {
    Tags(g.head, g.foot, g.marks, g.end, i + 1);
    Tags(g.head, g.foot, g.marks, g.end, i + 2);
    assert g.marks[i + 1] in Starts(g.marks);
  }

  ghost function First(i: nat, back: bool): nat requires back ==> i > 0 { if back then i - 1 else i }
  ghost function Past(i: nat, fwd: bool): nat { if fwd then i + 2 else i + 1 }

  /** The chunk at mark `i` is live, and it joins the free neighbours it has. */
  ghost predicate Merges(g: Segment, top: Addr, free: map<Addr, nat>, live: map<Addr, nat>, i: nat, back: bool, fwd: bool)
  {
    Around(g, top, free, live, i) && (back <==> !g.head[g.marks[i]].pinuse) &&
    (fwd <==> g.marks[i + 1] != top && !g.head[g.marks[i + 1]].cinuse)
  }

  lemma NeighboursGone(g: Segment, top: Addr, topsize: nat, free: map<Addr, nat>, live: map<Addr, nat>, i: nat, back: bool, fwd: bool)
    requires Tagging(g, top, topsize, free, live) && Merges(g, top, free, live, i, back, fwd)
    ensures var lo, hi := First(i, back), Past(i, fwd);
            hi <= |g.marks| - 1 && lo < hi &&
            var gone := Between(g.marks, lo, hi);
            live - gone == live - {g.marks[i]} &&
            free - gone == Without(Without(free, back, g.marks[lo]), fwd, g.marks[hi - 1]) &&
            g.marks[lo] !in free - gone
  {
    var lo, hi := First(i, back), Past(i, fwd);
    var p, gone := g.marks[i], Between(g.marks, lo, hi);
    ApartMaps(g.head, g.marks);
    BetweenFew(g.marks, lo, hi, i);
    hide Tiled, Between, Free, Live, Without;
    LiveMinus(live, gone, p);
    FreeMinus(free, gone, back, g.marks[lo], fwd, g.marks[hi - 1]);
  }

  lemma BetweenFew(marks: seq<Addr>, lo: nat, hi: nat, i: nat)
    requires i - 1 <= lo <= i < hi <= i + 2 && hi <= |marks|
    ensures var gone := Between(marks, lo, hi);
            marks[i] in gone && marks[lo] in gone && marks[hi - 1] in gone &&
            forall a :: a in gone ==> a == marks[i] || (lo < i && a == marks[lo]) || (i + 1 < hi && a == marks[hi - 1])
  {
    var gone := Between(marks, lo, hi);
    assert marks[i] in gone && marks[lo] in gone && marks[hi - 1] in gone;
  }

  lemma LiveMinus(live: map<Addr, nat>, gone: set<Addr>, p: Addr)
    requires p in gone && forall a :: a in gone && a in live ==> a == p
    ensures live - gone == live - {p}
  {
  }

  lemma FreeMinus(free: map<Addr, nat>, gone: set<Addr>, back: bool, a: Addr, fwd: bool, b: Addr)
    requires a in gone && b in gone && forall x :: x in gone && x in free ==> (back && x == a) || (fwd && x == b)
    ensures free - gone == Without(Without(free, back, a), fwd, b)
  {
  }

  lemma ApartMaps(head: Heads, marks: seq<Addr>)
    ensures Free(head, marks).Keys !! Live(head, marks).Keys
  {
  }

  /** Freeing the chunk at mark `i` when it does not border top. */
  lemma JoinAt(g: Segment, top: Addr, topsize: nat, free: map<Addr, nat>, live: map<Addr, nat>, i: nat, back: bool, fwd: bool)
    requires Tagging(g, top, topsize, free, live) && Merges(g, top, free, live, i, back, fwd) && g.marks[i + 1] != top
    ensures var lo, hi := First(i, back), Past(i, fwd);
            hi < |g.marks| - 1 && lo < hi &&
            var p, n, rest := g.marks[lo], g.marks[hi], Without(Without(free, back, g.marks[lo]), fwd, g.marks[hi - 1]);
            p < n && n in g.head && p !in rest && ChunkSize(n - p) && 0 < p &&
            Tagging(Segment(FreeHeads(g.head, p, n), g.foot[n := n - p], Joined(g.marks, lo, hi), g.end), top, topsize,
                    rest[p := n - p], live - {g.marks[i]})
  {
    var lo, hi := First(i, back), Past(i, fwd);
    MergesJoin(g, top, free, live, i, back, fwd);
    hide Tagging, Between, Without, Around, Merges, Joins, First, Past, Joined;
    NeighboursGone(g, top, topsize, free, live, i, back, fwd);
    JoinOne(g, top, topsize, free, live, lo, hi);
  }

  lemma MergesJoin(g: Segment, top: Addr, free: map<Addr, nat>, live: map<Addr, nat>, i: nat, back: bool, fwd: bool)
    requires Merges(g, top, free, live, i, back, fwd) && g.marks[i + 1] != top
    ensures Joins(g.head, g.marks, First(i, back), Past(i, fwd))
  {
  }

  lemma MergesTop(g: Segment, top: Addr, free: map<Addr, nat>, live: map<Addr, nat>, i: nat, back: bool)
    requires Merges(g, top, free, live, i, back, false) && g.marks[i + 1] == top
    ensures var lo := First(i, back);
            lo < |g.marks| - 1 && i + 2 == |g.marks| && Past(i, false) == i + 1 && (lo > 0 ==> Used(g.head, g.marks, lo - 1))
  {
  }

  lemma JoinOne(g: Segment, top: Addr, topsize: nat, free: map<Addr, nat>, live: map<Addr, nat>, lo: nat, hi: nat)
    requires Tagging(g, top, topsize, free, live) && Joins(g.head, g.marks, lo, hi)
    ensures hi < |g.marks| - 1 && lo < hi
    ensures var p, n, gone := g.marks[lo], g.marks[hi], Between(g.marks, lo, hi);
            p < n && n in g.head && ChunkSize(n - p) && 0 < p &&
            Tagging(Segment(FreeHeads(g.head, p, n), g.foot[n := n - p], Joined(g.marks, lo, hi), g.end), top, topsize,
                    (free - gone)[p := n - p], live - gone)
  {
    hide Tiled, Free, Live, Between;
    JoinSize(g, top, topsize, free, live, lo, hi);
    JoinTiled(g.head, g.foot, g.marks, g.end, lo, hi);
    JoinMaps(g.head, g.foot, g.marks, g.end, lo, hi);
    assert Joined(g.marks, lo, hi)[|Joined(g.marks, lo, hi)| - 1] == g.marks[|g.marks| - 1];
  }

  lemma JoinSize(g: Segment, top: Addr, topsize: nat, free: map<Addr, nat>, live: map<Addr, nat>, lo: nat, hi: nat)
    requires Tagging(g, top, topsize, free, live) && lo < hi < |g.marks|
    ensures 0 < g.marks[lo] && g.marks[lo] < g.marks[hi] && ChunkSize(g.marks[hi] - g.marks[lo])
  {
    hide TagOk, Free, Live, Ascending;
    ChunkFacts(g.head, g.foot, g.marks, g.end, lo);
    ChunkFacts(g.head, g.foot, g.marks, g.end, hi - 1);
    Ordered(g.marks, lo + 1, hi);
    Ordered(g.marks, 0, lo);
    AlignedGap(g.marks[lo], g.marks[hi]);
  }

  lemma AlignedGap(a: Addr, b: Addr)
    requires a % 8 == 0 && b % 8 == 0 && a < b
    ensures (b - a) % 8 == 0
  {
  }

  /** Freeing the chunk at mark `i` when it borders top. */
  lemma JoinTopAt(g: Segment, top: Addr, topsize: nat, free: map<Addr, nat>, live: map<Addr, nat>, i: nat, back: bool)
    requires Tagging(g, top, topsize, free, live) && Merges(g, top, free, live, i, back, false) && g.marks[i + 1] == top
    ensures var lo := First(i, back);
            var p := g.marks[lo];
            p < top &&
            Tagging(g.(head := g.head[p := Tag(topsize + (top - p), true, false)], marks := g.marks[..lo + 1]), p, topsize + (top - p),
                    Without(free, back, p), live - {g.marks[i]})
  {
    MergesTop(g, top, free, live, i, back);
    hide Tagging, Between, Merges, Around, Used, Without;
    NeighboursGone(g, top, topsize, free, live, i, back, false);
    WithoutNone(Without(free, back, g.marks[First(i, back)]), g.marks[i]);
    TopOne(g, top, topsize, free, live, First(i, back));
  }

  lemma TopOne(g: Segment, top: Addr, topsize: nat, free: map<Addr, nat>, live: map<Addr, nat>, lo: nat)
    requires Tagging(g, top, topsize, free, live) && lo < |g.marks| - 1 && (lo > 0 ==> Used(g.head, g.marks, lo - 1))
    ensures var p, gone := g.marks[lo], Between(g.marks, lo, |g.marks| - 1);
            p < top &&
            Tagging(g.(head := g.head[p := Tag(topsize + (top - p), true, false)], marks := g.marks[..lo + 1]), p, topsize + (top - p),
                    free - gone, live - gone)
  {
    hide Tiled, Free, Live, Between, Used;
    JoinSize(g, top, topsize, free, live, lo, |g.marks| - 1);
    JoinTop(g.head, g.foot, g.marks, g.end, lo);
  }

  lemma PlacedWith(free: map<Addr, nat>, dv: Addr, dvsize: nat, binned: map<Addr, nat>, p: Addr, s: nat)
    requires Placed(free, dv, dvsize, binned) && p !in free
    ensures p !in binned && Placed(free[p := s], dv, dvsize, binned[p := s])
  {
  }

  lemma DvGrown(free: map<Addr, nat>, dv: Addr, dvsize: nat, binned: map<Addr, nat>, s: nat)
    requires Placed(free, dv, dvsize, binned) && dvsize != 0 && s != 0
    ensures Placed((free - {dv})[dv := s], dv, s, binned)
  {
  }

  lemma AroundNext(g: Segment, top: Addr, free: map<Addr, nat>, live: map<Addr, nat>, i: nat, back: bool)
    requires Merges(g, top, free, live, i, back, true)
    ensures g.marks[i + 1] != top && g.marks[i + 1] in free && i + 2 < |g.marks|
    ensures var n := g.marks[i + 1] + free[g.marks[i + 1]];
            n == g.marks[i + 2] && n in g.head && g.head[n := g.head[n].(pinuse := false)] == g.head
  {
  }

  /** The facts `dlfree` uses. */
  lemma AroundFacts(g: Segment, top: Addr, topsize: nat, free: map<Addr, nat>, live: map<Addr, nat>, i: nat)
    requires Tagging(g, top, topsize, free, live) && Around(g, top, free, live, i)
    ensures var p, n := g.marks[i], g.marks[i + 1];
            p in g.head && n in g.head && p < n && g.head[p].size == n - p && g.head[n].pinuse &&
            Merges(g, top, free, live, i, !g.head[p].pinuse, n != top && !g.head[n].cinuse) &&
            (n == top ==> !g.head[n].cinuse)
    ensures var p := g.marks[i];
            !g.head[p].pinuse ==> i > 0 && p in g.foot && g.foot[p] <= p && p - g.foot[p] == g.marks[i - 1] != 0 &&
                                  g.marks[i - 1] in free && free[g.marks[i - 1]] == g.foot[p] && ChunkSize(g.foot[p])
    ensures var n := g.marks[i + 1];
            n != top && !g.head[n].cinuse ==> n in free && free[n] == g.head[n].size && ChunkSize(free[n]) && n != 0
  {
    var p, n := g.marks[i], g.marks[i + 1];
    if !g.head[p].pinuse {
      ChunkAt(g, top, topsize, free, live, g.marks[i - 1]);
    }
    if n != top && !g.head[n].cinuse {
      ChunkAt(g, top, topsize, free, live, n);
    }
  }

  lemma DvNotLive(g: Segment, top: Addr, topsize: nat, free: map<Addr, nat>, live: map<Addr, nat>, dv: Addr, dvsize: nat,
                  binned: map<Addr, nat>, p: Addr)
    requires Tagging(g, top, topsize, free, live) && Placed(free, dv, dvsize, binned) && p in live
    ensures p != dv && p !in free && (dv in free <==> dvsize != 0) && (dvsize != 0 ==> free[dv] == dvsize)
    ensures dvsize == 0 ==> dv == 0
  {
    ApartMaps(g.head, g.marks);
    var i := LiveAt(g, top, topsize, free, live, p);
    if dv in free {
      ChunkAt(g, top, topsize, free, live, dv);
    }
  }

  lemma BinnedIfNotDv(free: map<Addr, nat>, dv: Addr, dvsize: nat, binned: map<Addr, nat>, p: Addr)
    requires Placed(free, dv, dvsize, binned) && p in free && p != dv
    ensures p in binned && binned[p] == free[p]
  {
  }

  lemma WithoutNone(m: map<Addr, nat>, a: Addr)
    ensures Without(m, false, a) == m
  {
  }

  lemma WithoutOne(m: map<Addr, nat>, a: Addr)
    ensures Without(m, true, a) == m - {a}
  {
  }

  lemma TakeTwo(free: map<Addr, nat>, a: Addr, b: Addr)
    ensures free - {a} - {b} == free - {b} - {a}
  {
  }

  class Arena {
    var head: Heads
    var foot: Feet
    var dv: Addr
    var dvsize: nat
    var top: Addr
    var topsize: nat
    const small: SmallBins.Small
    const trees: TreeBins.Bins
    ghost var marks: seq<Addr>
    ghost var end: Addr
    ghost var free: map<Addr, nat>
    ghost var live: map<Addr, nat>
    ghost var binned: map<Addr, nat>

    ghost predicate BinsValid()
      reads this, small, trees
    {
      small.Valid() && trees.Valid() && Binned(small.lists, trees.tries, binned)
    }

    ghost predicate TagsValid()
      reads this
    {
      Tagging(Segment(head, foot, marks, end), top, topsize, free, live)
    }

    ghost predicate Valid()
      reads this, small, trees
    {
      BinsValid() && TagsValid() && Placed(free, dv, dvsize, binned)
    }

    /** `init_bins` and `init_top` on the first piece of memory. */
    constructor (base: Addr, size: nat)
      requires 0 < base && base % 8 == 0 && 0 < size && size % 8 == 0 && base + size + TOP_FOOT_SIZE <= SIZE_RANGE
      ensures Valid() && fresh(small) && fresh(trees) && top == base && topsize == size
      ensures live == map[] && free == map[]
    {
      small := new SmallBins.Small();
      trees := new TreeBins.Bins();
      dv, dvsize, top, topsize := 0, 0, base, size;
      head := map[base := Tag(size, true, false), base + size := Tag(TOP_FOOT_SIZE, false, false)];
      foot := map[];
      marks, end, free, live, binned := [base], base + size, map[], map[], map[];
    }

    // ---------------------------------------------------------------- bins

    /** `unlink_chunk` */
    method UnlinkChunk(p: Addr, s: nat)
      requires BinsValid() && p in binned && binned[p] == s && ChunkSize(s)
      modifies this`binned, small, trees
      ensures BinsValid() && binned == old(binned) - {p}
    {
      assert InBins(small.lists, trees.tries, p, s);
      SmallOrLarge(s);
      if SmallBins.IsSmall(s) {
        small.Unlink(p, s);
      } else {
        trees.UnlinkLarge(p, s);
      }
      BinnedWithout(old(small.lists), old(trees.tries), small.lists, trees.tries, binned, p, s);
      binned := binned - {p};
    }

    /** `insert_chunk` */
    method InsertChunk(p: Addr, s: nat)
      requires BinsValid() && p !in binned && ChunkSize(s) && p != 0
      modifies this`binned, small, trees
      ensures BinsValid() && binned == old(binned)[p := s]
    {
      SmallOrLarge(s);
      if SmallBins.IsSmall(s) {
        NotInSmall(small.links, small.smallmap, small.lists, trees.tries, binned, p);
        small.Insert(p, s);
      } else {
        NotInTrees(trees.mem, trees.treebins, trees.treemap, small.lists, trees.tries, binned, p);
        trees.InsertLarge(p, s);
      }
      BinnedWith(old(small.lists), old(trees.tries), small.lists, trees.tries, binned, p, s);
      binned := binned[p := s];
    }

    /** Takes the first chunk of a small bin that is not empty. */
    method UnlinkFirst(i: nat) returns (p: Addr)
      requires BinsValid() && i < SmallBins.NSMALLBINS && Marked(small.smallmap, i)
      modifies this`binned, small
      ensures BinsValid() && p in old(binned) && old(binned)[p] == 8 * i && binned == old(binned) - {p}
    {
      p := small.UnlinkFirst(i);
      assert InBins(old(small.lists), trees.tries, p, 8 * i);
      BinnedWithout(old(small.lists), trees.tries, small.lists, trees.tries, binned, p, 8 * i);
      binned := binned - {p};
    }

    // ---------------------------------------------------------------- tags

    /** `set_inuse_and_pinuse` on a free chunk */
    method SetInuseAndPinuse(p: Addr, s: nat)
      requires TagsValid() && p in free && free[p] == s
      modifies this`head, this`free, this`live
      ensures TagsValid() && p !in old(live) && free == old(free) - {p} && live == old(live)[p := s]
    {
      TakeAt(Segment(head, foot, marks, end), top, topsize, free, live, p);
      hide Tagging;
      head := head[p := Tag(s, true, true)];
      head := head[p + s := head[p + s].(pinuse := true)];
      free, live := free - {p}, live[p := s];
    }

    /** Keeps `nb` bytes of a free chunk for use and leaves the rest as a free chunk. */
    method SplitFree(p: Addr, s: nat, nb: nat) returns (r: Addr)
      requires TagsValid() && p in free && free[p] == s && ChunkSize(nb) && nb + MIN_CHUNK_SIZE <= s
      modifies this`head, this`foot, this`marks, this`free, this`live
      ensures TagsValid() && p !in old(live) && r == p + nb && r !in old(free)
      ensures free == (old(free) - {p})[r := s - nb] && live == old(live)[p := nb]
    {
      hide Tagging, WithMark;
      ghost var i := SplitAt(Segment(head, foot, marks, end), top, topsize, free, live, p, nb);
      r := p + nb;
      head := head[p := Tag(nb, true, true)];
      head := head[r := Tag(s - nb, true, false)];
      foot := foot[p + s := s - nb];
      marks := WithMark(marks, i, r);
      free, live := (free - {p})[r := s - nb], live[p := nb];
    }

    // ---------------------------------------------------------------- allocating

    /** `replace_dv`: the old victim goes to its small bin. */
    method ReplaceDv(p: Addr, s: nat)
      requires BinsValid() && (dvsize != 0 ==> dv != 0 && dv !in binned && ChunkSize(dvsize) && SmallBins.IsSmall(dvsize))
      modifies this`dv, this`dvsize, this`binned, small
      ensures BinsValid() && dv == p && dvsize == s
      ensures binned == if old(dvsize) == 0 then old(binned) else old(binned)[old(dv) := old(dvsize)]
    {
      var dvs := dvsize;
      if dvs != 0 {
        SmallOrLarge(dvs);
        NotInSmall(small.links, small.smallmap, small.lists, trees.tries, binned, dv);
        small.Insert(dv, dvs);
        BinnedWith(old(small.lists), trees.tries, small.lists, trees.tries, binned, dv, dvs);
        binned := binned[dv := dvs];
      }
      dvsize := s;
      dv := p;
    }

    /** Hands out part of `v`, which just left its bin, and makes the rest the designated victim. */
    method CarveToDv(v: Addr, s: nat, nb: nat, ghost b: map<Addr, nat>)
      requires TagsValid() && BinsValid() && Placed(free, dv, dvsize, b) && v in b && b[v] == s && binned == b - {v}
      requires ChunkSize(nb) && nb + MIN_CHUNK_SIZE <= s && SmallBins.IsSmall(dvsize)
      modifies this`head, this`foot, this`marks, this`free, this`live, this`dv, this`dvsize, this`binned, small
      ensures Valid() && Served(old(live), live, v, nb) && dv == v + nb && dvsize == s - nb
    {
      hide Tagging, Binned, Placed, Served, SmallBins.BinsOk, TreeBins.BinsOk;
      TookBinned(free, dv, dvsize, b, v);
      DvFacts(Segment(head, foot, marks, end), top, topsize, free, live, dv, dvsize, b);
      ghost var free0 := free;
      var r := SplitFree(v, s, nb);
      ServedBy(old(live), v, nb, nb);
      SplitToDv(free0, dv, dvsize, b, v, r, s - nb);
      ReplaceDv(r, s - nb);
    }

    /** `unlink_large_chunk` */
    method UnlinkTree(v: Addr, ghost s: nat)
      requires BinsValid() && v in binned && binned[v] == s && ChunkSize(s) && !SmallBins.IsSmall(s)
      modifies this`binned, trees
      ensures BinsValid() && binned == old(binned) - {v}
    {
      assert InBins(small.lists, trees.tries, v, s);
      SmallOrLarge(s);
      trees.UnlinkLarge(v, s);
      BinnedWithout(small.lists, old(trees.tries), small.lists, trees.tries, binned, v, s);
      binned := binned - {v};
    }

    /** Hands out the whole of `v`, which just left its bin. */
    method TakeBinned(v: Addr, s: nat, ghost nb: nat, ghost b: map<Addr, nat>)
      requires TagsValid() && BinsValid() && Placed(free, dv, dvsize, b) && v in b && b[v] == s && binned == b - {v}
      requires nb <= s < nb + MIN_CHUNK_SIZE
      modifies this`head, this`free, this`live
      ensures Valid() && Served(old(live), live, v, nb)
    {
      hide Tagging, Binned, Placed, Served, BestOf, NoneFits, SmallBins.BinsOk, TreeBins.BinsOk;
      TookBinned(free, dv, dvsize, b, v);
      SetInuseAndPinuse(v, s);
      ServedBy(old(live), v, s, nb);
    }

    /** `tmalloc_large`: null if nothing in the tree bins fits better than the designated victim. */
    method TmallocLarge(nb: nat) returns (v: Addr)
      requires Valid() && ChunkSize(nb) && !SmallBins.IsSmall(nb)
      modifies this`head, this`foot, this`marks, this`free, this`live, this`binned, small, trees
      ensures Valid()
      ensures v != 0 ==> Served(old(live), live, v, nb) && BestOf(old(free), v, nb)
      ensures v != 0 ==> v in old(binned) && nb <= old(binned)[v] && (nb <= dvsize ==> old(binned)[v] < dvsize)
      ensures v == 0 ==> binned == old(binned)
      ensures v == 0 ==> live == old(live) && free == old(free) && (if nb <= dvsize then BestOf(free, dv, nb) else NoneFits(free, nb))
    {
      hide Tagging, Binned, Placed, Served, BestOf, NoneFits, SmallBins.BinsOk, TreeBins.BinsOk;
      SmallOrLarge(nb);
      var rsize;
      v, rsize := trees.FindBest(nb);
      BestBinned(small.lists, trees.tries, binned, nb, v, rsize);
      BestWithDv(free, dv, dvsize, binned, nb, v);
      LargeFit(Segment(head, foot, marks, end), top, topsize, free, live, dv, dvsize, binned, nb, v, rsize);
      if v != 0 && rsize < TreeSearch.Remainder(dvsize, nb) {
        ghost var b := binned;
        UnlinkTree(v, nb + rsize);
        if rsize < MIN_CHUNK_SIZE {
          TakeBinned(v, rsize + nb, nb, b);
        } else {
          CarveToBin(v, rsize + nb, nb, b);
        }
      } else {
        v := 0;
      }
    }

    /** Hands out part of `v`, which just left its bin, and puts the rest in the bin for its size. */
    method CarveToBin(v: Addr, s: nat, nb: nat, ghost b: map<Addr, nat>)
      requires TagsValid() && BinsValid() && Placed(free, dv, dvsize, b) && v in b && b[v] == s && binned == b - {v}
      requires ChunkSize(nb) && nb + MIN_CHUNK_SIZE <= s && ChunkSize(s)
      modifies this`head, this`foot, this`marks, this`free, this`live, this`binned, small, trees
      ensures Valid() && Served(old(live), live, v, nb)
    {
      hide Tagging, Binned, Placed, Served, BestOf, NoneFits, SmallBins.BinsOk, TreeBins.BinsOk;
      TookBinned(free, dv, dvsize, b, v);
      ghost var free0 := free;
      var r := SplitFree(v, s, nb);
      ServedBy(old(live), v, nb, nb);
      SplitToBin(free0, dv, dvsize, b, v, r, s - nb);
      InsertChunk(r, s - nb);
    }

    /** `tmalloc_small` */
    method TmallocSmall(nb: nat) returns (v: Addr)
      requires Valid() && ChunkSize(nb) && SmallBins.IsSmall(nb) && trees.treemap != 0 && dvsize < nb
      modifies this`head, this`foot, this`marks, this`free, this`live, this`dv, this`dvsize, this`binned, small, trees
      ensures Valid() && v != 0 && Served(old(live), live, v, nb) && SmallestLarge(old(binned), v)
      ensures RestIsVictim(old(dv), old(dvsize), v, nb, old(binned)[v], dv, dvsize)
    {
      hide Tagging, Binned, Placed, Served, BestOf, NoneFits, SmallestLarge, SmallBins.BinsOk, TreeBins.BinsOk;
      var rsize;
      v, rsize := trees.FindSmallest(nb);
      SmallestBinned(small.lists, trees.tries, binned, nb, v, rsize);
      BestBinned(small.lists, trees.tries, binned, nb, v, rsize);
      TreeFit(Segment(head, foot, marks, end), top, topsize, free, live, dv, dvsize, small.lists, trees.tries, binned, nb, v, rsize);
      ghost var b := binned;
      UnlinkTree(v, nb + rsize);
      if rsize < MIN_CHUNK_SIZE {
        TakeBinned(v, rsize + nb, nb, b);
      } else {
        CarveToDv(v, rsize + nb, nb, b);
      }
    }

    /** Serves a request from the designated victim. */
    method FromDv(nb: nat) returns (p: Addr)
      requires Valid() && ChunkSize(nb) && nb <= dvsize
      modifies this`head, this`foot, this`marks, this`free, this`live, this`dv, this`dvsize
      ensures Valid() && p != 0 && Served(old(live), live, p, nb) && p == old(dv)
      ensures RestIsVictim(0, 0, p, nb, old(dvsize), dv, dvsize)
    {
      hide Tagging, Binned, Placed, Served, BestOf, NoneFits, SmallBins.BinsOk, TreeBins.BinsOk;
      DvFacts(Segment(head, foot, marks, end), top, topsize, free, live, dv, dvsize, binned);
      var rsize := dvsize - nb;
      p := dv;
      TookDv(free, dv, dvsize, binned, p + nb, rsize);
      if rsize >= MIN_CHUNK_SIZE {
        var dvs := dvsize;
        dv, dvsize := p + nb, rsize;
        var _ := SplitFree(p, dvs, nb);
        ServedBy(old(live), p, nb, nb);
      } else {
        var dvs := dvsize;
        dvsize, dv := 0, 0;
        SetInuseAndPinuse(p, dvs);
        ServedBy(old(live), p, dvs, nb);
      }
    }

    /** Serves a request from the top chunk. */
    method FromTop(nb: nat) returns (p: Addr)
      requires Valid() && ChunkSize(nb) && nb < topsize
      modifies this`head, this`marks, this`live, this`top, this`topsize
      ensures Valid() && p != 0 && Served(old(live), live, p, nb) && p == old(top) && top == p + nb && topsize == old(topsize) - nb
    {
      hide Tagging, Binned, Placed, Served, BestOf, NoneFits, SmallBins.BinsOk, TreeBins.BinsOk;
      TopAt(Segment(head, foot, marks, end), top, topsize, free, live, nb);
      topsize := topsize - nb;
      p := top;
      top := p + nb;
      head := head[top := Tag(topsize, true, false)];
      head := head[p := Tag(nb, true, true)];
      marks, live := marks + [top], live[p := nb];
      ServedBy(old(live), p, nb, nb);
    }

    /** The part of `sys_alloc` that matters here: top grows by `extra` bytes, and serves the
        request if it is large enough now. */
    method SysAlloc(nb: nat, extra: nat) returns (p: Addr)
      requires Valid() && (nb == MAX_SIZE_T || ChunkSize(nb)) && extra % 8 == 0 && end + extra + TOP_FOOT_SIZE <= SIZE_RANGE
      modifies this`head, this`marks, this`live, this`top, this`topsize, this`end
      ensures Valid() && (p == 0 <==> nb == MAX_SIZE_T || old(topsize) + extra <= nb)
      ensures if p == 0 then live == old(live) else Served(old(live), live, p, nb) && p == old(top)
    {
      hide Tagging, Binned, Placed, Served, BestOf, NoneFits, SmallBins.BinsOk, TreeBins.BinsOk;
      if nb == MAX_SIZE_T {
        return 0;
      }
      GrowAt(Segment(head, foot, marks, end), top, topsize, free, live, extra);
      var end' := top + topsize + extra;
      topsize := topsize + extra;
      head := head[top := Tag(topsize, true, false)];
      head := head[end' := Tag(TOP_FOOT_SIZE, false, false)];
      end := end';
      if nb < topsize {
        p := FromTop(nb);
      } else {
        p := 0;
      }
    }

    /** Serves a small request from the small bins, or from the smallest tree chunk; null if only
        the designated victim or top can serve it. */
    method SmallRequest(nb: nat) returns (p: Addr)
      requires Valid() && ChunkSize(nb) && SmallBins.IsSmall(nb)
      modifies this`head, this`foot, this`marks, this`free, this`live, this`dv, this`dvsize, this`binned, small, trees
      ensures Valid()
      ensures p != 0 ==> Served(old(live), live, p, nb) && BestOf(old(binned), p, nb)
      ensures p != 0 ==> p in old(binned) && nb <= old(binned)[p] && RestIsVictim(old(dv), old(dvsize), p, nb, old(binned)[p], dv, dvsize)
      ensures p != 0 ==> Snug(old(binned), nb) || old(dvsize) < nb
      ensures p == 0 ==> live == old(live) && free == old(free) && dv == old(dv) && dvsize == old(dvsize) && binned == old(binned)
      ensures p == 0 ==> !Snug(binned, nb) && (dvsize < nb ==> NoneFits(free, nb))
    {
      hide Tagging, Binned, Placed, Served, BestOf, NoneFits, SmallestLarge, SmallBins.BinsOk, TreeBins.BinsOk;
      var idx := SmallBins.SmallIndex(nb);
      var smallbits := ShiftDown(small.smallmap, idx);
      ThisOrNext(small.smallmap, idx);
      SnugIff(small.links, small.smallmap, small.lists, trees.tries, binned, nb);
      ghost var b := binned;
      if Meets(smallbits, 3) {
        idx := idx + if Meets(smallbits, 1) then 0 else 1;
        ghost var before := (small.links, small.smallmap, small.lists, trees.tries);
        p := UnlinkFirst(idx);
        FirstBinIsBest(before.0, before.1, before.2, before.3, b, nb, idx, p);
        BinnedNonNull(Segment(head, foot, marks, end), top, topsize, free, live, dv, dvsize, b, p);
        TakeBinned(p, 8 * idx, nb, b);
      } else if nb > dvsize {
        if smallbits != 0 {
          SmallLeftFirst(small.smallmap, idx);
          var i := FirstMarked(SmallLeft(small.smallmap, idx));
          ghost var before := (small.links, small.smallmap, small.lists, trees.tries);
          p := UnlinkFirst(i);
          FirstBinIsBest(before.0, before.1, before.2, before.3, b, nb, i, p);
          BinnedNonNull(Segment(head, foot, marks, end), top, topsize, free, live, dv, dvsize, b, p);
          CarveToDv(p, 8 * i, nb, b);
        } else if trees.treemap != 0 {
          NoneSmall(small.links, small.smallmap, small.lists, nb);
          ghost var before := (small.lists, trees.tries);
          p := TmallocSmall(nb);
          SmallestIsBest(before.0, before.1, b, nb, p);
        } else {
          NoneSmall(small.links, small.smallmap, small.lists, nb);
          NoTrees(trees.mem, trees.treebins, trees.treemap, trees.tries);
          NothingBinned(small.lists, trees.tries, binned, nb);
          BestWithDv(free, dv, dvsize, binned, nb, 0);
          p := 0;
        }
      } else {
        p := 0;
      }
    }

    /** The end of `dlmalloc`: the designated victim, then top, then the system. */
    method FromVictimOrTop(nb: nat, extra: nat) returns (p: Addr)
      requires Valid() && (nb == MAX_SIZE_T || ChunkSize(nb)) && extra % 8 == 0 && end + extra + TOP_FOOT_SIZE <= SIZE_RANGE
      modifies this`head, this`foot, this`marks, this`free, this`live, this`dv, this`dvsize, this`top, this`topsize, this`end
      ensures Valid()
      ensures p == 0 <==> nb == MAX_SIZE_T || (old(dvsize) < nb && old(topsize) + extra <= nb)
      ensures if p == 0 then live == old(live) else Served(old(live), live, p, nb) && p !in old(binned)
      ensures p != 0 && nb <= old(dvsize) ==> p == old(dv) && RestIsVictim(0, 0, p, nb, old(dvsize), dv, dvsize)
      ensures p != 0 && old(dvsize) < nb ==> p == old(top) && p != old(dv) && dv == old(dv) && dvsize == old(dvsize)
    {
      hide Tagging, Binned, Placed, Served, BestOf, NoneFits, SmallBins.BinsOk, TreeBins.BinsOk;
      DvFacts(Segment(head, foot, marks, end), top, topsize, free, live, dv, dvsize, binned);
      GrowAt(Segment(head, foot, marks, end), top, topsize, free, live, 0);
      TopNotFree(Segment(head, foot, marks, end), top, topsize, free, live);
      NotPlaced(free, dv, dvsize, binned, top);
      if nb <= dvsize {
        p := FromDv(nb);
      } else if nb < topsize {
        p := FromTop(nb);
      } else {
        p := SysAlloc(nb, extra);
      }
    }

    /** `dlmalloc`; `extra` is how much memory the system would add. The result is null, or the
        address behind the head of a chunk. */
    method Malloc(bytes: nat, extra: nat) returns (mem: Addr)
      requires Valid() && bytes < SIZE_RANGE && extra % 8 == 0 && end + extra + TOP_FOOT_SIZE <= SIZE_RANGE
      modifies this, small, trees
      ensures Valid()
      ensures mem != 0 ==> bytes < MAX_REQUEST && mem >= TWO_WORDS && Served(old(live), live, mem - TWO_WORDS, RequestSize(bytes))
      ensures mem == 0 ==> live == old(live)
      ensures mem == 0 && bytes < MAX_REQUEST ==>
                NoneFits(old(free), RequestSize(bytes)) && old(topsize) + extra <= RequestSize(bytes)
      ensures MAX_SMALL_REQUEST < bytes < MAX_REQUEST && !NoneFits(old(free), RequestSize(bytes)) ==>
                mem >= TWO_WORDS && BestOf(old(free), mem - TWO_WORDS, RequestSize(bytes))
      ensures bytes <= MAX_SMALL_REQUEST && !NoneFits(old(free), RequestSize(bytes)) ==>
                mem >= TWO_WORDS &&
                if Snug(old(binned), RequestSize(bytes)) || old(dvsize) < RequestSize(bytes)
                then BestOf(old(binned), mem - TWO_WORDS, RequestSize(bytes)) else mem - TWO_WORDS == old(dv)
      ensures mem != 0 ==>
                ServedFrom(bytes <= MAX_SMALL_REQUEST, mem - TWO_WORDS, RequestSize(bytes), old(top), old(dv), old(dvsize), old(binned), dv, dvsize)
      ensures MAX_SMALL_REQUEST < bytes < MAX_REQUEST && RequestSize(bytes) <= old(dvsize) && BestOf(old(free), old(dv), RequestSize(bytes)) ==>
                mem - TWO_WORDS == old(dv)
    {
      hide Tagging, Binned, Placed, Served, BestOf, NoneFits, SmallBins.BinsOk, TreeBins.BinsOk;
      if bytes < MAX_REQUEST {
        RequestFits(bytes);
      }
      var nb;
      if bytes <= MAX_SMALL_REQUEST {
        nb := if bytes < MIN_REQUEST then MIN_CHUNK_SIZE else PadRequest(bytes);
        var p := SmallRequest(nb);
        if p != 0 {
          return p + TWO_WORDS;
        }
      } else if bytes >= MAX_REQUEST {
        nb := MAX_SIZE_T;
      } else {
        nb := PadRequest(bytes);
        NotBoth(free, nb);
        if trees.treemap != 0 {
          ghost var b, f := binned, free;
          var p := TmallocLarge(nb);
          if p != 0 {
            if nb <= dvsize {
              VictimLoses(f, dv, dvsize, b, nb, p);
            }
            return p + TWO_WORDS;
          }
        } else {
          NoTrees(trees.mem, trees.treebins, trees.treemap, trees.tries);
          NoneLarge(small.lists, trees.tries, binned, nb);
          BestWithDv(free, dv, dvsize, binned, nb, 0);
        }
      }
      var p := FromVictimOrTop(nb, extra);
      mem := if p == 0 then 0 else p + TWO_WORDS;
    }

    // ---------------------------------------------------------------- freeing

    ghost function Seg(): Segment
      reads this
    {
      Segment(head, foot, marks, end)
    }

    /** `set_free_with_pinuse`: a chunk in use follows. */
    method SetFreeWithPinuse(p: Addr, psize: nat, next: Addr, ghost i: nat, ghost back: bool)
      requires TagsValid() && Merges(Seg(), top, free, live, i, back, false) && marks[i + 1] != top
      requires p == marks[First(i, back)] && next == marks[i + 1] && next == p + psize
      modifies this`head, this`foot, this`marks, this`free, this`live
      ensures TagsValid() && live == old(live) - {old(marks)[i]} && ChunkSize(psize) && p != 0
      ensures free == Without(old(free), back, p)[p := psize] && p !in Without(old(free), back, p)
    {
      hide Tagging, Around, Joined;
      JoinAt(Seg(), top, topsize, free, live, i, back, false);
      head := head[next := head[next].(pinuse := false)];
      head := head[p := Tag(psize, true, false)];
      foot := foot[p + psize := psize];
      free, live := Without(free, back, p)[p := psize], live - {marks[i]};
      marks := Joined(marks, First(i, back), Past(i, false));
    }

    /** `set_size_and_pinuse_of_free_chunk`, when the chunk `next` was free and is joined too. */
    method SetFree(p: Addr, psize: nat, ghost next: Addr, ghost i: nat, ghost back: bool)
      requires TagsValid() && Merges(Seg(), top, free, live, i, back, true)
      requires p == marks[First(i, back)] && next == marks[i + 1] && next in free && next + free[next] == p + psize
      modifies this`head, this`foot, this`marks, this`free, this`live
      ensures TagsValid() && live == old(live) - {old(marks)[i]} && ChunkSize(psize) && p != 0
      ensures free == (Without(old(free), back, p) - {next})[p := psize] && p !in Without(old(free), back, p) - {next}
    {
      hide Tagging, Around, Joined, Merges, Without;
      AroundNext(Seg(), top, free, live, i, back);
      WithoutOne(Without(free, back, p), next);
      JoinAt(Seg(), top, topsize, free, live, i, back, true);
      head := head[p := Tag(psize, true, false)];
      foot := foot[p + psize := psize];
      free, live := (Without(free, back, p) - {next})[p := psize], live - {marks[i]};
      marks := Joined(marks, First(i, back), Past(i, true));
    }

    /** Joins the chunk, and a free one before it, to top. */
    method MergeTop(p: Addr, psize: nat, ghost i: nat, ghost back: bool)
      requires TagsValid() && Merges(Seg(), top, free, live, i, back, false) && marks[i + 1] == top
      requires p == marks[First(i, back)] && top == p + psize
      modifies this`head, this`marks, this`free, this`live, this`top, this`topsize
      ensures TagsValid() && live == old(live) - {old(marks)[i]} && free == Without(old(free), back, p) && top == p
    {
      assert i + 1 < |marks|;
      hide Tagging, Around;
      JoinTopAt(Seg(), top, topsize, free, live, i, back);
      topsize := topsize + psize;
      top := p;
      head := head[p := Tag(topsize, true, false)];
      free, live := Without(free, back, p), live - {marks[i]};
      marks := marks[..First(i, back) + 1];
    }

    /** Joins the free chunk that comes next to the chunk and a free one before it, which may be the
        designated victim, and puts the whole in a bin unless it is. */
    method MergeBinned(p: Addr, size: nat, next: Addr, ghost i: nat, ghost back: bool, ghost free0: map<Addr, nat>)
      requires TagsValid() && BinsValid() && Placed(free0, dv, dvsize, binned) && free0 == Without(free, back && p != dv, p)
      requires i + 1 < |marks| && (back ==> i > 0) && p == marks[First(i, back)] && p < next == marks[i + 1] == p + size && next in head
      requires Merges(Seg(), top, free, live, i, back, true) && next != dv
      requires next in free && free[next] == head[next].size && ChunkSize(free[next]) && next != 0
      requires (p == dv ==> back && dvsize != 0 && dvsize <= size) && (dvsize != 0 ==> dv in free && free[dv] == dvsize) && (dvsize == 0 ==> dv == 0)
      modifies this`head, this`foot, this`marks, this`free, this`live, this`dvsize, this`binned, small, trees
      ensures Valid() && live == old(live) - {old(marks)[i]} && VictimKept(old(dv), old(dvsize), dv, dvsize, top)
    {
      hide Tagging, Binned, Placed, SmallBins.BinsOk, TreeBins.BinsOk, Around, Merges;
      var nsize := head[next].size;
      var psize := size + nsize;
      BinnedIfNotDv(free0, dv, dvsize, binned, next);
      TookBinned(free0, dv, dvsize, binned, next);
      UnlinkChunk(next, nsize);
      ghost var f := free0 - {next};
      SetFree(p, psize, next, i, back);
      if p == dv {
        DvGrown(f, dv, dvsize, binned, psize);
        TakeTwo(old(free), dv, next);
        dvsize := psize;
      } else {
        PlacedWith(f, dv, dvsize, binned, p, psize);
        InsertChunk(p, psize);
      }
    }

    /** Joins the designated victim, which comes next, to the chunk and a free one before it. */
    method MergeDv(p: Addr, psize: nat, next: Addr, ghost i: nat, ghost back: bool)
      requires TagsValid() && BinsValid() && Merges(Seg(), top, free, live, i, back, true) && Placed(Without(free, back, p), dv, dvsize, binned)
      requires p == marks[First(i, back)] && p < next == marks[i + 1] == p + psize && next == dv && next in free && free[next] == dvsize != 0
      modifies this`head, this`foot, this`marks, this`free, this`live, this`dv, this`dvsize
      ensures Valid() && live == old(live) - {old(marks)[i]} && VictimKept(old(dv), old(dvsize), dv, dvsize, top)
    {
      hide Tagging, Binned, Placed, SmallBins.BinsOk, TreeBins.BinsOk, Around, Merges;
      var dsize := dvsize + psize;
      TookDv(Without(free, back, p), dv, dvsize, binned, p, dsize);
      dvsize := dsize;
      dv := p;
      SetFree(p, dsize, next, i, back);
    }

    /** `dlfree` */
    method Release(mem: Addr)
      requires Valid() && (mem != 0 ==> mem >= TWO_WORDS && mem - TWO_WORDS in live)
      modifies this, small, trees
      ensures Valid() && live == if mem == 0 then old(live) else old(live) - {mem - TWO_WORDS}
      ensures VictimKept(old(dv), old(dvsize), dv, dvsize, top)
    {
      hide Tagging, Binned, Placed, SmallBins.BinsOk, TreeBins.BinsOk, Around, Merges;
      if mem == 0 {
        return;
      }
      var p := mem - TWO_WORDS;
      ghost var i := LiveAt(Seg(), top, topsize, free, live, p);
      AroundFacts(Seg(), top, topsize, free, live, i);
      DvNotLive(Seg(), top, topsize, free, live, dv, dvsize, binned, p);
      var psize := head[p].size;
      var next := p + psize;
      ghost var back := !head[p].pinuse;
      ghost var f := free;
      if !head[p].pinuse {
        var prevsize := foot[p];
        p := p - prevsize;
        psize := psize + prevsize;
        if p != dv {
          BinnedIfNotDv(free, dv, dvsize, binned, p);
          TookBinned(free, dv, dvsize, binned, p);
          UnlinkChunk(p, prevsize);
          f := f - {p};
        } else if head[next].pinuse && head[next].cinuse {
          DvGrown(free, dv, dvsize, binned, psize);
          dvsize := psize;
          SetFreeWithPinuse(p, psize, next, i, true);
          return;
        }
      }
      ReleaseForward(p, psize, next, i, back, f);
    }

    /** The rest of `dlfree`, once a free chunk before has been joined; `free0` are the free chunks
        without it, unless it is the designated victim. */
    method ReleaseForward(p: Addr, size: nat, next: Addr, ghost i: nat, ghost back: bool, ghost free0: map<Addr, nat>)
      requires TagsValid() && BinsValid() && Placed(free0, dv, dvsize, binned) && free0 == Without(free, back && p != dv, p)
      requires i + 1 < |marks| && (back ==> i > 0) && p == marks[First(i, back)] && p < next == marks[i + 1] == p + size && next in head
      requires Merges(Seg(), top, free, live, i, back, next != top && !head[next].cinuse) && (next == top ==> !head[next].cinuse)
      requires next != top && !head[next].cinuse ==> next in free && free[next] == head[next].size && ChunkSize(free[next]) && next != 0
      requires (p == dv ==> back && dvsize != 0) && (dvsize != 0 ==> dv in free && free[dv] == dvsize) && (dvsize == 0 ==> dv == 0)
      requires back && p == dv ==> !head[next].cinuse && dvsize <= size
      modifies this, small, trees
      ensures Valid() && live == old(live) - {old(marks)[i]} && VictimKept(old(dv), old(dvsize), dv, dvsize, top)
    {
      hide Tagging, Binned, Placed, SmallBins.BinsOk, TreeBins.BinsOk, Around, Merges;
      var psize := size;
      if !head[next].cinuse {
        if next == top {
          if p == dv {
            TookDv(free0, dv, dvsize, binned, 0, 0);
          }
          MergeTop(p, psize, i, back);
          if p == dv {
            dv, dvsize := 0, 0;
          }
          return;
        } else if next == dv {
          MergeDv(p, psize, next, i, back);
          return;
        } else {
          MergeBinned(p, psize, next, i, back, free0);
          return;
        }
      } else {
        SetFreeWithPinuse(p, psize, next, i, back);
      }
      PlacedWith(free0, dv, dvsize, binned, p, psize);
      InsertChunk(p, psize);
    }

    /** A program that fills the block it was given overwrites the foot word behind it. */
    method FillBlock(p: Addr, w: nat)
      requires Valid() && p in live && p in head
      modifies this`foot
      ensures Valid()
    {
      UserWrite(head, foot, marks, end, p, w);
      foot := foot[p + head[p].size := w];
    }
  }
}
