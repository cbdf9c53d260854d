/**
 Boundary tags of the kernel allocator: the head and foot words of the chunks that tile a
 segment from its base to the top chunk, and what each change of the tiling does to them.
 */
module BoundaryTags {
  import opened Tries
  import opened BinIndex

  const MIN_CHUNK_SIZE: nat := 16
  const TOP_FOOT_SIZE: nat := 40

  /** A head word: the chunk's size, and whether its predecessor and itself are in use. */
  datatype Tag = Tag(size: nat, pinuse: bool, cinuse: bool)

  type Heads = map<Addr, Tag>
  type Feet = map<Addr, nat>

  ghost predicate Ascending(marks: seq<Addr>)
  {
    forall i, j :: 0 <= i < j < |marks| ==> marks[i] < marks[j]
  }

  ghost predicate Used(head: Heads, marks: seq<Addr>, j: nat)
    requires j < |marks|
  {
    marks[j] in head && head[marks[j]].cinuse
  }

  /** The words at the `j`-th mark agree with the chunk that starts there and the one before it. */
  ghost predicate TagOk(head: Heads, foot: Feet, marks: seq<Addr>, j: nat)
    requires j < |marks|
  {
    var a, last := marks[j], j + 1 == |marks|;
    a in head && a % 8 == 0 &&
    (head[a].pinuse <==> j == 0 || Used(head, marks, j - 1)) &&
    (if last then !head[a].cinuse else head[a].size == marks[j + 1] - a >= MIN_CHUNK_SIZE) &&
    (j > 0 && !Used(head, marks, j - 1) ==> Used(head, marks, j) && a in foot && foot[a] == a - marks[j - 1])
  }

  /** The chunks between consecutive marks tile the segment up to the last mark, which is the top
      chunk; the word after top marks the end of the segment. */
  ghost predicate Tiled(head: Heads, foot: Feet, marks: seq<Addr>, end: Addr)
  {
    marks != [] && Ascending(marks) && 0 < marks[0] && (forall j :: 0 <= j < |marks| ==> TagOk(head, foot, marks, j)) &&
    TopOk(head, marks[|marks| - 1], end)
  }

  ghost predicate TopOk(head: Heads, top: Addr, end: Addr)
  {
    top in head && end in head && top < end && end + TOP_FOOT_SIZE <= SIZE_RANGE && end % 8 == 0 &&
    head[top].size == end - top && head[end] == Tag(TOP_FOOT_SIZE, false, false)
  }

  ghost function Starts(marks: seq<Addr>): set<Addr> { set i | 0 <= i < |marks| - 1 :: marks[i] }

  ghost function Between(marks: seq<Addr>, lo: nat, hi: nat): set<Addr>
    requires lo <= hi <= |marks|
  {
    set i | lo <= i < hi :: marks[i]
  }

  /** The chunks at `starts` that are in use, or those that are not, with their sizes. */
  ghost function Chunks(head: Heads, starts: set<Addr>, inuse: bool): map<Addr, nat>
  {
    map a | a in starts && a in head && head[a].cinuse == inuse :: head[a].size
  }

  /** The free chunks below top, with their sizes. */
  ghost function Free(head: Heads, marks: seq<Addr>): map<Addr, nat> { Chunks(head, Starts(marks), false) }

  /** The chunks handed out, with their sizes. */
  ghost function Live(head: Heads, marks: seq<Addr>): map<Addr, nat> { Chunks(head, Starts(marks), true) }

  // ---------------------------------------------------------------- what a tiling means

  /** Every byte from the base to top is in exactly one chunk. */
  lemma {:induction false} ByteInOneChunk(head: Heads, foot: Feet, marks: seq<Addr>, end: Addr, x: Addr)
    requires Tiled(head, foot, marks, end) && marks[0] <= x < marks[|marks| - 1]
    ensures exists i :: 0 <= i < |marks| - 1 && InChunk(head, marks, i, x)
    ensures forall i, j :: 0 <= i < j < |marks| - 1 && InChunk(head, marks, i, x) ==> !InChunk(head, marks, j, x)
  {
    var i := 0;
    assert TagOk(head, foot, marks, 0);
    while x >= marks[i + 1]
      invariant 0 <= i < |marks| - 1 && marks[i] <= x
    {
      i := i + 1;
    }
    assert TagOk(head, foot, marks, i);
    assert InChunk(head, marks, i, x);
    forall i, j | 0 <= i < j < |marks| - 1 && InChunk(head, marks, i, x) ensures !InChunk(head, marks, j, x) {
      assert TagOk(head, foot, marks, i) && TagOk(head, foot, marks, j);
      assert marks[i + 1] <= marks[j];
    }
  }

  ghost predicate InChunk(head: Heads, marks: seq<Addr>, i: nat, x: Addr)
    requires i < |marks|
  {
    marks[i] in head && marks[i] <= x < marks[i] + head[marks[i]].size
  }

  /** No two neighbours are both free, and a free chunk does not border top. */
  lemma NeighboursInUse(head: Heads, foot: Feet, marks: seq<Addr>, end: Addr, i: nat)
    requires Tiled(head, foot, marks, end) && i < |marks| - 1 && !Used(head, marks, i)
    ensures i > 0 ==> Used(head, marks, i - 1)
    ensures i + 1 < |marks| - 1 && Used(head, marks, i + 1)
  {
    assert TagOk(head, foot, marks, i) && TagOk(head, foot, marks, i + 1);
  }

  lemma Position(head: Heads, foot: Feet, marks: seq<Addr>, end: Addr, p: Addr) returns (i: nat)
    requires Tiled(head, foot, marks, end) && (p in Live(head, marks) || p in Free(head, marks))
    ensures i < |marks| - 1 && marks[i] == p && (Used(head, marks, i) <==> p in Live(head, marks))
    ensures TagOk(head, foot, marks, i) && TagOk(head, foot, marks, i + 1)
    ensures p in Free(head, marks) <==> !Used(head, marks, i)
  {
    i :| 0 <= i < |marks| - 1 && marks[i] == p;
    assert TagOk(head, foot, marks, i) && TagOk(head, foot, marks, i + 1);
  }

  lemma MarkApart(marks: seq<Addr>, i: nat, a: Addr)
    requires Ascending(marks) && i < |marks| && (i == |marks| - 1 || a < marks[i + 1]) && marks[i] < a
    ensures a !in marks
  {
    forall j | 0 <= j < |marks| ensures marks[j] != a {
      assert j > i + 1 ==> marks[i + 1] < marks[j];
      assert j < i ==> marks[j] < marks[i];
    }
  }

  lemma Ordered(marks: seq<Addr>, i: nat, j: nat)
    requires Ascending(marks) && i < |marks| && j < |marks|
    ensures i < j <==> marks[i] < marks[j]
    ensures i == j <==> marks[i] == marks[j]
  {
  }

  /** What is known about the words at mark `j` and before. */
  ghost predicate TagsTo(head: Heads, foot: Feet, marks: seq<Addr>, j: nat)
    requires j < |marks|
  {
    TagOk(head, foot, marks, j) && (j > 0 ==> TagOk(head, foot, marks, j - 1) && marks[j - 1] < marks[j])
  }

  lemma Tags(head: Heads, foot: Feet, marks: seq<Addr>, end: Addr, j: nat)
    requires Tiled(head, foot, marks, end) && j < |marks|
    ensures TagsTo(head, foot, marks, j)
  {
    assert TagOk(head, foot, marks, j);
    if j > 0 {
      assert TagOk(head, foot, marks, j - 1);
    }
  }

  /** The tags in a tiling as one hideable fact. */
  ghost predicate AllTags(head: Heads, foot: Feet, marks: seq<Addr>)
  {
    forall j :: 0 <= j < |marks| ==> TagOk(head, foot, marks, j)
  }

  lemma ChunkFacts(head: Heads, foot: Feet, marks: seq<Addr>, end: Addr, i: nat)
    requires Tiled(head, foot, marks, end) && i < |marks| - 1
    ensures marks[i] in head && marks[i + 1] in head && head[marks[i]].size == marks[i + 1] - marks[i] >= MIN_CHUNK_SIZE
    ensures marks[i] < marks[|marks| - 1] && marks[i + 1] <= marks[|marks| - 1] < end
    ensures marks[i] % 8 == 0 && marks[i + 1] % 8 == 0
  {
    assert TagOk(head, foot, marks, i) && TagOk(head, foot, marks, i + 1);
    Ordered(marks, i, |marks| - 1);
    Ordered(marks, i + 1, |marks| - 1);
  }

  /** A tiling from its parts. */
  lemma TiledFrom(head: Heads, foot: Feet, marks: seq<Addr>, end: Addr)
    requires marks != [] && Ascending(marks) && 0 < marks[0] && AllTags(head, foot, marks) && TopOk(head, marks[|marks| - 1], end)
    ensures Tiled(head, foot, marks, end)
  {
  }

  ghost predicate SameChunk(head: Heads, head': Heads, a: Addr)
  {
    a in head && a in head' && head'[a].size == head[a].size && head'[a].cinuse == head[a].cinuse
  }

  lemma ChunksSame(head: Heads, head': Heads, starts: set<Addr>, inuse: bool)
    requires forall a :: a in starts ==> SameChunk(head, head', a)
    ensures Chunks(head', starts, inuse) == Chunks(head, starts, inuse)
  {
  }

  lemma ChunksLeft(head: Heads, starts: set<Addr>, gone: set<Addr>, inuse: bool)
    ensures Chunks(head, starts - gone, inuse) == Chunks(head, starts, inuse) - gone
  {
  }

  lemma ChunksAdded(head: Heads, starts: set<Addr>, p: Addr, inuse: bool)
    requires p in head && p !in starts
    ensures Chunks(head, starts + {p}, inuse) ==
            if head[p].cinuse == inuse then Chunks(head, starts, inuse)[p := head[p].size] else Chunks(head, starts, inuse)
  {
  }

  /** The chunks when only the one at `p` changes. */
  lemma ChunksRetagged(head: Heads, head': Heads, starts: set<Addr>, p: Addr, inuse: bool)
    requires forall a :: a in starts && a != p ==> SameChunk(head, head', a)
    requires p in head' && p in starts
    ensures Chunks(head', starts, inuse) ==
            if head'[p].cinuse == inuse then (Chunks(head, starts, inuse) - {p})[p := head'[p].size]
            else Chunks(head, starts, inuse) - {p}
  {
    var old' := starts - {p};
    assert starts == old' + {p};
    ChunksReplaced(head, head', starts, {p}, p, inuse);
    hide Chunks;
  }

  /** The chunks left when those in `gone` are replaced by one at `p`. */
  lemma ChunksReplaced(head: Heads, head': Heads, starts: set<Addr>, gone: set<Addr>, p: Addr, inuse: bool)
    requires forall a :: a in starts - gone ==> SameChunk(head, head', a)
    requires p in head' && p !in starts - gone
    ensures Chunks(head', starts - gone + {p}, inuse) ==
            if head'[p].cinuse == inuse then (Chunks(head, starts, inuse) - gone)[p := head'[p].size]
            else Chunks(head, starts, inuse) - gone
  {
    ChunksLeft(head, starts, gone, inuse);
    ChunksSame(head, head', starts - gone, inuse);
    ChunksAdded(head', starts - gone, p, inuse);
    hide Chunks;
  }

  lemma StartIndex(marks: seq<Addr>, a: Addr) returns (j: nat)
    requires a in Starts(marks)
    ensures j < |marks| - 1 && marks[j] == a
  {
    j :| 0 <= j < |marks| - 1 && marks[j] == a;
  }

  // ---------------------------------------------------------------- taking a whole free chunk

  function SetInuse(head: Heads, p: Addr, s: nat): Heads
    requires p + s in head && s > 0
  {
    head[p := Tag(s, true, true)][p + s := head[p + s].(pinuse := true)]
  }

  lemma TakeTag(head: Heads, foot: Feet, marks: seq<Addr>, i: nat, j: nat)
    requires Ascending(marks) && i < |marks| - 1 && j < |marks| && !Used(head, marks, i) && marks[i + 1] in head
    requires TagsTo(head, foot, marks, i) && TagsTo(head, foot, marks, j) && marks[i] < marks[i + 1]
    ensures TagOk(SetInuse(head, marks[i], marks[i + 1] - marks[i]), foot, marks, j)
  {
    Ordered(marks, i, j);
    Ordered(marks, i + 1, j);
    if j > 0 {
      Ordered(marks, i, j - 1);
      Ordered(marks, i + 1, j - 1);
    }
    hide Ascending;
  }

  lemma TakeWhole(head: Heads, foot: Feet, marks: seq<Addr>, end: Addr, i: nat)
    requires Tiled(head, foot, marks, end) && i < |marks| - 1 && !Used(head, marks, i)
    ensures var p, s := marks[i], marks[i + 1] - marks[i];
            p in head && head[p].size == s > 0 && p + s in head &&
            Tiled(SetInuse(head, p, s), foot, marks, end) &&
            Free(SetInuse(head, p, s), marks) == Free(head, marks) - {p} &&
            Live(SetInuse(head, p, s), marks) == (Live(head, marks) - {p})[p := s]
  {
    hide TagOk, TagsTo, Free, Live, Used;
    ChunkFacts(head, foot, marks, end, i);
    var p, s := marks[i], marks[i + 1] - marks[i];
    var head' := SetInuse(head, p, s);
    Tags(head, foot, marks, end, i);
    forall j | 0 <= j < |marks| ensures TagOk(head', foot, marks, j) {
      Tags(head, foot, marks, end, j);
      TakeTag(head, foot, marks, i, j);
    }
    assert AllTags(head', foot, marks);
    TiledFrom(head', foot, marks, end);
    TakeMaps(head, foot, marks, end, i);
  }

  lemma TakeMaps(head: Heads, foot: Feet, marks: seq<Addr>, end: Addr, i: nat)
    requires Tiled(head, foot, marks, end) && i < |marks| - 1 && !Used(head, marks, i) && marks[i] < marks[i + 1] && marks[i + 1] in head
    ensures var p, s := marks[i], marks[i + 1] - marks[i];
            Free(SetInuse(head, p, s), marks) == Free(head, marks) - {p} &&
            Live(SetInuse(head, p, s), marks) == (Live(head, marks) - {p})[p := s]
  {
    hide Tiled, Starts, Chunks, Used;
    var p, s := marks[i], marks[i + 1] - marks[i];
    var head', S := SetInuse(head, p, s), Starts(marks);
    StartAt(marks, i);
    StartsTagged(head, foot, marks, end);
    ChunksRetagged(head, head', S, p, true);
    ChunksRetagged(head, head', S, p, false);
  }

  lemma StartAt(marks: seq<Addr>, i: nat)
    requires i < |marks| - 1
    ensures marks[i] in Starts(marks)
  {
  }

  lemma StartsTagged(head: Heads, foot: Feet, marks: seq<Addr>, end: Addr)
    requires Tiled(head, foot, marks, end)
    ensures forall a :: a in Starts(marks) ==> a in head
  {
    forall a | a in Starts(marks) ensures a in head {
      var j := StartIndex(marks, a);
      StartTag(head, foot, marks, end, j);
    }
  }

  lemma StartTag(head: Heads, foot: Feet, marks: seq<Addr>, end: Addr, j: nat)
    requires Tiled(head, foot, marks, end) && j < |marks|
    ensures marks[j] in head
  {
    assert TagOk(head, foot, marks, j);
  }

  // ---------------------------------------------------------------- splitting a free chunk

  ghost function WithMark(marks: seq<Addr>, i: nat, r: Addr): seq<Addr>
    requires i < |marks|
  {
    marks[..i + 1] + [r] + marks[i + 1..]
  }

  function SplitHeads(head: Heads, p: Addr, nb: nat, rsize: nat): Heads
  {
    head[p := Tag(nb, true, true)][p + nb := Tag(rsize, true, false)]
  }

  ghost predicate Splits(head: Heads, marks: seq<Addr>, i: nat, nb: nat)
  {
    i < |marks| - 1 && MIN_CHUNK_SIZE <= nb && nb % 8 == 0 && marks[i] + nb + MIN_CHUNK_SIZE <= marks[i + 1] &&
    !Used(head, marks, i)
  }

  lemma SplitAscending(marks: seq<Addr>, i: nat, r: Addr)
    requires Ascending(marks) && i < |marks| && marks[i] < r && (i + 1 < |marks| ==> r < marks[i + 1])
    ensures Ascending(WithMark(marks, i, r)) && r !in marks
  {
    MarkApart(marks, i, r);
    var m' := WithMark(marks, i, r);
    forall j, k | 0 <= j < k < |m'| ensures m'[j] < m'[k] {
      var j0, k0 := if j <= i then j else j - 1, if k <= i then k else k - 1;
      Ordered(marks, j0, k0);
      Ordered(marks, i, j0);
      if i + 1 < |marks| {
        Ordered(marks, i + 1, k0);
      }
    }
  }

  lemma SplitTag(head: Heads, foot: Feet, marks: seq<Addr>, i: nat, nb: nat, j: nat)
    requires Ascending(marks) && Splits(head, marks, i, nb) && j <= |marks| && marks[i] + nb !in marks
    requires TagsTo(head, foot, marks, i) && TagsTo(head, foot, marks, if j <= i then j else j - 1)
    requires i + 1 < |marks| - 1 && Used(head, marks, i + 1)
    ensures var p, n := marks[i], marks[i + 1];
            TagOk(SplitHeads(head, p, nb, n - p - nb), foot[n := n - p - nb], WithMark(marks, i, p + nb), j)
  {
    var p, n := marks[i], marks[i + 1];
    var r := p + nb;
    var marks' := WithMark(marks, i, r);
    var head', foot' := SplitHeads(head, p, nb, n - r), foot[n := n - r];
    if j <= i {
      SplitTagBelow(head, foot, marks, i, nb, j);
    } else if j == i + 1 {
      assert marks'[j - 1] == p && marks'[j] == r && marks'[j + 1] == n;
    } else {
      SplitTagAbove(head, foot, marks, i, nb, j);
    }
  }

  lemma SplitTagBelow(head: Heads, foot: Feet, marks: seq<Addr>, i: nat, nb: nat, j: nat)
    requires Ascending(marks) && Splits(head, marks, i, nb) && j <= i && marks[i] + nb !in marks
    requires TagsTo(head, foot, marks, i) && TagsTo(head, foot, marks, j)
    ensures var p, n := marks[i], marks[i + 1];
            TagOk(SplitHeads(head, p, nb, n - p - nb), foot[n := n - p - nb], WithMark(marks, i, p + nb), j)
  {
    var r := marks[i] + nb;
    var marks' := WithMark(marks, i, r);
    assert marks'[j] == marks[j] && marks'[j + 1] == if j == i then r else marks[j + 1];
    assert j > 0 ==> marks'[j - 1] == marks[j - 1];
    Ordered(marks, i, j);
    Ordered(marks, i + 1, j);
    hide WithMark, Ascending;
  }

  lemma SplitTagAbove(head: Heads, foot: Feet, marks: seq<Addr>, i: nat, nb: nat, j: nat)
    requires Ascending(marks) && Splits(head, marks, i, nb) && i + 1 < j <= |marks| && marks[i] + nb !in marks
    requires TagsTo(head, foot, marks, j - 1) && Used(head, marks, i + 1)
    ensures var p, n := marks[i], marks[i + 1];
            TagOk(SplitHeads(head, p, nb, n - p - nb), foot[n := n - p - nb], WithMark(marks, i, p + nb), j)
  {
    var r := marks[i] + nb;
    var marks' := WithMark(marks, i, r);
    assert marks'[j] == marks[j - 1] && (j < |marks| ==> marks'[j + 1] == marks[j]);
    assert marks'[j - 1] == if j == i + 2 then r else marks[j - 2];
    Ordered(marks, i, j - 1);
    Ordered(marks, i + 1, j - 1);
    Ordered(marks, i, j - 2);
    hide WithMark, Ascending;
  }

  lemma SplitTags(head: Heads, foot: Feet, marks: seq<Addr>, end: Addr, i: nat, nb: nat)
    requires Tiled(head, foot, marks, end) && Splits(head, marks, i, nb)
    requires Ascending(marks) && i + 1 < |marks| - 1 && Used(head, marks, i + 1) && marks[i] + nb !in marks
    ensures var p, n := marks[i], marks[i + 1];
            AllTags(SplitHeads(head, p, nb, n - p - nb), foot[n := n - p - nb], WithMark(marks, i, p + nb))
  {
    hide TagOk, TagsTo, Tiled, Ascending, SplitHeads, Used;
    var p, n := marks[i], marks[i + 1];
    var head', foot', marks' := SplitHeads(head, p, nb, n - p - nb), foot[n := n - p - nb], WithMark(marks, i, p + nb);
    Tags(head, foot, marks, end, i);
    forall j | 0 <= j < |marks'| ensures TagOk(head', foot', marks', j) {
      Tags(head, foot, marks, end, if j <= i then j else j - 1);
      SplitTag(head, foot, marks, i, nb, j);
    }
  }

  lemma SplitTiled(head: Heads, foot: Feet, marks: seq<Addr>, end: Addr, i: nat, nb: nat)
    requires Tiled(head, foot, marks, end) && Splits(head, marks, i, nb)
    ensures var p, n := marks[i], marks[i + 1];
            Tiled(SplitHeads(head, p, nb, n - p - nb), foot[n := n - p - nb], WithMark(marks, i, p + nb), end)
  {
    hide TagOk, TagsTo;
    var p, n := marks[i], marks[i + 1];
    var r := p + nb;
    NeighboursInUse(head, foot, marks, end, i);
    ChunkFacts(head, foot, marks, end, i);
    SplitAscending(marks, i, r);
    SplitTags(head, foot, marks, end, i, nb);
    var head', foot', marks' := SplitHeads(head, p, nb, n - r), foot[n := n - r], WithMark(marks, i, r);
    assert marks'[|marks'| - 1] == marks[|marks| - 1] && marks'[0] == marks[0];
    hide AllTags;
    TiledFrom(head', foot', marks', end);
  }

  lemma SplitMaps(head: Heads, foot: Feet, marks: seq<Addr>, end: Addr, i: nat, nb: nat)
    requires Tiled(head, foot, marks, end) && Splits(head, marks, i, nb)
    ensures var p, n := marks[i], marks[i + 1];
            var head', marks' := SplitHeads(head, p, nb, n - p - nb), WithMark(marks, i, p + nb);
            Free(head', marks') == (Free(head, marks) - {p})[p + nb := n - p - nb] &&
            Live(head', marks') == (Live(head, marks) - {p})[p := nb]
  {
    var p, n := marks[i], marks[i + 1];
    var r := p + nb;
    SplitAscending(marks, i, r);
    var head', marks', S := SplitHeads(head, p, nb, n - r), WithMark(marks, i, r), Starts(marks);
    StartsWith(marks, i, r);
    assert p in S && r !in S;
    StartsTagged(head, foot, marks, end);
    hide Tiled, WithMark, Starts, Chunks, Splits;
    forall inuse ensures Chunks(head', S + {r}, inuse) ==
                         if inuse then (Chunks(head, S, inuse) - {p})[p := nb] else (Chunks(head, S, inuse) - {p})[r := n - r] {
      ChunksRetagged(head, head', S, p, inuse);
      ChunksAdded(head', S, r, inuse);
    }
  }

  lemma StartsWith(marks: seq<Addr>, i: nat, r: Addr)
    requires i < |marks| - 1
    ensures Starts(WithMark(marks, i, r)) == Starts(marks) + {r}
  {
    var m' := WithMark(marks, i, r);
    forall a | a in Starts(marks) + {r} ensures a in Starts(m') {
      if a == r {
        assert m'[i + 1] == r;
      } else {
        var j :| 0 <= j < |marks| - 1 && marks[j] == a;
        assert m'[if j <= i then j else j + 1] == a;
      }
    }
    forall a | a in Starts(m') ensures a in Starts(marks) + {r} {
      var j :| 0 <= j < |m'| - 1 && m'[j] == a;
      assert j != i + 1 ==> marks[if j <= i then j else j - 1] == a;
    }
  }

  // ---------------------------------------------------------------- splitting top

  lemma TopTag(head: Heads, foot: Feet, marks: seq<Addr>, nb: nat, rsize: nat, j: nat)
    requires Ascending(marks) && marks != [] && MIN_CHUNK_SIZE <= nb && nb % 8 == 0 && j <= |marks|
    requires TagsTo(head, foot, marks, |marks| - 1) && TagsTo(head, foot, marks, if j < |marks| then j else j - 1)
    requires marks[|marks| - 1] + nb !in marks
    ensures TagOk(SplitHeads(head, marks[|marks| - 1], nb, rsize), foot, marks + [marks[|marks| - 1] + nb], j)
  {
    var k := |marks| - 1;
    var j0 := if j < |marks| then j else j - 1;
    Ordered(marks, j0, k);
    if j0 > 0 {
      Ordered(marks, j0 - 1, k);
    }
    hide Ascending;
  }

  lemma SplitTop(head: Heads, foot: Feet, marks: seq<Addr>, end: Addr, nb: nat)
    requires Tiled(head, foot, marks, end) && MIN_CHUNK_SIZE <= nb && nb % 8 == 0 && marks[|marks| - 1] + nb < end
    ensures var p := marks[|marks| - 1];
            var head', marks' := SplitHeads(head, p, nb, end - p - nb), marks + [p + nb];
            Tiled(head', foot, marks', end) && Free(head', marks') == Free(head, marks) &&
            Live(head', marks') == Live(head, marks)[p := nb] && p !in Live(head, marks) && p !in Free(head, marks)
  {
    hide TagOk, TagsTo, Free, Live;
    var k := |marks| - 1;
    var p := marks[k];
    var r := p + nb;
    SplitAscending(marks, k, r);
    assert WithMark(marks, k, r) == marks + [r];
    var head', marks' := SplitHeads(head, p, nb, end - r), marks + [r];
    Tags(head, foot, marks, end, k);
    forall j | 0 <= j < |marks'| ensures TagOk(head', foot, marks', j) {
      Tags(head, foot, marks, end, if j < |marks| then j else j - 1);
      TopTag(head, foot, marks, nb, end - r, j);
    }
    assert AllTags(head', foot, marks');
    TiledFrom(head', foot, marks', end);
    SplitTopMaps(head, foot, marks, end, nb);
  }

  lemma SplitTopMaps(head: Heads, foot: Feet, marks: seq<Addr>, end: Addr, nb: nat)
    requires marks != [] && Tiled(head, foot, marks, end) && 0 < nb && marks[|marks| - 1] + nb < end
    ensures var p := marks[|marks| - 1];
            var head', marks' := SplitHeads(head, p, nb, end - p - nb), marks + [p + nb];
            Free(head', marks') == Free(head, marks) && Live(head', marks') == Live(head, marks)[p := nb] &&
            p !in Live(head, marks) && p !in Free(head, marks)
  {
    hide Tiled, Starts, Chunks, Ascending;
    var p := marks[|marks| - 1];
    var r := p + nb;
    StartsBelow(head, foot, marks, end);
    var head', marks', S := SplitHeads(head, p, nb, end - r), marks + [r], Starts(marks);
    StartsAppended(marks, r);
    StartsTagged(head, foot, marks, end);
    OnlyStarts(head, marks, p);
    forall inuse ensures Chunks(head', S + {p}, inuse) == if inuse then Chunks(head, S, inuse)[p := nb] else Chunks(head, S, inuse) {
      ChunksSame(head, head', S, inuse);
      ChunksAdded(head', S, p, inuse);
    }
  }

  lemma StartsBelow(head: Heads, foot: Feet, marks: seq<Addr>, end: Addr)
    requires Tiled(head, foot, marks, end)
    ensures forall a :: a in Starts(marks) ==> a < marks[|marks| - 1]
  {
    forall a | a in Starts(marks) ensures a < marks[|marks| - 1] {
      var j := StartIndex(marks, a);
      Ordered(marks, j, |marks| - 1);
    }
  }

  lemma OnlyStarts(head: Heads, marks: seq<Addr>, p: Addr)
    requires p !in Starts(marks)
    ensures p !in Live(head, marks) && p !in Free(head, marks)
  {
  }

  lemma StartsAppended(marks: seq<Addr>, r: Addr)
    requires marks != []
    ensures Starts(marks + [r]) == Starts(marks) + {marks[|marks| - 1]}
  {
    var m' := marks + [r];
    forall a | a in Starts(marks) + {marks[|marks| - 1]} ensures a in Starts(m') {
      var j :| 0 <= j < |marks| && marks[j] == a;
      assert m'[j] == a;
    }
  }

  // ---------------------------------------------------------------- joining chunks

  ghost function Joined(marks: seq<Addr>, lo: nat, hi: nat): seq<Addr>
    requires lo < hi <= |marks|
  {
    marks[..lo + 1] + marks[hi..]
  }

  /** `set_free_with_pinuse` */
  function FreeHeads(head: Heads, p: Addr, n: Addr): Heads
    requires p < n && n in head
  {
    head[n := head[n].(pinuse := false)][p := Tag(n - p, true, false)]
  }

  /** The chunks `lo..hi` can become one free chunk. */
  ghost predicate Joins(head: Heads, marks: seq<Addr>, lo: nat, hi: nat)
  {
    lo < hi < |marks| - 1 && (lo > 0 ==> Used(head, marks, lo - 1)) && Used(head, marks, hi)
  }

  lemma JoinTag(head: Heads, foot: Feet, marks: seq<Addr>, lo: nat, hi: nat, j: nat)
    requires Ascending(marks) && Joins(head, marks, lo, hi) && j < |Joined(marks, lo, hi)|
    requires TagsTo(head, foot, marks, if j <= lo then j else j - lo - 1 + hi) && marks[lo] + MIN_CHUNK_SIZE <= marks[hi]
    requires marks[hi] in head
    ensures var p, n := marks[lo], marks[hi];
            TagOk(FreeHeads(head, p, n), foot[n := n - p], Joined(marks, lo, hi), j)
  {
    var marks' := Joined(marks, lo, hi);
    if j <= lo {
      assert marks'[j] == marks[j] && marks'[j + 1] == if j == lo then marks[hi] else marks[j + 1];
      assert j > 0 ==> marks'[j - 1] == marks[j - 1];
      Ordered(marks, lo, j);
      Ordered(marks, hi, j);
      hide Joined, Ascending;
    } else {
      JoinTagAbove(head, foot, marks, lo, hi, j);
    }
  }

  lemma JoinTagAbove(head: Heads, foot: Feet, marks: seq<Addr>, lo: nat, hi: nat, j: nat)
    requires Ascending(marks) && Joins(head, marks, lo, hi) && lo < j < |Joined(marks, lo, hi)|
    requires TagsTo(head, foot, marks, j - lo - 1 + hi) && marks[lo] + MIN_CHUNK_SIZE <= marks[hi]
    requires marks[hi] in head
    ensures var p, n := marks[lo], marks[hi];
            TagOk(FreeHeads(head, p, n), foot[n := n - p], Joined(marks, lo, hi), j)
  {
    var marks' := Joined(marks, lo, hi);
    var j0 := j - lo - 1 + hi;
    assert marks'[j] == marks[j0] && (j0 + 1 < |marks| ==> marks'[j + 1] == marks[j0 + 1]);
    assert marks'[j - 1] == if j == lo + 1 then marks[lo] else marks[j0 - 1];
    Ordered(marks, lo, j0);
    Ordered(marks, hi, j0);
    Ordered(marks, lo, j0 - 1);
    hide Joined, Ascending;
  }

  lemma JoinAscending(marks: seq<Addr>, lo: nat, hi: nat)
    requires Ascending(marks) && lo < hi <= |marks|
    ensures Ascending(Joined(marks, lo, hi))
  {
    var m' := Joined(marks, lo, hi);
    forall j, k | 0 <= j < k < |m'| ensures m'[j] < m'[k] {
      Ordered(marks, if j <= lo then j else j - lo - 1 + hi, if k <= lo then k else k - lo - 1 + hi);
    }
  }

  lemma JoinTiled(head: Heads, foot: Feet, marks: seq<Addr>, end: Addr, lo: nat, hi: nat)
    requires Tiled(head, foot, marks, end) && Joins(head, marks, lo, hi)
    ensures var p, n := marks[lo], marks[hi];
            p < n && n in head && Tiled(FreeHeads(head, p, n), foot[n := n - p], Joined(marks, lo, hi), end)
  {
    hide TagOk, TagsTo, Used;
    var p, n := marks[lo], marks[hi];
    ChunkFacts(head, foot, marks, end, lo);
    ChunkFacts(head, foot, marks, end, hi);
    Ordered(marks, lo + 1, hi);
    var head', foot', marks' := FreeHeads(head, p, n), foot[n := n - p], Joined(marks, lo, hi);
    JoinAscending(marks, lo, hi);
    forall j | 0 <= j < |marks'| ensures TagOk(head', foot', marks', j) {
      Tags(head, foot, marks, end, if j <= lo then j else j - lo - 1 + hi);
      JoinTag(head, foot, marks, lo, hi, j);
    }
    assert AllTags(head', foot', marks');
    assert marks'[0] == marks[0] && marks'[|marks'| - 1] == marks[|marks| - 1];
    TiledFrom(head', foot', marks', end);
  }

  lemma JoinMaps(head: Heads, foot: Feet, marks: seq<Addr>, end: Addr, lo: nat, hi: nat)
    requires Tiled(head, foot, marks, end) && Joins(head, marks, lo, hi) && marks[lo] < marks[hi] && marks[hi] in head
    ensures var p, n := marks[lo], marks[hi];
            Free(FreeHeads(head, p, n), Joined(marks, lo, hi)) == (Free(head, marks) - Between(marks, lo, hi))[p := n - p] &&
            Live(FreeHeads(head, p, n), Joined(marks, lo, hi)) == Live(head, marks) - Between(marks, lo, hi)
  {
    var p, n := marks[lo], marks[hi];
    var head', marks', gone, S := FreeHeads(head, p, n), Joined(marks, lo, hi), Between(marks, lo, hi), Starts(marks);
    StartsJoined(marks, lo, hi);
    assert p in gone;
    StartsTagged(head, foot, marks, end);
    hide Tiled, Joined, Between, Starts, Joins, Chunks;
    ChunksReplaced(head, head', S, gone, p, true);
    ChunksReplaced(head, head', S, gone, p, false);
  }

  lemma StartsJoined(marks: seq<Addr>, lo: nat, hi: nat)
    requires Ascending(marks) && lo < hi < |marks| - 1
    ensures Starts(Joined(marks, lo, hi)) == Starts(marks) - Between(marks, lo, hi) + {marks[lo]}
  {
    var m' := Joined(marks, lo, hi);
    forall a | a in Starts(m') ensures a in Starts(marks) - Between(marks, lo, hi) + {marks[lo]} {
      var j :| 0 <= j < |m'| - 1 && m'[j] == a;
      assert a == marks[if j <= lo then j else j - lo - 1 + hi];
    }
    forall a | a in Starts(marks) - Between(marks, lo, hi) + {marks[lo]} ensures a in Starts(m') {
      var j :| 0 <= j < |marks| - 1 && marks[j] == a && (j <= lo || hi <= j);
      assert m'[if j <= lo then j else j - hi + lo + 1] == a;
    }
  }

  lemma JoinTopTag(head: Heads, foot: Feet, marks: seq<Addr>, end: Addr, lo: nat, j: nat)
    requires Ascending(marks) && lo < |marks| - 1 && (lo > 0 ==> Used(head, marks, lo - 1)) && marks[lo] < end
    requires j <= lo && TagsTo(head, foot, marks, j)
    ensures TagOk(head[marks[lo] := Tag(end - marks[lo], true, false)], foot, marks[..lo + 1], j)
  {
    Ordered(marks, lo, j);
    if j > 0 {
      Ordered(marks, lo, j - 1);
    }
    hide Ascending;
  }

  lemma JoinTop(head: Heads, foot: Feet, marks: seq<Addr>, end: Addr, lo: nat)
    requires Tiled(head, foot, marks, end) && lo < |marks| - 1 && (lo > 0 ==> Used(head, marks, lo - 1))
    ensures var p, gone := marks[lo], Between(marks, lo, |marks| - 1);
            var head', marks' := head[p := Tag(end - p, true, false)], marks[..lo + 1];
            Tiled(head', foot, marks', end) && Free(head', marks') == Free(head, marks) - gone &&
            Live(head', marks') == Live(head, marks) - gone
  {
    hide TagOk, TagsTo, Free, Live, Between, Used;
    var p := marks[lo];
    var head', marks' := head[p := Tag(end - p, true, false)], marks[..lo + 1];
    ChunkFacts(head, foot, marks, end, lo);
    forall j | 0 <= j < |marks'| ensures TagOk(head', foot, marks', j) {
      Tags(head, foot, marks, end, j);
      JoinTopTag(head, foot, marks, end, lo, j);
    }
    assert AllTags(head', foot, marks');
    TiledFrom(head', foot, marks', end);
    JoinTopMaps(head, foot, marks, end, lo);
  }

  lemma JoinTopMaps(head: Heads, foot: Feet, marks: seq<Addr>, end: Addr, lo: nat)
    requires Tiled(head, foot, marks, end) && lo < |marks| - 1 && marks[lo] < end
    ensures var p, gone := marks[lo], Between(marks, lo, |marks| - 1);
            var head', marks' := head[p := Tag(end - p, true, false)], marks[..lo + 1];
            Free(head', marks') == Free(head, marks) - gone && Live(head', marks') == Live(head, marks) - gone
  {
    var p, gone, S := marks[lo], Between(marks, lo, |marks| - 1), Starts(marks);
    var head', marks' := head[p := Tag(end - p, true, false)], marks[..lo + 1];
    StartsCut(marks, lo);
    assert p in gone;
    StartsTagged(head, foot, marks, end);
    hide Tiled, Between, Starts, Chunks;
    forall inuse ensures Chunks(head', S - gone, inuse) == Chunks(head, S, inuse) - gone {
      ChunksSame(head, head', S - gone, inuse);
      ChunksLeft(head, S, gone, inuse);
    }
  }

  lemma StartsCut(marks: seq<Addr>, lo: nat)
    requires Ascending(marks) && lo < |marks| - 1
    ensures Starts(marks[..lo + 1]) == Starts(marks) - Between(marks, lo, |marks| - 1)
  {
    var m' := marks[..lo + 1];
    forall a | a in Starts(m') ensures a in Starts(marks) - Between(marks, lo, |marks| - 1) {
      var j :| 0 <= j < lo && m'[j] == a;
      assert marks[j] == a;
    }
    forall a | a in Starts(marks) - Between(marks, lo, |marks| - 1) ensures a in Starts(m') {
      var j :| 0 <= j < |marks| - 1 && marks[j] == a;
      assert j < lo;
      assert m'[j] == a;
    }
  }

  // ---------------------------------------------------------------- growing top

  function GrowHeads(head: Heads, top: Addr, end: Addr): Heads
    requires top < end
  {
    head[top := Tag(end - top, true, false)][end := Tag(TOP_FOOT_SIZE, false, false)]
  }

  lemma GrowTop(head: Heads, foot: Feet, marks: seq<Addr>, end: Addr, end': Addr)
    requires Tiled(head, foot, marks, end) && end <= end' && end' % 8 == 0 && end' + TOP_FOOT_SIZE <= SIZE_RANGE
    ensures var head' := GrowHeads(head, marks[|marks| - 1], end');
            Tiled(head', foot, marks, end') && Free(head', marks) == Free(head, marks) && Live(head', marks) == Live(head, marks)
  {
    var k := |marks| - 1;
    var head' := GrowHeads(head, marks[k], end');
    forall j | 0 <= j < |marks| ensures TagOk(head', foot, marks, j) {
      assert TagOk(head, foot, marks, j);
      if j > 0 {
        assert TagOk(head, foot, marks, j - 1);
      }
    }
    forall a | a in Starts(marks) ensures a in head && head'[a] == head[a] {
      var j :| 0 <= j < k && marks[j] == a;
      assert TagOk(head, foot, marks, j);
    }
  }

  /** A program that writes to a block it was given may overwrite the foot word behind it. */
  lemma UserWrite(head: Heads, foot: Feet, marks: seq<Addr>, end: Addr, p: Addr, w: nat)
    requires Tiled(head, foot, marks, end) && p in Live(head, marks)
    ensures p in head && Tiled(head, foot[p + head[p].size := w], marks, end)
  {
    var i := Position(head, foot, marks, end, p);
    var foot' := foot[p + head[p].size := w];
    forall j | 0 <= j < |marks| ensures TagOk(head, foot', marks, j) {
      assert TagOk(head, foot, marks, j);
    }
  }
}
