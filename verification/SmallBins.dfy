/**
 The small bins of the kernel allocator: 32 circular lists of free chunks of one size each,
 linked through a header, and the map of non-empty ones.
 */
module SmallBins {
  import opened BinMap
  import opened Tries

  const NSMALLBINS: nat := 32

  function SmallIndex(s: nat): nat { s / 8 }

  predicate IsSmall(s: nat) { SmallIndex(s) < NSMALLBINS }

  /** A size that belongs in a small bin. */
  predicate SmallSize(s: nat) { 16 <= s && IsSmall(s) && s % 8 == 0 }

  datatype Ptr = Header(i: nat) | Chunk(a: Addr)

  datatype Links = Links(fd: Ptr, bk: Ptr)

  type Store = map<Ptr, Links>

  ghost function After(r: seq<Ptr>, k: nat): Ptr requires k < |r| { if k + 1 == |r| then r[0] else r[k + 1] }
  ghost function Before(r: seq<Ptr>, k: nat): Ptr requires k < |r| { if k == 0 then r[|r| - 1] else r[k - 1] }

  ghost predicate LinkedAt(st: Store, r: seq<Ptr>, k: nat)
    requires k < |r|
  {
    r[k] in st && st[r[k]] == Links(After(r, k), Before(r, k))
  }

  /** `r` is linked both ways into a circle. */
  ghost predicate Circle(st: Store, r: seq<Ptr>)
  {
    forall k :: 0 <= k < |r| ==> LinkedAt(st, r, k)
  }

  ghost predicate NoRepeats(r: seq<Ptr>)
  {
    forall j, k :: 0 <= j < k < |r| ==> r[j] != r[k]
  }

  ghost predicate BinOk(st: Store, marked: bool, list: seq<Ptr>, i: nat)
  {
    (marked <==> list != []) && (list != [] ==> Circle(st, [Header(i)] + list) && 16 <= 8 * i) && NoRepeats(list) &&
    forall p :: p in list ==> p.Chunk?
  }

  ghost predicate BinsOk(st: Store, m: Map, lists: seq<seq<Ptr>>)
  {
    |lists| == NSMALLBINS &&
    (forall i :: 0 <= i < NSMALLBINS ==> BinOk(st, Marked(m, i), lists[i], i) && Header(i) in st) &&
    (forall i, j, p :: 0 <= i < j < NSMALLBINS && p in lists[i] ==> p !in lists[j])
  }

  /** Chunk `a` of size `s` is in the bins. */
  ghost predicate Has(lists: seq<seq<Ptr>>, a: Addr, s: nat)
  {
    SmallSize(s) && |lists| == NSMALLBINS && Chunk(a) in lists[SmallIndex(s)]
  }

  function WithLinks(st: Store, f: Ptr, b: Ptr): Store
    requires f in st && b in st && f != b
  {
    st[f := st[f].(bk := b)][b := st[b].(fd := f)]
  }

  lemma CircleFrame(st: Store, st': Store, r: seq<Ptr>)
    requires Circle(st, r) && forall p :: p in r ==> p in st' && (p in st ==> st'[p] == st[p])
    ensures Circle(st', r)
  {
    forall k | 0 <= k < |r| ensures LinkedAt(st', r, k) {
      assert LinkedAt(st, r, k);
    }
  }

  ghost function Cut(r: seq<Ptr>, k: nat): seq<Ptr> requires k < |r| { r[..k] + r[k + 1..] }

  lemma CircleCut(st: Store, r: seq<Ptr>, k: nat)
    requires Circle(st, r) && NoRepeats(r) && 0 < k < |r| && |r| > 2
    ensures After(r, k) in st && Before(r, k) in st && After(r, k) != Before(r, k)
    ensures After(r, k) != r[k] && Before(r, k) != r[k]
    ensures Circle(WithLinks(st, After(r, k), Before(r, k)), Cut(r, k))
  {
    var n := |r|;
    var f, b := After(r, k), Before(r, k);
    assert LinkedAt(st, r, k - 1) && LinkedAt(st, r, if k + 1 == n then 0 else k + 1);
    var st', r' := WithLinks(st, f, b), Cut(r, k);
    forall j | 0 <= j < n - 1 ensures LinkedAt(st', r', j) {
      var j0 := if j < k then j else j + 1;
      assert LinkedAt(st, r, j0) && r'[j] == r[j0];
    }
  }

  /** The four stores that put `x` between the header `b` and `f`. */
  function LinkedIn(st: Store, b: Ptr, f: Ptr, x: Ptr): Store
    requires b in st && f in st
  {
    var st1 := st[b := st[b].(fd := x)];
    st1[f := st1[f].(bk := x)][x := Links(f, b)]
  }

  lemma CircleAdd(st: Store, r: seq<Ptr>, x: Ptr)
    requires |r| > 1 && Circle(st, r) && NoRepeats(r) && x !in r && r[0] in st && r[1] in st
    ensures Circle(LinkedIn(st, r[0], r[1], x), [r[0], x] + r[1..])
  {
    var st', r' := LinkedIn(st, r[0], r[1], x), [r[0], x] + r[1..];
    forall j | 0 <= j < |r'| ensures LinkedAt(st', r', j) {
      if j != 1 {
        var j0 := if j == 0 then 0 else j - 1;
        assert LinkedAt(st, r, j0) && r'[j] == r[j0];
      }
    }
  }

  lemma HeaderApart(i: nat, list: seq<Ptr>)
    requires NoRepeats(list) && forall p :: p in list ==> p.Chunk?
    ensures NoRepeats([Header(i)] + list)
  {
    var r := [Header(i)] + list;
    forall j, k | 0 <= j < k < |r| ensures r[j] != r[k] {
      assert r[k] == list[k - 1] && list[k - 1] in list;
    }
  }

  /** Changing one bin, and writing only to its links and one chunk's, keeps the others. */
  lemma OneBinChanged(st: Store, st': Store, m: Map, m': Map, lists: seq<seq<Ptr>>, i: nat, list: seq<Ptr>)
    requires BinsOk(st, m, lists) && i < NSMALLBINS && BinOk(st', Marked(m', i), list, i)
    requires forall j :: 0 <= j < NSMALLBINS && j != i ==> (Marked(m', j) <==> Marked(m, j))
    requires forall p :: p in list ==> p in lists[i] || forall j :: 0 <= j < NSMALLBINS ==> p !in lists[j]
    requires st.Keys <= st'.Keys
    requires forall p, j :: 0 <= j < NSMALLBINS && j != i && (p == Header(j) || p in lists[j]) && p in st ==> st'[p] == st[p]
    ensures BinsOk(st', m', lists[i := list])
  {
    hide Marked;
    forall j | 0 <= j < NSMALLBINS && j != i ensures BinOk(st', Marked(m', j), lists[j], j) {
      assert BinOk(st, Marked(m, j), lists[j], j);
      if lists[j] != [] {
        var r := [Header(j)] + lists[j];
        forall p | p in r ensures p in st' && p in st && st'[p] == st[p] {
          var k :| 0 <= k < |r| && r[k] == p;
          assert LinkedAt(st, r, k);
        }
        CircleFrame(st, st', r);
      }
    }
  }

  /** Writing to two links of one bin changes no other. */
  lemma OthersKept(st: Store, st': Store, m: Map, lists: seq<seq<Ptr>>, i: nat, f: Ptr, b: Ptr)
    requires BinsOk(st, m, lists) && i < NSMALLBINS && st.Keys <= st'.Keys
    requires f in [Header(i)] + lists[i] && b in [Header(i)] + lists[i] && forall p :: p in st && p != f && p != b ==> st'[p] == st[p]
    ensures forall p, j :: 0 <= j < NSMALLBINS && j != i && (p == Header(j) || p in lists[j]) && p in st ==> st'[p] == st[p]
  {
    hide Marked, Circle;
    forall p, j | 0 <= j < NSMALLBINS && j != i && (p == Header(j) || p in lists[j]) && p in st ensures p !in [Header(i)] + lists[i] {
      assert BinOk(st, Marked(m, j), lists[j], j) && BinOk(st, Marked(m, i), lists[i], i);
    }
  }

  class Small {
    var links: Store
    var smallmap: Map
    ghost var lists: seq<seq<Ptr>>

    ghost predicate Valid()
      reads this
    {
      BinsOk(links, smallmap, lists)
    }

    /** `init_bins` */
    constructor ()
      ensures Valid() && forall a: Addr, s: nat :: !Has(lists, a, s)
    {
      links, smallmap := map i | 0 <= i < NSMALLBINS :: Header(i) := Links(Header(i), Header(i)), 0;
      lists := seq(NSMALLBINS, _ => []);
      new;
      forall i | 0 <= i < NSMALLBINS ensures BinOk(links, Marked(smallmap, i), lists[i], i) {
        EmptyMap(i);
      }
    }

    /** `insert_small_chunk` */
    method Insert(a: Addr, s: nat)
      requires Valid() && SmallSize(s) && forall i :: 0 <= i < NSMALLBINS ==> Chunk(a) !in lists[i]
      modifies this
      ensures Valid() && lists == old(lists)[SmallIndex(s) := [Chunk(a)] + old(lists)[SmallIndex(s)]]
      ensures forall b: Addr, z: nat :: Has(lists, b, z) <==> Has(old(lists), b, z) || (b == a && z == s)
    {
      var i, p := SmallIndex(s), Chunk(a);
      var b := Header(i);
      var f := b;
      assert BinOk(links, Marked(smallmap, i), lists[i], i);
      HeaderLinked(links, smallmap, lists[i], i);
      MarkOne(smallmap, i);
      InsertedBin(links, Marked(smallmap, i), lists[i], i, p);
      ghost var st, m := links, smallmap;
      if !Marked(smallmap, i) {
        smallmap := Mark(smallmap, i);
      } else {
        f := links[b].fd;
      }
      links := links[b := links[b].(fd := p)];
      links := links[f := links[f].(bk := p)];
      links := links[p := Links(f, b)];
      hide Marked, Mark, BinOk;
      InsertedKeeps(st, links, m, lists, i, f, p);
      OneBinChanged(st, links, m, smallmap, lists, i, [p] + lists[i]);
      lists := lists[i := [p] + lists[i]];
    }

    /** `unlink_small_chunk`; the caller knows that the chunk is in the bin for its size. */
    method Unlink(a: Addr, s: nat)
      requires Valid() && Has(lists, a, s)
      modifies this
      ensures Valid() && |lists| == |old(lists)|
      ensures forall b: Addr, z: nat :: Has(lists, b, z) <==> Has(old(lists), b, z) && b != a
    {
      var i, p := SmallIndex(s), Chunk(a);
      ghost var list := lists[i];
      ghost var k :| 0 <= k < |list| && list[k] == p;
      Inside(links, smallmap, lists, i, k);
      var f, b := links[p].fd, links[p].bk;
      ghost var old' := lists;
      TakeOut(i, f, b, list, k);
      CutHas(old', i, k);
    }

    /** `unlink_first_small_chunk` */
    method UnlinkFirst(i: nat) returns (a: Addr)
      requires Valid() && i < NSMALLBINS && Marked(smallmap, i)
      modifies this
      ensures Valid() && old(lists)[i] != [] && old(lists)[i][0] == Chunk(a)
      ensures lists == old(lists)[i := old(lists)[i][1..]]
      ensures Has(old(lists), a, 8 * i)
      ensures forall b: Addr, z: nat :: Has(lists, b, z) <==> Has(old(lists), b, z) && b != a
    {
      ghost var list := lists[i];
      assert BinOk(links, Marked(smallmap, i), list, i);
      Inside(links, smallmap, lists, i, 0);
      assert LinkedAt(links, [Header(i)] + list, 0);
      var p := links[Header(i)].fd;
      var f := links[p].fd;
      ghost var old' := lists;
      TakeOut(i, f, Header(i), list, 0);
      assert Cut(list, 0) == list[1..];
      CutHas(old', i, 0);
      a := p.a;
    }

    /** What both unlinking macros do, once they have the neighbours. */
    method TakeOut(i: nat, f: Ptr, b: Ptr, ghost list: seq<Ptr>, ghost k: nat)
      requires Valid() && i < NSMALLBINS && lists[i] == list && k < |list|
      requires f == After([Header(i)] + list, k + 1) && b == Before([Header(i)] + list, k + 1)
      modifies this
      ensures Valid() && lists == old(lists)[i := Cut(list, k)]
    {
      ghost var r := [Header(i)] + list;
      assert BinOk(links, Marked(smallmap, i), list, i);
      ghost var st, m := links, smallmap;
      MarkOne(smallmap, i);
      HeaderApart(i, list);
      assert b == f <==> |list| == 1;
      if b == f {
        smallmap := Clear(smallmap, i);
      } else {
        CircleCut(links, r, k + 1);
        links := WithLinks(links, f, b);
        assert Cut(r, k + 1) == [Header(i)] + Cut(list, k);
      }
      CutKeeps(list, k);
      assert BinOk(links, |list| > 1, Cut(list, k), i);
      assert f in r && b in r;
      OthersKept(st, links, m, lists, i, f, b);
      hide Marked, Clear;
      OneBinChanged(st, links, m, smallmap, lists, i, Cut(list, k));
      lists := lists[i := Cut(list, k)];
    }
  }

  lemma HeaderLinked(st: Store, m: Map, list: seq<Ptr>, i: nat)
    requires i < NSMALLBINS && BinOk(st, Marked(m, i), list, i)
    ensures Marked(m, i) ==> list != [] && Header(i) in st && st[Header(i)].fd == list[0] && list[0] in st
  {
    if list != [] {
      assert LinkedAt(st, [Header(i)] + list, 0) && LinkedAt(st, [Header(i)] + list, 1);
    }
  }

  lemma InsertedBin(st: Store, marked: bool, list: seq<Ptr>, i: nat, p: Ptr)
    requires BinOk(st, marked, list, i) && Header(i) in st && p.Chunk? && p !in list && 16 <= 8 * i
    requires list != [] ==> list[0] in st
    ensures BinOk(LinkedIn(st, Header(i), if list == [] then Header(i) else list[0], p), true, [p] + list, i)
  {
    var b := Header(i);
    if list != [] {
      HeaderApart(i, list);
      CircleAdd(st, [b] + list, p);
      assert [b, p] + ([b] + list)[1..] == [b] + ([p] + list);
    }
  }

  lemma InsertedKeeps(st: Store, st': Store, m: Map, lists: seq<seq<Ptr>>, i: nat, f: Ptr, p: Ptr)
    requires BinsOk(st, m, lists) && i < NSMALLBINS && p.Chunk? && forall j :: 0 <= j < NSMALLBINS ==> p !in lists[j]
    requires f in st && (f == Header(i) || f in lists[i]) && st' == LinkedIn(st, Header(i), f, p)
    ensures forall q, j :: 0 <= j < NSMALLBINS && j != i && (q == Header(j) || q in lists[j]) && q in st ==> st'[q] == st[q]
  {
    forall q, j | 0 <= j < NSMALLBINS && j != i && (q == Header(j) || q in lists[j]) && q in st ensures st'[q] == st[q] {
      assert BinOk(st, Marked(m, j), lists[j], j) && BinOk(st, Marked(m, i), lists[i], i);
    }
  }

  lemma MarkOne(m: Map, i: nat)
    requires i < NSMALLBINS
    ensures Marked(Mark(m, i), i) && !Marked(Clear(m, i), i)
    ensures forall j :: 0 <= j < NSMALLBINS && j != i ==> (Marked(Mark(m, i), j) <==> Marked(m, j))
    ensures forall j :: 0 <= j < NSMALLBINS && j != i ==> (Marked(Clear(m, i), j) <==> Marked(m, j))
  {
    hide Marked, Mark, Clear;
    MarkSets(m, i, i);
    forall j | 0 <= j < NSMALLBINS && j != i
      ensures (Marked(Mark(m, i), j) <==> Marked(m, j)) && (Marked(Clear(m, i), j) <==> Marked(m, j))
    {
      MarkSets(m, i, j);
    }
  }

  lemma Inside(st: Store, m: Map, lists: seq<seq<Ptr>>, i: nat, k: nat)
    requires BinsOk(st, m, lists) && i < NSMALLBINS && k < |lists[i]|
    ensures var p, r := lists[i][k], [Header(i)] + lists[i];
            p.Chunk? && p in st && st[p] == Links(After(r, k + 1), Before(r, k + 1))
  {
    assert BinOk(st, Marked(m, i), lists[i], i);
    assert lists[i][k] in lists[i];
    assert LinkedAt(st, [Header(i)] + lists[i], k + 1);
  }

  /** What the bins hold after one chunk left bin `i`. */
  lemma CutHas(lists: seq<seq<Ptr>>, i: nat, k: nat)
    requires |lists| == NSMALLBINS && i < NSMALLBINS && k < |lists[i]| && NoRepeats(lists[i]) && lists[i][k].Chunk?
    requires forall i, j, p :: 0 <= i < j < NSMALLBINS && p in lists[i] ==> p !in lists[j]
    ensures forall b: Addr, z: nat :: Has(lists[i := Cut(lists[i], k)], b, z) <==> Has(lists, b, z) && Chunk(b) != lists[i][k]
  {
    CutKeeps(lists[i], k);
    var p := lists[i][k];
    assert p in lists[i];
    forall b: Addr, z: nat ensures Has(lists[i := Cut(lists[i], k)], b, z) <==> Has(lists, b, z) && Chunk(b) != p {
      if Has(lists, b, z) && SmallIndex(z) != i {
        assert Chunk(b) in lists[SmallIndex(z)];
      }
    }
  }

  lemma CutKeeps(list: seq<Ptr>, k: nat)
    requires NoRepeats(list) && k < |list|
    ensures NoRepeats(Cut(list, k))
    ensures forall p :: p in Cut(list, k) <==> p in list && p != list[k]
  {
    var r := Cut(list, k);
    forall p | p in list && p != list[k] ensures p in r {
      var j :| 0 <= j < |list| && list[j] == p;
      assert r[if j < k then j else j - 1] == p;
    }
  }
}
