/**
 The operations on the boot loader's map of physical memory: adding a range, allocating, and
 giving back the loader's own memory at the end.
 */
module MemoryMap {
  import opened Options
  import opened RangeMap

  // ---------------------------------------------------------------- the steps of adding a range

  /** `i` is where a range that starts at `start` is inserted. */
  predicate Place(rs: seq<Range>, i: nat, start: nat)
  {
    i <= |rs| && (forall j :: 0 <= j < i ==> rs[j].start < start) && (i < |rs| ==> start <= rs[i].start)
  }

  /** The ranges before the place, the last one cut off at `start`. */
  function Clipped(pre: seq<Range>, start: nat): seq<Range>
  {
    if pre != [] && start < Last(pre).end then pre[..|pre| - 1] + [Last(pre).(end := start)] else pre
  }

  /** What is left of the last range before the place behind `end`. */
  function Rest(pre: seq<Range>, end: nat): seq<Range>
  {
    if pre != [] && end < Last(pre).end then [Last(pre).(start := end)] else []
  }

  lemma {:induction false} EarlierEnd(rs: seq<Range>, x: nat)
    requires Canon(rs) && (rs != [] ==> Last(rs).end <= x)
    ensures Below(rs, x) == rs && Above(rs, x) == []
  {
    if rs != [] {
      CanonApart(rs, 0, |rs| - 1);
      EarlierEnd(rs[1..], x);
      assert [rs[0]] + rs[1..] == rs;
    }
  }

  lemma PlaceCuts(rs: seq<Range>, i: nat, start: nat, end: nat)
    requires Canon(rs) && Place(rs, i, start) && start < end
    ensures Below(rs, start) == Clipped(rs[..i], start)
    ensures Above(rs, end) == Above(Rest(rs[..i], end) + rs[i..], end) && Canon(Rest(rs[..i], end) + rs[i..])
  {
    var pre, post := rs[..i], rs[i..];
    assert rs == pre + post;
    CanonConcat(pre, post);
    BelowConcat(pre, post, start);
    AboveConcat(pre, post, end);
    BelowNothing(post, start);
    AboveConcat(Rest(pre, end), post, end);
    CanonConcat(Rest(pre, end), post);
    if pre != [] {
      LastCut(pre, start, end);
    }
  }

  lemma LastCut(pre: seq<Range>, start: nat, end: nat)
    requires Canon(pre) && pre != [] && Last(pre).start < start < end
    ensures Below(pre, start) == Clipped(pre, start) && Above(pre, end) == Above(Rest(pre, end), end)
    ensures Rest(pre, end) != [] ==> Canon(Rest(pre, end))
  {
    var b, l := pre[..|pre| - 1], [Last(pre)];
    assert pre == b + l;
    CanonTail(pre);
    if b != [] {
      CanonApart(pre, |pre| - 2, |pre| - 1);
    }
    EarlierEnd(b, start);
    EarlierEnd(b, end);
    BelowConcat(b, l, start);
    AboveConcat(b, l, end);
  }

  /** One round of swallowing what the new range overlaps. */
  lemma SwallowStep(q: seq<Range>, end: nat)
    requires Canon(q)
    ensures q == [] ==> Above(q, end) == q
    ensures q != [] && q[0].start >= end ==> Above(q, end) == q
    ensures q != [] && q[0].start < end < q[0].end ==> Above(q, end) == [q[0].(start := end)] + q[1..]
    ensures q != [] && q[0].end <= end ==> Above(q, end) == Above(q[1..], end) && Canon(q[1..])
  {
    if q != [] {
      CanonTail(q);
      if q[0].start >= end {
        AboveAll(q, end);
      } else if q[0].end <= end {
        assert Above(q, end) == Above(q[1..], end);
      } else {
        AboveAll(q[1..], end);
      }
    }
  }

  class MemoryMap {
    var ranges: seq<Range>

    ghost predicate Valid()
      reads this
    {
      Canon(ranges) && Within(ranges, SPACE)
    }

    constructor ()
      ensures Valid() && ranges == []
    {
      ranges := [];
    }

    /** `memory_range_merge` of the range at `k`; the result is where that range is afterwards. */
    method Merge(k: nat) returns (k': nat)
      requires k < |ranges|
      modifies this
      ensures ranges == Merged(old(ranges)[..k], old(ranges)[k], old(ranges)[k + 1..])
      ensures k' == |LeftOf(old(ranges)[..k], old(ranges)[k])|
    {
      ghost var b, r, a := ranges[..k], ranges[k], ranges[k + 1..];
      k' := MergeBefore(k);
      ghost var left, m := LeftOf(b, r), Widened(b, r, []);
      assert ranges[..k'] == left && ranges[k'] == m && ranges[k' + 1..] == a;
      hide LeftOf;
      MergeAfter(k');
    }

    method MergeBefore(k: nat) returns (k': nat)
      requires k < |ranges|
      modifies this
      ensures var b, r, a := old(ranges)[..k], old(ranges)[k], old(ranges)[k + 1..];
              ranges == LeftOf(b, r) + [Widened(b, r, [])] + a && k' == |LeftOf(b, r)|
    {
      k' := k;
      if k != 0 {
        var other := ranges[k - 1];
        if other.end == ranges[k].start && other.kind == ranges[k].kind {
          ranges := ranges[k := ranges[k].(start := other.start)];
          ranges := ranges[..k - 1] + ranges[k..];
          k' := k - 1;
        }
      }
    }

    method MergeAfter(k: nat)
      requires k < |ranges|
      modifies this
      ensures var b, r, a := old(ranges)[..k], old(ranges)[k], old(ranges)[k + 1..];
              ranges == b + [Widened([], r, a)] + RightOf(r, a)
    {
      if k + 1 != |ranges| {
        var other := ranges[k + 1];
        if other.start == ranges[k].end && other.kind == ranges[k].kind {
          ranges := ranges[k := ranges[k].(end := other.end)];
          ranges := ranges[..k + 1] + ranges[k + 2..];
        }
      }
    }

    /** The search of `phys_memory_add_internal` for the place of the new range. */
    method FindPlace(start: nat) returns (i: nat)
      ensures Place(ranges, i, start)
    {
      i := 0;
      while i < |ranges| && !(start <= ranges[i].start)
        invariant i <= |ranges| && forall j :: 0 <= j < i ==> ranges[j].start < start
      {
        i := i + 1;
      }
    }

    /** Puts the new range in its place, and cuts or splits the one before it. */
    method PutIn(i: nat, range: Range)
      requires i <= |ranges| && range.start < range.end
      modifies this
      ensures var pre, post := old(ranges)[..i], old(ranges)[i..];
              ranges == Clipped(pre, range.start) + [range] + (Rest(pre, range.end) + post)
      ensures |Clipped(old(ranges)[..i], range.start)| == i
    {
      ghost var pre, post := ranges[..i], ranges[i..];
      ranges := ranges[..i] + [range] + ranges[i..];
      if i != 0 {
        var other := ranges[i - 1];
        if range.start < other.end {
          if other.end > range.end {
            ranges := ranges[..i + 1] + [Range(range.end, other.end, other.kind)] + ranges[i + 1..];
          }
          ranges := ranges[i - 1 := other.(end := range.start)];
        }
      }
    }

    /** Removes or cuts the ranges behind the one at `k` that it overlaps. */
    method Swallow(k: nat, end: nat, ghost left: seq<Range>, ghost q0: seq<Range>)
      requires k < |ranges| && |left| == k && ranges == left + [ranges[k]] + q0 && Canon(q0)
      modifies this
      ensures ranges == left + [old(ranges)[k]] + Above(q0, end)
    {
      ghost var q, r := q0, ranges[k];
      hide Canon, Above;
      while k + 1 < |ranges|
        invariant ranges == left + [r] + q && Canon(q) && Above(q, end) == Above(q0, end)
        decreases |ranges|
      {
        SwallowStep(q, end);
        var other := ranges[k + 1];
        assert other == q[0];
        if other.start >= end {
          return;
        } else if other.end > end {
          ranges := ranges[k + 1 := other.(start := end)];
          assert ranges == left + [r] + ([other.(start := end)] + q[1..]);
          return;
        } else {
          ranges := ranges[..k + 1] + ranges[k + 2..];
          q := q[1..];
        }
      }
      SwallowStep(q, end);
    }

    /** `phys_memory_add_internal` */
    method Add(start: nat, end: nat, kind: int)
      requires Valid() && start % PAGE_SIZE == 0 && end % PAGE_SIZE == 0 && start < end < SPACE
      modifies this
      ensures Valid() && ranges == Added(old(ranges), Range(start, end, kind))
      ensures forall x: nat :: At(ranges, x) == if start <= x < end then Some(kind) else At(old(ranges), x)
    {
      ghost var rs := ranges;
      var range := Range(start, end, kind);
      var i := FindPlace(start);
      PlaceCuts(rs, i, start, end);
      OverlayBetween(rs, range);
      AddedIsUpdate(rs, range);
      AddedWithin(rs, range, SPACE);
      hide Canon, Below, Above, Clipped, Rest, Merged;
      PutIn(i, range);
      Swallow(i, end, Below(rs, start), Rest(rs[..i], end) + rs[i..]);
      assert ranges[..i] == Below(rs, start) && ranges[i] == range && ranges[i + 1..] == Above(rs, end);
      var _ := Merge(i);
    }

    /** `phys_memory_alloc` */
    method Alloc(size: nat, align: nat, reclaim: bool) returns (got: Outcome)
      requires Valid() && size < SPACE && size % PAGE_SIZE == 0 && 0 < align < SPACE && align % PAGE_SIZE == 0
      modifies this
      ensures Valid()
      ensures got.NoMemory? ==> ranges == old(ranges) && forall i :: 0 <= i < |ranges| ==> !Accepts(ranges[i], size, align)
      ensures !got.NoMemory? ==> exists i :: FirstAccepted(old(ranges), size, align, i)
      ensures forall i :: FirstAccepted(old(ranges), size, align, i) ==>
                var start := RoundUp(old(ranges)[i].start, align);
                var end := Wrap(start + size);
                if start < end
                then got == Got(start) && ranges == Added(old(ranges), Range(start, end, if reclaim then RECLAIMABLE else ALLOCATED))
                else got == Failed && ranges == old(ranges)
    {
      var kind := if reclaim then RECLAIMABLE else ALLOCATED;
      var i := 0;
      while i < |ranges|
        invariant 0 <= i <= |ranges| && ranges == old(ranges)
        invariant forall j :: 0 <= j < i ==> !Accepts(ranges[j], size, align)
      {
        var range := ranges[i];
        if range.kind == FREE {
          var start := RoundUp(range.start, align);
          if !(Wrap(start + size) > range.end) {
            assert FirstAccepted(ranges, size, align, i);
            var end := Wrap(start + size);
            PageAligned(range.start, size, align);
            if start < end {
              Add(start, end, kind);
              return Got(start);
            } else {
              return Failed;
            }
          }
        }
        i := i + 1;
      }
      return NoMemory;
    }

    /** The part of `memory_finalise` that gives the loader's own memory back. */
    method Finalise()
      requires Valid()
      modifies this
      ensures Valid() && forall x: nat :: At(ranges, x) == Freed(At(old(ranges), x))
    {
      var k := 0;
      while k < |ranges|
        invariant 0 <= k <= |ranges| && Canon(ranges) && Within(ranges, SPACE)
        invariant forall j :: 0 <= j < k ==> ranges[j].kind != INTERNAL
        invariant forall x: nat :: Freed(At(ranges, x)) == Freed(At(old(ranges), x))
        decreases |ranges| - k
      {
        if ranges[k].kind == INTERNAL {
          ghost var rs := ranges;
          FreedOne(rs, k);
          ranges := ranges[k := ranges[k].(kind := FREE)];
          assert ranges[..k] == rs[..k] && ranges[k + 1..] == rs[k + 1..];
          ghost var k0 := k;
          k := Merge(k);
          MergedWithin(rs[..k0], rs[k0].(kind := FREE), rs[k0 + 1..], SPACE);
          MergedPrefix(rs[..k0], rs[k0].(kind := FREE), rs[k0 + 1..]);
        }
        k := k + 1;
      }
      forall x: nat ensures At(ranges, x) == Freed(At(ranges, x)) {
        AtFinds(ranges, x);
      }
    }
  }

  // ---------------------------------------------------------------- allocating

  datatype Outcome = Got(start: nat) | NoMemory | Failed

  function Wrap(x: nat): nat { x % SPACE }

  predicate AlignedTo(a: nat, n: nat) requires n > 0 { a % n == 0 }

  /** `x` rounded up to a multiple of `n`. */
  function Ceiling(x: nat, n: nat): nat
    requires n > 0
  {
    if x % n == 0 then x else x - x % n + n
  }

  /** `ROUND_UP` in 64 bits */
  function RoundUp(x: nat, n: nat): nat
    requires n > 0
  {
    Wrap(Ceiling(x, n))
  }

  /** The test `phys_memory_alloc` makes of a range. */
  predicate Accepts(r: Range, size: nat, align: nat)
    requires align > 0
  {
    r.kind == FREE && Wrap(RoundUp(r.start, align) + size) <= r.end
  }

  predicate FirstAccepted(rs: seq<Range>, size: nat, align: nat, i: int)
    requires align > 0
  {
    0 <= i < |rs| && Accepts(rs[i], size, align) && forall j :: 0 <= j < i ==> !Accepts(rs[j], size, align)
  }

  lemma CeilingIs(x: nat, n: nat) returns (q: nat)
    requires n > 0
    ensures Ceiling(x, n) == n * q && x <= Ceiling(x, n) < x + n
    ensures AlignedTo(Ceiling(x, n), n)
  {
    q := if x % n == 0 then x / n else x / n + 1;
    assert x == n * (x / n) + x % n;
    assert n * (x / n + 1) == n * (x / n) + n;
    MultipleMod(q, n);
  }

  lemma {:induction false} MultipleMod(q: nat, n: nat)
    requires n > 0
    ensures (n * q) % n == 0
  {
    if q > 0 {
      MultipleMod(q - 1, n);
      assert n * q == n * (q - 1) + n;
      AddMod(n * (q - 1), n);
    }
  }

  lemma AddMod(x: nat, n: nat)
    requires n > 0
    ensures (x + n) % n == x % n
  {
    var q := x / n;
    assert x + n == n * (q + 1) + x % n;
    QuotientIs(x + n, n, q + 1, x % n);
  }

  lemma QuotientIs(x: nat, n: nat, q: nat, r: nat)
    requires n > 0 && x == n * q + r && r < n
    ensures x % n == r && x / n == q
  {
    var q', r' := x / n, x % n;
    assert n * q + r == n * q' + r';
    if q < q' {
      MultiplesApart(n, q, q');
    } else if q' < q {
      MultiplesApart(n, q', q);
    }
  }

  lemma PageMultiple(align: nat, q: nat)
    requires align % PAGE_SIZE == 0
    ensures (align * q) % PAGE_SIZE == 0
  {
    var m := align / PAGE_SIZE;
    assert align * q == PAGE_SIZE * (m * q);
    MultipleMod(m * q, PAGE_SIZE);
  }

  lemma WrapKeepsPages(y: nat)
    requires y % PAGE_SIZE == 0
    ensures Wrap(y) % PAGE_SIZE == 0
  {
    var k, q := y / PAGE_SIZE, y / SPACE;
    assert Wrap(y) == PAGE_SIZE * (k - 0x10_0000_0000_0000 * q);
    MultipleMod(k - 0x10_0000_0000_0000 * q, PAGE_SIZE);
  }

  lemma PageAligned(x: nat, size: nat, align: nat)
    requires align > 0 && align % PAGE_SIZE == 0 && size % PAGE_SIZE == 0
    ensures RoundUp(x, align) % PAGE_SIZE == 0 && Wrap(RoundUp(x, align) + size) % PAGE_SIZE == 0
  {
    hide Wrap, Ceiling;
    var q := CeilingIs(x, align);
    PageMultiple(align, q);
    WrapKeepsPages(align * q);
    PageSum(RoundUp(x, align), size);
    WrapKeepsPages(RoundUp(x, align) + size);
  }

  lemma PageSum(x: nat, y: nat)
    requires x % PAGE_SIZE == 0 && y % PAGE_SIZE == 0
    ensures (x + y) % PAGE_SIZE == 0
  {
  }

  /** The whole interval is free. */
  ghost predicate AllFree(rs: seq<Range>, a: nat, size: nat)
  {
    forall x: nat :: a <= x < a + size ==> At(rs, x) == Some(FREE)
  }

  /** In a canonical list, a free interval lies within one free range. */
  lemma FreeInOneRange(rs: seq<Range>, a: nat, size: nat) returns (i: nat)
    requires Canon(rs) && size > 0 && AllFree(rs, a, size)
    ensures i < |rs| && rs[i].kind == FREE && rs[i].start <= a && a + size <= rs[i].end
  {
    assert At(rs, a) == Some(FREE);
    AtFinds(rs, a);
    i :| 0 <= i < |rs| && rs[i].start <= a < rs[i].end && At(rs, a) == Some(rs[i].kind);
    if rs[i].end < a + size {
      var x := rs[i].end;
      assert At(rs, x) == Some(FREE);
      AtFinds(rs, x);
      var j :| 0 <= j < |rs| && rs[j].start <= x < rs[j].end && At(rs, x) == Some(rs[j].kind);
      CanonApart(rs, i, j);
      CanonApart(rs, j, i);
      if i + 1 < |rs| {
        CanonApart(rs, i + 1, j);
        NextLink(rs, i);
      }
    }
  }

  lemma {:induction false} NextLink(rs: seq<Range>, i: nat)
    requires Canon(rs) && i + 1 < |rs|
    ensures Link(rs[i], rs[i + 1])
  {
    if i > 0 {
      NextLink(rs[1..], i - 1);
    }
  }

  /** The search went past the end of the address space. */
  predicate Wraps(r: Range, size: nat, align: nat)
    requires align > 0
  {
    Ceiling(r.start, align) + size >= SPACE
  }

  lemma CeilingIsLeast(x: nat, n: nat, a: nat)
    requires n > 0 && AlignedTo(a, n) && x <= a
    ensures Ceiling(x, n) <= a
  {
    var q := CeilingIs(x, n);
    var k := a / n;
    assert a == n * k;
    if k < q {
      MultiplesApart(n, k, q);
    } else {
      assert n * q <= n * k;
    }
  }

  lemma MultiplesApart(n: nat, k: nat, q: nat)
    requires k < q
    ensures n * k + n <= n * q
  {
    assert n * q == n * (k + 1) + n * (q - k - 1);
  }

  /** The range picked does not wrap: the result is the least aligned address that is free all along. */
  lemma PickIsLeast(rs: seq<Range>, size: nat, align: nat, i: nat, a: nat)
    requires Canon(rs) && 0 < size < SPACE && align > 0 && FirstAccepted(rs, size, align, i) && !Wraps(rs[i], size, align)
    ensures AlignedTo(RoundUp(rs[i].start, align), align) && AllFree(rs, RoundUp(rs[i].start, align), size)
    ensures AlignedTo(a, align) && AllFree(rs, a, size) && a + size < SPACE ==> RoundUp(rs[i].start, align) <= a
  {
    hide Ceiling, RoundUp, Wrap, Wraps, AlignedTo, Accepts, At, Canon;
    var start := RoundUp(rs[i].start, align);
    assert Accepts(rs[i], size, align);
    NoWrap(rs[i], size, align);
    forall x: nat | start <= x < start + size ensures At(rs, x) == Some(FREE) {
      AtRange(rs, i, x);
    }
    if AlignedTo(a, align) && AllFree(rs, a, size) && a + size < SPACE {
      var j := FreeInOneRange(rs, a, size);
      FitsIsAccepted(rs[j], size, align, a);
      if i == j {
        CeilingIsLeast(rs[i].start, align, a);
      } else if i < j {
        CanonApart(rs, i, j);
      }
    }
  }

  lemma NoWrap(r: Range, size: nat, align: nat)
    requires align > 0 && Accepts(r, size, align) && !Wraps(r, size, align)
    ensures r.kind == FREE && RoundUp(r.start, align) == Ceiling(r.start, align) && AlignedTo(RoundUp(r.start, align), align)
    ensures r.start <= RoundUp(r.start, align) && RoundUp(r.start, align) + size <= r.end
  {
    var q := CeilingIs(r.start, align);
    MultipleMod(q, align);
  }

  lemma FitsIsAccepted(r: Range, size: nat, align: nat, a: nat)
    requires align > 0 && r.kind == FREE && r.start <= a && a + size <= r.end && AlignedTo(a, align) && a + size < SPACE
    ensures Accepts(r, size, align)
  {
    CeilingIsLeast(r.start, align, a);
  }

  /** An aligned address, free for `size` bytes, and no smaller one is. */
  ghost predicate LeastFree(rs: seq<Range>, start: nat, size: nat, align: nat)
    requires align > 0
  {
    AlignedTo(start, align) && AllFree(rs, start, size) &&
    forall a: nat :: AlignedTo(a, align) && AllFree(rs, a, size) && a + size < SPACE ==> start <= a
  }

  /** The range picked wraps: what the search takes for a fit is not free. */
  lemma PickWraps(rs: seq<Range>, size: nat, align: nat, i: nat)
    requires Canon(rs) && 0 < size < SPACE && 0 < align < SPACE && FirstAccepted(rs, size, align, i) && Wraps(rs[i], size, align)
    requires Within(rs, SPACE)
    ensures !AllFree(rs, RoundUp(rs[i].start, align), size) || !AlignedTo(RoundUp(rs[i].start, align), align)
  {
    hide Ceiling, RoundUp, Wrap, AlignedTo;
    var start := RoundUp(rs[i].start, align);
    CanonApart(rs, i, i);
    WrappedIsBelow(rs[i].start, size, align);
    if AllFree(rs, start, size) && AlignedTo(start, align) {
      var j := FreeInOneRange(rs, start, size);
      FitsIsAccepted(rs[j], size, align, start);
      CanonApart(rs, i, j);
    }
  }

  lemma WrappedIsBelow(x: nat, size: nat, align: nat)
    requires 0 < align < SPACE && x < SPACE && size < SPACE && Ceiling(x, align) + size >= SPACE
    ensures RoundUp(x, align) < x || SPACE <= RoundUp(x, align) + size
  {
    var q := CeilingIs(x, align);
  }

  /** `phys_memory_alloc` finds the least free aligned address exactly when the range it picks does
      not make its sum of start and size wrap around. */
  lemma PickIsRightUnlessItWraps(rs: seq<Range>, size: nat, align: nat, i: nat)
    requires Canon(rs) && 0 < size < SPACE && 0 < align < SPACE && FirstAccepted(rs, size, align, i)
    requires Within(rs, SPACE)
    ensures LeastFree(rs, RoundUp(rs[i].start, align), size, align) <==> !Wraps(rs[i], size, align)
  {
    if Wraps(rs[i], size, align) {
      PickWraps(rs, size, align, i);
    } else {
      forall a: nat ensures AlignedTo(a, align) && AllFree(rs, a, size) && a + size < SPACE ==> RoundUp(rs[i].start, align) <= a {
        PickIsLeast(rs, size, align, i, a);
      }
      PickIsLeast(rs, size, align, i, 0);
    }
  }

  /** A free page at the top of the address space, asked for with a larger alignment: the search
      rounds past the end and hands out page zero. */
  lemma WrapExample()
    ensures var rs := [Range(SPACE - 8192, SPACE - 4096, FREE)];
            Canon(rs) && FirstAccepted(rs, 4096, 65536, 0) && Wraps(rs[0], 4096, 65536) &&
            RoundUp(rs[0].start, 65536) == 0 && !AllFree(rs, 0, 4096)
  {
    var rs := [Range(SPACE - 8192, SPACE - 4096, FREE)];
    assert At(rs, 0) == None;
    assert Ceiling(SPACE - 8192, 65536) == SPACE;
  }

  /** No range is picked: nothing aligned is free all along. */
  lemma NoPick(rs: seq<Range>, size: nat, align: nat, a: nat)
    requires Canon(rs) && 0 < size && align > 0 && forall i :: 0 <= i < |rs| ==> !Accepts(rs[i], size, align)
    ensures !(AlignedTo(a, align) && AllFree(rs, a, size) && a + size < SPACE)
  {
    if AlignedTo(a, align) && AllFree(rs, a, size) && a + size < SPACE {
      var j := FreeInOneRange(rs, a, size);
      FitsIsAccepted(rs[j], size, align, a);
    }
  }

  /** The list after several additions, one after the other. */
  function AddedAll(rs: seq<Range>, more: seq<Range>): seq<Range>
    decreases |more|
  {
    if more == [] then rs else AddedAll(Added(rs, more[0]), more[1..])
  }

  /** An addition of a range that is not free, as every allocation is. */
  predicate Taking(r: Range) { r.start < r.end && r.kind != FREE }

  /** Taking memory makes none free. */
  lemma {:induction false} FreeBefore(rs: seq<Range>, more: seq<Range>, a: nat, size: nat)
    requires Canon(rs) && (forall j :: 0 <= j < |more| ==> Taking(more[j])) && AllFree(AddedAll(rs, more), a, size)
    ensures AllFree(rs, a, size)
    decreases |more|
  {
    if more != [] {
      var r := more[0];
      AddedIsUpdate(rs, r);
      FreeBefore(Added(rs, r), more[1..], a, size);
      forall x: nat | a <= x < a + size ensures At(rs, x) == Some(FREE) {
        assert At(Added(rs, r), x) == Some(FREE);
      }
    }
  }

  /** What was allocated is not handed out again, however much is allocated in between. */
  lemma AllocationsApart(rs: seq<Range>, r: Range, more: seq<Range>, a: nat, size: nat)
    requires Canon(rs) && Taking(r) && (forall j :: 0 <= j < |more| ==> Taking(more[j]))
    requires AllFree(AddedAll(Added(rs, r), more), a, size)
    ensures a + size <= r.start || r.end <= a || size == 0
  {
    AddedIsUpdate(rs, r);
    FreeBefore(Added(rs, r), more, a, size);
    var x := if a < r.start then r.start else a;
    assert At(Added(rs, r), x) == if r.start <= x < r.end then Some(r.kind) else At(rs, x);
  }

  // ---------------------------------------------------------------- finalising

  function Freed(t: Option<int>): Option<int> { if t == Some(INTERNAL) then Some(FREE) else t }

  lemma MergedPrefix(b: seq<Range>, r: Range, a: seq<Range>)
    ensures var m, k := Merged(b, r, a), |LeftOf(b, r)|;
            k <= |b| && k < |m| && m[k].kind == r.kind && |m| <= |b| + 1 + |a| && |m| - k <= 1 + |a| &&
            forall j :: 0 <= j < k ==> m[j] == b[j]
  {
  }

  lemma FreedOne(rs: seq<Range>, k: nat)
    requires Canon(rs) && k < |rs| && rs[k].kind == INTERNAL
    ensures var r := rs[k].(kind := FREE);
            Between(rs[..k], r, rs[k + 1..]) && Canon(Merged(rs[..k], r, rs[k + 1..])) &&
            forall x: nat :: Freed(At(Merged(rs[..k], r, rs[k + 1..]), x)) == Freed(At(rs, x))
  {
    var b, m, r, a := rs[..k], rs[k], rs[k].(kind := FREE), rs[k + 1..];
    assert rs == b + ([m] + a);
    CanonConcat(b, [m] + a);
    CanonConcat([m], a);
    if b != [] {
      CanonApart(rs, k - 1, k);
    }
    if a != [] {
      CanonApart(rs, k, k + 1);
    }
    CanonApart(rs, k, k);
    MergedCanon(b, r, a);
    forall x: nat ensures Freed(At(Merged(b, r, a), x)) == Freed(At(rs, x)) {
      MergedAt(b, r, a, x);
      AtConcat(b + [r], a, x);
      AtConcat(b, [r], x);
      AtConcat(b, [m] + a, x);
      AtConcat([m], a, x);
    }
  }
}
