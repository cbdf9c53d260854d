/**
 The boot loader's map of physical memory: a sorted list of typed ranges, which stands for a
 function from addresses to types.
 */
module RangeMap {
  import opened Options

  const FREE: int := 0
  const ALLOCATED: int := 1
  const RECLAIMABLE: int := 2
  const INTERNAL: int := 5

  const PAGE_SIZE: nat := 4096
  /** Addresses are 64-bit. */
  const SPACE: nat := 0x1_0000_0000_0000_0000

  datatype Range = Range(start: nat, end: nat, kind: int)

  /** The type of the memory at address `x`. */
  function At(rs: seq<Range>, x: nat): Option<int>
  {
    if rs == [] then None
    else if rs[0].start <= x < rs[0].end then Some(rs[0].kind)
    else At(rs[1..], x)
  }

  function Last(rs: seq<Range>): Range requires rs != [] { rs[|rs| - 1] }

  /** `s` can follow `r`: it lies after it, and they could not be one range. */
  predicate Link(r: Range, s: Range) { r.end < s.start || (r.end == s.start && r.kind != s.kind) }

  /** Sorted, disjoint, without empty ranges, and maximally merged. */
  predicate Canon(rs: seq<Range>)
  {
    rs == [] || (rs[0].start < rs[0].end && (|rs| > 1 ==> Link(rs[0], rs[1])) && Canon(rs[1..]))
  }

  lemma {:induction false} CanonConcat(a: seq<Range>, b: seq<Range>)
    ensures Canon(a + b) <==> Canon(a) && Canon(b) && (a != [] && b != [] ==> Link(Last(a), b[0]))
    decreases a
  {
    if a == [] {
      assert a + b == b;
    } else {
      assert (a + b)[1..] == a[1..] + b;
      CanonConcat(a[1..], b);
    }
  }

  lemma {:induction false} AtConcat(a: seq<Range>, b: seq<Range>, x: nat)
    ensures At(a + b, x) == if At(a, x).Some? then At(a, x) else At(b, x)
    decreases a
  {
    if a == [] {
      assert a + b == b;
    } else {
      assert (a + b)[1..] == a[1..] + b;
      AtConcat(a[1..], b, x);
    }
  }

  lemma {:induction false} CanonApart(rs: seq<Range>, i: nat, j: nat)
    requires Canon(rs) && i < |rs| && j < |rs|
    ensures rs[i].start < rs[i].end && (i < j ==> rs[i].end <= rs[j].start)
  {
    if i > 0 && j > 0 {
      CanonApart(rs[1..], i - 1, j - 1);
    } else if i == 0 && j > 0 {
      if j > 1 {
        CanonApart(rs[1..], 0, j - 1);
      } else {
        CanonApart(rs[1..], 0, 0);
      }
    } else if i > 0 {
      CanonApart(rs[1..], i - 1, 0);
    }
  }

  lemma {:induction false} AtFinds(rs: seq<Range>, x: nat)
    ensures At(rs, x).Some? ==> exists i :: 0 <= i < |rs| && rs[i].start <= x < rs[i].end && At(rs, x) == Some(rs[i].kind)
    ensures At(rs, x).None? ==> forall i :: 0 <= i < |rs| ==> !(rs[i].start <= x < rs[i].end)
  {
    if rs != [] && !(rs[0].start <= x < rs[0].end) {
      AtFinds(rs[1..], x);
      if At(rs, x).Some? {
        var i :| 0 <= i < |rs[1..]| && rs[1..][i].start <= x < rs[1..][i].end && At(rs, x) == Some(rs[1..][i].kind);
        assert rs[i + 1] == rs[1..][i];
      } else {
        forall i | 0 <= i < |rs| ensures !(rs[i].start <= x < rs[i].end) {
          assert i > 0 ==> rs[i] == rs[1..][i - 1];
        }
      }
    }
  }

  /** In a canonical list, the range an address lies in gives its type. */
  lemma AtRange(rs: seq<Range>, i: nat, x: nat)
    requires Canon(rs) && i < |rs| && rs[i].start <= x < rs[i].end
    ensures At(rs, x) == Some(rs[i].kind)
  {
    AtFinds(rs, x);
    var j :| 0 <= j < |rs| && rs[j].start <= x < rs[j].end && At(rs, x) == Some(rs[j].kind);
    CanonApart(rs, i, j);
    CanonApart(rs, j, i);
  }

  // ---------------------------------------------------------------- one list for one map

  lemma BeforeFirst(rs: seq<Range>, x: nat)
    requires Canon(rs) && (rs != [] ==> x < rs[0].start)
    ensures At(rs, x) == None
  {
    AtFinds(rs, x);
    if At(rs, x).Some? {
      var i :| 0 <= i < |rs| && rs[i].start <= x < rs[i].end && At(rs, x) == Some(rs[i].kind);
      CanonApart(rs, 0, i);
    }
  }

  /** Where a canonical list's first range ends, the type changes. */
  lemma ChangesAtEnd(rs: seq<Range>)
    requires Canon(rs) && rs != []
    ensures At(rs, rs[0].start) == Some(rs[0].kind) && At(rs, rs[0].end) != Some(rs[0].kind)
    ensures forall x :: rs[0].start <= x < rs[0].end ==> At(rs, x) == Some(rs[0].kind)
  {
    if |rs| > 1 {
      if rs[0].end < rs[1].start {
        BeforeFirst(rs[1..], rs[0].end);
      }
    }
  }

  lemma FirstIsSame(r: seq<Range>, s: seq<Range>)
    requires Canon(r) && Canon(s) && r != [] && forall x :: At(r, x) == At(s, x)
    ensures s != [] && s[0] == r[0]
  {
    ChangesAtEnd(r);
    assert At(s, r[0].start) == Some(r[0].kind);
    ChangesAtEnd(s);
    if r[0].start < s[0].start {
      BeforeFirst(s, r[0].start);
    } else if s[0].start < r[0].start {
      BeforeFirst(r, s[0].start);
    }
    assert At(s, r[0].end) == At(r, r[0].end) && At(r, s[0].end) == At(s, s[0].end);
  }

  /** The map determines the canonical list. */
  lemma {:induction false} CanonIsUnique(r: seq<Range>, s: seq<Range>)
    requires Canon(r) && Canon(s) && forall x :: At(r, x) == At(s, x)
    ensures r == s
    decreases |r|
  {
    if r == [] {
      if s != [] {
        assert At(r, s[0].start) == None;
        ChangesAtEnd(s);
      }
    } else {
      FirstIsSame(r, s);
      forall x ensures At(r[1..], x) == At(s[1..], x) {
        RestOf(r, x);
        RestOf(s, x);
      }
      CanonIsUnique(r[1..], s[1..]);
    }
  }

  lemma RestOf(r: seq<Range>, x: nat)
    requires Canon(r) && r != []
    ensures At(r[1..], x) == if x < r[0].end then None else At(r, x)
  {
    if x < r[0].end {
      if |r| > 1 {
        BeforeFirst(r[1..], x);
      }
    }
  }

  // ---------------------------------------------------------------- cutting

  /** The part of the map below `x`. */
  function Below(rs: seq<Range>, x: nat): seq<Range>
  {
    if rs == [] then []
    else
      (if rs[0].start >= x then [] else if rs[0].end <= x then [rs[0]] else [rs[0].(end := x)]) + Below(rs[1..], x)
  }

  /** The part of the map from `x` on. */
  function Above(rs: seq<Range>, x: nat): seq<Range>
  {
    if rs == [] then []
    else
      (if rs[0].end <= x then [] else if rs[0].start >= x then [rs[0]] else [rs[0].(start := x)]) + Above(rs[1..], x)
  }

  lemma {:induction false} BelowAt(rs: seq<Range>, x: nat, y: nat)
    ensures At(Below(rs, x), y) == if y < x then At(rs, y) else None
  {
    if rs != [] {
      BelowAt(rs[1..], x, y);
      var h := if rs[0].start >= x then [] else if rs[0].end <= x then [rs[0]] else [rs[0].(end := x)];
      AtConcat(h, Below(rs[1..], x), y);
    }
  }

  lemma {:induction false} AboveAt(rs: seq<Range>, x: nat, y: nat)
    ensures At(Above(rs, x), y) == if y < x then None else At(rs, y)
  {
    if rs != [] {
      AboveAt(rs[1..], x, y);
      var h := if rs[0].end <= x then [] else if rs[0].start >= x then [rs[0]] else [rs[0].(start := x)];
      AtConcat(h, Above(rs[1..], x), y);
    }
  }

  lemma {:induction false} BelowConcat(a: seq<Range>, b: seq<Range>, x: nat)
    ensures Below(a + b, x) == Below(a, x) + Below(b, x)
    decreases a
  {
    if a == [] {
      assert a + b == b;
    } else {
      assert (a + b)[1..] == a[1..] + b;
      BelowConcat(a[1..], b, x);
    }
  }

  lemma {:induction false} AboveConcat(a: seq<Range>, b: seq<Range>, x: nat)
    ensures Above(a + b, x) == Above(a, x) + Above(b, x)
    decreases a
  {
    if a == [] {
      assert a + b == b;
    } else {
      assert (a + b)[1..] == a[1..] + b;
      AboveConcat(a[1..], b, x);
    }
  }

  lemma {:induction false} BelowCanon(rs: seq<Range>, x: nat)
    requires Canon(rs)
    ensures Canon(Below(rs, x)) && (Below(rs, x) != [] ==> Last(Below(rs, x)).end <= x && rs != [] && Below(rs, x)[0].start == rs[0].start)
    ensures Below(rs, x) != [] ==> Below(rs, x)[0].kind == rs[0].kind
  {
    if rs != [] {
      BelowCanon(rs[1..], x);
      var t := Below(rs[1..], x);
      if rs[0].start >= x {
        BelowNothing(rs, x);
      } else if rs[0].end > x {
        BelowNothing(rs[1..], x);
      }
    }
  }

  lemma {:induction false} BelowNothing(rs: seq<Range>, x: nat)
    requires Canon(rs) && (rs != [] ==> x <= rs[0].start)
    ensures Below(rs, x) == []
  {
    if |rs| > 0 {
      if |rs| > 1 {
        CanonApart(rs, 0, 1);
      }
      BelowNothing(rs[1..], x);
    }
  }

  lemma {:induction false} AboveAll(rs: seq<Range>, x: nat)
    requires Canon(rs) && (rs != [] ==> x <= rs[0].start)
    ensures Above(rs, x) == rs
  {
    if |rs| > 0 {
      if |rs| > 1 {
        CanonApart(rs, 0, 1);
      }
      AboveAll(rs[1..], x);
      assert [rs[0]] + rs[1..] == rs;
    }
  }

  lemma {:induction false} AboveCanon(rs: seq<Range>, x: nat)
    requires Canon(rs)
    ensures Canon(Above(rs, x)) && (Above(rs, x) != [] ==> x <= Above(rs, x)[0].start)
  {
    if rs != [] {
      if rs[0].end <= x {
        AboveCanon(rs[1..], x);
        assert Above(rs, x) == Above(rs[1..], x);
      } else if rs[0].start >= x {
        AboveAll(rs, x);
      } else {
        AboveAll(rs[1..], x);
        CanonConcat([rs[0].(start := x)], rs[1..]);
      }
    }
  }

  // ---------------------------------------------------------------- merging

  /** `r` can join `s`, which follows it. */
  predicate Joins(r: Range, s: Range) { r.end == s.start && r.kind == s.kind }

  /** The list when `r`, between `b` and `a`, is joined with its neighbours. */
  function Merged(b: seq<Range>, r: Range, a: seq<Range>): seq<Range>
  {
    LeftOf(b, r) + [Widened(b, r, a)] + RightOf(r, a)
  }

  function LeftOf(b: seq<Range>, r: Range): seq<Range> { if b != [] && Joins(Last(b), r) then b[..|b| - 1] else b }

  function RightOf(r: Range, a: seq<Range>): seq<Range> { if a != [] && Joins(r, a[0]) then a[1..] else a }

  function Widened(b: seq<Range>, r: Range, a: seq<Range>): Range
  {
    Range(if b != [] && Joins(Last(b), r) then Last(b).start else r.start,
          if a != [] && Joins(r, a[0]) then a[0].end else r.end,
          r.kind)
  }

  ghost predicate Between(b: seq<Range>, r: Range, a: seq<Range>)
  {
    Canon(b) && Canon(a) && r.start < r.end && (b != [] ==> Last(b).end <= r.start) && (a != [] ==> r.end <= a[0].start)
  }

  lemma CanonTail(a: seq<Range>)
    requires Canon(a) && a != []
    ensures Canon(a[1..]) && a[0].start < a[0].end && (|a| > 1 ==> Link(a[0], a[1]))
    ensures Canon(a[..|a| - 1]) && Last(a).start < Last(a).end && (|a| > 1 ==> Link(a[|a| - 2], Last(a)))
  {
    var b, l := a[..|a| - 1], [Last(a)];
    assert a == b + l;
    CanonConcat(b, l);
    CanonApart(a, |a| - 1, |a| - 1);
  }

  lemma MergedCanon(b: seq<Range>, r: Range, a: seq<Range>)
    requires Between(b, r, a)
    ensures Canon(Merged(b, r, a))
  {
    var left := b != [] && Joins(Last(b), r);
    var right := a != [] && Joins(r, a[0]);
    if b != [] {
      CanonTail(b);
    }
    if a != [] {
      CanonTail(a);
    }
    var b1, a1 := if left then b[..|b| - 1] else b, if right then a[1..] else a;
    var m := Range(if left then Last(b).start else r.start, if right then a[0].end else r.end, r.kind);
    CanonConcat([m], a1);
    CanonConcat(b1, [m] + a1);
    assert b1 + [m] + a1 == b1 + ([m] + a1);
  }

  lemma MergedAt(b: seq<Range>, r: Range, a: seq<Range>, x: nat)
    requires Between(b, r, a)
    ensures At(Merged(b, r, a), x) == At(b + [r] + a, x)
  {
    var left := b != [] && Joins(Last(b), r);
    var right := a != [] && Joins(r, a[0]);
    var b1, a1 := if left then b[..|b| - 1] else b, if right then a[1..] else a;
    var m := Range(if left then Last(b).start else r.start, if right then a[0].end else r.end, r.kind);
    AtConcat(b1 + [m], a1, x);
    AtConcat(b1, [m], x);
    AtConcat(b + [r], a, x);
    AtConcat(b, [r], x);
    if left {
      CanonTail(b);
      assert b == b1 + [Last(b)];
      AtConcat(b1, [Last(b)], x);
    }
    if right {
      CanonTail(a);
    }
  }

  // ---------------------------------------------------------------- adding a range

  /** The list with `r` written over what was there. */
  function Added(rs: seq<Range>, r: Range): seq<Range> { Merged(Below(rs, r.start), r, Above(rs, r.end)) }

  lemma OverlayBetween(rs: seq<Range>, r: Range)
    requires Canon(rs) && r.start < r.end
    ensures Between(Below(rs, r.start), r, Above(rs, r.end))
  {
    BelowCanon(rs, r.start);
    AboveCanon(rs, r.end);
  }

  /** Adding a range is a pointwise update of the map, and the list stays canonical. */
  lemma AddedIsUpdate(rs: seq<Range>, r: Range)
    requires Canon(rs) && r.start < r.end
    ensures Canon(Added(rs, r))
    ensures forall x: nat :: At(Added(rs, r), x) == if r.start <= x < r.end then Some(r.kind) else At(rs, x)
  {
    OverlayBetween(rs, r);
    var b, a := Below(rs, r.start), Above(rs, r.end);
    MergedCanon(b, r, a);
    forall x: nat ensures At(Added(rs, r), x) == if r.start <= x < r.end then Some(r.kind) else At(rs, x) {
      MergedAt(b, r, a, x);
      AtConcat(b + [r], a, x);
      AtConcat(b, [r], x);
      BelowAt(rs, r.start, x);
      AboveAt(rs, r.end, x);
    }
  }

  // ---------------------------------------------------------------- bounds

  /** No range goes beyond `n`. */
  ghost predicate Within(rs: seq<Range>, n: nat) { forall i :: 0 <= i < |rs| ==> rs[i].end < n }

  lemma {:induction false} CutWithin(rs: seq<Range>, x: nat, n: nat)
    requires Within(rs, n)
    ensures Within(Below(rs, x), n) && Within(Above(rs, x), n)
  {
    if rs != [] {
      assert rs[0].end < n;
      CutWithin(rs[1..], x, n);
    }
  }

  lemma MergedWithin(b: seq<Range>, r: Range, a: seq<Range>, n: nat)
    requires Within(b, n) && Within(a, n) && r.end < n
    ensures Within(Merged(b, r, a), n)
  {
  }

  lemma AddedWithin(rs: seq<Range>, r: Range, n: nat)
    requires Within(rs, n) && r.end < n
    ensures Within(Added(rs, r), n)
  {
    CutWithin(rs, r.start, n);
    CutWithin(rs, r.end, n);
    MergedWithin(Below(rs, r.start), r, Above(rs, r.end), n);
  }
}
