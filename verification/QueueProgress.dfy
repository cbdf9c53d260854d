/**
 Progress of the lock-free queue: a call starts its loop over only because a shared pointer has moved.

 Every step of a call makes a measure smaller. The measure counts how far each call is from its end
 if nobody interferes, and how often the shared pointers can still move on behalf of the calls in
 flight; each move can set each call back by one iteration at most.
 */
module QueueProgress {
  import opened LockFreeQueue

  // ---------------------------------------------------------------- sums over the calls

  ghost function Sum(m: map<ThreadId, nat>): nat
    decreases |m|
  {
    if m == map[] then 0 else var t :| t in m; m[t] + Sum(m - {t})
  }

  /** The choice of the summand to begin with does not matter. */
  lemma {:induction false} SumAt(m: map<ThreadId, nat>, t: ThreadId)
    requires t in m
    ensures Sum(m) == m[t] + Sum(m - {t})
    decreases |m|
  {
    var u :| u in m && Sum(m) == m[u] + Sum(m - {u});
    if u != t {
      SumAt(m - {u}, t);
      SumAt(m - {t}, u);
      assert m - {u} - {t} == m - {t} - {u};
    }
  }

  lemma {:induction false} SumBounded(m: map<ThreadId, nat>, k: nat)
    requires forall t :: t in m ==> m[t] <= k
    ensures Sum(m) <= k * |m|
    decreases |m|
  {
    if m != map[] {
      var t :| t in m;
      SumAt(m, t);
      SumBounded(m - {t}, k);
      OneMore(k, |m - {t}|);
      assert |m| == |m - {t}| + 1;
    }
  }

  lemma OneMore(k: nat, n: nat)
    ensures k * (n + 1) == k * n + k
  {
  }

  /** Changing one summand. */
  lemma SumMoves(m: map<ThreadId, nat>, m': map<ThreadId, nat>, t: ThreadId)
    requires t in m && t in m' && m - {t} == m' - {t}
    ensures Sum(m') - m'[t] == Sum(m) - m[t]
  {
    SumAt(m, t);
    SumAt(m', t);
  }

  // ---------------------------------------------------------------- the measure

  /** What is shared: the memory, the head and the tail. */
  datatype Shared = Shared(mem: map<Addr, Node>, head: Addr, tail: Addr)

  function SharedOf(s: State): Shared { Shared(s.mem, s.head, s.tail) }

  predicate Open(q: Shared, a: Addr) { a in q.mem && q.mem[a].next == NULL }

  /** What the call has read is still so, as far as the rest of its iteration depends on it. */
  predicate Current(q: Shared, pc: Pc)
  {
    match pc
    case PushReadNext(_, tail) => tail == q.tail
    case PushCheckTail(_, tail, next) => tail == q.tail && (next == NULL ==> Open(q, tail))
    case PushCasNext(_, tail) => Open(q, tail)
    case PushHelp(_, tail, _) => tail == q.tail
    case PopReadTail(head) => head == q.head
    case PopReadNext(head, tail) => head == q.head && (head == tail ==> tail == q.tail)
    case PopCheckHead(head, tail, next) => head == q.head && (head == tail && next != NULL ==> tail == q.tail)
    case PopHelp(head, _) => head == q.tail
    case PopReadValue(head, _) => head == q.head
    case PopCasHead(head, _, _) => head == q.head
    case _ => true
  }

  /** How many steps a call takes to its end if nothing moves, unless it moves the tail on first. */
  function Rank(q: Shared, pc: Pc): nat
  {
    var late := !Current(q, pc);
    match pc
    case PushAlloc(_) => 8
    case PushReadTail(_) => 7
    case PushReadNext(_, _) => if late then 10 else 6
    case PushCheckTail(_, _, _) => if late then 9 else 5
    case PushCasNext(_, _) => if late then 8 else 4
    case PushHelp(_, _, _) => if late then 8 else 4
    case PushSwing(_, _) => 3
    case PushInc => 2
    case PopReadHead => 9
    case PopReadTail(_) => if late then 14 else 8
    case PopReadNext(_, _) => if late then 13 else 7
    case PopCheckHead(_, _, _) => if late then 12 else 6
    case PopHelp(_, _) => if late then 10 else 5
    case PopReadValue(_, _) => if late then 11 else 5
    case PopCasHead(_, _, _) => if late then 10 else 4
    case PopFree(_, _) => 3
    case PopDec(_) => 2
    case Return(_) => 1
  }

  const MAX_RANK: nat := 14

  /** How many moves of the shared pointers the call still stands for: linking its node and moving the
      tail there, or moving the head. */
  function Owed(pc: Pc): nat
  {
    match pc
    case PushAlloc(_) => 2
    case PushReadTail(_) => 2
    case PushReadNext(_, _) => 2
    case PushCheckTail(_, _, _) => 2
    case PushCasNext(_, _) => 2
    case PushHelp(_, _, _) => 2
    case PopReadHead => 1
    case PopReadTail(_) => 1
    case PopReadNext(_, _) => 1
    case PopCheckHead(_, _, _) => 1
    case PopHelp(_, _) => 1
    case PopReadValue(_, _) => 1
    case PopCasHead(_, _, _) => 1
    case _ => 0
  }

  function Ranks(q: Shared, calls: map<ThreadId, Call>): map<ThreadId, nat>
  {
    map t | t in calls :: Rank(q, calls[t].pc)
  }

  function Debts(calls: map<ThreadId, Call>): map<ThreadId, nat>
  {
    map t | t in calls :: Owed(calls[t].pc)
  }

  /** The tail is one node behind. */
  function Lag(q: Shared): nat { if Open(q, q.tail) then 0 else 1 }

  ghost function Moves(s: State): nat { Sum(Debts(s.calls)) + Lag(SharedOf(s)) }

  ghost function Bound(s: State): nat
  {
    Moves(s) * (MAX_RANK * |s.calls| + 1) + Sum(Ranks(SharedOf(s), s.calls))
  }

  lemma RanksBounded(s: State)
    ensures Sum(Ranks(SharedOf(s), s.calls)) <= MAX_RANK * |s.calls|
  {
    var m := Ranks(SharedOf(s), s.calls);
    SumBounded(m, MAX_RANK);
    assert m.Keys == s.calls.Keys;
    SameSize(m, s.calls);
  }

  lemma SameSize<A, B>(m: map<ThreadId, A>, m': map<ThreadId, B>)
    requires m.Keys == m'.Keys
    ensures |m| == |m'|
  {
    assert |m| == |m.Keys| && |m'| == |m'.Keys|;
  }

  /** The steps left are at most quadratic in the number of calls in flight. */
  lemma BoundIsQuadratic(s: State)
    ensures var n := |s.calls|; Bound(s) <= (2 * n + 1) * (MAX_RANK * n + 1) + MAX_RANK * n
  {
    var n := |s.calls|;
    RanksBounded(s);
    SumBounded(Debts(s.calls), 2);
    assert Debts(s.calls).Keys == s.calls.Keys;
    SameSize(Debts(s.calls), s.calls);
    MoreMoves(Moves(s), 2 * n + 1, MAX_RANK * n + 1);
  }

  lemma MoreMoves(a: nat, b: nat, k: nat)
    requires a <= b
    ensures a * k <= b * k
    ensures a < b ==> a * k + k <= b * k
  {
    if a < b {
      assert (a + 1) * k <= b * k by { MulMono(a + 1, b, k); }
      assert (a + 1) * k == a * k + k;
    }
  }

  lemma MulMono(a: nat, b: nat, k: nat)
    requires a <= b
    ensures a * k <= b * k
  {
  }

  // ---------------------------------------------------------------- every step makes it smaller

  /** The tail points to the last node once it has been moved on. */
  lemma TailCatchesUp(v: View, next: Addr)
    requires Linked(v) && PointsTo(v, v.tail, next)
    ensures !Open(Shared(v.mem, v.head, v.tail), v.tail) && Open(Shared(v.mem, v.head, next), next)
  {
    assert v.tail == v.chain[|v.chain| - 2] && next == v.chain[|v.chain| - 1];
  }

  /** A step either uses up a move, or leaves what is shared alone and is one step nearer to the end. */
  ghost predicate Nearer(q: Shared, pc: Pc, q': Shared, pc': Pc)
  {
    Owed(pc') + Lag(q') < Owed(pc) + Lag(q) ||
    (Owed(pc') + Lag(q') == Owed(pc) + Lag(q) && q' == q && Rank(q', pc') < Rank(q, pc))
  }

  lemma PushNearer(s: State, t: ThreadId, chain: seq<Addr>)
    requires Linked(ViewOf(s, chain)) && t in s.calls && s.calls[t].what.Push? && !s.calls[t].pc.PushAlloc? && !s.calls[t].pc.Return?
    requires PcOk(ViewOf(s, chain), s.calls[t].what, s.calls[t].pc) && Dereferenced(s.calls[t].pc) <= s.mem.Keys
    ensures Nearer(SharedOf(s), s.calls[t].pc, SharedOf(Advance(s, t)), Advance(s, t).calls[t].pc)
  {
    match s.calls[t].pc
    case PushHelp(_, tail, next) =>
      if tail == s.tail {
        TailCatchesUp(ViewOf(s, chain), next);
      }
    case PushSwing(n, tail) =>
      if tail == s.tail {
        TailCatchesUp(ViewOf(s, chain), n);
      }
    case _ =>
  }

  lemma PopNearer(s: State, t: ThreadId, chain: seq<Addr>)
    requires Linked(ViewOf(s, chain)) && t in s.calls && s.calls[t].what.Pop? && !s.calls[t].pc.Return?
    requires PcOk(ViewOf(s, chain), s.calls[t].what, s.calls[t].pc) && Dereferenced(s.calls[t].pc) <= s.mem.Keys
    ensures Nearer(SharedOf(s), s.calls[t].pc, SharedOf(Advance(s, t)), Advance(s, t).calls[t].pc)
  {
    match s.calls[t].pc
    case PopHelp(head, next) =>
      if head == s.tail {
        TailCatchesUp(ViewOf(s, chain), next);
      }
    case _ =>
  }

  /** From one call to all of them. */
  lemma NearerBound(s: State, s': State, t: ThreadId)
    requires t in s.calls && t in s'.calls && s'.calls - {t} == s.calls - {t}
    requires Nearer(SharedOf(s), s.calls[t].pc, SharedOf(s'), s'.calls[t].pc)
    ensures Bound(s') < Bound(s)
  {
    hide Rank, Owed, Lag;
    var q, q' := SharedOf(s), SharedOf(s');
    OthersSame(q, s.calls, s'.calls, t);
    SumMoves(Debts(s.calls), Debts(s'.calls), t);
    if q == q' {
      SumMoves(Ranks(q, s.calls), Ranks(q, s'.calls), t);
    }
    KeysSame(s.calls, s'.calls, t);
    LessBound(s, s');
  }

  lemma OthersSame(q: Shared, calls: map<ThreadId, Call>, calls': map<ThreadId, Call>, t: ThreadId)
    requires t in calls && t in calls' && calls' - {t} == calls - {t}
    ensures Debts(calls) - {t} == Debts(calls') - {t} && Ranks(q, calls) - {t} == Ranks(q, calls') - {t}
  {
    hide Rank, Owed;
    forall u | u in calls && u != t ensures u in calls' && calls[u] == calls'[u] {
      assert u in calls - {t};
    }
    forall u | u in calls' && u != t ensures u in calls {
      assert u in calls' - {t};
    }
  }

  lemma KeysSame(calls: map<ThreadId, Call>, calls': map<ThreadId, Call>, t: ThreadId)
    requires t in calls && t in calls' && calls' - {t} == calls - {t}
    ensures |calls'| == |calls|
  {
    forall u ensures u in calls <==> u in calls' {
      assert u != t ==> (u in calls - {t} <==> u in calls) && (u in calls' - {t} <==> u in calls');
    }
    SameSize(calls, calls');
  }

  lemma LessBound(s: State, s': State)
    requires |s'.calls| <= |s.calls|
    requires Moves(s') < Moves(s) ||
             (Moves(s') == Moves(s) && Sum(Ranks(SharedOf(s'), s'.calls)) < Sum(Ranks(SharedOf(s), s.calls)))
    ensures Bound(s') < Bound(s)
  {
    hide Moves, Ranks, Sum;
    RanksBounded(s');
    var k, k' := MAX_RANK * |s.calls| + 1, MAX_RANK * |s'.calls| + 1;
    MoreMoves(k', k, Moves(s'));
    assert Moves(s') * k' == k' * Moves(s') && Moves(s') * k == k * Moves(s');
    MoreMoves(Moves(s'), Moves(s), k);
  }

  lemma ReturnBound(s: State, t: ThreadId)
    requires t in s.calls && s.calls[t].pc.Return?
    ensures Bound(Advance(s, t)) < Bound(s)
  {
    var s', q := Advance(s, t), SharedOf(s);
    assert s'.calls == s.calls - {t} && SharedOf(s') == q;
    assert Debts(s'.calls) == Debts(s.calls) - {t} && Ranks(q, s'.calls) == Ranks(q, s.calls) - {t};
    SumAt(Debts(s.calls), t);
    SumAt(Ranks(q, s.calls), t);
    assert |s'.calls| == |s.calls| - 1;
    hide Sum, Ranks, Debts;
    LessBound(s, s');
  }

  /** A node nobody holds is read by nobody. */
  lemma RankUnheld(q: Shared, a: Addr, x: Node, pc: Pc)
    requires a !in Held(pc)
    ensures Rank(q.(mem := q.mem[a := x]), pc) == Rank(q, pc)
  {
  }

  lemma AllocateLag(s: State, a: Addr, x: Node, chain: seq<Addr>)
    requires Linked(ViewOf(s, chain)) && a !in s.live
    ensures Lag(SharedOf(s).(mem := s.mem[a := x])) == Lag(SharedOf(s))
  {
    assert s.tail in s.live && s.tail in s.mem;
  }

  lemma AllocateRanks(s: State, t: ThreadId, a: Addr, x: Word)
    requires t in s.calls && MayAllocate(s, a)
    ensures Ranks(SharedOf(s), s.calls) - {t} == Ranks(SharedOf(Allocated(s, t, x, a)), Allocated(s, t, x, a).calls) - {t}
  {
    hide Rank, Held;
    var q, s' := SharedOf(s), Allocated(s, t, x, a);
    assert SharedOf(s') == q.(mem := q.mem[a := Node(x, NULL)]);
    forall u | u in s.calls && u != t ensures Rank(SharedOf(s'), s'.calls[u].pc) == Rank(q, s.calls[u].pc) {
      RankUnheld(q, a, Node(x, NULL), s.calls[u].pc);
    }
  }

  lemma AllocateBound(s: State, t: ThreadId, a: Addr, chain: seq<Addr>)
    requires ShapeOk(s, chain) && t in s.calls && s.calls[t].pc.PushAlloc? && MayAllocate(s, a)
    ensures Bound(Allocated(s, t, s.calls[t].pc.v, a)) < Bound(s)
  {
    hide Linked, Exclusive, CallsOk, Lag, Bound, Sum;
    var x := s.calls[t].pc.v;
    var s' := Allocated(s, t, x, a);
    AllocateLag(s, a, Node(x, NULL), chain);
    AllocateRanks(s, t, a, x);
    assert Debts(s'.calls) == Debts(s.calls);
    SumMoves(Ranks(SharedOf(s), s.calls), Ranks(SharedOf(s'), s'.calls), t);
    KeysSame(s.calls, s'.calls, t);
    LessBound(s, s');
  }

  /** Every step of a call in flight, in any state that the list can be in, makes the bound smaller. */
  lemma StepMakesProgress(s: State, t: ThreadId, s': State, chain: seq<Addr>)
    requires ShapeOk(s, chain) && t in s.calls && Step(s, t, s')
    ensures Bound(s') < Bound(s)
  {
    hide Bound, Nearer, Exclusive, Linked, PcOk;
    assert PcOk(ViewOf(s, chain), s.calls[t].what, s.calls[t].pc);
    if s.calls[t].pc.PushAlloc? {
      var a :| MayAllocate(s, a) && s' == Allocated(s, t, s.calls[t].pc.v, a);
      AllocateBound(s, t, a, chain);
    } else if s.calls[t].pc.Return? {
      ReturnBound(s, t);
    } else {
      if s.calls[t].what.Push? {
        PushNearer(s, t, chain);
      } else {
        PopNearer(s, t, chain);
      }
      NearerBound(s, s', t);
    }
  }

  /** Step `k` of the run is one of a call in flight, not a new call. */
  ghost predicate WorkingAt(run: seq<State>, k: nat)
  {
    k + 1 < |run| && exists t :: t in run[k].calls && Step(run[k], t, run[k + 1])
  }

  /** However the steps of the calls in flight interleave, there are at most so many of them before
      another call is made: somebody always gets done, and in the end everybody does. */
  lemma {:induction false} RunsSettle(run: seq<State>, i: nat, j: nat)
    requires Run(run) && i <= j < |run| && forall k :: i <= k < j ==> WorkingAt(run, k)
    ensures Bound(run[j]) + (j - i) <= Bound(run[i])
    decreases j - i
  {
    hide Bound, Run, WorkingAt;
    if i < j {
      RunsSettle(run, i, j - 1);
      StepSettles(run, j - 1);
    }
  }

  lemma StepSettles(run: seq<State>, k: nat)
    requires Run(run) && WorkingAt(run, k)
    ensures k + 1 < |run| && Bound(run[k + 1]) < Bound(run[k])
  {
    hide Bound, Run, Step, Inv;
    var t :| t in run[k].calls && Step(run[k], t, run[k + 1]);
    var chain := ShapeAt(run, k);
    StepMakesProgress(run[k], t, run[k + 1], chain);
  }

  lemma ShapeAt(run: seq<State>, k: nat) returns (chain: seq<Addr>)
    requires Run(run) && k < |run|
    ensures ShapeOk(run[k], chain)
  {
    var log;
    var before := run[..k + 1];
    assert forall i :: 0 <= i < |before| - 1 ==> Stepped(before[i], before[i + 1]) by {
      hide Stepped;
    }
    hide ShapeOk, Stepped;
    chain, log := RunInv(before);
  }

  // ---------------------------------------------------------------- no call ever waits

  lemma {:induction false} AboveAll(xs: set<Addr>) returns (a: Addr)
    ensures a != NULL && forall x :: x in xs ==> x < a
    decreases |xs|
  {
    if xs == {} {
      a := 1;
    } else {
      var x :| x in xs;
      a := AboveAll(xs - {x});
      if a <= x {
        a := x + 1;
      }
      assert forall y :: y in xs && y != x ==> y in xs - {x};
    }
  }

  /** Whatever the others do or have stopped doing, the next step of a call can be taken. */
  lemma NeverBlocked(s: State, t: ThreadId, chain: seq<Addr>)
    requires ShapeOk(s, chain) && t in s.calls
    ensures exists s' :: Step(s, t, s')
  {
    if s.calls[t].pc.PushAlloc? {
      var held := set u, a | u in s.calls && a in Held(s.calls[u].pc) :: a;
      var a := AboveAll(s.live + held);
      assert forall u, b :: u in s.calls && b in Held(s.calls[u].pc) ==> b in held;
      assert a !in s.live + held;
      assert MayAllocate(s, a);
      hide ShapeOk, MayAllocate;
      assert Allocate(s, t, s.calls[t].pc.v, Allocated(s, t, s.calls[t].pc.v, a));
      assert Step(s, t, Allocated(s, t, s.calls[t].pc.v, a));
    } else {
      NothingFaults(s, chain);
      assert Dereferenced(s.calls[t].pc) <= s.mem.Keys;
      hide ShapeOk, Advance;
      assert Step(s, t, Advance(s, t));
    }
  }
}
