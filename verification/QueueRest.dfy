/**
 What the queue comes to rest as: when no call is in flight, the tail pointer has caught up and no
 node has been lost.
 */
module QueueRest {
  import opened LockFreeQueue

  /** The tail pointer is at the last node, or a push is about to move it there. */
  ghost predicate TailDue(s: State, chain: seq<Addr>)
  {
    chain != [] && (s.tail == Last(chain) || exists t :: t in s.calls && s.calls[t].pc == PushSwing(Last(chain), s.tail))
  }

  ghost predicate HasOwner(calls: map<ThreadId, Call>, a: Addr)
  {
    exists t :: t in calls && a in Owned(calls[t].pc)
  }

  /** Every allocated node is in the list, or a call is still to link it in or to free it. */
  ghost predicate NothingLost(s: State, chain: seq<Addr>)
  {
    forall a :: a in s.live <==> a in chain || HasOwner(s.calls, a)
  }

  lemma OwnerStays(calls: map<ThreadId, Call>, t: ThreadId, c: Call, a: Addr)
    requires t in calls ==> Owned(calls[t].pc) == Owned(c.pc)
    requires t !in calls ==> Owned(c.pc) == {}
    ensures HasOwner(calls[t := c], a) <==> HasOwner(calls, a)
  {
    if HasOwner(calls, a) {
      var u :| u in calls && a in Owned(calls[u].pc);
      assert a in Owned(calls[t := c][u].pc);
    }
    if HasOwner(calls[t := c], a) {
      var u :| u in calls[t := c] && a in Owned(calls[t := c][u].pc);
      assert a in Owned(calls[u].pc);
    }
  }

  /** A call that comes to own `n`, or no longer does. */
  lemma OwnerChanges(calls: map<ThreadId, Call>, t: ThreadId, c: Call, a: Addr)
    requires t in calls && Exclusive(calls)
    ensures HasOwner(calls[t := c], a) <==> a in Owned(c.pc) || (HasOwner(calls, a) && a !in Owned(calls[t].pc))
  {
    if a in Owned(c.pc) {
      assert t in calls[t := c] && a in Owned(calls[t := c][t].pc);
    } else if HasOwner(calls, a) && a !in Owned(calls[t].pc) {
      var u :| u in calls && a in Owned(calls[u].pc);
      assert u in calls[t := c] && a in Owned(calls[t := c][u].pc);
    }
    if HasOwner(calls[t := c], a) && a !in Owned(c.pc) {
      var u :| u in calls[t := c] && a in Owned(calls[t := c][u].pc);
      assert u != t && u in calls && Owned(calls[t].pc) !! Owned(calls[u].pc);
    }
  }

  /** Moving the tail from a node along its link brings it to the last. */
  lemma TailArrives(v: View, next: Addr)
    requires Linked(v) && PointsTo(v, v.tail, next)
    ensures next == Last(v.chain)
  {
  }

  lemma DueStays(s: State, s': State, t: ThreadId, chain: seq<Addr>)
    requires TailDue(s, chain) && t in s.calls && s'.tail == s.tail
    requires forall u :: u in s.calls && u != t ==> u in s'.calls && s'.calls[u] == s.calls[u]
    requires s.tail != Last(chain) ==> s.calls[t].pc != PushSwing(Last(chain), s.tail)
    ensures TailDue(s', chain)
  {
  }

  lemma AdvanceTail(s: State, t: ThreadId, chain: seq<Addr>)
    requires ShapeOk(s, chain) && TailDue(s, chain) && t in s.calls && !s.calls[t].pc.PushAlloc?
    requires Dereferenced(s.calls[t].pc) <= s.mem.Keys
    ensures TailDue(Advance(s, t), NextChain(s, t, chain))
  {
    var c, s' := s.calls[t], Advance(s, t);
    var v := ViewOf(s, chain);
    assert PcOk(v, c.what, c.pc);
    hide Exclusive, CallsOk;
    if c.pc.PushCasNext? && s.mem[c.pc.tail].next == NULL {
      assert s'.calls[t].pc == PushSwing(c.pc.n, s'.tail) && Last(chain + [c.pc.n]) == c.pc.n;
    } else if c.pc.PopCasHead? && s.head == c.pc.head {
      assert |chain| >= 2 && Last(chain[1..]) == Last(chain);
      DueStays(s, s', t, chain);
    } else if c.pc.PushSwing? && s.tail == c.pc.tail {
      TailArrives(v, c.pc.n);
    } else if c.pc.PushHelp? && s.tail == c.pc.tail {
      TailArrives(v, c.pc.next);
    } else if c.pc.PopHelp? && s.tail == c.pc.head {
      TailArrives(v, c.pc.next);
    } else {
      DueStays(s, s', t, chain);
    }
  }

  lemma GotoKeepsOwners(s: State, t: ThreadId, pc: Pc, a: Addr)
    requires t in s.calls && Exclusive(s.calls)
    ensures HasOwner(Goto(s, t, pc).calls, a) <==> a in Owned(pc) || (HasOwner(s.calls, a) && a !in Owned(s.calls[t].pc))
  {
    OwnerChanges(s.calls, t, s.calls[t].(pc := pc), a);
  }

  lemma OwnedHasOwner(calls: map<ThreadId, Call>, t: ThreadId, a: Addr)
    requires t in calls && a in Owned(calls[t].pc)
    ensures HasOwner(calls, a)
  {
  }

  lemma ReturnKeepsOwners(s: State, t: ThreadId, a: Addr)
    requires t in s.calls && s.calls[t].pc.Return?
    ensures HasOwner(s.calls - {t}, a) <==> HasOwner(s.calls, a)
  {
    if HasOwner(s.calls, a) {
      var u :| u in s.calls && a in Owned(s.calls[u].pc);
      assert u in s.calls - {t} && (s.calls - {t})[u] == s.calls[u];
    }
  }

  /** The three steps that change which nodes are allocated, linked in or owned. */
  predicate HandsOver(s: State, t: ThreadId)
    requires t in s.calls
  {
    match s.calls[t].pc
    case PushCasNext(_, tail) => tail in s.mem && s.mem[tail].next == NULL
    case PopCasHead(head, _, _) => s.head == head
    case PopFree(_, _) => true
    case _ => false
  }

  lemma OthersHandNothingOver(s: State, t: ThreadId, chain: seq<Addr>)
    requires t in s.calls && !s.calls[t].pc.PushAlloc? && !s.calls[t].pc.Return? && Dereferenced(s.calls[t].pc) <= s.mem.Keys && !HandsOver(s, t)
    ensures var s' := Advance(s, t);
            t in s'.calls && Owned(s'.calls[t].pc) == Owned(s.calls[t].pc) && s'.live == s.live && NextChain(s, t, chain) == chain &&
            s'.calls == s.calls[t := s'.calls[t]]
  {
  }

  lemma HandedOver(s: State, t: ThreadId, chain: seq<Addr>, a: Addr)
    requires ShapeOk(s, chain) && t in s.calls && Dereferenced(s.calls[t].pc) <= s.mem.Keys && HandsOver(s, t)
    requires a in s.live <==> a in chain || HasOwner(s.calls, a)
    ensures a in Advance(s, t).live <==> a in NextChain(s, t, chain) || HasOwner(Advance(s, t).calls, a)
  {
    var c, s' := s.calls[t], Advance(s, t);
    assert PcOk(ViewOf(s, chain), c.what, c.pc);
    assert a in Owned(c.pc) ==> HasOwner(s.calls, a);
    GotoKeepsOwners(s, t, s'.calls[t].pc, a);
    hide HasOwner, Exclusive, CallsOk;
    if c.pc.PopCasHead? {
      assert chain == [s.head] + chain[1..];
    }
  }

  lemma OneAccounted(s: State, t: ThreadId, chain: seq<Addr>, a: Addr)
    requires ShapeOk(s, chain) && NothingLost(s, chain) && t in s.calls && !s.calls[t].pc.PushAlloc?
    requires Dereferenced(s.calls[t].pc) <= s.mem.Keys
    ensures a in Advance(s, t).live <==> a in NextChain(s, t, chain) || HasOwner(Advance(s, t).calls, a)
  {
    hide ShapeOk, HasOwner;
    if s.calls[t].pc.Return? {
      ReturnKeepsOwners(s, t, a);
    } else if HandsOver(s, t) {
      HandedOver(s, t, chain, a);
    } else {
      OthersHandNothingOver(s, t, chain);
      hide Advance, NextChain;
      OwnerStays(s.calls, t, Advance(s, t).calls[t], a);
    }
  }

  lemma AdvanceLosesNothing(s: State, t: ThreadId, chain: seq<Addr>)
    requires ShapeOk(s, chain) && NothingLost(s, chain) && t in s.calls && !s.calls[t].pc.PushAlloc?
    requires Dereferenced(s.calls[t].pc) <= s.mem.Keys
    ensures NothingLost(Advance(s, t), NextChain(s, t, chain))
  {
    hide ShapeOk, Advance, NextChain, HasOwner;
    forall a ensures a in Advance(s, t).live <==> a in NextChain(s, t, chain) || HasOwner(Advance(s, t).calls, a) {
      OneAccounted(s, t, chain, a);
    }
  }

  lemma AllocateRests(s: State, t: ThreadId, a: Addr, chain: seq<Addr>)
    requires ShapeOk(s, chain) && NothingLost(s, chain) && TailDue(s, chain) && t in s.calls && s.calls[t].pc.PushAlloc? && MayAllocate(s, a)
    ensures NothingLost(Allocated(s, t, s.calls[t].pc.v, a), chain) && TailDue(Allocated(s, t, s.calls[t].pc.v, a), chain)
  {
    var s' := Allocated(s, t, s.calls[t].pc.v, a);
    forall b ensures b in s'.live <==> b in chain || HasOwner(s'.calls, b) {
      GotoKeepsOwners(s, t, PushReadTail(a), b);
    }
    DueStays(s, s', t, chain);
  }

  lemma EnterRests(s: State, t: ThreadId, op: Operation, chain: seq<Addr>)
    requires NothingLost(s, chain) && TailDue(s, chain) && t !in s.calls
    ensures NothingLost(Entered(s, t, op), chain) && TailDue(Entered(s, t, op), chain)
  {
    var s' := Entered(s, t, op);
    forall b ensures b in s'.live <==> b in chain || HasOwner(s'.calls, b) {
      OwnerStays(s.calls, t, s'.calls[t], b);
    }
    if s.tail != Last(chain) {
      var u :| u in s.calls && s.calls[u].pc == PushSwing(Last(chain), s.tail);
      assert u in s'.calls && s'.calls[u].pc == PushSwing(Last(chain), s'.tail);
    }
  }

  lemma {:induction false} RunRests(run: seq<State>) returns (chain: seq<Addr>)
    requires Run(run)
    ensures ShapeOk(Final(run), chain) && NothingLost(Final(run), chain) && TailDue(Final(run), chain)
    decreases |run|
  {
    var n := |run| - 1;
    if n == 0 {
      chain := [run[0].head];
    } else {
      chain := RunRests(run[..n]);
      hide ShapeOk, NothingLost, TailDue, Linked;
      var s, s' := run[n - 1], run[n];
      assert Final(run[..n]) == s;
      assert Stepped(s, s');
      var t :| Step(s, t, s');
      if t !in s.calls {
        var op :| s' == Entered(s, t, op);
        InvokeShape(s, t, op, chain);
        EnterRests(s, t, op, chain);
      } else if s.calls[t].pc.PushAlloc? {
        var a :| MayAllocate(s, a) && s' == Allocated(s, t, s.calls[t].pc.v, a);
        AllocateShape(s, t, a, chain);
        AllocateRests(s, t, a, chain);
      } else {
        AdvanceShape(s, t, chain);
        AdvanceTail(s, t, chain);
        AdvanceLosesNothing(s, t, chain);
        chain := NextChain(s, t, chain);
      }
    }
  }

  /** With no call in flight, the tail pointer is at the last node of the list, and the nodes of the
      list are all that is allocated. */
  lemma QuietRest(run: seq<State>) returns (chain: seq<Addr>)
    requires Run(run) && Final(run).calls == map[]
    ensures Linked(ViewOf(Final(run), chain)) && Final(run).tail == Last(chain)
    ensures forall a :: a in Final(run).live <==> a in chain
  {
    chain := RunRests(run);
  }
}
