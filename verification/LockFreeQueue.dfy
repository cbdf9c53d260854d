/**
 The kernel's lock-free FIFO queue as a protocol: any number of threads run
 `queue_push` and `queue_pop`, one shared-memory access per step.

 Nodes live at addresses (0 is NULL). `malloc` may hand out any address that is
 neither allocated nor still held in a local variable of an operation in flight;
 `free` only gives the address back, so a stale reader sees the old contents.
 */
module LockFreeQueue {

  type Addr = nat
  type Word = nat
  type ThreadId = nat

  const NULL: Addr := 0
  const QUEUE_MAGIC: Word := 0xDEADBEEF
  /** `len` is a 32-bit `size_t`; it wraps. */
  const SIZE_RANGE: int := 0x1_0000_0000

  datatype Node = Node(p: Word, next: Addr)

  datatype Operation = Push(v: Word) | Pop

  /** The program counter of a thread, with the local variables live there. */
  datatype Pc =
    | PushAlloc(v: Word)                                       // has still to get and fill its node
    | PushReadTail(n: Addr)                                    // reads the shared tail pointer
    | PushReadNext(n: Addr, tail: Addr)                        // reads the link out of that tail node
    | PushCheckTail(n: Addr, tail: Addr, next: Addr)           // is that node still the tail?
    | PushCasNext(n: Addr, tail: Addr)                         // tries to hang its node on an empty link
    | PushHelp(n: Addr, tail: Addr, next: Addr)                // moves a lagging tail on, then starts over
    | PushSwing(n: Addr, tail: Addr)                           // moves the tail to its node, if nobody has
    | PushInc                                                  // counts its item
    | PopReadHead                                              // reads the shared head pointer
    | PopReadTail(head: Addr)                                  // reads the shared tail pointer
    | PopReadNext(head: Addr, tail: Addr)                      // reads the link out of the dummy
    | PopCheckHead(head: Addr, tail: Addr, next: Addr)         // is that node still the dummy?
    | PopHelp(head: Addr, next: Addr)                          // moves a tail lagging on the dummy, then starts over
    | PopReadValue(head: Addr, next: Addr)                     // reads the value behind the dummy
    | PopCasHead(head: Addr, next: Addr, ret: Word)            // tries to move the head to that node
    | PopFree(head: Addr, ret: Word)                           // gives the old dummy back
    | PopDec(ret: Word)                                        // uncounts its item
    | Return(ret: Word)                                        // about to return (a push returns nothing: 0)

  /** A call is named by the position of its invocation in the history. */
  datatype Call = Call(id: nat, what: Operation, pc: Pc)

  datatype Event = Invoked(what: Operation) | Responded(id: nat, ret: Word)

  datatype State = State(
    mem: map<Addr, Node>,             // contents of every node ever written
    live: set<Addr>,                  // addresses currently allocated
    head: Addr, tail: Addr, len: nat,
    calls: map<ThreadId, Call>,       // the calls in flight, at most one per thread
    history: seq<Event>)              // invocations and responses so far

  // ---------------------------------------------------------------- the program

  function Created(base: Addr): State
  {
    State(map[base := Node(QUEUE_MAGIC, NULL)], {base}, base, base, 0, map[], [])
  }

  function Goto(s: State, t: ThreadId, pc: Pc): State
    requires t in s.calls
  {
    s.(calls := s.calls[t := s.calls[t].(pc := pc)])
  }

  /** Addresses held in the local variables of a call. */
  function Held(pc: Pc): set<Addr>
  {
    match pc
    case PushReadTail(n) => {n}
    case PushReadNext(n, tail) => {n, tail}
    case PushCheckTail(n, tail, next) => {n, tail, next}
    case PushCasNext(n, tail) => {n, tail}
    case PushHelp(n, tail, next) => {n, tail, next}
    case PushSwing(n, tail) => {n, tail}
    case PopReadTail(head) => {head}
    case PopReadNext(head, tail) => {head, tail}
    case PopCheckHead(head, tail, next) => {head, tail, next}
    case PopHelp(head, next) => {head, next}
    case PopReadValue(head, next) => {head, next}
    case PopCasHead(head, next, _) => {head, next}
    case PopFree(head, _) => {head}
    case _ => {}
  }

  /** The address the next step of a call dereferences, if it dereferences one. */
  function Dereferenced(pc: Pc): set<Addr>
  {
    match pc
    case PushReadNext(_, tail) => {tail}
    case PushCasNext(_, tail) => {tail}
    case PopReadNext(head, _) => {head}
    case PopReadValue(_, next) => {next}
    case PopFree(head, _) => {head}
    case _ => {}
  }

  ghost predicate Faultless(s: State)
  {
    forall t, a :: t in s.calls && a in Dereferenced(s.calls[t].pc) ==> a != NULL && a in s.mem
  }

  ghost predicate MayAllocate(s: State, a: Addr)
  {
    a != NULL && a !in s.live && forall u :: u in s.calls ==> a !in Held(s.calls[u].pc)
  }

  /** An idle thread enters `queue_push` or `queue_pop`. */
  ghost predicate Invoke(s: State, t: ThreadId, s': State)
  {
    t !in s.calls && exists op :: s' == Entered(s, t, op)
  }

  function Entered(s: State, t: ThreadId, op: Operation): State
  {
    s.(calls := s.calls[t := Call(|s.history|, op, if op.Push? then PushAlloc(op.v) else PopReadHead)],
       history := s.history + [Invoked(op)])
  }

  ghost predicate Allocate(s: State, t: ThreadId, v: Word, s': State)
    requires t in s.calls
  {
    exists a :: MayAllocate(s, a) && s' == Allocated(s, t, v, a)
  }

  function Allocated(s: State, t: ThreadId, v: Word, a: Addr): State
    requires t in s.calls
  {
    Goto(s, t, PushReadTail(a)).(mem := s.mem[a := Node(v, NULL)], live := s.live + {a})
  }

  /** The state after the next step of a call in flight, other than its allocation. */
  function Advance(s: State, t: ThreadId): State
    requires t in s.calls && !s.calls[t].pc.PushAlloc?
    requires Dereferenced(s.calls[t].pc) <= s.mem.Keys
  {
    match s.calls[t].pc
    case PushAlloc(_) => s
    case PushReadTail(n) => Goto(s, t, PushReadNext(n, s.tail))
    case PushReadNext(n, tail) => Goto(s, t, PushCheckTail(n, tail, s.mem[tail].next))
    case PushCheckTail(n, tail, next) =>
      Goto(s, t, if tail != s.tail then PushReadTail(n)
                 else if next == NULL then PushCasNext(n, tail)
                 else PushHelp(n, tail, next))
    case PushCasNext(n, tail) =>
      if s.mem[tail].next == NULL
      then Goto(s, t, PushSwing(n, tail)).(mem := s.mem[tail := s.mem[tail].(next := n)])
      else Goto(s, t, PushReadTail(n))
    case PushHelp(n, tail, next) =>
      Goto(s, t, PushReadTail(n)).(tail := if s.tail == tail then next else s.tail)
    case PushSwing(n, tail) =>
      Goto(s, t, PushInc).(tail := if s.tail == tail then n else s.tail)
    case PushInc => Goto(s, t, Return(0)).(len := (s.len + 1) % SIZE_RANGE)
    case PopReadHead => Goto(s, t, PopReadTail(s.head))
    case PopReadTail(head) => Goto(s, t, PopReadNext(head, s.tail))
    case PopReadNext(head, tail) => Goto(s, t, PopCheckHead(head, tail, s.mem[head].next))
    case PopCheckHead(head, tail, next) =>
      Goto(s, t, if head != s.head then PopReadHead
                 else if head != tail then PopReadValue(head, next)
                 else if next == NULL then Return(0)
                 else PopHelp(head, next))
    case PopHelp(head, next) =>
      Goto(s, t, PopReadHead).(tail := if s.tail == head then next else s.tail)
    case PopReadValue(head, next) => Goto(s, t, PopCasHead(head, next, s.mem[next].p))
    case PopCasHead(head, next, ret) =>
      if s.head == head then Goto(s, t, PopFree(head, ret)).(head := next)
      else Goto(s, t, PopReadHead)
    case PopFree(head, ret) => Goto(s, t, PopDec(ret)).(live := s.live - {head})
    case PopDec(ret) => Goto(s, t, Return(ret)).(len := (s.len - 1) % SIZE_RANGE)
    case Return(ret) =>
      s.(calls := s.calls - {t}, history := s.history + [Responded(s.calls[t].id, ret)])
  }

  /** One step of thread `t`. */
  ghost predicate Step(s: State, t: ThreadId, s': State)
  {
    if t !in s.calls then Invoke(s, t, s')
    else if s.calls[t].pc.PushAlloc? then Allocate(s, t, s.calls[t].pc.v, s')
    else Dereferenced(s.calls[t].pc) <= s.mem.Keys && s' == Advance(s, t)
  }

  ghost predicate Stepped(s: State, s': State)
  {
    exists t :: Step(s, t, s')
  }

  /** A run from `create_queue`: the states passed through, in order. */
  ghost predicate Run(run: seq<State>)
  {
    |run| >= 1 &&
    (exists base :: base != NULL && run[0] == Created(base)) &&
    forall i :: 0 <= i < |run|-1 ==> Stepped(run[i], run[i+1])
  }

  // ---------------------------------------------------------------- the specification

  /** One entry of a sequential history: a call with the result it returns. */
  datatype Entry = Entry(id: nat, what: Operation, ret: Word)

  datatype Outcome = Wrong | Holds(items: seq<Word>)

  /** The atomic FIFO: a pop of the empty queue returns 0 and changes nothing. */
  function Apply(q: Outcome, e: Entry): Outcome
  {
    if q.Wrong? then Wrong
    else match e.what
      case Push(v) => if e.ret == 0 then Holds(q.items + [v]) else Wrong
      case Pop =>
        if q.items == [] then (if e.ret == 0 then q else Wrong)
        else if e.ret == q.items[0] then Holds(q.items[1..]) else Wrong
  }

  function Replay(log: seq<Entry>): Outcome
  {
    if log == [] then Holds([]) else Apply(Replay(log[..|log|-1]), log[|log|-1])
  }

  ghost predicate Distinct(log: seq<Entry>)
  {
    forall i, j :: 0 <= i < j < |log| ==> log[i].id != log[j].id
  }

  ghost predicate OnlyInvoked(history: seq<Event>, log: seq<Entry>)
  {
    forall i :: 0 <= i < |log| ==> log[i].id < |history| && history[log[i].id] == Invoked(log[i].what)
  }

  /** Every response is explained by an entry of the log. */
  ghost predicate Explains(history: seq<Event>, log: seq<Entry>)
  {
    forall k :: 0 <= k < |history| && history[k].Responded? ==>
      exists i :: 0 <= i < |log| && log[i].id == history[k].id && log[i].ret == history[k].ret
  }

  /** A call that returned before another was made comes first. */
  ghost predicate RealTime(history: seq<Event>, log: seq<Entry>)
  {
    forall i, j, k ::
      (0 <= i < j < |log| && 0 <= k < |history| && history[k].Responded? && history[k].id == log[j].id)
      ==> log[i].id < k
  }

  ghost predicate Linearizes(history: seq<Event>, log: seq<Entry>)
  {
    Distinct(log) && OnlyInvoked(history, log) && Explains(history, log) && RealTime(history, log) &&
    Replay(log).Holds?
  }

  ghost predicate Linearizable(history: seq<Event>)
  {
    exists log :: Linearizes(history, log)
  }

  // ---------------------------------------------------------------- the shape of the list

  /** The shared memory, with the list that starts at the head spelled out. */
  datatype View = View(mem: map<Addr, Node>, live: set<Addr>, head: Addr, tail: Addr, chain: seq<Addr>)

  function ViewOf(s: State, chain: seq<Addr>): View
  {
    View(s.mem, s.live, s.head, s.tail, chain)
  }

  function Last(chain: seq<Addr>): Addr
    requires chain != []
  {
    chain[|chain|-1]
  }

  /** Following `next` from `head` passes through exactly `chain`, and `tail` is at most one behind. */
  ghost predicate Linked(v: View)
  {
    v.chain != [] && v.chain[0] == v.head &&
    (forall i, j :: 0 <= i < j < |v.chain| ==> v.chain[i] != v.chain[j]) &&
    (forall i :: 0 <= i < |v.chain| ==> v.chain[i] != NULL && v.chain[i] in v.mem && v.chain[i] in v.live) &&
    (forall i :: 0 <= i < |v.chain|-1 ==> v.mem[v.chain[i]].next == v.chain[i+1]) &&
    v.mem[Last(v.chain)].next == NULL &&
    (v.tail == Last(v.chain) || (|v.chain| >= 2 && v.tail == v.chain[|v.chain|-2])) &&
    forall a :: a in v.mem && v.mem[a].next != NULL ==> v.mem[a].next in v.mem
  }

  /** What the queue holds: the first node of the chain is the dummy. */
  function Items(mem: map<Addr, Node>, chain: seq<Addr>): seq<Word>
  {
    if |chain| <= 1 then []
    else Items(mem, chain[..|chain|-1]) + (if Last(chain) in mem then [mem[Last(chain)].p] else [])
  }

  /** A node that `q->tail` has reached, popped or not. */
  ghost predicate Reached(v: View, a: Addr)
  {
    v.chain != [] && a != NULL && a in v.mem && (v.mem[a].next == NULL ==> a == v.tail && a == Last(v.chain))
  }

  /** A node that is, or once was, the head. */
  ghost predicate WasHead(v: View, a: Addr)
  {
    a != NULL && a in v.mem && (a == v.head || (a !in v.chain && v.mem[a].next != NULL))
  }

  ghost predicate PointsTo(v: View, a: Addr, next: Addr)
  {
    a in v.mem && next != NULL && v.mem[a].next == next
  }

  /** A node not linked in yet, carrying the value to push. */
  ghost predicate Private(v: View, n: Addr, what: Operation)
  {
    n != NULL && n in v.live && n in v.mem && n !in v.chain && what.Push? && v.mem[n] == Node(what.v, NULL)
  }

  /** What holds of the local variables of a call wherever it stands. */
  ghost predicate PcOk(v: View, what: Operation, pc: Pc)
  {
    match pc
    case PushAlloc(x) => what == Push(x)
    case PushReadTail(n) => Private(v, n, what)
    case PushReadNext(n, tail) => Private(v, n, what) && Reached(v, tail)
    case PushCheckTail(n, tail, next) =>
      Private(v, n, what) && Reached(v, tail) && (next != NULL ==> PointsTo(v, tail, next))
    case PushCasNext(n, tail) => Private(v, n, what) && Reached(v, tail)
    case PushHelp(n, tail, next) => Private(v, n, what) && PointsTo(v, tail, next)
    case PushSwing(n, tail) => what.Push? && PointsTo(v, tail, n)
    case PushInc => what.Push?
    case PopReadHead => what == Pop
    case PopReadTail(head) => what == Pop && WasHead(v, head)
    case PopReadNext(head, tail) =>
      what == Pop && WasHead(v, head) && (head == v.head && head != tail ==> v.tail != v.head)
    case PopCheckHead(head, tail, next) =>
      what == Pop && WasHead(v, head) && (head == v.head && head != tail ==> v.tail != v.head) &&
      (if next == NULL then head == tail else PointsTo(v, head, next))
    case PopHelp(head, next) => what == Pop && PointsTo(v, head, next)
    case PopReadValue(head, next) =>
      what == Pop && WasHead(v, head) && PointsTo(v, head, next) && next in v.mem &&
      (head == v.head ==> v.tail != v.head)
    case PopCasHead(head, next, ret) =>
      what == Pop && WasHead(v, head) && PointsTo(v, head, next) && next in v.mem &&
      (head == v.head ==> v.tail != v.head && v.mem[next].p == ret)
    case PopFree(head, ret) =>
      what == Pop && head != NULL && head in v.mem && head in v.live && head !in v.chain &&
      v.mem[head].next != NULL
    case PopDec(ret) => what == Pop
    case Return(ret) => what.Push? ==> ret == 0
  }

  /** The node a call alone may link in or free. */
  function Owned(pc: Pc): set<Addr>
  {
    match pc
    case PushReadTail(n) => {n}
    case PushReadNext(n, _) => {n}
    case PushCheckTail(n, _, _) => {n}
    case PushCasNext(n, _) => {n}
    case PushHelp(n, _, _) => {n}
    case PopFree(head, _) => {head}
    case _ => {}
  }

  ghost predicate Exclusive(calls: map<ThreadId, Call>)
  {
    forall t, u :: t in calls && u in calls && t != u ==> Owned(calls[t].pc) !! Owned(calls[u].pc)
  }

  ghost predicate CallsOk(v: View, calls: map<ThreadId, Call>)
  {
    forall t :: t in calls ==> PcOk(v, calls[t].what, calls[t].pc)
  }

  ghost predicate ShapeOk(s: State, chain: seq<Addr>)
  {
    Linked(ViewOf(s, chain)) && Exclusive(s.calls) && CallsOk(ViewOf(s, chain), s.calls)
  }

  // The shared accesses that change something, each with the facts other calls rely on.

  lemma TailMoves(v: View, next: Addr, what: Operation, pc: Pc)
    requires Linked(v) && PointsTo(v, v.tail, next)
    ensures Linked(v.(tail := next)) && next != v.head
    ensures PcOk(v, what, pc) ==> PcOk(v.(tail := next), what, pc)
  {
  }

  lemma NodeAllocated(v: View, a: Addr, x: Word, what: Operation, pc: Pc)
    requires Linked(v) && a !in v.live && a !in Held(pc)
    ensures Linked(v.(mem := v.mem[a := Node(x, NULL)], live := v.live + {a}))
    ensures PcOk(v, what, pc) ==> PcOk(v.(mem := v.mem[a := Node(x, NULL)], live := v.live + {a}), what, pc)
  {
  }

  function LinkedIn(v: View, tail: Addr, n: Addr): View
    requires tail in v.mem
  {
    v.(mem := v.mem[tail := v.mem[tail].(next := n)], chain := v.chain + [n])
  }

  lemma NodeLinked(v: View, tail: Addr, n: Addr, own: Operation, what: Operation, pc: Pc)
    requires Linked(v) && Reached(v, tail) && v.mem[tail].next == NULL && Private(v, n, own) && n !in Owned(pc)
    ensures Linked(LinkedIn(v, tail, n))
    ensures PcOk(v, what, pc) ==> PcOk(LinkedIn(v, tail, n), what, pc)
  {
    StillLinked(v, tail, n, own);
  }

  lemma StillLinked(v: View, tail: Addr, n: Addr, own: Operation)
    requires Linked(v) && Reached(v, tail) && v.mem[tail].next == NULL && Private(v, n, own)
    ensures Linked(LinkedIn(v, tail, n))
  {
  }

  lemma HeadMoves(v: View, next: Addr, what: Operation, pc: Pc)
    requires Linked(v) && PointsTo(v, v.head, next) && v.tail != v.head
    ensures Linked(v.(head := next, chain := v.chain[1..]))
    ensures PcOk(v, what, pc) ==> PcOk(v.(head := next, chain := v.chain[1..]), what, pc)
  {
  }

  lemma NodeFreed(v: View, a: Addr, what: Operation, pc: Pc)
    requires Linked(v) && a !in v.chain && a !in Owned(pc)
    ensures Linked(v.(live := v.live - {a}))
    ensures PcOk(v, what, pc) ==> PcOk(v.(live := v.live - {a}), what, pc)
  {
  }

  function NextChain(s: State, t: ThreadId, chain: seq<Addr>): seq<Addr>
  {
    if t !in s.calls then chain
    else match s.calls[t].pc
      case PushCasNext(n, tail) => if tail in s.mem && s.mem[tail].next == NULL then chain + [n] else chain
      case PopCasHead(head, _, _) => if head == s.head && chain != [] then chain[1..] else chain
      case _ => chain
  }

  lemma Assemble(s: State, t: ThreadId, pc: Pc, v: View)
    requires t in s.calls && Exclusive(s.calls) && Linked(v)
    requires PcOk(v, s.calls[t].what, pc)
    requires forall u :: u in s.calls && u != t ==> PcOk(v, s.calls[u].what, s.calls[u].pc)
    requires forall u :: u in s.calls && u != t ==> Owned(pc) !! Owned(s.calls[u].pc)
    ensures Exclusive(Goto(s, t, pc).calls) && CallsOk(v, Goto(s, t, pc).calls)
  {
  }

  lemma InvokeShape(s: State, t: ThreadId, op: Operation, chain: seq<Addr>)
    requires ShapeOk(s, chain) && t !in s.calls
    ensures ShapeOk(Entered(s, t, op), chain)
  {
  }

  lemma AllocateShape(s: State, t: ThreadId, a: Addr, chain: seq<Addr>)
    requires ShapeOk(s, chain) && t in s.calls && s.calls[t].pc.PushAlloc? && MayAllocate(s, a)
    ensures ShapeOk(Allocated(s, t, s.calls[t].pc.v, a), chain)
  {
    var x := s.calls[t].pc.v;
    var s' := Allocated(s, t, x, a);
    forall u | u in s.calls ensures PcOk(ViewOf(s', chain), s.calls[u].what, s.calls[u].pc) {
      NodeAllocated(ViewOf(s, chain), a, x, s.calls[u].what, s.calls[u].pc);
    }
    forall u | u in s.calls ensures Owned(s.calls[u].pc) <= Held(s.calls[u].pc) {
    }
    Assemble(s, t, PushReadTail(a), ViewOf(s', chain));
  }

  /** Steps that leave the list alone. */
  lemma LocalShape(s: State, t: ThreadId, pc: Pc, chain: seq<Addr>)
    requires ShapeOk(s, chain) && t in s.calls
    requires PcOk(ViewOf(s, chain), s.calls[t].what, pc) && Owned(pc) <= Owned(s.calls[t].pc)
    ensures ShapeOk(Goto(s, t, pc), chain)
  {
    Assemble(s, t, pc, ViewOf(s, chain));
  }

  lemma TailShape(s: State, t: ThreadId, tail: Addr, next: Addr, pc: Pc, chain: seq<Addr>)
    requires ShapeOk(s, chain) && t in s.calls
    requires PointsTo(ViewOf(s, chain), tail, next)
    requires PcOk(ViewOf(s, chain), s.calls[t].what, pc) && Owned(pc) <= Owned(s.calls[t].pc)
    ensures ShapeOk(Goto(s, t, pc).(tail := if s.tail == tail then next else s.tail), chain)
  {
    if s.tail != tail {
      LocalShape(s, t, pc, chain);
    } else {
      var v := ViewOf(s, chain);
      forall u | u in s.calls ensures PcOk(v.(tail := next), s.calls[u].what, s.calls[u].pc) {
        TailMoves(v, next, s.calls[u].what, s.calls[u].pc);
      }
      TailMoves(v, next, s.calls[t].what, pc);
      Assemble(s, t, pc, v.(tail := next));
    }
  }

  lemma LinkShape(s: State, t: ThreadId, chain: seq<Addr>)
    requires ShapeOk(s, chain) && t in s.calls && s.calls[t].pc.PushCasNext?
    requires s.calls[t].pc.tail in s.mem && s.mem[s.calls[t].pc.tail].next == NULL
    ensures ShapeOk(Advance(s, t), chain + [s.calls[t].pc.n])
  {
    var v, what := ViewOf(s, chain), s.calls[t].what;
    var PushCasNext(n, tail) := s.calls[t].pc;
    var v' := LinkedIn(v, tail, n);
    forall u | u in s.calls && u != t ensures PcOk(v', s.calls[u].what, s.calls[u].pc) {
      assert n in Owned(s.calls[t].pc);
      NodeLinked(v, tail, n, what, s.calls[u].what, s.calls[u].pc);
    }
    NodeLinked(v, tail, n, what, what, PushInc);
    Assemble(s, t, PushSwing(n, tail), v');
    assert ViewOf(Advance(s, t), chain + [n]) == v';
  }

  lemma HeadShape(s: State, t: ThreadId, chain: seq<Addr>)
    requires ShapeOk(s, chain) && t in s.calls && s.calls[t].pc.PopCasHead? && s.calls[t].pc.head == s.head
    ensures ShapeOk(Advance(s, t), chain[1..])
  {
    var v, what := ViewOf(s, chain), s.calls[t].what;
    var PopCasHead(head, next, ret) := s.calls[t].pc;
    var v' := v.(head := next, chain := chain[1..]);
    forall u | u in s.calls ensures PcOk(v', s.calls[u].what, s.calls[u].pc) {
      HeadMoves(v, next, s.calls[u].what, s.calls[u].pc);
    }
    forall u | u in s.calls ensures head !in Owned(s.calls[u].pc) {
      assert PcOk(v, s.calls[u].what, s.calls[u].pc);
    }
    Assemble(s, t, PopFree(head, ret), v');
    assert ViewOf(Advance(s, t), chain[1..]) == v';
  }

  lemma FreeShape(s: State, t: ThreadId, chain: seq<Addr>)
    requires ShapeOk(s, chain) && t in s.calls && s.calls[t].pc.PopFree?
    ensures ShapeOk(Advance(s, t), chain)
  {
    var v := ViewOf(s, chain);
    var PopFree(head, ret) := s.calls[t].pc;
    var v' := v.(live := s.live - {head});
    forall u | u in s.calls && u != t ensures PcOk(v', s.calls[u].what, s.calls[u].pc) {
      assert head in Owned(s.calls[t].pc);
      NodeFreed(v, head, s.calls[u].what, s.calls[u].pc);
    }
    NodeFreed(v, head, s.calls[t].what, PopDec(ret));
    Assemble(s, t, PopDec(ret), v');
    assert ViewOf(Advance(s, t), chain) == v';
  }

  lemma ReturnShape(s: State, t: ThreadId, chain: seq<Addr>)
    requires ShapeOk(s, chain) && t in s.calls && s.calls[t].pc.Return?
    ensures ShapeOk(Advance(s, t), chain)
  {
  }

  lemma PushShape(s: State, t: ThreadId, chain: seq<Addr>)
    requires ShapeOk(s, chain) && t in s.calls && s.calls[t].what.Push? && !s.calls[t].pc.PushAlloc?
    requires Dereferenced(s.calls[t].pc) <= s.mem.Keys
    ensures ShapeOk(Advance(s, t), NextChain(s, t, chain))
  {
    hide Exclusive;
    match s.calls[t].pc
    case PushReadTail(n) => LocalShape(s, t, PushReadNext(n, s.tail), chain);
    case PushReadNext(n, tail) => LocalShape(s, t, PushCheckTail(n, tail, s.mem[tail].next), chain);
    case PushCheckTail(n, tail, next) =>
      LocalShape(s, t, Advance(s, t).calls[t].pc, chain);
    case PushCasNext(n, tail) =>
      if s.mem[tail].next == NULL {
        LinkShape(s, t, chain);
      } else {
        LocalShape(s, t, PushReadTail(n), chain);
      }
    case PushHelp(n, tail, next) => TailShape(s, t, tail, next, PushReadTail(n), chain);
    case PushSwing(n, tail) => TailShape(s, t, tail, n, PushInc, chain);
    case PushInc => LocalShape(s, t, Return(0), chain);
    case Return(_) => ReturnShape(s, t, chain);
  }

  /** A former head with no successor is the head of an empty queue, so `tail` is there too. */
  lemma NullMeansEmpty(v: View, head: Addr)
    requires Linked(v) && WasHead(v, head) && v.mem[head].next == NULL
    ensures v.chain == [head] && head == v.head == v.tail
  {
    forall i | 0 <= i < |v.chain|-1 ensures v.mem[v.chain[i]].next != NULL {
      assert v.mem[v.chain[i]].next == v.chain[i+1];
    }
  }

  lemma HeadIsThere(v: View)
    requires Linked(v)
    ensures WasHead(v, v.head)
    ensures forall a :: a in v.mem && v.mem[a].next != NULL ==> v.mem[a].next in v.mem
  {
  }

  lemma CheckHeadShape(s: State, t: ThreadId, chain: seq<Addr>)
    requires ShapeOk(s, chain) && t in s.calls && s.calls[t].pc.PopCheckHead?
    ensures ShapeOk(Advance(s, t), chain)
  {
    assert PcOk(ViewOf(s, chain), s.calls[t].what, s.calls[t].pc);
    hide Exclusive, CallsOk;
    LocalShape(s, t, Advance(s, t).calls[t].pc, chain);
  }

  lemma PopReadShape(s: State, t: ThreadId, chain: seq<Addr>)
    requires ShapeOk(s, chain) && t in s.calls && s.calls[t].what.Pop?
    requires s.calls[t].pc.PopReadHead? || s.calls[t].pc.PopReadTail? || s.calls[t].pc.PopReadNext? || s.calls[t].pc.PopReadValue?
    requires Dereferenced(s.calls[t].pc) <= s.mem.Keys
    ensures ShapeOk(Advance(s, t), chain)
  {
    assert PcOk(ViewOf(s, chain), s.calls[t].what, s.calls[t].pc);
    HeadIsThere(ViewOf(s, chain));
    if s.calls[t].pc.PopReadNext? && s.mem[s.calls[t].pc.head].next == NULL {
      NullMeansEmpty(ViewOf(s, chain), s.calls[t].pc.head);
    }
    hide Exclusive, CallsOk, Linked;
    LocalShape(s, t, Advance(s, t).calls[t].pc, chain);
  }

  lemma PopShape(s: State, t: ThreadId, chain: seq<Addr>)
    requires ShapeOk(s, chain) && t in s.calls && s.calls[t].what.Pop?
    requires Dereferenced(s.calls[t].pc) <= s.mem.Keys
    ensures ShapeOk(Advance(s, t), NextChain(s, t, chain))
  {
    assert PcOk(ViewOf(s, chain), s.calls[t].what, s.calls[t].pc);
    assert chain != [];
    hide Exclusive, CallsOk, Linked;
    match s.calls[t].pc
    case PopReadHead => PopReadShape(s, t, chain);
    case PopReadTail(_) => PopReadShape(s, t, chain);
    case PopReadNext(_, _) => PopReadShape(s, t, chain);
    case PopReadValue(_, _) => PopReadShape(s, t, chain);
    case PopCheckHead(_, _, _) => CheckHeadShape(s, t, chain);
    case PopHelp(head, next) => TailShape(s, t, head, next, PopReadHead, chain);
    case PopCasHead(head, next, ret) =>
      if s.head == head {
        HeadShape(s, t, chain);
      } else {
        LocalShape(s, t, PopReadHead, chain);
      }
    case PopFree(_, _) => FreeShape(s, t, chain);
    case PopDec(ret) => LocalShape(s, t, Return(ret), chain);
    case Return(_) => ReturnShape(s, t, chain);
  }

  lemma AdvanceShape(s: State, t: ThreadId, chain: seq<Addr>)
    requires ShapeOk(s, chain) && t in s.calls && !s.calls[t].pc.PushAlloc?
    requires Dereferenced(s.calls[t].pc) <= s.mem.Keys
    ensures ShapeOk(Advance(s, t), NextChain(s, t, chain))
  {
    hide ShapeOk;
    if s.calls[t].what.Push? {
      PushShape(s, t, chain);
    } else {
      PopShape(s, t, chain);
    }
  }

  // ---------------------------------------------------------------- the linearization

  datatype Result = Pending | Took(ret: Word)

  /**
   The result a call has committed to. A pop that has just read `next == NULL` has seen the
   empty queue; it withdraws if `q->head` turns out to have moved.
   */
  function ResultAt(pc: Pc): Result
  {
    match pc
    case PushSwing(_, _) => Took(0)
    case PushInc => Took(0)
    case PopCheckHead(_, _, next) => if next == NULL then Took(0) else Pending
    case PopFree(_, ret) => Took(ret)
    case PopDec(ret) => Took(ret)
    case Return(ret) => Took(ret)
    case _ => Pending
  }

  ghost predicate SawEmptyAt(log: seq<Entry>, id: nat, k: nat)
  {
    k < |log| && log[k] == Entry(id, Pop, 0) && Replay(log[..k]) == Holds([])
  }

  ghost predicate Absent(log: seq<Entry>, id: nat)
  {
    forall i :: 0 <= i < |log| ==> log[i].id != id
  }

  ghost predicate Logged(log: seq<Entry>, c: Call)
  {
    match ResultAt(c.pc)
    case Pending => Absent(log, c.id)
    case Took(ret) =>
      Entry(c.id, c.what, ret) in log &&
      (c.pc.PopCheckHead? ==> exists k :: SawEmptyAt(log, c.id, k))
  }

  ghost predicate CallsLogged(log: seq<Entry>, calls: map<ThreadId, Call>)
  {
    forall t :: t in calls ==> Logged(log, calls[t])
  }

  /** Calls in flight were invoked and have not responded. */
  ghost predicate HistoryOk(history: seq<Event>, calls: map<ThreadId, Call>)
  {
    (forall t :: t in calls ==> calls[t].id < |history| && history[calls[t].id] == Invoked(calls[t].what)) &&
    (forall t, u :: t in calls && u in calls && t != u ==> calls[t].id != calls[u].id) &&
    (forall k :: 0 <= k < |history| && history[k].Responded? ==> history[k].id < k) &&
    (forall k, t :: 0 <= k < |history| && history[k].Responded? && t in calls ==> history[k].id != calls[t].id)
  }

  ghost predicate LogOk(history: seq<Event>, calls: map<ThreadId, Call>, log: seq<Entry>)
  {
    Distinct(log) && OnlyInvoked(history, log) && Explains(history, log) && RealTime(history, log) &&
    HistoryOk(history, calls) && CallsLogged(log, calls)
  }

  lemma ReplayAppend(log: seq<Entry>, e: Entry)
    ensures Replay(log + [e]) == Apply(Replay(log), e)
  {
    assert (log + [e])[..|log|] == log;
  }

  function Without(log: seq<Entry>, k: nat): seq<Entry>
    requires k < |log|
  {
    log[..k] + log[k+1..]
  }

  /** A pop that found the queue empty can be taken back. */
  lemma {:induction false} ReplayWithout(log: seq<Entry>, id: nat, k: nat)
    requires SawEmptyAt(log, id, k)
    ensures Replay(Without(log, k)) == Replay(log)
    decreases |log|
  {
    var n := |log| - 1;
    if k == n {
      assert Without(log, k) == log[..k];
    } else {
      assert log[..n][..k] == log[..k];
      ReplayWithout(log[..n], id, k);
      assert Without(log, k) == Without(log[..n], k) + [log[n]];
      ReplayAppend(Without(log[..n], k), log[n]);
    }
  }

  lemma LoggedAfterAppend(log: seq<Entry>, e: Entry, c: Call)
    requires Logged(log, c) && c.id != e.id
    ensures Logged(log + [e], c)
  {
    if ResultAt(c.pc).Took? && c.pc.PopCheckHead? {
      var k: nat :| SawEmptyAt(log, c.id, k);
      assert (log + [e])[..k] == log[..k];
      assert SawEmptyAt(log + [e], c.id, k);
    }
  }

  lemma CommitLogged(calls: map<ThreadId, Call>, t: ThreadId, pc: Pc, ret: Word, log: seq<Entry>)
    requires t in calls && CallsLogged(log, calls) && ResultAt(pc) == Took(ret)
    requires forall u :: u in calls && u != t ==> calls[u].id != calls[t].id
    requires pc.PopCheckHead? ==> calls[t].what.Pop? && Replay(log) == Holds([])
    ensures CallsLogged(log + [Entry(calls[t].id, calls[t].what, ret)], calls[t := calls[t].(pc := pc)])
  {
    var c := calls[t];
    var e := Entry(c.id, c.what, ret);
    forall u | u in calls && u != t ensures Logged(log + [e], calls[u]) {
      LoggedAfterAppend(log, e, calls[u]);
    }
    assert (log + [e])[|log|] == e;
    if pc.PopCheckHead? {
      assert (log + [e])[..|log|] == log;
      assert SawEmptyAt(log + [e], c.id, |log|);
    }
  }

  lemma CommitOrder(history: seq<Event>, log: seq<Entry>, e: Entry)
    requires Distinct(log) && OnlyInvoked(history, log) && RealTime(history, log) && Absent(log, e.id)
    requires e.id < |history| && history[e.id] == Invoked(e.what)
    requires forall k :: 0 <= k < |history| && history[k].Responded? ==> history[k].id != e.id
    ensures Distinct(log + [e]) && OnlyInvoked(history, log + [e]) && RealTime(history, log + [e])
  {
  }

  /** A call commits: its entry goes to the end of the log. */
  lemma Commit(s: State, t: ThreadId, pc: Pc, ret: Word, log: seq<Entry>)
    requires LogOk(s.history, s.calls, log)
    requires t in s.calls && ResultAt(s.calls[t].pc).Pending? && ResultAt(pc) == Took(ret)
    requires pc.PopCheckHead? ==> s.calls[t].what.Pop? && Replay(log) == Holds([])
    ensures LogOk(s.history, Goto(s, t, pc).calls, log + [Entry(s.calls[t].id, s.calls[t].what, ret)])
  {
    var e := Entry(s.calls[t].id, s.calls[t].what, ret);
    assert Logged(log, s.calls[t]);
    CommitOrder(s.history, log, e);
    CommitLogged(s.calls, t, pc, ret, log);
    ExplainsMore(s.history, log, e);
    GotoHistory(s, t, pc);
  }

  lemma GotoHistory(s: State, t: ThreadId, pc: Pc)
    requires HistoryOk(s.history, s.calls) && t in s.calls
    ensures HistoryOk(s.history, Goto(s, t, pc).calls)
  {
  }

  lemma ExplainsMore(history: seq<Event>, log: seq<Entry>, e: Entry)
    requires Explains(history, log)
    ensures Explains(history, log + [e])
  {
    forall k | 0 <= k < |history| && history[k].Responded?
      ensures exists i :: 0 <= i < |log + [e]| && (log + [e])[i].id == history[k].id && (log + [e])[i].ret == history[k].ret
    {
      var i :| 0 <= i < |log| && log[i].id == history[k].id && log[i].ret == history[k].ret;
      assert (log + [e])[i] == log[i];
    }
  }

  lemma WithoutIndex(log: seq<Entry>, k: nat, i: nat)
    requires k < |log| && i < |log| && i != k
    ensures var j := if i < k then i else i - 1; j < |Without(log, k)| && Without(log, k)[j] == log[i]
  {
  }

  lemma LoggedAfterWithdraw(log: seq<Entry>, id: nat, k: nat, c: Call)
    requires Logged(log, c) && c.id != id && SawEmptyAt(log, id, k)
    ensures Logged(Without(log, k), c)
  {
    match ResultAt(c.pc)
    case Pending =>
    case Took(ret) =>
      var i :| 0 <= i < |log| && log[i] == Entry(c.id, c.what, ret);
      WithoutIndex(log, k, i);
      if c.pc.PopCheckHead? {
        var m: nat :| SawEmptyAt(log, c.id, m);
        WithoutIndex(log, k, m);
        if m < k {
          assert Without(log, k)[..m] == log[..m];
          assert SawEmptyAt(Without(log, k), c.id, m);
        } else {
          assert log[..m][..k] == log[..k];
          ReplayWithout(log[..m], id, k);
          assert Without(log, k)[..m-1] == Without(log[..m], k);
          assert SawEmptyAt(Without(log, k), c.id, m-1);
        }
      }
  }

  lemma WithdrawOrder(history: seq<Event>, log: seq<Entry>, k: nat)
    requires k < |log| && Distinct(log) && OnlyInvoked(history, log) && RealTime(history, log)
    ensures Distinct(Without(log, k)) && OnlyInvoked(history, Without(log, k)) && RealTime(history, Without(log, k))
    ensures Absent(Without(log, k), log[k].id)
  {
  }

  lemma WithdrawExplains(history: seq<Event>, log: seq<Entry>, k: nat)
    requires k < |log| && Explains(history, log)
    requires forall m :: 0 <= m < |history| && history[m].Responded? ==> history[m].id != log[k].id
    ensures Explains(history, Without(log, k))
  {
    forall m | 0 <= m < |history| && history[m].Responded?
      ensures exists i :: 0 <= i < |Without(log, k)| && Without(log, k)[i].id == history[m].id &&
                Without(log, k)[i].ret == history[m].ret
    {
      var i :| 0 <= i < |log| && log[i].id == history[m].id && log[i].ret == history[m].ret;
      WithoutIndex(log, k, i);
    }
  }

  /** A pop that saw the empty queue but must retry takes its entry back. */
  lemma Withdraw(s: State, t: ThreadId, k: nat, log: seq<Entry>)
    requires LogOk(s.history, s.calls, log) && t in s.calls && SawEmptyAt(log, s.calls[t].id, k)
    ensures LogOk(s.history, Goto(s, t, PopReadHead).calls, Without(log, k))
  {
    var log' := Without(log, k);
    WithdrawOrder(s.history, log, k);
    WithdrawExplains(s.history, log, k);
    var calls' := Goto(s, t, PopReadHead).calls;
    forall u | u in calls' ensures Logged(log', calls'[u]) {
      if u != t {
        LoggedAfterWithdraw(log, s.calls[t].id, k, s.calls[u]);
      }
    }
    GotoHistory(s, t, PopReadHead);
  }

  /** Steps that neither commit, withdraw nor answer. */
  lemma Uncommitted(s: State, t: ThreadId, pc: Pc, log: seq<Entry>)
    requires LogOk(s.history, s.calls, log) && t in s.calls
    requires ResultAt(pc) == ResultAt(s.calls[t].pc) && (pc.PopCheckHead? ==> ResultAt(pc).Pending?)
    ensures LogOk(s.history, Goto(s, t, pc).calls, log)
  {
    GotoHistory(s, t, pc);
    hide Distinct, OnlyInvoked, Explains, RealTime, HistoryOk;
  }

  lemma InvokeHistory(history: seq<Event>, calls: map<ThreadId, Call>, t: ThreadId, op: Operation, pc: Pc)
    requires HistoryOk(history, calls) && t !in calls
    ensures HistoryOk(history + [Invoked(op)], calls[t := Call(|history|, op, pc)])
  {
  }

  lemma InvokeOrder(history: seq<Event>, op: Operation, log: seq<Entry>)
    requires OnlyInvoked(history, log) && RealTime(history, log) && Explains(history, log)
    ensures OnlyInvoked(history + [Invoked(op)], log) && RealTime(history + [Invoked(op)], log)
    ensures Explains(history + [Invoked(op)], log)
  {
    forall k | 0 <= k < |history| && history[k].Responded?
      ensures exists i :: 0 <= i < |log| && log[i].id == history[k].id && log[i].ret == history[k].ret
    {
    }
  }

  lemma InvokeLog(s: State, t: ThreadId, op: Operation, log: seq<Entry>)
    requires LogOk(s.history, s.calls, log) && t !in s.calls
    ensures LogOk(Entered(s, t, op).history, Entered(s, t, op).calls, log)
  {
    var c := Entered(s, t, op).calls[t];
    InvokeHistory(s.history, s.calls, t, op, c.pc);
    InvokeOrder(s.history, op, log);
    assert Absent(log, c.id);
  }

  lemma ReturnExplains(history: seq<Event>, id: nat, ret: Word, log: seq<Entry>, what: Operation)
    requires Explains(history, log) && Entry(id, what, ret) in log
    ensures Explains(history + [Responded(id, ret)], log)
  {
    var i :| 0 <= i < |log| && log[i] == Entry(id, what, ret);
    var history' := history + [Responded(id, ret)];
    forall k | 0 <= k < |history'| && history'[k].Responded?
      ensures exists i :: 0 <= i < |log| && log[i].id == history'[k].id && log[i].ret == history'[k].ret
    {
      if k < |history| {
        assert history'[k] == history[k];
      } else {
        assert log[i].id == history'[k].id && log[i].ret == history'[k].ret;
      }
    }
  }

  lemma ReturnOrder(history: seq<Event>, id: nat, ret: Word, log: seq<Entry>)
    requires OnlyInvoked(history, log) && RealTime(history, log)
    ensures OnlyInvoked(history + [Responded(id, ret)], log) && RealTime(history + [Responded(id, ret)], log)
  {
  }

  lemma ReturnHistory(history: seq<Event>, calls: map<ThreadId, Call>, t: ThreadId, ret: Word)
    requires HistoryOk(history, calls) && t in calls
    ensures HistoryOk(history + [Responded(calls[t].id, ret)], calls - {t})
  {
  }

  lemma ReturnLog(s: State, t: ThreadId, log: seq<Entry>)
    requires LogOk(s.history, s.calls, log) && t in s.calls && s.calls[t].pc.Return?
    ensures LogOk(Advance(s, t).history, Advance(s, t).calls, log)
  {
    var c := s.calls[t];
    ReturnExplains(s.history, c.id, c.pc.ret, log, c.what);
    ReturnOrder(s.history, c.id, c.pc.ret, log);
    ReturnHistory(s.history, s.calls, t, c.pc.ret);
  }

  // ---------------------------------------------------------------- the length counter

  /** What a call still owes `len`: -1 after a push not counted yet, 1 after a pop not counted yet. */
  function Weight(pc: Pc): int
  {
    if pc.PushSwing? || pc.PushInc? then -1 else if pc.PopFree? || pc.PopDec? then 1 else 0
  }

  function Owing(calls: map<ThreadId, Call>, w: int): set<ThreadId>
  {
    set t | t in calls && Weight(calls[t].pc) == w
  }

  function Skew(calls: map<ThreadId, Call>): int
  {
    |Owing(calls, 1)| - |Owing(calls, -1)|
  }

  ghost predicate LenOk(len: nat, calls: map<ThreadId, Call>, chain: seq<Addr>)
  {
    len == (|chain| - 1 + Skew(calls)) % SIZE_RANGE
  }

  lemma OwingMoves(calls: map<ThreadId, Call>, t: ThreadId, c: Call, w: int)
    ensures |Owing(calls[t := c], w)| == |Owing(calls, w)| + (if Weight(c.pc) == w then 1 else 0)
                                         - (if t in calls && Weight(calls[t].pc) == w then 1 else 0)
  {
    var ts, ts' := Owing(calls, w), Owing(calls[t := c], w);
    assert t in ts <==> t in calls && Weight(calls[t].pc) == w;
    if Weight(c.pc) == w {
      assert ts' == ts + {t};
    } else {
      assert ts' == ts - {t};
    }
  }

  lemma SkewMoves(calls: map<ThreadId, Call>, t: ThreadId, c: Call)
    ensures Skew(calls[t := c]) == Skew(calls) + Weight(c.pc) - (if t in calls then Weight(calls[t].pc) else 0)
  {
    OwingMoves(calls, t, c, 1);
    OwingMoves(calls, t, c, -1);
  }

  lemma ReturnLen(s: State, t: ThreadId, chain: seq<Addr>)
    requires LenOk(s.len, s.calls, chain) && t in s.calls && s.calls[t].pc.Return?
    ensures LenOk(s.len, s.calls - {t}, chain)
  {
    assert Owing(s.calls - {t}, 1) == Owing(s.calls, 1);
    assert Owing(s.calls - {t}, -1) == Owing(s.calls, -1);
  }

  lemma AdvanceLen(s: State, t: ThreadId, chain: seq<Addr>)
    requires chain != [] && LenOk(s.len, s.calls, chain) && t in s.calls && !s.calls[t].pc.PushAlloc?
    requires Dereferenced(s.calls[t].pc) <= s.mem.Keys
    ensures LenOk(Advance(s, t).len, Advance(s, t).calls, NextChain(s, t, chain))
  {
    hide Skew;
    if s.calls[t].pc.Return? {
      ReturnLen(s, t, chain);
    } else {
      SkewMoves(s.calls, t, Advance(s, t).calls[t]);
    }
  }

  // ---------------------------------------------------------------- every step keeps everything

  ghost predicate Inv(s: State, chain: seq<Addr>, log: seq<Entry>)
  {
    ShapeOk(s, chain) && LenOk(s.len, s.calls, chain) && LogOk(s.history, s.calls, log) &&
    Replay(log) == Holds(Items(s.mem, chain))
  }

  lemma NothingFaults(s: State, chain: seq<Addr>)
    requires ShapeOk(s, chain)
    ensures Faultless(s)
  {
    forall t, a | t in s.calls && a in Dereferenced(s.calls[t].pc) ensures a != NULL && a in s.mem {
      assert PcOk(ViewOf(s, chain), s.calls[t].what, s.calls[t].pc);
    }
  }

  lemma InvokeInv(s: State, t: ThreadId, op: Operation, chain: seq<Addr>, log: seq<Entry>)
    requires Inv(s, chain, log) && t !in s.calls
    ensures Inv(Entered(s, t, op), chain, log)
  {
    hide ShapeOk, LogOk;
    InvokeShape(s, t, op, chain);
    InvokeLog(s, t, op, log);
    SkewMoves(s.calls, t, Entered(s, t, op).calls[t]);
  }

  lemma {:induction false} SameItems(mem: map<Addr, Node>, mem': map<Addr, Node>, chain: seq<Addr>)
    requires forall i :: 0 <= i < |chain| ==> chain[i] in mem && chain[i] in mem' && mem[chain[i]].p == mem'[chain[i]].p
    ensures Items(mem, chain) == Items(mem', chain)
  {
    if |chain| > 1 {
      SameItems(mem, mem', chain[..|chain|-1]);
    }
  }

  lemma AllocateItems(s: State, t: ThreadId, a: Addr, x: Word, chain: seq<Addr>)
    requires Linked(ViewOf(s, chain)) && t in s.calls && a !in s.live
    ensures Items(Allocated(s, t, x, a).mem, chain) == Items(s.mem, chain)
  {
    SameItems(s.mem, Allocated(s, t, x, a).mem, chain);
  }

  lemma AllocateLen(s: State, t: ThreadId, a: Addr, x: Word, chain: seq<Addr>)
    requires t in s.calls && s.calls[t].pc.PushAlloc? && LenOk(s.len, s.calls, chain)
    ensures LenOk(Allocated(s, t, x, a).len, Allocated(s, t, x, a).calls, chain)
  {
    SkewMoves(s.calls, t, Allocated(s, t, x, a).calls[t]);
    hide Skew;
  }

  lemma AllocateInv(s: State, t: ThreadId, a: Addr, chain: seq<Addr>, log: seq<Entry>)
    requires Inv(s, chain, log) && t in s.calls && s.calls[t].pc.PushAlloc? && MayAllocate(s, a)
    ensures Inv(Allocated(s, t, s.calls[t].pc.v, a), chain, log)
  {
    hide LogOk, LenOk, Exclusive, CallsOk, Linked, Items, Replay;
    AllocateShape(s, t, a, chain);
    AllocateItems(s, t, a, s.calls[t].pc.v, chain);
    AllocateLen(s, t, a, s.calls[t].pc.v, chain);
    Uncommitted(s, t, PushReadTail(a), log);
  }

  lemma {:induction false} ItemCount(mem: map<Addr, Node>, chain: seq<Addr>)
    requires chain != [] && forall i :: 0 <= i < |chain| ==> chain[i] in mem
    ensures |Items(mem, chain)| == |chain| - 1
  {
    if |chain| > 1 {
      ItemCount(mem, chain[..|chain|-1]);
    }
  }

  lemma PushedItems(v: View, tail: Addr, n: Addr, what: Operation)
    requires Linked(v) && Reached(v, tail) && v.mem[tail].next == NULL && Private(v, n, what)
    ensures Items(LinkedIn(v, tail, n).mem, v.chain + [n]) == Items(v.mem, v.chain) + [what.v]
  {
    assert (v.chain + [n])[..|v.chain|] == v.chain;
    SameItems(v.mem, LinkedIn(v, tail, n).mem, v.chain);
  }

  lemma {:induction false} PoppedItems(mem: map<Addr, Node>, chain: seq<Addr>)
    requires |chain| >= 2 && forall i :: 0 <= i < |chain| ==> chain[i] in mem
    ensures Items(mem, chain) == [mem[chain[1]].p] + Items(mem, chain[1..])
    decreases |chain|
  {
    if |chain| == 2 {
      assert Items(mem, chain[..1]) == [];
    } else {
      var front, rest := chain[..|chain|-1], chain[1..];
      PoppedItems(mem, front);
      assert front[1..] == rest[..|rest|-1];
      var items := Items(mem, front[1..]);
      assert Items(mem, rest) == items + [mem[Last(chain)].p];
      assert [mem[chain[1]].p] + items + [mem[Last(chain)].p] == [mem[chain[1]].p] + (items + [mem[Last(chain)].p]);
    }
  }

  function EntryOf(c: Call, ret: Word): Entry { Entry(c.id, c.what, ret) }

  lemma LinkStep(s: State, t: ThreadId, chain: seq<Addr>)
    requires t in s.calls && s.calls[t].pc.PushCasNext? && s.calls[t].pc.tail in s.mem && s.mem[s.calls[t].pc.tail].next == NULL
    ensures var PushCasNext(n, tail) := s.calls[t].pc;
            Advance(s, t) == Goto(s, t, PushSwing(n, tail)).(mem := LinkedIn(ViewOf(s, chain), tail, n).mem) &&
            NextChain(s, t, chain) == chain + [n]
  {
  }

  lemma PushItems(s: State, t: ThreadId, chain: seq<Addr>)
    requires ShapeOk(s, chain) && t in s.calls && s.calls[t].pc.PushCasNext?
    requires s.calls[t].pc.tail in s.mem && s.mem[s.calls[t].pc.tail].next == NULL
    ensures s.calls[t].what.Push?
    ensures var PushCasNext(n, tail) := s.calls[t].pc;
            Items(LinkedIn(ViewOf(s, chain), tail, n).mem, chain + [n]) == Items(s.mem, chain) + [s.calls[t].what.v]
  {
    var c := s.calls[t];
    assert PcOk(ViewOf(s, chain), c.what, c.pc);
    hide Exclusive, CallsOk, Items, Linked, Reached, Private;
    PushedItems(ViewOf(s, chain), c.pc.tail, c.pc.n, c.what);
  }

  /** Where the abstract queue grows: the CAS on `tail->next`. */
  lemma PushTakesEffect(s: State, t: ThreadId, chain: seq<Addr>, log: seq<Entry>)
    requires Inv(s, chain, log) && t in s.calls && s.calls[t].pc.PushCasNext?
    requires s.calls[t].pc.tail in s.mem && s.mem[s.calls[t].pc.tail].next == NULL
    ensures s.calls[t].what.Push? && NextChain(s, t, chain) == chain + [s.calls[t].pc.n]
    ensures Items(Advance(s, t).mem, chain + [s.calls[t].pc.n]) == Items(s.mem, chain) + [s.calls[t].what.v]
    ensures LogOk(Advance(s, t).history, Advance(s, t).calls, log + [EntryOf(s.calls[t], 0)])
    ensures Replay(log + [EntryOf(s.calls[t], 0)]) == Holds(Items(Advance(s, t).mem, chain + [s.calls[t].pc.n]))
  {
    hide LogOk, ShapeOk, Items, LenOk, Replay, Advance, NextChain, LinkedIn;
    var c := s.calls[t];
    var PushCasNext(n, tail) := c.pc;
    PushItems(s, t, chain);
    LinkStep(s, t, chain);
    Commit(s, t, PushSwing(n, tail), 0, log);
    ReplayAppend(log, EntryOf(c, 0));
  }

  lemma PopItems(s: State, t: ThreadId, chain: seq<Addr>)
    requires ShapeOk(s, chain) && t in s.calls && s.calls[t].pc.PopCasHead? && s.calls[t].pc.head == s.head
    ensures s.calls[t].what == Pop && chain != [] && Items(s.mem, chain) == [s.calls[t].pc.ret] + Items(s.mem, chain[1..])
  {
    var c := s.calls[t];
    assert PcOk(ViewOf(s, chain), c.what, c.pc);
    hide Exclusive, CallsOk, Items;
    assert chain[1] == c.pc.next;
    PoppedItems(s.mem, chain);
  }

  lemma UnlinkStep(s: State, t: ThreadId, chain: seq<Addr>)
    requires t in s.calls && s.calls[t].pc.PopCasHead? && s.calls[t].pc.head == s.head && chain != []
    ensures var PopCasHead(head, next, ret) := s.calls[t].pc;
            Advance(s, t) == Goto(s, t, PopFree(head, ret)).(head := next) && NextChain(s, t, chain) == chain[1..]
  {
  }

  /** Where it shrinks: the CAS on `head`. */
  lemma PopTakesEffect(s: State, t: ThreadId, chain: seq<Addr>, log: seq<Entry>)
    requires Inv(s, chain, log) && t in s.calls && s.calls[t].pc.PopCasHead? && s.calls[t].pc.head == s.head
    ensures s.calls[t].what == Pop && chain != [] && NextChain(s, t, chain) == chain[1..]
    ensures Items(s.mem, chain) == [s.calls[t].pc.ret] + Items(Advance(s, t).mem, chain[1..])
    ensures LogOk(Advance(s, t).history, Advance(s, t).calls, log + [EntryOf(s.calls[t], s.calls[t].pc.ret)])
    ensures Replay(log + [EntryOf(s.calls[t], s.calls[t].pc.ret)]) == Holds(Items(Advance(s, t).mem, chain[1..]))
  {
    hide LogOk, ShapeOk, Items, LenOk, Replay, Advance, NextChain;
    var c := s.calls[t];
    var PopCasHead(head, next, ret) := c.pc;
    PopItems(s, t, chain);
    UnlinkStep(s, t, chain);
    Commit(s, t, PopFree(head, ret), ret, log);
    ReplayAppend(log, EntryOf(c, ret));
  }

  /** Where a pop sees the empty queue: its read of a null link. */
  lemma ReadNextLog(s: State, t: ThreadId, log: seq<Entry>)
    requires LogOk(s.history, s.calls, log)
    requires t in s.calls && s.calls[t].pc.PopReadNext? && s.calls[t].what.Pop? && s.calls[t].pc.head in s.mem
    requires s.mem[s.calls[t].pc.head].next == NULL ==> Replay(log) == Holds([])
    ensures var log' := if s.mem[s.calls[t].pc.head].next == NULL then log + [EntryOf(s.calls[t], 0)] else log;
            LogOk(Advance(s, t).history, Advance(s, t).calls, log') && Replay(log') == Replay(log)
  {
    var c := s.calls[t];
    var next := s.mem[c.pc.head].next;
    var pc := PopCheckHead(c.pc.head, c.pc.tail, next);
    hide LogOk;
    if next == NULL {
      Commit(s, t, pc, 0, log);
      ReplayAppend(log, EntryOf(c, 0));
    } else {
      Uncommitted(s, t, pc, log);
    }
  }

  /** Where it withdraws: it finds that `head` has moved. */
  lemma CheckHeadLog(s: State, t: ThreadId, log: seq<Entry>) returns (log': seq<Entry>)
    requires LogOk(s.history, s.calls, log)
    requires t in s.calls && s.calls[t].pc.PopCheckHead?
    requires s.calls[t].pc.next == NULL ==> s.calls[t].pc.head == s.calls[t].pc.tail
    ensures LogOk(Advance(s, t).history, Advance(s, t).calls, log') && Replay(log') == Replay(log)
    ensures if s.calls[t].pc.next == NULL && s.calls[t].pc.head != s.head then Withdrawn(log, s.calls[t].id, log') else log' == log
  {
    var c := s.calls[t];
    assert Logged(log, c);
    hide LogOk;
    if c.pc.next == NULL && c.pc.head != s.head {
      var k: nat :| SawEmptyAt(log, c.id, k);
      Withdraw(s, t, k, log);
      ReplayWithout(log, c.id, k);
      log' := Without(log, k);
    } else {
      Uncommitted(s, t, Advance(s, t).calls[t].pc, log);
      log' := log;
    }
  }

  /** `log'` is `log` without the pop of the empty queue by call `id`. */
  ghost predicate Withdrawn(log: seq<Entry>, id: nat, log': seq<Entry>)
  {
    exists k: nat :: SawEmptyAt(log, id, k) && log' == Without(log, k)
  }

  /** What a step of a call adds to the sequential history, or takes out of it. */
  ghost predicate LogStep(s: State, t: ThreadId, log: seq<Entry>, log': seq<Entry>)
    requires t in s.calls && Dereferenced(s.calls[t].pc) <= s.mem.Keys
  {
    var c := s.calls[t];
    match c.pc
    case PushCasNext(_, tail) => log' == if s.mem[tail].next == NULL then log + [EntryOf(c, 0)] else log
    case PopCasHead(head, _, ret) => log' == if head == s.head then log + [EntryOf(c, ret)] else log
    case PopReadNext(head, _) => log' == if s.mem[head].next == NULL then log + [EntryOf(c, 0)] else log
    case PopCheckHead(head, _, next) => if next == NULL && head != s.head then Withdrawn(log, c.id, log') else log' == log
    case _ => log' == log
  }

  lemma SilentLog(s: State, t: ThreadId, log: seq<Entry>)
    requires LogOk(s.history, s.calls, log) && t in s.calls && Dereferenced(s.calls[t].pc) <= s.mem.Keys
    requires var pc := s.calls[t].pc;
             !pc.PushAlloc? && !pc.PopReadNext? && !pc.PopCheckHead? && !pc.Return? &&
             (pc.PushCasNext? ==> s.mem[pc.tail].next != NULL) && (pc.PopCasHead? ==> pc.head != s.head)
    ensures LogOk(Advance(s, t).history, Advance(s, t).calls, log)
  {
    hide LogOk;
    Uncommitted(s, t, Advance(s, t).calls[t].pc, log);
  }

  /** The step is neither of the two CASes that change the abstract queue. */
  ghost predicate Quiet(s: State, t: ThreadId)
  {
    t in s.calls && !s.calls[t].pc.PushAlloc? && Dereferenced(s.calls[t].pc) <= s.mem.Keys &&
    (s.calls[t].pc.PopCasHead? ==> s.calls[t].pc.head != s.head) &&
    (s.calls[t].pc.PushCasNext? ==> s.mem[s.calls[t].pc.tail].next != NULL)
  }

  lemma QuietStep(s: State, t: ThreadId, chain: seq<Addr>)
    requires Quiet(s, t)
    ensures Advance(s, t).mem == s.mem && NextChain(s, t, chain) == chain
  {
  }

  lemma QuietLog(s: State, t: ThreadId, chain: seq<Addr>, log: seq<Entry>) returns (log': seq<Entry>)
    requires Inv(s, chain, log) && Quiet(s, t)
    ensures LogOk(Advance(s, t).history, Advance(s, t).calls, log') && Replay(log') == Replay(log)
    ensures LogStep(s, t, log, log')
  {
    var c := s.calls[t];
    assert PcOk(ViewOf(s, chain), c.what, c.pc);
    hide LogOk, Exclusive, CallsOk;
    log' := log;
    if c.pc.PopReadNext? {
      if s.mem[c.pc.head].next == NULL {
        NullMeansEmpty(ViewOf(s, chain), c.pc.head);
        log' := log + [EntryOf(c, 0)];
      }
      ReadNextLog(s, t, log);
    } else if c.pc.PopCheckHead? {
      log' := CheckHeadLog(s, t, log);
    } else if c.pc.Return? {
      ReturnLog(s, t, log);
    } else {
      SilentLog(s, t, log);
    }
  }

  lemma AdvanceInv(s: State, t: ThreadId, chain: seq<Addr>, log: seq<Entry>) returns (log': seq<Entry>)
    requires Inv(s, chain, log) && t in s.calls && !s.calls[t].pc.PushAlloc?
    requires Dereferenced(s.calls[t].pc) <= s.mem.Keys
    ensures Inv(Advance(s, t), NextChain(s, t, chain), log') && LogStep(s, t, log, log')
  {
    var pc := s.calls[t].pc;
    assert chain != [];
    hide ShapeOk, LogOk, LenOk, Items, Replay, Advance, NextChain;
    AdvanceShape(s, t, chain);
    AdvanceLen(s, t, chain);
    if pc.PushCasNext? && s.mem[pc.tail].next == NULL {
      PushTakesEffect(s, t, chain, log);
      log' := log + [EntryOf(s.calls[t], 0)];
    } else if pc.PopCasHead? && pc.head == s.head {
      PopTakesEffect(s, t, chain, log);
      log' := log + [EntryOf(s.calls[t], pc.ret)];
    } else {
      QuietStep(s, t, chain);
      log' := QuietLog(s, t, chain, log);
    }
  }

  lemma {:induction false} RunInv(run: seq<State>) returns (chain: seq<Addr>, log: seq<Entry>)
    requires Run(run)
    ensures Inv(run[|run|-1], chain, log)
    decreases |run|
  {
    var n := |run| - 1;
    if n == 0 {
      chain, log := [run[0].head], [];
    } else {
      chain, log := RunInv(run[..n]);
      var s, s' := run[n-1], run[n];
      assert Stepped(s, s');
      var t :| Step(s, t, s');
      if t !in s.calls {
        var op :| s' == Entered(s, t, op);
        InvokeInv(s, t, op, chain, log);
      } else if s.calls[t].pc.PushAlloc? {
        var a :| MayAllocate(s, a) && s' == Allocated(s, t, s.calls[t].pc.v, a);
        AllocateInv(s, t, a, chain, log);
      } else {
        log := AdvanceInv(s, t, chain, log);
        chain := NextChain(s, t, chain);
      }
    }
  }

  // ---------------------------------------------------------------- main results

  function Final(run: seq<State>): State
    requires run != []
  {
    run[|run|-1]
  }

  /** Every run, with any number of threads, has a linearizable history. */
  lemma RunsAreLinearizable(run: seq<State>)
    requires Run(run)
    ensures Linearizable(Final(run).history)
  {
    var chain, log := RunInv(run);
    assert Linearizes(Final(run).history, log);
  }

  ghost predicate RunsThrough(s: State, chain: seq<Addr>)
  {
    Linked(ViewOf(s, chain))
  }

  /** Every state of a run is a list from `head` to NULL with `tail` last or last but one, and no step faults. */
  lemma RunsKeepTheList(run: seq<State>)
    requires Run(run)
    ensures exists chain :: RunsThrough(Final(run), chain)
    ensures Faultless(Final(run))
  {
    var chain, log := RunInv(run);
    NothingFaults(Final(run), chain);
    assert RunsThrough(Final(run), chain);
  }

  /** With no call in flight, `len` is the number of stored items (modulo its width) and the
      items are what the linearized calls leave behind. */
  lemma QuietLength(run: seq<State>) returns (chain: seq<Addr>, log: seq<Entry>)
    requires Run(run) && Final(run).calls == map[]
    ensures Linked(ViewOf(Final(run), chain)) && Linearizes(Final(run).history, log)
    ensures Replay(log) == Holds(Items(Final(run).mem, chain))
    ensures Final(run).len == |Items(Final(run).mem, chain)| % SIZE_RANGE
  {
    chain, log := RunInv(run);
    ItemCount(Final(run).mem, chain);
    assert Owing(Final(run).calls, 1) == {} && Owing(Final(run).calls, -1) == {};
  }
}
