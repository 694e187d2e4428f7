/** The objects of the process system, and the round-robin order as GetNext walks it. */
module ProcState {
  import opened Prelude
  import opened Context
  import opened List
  import opened SchedProtocol
  import opened WaitQueues

  class ProcContext {
    var registers: Registers
    var blockedNext: ProcContext?
    var isBlocked: bool
    var pid: nat

    constructor (registers: Registers, pid: nat)
      ensures this.registers == registers && this.pid == pid && blockedNext == null && !isBlocked
    {
      this.registers := registers;
      this.pid := pid;
      blockedNext := null;
      isBlocked := false;
    }

    // The field writes, and what they mean for the fields of a set of processes.

    method SetRegisters(r: Registers, ghost procs: set<ProcContext>)
      modifies this`registers
      ensures registers == r && Contexts(procs + {this}) == old(Contexts(procs))[this := r]
    {
      registers := r;
    }

    method SetBlockedNext(next: ProcContext?, ghost procs: set<ProcContext>)
      modifies this`blockedNext
      ensures blockedNext == next && Links(procs + {this}) == old(Links(procs))[this := Opt(next)]
    {
      blockedNext := next;
    }

    method SetBlocked(blocked: bool, ghost procs: set<ProcContext>)
      modifies this`isBlocked
      ensures isBlocked == blocked && Flags(procs + {this}) == old(Flags(procs))[this := blocked]
    {
      isBlocked := blocked;
    }

    /** The byte copy of a whole context. */
    constructor Copy(other: ProcContext)
      ensures registers == other.registers && pid == other.pid
      ensures blockedNext == other.blockedNext && isBlocked == other.isBlocked
    {
      registers, pid, blockedNext, isBlocked := other.registers, other.pid, other.blockedNext, other.isBlocked;
    }
  }

  class ProcQueue {
    var head: ProcContext?

    constructor ()
      ensures head == null
    {
      head := null;
    }

    method SetHead(p: ProcContext?, ghost queues: set<ProcQueue>)
      modifies this`head
      ensures head == p && Heads(queues + {this}) == old(Heads(queues))[this := Opt(p)]
    {
      head := p;
    }
  }

  // The fields of sets of objects, as maps.

  function Opt(p: ProcContext?): Option<ProcContext> { if p == null then None else Some(p) }

  lemma NoElements<T>()
    ensures Elements<T>([]) == {}
  {}

  lemma TakeFirst<T>(a: seq<T>, b: seq<T>)
    requires b != []
    ensures (a + [b[0]]) + b[1..] == a + b && Elements(a + [b[0]]) == Elements(a) + {b[0]}
  {}

  ghost function Heads(queues: set<ProcQueue>): map<ProcQueue, Option<ProcContext>>
    reads queues`head
  {
    map q | q in queues :: Opt(q.head)
  }

  ghost function Links(procs: set<ProcContext>): map<ProcContext, Option<ProcContext>>
    reads procs`blockedNext
  {
    map p | p in procs :: Opt(p.blockedNext)
  }

  ghost function Flags(procs: set<ProcContext>): map<ProcContext, bool>
    reads procs`isBlocked
  {
    map p | p in procs :: p.isBlocked
  }

  ghost function Contexts(procs: set<ProcContext>): map<ProcContext, Registers>
    reads procs`registers
  {
    map p | p in procs :: p.registers
  }

  /** All the pointer fields and flags that make up the wait queues. */
  ghost function Pointers(queues: set<ProcQueue>, procs: set<ProcContext>): Fields<ProcContext, ProcQueue>
    reads queues`head, procs`blockedNext, procs`isBlocked
  {
    Fields(Heads(queues), Links(procs), Flags(procs))
  }

  method InitQueue(queue: ProcQueue, ghost queues: set<ProcQueue>, ghost procs: set<ProcContext>)
    modifies queue`head
    ensures ghost var was := old(Pointers(queues, procs));
      Pointers(queues + {queue}, procs) == was.(heads := was.heads[queue := None])
  {
    queue.SetHead(null, queues);
  }

  /** Takes the head off a queue. */
  method PopHead(queue: ProcQueue, ghost queues: set<ProcQueue>, ghost procs: set<ProcContext>) returns (removed: bool, ghost p: ProcContext?)
    requires queue in queues && (queue.head != null ==> queue.head in procs)
    modifies queue`head, procs`blockedNext, procs`isBlocked
    ensures p == old(queue.head) && (removed <==> p != null)
    ensures !removed ==> Pointers(queues, procs) == old(Pointers(queues, procs))
    ensures removed ==> Pointers(queues, procs) == UnlinkHead(old(Pointers(queues, procs)), queue, p)
  {
    removed := false;
    var unblocked := queue.head;
    p := unblocked;
    if unblocked != null {
      queue.SetHead(unblocked.blockedNext, queues);
      unblocked.SetBlockedNext(null, procs);
      unblocked.SetBlocked(false, procs);
      removed := true;
      assert queues + {queue} == queues && procs + {unblocked} == procs;
    }
  }

  lemma HeadPointer(queue: ProcQueue, queues: map<ProcQueue, seq<ProcContext>>, on: map<ProcContext, ProcQueue>, procs: set<ProcContext>)
    requires Consistent(Pointers(queues.Keys, procs), queues, on) && queue in queues
    ensures Threaded(Links(procs), Opt(queue.head), queues[queue])
    ensures queue.head != null ==> queue.head in procs
  {
    HeadIs(Pointers(queues.Keys, procs), queues, on, queue);
    assert queue.head != null ==> queue.head == queues[queue][0] && queues[queue][0] in Links(procs);
  }

  lemma BlockedField(p: ProcContext, queues: map<ProcQueue, seq<ProcContext>>, on: map<ProcContext, ProcQueue>, procs: set<ProcContext>)
    requires Consistent(Pointers(queues.Keys, procs), queues, on) && p in procs
    ensures p.isBlocked <==> p in on
  {
    assert Flags(procs)[p] == p.isBlocked;
  }

  /** Leaving a process out of the set leaves its fields out of the maps. */
  lemma PointersWithout(queues: set<ProcQueue>, procs: set<ProcContext>, p: ProcContext)
    ensures var f := Pointers(queues, procs);
      Pointers(queues, procs - {p}) == Fields(f.heads, f.links - {p}, f.flags - {p})
    ensures Contexts(procs - {p}) == Contexts(procs) - {p}
  {}

  /** A process outside every queue joins with empty fields. */
  lemma PointersWith(queues: set<ProcQueue>, procs: set<ProcContext>, p: ProcContext)
    requires p.blockedNext == null && !p.isBlocked
    ensures var f := Pointers(queues, procs);
      Pointers(queues, procs + {p}) == Fields(f.heads, f.links[p := None], f.flags[p := false])
    ensures Contexts(procs + {p}) == Contexts(procs)[p := p.registers]
  {}

  lemma RingMember<P, Q>(s: Sched<P, Q>)
    requires WellFormed(s)
    ensures s.current in s.ring
  {}

  lemma DistinctAppend<T>(s: seq<T>, x: T)
    requires Distinct(s) && x !in s
    ensures Distinct(s + [x])
  {}

  lemma RingWithout<P>(ring: seq<P>, p: P)
    requires Distinct(ring) && p in ring
    ensures Distinct(Without(ring, IndexOf(ring, p)))
    ensures (set x | x in Without(ring, IndexOf(ring, p))) == (set x | x in ring) - {p}
  {
    WithoutMembers(ring, p);
  }

  /** The queue fields of a process that is on no queue. */
  lemma IdleFields(p: ProcContext, queues: map<ProcQueue, seq<ProcContext>>, on: map<ProcContext, ProcQueue>, procs: set<ProcContext>)
    requires Consistent(Pointers(queues.Keys, procs), queues, on) && p in procs && p !in on
    ensures p.blockedNext == null && !p.isBlocked
  {
    assert Flags(procs)[p] == p.isBlocked && Links(procs)[p] == Opt(p.blockedNext);
  }

  lemma OnlyProcs(queues: map<ProcQueue, seq<ProcContext>>, on: map<ProcContext, ProcQueue>, procs: set<ProcContext>)
    requires Consistent(Pointers(queues.Keys, procs), queues, on)
    ensures forall p :: p in on ==> p in procs
  {}

  /** Either the running process is the last one, and then no one waits, or others go on. */
  lemma ExitCases<P, Q>(s: Sched<P, Q>)
    requires WellFormed(s) && s.current !in s.on && !s.exiting
    ensures |s.ring| >= 1 && (|s.ring| == 1 <==> Exited(s).ring == [])
    ensures |s.ring| == 1 ==> s.on == map[]
    ensures |s.ring| >= 2 ==> Enabled(s, Exit)
  {}

  lemma PointerDomain(queues: set<ProcQueue>, procs: set<ProcContext>)
    ensures Pointers(queues, procs).links.Keys == procs
  {}

  lemma ContextsDomain(procs: set<ProcContext>)
    ensures Contexts(procs).Keys == procs
  {}

  lemma RegistersField(p: ProcContext, procs: set<ProcContext>)
    requires p in procs
    ensures p in Contexts(procs) && Contexts(procs)[p] == p.registers
  {}

  /** Walks to the end of a queue. */
  method LastInQueue(queue: ProcQueue, ghost procs: set<ProcContext>, ghost s: seq<ProcContext>) returns (last: ProcContext)
    requires Threaded(Links(procs), Opt(queue.head), s) && s != []
    ensures last == s[|s| - 1] && last in procs
  {
    last := queue.head;
    ghost var i := 0;
    assert s[0] in Links(procs) && Links(procs)[s[0]] == At(s, 1);
    while last.blockedNext != null
      invariant 0 <= i < |s| && last == s[i] && last in procs
      invariant Opt(last.blockedNext) == At(s, i + 1)
      decreases |s| - i
    {
      last := last.blockedNext;
      i := i + 1;
      assert s[i] in Links(procs) && Links(procs)[s[i]] == At(s, i + 1);
    }
  }

  /** Puts a process behind the waiters of a queue and marks it. */
  method Append(queue: ProcQueue, p: ProcContext, ghost queues: set<ProcQueue>, ghost procs: set<ProcContext>, ghost s: seq<ProcContext>)
    requires queue in queues && p in procs && Threaded(Links(procs), Opt(queue.head), s)
    modifies queue`head, procs`blockedNext, procs`isBlocked
    ensures Pointers(queues, procs) == LinkLast(old(Pointers(queues, procs)), queue, s, p)
  {
    assert procs + {p} == procs && queues + {queue} == queues;
    if queue.head != null {
      var lastInQueue := LastInQueue(queue, procs, s);
      assert procs + {lastInQueue} == procs;
      lastInQueue.SetBlockedNext(p, procs);
    } else {
      queue.SetHead(p, queues);
    }
    p.SetBlocked(true, procs);
  }

  /** In round-robin order, each process is followed by its successor in the ring; the current one comes last. */
  lemma OrderIsNext<P>(ring: seq<P>, c: P, k: nat)
    requires Distinct(ring) && c in ring && k < |ring|
    ensures k == 0 ==> After(ring, c)[k] == Next(ring, c)
    ensures k > 0 ==> After(ring, c)[k - 1] in ring && After(ring, c)[k] == Next(ring, After(ring, c)[k - 1])
    ensures After(ring, c)[k] == c <==> k == |ring| - 1
  {
    var i := IndexOf(ring, c);
    var at := if i + 1 + k < |ring| then i + 1 + k else i + 1 + k - |ring|;
    assert After(ring, c)[k] == ring[at];
    IndexInDistinct(ring, at);
    if k > 0 {
      var before := if at == 0 then |ring| - 1 else at - 1;
      assert After(ring, c)[k - 1] == ring[before];
      IndexInDistinct(ring, before);
    }
  }

  // The tries of ProcReschedule, one at a time.

  predicate KnownWindow(window: seq<ProcQueue>, queues: set<ProcQueue>) {
    forall q :: q in window ==> q in queues
  }

  predicate KnownRound(round: seq<seq<ProcQueue>>, queues: set<ProcQueue>) {
    forall i :: 0 <= i < |round| ==> KnownWindow(round[i], queues)
  }

  function Try<P(==), Q(==)>(s: Sched<P, Q>, window: seq<Q>): Sched<P, Q>
    requires s.current in s.ring
  {
    WakeAllFrame(s, window);
    Step(WakeAll(s, window), Choose)
  }

  lemma PolledStarts<P, Q>(s: Sched<P, Q>, round: seq<seq<Q>>)
    requires s.current in s.ring
    ensures Polled(s, round[0..]) == Polled(s, round)
  {
    assert round[0..] == round;
  }

  lemma PolledEnds<P, Q>(s: Sched<P, Q>)
    requires s.current in s.ring
    ensures Polled(s, []) == s
  {}

  lemma PolledGoesOn<P, Q>(s: Sched<P, Q>, round: seq<seq<Q>>, i: nat)
    requires s.current in s.ring && i < |round|
    ensures Try(s, round[i]).current in Try(s, round[i]).ring
    ensures Polled(Try(s, round[i]), round[i + 1..]) == Polled(s, round[i..])
  {
    WakeAllFrame(s, round[i]);
    assert round[i..][0] == round[i] && round[i..][1..] == round[i + 1..];
  }

  // The walk of GetNextUnblockedProc along the round-robin order.

  ghost predicate AtOrder<P>(ring: seq<P>, c: P, k: nat, p: P) {
    c in ring && k < |ring| && After(ring, c)[k] == p
  }

  /** Nobody before place `k` of the order decides the choice. */
  ghost predicate OpenFrom<P, Q>(ring: seq<P>, c: P, on: map<P, Q>, k: nat) {
    c in ring && k <= |ring| && FirstUnblocked(After(ring, c), on) == FirstUnblocked(After(ring, c)[k..], on)
  }

  lemma WalkStarts<P, Q>(ring: seq<P>, c: P, on: map<P, Q>)
    requires Distinct(ring) && c in ring
    ensures AtOrder(ring, c, 0, Next(ring, c)) && OpenFrom(ring, c, on, 0)
  {
    OrderIsNext(ring, c, 0);
    assert After(ring, c)[0..] == After(ring, c);
  }

  lemma WalkGoesOn<P, Q>(ring: seq<P>, c: P, on: map<P, Q>, k: nat, p: P)
    requires Distinct(ring) && AtOrder(ring, c, k, p) && OpenFrom(ring, c, on, k)
    ensures p in ring
    ensures p !in on ==> FirstUnblocked(After(ring, c), on) == Some(p)
    ensures p in on && p == c ==> FirstUnblocked(After(ring, c), on) == None
    ensures p in on && p != c ==> k + 1 < |ring| && AtOrder(ring, c, k + 1, Next(ring, p)) && OpenFrom(ring, c, on, k + 1)
  {
    var order := After(ring, c);
    AfterMembers(ring, c);
    OrderIsNext(ring, c, k);
    assert order[k..][0] == p && order[k..][1..] == order[k + 1..];
    if p == c {
      assert FirstUnblocked(order[k + 1..], on).None?;
    } else {
      OrderIsNext(ring, c, k + 1);
    }
  }
}
