/**
 Blocking disk reads as a protocol: processes queue requests and block, the drive interrupts,
 and the handler serves the oldest request and wakes the oldest waiter.
 */
module AtaProtocol {
  import opened Prelude
  import opened Bytes

  const SECTOR_WORDS := 256

  type Pid = int

  /** The 256 words of every block of the drive. */
  type Drive = int -> seq<int>

  datatype Request = Request(blockNum: int, buffer: int)

  /**
   The block number the drive decodes from the six bytes Consume sends. The sixth comes from
   bits 48 to 55, not 40 to 47.
   */
  function Decoded(n: nat): int {
    ByteOf(n, 0) + 0x100 * ByteOf(n, 1) + 0x1_0000 * ByteOf(n, 2)
    + 0x100_0000 * ByteOf(n, 3) + 0x1_0000_0000 * ByteOf(n, 4) + 0x100_0000_0000 * ByteOf(n, 6)
  }

  /** The drive is asked for the block that was meant exactly when its number is below 2^40. */
  lemma DecodedExactly(n: nat)
    ensures Decoded(n) == n <==> n < 0x100_0000_0000
  {
    var n1 := n / 256;
    var n2 := n1 / 256;
    var n3 := n2 / 256;
    var n4 := n3 / 256;
    var n5 := n4 / 256;
    var n6 := n5 / 256;
    assert ByteOf(n, 1) == n1 % 256;
    assert ByteOf(n, 2) == ByteOf(n1, 1) == n2 % 256;
    assert ByteOf(n, 3) == ByteOf(n1, 2) == ByteOf(n2, 1) == n3 % 256;
    assert ByteOf(n, 4) == ByteOf(n1, 3) == ByteOf(n2, 2) == ByteOf(n3, 1) == n4 % 256;
    assert ByteOf(n, 6) == ByteOf(n1, 5) == ByteOf(n2, 4) == ByteOf(n3, 3) == ByteOf(n4, 2) == ByteOf(n5, 1) == n6 % 256;
    assert n == n % 256 + 0x100 * (n1 % 256) + 0x1_0000 * (n2 % 256) + 0x100_0000 * (n3 % 256)
             + 0x1_0000_0000 * (n4 % 256) + 0x100_0000_0000 * n5;
    assert Decoded(n) - n == 0x100_0000_0000 * (n6 % 256 - n5);
    assert n5 == n5 % 256 + 256 * n6;
  }

  /**
   `calls` are the ReadBlock calls that have not returned: those of waiting processes and of
   woken ones. `command` is the block number of the outstanding drive command.
   */
  datatype State = State(
    requests: seq<Request>, waiters: seq<Pid>, command: Option<int>, memory: map<int, seq<int>>,
    calls: map<Pid, Request>)

  const INITIAL := State([], [], None, map[], map[])

  datatype Event =
    | Call(p: Pid, request: Request)
    | Interrupt(dataReady: bool)
    | Return(p: Pid)

  /** A process makes one call at a time, into a buffer no other call is using; the data-ready bit means a command is done. */
  predicate Enabled(s: State, e: Event) {
    match e
    case Call(p, r) =>
      p !in s.calls && r.blockNum >= 0 && forall q :: q in s.calls ==> s.calls[q].buffer != r.buffer
    case Interrupt(dataReady) => dataReady ==> s.command.Some?
    case Return(p) => p in s.calls && p !in s.waiters
  }

  /** Consume: the command for the request at the head of the queue. */
  function Consumed(requests: seq<Request>): Option<int> {
    if requests == [] then None
    else if requests[0].blockNum < 0 then None
    else Some(Decoded(requests[0].blockNum))
  }

  function ReadBlock(s: State, p: Pid, r: Request): State {
    s.(requests := s.requests + [r], waiters := s.waiters + [p],
       command := if s.requests == [] then Consumed([r]) else s.command,
       calls := s.calls[p := r])
  }

  function HandleInterrupt(s: State, drive: Drive, dataReady: bool): State {
    if !dataReady || s.requests == [] || s.waiters == [] || s.command.None? then s
    else
      s.(requests := s.requests[1..], waiters := s.waiters[1..],
         memory := s.memory[s.requests[0].buffer := drive(s.command.value)],
         command := Consumed(s.requests[1..]))
  }

  function Step(s: State, drive: Drive, e: Event): State {
    match e
    case Call(p, r) => ReadBlock(s, p, r)
    case Interrupt(dataReady) => HandleInterrupt(s, drive, dataReady)
    case Return(p) => s.(calls := s.calls - {p})
  }

  ghost predicate Legal(s: State, drive: Drive, events: seq<Event>)
    decreases |events|
  {
    events == [] || (Enabled(s, events[0]) && Legal(Step(s, drive, events[0]), drive, events[1..]))
  }

  function Run(s: State, drive: Drive, events: seq<Event>): State
    decreases |events|
  {
    if events == [] then s else Run(Step(s, drive, events[0]), drive, events[1..])
  }

  /** A woken call finds the block the drive decoded in its own buffer. */
  ghost predicate Served(s: State, drive: Drive, p: Pid)
    requires p in s.calls && s.calls[p].blockNum >= 0
  {
    && s.calls[p].buffer in s.memory
    && s.memory[s.calls[p].buffer] == drive(Decoded(s.calls[p].blockNum))
  }

  /**
   The two FIFOs run in lockstep: the i-th waiter made the i-th request, and a command is
   outstanding exactly while requests are, for the oldest of them.
   */
  ghost predicate Lockstep(s: State, drive: Drive) {
    && |s.requests| == |s.waiters| && Distinct(s.waiters)
    && (forall p :: p in s.calls ==> s.calls[p].blockNum >= 0)
    && (forall i :: 0 <= i < |s.waiters| ==> s.waiters[i] in s.calls && s.calls[s.waiters[i]] == s.requests[i])
    && s.command == Consumed(s.requests)
    && (forall p, q :: p in s.calls && q in s.calls && p != q ==> s.calls[p].buffer != s.calls[q].buffer)
    && (forall p :: p in s.calls && p !in s.waiters ==> Served(s, drive, p))
  }

  /** The buffers of pending calls are real. */
  ghost predicate BuffersFit(memory: map<int, seq<int>>, calls: map<Pid, Request>) {
    forall p :: p in calls ==> calls[p].buffer in memory && |memory[calls[p].buffer]| == SECTOR_WORDS
  }

  lemma HeadBufferFits(s: State, drive: Drive)
    requires Lockstep(s, drive) && BuffersFit(s.memory, s.calls) && s.requests != []
    ensures var b := s.requests[0].buffer;
      && b in s.memory && |s.memory[b]| == SECTOR_WORDS
      && forall block: seq<int> :: |block| == SECTOR_WORDS ==> BuffersFit(s.memory[b := block], s.calls)
  {
    var first := s.waiters[0];
    assert s.calls[first] == s.requests[0];
  }

  lemma CallKeeps(s: State, drive: Drive, p: Pid, r: Request)
    requires Lockstep(s, drive) && Enabled(s, Call(p, r))
    ensures Lockstep(ReadBlock(s, p, r), drive)
  {
    var s' := ReadBlock(s, p, r);
    assert forall q :: q in s'.waiters <==> q in s.waiters || q == p;
    forall q | q in s'.calls && q !in s'.waiters ensures Served(s', drive, q) {
      assert Served(s, drive, q);
    }
  }

  lemma InterruptKeeps(s: State, drive: Drive, dataReady: bool)
    requires Lockstep(s, drive)
    ensures Lockstep(HandleInterrupt(s, drive, dataReady), drive)
  {
    var s' := HandleInterrupt(s, drive, dataReady);
    if dataReady && s.requests != [] {
      var first := s.waiters[0];
      assert s.calls[first] == s.requests[0];
      assert s.waiters == [first] + s'.waiters;
      forall q | q in s'.calls && q !in s'.waiters ensures Served(s', drive, q) {
        if q != first { assert Served(s, drive, q); }
      }
    }
  }

  lemma ReturnKeeps(s: State, drive: Drive, p: Pid)
    requires Lockstep(s, drive) && Enabled(s, Return(p))
    ensures Lockstep(Step(s, drive, Return(p)), drive)
  {
    var s' := Step(s, drive, Return(p));
    forall q | q in s'.calls && q !in s'.waiters ensures Served(s', drive, q) {
      assert Served(s, drive, q);
    }
  }

  /** Lockstep holds after every interleaving of calls, interrupts and returns. */
  lemma {:induction false} LockstepAlways(s: State, drive: Drive, events: seq<Event>)
    requires Lockstep(s, drive) && Legal(s, drive, events)
    ensures Lockstep(Run(s, drive, events), drive)
    decreases |events|
  {
    if events != [] {
      match events[0] {
        case Call(p, r) => CallKeeps(s, drive, p, r);
        case Interrupt(dataReady) => InterruptKeeps(s, drive, dataReady);
        case Return(p) => ReturnKeeps(s, drive, p);
      }
      LockstepAlways(Step(s, drive, events[0]), drive, events[1..]);
    }
  }

  /** Main result: in every run, a ReadBlock that returns finds its own block in its own buffer, if the number is below 2^40. */
  lemma ReturningReadHasItsBlock(drive: Drive, events: seq<Event>, p: Pid)
    requires Legal(INITIAL, drive, events)
    requires Enabled(Run(INITIAL, drive, events), Return(p))
    requires Run(INITIAL, drive, events).calls[p].blockNum < 0x100_0000_0000
    ensures var s := Run(INITIAL, drive, events);
      s.calls[p].buffer in s.memory && s.memory[s.calls[p].buffer] == drive(s.calls[p].blockNum)
  {
    LockstepAlways(INITIAL, drive, events);
    var s := Run(INITIAL, drive, events);
    assert Served(s, drive, p);
    DecodedExactly(s.calls[p].blockNum);
  }

  /** How many data-ready interrupts a run contains. */
  function Completions(events: seq<Event>): nat {
    if events == [] then 0
    else (if events[0] == Interrupt(true) then 1 else 0) + Completions(events[1..])
  }

  /** Every step moves the i-th waiter up by one per completion, and wakes it when it was the first. */
  lemma WaiterMoves(s: State, drive: Drive, e: Event, i: nat)
    requires Lockstep(s, drive) && Enabled(s, e) && i < |s.waiters|
    ensures Lockstep(Step(s, drive, e), drive)
    ensures var s' := Step(s, drive, e);
      if e != Interrupt(true) then i < |s'.waiters| && s'.waiters[i] == s.waiters[i]
      else if i > 0 then i - 1 < |s'.waiters| && s'.waiters[i - 1] == s.waiters[i]
      else s.waiters[0] !in s'.waiters && s.waiters[0] in s'.calls
  {
    assert Legal(Step(s, drive, e), drive, []);
    LockstepAlways(s, drive, [e]);
    assert Run(s, drive, [e]) == Step(s, drive, e);
    assert s.calls[s.waiters[0]] == s.requests[0];
  }

  /** Nobody is starved: the i-th waiter is woken by the (i+1)-st completion, whatever else happens. */
  lemma {:induction false} WokenAfterCompletions(s: State, drive: Drive, events: seq<Event>, i: nat, p: Pid)
    requires Lockstep(s, drive) && Legal(s, drive, events) && i < |s.waiters| && p == s.waiters[i]
    requires Return(p) !in events
    ensures var s' := Run(s, drive, events);
      if Completions(events) <= i then
        i - Completions(events) < |s'.waiters| && s'.waiters[i - Completions(events)] == p
      else p !in s'.waiters && p in s'.calls
    decreases |events|
  {
    hide Lockstep, Step, Enabled;
    if events != [] {
      var s1 := Step(s, drive, events[0]);
      WaiterMoves(s, drive, events[0], i);
      if events[0] != Interrupt(true) {
        WokenAfterCompletions(s1, drive, events[1..], i, p);
      } else if i > 0 {
        WokenAfterCompletions(s1, drive, events[1..], i - 1, p);
      } else {
        StaysWoken(s1, drive, events[1..], p);
      }
    }
  }

  lemma {:induction false} StaysWoken(s: State, drive: Drive, events: seq<Event>, p: Pid)
    requires Legal(s, drive, events) && p in s.calls && p !in s.waiters && Return(p) !in events
    ensures p in Run(s, drive, events).calls && p !in Run(s, drive, events).waiters
    decreases |events|
  {
    if events != [] {
      assert events[0] in events;
      StaysWoken(Step(s, drive, events[0]), drive, events[1..], p);
    }
  }
}
