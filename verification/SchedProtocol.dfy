/**
 Round-robin scheduling with wait queues, as steps on values. `ring` is the process list from
 its head, `queues` the wait queues, `on` tells for each blocked process its queue, and `next`
 is the choice ProcReschedule made for the coming switch. While `exiting`, the exiting process
 is already gone and `current` is only the place in the ring to go on from.
 */
module SchedProtocol {
  import opened Prelude
  import opened List

  datatype Sched<P, Q> = Sched(ring: seq<P>, current: P, queues: map<Q, seq<P>>, on: map<P, Q>, next: Option<P>, exiting: bool)

  // ----- round robin -----

  /** The ring in the order the scheduler looks at it: from the successor of `c`, with `c` last. */
  function After<P(==)>(ring: seq<P>, c: P): (r: seq<P>)
    requires c in ring
    ensures |r| == |ring|
  {
    var k := IndexOf(ring, c);
    ring[k + 1..] + ring[..k + 1]
  }

  /** The first process that is not blocked. */
  function FirstUnblocked<P(==), Q>(order: seq<P>, on: map<P, Q>): Option<P> {
    if order == [] then None
    else if order[0] !in on then Some(order[0])
    else FirstUnblocked(order[1..], on)
  }

  /** What GetNextUnblockedProc finds. */
  function Chosen<P(==), Q>(s: Sched<P, Q>): Option<P>
    requires s.current in s.ring
  {
    FirstUnblocked(After(s.ring, s.current), s.on)
  }

  /** How many places the scheduler has to move on to reach `p`; 1 for the next in line. */
  function Distance<P(==)>(ring: seq<P>, c: P, p: P): int
    requires c in ring
  {
    IndexOf(After(ring, c), p) + 1
  }

  lemma AfterMembers<P>(ring: seq<P>, c: P)
    requires c in ring
    ensures forall p :: p in After(ring, c) <==> p in ring
    ensures Distinct(ring) ==> Distinct(After(ring, c))
  {
    var k := IndexOf(ring, c);
    assert ring == ring[..k + 1] + ring[k + 1..];
  }

  lemma {:induction false} FirstUnblockedIs<P, Q>(order: seq<P>, on: map<P, Q>)
    ensures var r := FirstUnblocked(order, on);
      && (r.None? <==> forall p :: p in order ==> p in on)
      && (r.Some? ==> r.value in order && r.value !in on)
      && (r.Some? ==> forall p :: p in order && p !in on ==> IndexOf(order, r.value) <= IndexOf(order, p))
  {
    if order != [] && order[0] in on {
      FirstUnblockedIs(order[1..], on);
      assert order == [order[0]] + order[1..];
    }
  }

  /** Waking processes only brings the choice nearer. */
  lemma {:induction false} WakingIsMonotone<P, Q>(order: seq<P>, on: map<P, Q>, on': map<P, Q>)
    requires forall p :: p in on' ==> p in on
    requires FirstUnblocked(order, on).Some?
    ensures FirstUnblocked(order, on').Some?
    ensures IndexOf(order, FirstUnblocked(order, on').value) <= IndexOf(order, FirstUnblocked(order, on).value)
  {
    FirstUnblockedIs(order, on);
    FirstUnblockedIs(order, on');
  }

  /**
   After a switch from `c` to `q`, everything behind `q` has come nearer by the length of the move;
   everything before `q` was overtaken and is reached on the next round only.
   */
  lemma DistanceAfterSwitch<P>(ring: seq<P>, c: P, q: P, p: P)
    requires Distinct(ring) && c in ring && q in ring && p in ring && p != q
    ensures Distance(ring, q, p) == Distance(ring, c, p) - Distance(ring, c, q)
      + if Distance(ring, c, q) < Distance(ring, c, p) then 0 else |ring|
  {
    hide Distance, Distinct;
    DistinctIndices(ring, q, p);
    Position(ring, c, q);
    Position(ring, c, p);
    Position(ring, q, p);
  }

  /** Where a process stands in the scheduling order. */
  lemma Position<P>(ring: seq<P>, c: P, p: P)
    requires Distinct(ring) && c in ring && p in ring
    ensures var k, i := IndexOf(ring, c), IndexOf(ring, p);
      Distance(ring, c, p) == if i > k then i - k else i - k + |ring|
  {
    hide Distinct, IndexOf;
    var k, i := IndexOf(ring, c), IndexOf(ring, p);
    var at := if i > k then i - k - 1 else |ring| - k - 1 + i;
    AfterMembers(ring, c);
    AfterAt(ring, c, at);
    IndexInDistinct(After(ring, c), at);
  }

  lemma AfterAt<P>(ring: seq<P>, c: P, at: nat)
    requires c in ring && at < |ring|
    ensures var k := IndexOf(ring, c);
      After(ring, c)[at] == if at < |ring| - k - 1 then ring[k + 1 + at] else ring[at - (|ring| - k - 1)]
  {
    hide IndexOf;
    RotatedAt(ring, IndexOf(ring, c) + 1, at);
  }

  lemma RotatedAt<P>(ring: seq<P>, cut: nat, at: nat)
    requires cut <= |ring| && at < |ring|
    ensures (ring[cut..] + ring[..cut])[at] == if at < |ring| - cut then ring[cut + at] else ring[at - (|ring| - cut)]
  {}

  lemma WithoutMembers<P>(ring: seq<P>, c: P)
    requires Distinct(ring) && c in ring
    ensures var ring' := Without(ring, IndexOf(ring, c));
      Distinct(ring') && forall p :: p in ring' <==> p in ring && p != c
  {
    hide IndexOf, Distinct;
    var k := IndexOf(ring, c);
    assert ring == ring[..k] + [c] + ring[k + 1..];
    LeavingOut(ring[..k], c, ring[k + 1..]);
  }

  lemma LeavingOut<P>(a: seq<P>, c: P, b: seq<P>)
    requires Distinct(a + [c] + b)
    ensures Distinct(a + b) && forall p :: p in a + b <==> p in a + [c] + b && p != c
  {
    var all, rest := a + [c] + b, a + b;
    assert all[|a|] == c;
    assert forall i :: 0 <= i < |rest| ==> rest[i] == all[if i < |a| then i else i + 1];
  }

  lemma AfterSplit<P>(ring: seq<P>, a: seq<P>, x: P, b: seq<P>)
    requires Distinct(ring) && ring == a + [x] + b
    ensures x in ring && IndexOf(ring, x) == |a| && After(ring, x) == b + a + [x]
  {
    assert ring[|a|] == x;
    IndexInDistinct(ring, |a|);
    assert ring[|a| + 1..] == b && ring[..|a| + 1] == a + [x];
  }

  lemma OrderWithout<P>(a: seq<P>, b: seq<P>)
    requires Distinct(a + b) && a + b != []
    ensures var previous := if a == [] then b[|b| - 1] else a[|a| - 1];
      previous in a + b && After(a + b, previous) == b + a
  {
    if a == [] {
      var front := b[..|b| - 1];
      assert a + b == front + [b[|b| - 1]] + [];
      AfterSplit(a + b, front, b[|b| - 1], []);
      assert b + a == [] + front + [b[|b| - 1]];
    } else {
      var front := a[..|a| - 1];
      assert a == front + [a[|a| - 1]];
      AfterSplit(a + b, front, a[|a| - 1], b);
    }
  }

  /** Taking the current process out and stepping back to its predecessor keeps everyone's place. */
  lemma AfterExit<P>(ring: seq<P>, c: P)
    requires Distinct(ring) && c in ring && |ring| >= 2
    ensures var ring' := Without(ring, IndexOf(ring, c));
      && Previous(ring, c) in ring'
      && After(ring', Previous(ring, c)) == After(ring, c)[..|ring| - 1]
  {
    hide Distinct, IndexOf, After;
    WithoutMembers(ring, c);
    var k := IndexOf(ring, c);
    AfterIs(ring, c);
    OrderWithout(ring[..k], ring[k + 1..]);
    DropLast(ring[k + 1..], ring[..k + 1]);
    assert ring[..k + 1][..k] == ring[..k];
  }

  lemma AfterIs<P>(ring: seq<P>, c: P)
    requires c in ring
    ensures After(ring, c) == ring[IndexOf(ring, c) + 1..] + ring[..IndexOf(ring, c) + 1]
  {}

  lemma DropLast<P>(x: seq<P>, y: seq<P>)
    requires y != []
    ensures (x + y)[..|x| + |y| - 1] == x + y[..|y| - 1]
  {}

  lemma DistanceAfterExit<P>(ring: seq<P>, c: P, p: P)
    requires Distinct(ring) && c in ring && |ring| >= 2 && p in ring && p != c
    ensures var ring' := Without(ring, IndexOf(ring, c));
      Previous(ring, c) in ring' && Distance(ring', Previous(ring, c), p) == Distance(ring, c, p)
  {
    AfterExit(ring, c);
    WithoutMembers(ring, c);
    AfterMembers(ring, c);
    var order := After(ring, c);
    var order' := order[..|ring| - 1];
    var i := IndexOf(order', p);
    assert p in order' by { assert p in Without(ring, IndexOf(ring, c)); AfterMembers(Without(ring, IndexOf(ring, c)), Previous(ring, c)); }
    assert order[i] == p;
    IndexInDistinct(order, i);
  }

  /** A new process joins behind the last one, so it can overtake nobody by more than one place. */
  lemma DistanceAfterCreate<P>(ring: seq<P>, c: P, p: P, fresh': P)
    requires Distinct(ring) && c in ring && p in ring && fresh' !in ring
    ensures Distance(ring, c, p) <= Distance(ring + [fresh'], c, p) <= Distance(ring, c, p) + 1
  {
    var ring' := ring + [fresh'];
    assert ring'[IndexOf(ring, c)] == c && ring'[IndexOf(ring, p)] == p;
    IndexInDistinct(ring', IndexOf(ring, c));
    IndexInDistinct(ring', IndexOf(ring, p));
    Position(ring, c, p);
    Position(ring', c, p);
  }

  // ----- the steps -----

  datatype Event<P, Q> =
    | Wake(q: Q)
    | Create(p: P)
    | Enqueue(q: Q)
    | Choose
    | Switch
    | Exit

  /** What the kernel may do next. Only a process that is really running creates, blocks or exits. */
  predicate Enabled<P(==), Q(==)>(s: Sched<P, Q>, e: Event<P, Q>) {
    match e
    case Wake(q) => q in s.queues && s.queues[q] != []
    case Create(p) => !s.exiting && s.next.None? && p !in s.ring && p !in s.on && s.current !in s.on
    case Enqueue(q) => !s.exiting && s.next.None? && q in s.queues && s.current !in s.on
    case Choose => s.current in s.ring
    case Switch => s.next.Some?
    case Exit => !s.exiting && |s.ring| >= 2 && s.current in s.ring && s.current !in s.on
  }

  function Switched<P, Q>(s: Sched<P, Q>): Sched<P, Q>
    requires s.next.Some?
  {
    s.(current := s.next.value, next := None, exiting := false)
  }

  /** The exiting process leaves the ring; its predecessor becomes the place to go on from. */
  function Exited<P(==), Q>(s: Sched<P, Q>): Sched<P, Q>
    requires s.current in s.ring
  {
    s.(ring := Without(s.ring, IndexOf(s.ring, s.current)), current := Previous(s.ring, s.current),
       next := None, exiting := true)
  }

  function Step<P(==), Q(==)>(s: Sched<P, Q>, e: Event<P, Q>): Sched<P, Q>
    requires Enabled(s, e)
  {
    match e
    case Wake(q) => s.(queues := s.queues[q := s.queues[q][1..]], on := s.on - {s.queues[q][0]})
    case Create(p) => s.(ring := s.ring + [p])
    case Enqueue(q) => s.(queues := s.queues[q := s.queues[q] + [s.current]], on := s.on[s.current := q])
    case Choose => s.(next := Chosen(s))
    case Switch => Switched(s)
    case Exit => Exited(s)
  }

  /** Every process is on at most one wait queue, once, and is marked blocked exactly then. */
  ghost predicate Queued<P, Q>(queues: map<Q, seq<P>>, on: map<P, Q>) {
    && (forall p :: p in on ==> on[p] in queues && p in queues[on[p]])
    && (forall q, p :: q in queues && p in queues[q] ==> p in on && on[p] == q)
    && (forall q :: q in queues ==> Distinct(queues[q]))
  }

  ghost predicate WellFormed<P, Q>(s: Sched<P, Q>) {
    && Distinct(s.ring) && s.current in s.ring
    && Queued(s.queues, s.on) && (forall p :: p in s.on ==> p in s.ring)
    && (s.next.Some? ==> s.next.value in s.ring && s.next.value !in s.on)
  }

  lemma WakeQueued<P, Q>(queues: map<Q, seq<P>>, on: map<P, Q>, q: Q)
    requires Queued(queues, on) && q in queues && queues[q] != []
    ensures queues[q][0] in on && on[queues[q][0]] == q
    ensures Queued(queues[q := queues[q][1..]], on - {queues[q][0]})
  {
    var head, rest := queues[q][0], queues[q][1..];
    assert queues[q] == [head] + rest;
    assert forall p :: p in queues[q] <==> p == head || p in rest;
    assert head in on && on[head] == q;
  }

  lemma EnqueueQueued<P, Q>(queues: map<Q, seq<P>>, on: map<P, Q>, q: Q, p: P)
    requires Queued(queues, on) && q in queues && p !in on
    ensures p !in queues[q] && Queued(queues[q := queues[q] + [p]], on[p := q])
  {
    assert forall x :: x in queues[q] + [p] <==> x in queues[q] || x == p;
  }

  lemma ChooseKeeps<P, Q>(s: Sched<P, Q>)
    requires WellFormed(s)
    ensures WellFormed(Step(s, Choose))
  {
    AfterMembers(s.ring, s.current);
    FirstUnblockedIs(After(s.ring, s.current), s.on);
  }

  lemma ExitKeeps<P, Q>(s: Sched<P, Q>)
    requires WellFormed(s) && Enabled(s, Exit)
    ensures WellFormed(Step(s, Exit))
  {
    WithoutMembers(s.ring, s.current);
    AfterExit(s.ring, s.current);
  }

  /**
   Every step keeps the queues disjoint, duplicate-free and in agreement with the blocked marks,
   and keeps the chosen process runnable, whatever wakes up between the choice and the switch.
   */
  lemma StepKeeps<P, Q>(s: Sched<P, Q>, e: Event<P, Q>)
    requires WellFormed(s) && Enabled(s, e)
    ensures WellFormed(Step(s, e))
  {
    match e
    case Wake(q) => WakeQueued(s.queues, s.on, q);
    case Create(p) =>
    case Enqueue(q) => EnqueueQueued(s.queues, s.on, q, s.current);
    case Choose => ChooseKeeps(s);
    case Switch =>
    case Exit => ExitKeeps(s);
  }

  // ----- runs -----

  ghost predicate Legal<P, Q>(s: Sched<P, Q>, events: seq<Event<P, Q>>)
    decreases |events|
  {
    events == [] || (Enabled(s, events[0]) && Legal(Step(s, events[0]), events[1..]))
  }

  ghost function Run<P, Q>(s: Sched<P, Q>, events: seq<Event<P, Q>>): Sched<P, Q>
    requires Legal(s, events)
    decreases |events|
  {
    if events == [] then s else Run(Step(s, events[0]), events[1..])
  }

  lemma {:induction false} AlwaysWellFormed<P, Q>(s: Sched<P, Q>, events: seq<Event<P, Q>>)
    requires WellFormed(s) && Legal(s, events)
    ensures WellFormed(Run(s, events))
    decreases |events|
  {
    if events != [] {
      StepKeeps(s, events[0]);
      AlwaysWellFormed(Step(s, events[0]), events[1..]);
    }
  }

  function Switches<P, Q>(events: seq<Event<P, Q>>): nat {
    if events == [] then 0 else (if events[0].Switch? then 1 else 0) + Switches(events[1..])
  }

  function Creations<P, Q>(events: seq<Event<P, Q>>): nat {
    if events == [] then 0 else (if events[0].Create? then 1 else 0) + Creations(events[1..])
  }

  // ----- the wait queues are first in, first out -----

  function Wakes<P, Q(==)>(events: seq<Event<P, Q>>, q: Q): nat {
    if events == [] then 0 else (if events[0] == Wake(q) then 1 else 0) + Wakes(events[1..], q)
  }

  /** A wake-up of its queue moves a waiter up by one; nothing else moves it. */
  lemma WaiterMoves<P, Q>(s: Sched<P, Q>, e: Event<P, Q>, q: Q, i: nat)
    requires WellFormed(s) && Enabled(s, e) && q in s.queues && i < |s.queues[q]|
    ensures q in Step(s, e).queues
    ensures var waiting, waiting' := s.queues[q], Step(s, e).queues[q];
      if e != Wake(q) then i < |waiting'| && waiting'[i] == waiting[i]
      else if i > 0 then i - 1 < |waiting'| && waiting'[i - 1] == waiting[i]
      else waiting[0] !in Step(s, e).on
  {
    hide Distinct, Chosen;
  }

  /** A waiter with `i` others before it is blocked until the queue's (i + 1)-st wake-up, and that one wakes it. */
  lemma {:induction false} WokenInOrder<P, Q>(s: Sched<P, Q>, events: seq<Event<P, Q>>, q: Q, i: nat, p: P)
    requires WellFormed(s) && Legal(s, events) && q in s.queues && i < |s.queues[q]| && p == s.queues[q][i]
    requires Wakes(events, q) <= i
    ensures WellFormed(Run(s, events)) && q in Run(s, events).queues
    ensures var waiting := Run(s, events).queues[q];
      && p in Run(s, events).on
      && i - Wakes(events, q) < |waiting| && waiting[i - Wakes(events, q)] == p
      && (Wakes(events, q) == i ==> Enabled(Run(s, events), Wake(q)) && p !in Step(Run(s, events), Wake(q)).on)
    decreases |events|
  {
    hide Step, Distinct;
    if events == [] {
      if i == 0 { WaiterMoves(s, Wake(q), q, 0); }
    } else {
      StepKeeps(s, events[0]);
      WaiterMoves(s, events[0], q, i);
      WokenInOrder(Step(s, events[0]), events[1..], q, if events[0] == Wake(q) then i - 1 else i, p);
    }
  }

  /** No switch of the run goes to `p`. */
  ghost predicate PassedOver<P, Q>(s: Sched<P, Q>, events: seq<Event<P, Q>>, p: P)
    requires Legal(s, events)
    decreases |events|
  {
    events == [] || (!(events[0].Switch? && s.next == Some(p)) && PassedOver(Step(s, events[0]), events[1..], p))
  }

  /** `p` could run and is not running. */
  ghost predicate Runnable<P, Q>(s: Sched<P, Q>, p: P) {
    p in s.ring && p !in s.on && !(s.current == p && !s.exiting)
  }

  /** The choice for the coming switch was made before `p` woke up and lies behind it. */
  ghost predicate Overtaken<P, Q>(s: Sched<P, Q>, p: P)
    requires s.current in s.ring
  {
    s.next.Some? && Distance(s.ring, s.current, s.next.value) > Distance(s.ring, s.current, p)
  }

  /**
   How many switches `p` has to wait at most, the one to it included: its distance, and if the
   pending choice overtakes it, the way from that choice once around the ring.
   */
  ghost function Turns<P, Q>(s: Sched<P, Q>, p: P): int
    requires s.current in s.ring
  {
    Distance(s.ring, s.current, p)
    + if Overtaken(s, p) then |s.ring| + 1 - Distance(s.ring, s.current, s.next.value) else 0
  }

  lemma DistancesDiffer<P>(ring: seq<P>, c: P, q: P, p: P)
    requires c in ring && q in ring && p in ring && q != p
    ensures Distance(ring, c, q) != Distance(ring, c, p)
  {
    AfterMembers(ring, c);
    assert After(ring, c)[Distance(ring, c, q) - 1] == q;
  }

  lemma DistanceBounds<P>(ring: seq<P>, c: P, p: P)
    requires Distinct(ring) && c in ring && p in ring
    ensures 1 <= Distance(ring, c, p) <= |ring|
    ensures Distance(ring, c, p) == |ring| <==> p == c
  {
    hide Distance;
    Position(ring, c, p);
    if p != c { DistinctIndices(ring, c, p); }
  }

  lemma DistinctIndices<P>(ring: seq<P>, c: P, p: P)
    requires c in ring && p in ring && c != p
    ensures IndexOf(ring, c) != IndexOf(ring, p)
  {}

  /** The wait is never longer than the ring, and as long as that in two cases only. */
  lemma TurnsBounds<P, Q>(s: Sched<P, Q>, p: P)
    requires WellFormed(s) && p in s.ring
    ensures 1 <= Distance(s.ring, s.current, p) <= Turns(s, p) <= |s.ring|
    ensures Turns(s, p) == |s.ring| <==> s.current == p || RightBehind(s, p)
  {
    hide Distance, Distinct, Queued;
    DistanceBounds(s.ring, s.current, p);
    if s.next.Some? { DistanceBounds(s.ring, s.current, s.next.value); }
  }

  /** The pending choice is the process right behind `p`. */
  ghost predicate RightBehind<P, Q>(s: Sched<P, Q>, p: P)
    requires s.current in s.ring
  {
    s.next.Some? && Distance(s.ring, s.current, s.next.value) == Distance(s.ring, s.current, p) + 1
  }

  lemma SwitchBringsNearer<P, Q>(s: Sched<P, Q>, p: P)
    requires WellFormed(s) && s.next.Some? && Runnable(s, p) && s.next != Some(p)
    ensures Runnable(Switched(s), p) && Turns(Switched(s), p) + 1 <= Turns(s, p)
    ensures Overtaken(s, p) ==> Turns(Switched(s), p) + 1 == Turns(s, p)
  {
    hide Distance, Distinct, Queued;
    DistancesDiffer(s.ring, s.current, s.next.value, p);
    DistanceBounds(s.ring, s.current, s.next.value);
    DistanceAfterSwitch(s.ring, s.current, s.next.value, p);
  }

  /** Trying again never makes the choice overtake a runnable process. */
  lemma ChoiceIsNoFarther<P, Q>(s: Sched<P, Q>, p: P)
    requires WellFormed(s) && Runnable(s, p)
    ensures Turns(s.(next := Chosen(s)), p) == Distance(s.ring, s.current, p)
  {
    AfterMembers(s.ring, s.current);
    FirstUnblockedIs(After(s.ring, s.current), s.on);
  }

  lemma ExitKeepsDistance<P, Q>(s: Sched<P, Q>, p: P)
    requires WellFormed(s) && Enabled(s, Exit) && Runnable(s, p)
    ensures Exited(s).current in Exited(s).ring && Runnable(Exited(s), p)
    ensures Turns(Exited(s), p) == Distance(s.ring, s.current, p)
  {
    DistanceAfterExit(s.ring, s.current, p);
    WithoutMembers(s.ring, s.current);
  }

  /** Every switch that passes a runnable process over shortens its wait; only creations lengthen it. */
  lemma StepBringsNearer<P, Q>(s: Sched<P, Q>, e: Event<P, Q>, p: P)
    requires WellFormed(s) && Enabled(s, e) && Runnable(s, p) && !(e.Switch? && s.next == Some(p))
    ensures WellFormed(Step(s, e)) && Runnable(Step(s, e), p)
    ensures Turns(Step(s, e), p) + (if e.Switch? then 1 else 0) <= Turns(s, p) + (if e.Create? then 1 else 0)
  {
    hide Distance, Chosen;
    StepKeeps(s, e);
    TurnsBounds(s, p);
    match e {
      case Wake(q) =>
      case Create(p') => DistanceAfterCreate(s.ring, s.current, p, p');
      case Enqueue(q) =>
      case Choose => ChoiceIsNoFarther(s, p);
      case Switch => SwitchBringsNearer(s, p);
      case Exit => ExitKeepsDistance(s, p);
    }
  }

  lemma {:induction false} PassedOverIsNearer<P, Q>(s: Sched<P, Q>, events: seq<Event<P, Q>>, p: P)
    requires WellFormed(s) && Legal(s, events) && Runnable(s, p) && PassedOver(s, events, p)
    ensures WellFormed(Run(s, events)) && Runnable(Run(s, events), p)
    ensures Turns(Run(s, events), p) + Switches(events) <= Turns(s, p) + Creations(events)
    decreases |events|
  {
    if events != [] {
      StepBringsNearer(s, events[0], p);
      PassedOverIsNearer(Step(s, events[0]), events[1..], p);
    }
  }

  /** Every legal run with that many switches, and one more for each creation, switches to `p`. */
  ghost predicate RunsWithin<P(!new), Q(!new)>(s: Sched<P, Q>, p: P, turns: int) {
    forall events :: Legal(s, events) && Switches(events) >= turns + Creations(events) ==> !PassedOver(s, events, p)
  }

  /**
   Main result: no starvation. Whatever the other processes and the interrupts do, a runnable
   process is switched to within as many switches as the ring is long, one more for each process
   created meanwhile; one woken after the pending choice was made is no exception.
   */
  lemma RunsWithinOneRound<P(!new), Q(!new)>(s: Sched<P, Q>, p: P)
    requires WellFormed(s) && Runnable(s, p)
    ensures RunsWithin(s, p, |s.ring|)
  {
    TurnsBounds(s, p);
    RunsWithinIff(s, p, |s.ring|);
  }

  /** The wait of `Turns` switches is exact in every state: it is kept, and no shorter one is. */
  lemma RunsWithinIff<P(!new), Q(!new)>(s: Sched<P, Q>, p: P, turns: int)
    requires WellFormed(s) && Runnable(s, p)
    ensures RunsWithin(s, p, turns) <==> turns >= Turns(s, p)
  {
    hide Turns;
    if turns >= Turns(s, p) {
      forall events | Legal(s, events) && Switches(events) >= turns + Creations(events)
        ensures !PassedOver(s, events, p)
      {
        if PassedOver(s, events, p) {
          PassedOverIsNearer(s, events, p);
          TurnsBounds(Run(s, events), p);
          assert false;
        }
      }
    } else {
      var events := LongestWait(s, p);
    }
  }

  /** One switch less than the ring is long is enough unless the pending choice is right behind `p`. */
  lemma RunsBeforeTheRoundEndsIff<P(!new), Q(!new)>(s: Sched<P, Q>, p: P)
    requires WellFormed(s) && Runnable(s, p)
    ensures RunsWithin(s, p, |s.ring| - 1) <==> s.current != p && !RightBehind(s, p)
  {
    TurnsBounds(s, p);
    RunsWithinIff(s, p, |s.ring| - 1);
  }

  // ----- the longest wait -----

  /** With everyone awake, each rescheduling moves on by one place. */
  lemma {:induction false} OneByOne<P, Q>(s: Sched<P, Q>, p: P) returns (events: seq<Event<P, Q>>)
    requires WellFormed(s) && Runnable(s, p) && s.on == map[]
    ensures Legal(s, events) && PassedOver(s, events, p)
    ensures Creations(events) == 0 && Switches(events) == Distance(s.ring, s.current, p) - 1
    decreases Distance(s.ring, s.current, p)
  {
    DistanceBounds(s.ring, s.current, p);
    events := [];
    if Distance(s.ring, s.current, p) > 1 {
      NextInLine(s);
      var chosen := Step(s, Choose);
      StepKeeps(s, Choose);
      StepKeeps(chosen, Switch);
      DistanceAfterSwitch(s.ring, s.current, chosen.next.value, p);
      var rest := OneByOne(Switched(chosen), p);
      events := TwoMore(s, rest, p);
    }
  }

  lemma NextInLine<P, Q>(s: Sched<P, Q>)
    requires WellFormed(s) && s.on == map[]
    ensures Chosen(s).Some? && Distance(s.ring, s.current, Chosen(s).value) == 1
  {}

  lemma TwoMore<P, Q>(s: Sched<P, Q>, rest: seq<Event<P, Q>>, p: P) returns (events: seq<Event<P, Q>>)
    requires s.current in s.ring && Chosen(s).Some? && Chosen(s) != Some(p)
    requires Legal(Switched(Step(s, Choose)), rest) && PassedOver(Switched(Step(s, Choose)), rest, p)
    ensures Legal(s, events) && PassedOver(s, events, p)
    ensures Creations(events) == Creations(rest) && Switches(events) == Switches(rest) + 1
  {
    var chosen := Step(s, Choose);
    events := OneMore(chosen, Switch, rest, p);
    events := OneMore(s, Choose, events, p);
  }

  lemma OneMore<P, Q>(s: Sched<P, Q>, e: Event<P, Q>, rest: seq<Event<P, Q>>, p: P) returns (events: seq<Event<P, Q>>)
    requires Enabled(s, e) && !(e.Switch? && s.next == Some(p))
    requires Legal(Step(s, e), rest) && PassedOver(Step(s, e), rest, p)
    ensures Legal(s, events) && PassedOver(s, events, p)
    ensures Creations(events) == Creations(rest) + (if e.Create? then 1 else 0)
    ensures Switches(events) == Switches(rest) + (if e.Switch? then 1 else 0)
  {
    events := [e] + rest;
    assert events[1..] == rest;
  }

  lemma SomeoneToWake<P, Q>(s: Sched<P, Q>) returns (q: Q)
    requires WellFormed(s) && s.on != map[]
    ensures Enabled(s, Wake(q)) && WellFormed(Step(s, Wake(q))) && |Step(s, Wake(q)).on| < |s.on|
  {
    var p :| p in s.on;
    q := s.on[p];
    WakeQueued(s.queues, s.on, q);
  }

  /** The interrupts wake everyone, the pending choice overtakes `p` if it can, and all others go first. */
  lemma {:induction false} LongestWait<P, Q>(s: Sched<P, Q>, p: P) returns (events: seq<Event<P, Q>>)
    requires WellFormed(s) && Runnable(s, p)
    ensures Legal(s, events) && PassedOver(s, events, p)
    ensures Creations(events) == 0 && Switches(events) == Turns(s, p) - 1
    decreases |s.on|
  {
    hide Distance, Queued, Distinct;
    if s.on != map[] {
      var q := SomeoneToWake(s);
      var rest := LongestWait(Step(s, Wake(q)), p);
      events := OneMore(s, Wake(q), rest, p);
    } else if Overtaken(s, p) {
      SwitchBringsNearer(s, p);
      StepKeeps(s, Switch);
      var rest := OneByOne(Switched(s), p);
      events := OneMore(s, Switch, rest, p);
    } else {
      events := OneByOne(s, p);
    }
  }

  /** Process 1 of three waits for the disk while process 0 gives way. */
  const BLOCKED := Sched([0, 1, 2], 0, map["disk" := [1]], map[1 := "disk"], None, false)

  /** Process 2 was chosen, and an interrupt woke process 1 before the switch. */
  const WOKEN := Sched([0, 1, 2], 0, map["disk" := []], map[], Some(2), false)

  lemma BlockedIsWellFormed()
    ensures WellFormed(BLOCKED)
  {}

  lemma WokenAfterTheChoice()
    ensures Legal(BLOCKED, [Choose, Wake("disk")]) && Run(BLOCKED, [Choose, Wake("disk")]) == WOKEN
  {
    var race: seq<Event<int, string>> := [Choose, Wake("disk")];
    assert race[1..] == [Wake("disk")];
    var order := After(BLOCKED.ring, 0);
    assert order == [1, 2, 0] && order[1..] == [2, 0];
    assert Step(BLOCKED, Choose) == BLOCKED.(next := Some(2));
    assert [1][1..] == [];
  }

  lemma WokenIsBehind()
    ensures WellFormed(WOKEN) && Runnable(WOKEN, 1) && RightBehind(WOKEN, 1)
  {
    hide WellFormed;
    BlockedIsWellFormed();
    WokenAfterTheChoice();
    AlwaysWellFormed(BLOCKED, [Choose, Wake("disk")]);
    assert After(WOKEN.ring, 0) == [1, 2, 0];
  }

  /** Two switches then pass process 1 over in the ring of three. */
  lemma WokenIsPassedOver()
    ensures var run := [Switch, Choose, Switch];
      Legal(WOKEN, run) && Switches(run) == 2 && PassedOver(WOKEN, run, 1)
  {
    var run: seq<Event<int, string>> := [Switch, Choose, Switch];
    assert run[1..] == [Choose, Switch] && run[1..][1..] == [Switch];
    assert After(WOKEN.ring, 2) == [0, 1, 2];
  }

  /** After an exit the scheduler goes on as if the exiting process had yielded and been skipped for ever. */
  lemma ExitKeepsRoundRobin<P, Q>(s: Sched<P, Q>)
    requires WellFormed(s) && Enabled(s, Exit)
    ensures var s' := Step(s, Exit);
      && s'.current in s'.ring
      && After(s'.ring, s'.current) == After(s.ring, s.current)[..|s.ring| - 1]
      && Chosen(s') == FirstUnblocked(After(s.ring, s.current)[..|s.ring| - 1], s.on)
  {
    AfterExit(s.ring, s.current);
  }

  // ----- the polling of ProcReschedule -----

  function WakeIfAny<P(==), Q(==)>(s: Sched<P, Q>, q: Q): Sched<P, Q> {
    if Enabled(s, Wake(q)) then Step(s, Wake(q)) else s
  }

  /** What interrupts do in one window: for each named queue, wake its head if there is one. */
  function WakeAll<P(==), Q(==)>(s: Sched<P, Q>, window: seq<Q>): Sched<P, Q>
    decreases |window|
  {
    if window == [] then s
    else WakeAll(WakeIfAny(s, window[0]), window[1..])
  }

  /** The tries of one round, each after a window in which interrupts may have come in. */
  function Polled<P(==), Q(==)>(s: Sched<P, Q>, windows: seq<seq<Q>>): (r: Sched<P, Q>)
    requires s.current in s.ring
    ensures r.ring == s.ring && r.current == s.current && r.exiting == s.exiting
    decreases |windows|
  {
    if windows == [] then s
    else
      var woken := WakeAll(s, windows[0]);
      WakeAllFrame(s, windows[0]);
      Polled(Step(woken, Choose), windows[1..])
  }

  /** Rounds of tries until one ends with a choice; without one the processor stays halted. */
  function Rescheduled<P(==), Q(==)>(s: Sched<P, Q>, rounds: seq<seq<seq<Q>>>): Sched<P, Q>
    requires s.current in s.ring
    decreases |rounds|
  {
    if rounds == [] then s
    else
      var polled := Polled(s, rounds[0]);
      if polled.next.Some? then polled else Rescheduled(polled, rounds[1..])
  }

  lemma {:induction false} WakeAllFrame<P, Q>(s: Sched<P, Q>, window: seq<Q>)
    ensures var r := WakeAll(s, window);
      r.ring == s.ring && r.current == s.current && r.exiting == s.exiting && r.next == s.next
    ensures forall p :: p in WakeAll(s, window).on ==> p in s.on
    decreases |window|
  {
    if window != [] {
      WakeAllFrame(WakeIfAny(s, window[0]), window[1..]);
    }
  }

  /** A choice left over from before plays no part: the first try overwrites it. */
  lemma {:induction false} WakeAllKeepsChoice<P, Q>(s: Sched<P, Q>, window: seq<Q>, left: Option<P>)
    ensures WakeAll(s.(next := left), window) == WakeAll(s, window).(next := left)
    decreases |window|
  {
    if window != [] {
      WakeAllKeepsChoice(WakeIfAny(s, window[0]), window[1..], left);
    }
  }

  lemma OldChoiceIsForgotten<P, Q>(s: Sched<P, Q>, rounds: seq<seq<seq<Q>>>, left: Option<P>)
    requires s.current in s.ring && rounds != [] && rounds[0] != []
    ensures Rescheduled(s.(next := left), rounds) == Rescheduled(s, rounds)
  {
    WakeAllKeepsChoice(s, rounds[0][0], left);
    WakeAllFrame(s, rounds[0][0]);
  }

  /** Rescheduling keeps the ring, the running process and everything that makes a state well formed. */
  lemma RescheduledKeeps<P, Q>(s: Sched<P, Q>, rounds: seq<seq<seq<Q>>>)
    requires WellFormed(s)
    ensures var r := Rescheduled(s, rounds);
      WellFormed(r) && r.ring == s.ring && r.current == s.current && r.exiting == s.exiting
  {
    var events := RescheduledIsRun(s, rounds);
    AlwaysWellFormed(s, events);
    RescheduledFrame(s, rounds);
  }

  lemma {:induction false} RescheduledFrame<P, Q>(s: Sched<P, Q>, rounds: seq<seq<seq<Q>>>)
    requires s.current in s.ring
    ensures var r := Rescheduled(s, rounds);
      r.ring == s.ring && r.current == s.current && r.exiting == s.exiting
    decreases |rounds|
  {
    if rounds != [] && Polled(s, rounds[0]).next.None? {
      RescheduledFrame(Polled(s, rounds[0]), rounds[1..]);
    }
  }

  /** Nothing happens while a process is rescheduled except wake-ups and choices. */
  ghost predicate OnlyWakesAndChoices<P, Q>(events: seq<Event<P, Q>>) {
    forall e :: e in events ==> e.Wake? || e.Choose?
  }

  lemma {:induction false} RunAppend<P, Q>(s: Sched<P, Q>, first: seq<Event<P, Q>>, second: seq<Event<P, Q>>)
    requires Legal(s, first) && Legal(Run(s, first), second)
    ensures Legal(s, first + second) && Run(s, first + second) == Run(Run(s, first), second)
    decreases |first|
  {
    hide Step, Enabled;
    if first == [] {
      assert first + second == second;
    } else {
      RunAppend(Step(s, first[0]), first[1..], second);
      assert (first + second)[1..] == first[1..] + second;
    }
  }

  lemma {:induction false} WakeAllIsRun<P, Q>(s: Sched<P, Q>, window: seq<Q>) returns (events: seq<Event<P, Q>>)
    ensures Legal(s, events) && Run(s, events) == WakeAll(s, window) && OnlyWakesAndChoices(events)
    decreases |window|
  {
    if window == [] {
      events := [];
    } else if Enabled(s, Wake(window[0])) {
      var rest := WakeAllIsRun(Step(s, Wake(window[0])), window[1..]);
      events := [Wake(window[0])] + rest;
    } else {
      events := WakeAllIsRun(s, window[1..]);
    }
  }

  lemma {:induction false} PolledIsRun<P, Q>(s: Sched<P, Q>, windows: seq<seq<Q>>) returns (events: seq<Event<P, Q>>)
    requires s.current in s.ring
    ensures Legal(s, events) && Run(s, events) == Polled(s, windows) && OnlyWakesAndChoices(events)
    decreases |windows|
  {
    if windows == [] {
      events := [];
    } else {
      var woken := WakeAll(s, windows[0]);
      WakeAllFrame(s, windows[0]);
      var wakes := WakeAllIsRun(s, windows[0]);
      var rest := PolledIsRun(Step(woken, Choose), windows[1..]);
      var choose: Event<P, Q> := Choose;
      assert ([choose] + rest)[1..] == rest;
      RunAppend(s, wakes, [choose] + rest);
      events := wakes + ([choose] + rest);
    }
  }

  /** Rescheduling is a run of the protocol, so everything proved about runs holds of it. */
  lemma {:induction false} RescheduledIsRun<P, Q>(s: Sched<P, Q>, rounds: seq<seq<seq<Q>>>) returns (events: seq<Event<P, Q>>)
    requires s.current in s.ring
    ensures Legal(s, events) && Run(s, events) == Rescheduled(s, rounds) && OnlyWakesAndChoices(events)
    decreases |rounds|
  {
    if rounds == [] {
      events := [];
    } else {
      events := PolledIsRun(s, rounds[0]);
      var polled := Polled(s, rounds[0]);
      if polled.next.None? {
        var rest := RescheduledIsRun(polled, rounds[1..]);
        RunAppend(s, events, rest);
        events := events + rest;
      }
    }
  }

  /** The last try of a round decides, on the wake-ups seen by then. */
  lemma {:induction false} LastTryDecides<P, Q>(s: Sched<P, Q>, windows: seq<seq<Q>>)
    requires s.current in s.ring && windows != []
    ensures Polled(s, windows).next == Chosen(Polled(s, windows))
    ensures forall p :: p in Polled(s, windows).on ==> p in s.on
    decreases |windows|
  {
    var woken := WakeAll(s, windows[0]);
    WakeAllFrame(s, windows[0]);
    if |windows| > 1 {
      LastTryDecides(Step(woken, Choose), windows[1..]);
    }
  }

  /**
   A round with an unblocked process in the ring ends the waiting, and the choice is the first
   process in round-robin order that is unblocked at the end; wake-ups during the polling never
   take back a choice, they can only bring it nearer.
   */
  lemma RoundSettles<P, Q>(s: Sched<P, Q>, rounds: seq<seq<seq<Q>>>)
    requires s.current in s.ring && rounds != [] && rounds[0] != []
    requires Chosen(s).Some?
    ensures var r := Rescheduled(s, rounds);
      && r.current == s.current && r.ring == s.ring
      && r.next == Chosen(r) && r.next.Some? && r.next.value !in r.on
      && Distance(s.ring, s.current, r.next.value) <= Distance(s.ring, s.current, Chosen(s).value)
  {
    LastTryDecides(s, rounds[0]);
    var order := After(s.ring, s.current);
    WakingIsMonotone(order, s.on, Polled(s, rounds[0]).on);
    FirstUnblockedIs(order, Polled(s, rounds[0]).on);
  }

  lemma {:induction false} SettledIsChosen<P, Q>(s: Sched<P, Q>, rounds: seq<seq<seq<Q>>>)
    requires s.current in s.ring && rounds != [] && forall i :: 0 <= i < |rounds| ==> rounds[i] != []
    ensures var r := Rescheduled(s, rounds);
      r.current in r.ring && r.next == Chosen(r)
    decreases |rounds|
  {
    LastTryDecides(s, rounds[0]);
    if Polled(s, rounds[0]).next.None? && |rounds| > 1 {
      SettledIsChosen(Polled(s, rounds[0]), rounds[1..]);
    }
  }

  /** Where the rescheduling of an exit leaves things, just before the last switch away. */
  ghost function RescheduledAfterExit<P, Q>(s: Sched<P, Q>, rounds: seq<seq<seq<Q>>>): Sched<P, Q>
    requires WellFormed(s) && Enabled(s, Exit)
  {
    ExitKeeps(s);
    Rescheduled(Exited(s), rounds)
  }

  /**
   After an exit the next process to run is the first one behind the exiting process, in the ring
   it was part of, that is unblocked by then.
   */
  lemma ExitGoesOnBehind<P, Q>(s: Sched<P, Q>, rounds: seq<seq<seq<Q>>>)
    requires WellFormed(s) && Enabled(s, Exit)
    requires rounds != [] && forall i :: 0 <= i < |rounds| ==> rounds[i] != []
    ensures var r := RescheduledAfterExit(s, rounds);
      r.next == FirstUnblocked(After(s.ring, s.current)[..|s.ring| - 1], r.on)
  {
    ExitKeepsRoundRobin(s);
    SettledIsChosen(Exited(s), rounds);
    RescheduledFrame(Exited(s), rounds);
  }
}
