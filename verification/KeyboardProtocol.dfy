/** Readers and keys: a bounded buffer coupled to wake-ups. */
module KeyboardProtocol {
  import opened Prelude

  const KEYBOARD_BUFFER_SIZE := 256

  type Pid = int

  /**
   `woken` readers have been unblocked and not yet taken their character. `accepted` and
   `delivered` are the history of characters in and out.
   */
  datatype State = State(buffered: seq<char>, waiting: seq<Pid>, woken: set<Pid>, accepted: seq<char>, delivered: seq<char>)

  const INITIAL := State([], [], {}, [], [])

  datatype Event =
    | Key(input: char)
    | Read(p: Pid)
    | Serve(p: Pid)

  predicate Enabled(s: State, e: Event) {
    match e
    case Key(_) => true
    case Read(p) => p !in s.waiting && p !in s.woken
    case Serve(p) => p in s.woken
  }

  /** The character is buffered: it is not the null of an unmapped key, and the buffer has room. */
  predicate Accepts(s: State, input: char) {
    input != '\0' && |s.buffered| < KEYBOARD_BUFFER_SIZE - 1
  }

  function HandleKey(s: State, input: char): State {
    if !Accepts(s, input) then s
    else
      var s' := s.(buffered := s.buffered + [input], accepted := s.accepted + [input]);
      if s.waiting == [] then s' else s'.(waiting := s.waiting[1..], woken := s.woken + {s.waiting[0]})
  }

  function Step(s: State, e: Event): State {
    match e
    case Key(input) => HandleKey(s, input)
    case Read(p) => s.(waiting := s.waiting + [p])
    case Serve(p) =>
      if s.buffered == [] then s.(woken := s.woken - {p})
      else s.(buffered := s.buffered[1..], delivered := s.delivered + [s.buffered[0]], woken := s.woken - {p})
  }

  ghost predicate Legal(s: State, events: seq<Event>)
    decreases |events|
  {
    events == [] || (Enabled(s, events[0]) && Legal(Step(s, events[0]), events[1..]))
  }

  function Run(s: State, events: seq<Event>): State
    decreases |events|
  {
    if events == [] then s else Run(Step(s, events[0]), events[1..])
  }

  /** Never more readers on their way than characters for them, and no character lost, reordered or null. */
  ghost predicate Safe(s: State) {
    && |s.woken| <= |s.buffered| < KEYBOARD_BUFFER_SIZE
    && s.accepted == s.delivered + s.buffered && '\0' !in s.accepted
    && Distinct(s.waiting) && (forall p :: p in s.waiting ==> p !in s.woken)
  }

  /** Characters that no woken reader will take. */
  function Surplus(s: State): int {
    |s.buffered| - |s.woken|
  }

  lemma StepKeepsSafe(s: State, e: Event)
    requires Safe(s) && Enabled(s, e)
    ensures Safe(Step(s, e))
    ensures Surplus(Step(s, e)) == Surplus(s) + (if e.Key? && Accepts(s, e.input) && s.waiting == [] then 1 else 0)
  {
    match e {
      case Key(input) =>
        if Accepts(s, input) && s.waiting != [] {
          var first := s.waiting[0];
          assert first in s.waiting && first !in s.woken;
          assert forall p :: p in s.waiting[1..] ==> p in s.waiting;
        }
      case Read(p) =>
      case Serve(p) =>
        assert s.buffered == [s.buffered[0]] + s.buffered[1..];
    }
  }

  /** Main result: in every run a reader that is served finds a character, and characters come out in the order they came in. */
  lemma {:induction false} AlwaysSafe(s: State, events: seq<Event>)
    requires Safe(s) && Legal(s, events)
    ensures Safe(Run(s, events))
    ensures Surplus(s) <= Surplus(Run(s, events))
    decreases |events|
  {
    if events != [] {
      StepKeepsSafe(s, events[0]);
      AlwaysSafe(Step(s, events[0]), events[1..]);
    }
  }

  /** A woken reader finds a character. */
  lemma ServedHasCharacter(s: State, p: Pid)
    requires Safe(s) && p in s.woken
    ensures s.buffered != [] && s.buffered[0] != '\0'
  {
    assert s.woken != {};
    assert s.buffered != [] ==> s.buffered[0] in s.accepted;
  }

  lemma NeverServedFromEmptyBuffer(events: seq<Event>, p: Pid)
    requires Legal(INITIAL, events) && Enabled(Run(INITIAL, events), Serve(p))
    ensures Run(INITIAL, events).buffered != [] && Run(INITIAL, events).buffered[0] != '\0'
    ensures Run(INITIAL, events).accepted == Run(INITIAL, events).delivered + Run(INITIAL, events).buffered
  {
    AlwaysSafe(INITIAL, events);
    ServedHasCharacter(Run(INITIAL, events), p);
  }

  /** How many characters a run has put into the buffer. */
  function AcceptedIn(s: State, events: seq<Event>): int {
    |Run(s, events).accepted| - |s.accepted|
  }

  /** An accepted key wakes the first waiter and moves up the others; nothing else moves anybody. */
  lemma WaiterMoves(s: State, e: Event, i: nat)
    requires Safe(s) && Enabled(s, e) && i < |s.waiting|
    ensures var s' := Step(s, e);
      if !(e.Key? && Accepts(s, e.input)) then
        s'.accepted == s.accepted && i < |s'.waiting| && s'.waiting[i] == s.waiting[i]
      else
        && |s'.accepted| == |s.accepted| + 1
        && if i > 0 then i - 1 < |s'.waiting| && s'.waiting[i - 1] == s.waiting[i]
           else s.waiting[0] !in s'.waiting && s.waiting[0] in s'.woken
  {}

  /**
   First come, first served, in every run: while no more than `i` keys have been accepted the i-th
   waiter is waiting, that much farther in front, and with the next one it is woken.
   */
  lemma {:induction false} WokenInOrder(s: State, events: seq<Event>, i: nat, p: Pid)
    requires Safe(s) && Legal(s, events) && i < |s.waiting| && p == s.waiting[i] && Serve(p) !in events
    ensures var s', keys := Run(s, events), AcceptedIn(s, events);
      if keys <= i then 0 <= i - keys < |s'.waiting| && s'.waiting[i - keys] == p
      else p in s'.woken && p !in s'.waiting
    decreases |events|
  {
    hide Step, Enabled;
    if events != [] {
      var s1 := Step(s, events[0]);
      StepKeepsSafe(s, events[0]);
      WaiterMoves(s, events[0], i);
      if !(events[0].Key? && Accepts(s, events[0].input)) {
        WokenInOrder(s1, events[1..], i, p);
      } else if i > 0 {
        WokenInOrder(s1, events[1..], i - 1, p);
      } else {
        StaysWoken(s1, events[1..], p);
      }
    }
  }

  lemma {:induction false} StaysWoken(s: State, events: seq<Event>, p: Pid)
    requires Safe(s) && Legal(s, events) && p in s.woken && Serve(p) !in events
    ensures p in Run(s, events).woken && p !in Run(s, events).waiting && AcceptedIn(s, events) >= 0
    decreases |events|
  {
    if events != [] {
      assert events[0] in events;
      StepKeepsSafe(s, events[0]);
      StaysWoken(Step(s, events[0]), events[1..], p);
    }
  }

  /**
   A reader always blocks first, so surplus characters are never taken, and once they fill the
   buffer the keyboard is dead: whatever happens, nothing is delivered and nobody is woken again.
   */
  lemma {:induction false} FullSurplusIsDead(s: State, events: seq<Event>)
    requires Safe(s) && Surplus(s) == KEYBOARD_BUFFER_SIZE - 1 && Legal(s, events)
    ensures Run(s, events).delivered == s.delivered && Run(s, events).buffered == s.buffered
    ensures Run(s, events).woken == {}
    decreases |events|
  {
    assert s.woken == {};
    if events != [] {
      StepKeepsSafe(s, events[0]);
      FullSurplusIsDead(Step(s, events[0]), events[1..]);
    }
  }

  /** Some continuation delivers a character. */
  ghost predicate CanDeliver(s: State) {
    exists events :: Legal(s, events) && Run(s, events).delivered != s.delivered
  }

  /** A woken reader takes the oldest character. */
  lemma ServeDelivers(s: State, p: Pid)
    requires Safe(s) && p in s.woken
    ensures CanDeliver(s)
  {
    assert s.woken != {};
    var events := [Serve(p)];
    assert Legal(Step(s, Serve(p)), []) && events[1..] == [];
    assert Legal(s, events) && Run(s, events) == Step(s, Serve(p));
    assert |Run(s, events).delivered| == |s.delivered| + 1;
  }

  /** What can be delivered after a step that delivers nothing can be delivered. */
  lemma DeliversLater(s: State, e: Event)
    requires Enabled(s, e) && Step(s, e).delivered == s.delivered && CanDeliver(Step(s, e))
    ensures CanDeliver(s)
  {
    var rest :| Legal(Step(s, e), rest) && Run(Step(s, e), rest).delivered != s.delivered;
    assert ([e] + rest)[1..] == rest;
    assert Legal(s, [e] + rest) && Run(s, [e] + rest) == Run(Step(s, e), rest);
  }

  /** With a waiter and room, a key wakes somebody. */
  lemma KeyDelivers(s: State)
    requires Safe(s) && s.woken == {} && s.waiting != [] && Surplus(s) < KEYBOARD_BUFFER_SIZE - 1
    ensures CanDeliver(s)
  {
    StepKeepsSafe(s, Key('a'));
    ServeDelivers(Step(s, Key('a')), s.waiting[0]);
    DeliversLater(s, Key('a'));
  }

  /** A process that is no reader yet. */
  lemma SomebodyElse(s: State) returns (p: Pid)
    ensures p !in s.waiting && p !in s.woken
  {
    var readers := Elements(s.waiting) + s.woken;
    p := Above(readers);
    assert p in s.waiting ==> p in readers;
    assert p in s.woken ==> p in readers;
  }

  lemma {:induction false} Above(readers: set<Pid>) returns (p: Pid)
    ensures forall q :: q in readers ==> q < p
    decreases |readers|
  {
    if readers != {} {
      var q := Member(readers);
      var r := Above(readers - {q});
      p := if q < r then r else q + 1;
      assert forall x :: x in readers ==> x == q || x in readers - {q};
    } else {
      p := 0;
    }
  }

  /**
   Exactly when the keyboard is dead: some run delivers a character if and only if the surplus
   does not fill the buffer.
   */
  lemma DeliversIff(s: State)
    requires Safe(s)
    ensures CanDeliver(s) <==> Surplus(s) < KEYBOARD_BUFFER_SIZE - 1
  {
    if Surplus(s) == KEYBOARD_BUFFER_SIZE - 1 {
      forall events | Legal(s, events) ensures Run(s, events).delivered == s.delivered {
        FullSurplusIsDead(s, events);
      }
    } else if s.woken != {} {
      var p := Member(s.woken);
      ServeDelivers(s, p);
    } else if s.waiting != [] {
      KeyDelivers(s);
    } else {
      var p := SomebodyElse(s);
      StepKeepsSafe(s, Read(p));
      KeyDelivers(Step(s, Read(p)));
      DeliversLater(s, Read(p));
    }
  }

  /** Such a state is reachable: 255 keys with nobody reading. */
  lemma DeadStateIsReachable()
    ensures exists events :: Legal(INITIAL, events) && Surplus(Run(INITIAL, events)) == KEYBOARD_BUFFER_SIZE - 1
  {
    var events := Keys(KEYBOARD_BUFFER_SIZE - 1);
    KeysFill(INITIAL, KEYBOARD_BUFFER_SIZE - 1);
    assert Legal(INITIAL, events) && Surplus(Run(INITIAL, events)) == KEYBOARD_BUFFER_SIZE - 1;
  }

  function Keys(n: nat): seq<Event> {
    if n == 0 then [] else [Key('a')] + Keys(n - 1)
  }

  lemma {:induction false} KeysFill(s: State, n: nat)
    requires s.waiting == [] && |s.buffered| + n < KEYBOARD_BUFFER_SIZE
    ensures Legal(s, Keys(n)) && Surplus(Run(s, Keys(n))) == Surplus(s) + n
    decreases n
  {
    if n > 0 {
      var s1 := Step(s, Key('a'));
      assert Keys(n)[0] == Key('a') && Keys(n)[1..] == Keys(n - 1);
      KeysFill(s1, n - 1);
    }
  }
}
