/** The process system of proc.cc: the ring of processes, blocking, waking and context switches. */
module Proc {
  import opened Prelude
  import opened Context
  import opened List
  import opened SchedProtocol
  import opened WaitQueues
  import opened ProcState

  const INTERRUPT_ENABLE_BIT := 512
  const KERNEL_CS := 8
  const TRIES := 30
  const ZEROED := Registers(0, 0, 0, 0, 0, 0, 0, 0, 0, 0, 0, 0, 0, 0, 0, 0, 0, 0, 0, 0)

  /** The registers a kernel thread is created with. */
  function KernelThread(entryPoint: int, arg: int, stack: int): Registers {
    ZEROED.(rip := entryPoint, cs := KERNEL_CS, rsp := stack, ss := 0, rflags := INTERRUPT_ENABLE_BIT, rdi := arg)
  }

  /**
   A new thread's first run: whatever ran before, the frame its first switch resumes on has the
   entry point in slot 16, the argument in slot 15, the stack in slot 19, the kernel's code
   segment in slot 17, only the interrupt flag in slot 18, and zeros in all other registers.
   */
  lemma ThreadStarts<P>(m: Machine<P>, run: seq<Yielded<P>>, last: Yielded<P>, entryPoint: int, arg: int, stack: int)
    requires last.next in m.contexts && m.contexts[last.next] == KernelThread(entryPoint, arg, stack)
    requires forall i :: 0 <= i <= |run| ==> Runner(m, run, i) != last.next
    ensures last.next in AfterYields(m, run).contexts
    ensures var f := ResumedFrame(AfterYields(m, run), last);
      && |f| == FRAME_SLOTS && f[16] == entryPoint && f[15] == arg && f[19] == stack && f[17] == 8
      && f[18] == 0x200 && f[20] == 0 && f[0] == last.link && forall i :: 1 <= i <= 14 ==> f[i] == 0
  {
    hide ResumedFrame, TrapFrame;
    StartsAsCreated(m, run, last);
    FrameSlots(m.contexts[last.next], last.link);
  }

  /**
   A copy's first run resumes on the frame of its creator's trap, but for the new instruction
   pointer in slot 16 and the nested link of the present trap.
   */
  lemma CopyStarts<P>(m: Machine<P>, run: seq<Yielded<P>>, last: Yielded<P>, frame: seq<int>, newRip: int)
    requires |frame| == FRAME_SLOTS
    requires last.next in m.contexts && m.contexts[last.next] == Saved(frame).(rip := newRip)
    requires forall i :: 0 <= i <= |run| ==> Runner(m, run, i) != last.next
    ensures last.next in AfterYields(m, run).contexts
    ensures ResumedFrame(AfterYields(m, run), last) == frame[0 := last.link][16 := newRip]
  {
    hide ResumedFrame, TrapFrame;
    StartsAsCreated(m, run, last);
    FrameSlots(m.contexts[last.next], last.link);
  }

  class Scheduler {
    const procList: List<ProcContext>
    var currentProc: ProcContext?
    var nextProc: ProcContext?
    var mainProc: ProcContext?
    var isProcRunning: bool
    var newProcId: nat
    /** The address of ProcExit, and the words stored on the stacks of new processes. */
    const procExit: int
    var stackWords: map<int, int>
    /** The contents of every initialised wait queue, and the queue each blocked process is on. */
    ghost var queues: map<ProcQueue, seq<ProcContext>>
    ghost var on: map<ProcContext, ProcQueue>
    ghost var exiting: bool

    ghost function Procs(): set<ProcContext>
      reads procList
    {
      set p | p in procList.contents
    }

    /** Interrupts as far as a rescheduling waits for them: rounds of tries, all on initialised queues. */
    ghost predicate Known(rounds: seq<seq<seq<ProcQueue>>>)
      reads this`queues
    {
      forall i :: 0 <= i < |rounds| ==> |rounds[i]| == TRIES && KnownRound(rounds[i], queues.Keys)
    }

    ghost predicate Valid()
      reads this`queues, this`on, procList, procList.spine
      reads queues.Keys`head, Procs()`blockedNext, Procs()`isBlocked
    {
      && procList.Valid() && Distinct(procList.contents)
      && Consistent(Pointers(queues.Keys, Procs()), queues, on)
    }

    ghost function Abs(): Sched<ProcContext, ProcQueue>
      requires currentProc != null
      reads this, procList
    {
      var current: ProcContext := currentProc;
      Sched(procList.contents, current, queues, on, Opt(nextProc), exiting)
    }

    /** The saved registers of every process in the ring. */
    ghost function Saves(): map<ProcContext, Registers>
      reads procList, Procs()`registers
    {
      Contexts(Procs())
    }

    constructor (procExit: int)
      ensures this.procExit == procExit && stackWords == map[]
      ensures Valid() && procList.contents == [] && currentProc == null && nextProc == null && !isProcRunning
      ensures newProcId == 1 && fresh(procList) && fresh(procList.spine) && queues == map[] && on == map[]
    {
      procList := new List();
      currentProc, nextProc, mainProc := null, null, null;
      isProcRunning, newProcId := false, 1;
      this.procExit := procExit;
      stackWords := map[];
      queues, on, exiting := map[], map[], false;
    }

    method ProcInitQueue(queue: ProcQueue)
      requires Valid() && queue !in queues
      modifies this`queues, queue
      ensures Valid() && queues == old(queues)[queue := []] && Saves() == old(Saves())
    {
      hide Consistent, Distinct, procList.Valid, Pointers, Contexts;
      InitQueueKeeps(Pointers(queues.Keys, Procs()), queues, on, queue);
      InitQueue(queue, queues.Keys, Procs());
      queues := queues[queue := []];
      assert queues.Keys == old(queues).Keys + {queue};
    }

    // ----- waking -----

    method ProcUnblockHead(queue: ProcQueue) returns (removed: bool)
      requires Valid() && queue in queues
      modifies this`queues, this`on, queue`head, Procs()`blockedNext, Procs()`isBlocked
      ensures Valid() && Saves() == old(Saves())
      ensures removed <==> old(queues)[queue] != []
      ensures removed ==> queues == old(queues)[queue := old(queues)[queue][1..]]
      ensures removed ==> on == old(on) - {old(queues)[queue][0]}
      ensures !removed ==> queues == old(queues) && on == old(on)
    {
      hide Consistent, Distinct, procList.Valid, Pointers, Contexts;
      HeadPointer(queue, queues, on, Procs());
      ghost var p;
      removed, p := PopHead(queue, queues.Keys, Procs());
      if removed {
        UnlinkHeadKeeps(old(Pointers(queues.Keys, Procs())), queues, on, queue);
        assert queues.Keys == queues[queue := queues[queue][1..]].Keys;
        queues := queues[queue := queues[queue][1..]];
        on := on - {p};
      }
    }

    method ProcUnblockAll(queue: ProcQueue)
      requires Valid() && queue in queues
      modifies this`queues, this`on, queue`head, Procs()`blockedNext, Procs()`isBlocked
      ensures Valid() && Saves() == old(Saves())
      ensures queues == old(queues)[queue := []] && on == old(on) - Elements(old(queues)[queue])
    {
      hide Distinct, procList.Valid, Pointers, Contexts, Consistent, Elements;
      NoElements<ProcContext>();
      var removed := true;
      ghost var gone: seq<ProcContext> := [];
      while removed
        invariant Valid() && Saves() == old(Saves()) && queue in queues
        invariant queues == old(queues)[queue := queues[queue]] && gone + queues[queue] == old(queues)[queue]
        invariant on == old(on) - Elements(gone)
        invariant !removed ==> queues[queue] == []
        decreases |queues[queue]|, removed
      {
        ghost var s := queues[queue];
        removed := ProcUnblockHead(queue);
        if removed {
          TakeFirst(gone, s);
          gone := gone + [s[0]];
        }
      }
      assert gone + [] == gone;
    }

    /** An interrupt handler wakes the head of a queue, if there is one. */
    method Interrupt(queue: ProcQueue)
      requires Valid() && currentProc != null && queue in queues
      modifies this`queues, this`on, queue`head, Procs()`blockedNext, Procs()`isBlocked
      ensures Valid() && Saves() == old(Saves()) && queues.Keys == old(queues).Keys
      ensures Abs() == WakeIfAny(old(Abs()), queue)
    {
      hide Consistent, Distinct, procList.Valid, Pointers, Contexts;
      var removed := ProcUnblockHead(queue);
    }

    /** A window in which interrupts may come in: handlers wake the heads of these queues. */
    method Interrupts(window: seq<ProcQueue>)
      requires Valid() && currentProc != null && KnownWindow(window, queues.Keys)
      modifies this`queues, this`on, queues.Keys`head, Procs()`blockedNext, Procs()`isBlocked
      ensures Valid() && Saves() == old(Saves()) && queues.Keys == old(queues).Keys
      ensures Abs() == WakeAll(old(Abs()), window)
    {
      hide Consistent, Distinct, procList.Valid, Pointers, Contexts, WakeIfAny;
      var i := 0;
      while i < |window|
        invariant 0 <= i <= |window|
        invariant Valid() && Saves() == old(Saves()) && queues.Keys == old(queues).Keys
        invariant WakeAll(Abs(), window[i..]) == WakeAll(old(Abs()), window)
      {
        assert window[i..][0] == window[i] && window[i..][1..] == window[i + 1..];
        Interrupt(window[i]);
        i := i + 1;
      }
    }

    // ----- choosing -----

    /** Null when there is nothing to choose from or everything is blocked. */
    method GetNextUnblockedProc() returns (r: ProcContext?)
      requires Valid() && (currentProc != null && procList.contents != [] ==> currentProc in procList.contents)
      ensures r == null <== currentProc == null || procList.contents == []
      ensures currentProc != null && procList.contents != [] ==> Opt(r) == Chosen(Abs())
    {
      hide Consistent, Distinct, procList.Valid, Pointers, Contexts, AtOrder, OpenFrom, Next;
      var empty := procList.IsEmpty();
      if currentProc == null || empty {
        return null;
      }
      var proc: ProcContext := currentProc;
      ghost var ring, c, k := procList.contents, proc, 0;
      WalkStarts(ring, c, on);
      while true
        invariant 0 <= k < |ring| && proc in ring
        invariant AtOrder(ring, c, k, Next(ring, proc)) && OpenFrom(ring, c, on, k)
        decreases |ring| - k
      {
        proc := procList.GetNext(proc);
        WalkGoesOn(ring, c, on, k, proc);
        BlockedField(proc, queues, on, Procs());
        if !proc.isBlocked {
          return proc;
        }
        if proc == currentProc {
          return null;
        }
        k := k + 1;
      }
    }

    /** A try, after a window in which interrupts may come in. */
    method TryOnce(window: seq<ProcQueue>, ghost s: Sched<ProcContext, ProcQueue>)
      requires Valid() && currentProc != null && s == Abs() && s.current in s.ring && KnownWindow(window, queues.Keys)
      modifies this`nextProc, this`queues, this`on, queues.Keys`head, Procs()`blockedNext, Procs()`isBlocked
      ensures Valid() && Saves() == old(Saves()) && queues.Keys == old(queues).Keys
      ensures Abs() == Try(s, window)
    {
      hide Consistent, Distinct, procList.Valid, Pointers, Contexts, WakeAll, Chosen;
      WakeAllFrame(s, window);
      Interrupts(window);
      nextProc := GetNextUnblockedProc();
    }

    /** One round of tries. */
    method Poll(round: seq<seq<ProcQueue>>, ghost s: Sched<ProcContext, ProcQueue>)
      requires Valid() && currentProc != null && s == Abs() && s.current in s.ring && KnownRound(round, queues.Keys)
      modifies this`nextProc, this`queues, this`on, queues.Keys`head, Procs()`blockedNext, Procs()`isBlocked
      ensures Valid() && Saves() == old(Saves()) && queues.Keys == old(queues).Keys
      ensures Abs() == Polled(s, round)
    {
      hide Consistent, Distinct, procList.Valid, Pointers, Contexts, Polled, Try;
      PolledStarts(s, round);
      var i := 0;
      while i < |round|
        invariant 0 <= i <= |round|
        invariant Valid() && Saves() == old(Saves()) && queues.Keys == old(queues).Keys
        invariant Abs().current in Abs().ring && Polled(Abs(), round[i..]) == Polled(s, round)
      {
        PolledGoesOn(Abs(), round, i);
        TryOnce(round[i], Abs());
        i := i + 1;
      }
      assert round[i..] == [];
      PolledEnds<ProcContext, ProcQueue>(Abs());
    }

    /**
     Sets nextProc. `rounds` is what the interrupts do meanwhile; when it runs out before a
     process is runnable, the processor is still halted and nextProc is null.
     */
    method ProcReschedule(rounds: seq<seq<seq<ProcQueue>>>)
      requires Valid() && (currentProc != null && procList.contents != [] ==> currentProc in procList.contents)
      requires Known(rounds)
      modifies this`nextProc, this`queues, this`on, queues.Keys`head, Procs()`blockedNext, Procs()`isBlocked
      ensures Valid() && Saves() == old(Saves()) && queues.Keys == old(queues).Keys
      ensures currentProc != null && procList.contents != [] ==> Abs() == Rescheduled(old(Abs()), rounds)
      ensures currentProc == null || procList.contents == [] ==> nextProc == old(nextProc) && queues == old(queues) && on == old(on)
    {
      hide Consistent, Distinct, procList.Valid, Pointers, Contexts, Polled, KnownRound;
      var empty := procList.IsEmpty();
      if currentProc == null || empty {
        return;
      }
      var j := 0;
      while j < |rounds|
        invariant 0 <= j <= |rounds|
        invariant Valid() && Saves() == old(Saves()) && queues.Keys == old(queues).Keys
        invariant Rescheduled(Abs(), rounds[j..]) == Rescheduled(old(Abs()), rounds)
      {
        assert rounds[j..][0] == rounds[j] && rounds[j..][1..] == rounds[j + 1..];
        Poll(rounds[j], Abs());
        if nextProc != null {
          return;
        }
        j := j + 1;
      }
    }

    // ----- context switches -----

    ghost function Machine(): Machine<ProcContext>
      requires currentProc != null
      reads this, procList, Procs()`registers
    {
      var running: ProcContext := currentProc;
      Context.Machine(running, Saves())
    }

    /** Reads the trap frame, slot by slot. */
    method SaveState(proc: ProcContext, frame: array<int>, ghost procs: set<ProcContext>)
      requires frame.Length == FRAME_SLOTS
      modifies proc`registers
      ensures proc.registers == Saved(frame[..])
      ensures Contexts(procs + {proc}) == old(Contexts(procs))[proc := Saved(frame[..])]
    {
      var r := Registers(
        rbp := frame[1], r15 := frame[2], r14 := frame[3], r13 := frame[4], r12 := frame[5],
        r11 := frame[6], r10 := frame[7], r9 := frame[8], r8 := frame[9], rsi := frame[10],
        rdx := frame[11], rcx := frame[12], rbx := frame[13], rax := frame[14], rdi := frame[15],
        rip := frame[16], cs := frame[17], rflags := frame[18], rsp := frame[19], ss := frame[20]);
      proc.SetRegisters(r, procs);
    }

    /** Overwrites the trap frame, slot by slot; slot 0 stays. */
    method RestoreState(proc: ProcContext, frame: array<int>)
      requires frame.Length == FRAME_SLOTS
      modifies frame
      ensures frame[..] == Restored(old(frame[..]), proc.registers)
    {
      var r := proc.registers;
      frame[1], frame[2], frame[3], frame[4], frame[5] := r.rbp, r.r15, r.r14, r.r13, r.r12;
      frame[6], frame[7], frame[8], frame[9], frame[10] := r.r11, r.r10, r.r9, r.r8, r.rsi;
      frame[11], frame[12], frame[13], frame[14], frame[15] := r.rdx, r.rcx, r.rbx, r.rax, r.rdi;
      frame[16], frame[17], frame[18], frame[19], frame[20] := r.rip, r.cs, r.rflags, r.rsp, r.ss;
    }

    /** Takes up the chosen process. */
    method MoveToNext(frame: array<int>)
      requires Valid() && frame.Length == FRAME_SLOTS && nextProc != null
      modifies this`currentProc, this`nextProc, this`exiting, frame
      ensures Valid() && Saves() == old(Saves())
      ensures currentProc == old(nextProc) && currentProc != null && nextProc == null && !exiting
      ensures frame[..] == Restored(old(frame[..]), currentProc.registers)
    {
      hide Consistent, Distinct, procList.Valid, Pointers, Contexts, Saved, Restored;
      currentProc := nextProc;
      nextProc := null;
      exiting := false;
      RestoreState(currentProc, frame);
    }

    /** A yield once the next process is chosen: save, move on, restore. */
    method SwitchContext(frame: array<int>, ghost s: Sched<ProcContext, ProcQueue>, ghost m: Machine<ProcContext>, ghost y: Yielded<ProcContext>)
      requires Valid() && frame.Length == FRAME_SLOTS && currentProc != null && nextProc != null
      requires s == Abs() && s.current in s.ring && s.next.Some? && m == Machine()
      requires y == Yielded(Saved(frame[..]), frame[0], s.next.value) && y.next in m.contexts
      modifies this`currentProc, this`nextProc, this`exiting, frame, Procs()`registers
      ensures Valid() && currentProc != null && Abs() == Switched(s)
      ensures Machine() == AfterYield(m, y) && frame[..] == ResumedFrame(m, y)
    {
      hide Consistent, Distinct, procList.Valid, Pointers, Contexts, Saved, Restored, TrapFrame;
      assert currentProc in Procs() && Procs() + {currentProc} == Procs();
      ContextsDomain(Procs());
      FrameIsTrapFrame(frame[..]);
      SaveState(currentProc, frame, Procs());
      MoveToNext(frame);
      RegistersField(currentProc, Procs());
    }

    /** The trap frame is now that of the running process, and the one before is saved with its process. */
    ghost predicate Resumed(frame: array<int>, m: Machine<ProcContext>, was: seq<int>)
      requires currentProc != null && |was| == FRAME_SLOTS
      reads this, procList, Procs()`registers, frame
    {
      var y: Yielded<ProcContext> := Yielded(Saved(was), was[0], currentProc);
      && (y.next in m.contexts || y.next == m.running)
      && Machine() == AfterYield(m, y) && frame[..] == ResumedFrame(m, y)
    }

    method HandleSyscallYield(frame: array<int>)
      requires Valid() && frame.Length == FRAME_SLOTS
      requires currentProc != null && nextProc != null ==> currentProc in Procs() && nextProc in Procs()
      modifies this`currentProc, this`nextProc, this`exiting, frame, Procs()`registers
      ensures Valid()
      ensures old(currentProc == null || nextProc == null) ==>
        currentProc == old(currentProc) && nextProc == old(nextProc) && exiting == old(exiting) &&
        frame[..] == old(frame[..]) && Saves() == old(Saves())
      ensures old(currentProc != null && nextProc != null) ==>
        currentProc != null && Abs() == Switched(old(Abs()))
      ensures old(currentProc != null && nextProc != null) ==>
        Resumed(frame, old(Machine()), old(frame[..]))
    {
      hide Consistent, Distinct, procList.Valid, Pointers, Contexts, Saved, Restored, TrapFrame;
      if currentProc == null || nextProc == null {
        return;
      }
      ContextsDomain(Procs());
      SwitchContext(frame, Abs(), Machine(), Yielded(Saved(frame[..]), frame[0], Abs().next.value));
    }

    /** ProcRun and the handler of its system call: the caller's registers go to mainProc. */
    method ProcRun(frame: array<int>)
      requires Valid() && frame.Length == FRAME_SLOTS
      modifies this`currentProc, this`nextProc, this`mainProc, this`isProcRunning, frame
      ensures Valid() && Saves() == old(Saves())
      ensures procList.contents == [] ==> frame[..] == old(frame[..]) && currentProc == old(currentProc) && isProcRunning == old(isProcRunning)
      ensures procList.contents != [] ==>
        && currentProc == procList.contents[0] && nextProc == null && isProcRunning
        && mainProc != null && fresh(mainProc) && mainProc.registers == Saved(old(frame[..]))
        && frame[..] == Restored(old(frame[..]), currentProc.registers)
    {
      hide Consistent, Distinct, procList.Valid, Pointers, Contexts, Saved, Restored;
      var first := procList.GetHead();
      if first.None? {
        return;
      }
      StartFirst(first.value, frame);
    }

    method StartFirst(first: ProcContext, frame: array<int>)
      requires frame.Length == FRAME_SLOTS
      modifies this`currentProc, this`nextProc, this`mainProc, this`isProcRunning, frame
      ensures currentProc == first && nextProc == null && isProcRunning
      ensures mainProc != null && fresh(mainProc) && mainProc.registers == Saved(old(frame[..]))
      ensures frame[..] == Restored(old(frame[..]), first.registers)
    {
      hide Contexts, Saved, Restored;
      currentProc, nextProc := first, null;
      isProcRunning := true;
      mainProc := new ProcContext(ZEROED, 0);
      SaveState(mainProc, frame, {});
      RestoreState(currentProc, frame);
    }

    /** The last process is gone: the registers of the caller of ProcRun come back. */
    method RestoreMain(frame: array<int>)
      requires Valid() && frame.Length == FRAME_SLOTS && mainProc != null
      modifies this`isProcRunning, frame
      ensures Valid() && Saves() == old(Saves()) && !isProcRunning
      ensures frame[..] == Restored(old(frame[..]), mainProc.registers)
    {
      hide Consistent, Distinct, procList.Valid, Pointers, Contexts, Restored;
      isProcRunning := false;
      RestoreState(mainProc, frame);
    }

    /** The queueing half of ProcBlockOn. */
    method Enqueue(queue: ProcQueue, ghost c: ProcContext)
      requires Valid() && queue in queues && currentProc == c && c in Procs() && c !in on
      modifies this`queues, this`on, queue`head, Procs()`blockedNext, Procs()`isBlocked
      ensures Valid() && Saves() == old(Saves())
      ensures queues == old(queues)[queue := old(queues)[queue] + [c]]
      ensures on == old(on)[c := queue]
    {
      hide Consistent, Distinct, procList.Valid, Pointers, Contexts;
      HeadPointer(queue, queues, on, Procs());
      PointerDomain(queues.Keys, Procs());
      LinkLastKeeps(Pointers(queues.Keys, Procs()), queues, on, queue, c);
      Append(queue, currentProc, queues.Keys, Procs(), queues[queue]);
      assert queues.Keys == queues[queue := queues[queue] + [c]].Keys;
      queues := queues[queue := queues[queue] + [c]];
      on := on[c := queue];
    }

    /**
     ProcYield: choose, then trap. It comes back halted when the interrupts of `rounds` leave
     every process blocked.
     */
    method ProcYield(frame: array<int>, rounds: seq<seq<seq<ProcQueue>>>, ghost s: Sched<ProcContext, ProcQueue>) returns (halted: bool)
      requires Valid() && Known(rounds) && frame.Length == FRAME_SLOTS
      requires currentProc != null && s == Abs() && WellFormed(s)
      modifies this`currentProc, this`nextProc, this`exiting, this`queues, this`on, frame
      modifies queues.Keys`head, Procs()`blockedNext, Procs()`isBlocked, Procs()`registers
      ensures Valid() && queues.Keys == old(queues).Keys && currentProc != null
      ensures halted <==> Rescheduled(s, rounds).next.None?
      ensures Abs() == if halted then Rescheduled(s, rounds) else Switched(Rescheduled(s, rounds))
      ensures halted ==> Saves() == old(Saves()) && frame[..] == old(frame[..])
      ensures !halted ==> Resumed(frame, old(Machine()), old(frame[..]))
    {
      hide Consistent, Distinct, procList.Valid, Pointers, Contexts, Saved, Restored, TrapFrame, Rescheduled;
      RescheduledKeeps(s, rounds);
      ghost var m := Machine();
      ProcReschedule(rounds);
      halted := nextProc == null;
      if !halted {
        HandleSyscallYield(frame);
      }
    }

    method ProcBlockOn(queue: ProcQueue, frame: array<int>, rounds: seq<seq<seq<ProcQueue>>>, ghost s: Sched<ProcContext, ProcQueue>) returns (halted: bool)
      requires Valid() && Known(rounds) && frame.Length == FRAME_SLOTS
      requires currentProc != null && s == Abs() && WellFormed(s) && Enabled(s, SchedProtocol.Enqueue(queue))
      modifies this`currentProc, this`nextProc, this`exiting, this`queues, this`on, frame
      modifies queues.Keys`head, Procs()`blockedNext, Procs()`isBlocked, Procs()`registers
      ensures Valid() && queues.Keys == old(queues).Keys && currentProc != null
      ensures var r := Rescheduled(Step(s, SchedProtocol.Enqueue(queue)), rounds);
        && (halted <==> r.next.None?) && Abs() == if halted then r else Switched(r)
      ensures halted ==> Saves() == old(Saves()) && frame[..] == old(frame[..])
      ensures !halted ==> Resumed(frame, old(Machine()), old(frame[..]))
    {
      hide Consistent, Distinct, procList.Valid, Pointers, Contexts, Saved, Restored, TrapFrame, Rescheduled, WellFormed;
      RingMember(s);
      StepKeeps(s, SchedProtocol.Enqueue(queue));
      Enqueue(queue, s.current);
      halted := ProcYield(frame, rounds, Abs());
    }

    // ----- creating and exiting -----

    /** A kernel thread: starts at `entryPoint` with `arg`, on a stack of its own from which it returns to ProcExit. */
    method ProcCreateKthread(entryPoint: int, arg: int, stack: int) returns (newProc: ProcContext)
      requires Valid()
      modifies this`newProcId, this`stackWords, procList, procList.spine
      ensures Valid() && fresh(newProc) && newProc.pid == old(newProcId) && newProcId == old(newProcId) + 1
      ensures procList.contents == old(procList.contents) + [newProc]
      ensures Saves() == old(Saves())[newProc := KernelThread(entryPoint, arg, stack)]
      ensures stackWords == old(stackWords)[stack := procExit]
    {
      hide Consistent, Distinct, procList.Valid, Pointers, Contexts;
      newProc := new ProcContext(KernelThread(entryPoint, arg, stack), newProcId);
      newProcId := newProcId + 1;
      stackWords := stackWords[newProc.registers.rsp := procExit];
      AddProc(newProc);
    }

    method AddProc(newProc: ProcContext)
      requires Valid() && newProc !in Procs() && newProc.blockedNext == null && !newProc.isBlocked
      modifies procList, procList.spine
      ensures Valid() && procList.contents == old(procList.contents) + [newProc]
      ensures Saves() == old(Saves())[newProc := newProc.registers]
    {
      hide Consistent, Distinct, procList.Valid, Pointers, Contexts;
      PointerDomain(queues.Keys, Procs());
      AddKeeps(Pointers(queues.Keys, Procs()), queues, on, newProc);
      PointersWith(queues.Keys, Procs(), newProc);
      DistinctAppend(procList.contents, newProc);
      procList.Add(newProc);
      assert Procs() == old(Procs()) + {newProc};
    }

    /**
     A copy of the running process, as fork makes it. The whole context is copied, queue fields
     included; because a running process is on no queue, neither is the copy.
     */
    method ProcCreateCopy(newRip: int, frame: array<int>) returns (newProc: ProcContext)
      requires Valid() && frame.Length == FRAME_SLOTS
      requires currentProc != null && currentProc in Procs() && currentProc !in on
      modifies this`newProcId, procList, procList.spine, currentProc`registers
      ensures Valid() && fresh(newProc) && newProc.pid == old(newProcId) && newProcId == old(newProcId) + 1
      ensures procList.contents == old(procList.contents) + [newProc] && newProc !in on
      ensures Saves() == old(Saves())[currentProc := Saved(frame[..])][newProc := Saved(frame[..]).(rip := newRip)]
    {
      hide Consistent, Distinct, procList.Valid, Pointers, Contexts, Saved;
      assert Procs() + {currentProc} == Procs();
      SaveState(currentProc, frame, Procs());
      IdleFields(currentProc, queues, on, Procs());
      OnlyProcs(queues, on, Procs());
      newProc := CopyCurrent(newRip);
      AddProc(newProc);
    }

    method CopyCurrent(newRip: int) returns (newProc: ProcContext)
      requires currentProc != null
      modifies this`newProcId
      ensures fresh(newProc) && newProc.registers == currentProc.registers.(rip := newRip)
      ensures newProc.blockedNext == currentProc.blockedNext && newProc.isBlocked == currentProc.isBlocked
      ensures newProc.pid == old(newProcId) && newProcId == old(newProcId) + 1
    {
      newProc := new ProcContext.Copy(currentProc);
      newProc.registers := newProc.registers.(rip := newRip);
      newProc.pid := newProcId;
      newProcId := newProcId + 1;
    }

    /** The running process leaves the ring; its predecessor becomes the current one. */
    method DropCurrent(ghost s: Sched<ProcContext, ProcQueue>)
      requires Valid() && currentProc != null && s == Abs() && s.current in s.ring && s.current !in s.on
      modifies this`currentProc, this`exiting, procList, procList.spine
      ensures Valid() && currentProc != null && Abs() == Exited(s).(next := s.next)
      ensures Saves() == old(Saves()) - {s.current}
    {
      hide Consistent, Distinct, procList.Valid, Pointers, Contexts;
      var currentProcPrev := procList.GetPrevious(currentProc);
      RemoveProc(currentProc);
      currentProc := currentProcPrev;
      exiting := true;
    }

    method RemoveProc(proc: ProcContext)
      requires Valid() && proc in procList.contents && proc !in on
      modifies procList, procList.spine
      ensures Valid() && procList.contents == Without(old(procList.contents), IndexOf(old(procList.contents), proc))
      ensures Saves() == old(Saves()) - {proc}
    {
      hide Consistent, Distinct, procList.Valid, Pointers, Contexts;
      DropKeeps(Pointers(queues.Keys, Procs()), queues, on, proc);
      PointersWithout(queues.Keys, Procs(), proc);
      RingWithout(procList.contents, proc);
      procList.Remove(proc);
      assert Procs() == old(Procs()) - {proc};
    }

    /** Nothing is left, and the registers of the caller of ProcRun are back in the trap frame. */
    ghost predicate Ended(halted: bool, was: seq<int>, frame: array<int>)
      requires |was| == FRAME_SLOTS
      reads this, procList, mainProc, frame
    {
      && !halted && procList.contents == [] && on == map[] && !isProcRunning
      && mainProc != null && frame[..] == Restored(was, mainProc.registers)
    }

    /** The choice made after the process has left the ring decides who goes on. */
    ghost predicate WentOn(s: Sched<ProcContext, ProcQueue>, rounds: seq<seq<seq<ProcQueue>>>, halted: bool, was: seq<int>, frame: array<int>)
      requires WellFormed(s) && Enabled(s, Exit) && |was| == FRAME_SLOTS
      reads this, procList, currentProc, frame
    {
      var r := RescheduledAfterExit(s, rounds);
      && currentProc != null && (halted <==> r.next.None?)
      && Abs() == (if halted then r else Switched(r))
      && frame[..] == if halted then was else Restored(was, currentProc.registers)
    }

    /** How an exit in state `s` comes out: the main context comes back exactly when the process was the last. */
    ghost predicate ExitedFrom(s: Sched<ProcContext, ProcQueue>, rounds: seq<seq<seq<ProcQueue>>>, halted: bool, was: seq<int>, frame: array<int>)
      requires WellFormed(s) && s.current !in s.on && !s.exiting && |was| == FRAME_SLOTS
      reads this, procList, currentProc, mainProc, frame
    {
      if |s.ring| >= 2 then WentOn(s, rounds, halted, was, frame) else Ended(halted, was, frame)
    }

    method HandleSyscallExit(frame: array<int>, rounds: seq<seq<seq<ProcQueue>>>) returns (halted: bool)
      requires Valid() && Known(rounds) && rounds != [] && frame.Length == FRAME_SLOTS
      requires currentProc != null && nextProc != null && procList.contents != [] ==>
        WellFormed(Abs()) && currentProc !in on && !exiting && mainProc != null && mainProc !in Procs()
      modifies this`currentProc, this`nextProc, this`isProcRunning, this`exiting, this`queues, this`on
      modifies procList, procList.spine, frame
      modifies queues.Keys`head, Procs()`blockedNext, Procs()`isBlocked
      ensures Valid()
      ensures old(currentProc == null || nextProc == null || procList.contents == []) ==>
        && !halted && unchanged(this) && unchanged(procList) && unchanged(procList.spine) && unchanged(frame)
        && unchanged(old(queues.Keys)) && unchanged(old(Procs())) && Saves() == old(Saves())
      ensures old(currentProc != null && nextProc != null && procList.contents != []) ==>
        ExitedFrom(old(Abs()), rounds, halted, old(frame[..]), frame) && Saves() == old(Saves()) - {old(currentProc)}
    {
      hide Consistent, Distinct, procList.Valid, Pointers, Contexts, Restored, RescheduledAfterExit, WellFormed;
      var empty := procList.IsEmpty();
      if currentProc == null || nextProc == null || empty {
        return false;
      }
      halted := ExitCurrent(frame, rounds, Abs());
    }

    method ExitCurrent(frame: array<int>, rounds: seq<seq<seq<ProcQueue>>>, ghost s: Sched<ProcContext, ProcQueue>) returns (halted: bool)
      requires Valid() && Known(rounds) && rounds != [] && frame.Length == FRAME_SLOTS
      requires currentProc != null && mainProc != null && mainProc !in Procs()
      requires s == Abs() && WellFormed(s) && s.current !in s.on && !s.exiting
      modifies this`currentProc, this`nextProc, this`isProcRunning, this`exiting, this`queues, this`on
      modifies procList, procList.spine, frame
      modifies queues.Keys`head, Procs()`blockedNext, Procs()`isBlocked
      ensures Valid() && Saves() == old(Saves()) - {s.current}
      ensures ExitedFrom(s, rounds, halted, old(frame[..]), frame)
    {
      hide Consistent, Distinct, procList.Valid, Pointers, Contexts, Saved, Restored, Rescheduled, RescheduledAfterExit, WellFormed;
      RingMember(s);
      ExitCases(s);
      DropCurrent(s);
      halted := false;
      var empty := procList.IsEmpty();
      if empty {
        RestoreMain(frame);
      } else {
        halted := GoOnAfterExit(frame, rounds, s);
      }
    }

    /** The rest of an exit when other processes are left. */
    method GoOnAfterExit(frame: array<int>, rounds: seq<seq<seq<ProcQueue>>>, ghost s: Sched<ProcContext, ProcQueue>) returns (halted: bool)
      requires Valid() && Known(rounds) && rounds != [] && frame.Length == FRAME_SLOTS
      requires WellFormed(s) && Enabled(s, Exit) && currentProc != null && Abs() == Exited(s).(next := s.next)
      modifies this`currentProc, this`nextProc, this`exiting, this`queues, this`on, frame
      modifies queues.Keys`head, Procs()`blockedNext, Procs()`isBlocked
      ensures Valid() && Saves() == old(Saves()) && procList.contents == old(procList.contents)
      ensures WentOn(s, rounds, halted, old(frame[..]), frame)
    {
      hide Consistent, Distinct, procList.Valid, Pointers, Contexts, Saved, Restored, Rescheduled, Exited, WellFormed, Enabled, KnownRound;
      RingMember(s);
      ExitKeeps(s);
      OldChoiceIsForgotten(Exited(s), rounds, s.next);
      ProcReschedule(rounds);
      halted := nextProc == null;
      if !halted {
        MoveToNext(frame);
      }
    }
  }
}
