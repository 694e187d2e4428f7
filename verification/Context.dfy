/** The saved register frame: what the trap stub pushes, and what SaveState and RestoreState copy. */
module Context {
  const FRAME_SLOTS := 21

  /** The twenty values of a process context that a trap saves. */
  datatype Registers = Registers(
    rax: int, rbx: int, rcx: int, rdx: int, rdi: int, rsi: int,
    r8: int, r9: int, r10: int, r11: int, r12: int, r13: int, r14: int, r15: int,
    rbp: int, rsp: int, rip: int, rflags: int, cs: int, ss: int)

  /** A push: the stack grows downwards, so the new word comes first. */
  function Push(stack: seq<int>, word: int): seq<int> { [word] + stack }

  /** The processor's interrupt frame, then the vector stub's rdi, then the pushes of irq_syscall. */
  function TrapFrame(cpu: Registers, link: int): seq<int> {
    var hardware := Push(Push(Push(Push(Push([], cpu.ss), cpu.rsp), cpu.rflags), cpu.cs), cpu.rip);
    var s1 := Push(Push(Push(Push(Push(Push(hardware, cpu.rdi), cpu.rax), cpu.rbx), cpu.rcx), cpu.rdx), cpu.rsi);
    var s2 := Push(Push(Push(Push(s1, cpu.r8), cpu.r9), cpu.r10), cpu.r11);
    var s3 := Push(Push(Push(Push(Push(s2, cpu.r12), cpu.r13), cpu.r14), cpu.r15), cpu.rbp);
    Push(s3, link)
  }

  /** What SaveState reads out of the frame. */
  function Saved(frame: seq<int>): Registers
    requires |frame| == FRAME_SLOTS
  {
    Registers(
      rbp := frame[1], r15 := frame[2], r14 := frame[3], r13 := frame[4], r12 := frame[5],
      r11 := frame[6], r10 := frame[7], r9 := frame[8], r8 := frame[9], rsi := frame[10],
      rdx := frame[11], rcx := frame[12], rbx := frame[13], rax := frame[14], rdi := frame[15],
      rip := frame[16], cs := frame[17], rflags := frame[18], rsp := frame[19], ss := frame[20])
  }

  /** The frame after RestoreState: slot 0, the link to an outer trap, is not touched. */
  function Restored(frame: seq<int>, r: Registers): (f: seq<int>)
    requires |frame| == FRAME_SLOTS
    ensures |f| == FRAME_SLOTS && f[0] == frame[0]
  {
    frame[1 := r.rbp][2 := r.r15][3 := r.r14][4 := r.r13][5 := r.r12]
      [6 := r.r11][7 := r.r10][8 := r.r9][9 := r.r8][10 := r.rsi]
      [11 := r.rdx][12 := r.rcx][13 := r.rbx][14 := r.rax][15 := r.rdi]
      [16 := r.rip][17 := r.cs][18 := r.rflags][19 := r.rsp][20 := r.ss]
  }

  /** The slots of the trap frame, from the stack pointer upwards. */
  lemma FrameSlots(cpu: Registers, link: int)
    ensures TrapFrame(cpu, link) == [
      link, cpu.rbp, cpu.r15, cpu.r14, cpu.r13, cpu.r12, cpu.r11, cpu.r10, cpu.r9, cpu.r8, cpu.rsi,
      cpu.rdx, cpu.rcx, cpu.rbx, cpu.rax, cpu.rdi, cpu.rip, cpu.cs, cpu.rflags, cpu.rsp, cpu.ss]
  {}

  /** The index tables of SaveState and RestoreState match the push order of the stub, register by register. */
  lemma SaveMatchesStub(cpu: Registers, link: int)
    ensures |TrapFrame(cpu, link)| == FRAME_SLOTS && Saved(TrapFrame(cpu, link)) == cpu
  {
    assert TrapFrame(cpu, link) == Restored(seq(FRAME_SLOTS, i => link), cpu);
  }

  /** Restoring another process turns the trap frame into the one that process would have pushed. */
  lemma RestoreMatchesStub(cpu: Registers, other: Registers, link: int)
    ensures |TrapFrame(cpu, link)| == FRAME_SLOTS
    ensures Restored(TrapFrame(cpu, link), other) == TrapFrame(other, link)
  {
    assert TrapFrame(other, link) == Restored(seq(FRAME_SLOTS, i => link), other);
  }

  lemma SaveAfterRestore(frame: seq<int>, r: Registers)
    requires |frame| == FRAME_SLOTS
    ensures Saved(Restored(frame, r)) == r
    ensures Restored(frame, Saved(frame)) == frame
  {}

  /** Every saved frame is the trap frame of the registers SaveState reads out of it. */
  lemma FrameIsTrapFrame(frame: seq<int>)
    requires |frame| == FRAME_SLOTS
    ensures TrapFrame(Saved(frame), frame[0]) == frame
  {
    RestoreMatchesStub(Saved(frame), Saved(frame), frame[0]);
    SaveAfterRestore(frame, Saved(frame));
    assert TrapFrame(Saved(frame), frame[0]) == Restored(frame, Saved(frame));
  }

  // ----- switching among many processes -----

  /** Who runs, and the register fields of every process context. */
  datatype Machine<!P> = Machine(running: P, contexts: map<P, Registers>)

  /** One yield: the trap found `cpu` in the registers, and the scheduler chose `next`. */
  datatype Yielded<P> = Yielded(cpu: Registers, link: int, next: P)

  function AfterYield<P>(m: Machine<P>, y: Yielded<P>): Machine<P> {
    Machine(y.next, m.contexts[m.running := y.cpu])
  }

  /** The trap frame as the handler leaves it: the registers `next` goes on with. */
  function ResumedFrame<P>(m: Machine<P>, y: Yielded<P>): seq<int>
    requires y.next in m.contexts || y.next == m.running
  {
    Restored(TrapFrame(y.cpu, y.link), AfterYield(m, y).contexts[y.next])
  }

  function AfterYields<P>(m: Machine<P>, run: seq<Yielded<P>>): Machine<P>
    decreases |run|
  {
    if run == [] then m else AfterYield(AfterYields(m, run[..|run| - 1]), run[|run| - 1])
  }

  /** The process that makes the k-th yield of a run. */
  function Runner<P>(m: Machine<P>, run: seq<Yielded<P>>, k: nat): P
    requires k <= |run|
  {
    if k == 0 then m.running else run[k - 1].next
  }

  lemma {:induction false} RunnerIsRunning<P>(m: Machine<P>, run: seq<Yielded<P>>)
    ensures AfterYields(m, run).running == Runner(m, run, |run|)
  {}

  /** What the contexts hold: each process's registers at its own last yield of the run. */
  lemma {:induction false} ContextIsLastYield<P>(m: Machine<P>, run: seq<Yielded<P>>, p: P, j: nat)
    requires j < |run| && Runner(m, run, j) == p
    requires forall i :: j < i < |run| ==> Runner(m, run, i) != p
    ensures p in AfterYields(m, run).contexts && AfterYields(m, run).contexts[p] == run[j].cpu
    decreases |run|
  {
    var n := |run| - 1;
    var before := run[..n];
    RunnerIsRunning(m, before);
    assert Runner(m, before, n) == Runner(m, run, n);
    if j < n {
      forall i | j <= i < n ensures Runner(m, before, i) == Runner(m, run, i) {}
      ContextIsLastYield(m, before, p, j);
    }
  }

  lemma {:induction false} ContextUntouched<P>(m: Machine<P>, run: seq<Yielded<P>>, p: P)
    requires p in m.contexts && forall i :: 0 <= i < |run| ==> Runner(m, run, i) != p
    ensures p in AfterYields(m, run).contexts && AfterYields(m, run).contexts[p] == m.contexts[p]
    decreases |run|
  {
    if run != [] {
      var n := |run| - 1;
      RunnerIsRunning(m, run[..n]);
      assert Runner(m, run[..n], n) == Runner(m, run, n);
      forall i | 0 <= i < n ensures Runner(m, run[..n], i) == Runner(m, run, i) {}
      ContextUntouched(m, run[..n], p);
    }
  }

  /**
   Main result: over any run of yields among any number of processes, the frame the last yield
   resumes on is, slot by slot, the one its process had pushed at its own last yield, with only
   the nested link taken from the present trap.
   */
  lemma ResumesWhereItYielded<P>(m: Machine<P>, run: seq<Yielded<P>>, last: Yielded<P>, j: nat)
    requires j <= |run| && Runner(m, run, j) == last.next
    requires forall i :: j < i <= |run| ==> Runner(m, run, i) != last.next
    ensures var now := AfterYields(m, run);
      && (last.next in now.contexts || last.next == now.running)
      && ResumedFrame(now, last) == TrapFrame((run + [last])[j].cpu, last.link)
  {
    RunnerIsRunning(m, run);
    if j < |run| {
      ContextIsLastYield(m, run, last.next, j);
    }
    RestoreMatchesStub(last.cpu, (run + [last])[j].cpu, last.link);
  }

  /** A process that has not run yet starts with the registers its creator gave it. */
  lemma StartsAsCreated<P>(m: Machine<P>, run: seq<Yielded<P>>, last: Yielded<P>)
    requires last.next in m.contexts
    requires forall i :: 0 <= i <= |run| ==> Runner(m, run, i) != last.next
    ensures var now := AfterYields(m, run);
      last.next in now.contexts && ResumedFrame(now, last) == TrapFrame(m.contexts[last.next], last.link)
  {
    RunnerIsRunning(m, run);
    assert Runner(m, run, |run|) != last.next;
    ContextUntouched(m, run, last.next);
    RestoreMatchesStub(last.cpu, m.contexts[last.next], last.link);
  }
}
