/** The keyboard driver's ring buffer, refining `KeyboardProtocol`. */
module Keyboard {
  import opened Prelude
  import opened KeyboardProtocol

  /** What a ring of cells holds between the drain index and the free index. */
  function Between(cells: seq<char>, drain: nat, free: nat): seq<char>
    requires drain < |cells| && free < |cells|
  {
    if drain <= free then cells[drain..free] else cells[drain..] + cells[..free]
  }

  /** A ring is full with one cell unused, and otherwise the next free cell extends it. */
  lemma RingPut(cells: seq<char>, drain: nat, free: nat, c: char)
    requires drain < |cells| == KEYBOARD_BUFFER_SIZE && free < |cells|
    ensures var next := (free + 1) % KEYBOARD_BUFFER_SIZE;
      && (next == drain <==> |Between(cells, drain, free)| == KEYBOARD_BUFFER_SIZE - 1)
      && (next != drain ==> Between(cells[free := c], drain, next) == Between(cells, drain, free) + [c])
  {}

  /** A ring is empty with equal indices, and otherwise moving the drain index on takes off the oldest. */
  lemma RingTake(cells: seq<char>, drain: nat, free: nat)
    requires drain < |cells| == KEYBOARD_BUFFER_SIZE && free < |cells|
    ensures drain == free <==> Between(cells, drain, free) == []
    ensures drain != free ==>
      && cells[drain] == Between(cells, drain, free)[0]
      && Between(cells, (drain + 1) % KEYBOARD_BUFFER_SIZE, free) == Between(cells, drain, free)[1..]
  {
    var next := (drain + 1) % KEYBOARD_BUFFER_SIZE;
    if drain != free {
      Unrolled(cells, drain, free);
      var later := Between(cells, next, free);
      assert ([cells[drain]] + later)[1..] == later;
    }
  }

  lemma Unrolled(cells: seq<char>, drain: nat, free: nat)
    requires drain < |cells| == KEYBOARD_BUFFER_SIZE && free < |cells| && drain != free
    ensures Between(cells, drain, free) == [cells[drain]] + Between(cells, (drain + 1) % KEYBOARD_BUFFER_SIZE, free)
  {
    hide Between;
    if drain + 1 < |cells| {
      assert (drain + 1) % KEYBOARD_BUFFER_SIZE == drain + 1;
      MiddleCell(cells, drain, free);
    } else {
      LastCell(cells, free);
    }
  }

  lemma MiddleCell(cells: seq<char>, drain: nat, free: nat)
    requires drain + 1 < |cells| && free < |cells| && drain != free
    ensures Between(cells, drain, free) == [cells[drain]] + Between(cells, drain + 1, free)
  {
    if drain > free {
      assert cells[drain..] == [cells[drain]] + cells[drain + 1..];
    }
  }

  lemma LastCell(cells: seq<char>, free: nat)
    requires free + 1 < |cells|
    ensures Between(cells, |cells| - 1, free) == [cells[|cells| - 1]] + Between(cells, 0, free)
  {
    assert cells[|cells| - 1..] == [cells[|cells| - 1]];
  }

  class KeyboardDriver {
    const keyboardInputBuffer: array<char>
    var bufferFreeIndex: int
    var bufferDrainIndex: int

    /** The wait queue, under the contracts of ProcBlockOn (append) and ProcUnblockHead (remove the first). */
    var procQueue: seq<Pid>
    ghost var woken: set<Pid>
    ghost var accepted: seq<char>
    ghost var delivered: seq<char>

    ghost predicate Ring()
      reads this, keyboardInputBuffer
    {
      && keyboardInputBuffer.Length == KEYBOARD_BUFFER_SIZE
      && 0 <= bufferFreeIndex < KEYBOARD_BUFFER_SIZE && 0 <= bufferDrainIndex < KEYBOARD_BUFFER_SIZE
    }

    ghost function Abs(): State
      reads this, keyboardInputBuffer
      requires Ring()
    {
      State(Between(keyboardInputBuffer[..], bufferDrainIndex, bufferFreeIndex), procQueue, woken, accepted, delivered)
    }

    ghost predicate Valid()
      reads this, keyboardInputBuffer
    {
      Ring() && Safe(Abs())
    }

    constructor KeyboardInit()
      ensures Valid() && Abs() == INITIAL && fresh(keyboardInputBuffer)
    {
      keyboardInputBuffer := new char[KEYBOARD_BUFFER_SIZE];
      bufferFreeIndex, bufferDrainIndex := 0, 0;
      procQueue, woken, accepted, delivered := [], {}, [], [];
    }

    /** The interrupt handler, for the character PollKeyboard returned. */
    method HandleKeyboardInterrupt(keyboardInput: char)
      requires Valid()
      modifies this, keyboardInputBuffer
      ensures Valid() && Abs() == HandleKey(old(Abs()), keyboardInput)
    {
      StepKeepsSafe(Abs(), Key(keyboardInput));
      RingPut(keyboardInputBuffer[..], bufferDrainIndex, bufferFreeIndex, keyboardInput);
      if keyboardInput != '\0' {
        var nextFreeIndex := (bufferFreeIndex + 1) % KEYBOARD_BUFFER_SIZE;
        if nextFreeIndex != bufferDrainIndex {
          ghost var cells := keyboardInputBuffer[..];
          keyboardInputBuffer[bufferFreeIndex] := keyboardInput;
          assert keyboardInputBuffer[..] == cells[bufferFreeIndex := keyboardInput];
          bufferFreeIndex := nextFreeIndex;
          accepted := accepted + [keyboardInput];
          if procQueue != [] {
            woken := woken + {procQueue[0]};
            procQueue := procQueue[1..];
          }
        }
      }
    }

    /**
     KeyboardRead up to the point where it blocks, which it does even if characters are there.
     Without a current process it is refused and returns the null character.
     */
    method StartRead(currentProc: Option<Pid>) returns (refused: bool)
      requires Valid() && (currentProc.Some? ==> Enabled(Abs(), Read(currentProc.value)))
      modifies this
      ensures Valid() && (refused <==> currentProc.None?)
      ensures Abs() == if refused then old(Abs()) else Step(old(Abs()), Read(currentProc.value))
    {
      if currentProc.None? {
        return true;
      }
      StepKeepsSafe(Abs(), Read(currentProc.value));
      procQueue := procQueue + [currentProc.value];
      refused := false;
    }

    /** The rest of KeyboardRead, once woken: the empty-buffer branch is unreachable. */
    method FinishRead(currentProc: Pid) returns (keyboardInput: char)
      requires Valid() && Enabled(Abs(), Serve(currentProc))
      modifies this
      ensures Valid() && Abs() == Step(old(Abs()), Serve(currentProc))
      ensures old(Abs()).buffered != [] && keyboardInput == old(Abs()).buffered[0] && keyboardInput != '\0'
    {
      hide Safe, Between;
      StepKeepsSafe(Abs(), Serve(currentProc));
      ServedHasCharacter(Abs(), currentProc);
      RingTake(keyboardInputBuffer[..], bufferDrainIndex, bufferFreeIndex);
      if bufferFreeIndex == bufferDrainIndex {
        assert false;
      }
      keyboardInput := keyboardInputBuffer[bufferDrainIndex];
      bufferDrainIndex := bufferDrainIndex + 1;
      bufferDrainIndex := bufferDrainIndex % KEYBOARD_BUFFER_SIZE;
      delivered := delivered + [keyboardInput];
      woken := woken - {currentProc};
    }
  }
}
