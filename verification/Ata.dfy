/** The disk driver as code: port writes, the request queue, and the interrupt handler, refining `AtaProtocol`. */
module Ata {
  import opened Prelude
  import opened Bytes
  import opened Queue
  import opened AtaProtocol

  const PORT_OFFSET_SECTOR_COUNT := 2
  const PORT_OFFSET_LBA_LO := 3
  const PORT_OFFSET_LBA_MID := 4
  const PORT_OFFSET_LBA_HI := 5
  const PORT_OFFSET_DRIVE_SELECT := 6
  const PORT_OFFSET_CMD := 7
  const READ_SECTORS_EXT := 0x24

  /**
   The master drive's side of the ports, as the READ SECTORS EXT command of ATA/ATAPI-6 uses them: the
   count and address registers are 16 bits wide and remember their previous value as the high byte.
   */
  class AtaDrive {
    const blocks: Drive
    var select: int
    var count: (int, int)
    var lo: (int, int)
    var mid: (int, int)
    var hi: (int, int)
    var command: Option<int>
    var sectors: int
    var position: nat
    /** Everything written to the ports, in order. */
    ghost var writes: seq<(int, int)>

    constructor (blocks: Drive)
      ensures this.blocks == blocks && command == None && position == 0
    {
      this.blocks := blocks;
      select, count := 0, (0, 0);
      lo, mid, hi := (0, 0), (0, 0), (0, 0);
      command := None;
      sectors, position := 0, 0;
      writes := [];
    }

    /** The block number in the latches; the first component of each is the older, high byte. */
    function Lba(): int
      reads this
    {
      lo.1 + 0x100 * mid.1 + 0x1_0000 * hi.1 + 0x100_0000 * lo.0 + 0x1_0000_0000 * mid.0 + 0x100_0000_0000 * hi.0
    }

    /** How many sectors are asked for; zero stands for the largest number. */
    function Count(): int
      reads this
    {
      var n := count.1 + 0x100 * count.0;
      if n == 0 then 0x1_0000 else n
    }

    /** Bit 4 of the drive register is clear for the master, bit 6 set for block addresses. */
    predicate Selected()
      reads this
    {
      select / 0x10 % 2 == 0 && select / 0x40 % 2 == 1
    }

    method Outb(port: int, value: int)
      modifies this
      ensures writes == old(writes) + [(port, value)]
      ensures select == if port == PORT_OFFSET_DRIVE_SELECT then value else old(select)
      ensures count == if port == PORT_OFFSET_SECTOR_COUNT then (old(count).1, value) else old(count)
      ensures lo == if port == PORT_OFFSET_LBA_LO then (old(lo).1, value) else old(lo)
      ensures mid == if port == PORT_OFFSET_LBA_MID then (old(mid).1, value) else old(mid)
      ensures hi == if port == PORT_OFFSET_LBA_HI then (old(hi).1, value) else old(hi)
      ensures var asked := port == PORT_OFFSET_CMD && value == READ_SECTORS_EXT && old(Selected());
        && command == (if asked then Some(old(Lba())) else old(command))
        && sectors == (if asked then old(Count()) else old(sectors))
        && position == if asked then 0 else old(position)
    {
      writes := writes + [(port, value)];
      if port == PORT_OFFSET_DRIVE_SELECT {
        select := value;
      } else if port == PORT_OFFSET_SECTOR_COUNT {
        count := (count.1, value);
      } else if port == PORT_OFFSET_LBA_LO {
        lo := (lo.1, value);
      } else if port == PORT_OFFSET_LBA_MID {
        mid := (mid.1, value);
      } else if port == PORT_OFFSET_LBA_HI {
        hi := (hi.1, value);
      } else if port == PORT_OFFSET_CMD && value == READ_SECTORS_EXT && Selected() {
        command := Some(Lba());
        sectors := Count();
        position := 0;
      }
    }

    /** The data port: the words of the blocks in order; after the last the command is over. */
    method Inw() returns (w: int)
      requires command.Some? && position < SECTOR_WORDS * sectors
      requires forall b :: |blocks(b)| == SECTOR_WORDS
      modifies this
      ensures w == blocks(old(command).value + old(position) / SECTOR_WORDS)[old(position) % SECTOR_WORDS]
      ensures position == old(position) + 1 && sectors == old(sectors)
      ensures command == if position < SECTOR_WORDS * sectors then old(command) else None
    {
      w := blocks(command.value + position / SECTOR_WORDS)[position % SECTOR_WORDS];
      position := position + 1;
      if position == SECTOR_WORDS * sectors {
        command := None;
      }
    }
  }

  class AtaBlockDevice {
    const drive: AtaDrive
    const requestQueue: Queue<Request>

    /** The wait queue, under the contracts of ProcBlockOn (append) and ProcUnblockHead (remove the first). */
    var procQueue: seq<Pid>

    /** The 256 words of each client buffer. */
    var memory: map<int, seq<int>>
    ghost var calls: map<Pid, Request>

    ghost function Abs(): State
      reads this, drive, requestQueue
    {
      State(requestQueue.contents, procQueue, drive.command, memory, calls)
    }

    ghost predicate Valid()
      reads this, drive, requestQueue, requestQueue.spine
    {
      && requestQueue.Valid()
      && (drive.command.Some? ==> drive.position == 0 && drive.sectors == 1)
      && (forall b :: |drive.blocks(b)| == SECTOR_WORDS)
      && BuffersFit(memory, calls)
      && Lockstep(Abs(), drive.blocks)
    }

    constructor (drive: AtaDrive, memory: map<int, seq<int>>)
      requires drive.command == None && forall b :: |drive.blocks(b)| == SECTOR_WORDS
      ensures Valid() && this.drive == drive && Abs() == INITIAL.(memory := memory)
      ensures fresh(requestQueue)
    {
      this.drive := drive;
      this.memory := memory;
      requestQueue := new Queue<Request>();
      procQueue := [];
      calls := map[];
    }

    /** Consume sends one byte to each of the count and address registers, twice. */
    method SendBytes(count: int, lo: int, mid: int, hi: int)
      modifies drive
      ensures drive.count == (old(drive.count).1, count) && drive.select == old(drive.select)
      ensures drive.lo == (old(drive.lo).1, lo) && drive.mid == (old(drive.mid).1, mid) && drive.hi == (old(drive.hi).1, hi)
      ensures drive.writes == old(drive.writes) + [(2, count), (3, lo), (4, mid), (5, hi)]
    {
      drive.Outb(PORT_OFFSET_SECTOR_COUNT, count);
      drive.Outb(PORT_OFFSET_LBA_LO, lo);
      drive.Outb(PORT_OFFSET_LBA_MID, mid);
      drive.Outb(PORT_OFFSET_LBA_HI, hi);
    }

    /** Consume: sends the six bytes and the command, and so asks the master drive for one sector. */
    method Consume(request: Request)
      requires request.blockNum >= 0
      modifies drive
      ensures drive.command == Some(Decoded(request.blockNum)) && drive.position == 0 && drive.sectors == 1
      ensures var n := request.blockNum;
        drive.writes == old(drive.writes) + [
          (6, 0x40), (2, 0), (3, n / 0x100_0000 % 0x100), (4, n / 0x1_0000_0000 % 0x100), (5, n / 0x1_0000_0000_0000 % 0x100),
          (2, 1), (3, n % 0x100), (4, n / 0x100 % 0x100), (5, n / 0x1_0000 % 0x100), (7, 0x24)]
    {
      hide ByteOf;
      var lba := request.blockNum;
      BytesOfWord(lba);
      drive.Outb(PORT_OFFSET_DRIVE_SELECT, 0x40);
      SendBytes(0, lba / 0x100_0000 % 256, lba / 0x1_0000_0000 % 256, lba / 0x1_0000_0000_0000 % 256);
      SendBytes(1, lba % 256, lba / 0x100 % 256, lba / 0x1_0000 % 256);
      drive.Outb(PORT_OFFSET_CMD, READ_SECTORS_EXT);
    }

    /**
     ReadBlock up to the point where the process is blocked; interrupts are off until then. It is
     refused, and changes nothing, while the process system is not running.
     */
    method ReadBlock(procIsRunning: bool, currentProc: Pid, blockNum: nat, dest: int) returns (refused: bool)
      requires Valid()
      requires procIsRunning ==> Enabled(Abs(), Call(currentProc, Request(blockNum, dest)))
      requires procIsRunning ==> dest in memory && |memory[dest]| == SECTOR_WORDS
      modifies this, drive, requestQueue, requestQueue.spine
      ensures Valid() && (refused <==> !procIsRunning)
      ensures Abs() == if refused then old(Abs()) else AtaProtocol.ReadBlock(old(Abs()), currentProc, Request(blockNum, dest))
    {
      hide Decoded, Lockstep;
      if !procIsRunning {
        return true;
      }
      refused := false;
      var newRequest := Request(blockNum, dest);
      CallKeeps(Abs(), drive.blocks, currentProc, newRequest);
      var queueWasEmpty := requestQueue.IsEmpty();
      requestQueue.Add(newRequest);
      if queueWasEmpty {
        Consume(newRequest);
      }
      procQueue := procQueue + [currentProc];
      calls := calls[currentProc := newRequest];
    }

    /**
     The interrupt handler; `dataReady` is the status check (not busy, and data requested). A ready
     drive always finds a request waiting: the branch for an empty queue is unreachable.
     */
    method InterruptHandler(dataReady: bool)
      requires Valid() && Enabled(Abs(), Interrupt(dataReady))
      modifies this, drive, requestQueue
      ensures Valid() && Abs() == HandleInterrupt(old(Abs()), drive.blocks, dataReady)
    {
      hide Decoded, Lockstep, BuffersFit;
      InterruptKeeps(Abs(), drive.blocks, dataReady);
      if !dataReady {
        return;
      }
      HeadIsServed(Abs());
      HeadBufferFits(Abs(), drive.blocks);
      var isEmpty := requestQueue.IsEmpty();
      if isEmpty {
        assert false;
      }
      ghost var lba := drive.command.value;
      assert |drive.blocks(lba)| == SECTOR_WORDS;
      var request := requestQueue.Remove();
      ReadInto(request.value.buffer);
      procQueue := procQueue[1..];
      var next := requestQueue.Peek();
      if next.Some? {
        Consume(next.value);
      }
    }

    /** The transfer loop: 256 words from the data port into the buffer. */
    method ReadInto(buffer: int)
      requires drive.command.Some? && drive.position == 0 && drive.sectors == 1
      requires forall b :: |drive.blocks(b)| == SECTOR_WORDS
      requires buffer in memory && |memory[buffer]| == SECTOR_WORDS
      modifies `memory, drive
      ensures memory == old(memory)[buffer := drive.blocks(old(drive.command).value)] && drive.command == None
    {
      ghost var lba := drive.command.value;
      ghost var block := drive.blocks(lba);
      var i := 0;
      while i < SECTOR_WORDS
        invariant 0 <= i <= SECTOR_WORDS && drive.position == i && drive.sectors == 1
        invariant drive.command == if i < SECTOR_WORDS then old(drive.command) else None
        invariant buffer in memory && |memory[buffer]| == SECTOR_WORDS
        invariant memory == old(memory)[buffer := memory[buffer]]
        invariant memory[buffer][..i] == block[..i]
      {
        var w := drive.Inw();
        memory := memory[buffer := memory[buffer][i := w]];
        i := i + 1;
      }
      assert memory[buffer] == block;
    }

    lemma HeadIsServed(s: State)
      requires Lockstep(s, drive.blocks)
      ensures s.command.Some? <==> s.requests != []
      ensures s.requests != [] ==> s.waiters != [] && exists p :: p in s.calls && s.calls[p] == s.requests[0]
      ensures forall i :: 0 <= i < |s.requests| ==> s.requests[i].blockNum >= 0
    {
      forall i | 0 <= i < |s.requests| ensures s.requests[i].blockNum >= 0 {
        var p := s.waiters[i];
        assert s.calls[p] == s.requests[i];
      }
      if s.requests != [] {
        var first := s.waiters[0];
        assert first in s.calls && s.calls[first] == s.requests[0];
      }
    }

    /** The end of ReadBlock, once the process has been woken and runs again. */
    method ReturnFromRead(currentProc: Pid) returns (result: int)
      requires Valid() && Enabled(Abs(), Return(currentProc))
      modifies this
      ensures Valid() && Abs() == Step(old(Abs()), drive.blocks, Return(currentProc)) && result == 0
      ensures var r := old(calls)[currentProc];
        r.buffer in memory && (r.blockNum < 0x100_0000_0000 ==> memory[r.buffer] == drive.blocks(r.blockNum))
    {
      hide Decoded;
      ReturnKeeps(Abs(), drive.blocks, currentProc);
      assert Served(Abs(), drive.blocks, currentProc);
      DecodedExactly(calls[currentProc].blockNum);
      calls := calls - {currentProc};
      result := 0;
    }
  }
}
