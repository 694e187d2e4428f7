/**
 The kernel's page-table operations: creating entries, demand paging, the heap and the kernel
 stacks. Halting (HALT_LOOP) is modelled by the flag `halted`, after which nothing runs.
 */
module Page {
  import opened Prelude
  import opened Frame
  import opened PageEntry
  import opened Processor
  import opened PageTree

  const P4_KERNEL_HEAP := 1
  const P4_KERNEL_STACKS := 14
  const P4_USERSPACE_START := 15

  /** Page counts whose byte size, or last offset, a 32-bit int holds. */
  const MAX_PRODUCTS := 0x8_0000

  /** Pages and bytes under one P4 entry. */
  const P4_PAGES := 0x800_0000
  const P4_BYTES := P4_PAGES * PAGE_SIZE_BYTES

  function P4Index(address: nat): int {
    ToVirtualAddress(address).p4
  }

  lemma P4IndexIsPageRange(address: nat)
    ensures P4Index(address) == PageNumber(address) / P4_PAGES
    ensures InPages(PageNumber(address)) <==> P4Index(address) >= 1
    ensures var va := ToVirtualAddress(address); var v := PageNumber(address);
      va.p4 == Index(4, v) && va.p3 == Index(3, v) && va.p2 == Index(2, v) && va.p1 == v % ENTRIES
  {
    var a1 := address / PAGE_SIZE_BYTES;
    var v := PageNumber(address);
    ModThenDiv(a1, 512, 0x800_0000);
    ModThenDiv(a1 / 512, 512, 0x4_0000);
    ModThenDiv(a1 / 512 / 512, 512, 512);
    assert v / 512 / 512 == v / 0x4_0000 && v / 512 / 512 / 512 == v / P4_PAGES;
  }

  /** The lower end of the 16 MiB-aligned block an address lies in is its stack's base. */
  function StackBase(address: nat): int {
    address - address % STACK_SIZE_BYTES
  }

  /** The page after the last one that starts below `end`. */
  function EndPage(end: nat): int {
    (end + PAGE_SIZE_BYTES - 1) / PAGE_SIZE_BYTES
  }

  lemma PageNumberOf(address: nat)
    requires P4_BYTES <= address < ALL_PAGES * PAGE_SIZE_BYTES
    ensures PageNumber(address) == address / PAGE_SIZE_BYTES && InPages(PageNumber(address))
  {}

  /** The breaks never meet, and every page handed out below or above them has a p1 entry. */
  ghost predicate Layout(heap: int, stacks: int, t: Tables) {
    && heap % PAGE_SIZE_BYTES == 0 && stacks % STACK_SIZE_BYTES == 0
    && P4_KERNEL_HEAP * P4_BYTES <= heap < stacks <= (P4_KERNEL_STACKS + 1) * P4_BYTES
    && (forall v :: P4_KERNEL_HEAP * P4_PAGES <= v < heap / PAGE_SIZE_BYTES ==> t.Mapped(v))
    && (forall v :: stacks / PAGE_SIZE_BYTES <= v < (P4_KERNEL_STACKS + 1) * P4_PAGES ==> t.Mapped(v))
  }

  lemma GrowsKeepsMapped(t: Tables, t': Tables, lo: int, hi: int)
    requires Grows(t, t', lo, hi) && 0 <= lo
    ensures forall v :: t.Mapped(v) ==> t'.Mapped(v)
    ensures forall v :: lo <= v < hi ==> t'.Mapped(v)
  {
    forall v | lo <= v < hi ensures t'.Mapped(v) {
      GrowsMaps(t, t', lo, hi, v);
    }
  }

  lemma HeapStep(heap: int, pages: nat)
    requires heap % PAGE_SIZE_BYTES == 0
    ensures (heap + pages * PAGE_SIZE_BYTES) % PAGE_SIZE_BYTES == 0
    ensures (heap + pages * PAGE_SIZE_BYTES) / PAGE_SIZE_BYTES == heap / PAGE_SIZE_BYTES + pages
  {}

  lemma HeapLayout(heap: int, stacks: int, t: Tables, t': Tables, pages: nat)
    requires Layout(heap, stacks, t) && heap + pages * PAGE_SIZE_BYTES < stacks
    requires Grows(t, t', heap / PAGE_SIZE_BYTES, heap / PAGE_SIZE_BYTES + pages)
    ensures Layout(heap + pages * PAGE_SIZE_BYTES, stacks, t')
  {
    hide Grows, Tables.Mapped;
    HeapStep(heap, pages);
    GrowsKeepsMapped(t, t', heap / PAGE_SIZE_BYTES, heap / PAGE_SIZE_BYTES + pages);
  }

  lemma StackStep(stacks: int)
    requires stacks % STACK_SIZE_BYTES == 0
    ensures (stacks - STACK_SIZE_BYTES) % STACK_SIZE_BYTES == 0
    ensures (stacks - STACK_SIZE_BYTES) / PAGE_SIZE_BYTES == stacks / PAGE_SIZE_BYTES - STACK_PAGES
  {}

  lemma StackLayout(heap: int, stacks: int, t: Tables, t': Tables)
    requires Layout(heap, stacks, t) && stacks - STACK_SIZE_BYTES > heap
    requires Grows(t, t', stacks / PAGE_SIZE_BYTES - STACK_PAGES, stacks / PAGE_SIZE_BYTES)
    ensures Layout(heap, stacks - STACK_SIZE_BYTES, t')
  {
    hide Grows, Tables.Mapped;
    StackStep(stacks);
    GrowsKeepsMapped(t, t', stacks / PAGE_SIZE_BYTES - STACK_PAGES, stacks / PAGE_SIZE_BYTES);
  }

  /** Every address inside a stack leads back to its base. */
  lemma StackBaseRecovered(base: nat, address: nat)
    requires base % STACK_SIZE_BYTES == 0 && base <= address < base + STACK_SIZE_BYTES
    ensures StackBase(address) == base
  {}

  /** AllocateUserSpace's 64-bit sum. */
  function UserEnd(address: Word, numBytes: Word): Word {
    (address + numBytes) % TWO_64
  }

  /** How many pages AllocateUserSpace goes through, from the one of `address` on. */
  function UserPages(address: Word, numBytes: Word): nat {
    var end := UserEnd(address, numBytes);
    if end <= AlignAddressDown(address) then 0 else EndPage(end) - address / PAGE_SIZE_BYTES
  }

  /** `k` is one of them, counted through all 64 address bits. */
  predicate GoesThrough(address: Word, numBytes: Word, k: int) {
    address / PAGE_SIZE_BYTES <= k < address / PAGE_SIZE_BYTES + UserPages(address, numBytes)
  }

  /** None of these pages lies under P4 entry 0, whatever the upper 16 address bits are. */
  ghost predicate AvoidsIdentityMap(address: Word, numBytes: Word) {
    forall k :: GoesThrough(address, numBytes, k) ==> InPages(k % ALL_PAGES)
  }

  /** So they have consecutive page numbers. */
  lemma {:induction false} UserPage(address: Word, numBytes: Word, i: nat)
    requires AvoidsIdentityMap(address, numBytes) && i < UserPages(address, numBytes)
    ensures PageNumber(AlignAddressDown(address) + i * PAGE_SIZE_BYTES) == PageNumber(address) + i
    ensures InPages(PageNumber(address)) && InPages(PageNumber(address) + i)
  {
    var k := address / PAGE_SIZE_BYTES + i;
    assert GoesThrough(address, numBytes, k) && (AlignAddressDown(address) + i * PAGE_SIZE_BYTES) / PAGE_SIZE_BYTES == k;
    if i > 0 {
      UserPage(address, numBytes, i - 1);
      NextPage(k - 1);
    }
  }

  lemma NextPage(k: nat)
    ensures (k + 1) % ALL_PAGES == 0 || (k + 1) % ALL_PAGES == k % ALL_PAGES + 1
  {}

  /** The loop of AllocateUserSpace stops before the page it reaches after `i` rounds exactly when it is through. */
  lemma UserLoopEnds(address: Word, numBytes: Word, i: nat)
    requires i <= UserPages(address, numBytes)
    ensures AlignAddressDown(address) + i * PAGE_SIZE_BYTES < UserEnd(address, numBytes) <==> i < UserPages(address, numBytes)
    ensures UserEnd(address, numBytes) <= TWO_64 - PAGE_SIZE_BYTES ==> AlignAddressDown(address) + i * PAGE_SIZE_BYTES < TWO_64
  {}

  /** Some requested byte lies in page `k`. */
  ghost predicate Meets(address: Word, numBytes: Word, k: int) {
    exists a: nat :: address <= a < address + numBytes && a / PAGE_SIZE_BYTES == k
  }

  lemma MeetsIff(address: Word, numBytes: Word, k: int)
    ensures Meets(address, numBytes, k) <==>
      numBytes > 0 && address / PAGE_SIZE_BYTES <= k < EndPage(address + numBytes)
  {
    if numBytes > 0 && address / PAGE_SIZE_BYTES <= k < EndPage(address + numBytes) {
      var a := if k * PAGE_SIZE_BYTES < address then address else k * PAGE_SIZE_BYTES;
      assert address <= a < address + numBytes && a / PAGE_SIZE_BYTES == k;
    }
  }

  /**
   The pages AllocateUserSpace goes through are those that meet the requested bytes, unless the
   sum overflows, or the request is empty and starts inside a page.
   */
  lemma UserRangePagesIff(address: Word, numBytes: Word)
    ensures (forall k :: GoesThrough(address, numBytes, k) <==> Meets(address, numBytes, k))
      <==> address + numBytes < TWO_64 && (numBytes > 0 || address % PAGE_SIZE_BYTES == 0)
  {
    forall k ensures Meets(address, numBytes, k) <==>
      numBytes > 0 && address / PAGE_SIZE_BYTES <= k < EndPage(address + numBytes)
    {
      MeetsIff(address, numBytes, k);
    }
    var first, last := address / PAGE_SIZE_BYTES, EndPage(address + numBytes) - 1;
    assert numBytes > 0 ==> Meets(address, numBytes, first) && Meets(address, numBytes, last);
    assert numBytes == 0 ==> !Meets(address, numBytes, first);
  }

  lemma SameNodesLayout(heap: int, stacks: int, t: Tables, t': Tables)
    requires Layout(heap, stacks, t) && t'.nodes == t.nodes
    ensures Layout(heap, stacks, t')
  {
    assert forall v :: t'.Mapped(v) <==> t.Mapped(v);
  }

  lemma FrameAndOffset(frame: int, offset: int)
    requires frame % FRAME_SIZE_BYTES == 0 && 0 <= offset < PAGE_SIZE_BYTES
    ensures (frame + offset) % PAGE_SIZE_BYTES == offset
  {}

  lemma UserLayout(heap: int, stacks: int, t: Tables, t': Tables, lo: int, hi: int)
    requires Layout(heap, stacks, t) && Grows(t, t', lo, hi) && 0 <= lo
    ensures Layout(heap, stacks, t')
  {
    GrowsKeepsMapped(t, t', lo, hi);
  }

  class Pager {
    const frames: FrameAllocator
    const cr3: int
    var kernelHeapBreak: int
    var kernelStacksBreak: int
    var halted: bool

    ghost var tables: Tables
    ghost var owner: map<int, Owner>
    /** The frames that a second fault on their page has overwritten in its entry. */
    ghost var overwritten: set<int>

    /** Every managed frame is free, or has exactly one owner. */
    ghost predicate Partitioned()
      reads this, frames
    {
      && frames.Valid() && cr3 !in frames.managed && tables.root == cr3
      && owner.Keys == frames.Outstanding()
      && tables.Shape() && Owns(tables, owner)
    }

    ghost predicate Valid()
      reads this, frames
    {
      && Partitioned() && LostFrames(owner) == overwritten
      && (!halted ==> Layout(kernelHeapBreak, kernelStacksBreak, tables) && Reflects(frames.mem, tables))
    }

    /** PageInit, run when the boot code's p4 table is empty but for the identity map. */
    constructor PageInit(frames: FrameAllocator, cr3: int)
      requires frames.Valid() && frames.Outstanding() == {} && cr3 !in frames.managed
      requires forall i :: 1 <= i < ENTRIES ==> frames.mem(cr3, i) == 0
      ensures Valid() && !halted && this.frames == frames && this.cr3 == cr3
      ensures kernelHeapBreak == P4_KERNEL_HEAP * P4_BYTES && kernelStacksBreak == (P4_KERNEL_STACKS + 1) * P4_BYTES
      ensures tables == Tables(cr3, map[ROOT := cr3], map[], {}) && owner == map[] && overwritten == {}
    {
      this.frames := frames;
      this.cr3 := cr3;
      kernelHeapBreak := FromVirtualAddress(VirtualAddress(0, 0, 0, 0, P4_KERNEL_HEAP, 0));
      kernelStacksBreak := FromVirtualAddress(VirtualAddress(0, 0, 0, 0, P4_KERNEL_STACKS + 1, 0));
      halted := false;
      tables := Tables(cr3, map[ROOT := cr3], map[], {});
      owner, overwritten := map[], {};
      new;
      forall i | 0 <= i < ENTRIES ensures EntryOk(frames.mem, tables, ROOT, i) {
        if i >= 1 { assert EntryAt(frames.mem, cr3, i) == ToPageTableEntry(0); }
      }
    }

    method LoadEntry(table: int, index: nat) returns (e: Entry)
      requires index < ENTRIES
      ensures e == EntryAt(frames.mem, table, index) && e.Fits()
    {
      e := ToPageTableEntry(frames.mem(table, index));
    }

    method StoreEntry(table: int, index: nat, e: Entry)
      requires frames.Valid() && table !in frames.available && index < ENTRIES && e.Fits()
      modifies frames`mem
      ensures frames.Valid()
      ensures frames.mem == Stored(old(frames.mem), table, index, FromPageTableEntry(e))
      ensures EntryAt(frames.mem, table, index) == e
    {
      hide ToPageTableEntry, FromPageTableEntry;
      EntryRoundTrip(e);
      frames.Store(table, index, FromPageTableEntry(e));
    }

    /** Halts when memory runs out, which is exactly when every managed frame is owned. */
    method FrameAllocateSafe() returns (frame: int)
      requires frames.Valid()
      modifies frames, `halted
      ensures frames.Valid()
      ensures halted <==> old(halted) || old(frames.available) == {}
      ensures !halted ==>
                && frame in frames.managed && frame in old(frames.available) && frames.available == old(frames.available) - {frame}
                && IsClear(frames.mem, frame)
      ensures old(frames.available) == {} ==> frames.available == {}
      ensures forall f :: f !in old(frames.available) ==> SameFrame(frames.mem, old(frames.mem), f)
    {
      frame := frames.FrameAllocate();
      if frame == NULL_FRAME {
        halted := true;
      }
    }

    /**
     One level of GetP1Entry: the table below entry `index` of `table`. With `create`, a missing
     table is made from a fresh zeroed frame.
     */
    method NextTable(ghost n: Node, table: int, index: nat, create: bool) returns (r: Option<int>)
      requires Partitioned() && Reflects(frames.mem, tables) && !halted
      requires n in tables.nodes && n.level >= 2 && table == tables.nodes[n]
      requires index < ENTRIES && n.Child(index).InRange()
      modifies frames, this`tables, this`owner, this`halted
      ensures Partitioned()
      ensures halted <==> create && n.Child(index) !in old(tables.nodes) && old(frames.available) == {}
      ensures !halted ==> Reflects(frames.mem, tables)
      ensures halted || !create || n.Child(index) in old(tables.nodes) ==> tables == old(tables)
      ensures !halted && (create || n.Child(index) in old(tables.nodes)) ==>
                && n.Child(index) in tables.nodes && r == Some(tables.nodes[n.Child(index)])
                && tables == old(tables).(nodes := old(tables).nodes[n.Child(index) := r.value])
      ensures halted || (!create && n.Child(index) !in old(tables.nodes)) ==> r == None
      ensures !create ==> unchanged(frames) && owner == old(owner)
      ensures |frames.available| == |old(frames.available)| - (if n.Child(index) in old(tables.nodes) || !create || halted then 0 else 1)
      ensures halted ==> frames.available == {}
      ensures Conserved(old(frames.mem), frames.mem, old(tables).data, old(owner), owner)
    {
      hide ToPageTableEntry, FromPageTableEntry, Conserved;
      ghost var c := n.Child(index);
      ghost var mem0 := frames.mem;
      assert EntryOk(mem0, tables, n, index);
      TableNotFree(n);
      TableNotData(n);
      ConservedSame(mem0, tables.data, owner);
      var e := LoadEntry(table, index);
      if create {
        e := e.(present := true, writable := true, user := true);
        StoreEntry(table, index, e);
        StoreConserves(mem0, table, index, FromPageTableEntry(e), tables.data, owner);
      }
      ghost var mem1 := frames.mem;
      if e.available2 == PAGE_NOT_ALLOCATED {
        if !create {
          return None;
        }
        r := AddTable(n, table, index, e, mem0);
        ConservedTrans(mem0, mem1, frames.mem, tables.data, old(owner), old(owner), owner);
      } else if e.available2 == PAGE_ALLOCATED {
        ReflectsUnaffected(mem0, frames.mem, tables);
        r := Some(e.GetAddress());
      } else {
        r := None;
      }
    }

    /** The creating branch of NextTable, entered with the flags of entry `e` already written. */
    method AddTable(ghost n: Node, table: int, index: nat, e: Entry, ghost mem0: Memory) returns (r: Option<int>)
      requires Partitioned() && !halted
      requires n in tables.nodes && n.level >= 2 && table == tables.nodes[n]
      requires index < ENTRIES && n.Child(index).InRange() && n.Child(index) !in tables.nodes
      requires Reflects(mem0, tables) && OnlyEntryChanged(mem0, frames.mem, tables, n, index)
      requires e.Fits() && e.present && e.writable && e.user && e.Plain()
      modifies frames, this`tables, this`owner, this`halted
      ensures Partitioned()
      ensures halted <==> old(frames.available) == {}
      ensures halted ==> tables == old(tables) && r == None
      ensures !halted ==>
                && Reflects(frames.mem, tables) && r.Some?
                && tables == old(tables).(nodes := old(tables).nodes[n.Child(index) := r.value])
                && |frames.available| == |old(frames.available)| - 1
      ensures halted ==> frames.available == {}
      ensures Conserved(old(frames.mem), frames.mem, old(tables).data, old(owner), owner)
    {
      hide ToPageTableEntry, FromPageTableEntry, Owns, FrameAllocator.Valid, Conserved;
      ghost var c := n.Child(index);
      TableFrames();
      TableNotData(n);
      ghost var mem1 := frames.mem;
      var frame := FrameAllocateSafe();
      ghost var mem2 := frames.mem;
      AllocationConserves(mem1, mem2, old(frames.available), tables.data, owner);
      if halted {
        return None;
      }
      var e' := e.SetAddress(frame).(available2 := PAGE_ALLOCATED);
      StoreEntry(table, index, e');
      NewTableConserves(mem2, table, index, FromPageTableEntry(e'), tables.data, owner, frame, c);
      ConservedTrans(mem1, mem2, frames.mem, tables.data, owner, owner, owner[frame := TableOf(c)]);
      LinkChild(mem0, frames.mem, tables, n, index, frame);
      OwnNewTable(tables, owner, c, frame);
      tables := tables.(nodes := tables.nodes[c := frame]);
      owner := owner[frame := TableOf(c)];
      r := Some(e'.GetAddress());
    }

    /** Tables live in distinct frames, none of them free. */
    lemma TableFrames()
      requires Partitioned()
      ensures forall n :: n in tables.nodes ==> tables.nodes[n] !in frames.available
      ensures forall m, n :: m in tables.nodes && n in tables.nodes && m != n ==> tables.nodes[m] != tables.nodes[n]
      ensures forall n, v :: n in tables.nodes && v in tables.data ==> tables.nodes[n] != tables.data[v]
    {
      forall n | n in tables.nodes ensures tables.nodes[n] !in frames.available { TableNotFree(n); }
      forall m, n | m in tables.nodes && n in tables.nodes && m != n ensures tables.nodes[m] != tables.nodes[n] {
        if m != ROOT { assert owner[tables.nodes[m]] == TableOf(m); }
        if n != ROOT { assert owner[tables.nodes[n]] == TableOf(n); }
      }
      forall n, v | n in tables.nodes && v in tables.data ensures tables.nodes[n] != tables.data[v] {
        assert owner[tables.data[v]] == DataOf(v);
        if n != ROOT { assert owner[tables.nodes[n]] == TableOf(n); }
      }
    }

    lemma TableNotData(n: Node)
      requires Partitioned() && n in tables.nodes
      ensures forall v :: v in tables.data ==> tables.data[v] != tables.nodes[n] && tables.data[v] !in frames.available
    {
      TableFrames();
      forall v | v in tables.data ensures tables.data[v] !in frames.available {
        assert tables.data[v] in owner;
      }
    }

    lemma DataIsAligned(v: int)
      requires Partitioned() && v in tables.data
      ensures tables.data[v] % FRAME_SIZE_BYTES == 0
    {
      assert tables.data[v] in owner;
    }

    lemma TableNotFree(n: Node)
      requires Partitioned() && n in tables.nodes
      ensures tables.nodes[n] !in frames.available
    {
      if n != ROOT { assert tables.nodes[n] in owner; }
    }

    /**
     GetP1Entry. Without `create` it only reads, and finds the entry exactly when there is one.
     With `create` it makes the page's tables, and runs out of memory exactly when fewer frames
     are free than tables are missing.
     */
    method GetP1Entry(address: Word, create: bool) returns (r: Option<Slot>)
      requires Partitioned() && Reflects(frames.mem, tables) && !halted
      requires InPages(PageNumber(address))
      modifies frames, this`tables, this`owner, this`halted
      ensures Partitioned() && (!halted ==> Reflects(frames.mem, tables))
      ensures halted <==> create && |old(frames.available)| < Missing(old(tables), PageNumber(address))
      ensures halted ==> frames.available == {}
      ensures !create ==>
                && unchanged(frames) && tables == old(tables) && owner == old(owner)
                && r == Walk(frames.mem, cr3, 4, PageNumber(address))
      ensures create && !halted ==> Grows(old(tables), tables, PageNumber(address), PageNumber(address) + 1)
      ensures create && !halted ==> |frames.available| == |old(frames.available)| - Missing(old(tables), PageNumber(address))
      ensures Conserved(old(frames.mem), frames.mem, old(tables).data, old(owner), owner)
      ensures !halted ==>
                r == if tables.Mapped(PageNumber(address)) then SlotOf(PageNumber(address)) else None
    {
      hide ToVirtualAddress, Span, PageNumber, ToPageTableEntry, FromPageTableEntry, Owns, FrameAllocator.Valid;
      hide Walk, Reflects, Grows, Missing, Conserved;
      var va := ToVirtualAddress(address);
      ghost var v := PageNumber(address);
      P4IndexIsPageRange(address);
      PathStep(4, v);
      WalkIsLookup(frames.mem, tables, 4, v);
      var p1 := P1Table(v, va, create);
      if p1.None? {
        return None;
      }
      if create {
        ghost var mem1 := frames.mem;
        SetUser(v, p1.value, va.p1);
        ConservedTrans(old(frames.mem), mem1, frames.mem, tables.data, old(owner), owner, owner);
      }
      r := Some(Slot(p1.value, va.p1));
    }

    /** The three levels GetP1Entry descends. */
    method P1Table(ghost v: int, va: VirtualAddress, create: bool) returns (r: Option<int>)
      requires Partitioned() && Reflects(frames.mem, tables) && !halted && InPages(v)
      requires va.p4 == Index(4, v) && va.p3 == Index(3, v) && va.p2 == Index(2, v)
      modifies frames, this`tables, this`owner, this`halted
      ensures Partitioned() && (!halted ==> Reflects(frames.mem, tables))
      ensures halted <==> create && |old(frames.available)| < Missing(old(tables), v)
      ensures halted ==> frames.available == {}
      ensures !create ==> unchanged(frames) && tables == old(tables) && owner == old(owner)
      ensures create && !halted ==>
                && tables.Mapped(v) && tables.user == old(tables).user
                && Grows(old(tables), tables.(user := tables.user + {v}), v, v + 1)
                && |frames.available| == |old(frames.available)| - Missing(old(tables), v)
      ensures Conserved(old(frames.mem), frames.mem, old(tables).data, old(owner), owner) && tables.data == old(tables).data
      ensures r == if halted || !tables.Mapped(v) then None else Some(tables.nodes[On(1, v)])
    {
      hide Span, ToPageTableEntry, FromPageTableEntry, Owns, FrameAllocator.Valid, Reflects, Conserved;
      PathStep(4, v);
      PathStep(3, v);
      PathStep(2, v);
      if !create && tables.Mapped(v) { Ancestor(tables, 2, v); Ancestor(tables, 3, v); }
      var p3 := NextTable(ROOT, cr3, va.p4, create);
      if p3.None? {
        return None;
      }
      ghost var mem1, owner1 := frames.mem, owner;
      var p2 := NextTable(On(3, v), p3.value, va.p3, create);
      ConservedTrans(old(frames.mem), mem1, frames.mem, tables.data, old(owner), owner1, owner);
      if p2.None? {
        return None;
      }
      ghost var mem2, owner2 := frames.mem, owner;
      r := NextTable(On(2, v), p2.value, va.p2, create);
      ConservedTrans(old(frames.mem), mem2, frames.mem, tables.data, old(owner), owner2, owner);
      if create && r.Some? {
        PathGrows(old(tables), v, p3.value, p2.value, r.value);
        ghost var nodes := old(tables).nodes[On(3, v) := p3.value][On(2, v) := p2.value][On(1, v) := r.value];
        assert tables == old(tables).(nodes := nodes);
      }
    }

    /** The last write of GetP1Entry: make the page's own entry user accessible. */
    method SetUser(ghost v: int, table: int, index: nat)
      requires Partitioned() && Reflects(frames.mem, tables) && !halted
      requires InPages(v) && tables.Mapped(v) && table == tables.nodes[On(1, v)] && index == v % ENTRIES
      modifies frames, this`tables
      ensures Partitioned() && Reflects(frames.mem, tables)
      ensures tables == old(tables).(user := old(tables).user + {v})
      ensures frames.available == old(frames.available)
      ensures Conserved(old(frames.mem), frames.mem, tables.data, owner, owner)
    {
      hide ToPageTableEntry, FromPageTableEntry, FrameAllocator.Valid, Conserved;
      TableFrames();
      TableNotData(On(1, v));
      assert EntryOk(frames.mem, tables, On(1, v), index);
      var e := LoadEntry(table, index);
      StoreEntry(table, index, e.(user := true));
      StoreConserves(old(frames.mem), table, index, FromPageTableEntry(e.(user := true)), tables.data, owner);
      ghost var t' := tables.(user := tables.user + {v});
      SetLeaf(old(frames.mem), frames.mem, tables, t', v);
      tables := t';
    }

    /** The slot of a page's p1 entry. */
    ghost function SlotOf(v: int): Option<Slot>
      reads this
      requires tables.Mapped(v)
    {
      Some(Slot(tables.nodes[On(1, v)], v % ENTRIES))
    }

    /** The next heap page: its p1 entry is created, its frame is not. Zero when the heap meets the stacks. */
    method PageAllocate() returns (r: int)
      requires Valid() && !halted
      modifies frames, this`tables, this`owner, this`halted, this`kernelHeapBreak
      ensures Valid()
      ensures old(kernelHeapBreak) + PAGE_SIZE_BYTES >= kernelStacksBreak ==>
                && r == 0 && !halted && unchanged(frames) && unchanged(this)
      ensures old(kernelHeapBreak) + PAGE_SIZE_BYTES < kernelStacksBreak ==>
                && r == old(kernelHeapBreak) && kernelHeapBreak == r + PAGE_SIZE_BYTES
                && (halted <==> |old(frames.available)| < Missing(old(tables), r / PAGE_SIZE_BYTES))
                && (!halted ==>
                  && Grows(old(tables), tables, r / PAGE_SIZE_BYTES, r / PAGE_SIZE_BYTES + 1)
                  && |frames.available| == |old(frames.available)| - Missing(old(tables), r / PAGE_SIZE_BYTES))
      ensures halted ==> frames.available == {}
      ensures Conserved(old(frames.mem), frames.mem, old(tables).data, old(owner), owner)
    {
      hide ToVirtualAddress, PageNumber, Span, ToPageTableEntry, FromPageTableEntry, Owns, FrameAllocator.Valid,
        Reflects, Tables.Shape, Tables.Mapped, Grows, Missing, Conserved;
      ConservedSame(frames.mem, tables.data, owner);
      if kernelHeapBreak + PAGE_SIZE_BYTES >= kernelStacksBreak {
        return 0;
      }
      r := kernelHeapBreak;
      kernelHeapBreak := kernelHeapBreak + PAGE_SIZE_BYTES;
      PageNumberOf(r);
      var slot := GetP1Entry(r, true);
      ConservedLost(old(frames.mem), frames.mem, old(tables).data, old(owner), owner);
      if !halted { HeapLayout(r, kernelStacksBreak, old(tables), tables, 1); }
    }

    /** `numPages` heap pages in a row, or zero when they do not fit below the stacks. */
    method PageAllocateContiguous(numPages: nat) returns (r: int)
      requires Valid() && !halted && numPages < MAX_PRODUCTS
      modifies frames, this`tables, this`owner, this`halted, this`kernelHeapBreak
      ensures Valid()
      ensures old(kernelHeapBreak) + numPages * PAGE_SIZE_BYTES >= kernelStacksBreak ==>
                && r == 0 && !halted && unchanged(frames) && unchanged(this)
      ensures old(kernelHeapBreak) + numPages * PAGE_SIZE_BYTES < kernelStacksBreak ==>
                var lo := old(kernelHeapBreak) / PAGE_SIZE_BYTES; var missing := MissingCount(old(tables), lo, lo + numPages);
                && (halted <==> |old(frames.available)| < missing)
                && (!halted ==>
                  && r == old(kernelHeapBreak) && kernelHeapBreak == r + numPages * PAGE_SIZE_BYTES
                  && Grows(old(tables), tables, lo, lo + numPages)
                  && |frames.available| == |old(frames.available)| - missing)
      ensures halted ==> frames.available == {}
      ensures Conserved(old(frames.mem), frames.mem, old(tables).data, old(owner), owner)
    {
      hide ToVirtualAddress, PageNumber, Span, ToPageTableEntry, FromPageTableEntry, Owns, FrameAllocator.Valid,
        Reflects, Tables.Shape, Tables.Mapped, Grows, Missing, MissingCount, Conserved;
      ConservedSame(frames.mem, tables.data, owner);
      if kernelHeapBreak + numPages * PAGE_SIZE_BYTES >= kernelStacksBreak {
        return 0;
      }
      r := kernelHeapBreak;
      ghost var lo := r / PAGE_SIZE_BYTES;
      GrowsNot(tables, lo);
      MissingNone(tables, lo);
      var i := 0;
      while i < numPages
        invariant 0 <= i <= numPages && r == old(kernelHeapBreak)
        invariant Valid() && !halted
        invariant kernelHeapBreak == r + i * PAGE_SIZE_BYTES
        invariant Grows(old(tables), tables, lo, lo + i) && tables.data == old(tables).data
        invariant Conserved(old(frames.mem), frames.mem, old(tables).data, old(owner), owner)
        invariant |frames.available| == |old(frames.available)| - MissingCount(old(tables), lo, lo + i)
      {
        ghost var before, mem1, owner1 := tables, frames.mem, owner;
        MissingMore(old(tables), tables, lo, lo + i, lo + numPages);
        var page := PageAllocate();
        ConservedTrans(old(frames.mem), mem1, frames.mem, old(tables).data, old(owner), owner1, owner);
        if halted {
          return;
        }
        GrowsData(before, tables, lo + i, lo + i + 1);
        GrowsStep(old(tables), before, tables, lo, lo + i);
        i := i + 1;
      }
    }

    /** A 16 MiB stack just below the previous one; the result is 16 bytes below its upper end. */
    method StackAllocate() returns (r: int)
      requires Valid() && !halted
      modifies frames, this`tables, this`owner, this`halted, this`kernelStacksBreak
      ensures Valid()
      ensures old(kernelStacksBreak) - STACK_SIZE_BYTES <= kernelHeapBreak ==>
                && r == 0 && !halted && unchanged(frames) && unchanged(this)
      ensures old(kernelStacksBreak) - STACK_SIZE_BYTES > kernelHeapBreak ==>
                && kernelStacksBreak == old(kernelStacksBreak) - STACK_SIZE_BYTES
                && r == old(kernelStacksBreak) - 16 && StackBase(r) == kernelStacksBreak
      ensures old(kernelStacksBreak) - STACK_SIZE_BYTES > kernelHeapBreak ==>
                var lo := kernelStacksBreak / PAGE_SIZE_BYTES; var missing := MissingCount(old(tables), lo, lo + STACK_PAGES);
                && (halted <==> |old(frames.available)| < missing)
                && (!halted ==>
                  && Grows(old(tables), tables, lo, lo + STACK_PAGES)
                  && |frames.available| == |old(frames.available)| - missing)
      ensures halted ==> frames.available == {}
      ensures Conserved(old(frames.mem), frames.mem, old(tables).data, old(owner), owner)
    {
      hide ToVirtualAddress, PageNumber, Span, ToPageTableEntry, FromPageTableEntry, Owns, FrameAllocator.Valid,
        Reflects, Tables.Shape, Tables.Mapped, Grows, Missing, MissingCount, Conserved, StackBase;
      ConservedSame(frames.mem, tables.data, owner);
      if kernelStacksBreak - STACK_SIZE_BYTES <= kernelHeapBreak {
        return 0;
      }
      r := kernelStacksBreak - 16;
      kernelStacksBreak := kernelStacksBreak - STACK_SIZE_BYTES;
      ghost var lo := kernelStacksBreak / PAGE_SIZE_BYTES;
      GrowsNot(tables, lo);
      MissingNone(tables, lo);
      StackStep(old(kernelStacksBreak));
      StackBaseRecovered(kernelStacksBreak, r);
      var i := 0;
      while i < STACK_PAGES
        invariant 0 <= i <= STACK_PAGES && kernelStacksBreak == old(kernelStacksBreak) - STACK_SIZE_BYTES
        invariant Partitioned() && Reflects(frames.mem, tables) && !halted
        invariant Grows(old(tables), tables, lo, lo + i) && tables.data == old(tables).data
        invariant Conserved(old(frames.mem), frames.mem, old(tables).data, old(owner), owner)
        invariant |frames.available| == |old(frames.available)| - MissingCount(old(tables), lo, lo + i)
      {
        ghost var before, mem1, owner1 := tables, frames.mem, owner;
        MissingMore(old(tables), tables, lo, lo + i, lo + STACK_PAGES);
        PageNumberOf(kernelStacksBreak + PAGE_SIZE_BYTES * i);
        var slot := GetP1Entry(kernelStacksBreak + PAGE_SIZE_BYTES * i, true);
        ConservedTrans(old(frames.mem), mem1, frames.mem, old(tables).data, old(owner), owner1, owner);
        ConservedLost(old(frames.mem), frames.mem, old(tables).data, old(owner), owner);
        if halted {
          return;
        }
        GrowsData(before, tables, lo + i, lo + i + 1);
        GrowsStep(old(tables), before, tables, lo, lo + i);
        i := i + 1;
      }
      ConservedLost(old(frames.mem), frames.mem, old(tables).data, old(owner), owner);
      StackLayout(kernelHeapBreak, old(kernelStacksBreak), old(tables), tables);
    }

    /**
     Creates entries for exactly the pages from the one of `address` up to the end of the range,
     the 64-bit sum; none when that overflows to an address below the first page. In the last 4095
     bytes of the address space the counter would wrap to zero and the loop would never end.
     */
    method AllocateUserSpace(address: Word, numBytes: Word) returns (r: int)
      requires Valid() && !halted
      requires AvoidsIdentityMap(address, numBytes) && UserEnd(address, numBytes) <= TWO_64 - PAGE_SIZE_BYTES
      modifies frames, this`tables, this`owner, this`halted
      ensures Valid()
      ensures var lo := PageNumber(address); var hi := lo + UserPages(address, numBytes);
        var missing := MissingCount(old(tables), lo, hi);
        && (halted <==> |old(frames.available)| < missing)
        && (!halted ==>
          && r == 0 && Grows(old(tables), tables, lo, hi)
          && |frames.available| == |old(frames.available)| - missing)
      ensures halted ==> frames.available == {}
      ensures Conserved(old(frames.mem), frames.mem, old(tables).data, old(owner), owner)
    {
      hide ToVirtualAddress, PageNumber, Span, ToPageTableEntry, FromPageTableEntry, Owns, FrameAllocator.Valid,
        Reflects, Tables.Shape, Tables.Mapped, Grows, Missing, MissingCount, Conserved, UserPages, UserEnd,
        AvoidsIdentityMap, AlignAddressDown;
      ConservedSame(frames.mem, tables.data, owner);
      r := 0;
      ghost var lo, count := PageNumber(address), UserPages(address, numBytes);
      var aligned := AlignAddressDown(address);
      ghost var i := 0;
      GrowsNot(tables, lo);
      MissingNone(tables, lo);
      UserLoopEnds(address, numBytes, 0);
      while aligned < UserEnd(address, numBytes)
        invariant 0 <= i <= count && aligned == AlignAddressDown(address) + i * PAGE_SIZE_BYTES
        invariant aligned < UserEnd(address, numBytes) <==> i < count
        invariant Valid() && !halted
        invariant Grows(old(tables), tables, lo, lo + i) && tables.data == old(tables).data
        invariant Conserved(old(frames.mem), frames.mem, old(tables).data, old(owner), owner)
        invariant |frames.available| == |old(frames.available)| - MissingCount(old(tables), lo, lo + i)
        decreases count - i
      {
        UserPage(address, numBytes, i);
        UserLoopEnds(address, numBytes, i + 1);
        ghost var before, mem1, owner1 := tables, frames.mem, owner;
        MissingMore(old(tables), tables, lo, lo + i, lo + count);
        var slot := GetP1Entry(aligned, true);
        ConservedTrans(old(frames.mem), mem1, frames.mem, old(tables).data, old(owner), owner1, owner);
        ConservedLost(old(frames.mem), frames.mem, old(tables).data, old(owner), owner);
        if halted {
          return;
        }
        GrowsData(before, tables, lo + i, lo + i + 1);
        UserLayout(kernelHeapBreak, kernelStacksBreak, before, tables, lo + i, lo + i + 1);
        GrowsStep(old(tables), before, tables, lo, lo + i);
        i := i + 1;
        aligned := (aligned + PAGE_SIZE_BYTES) % TWO_64;
      }
    }

    // ----- demand paging and release -----

    /**
     HandlePageFault. It halts exactly outside the mapped pages or when memory is exhausted.
     Otherwise the page gets a zeroed frame that was free. A frame the page already had is lost; no
     other operation adds to the lost frames.
     */
    method HandlePageFault(address: Word)
      requires Valid() && !halted
      modifies frames, this`tables, this`owner, this`overwritten, this`halted
      ensures Valid()
      ensures halted <==> P4Index(address) == 0 || !old(tables).Mapped(PageNumber(address)) || old(frames.available) == {}
      ensures !halted ==>
                var v := PageNumber(address);
                && v in tables.data && tables.data[v] in old(frames.available) && IsClear(frames.mem, tables.data[v])
                && tables.data == old(tables).data[v := tables.data[v]]
                && tables.user == (if P4Index(address) >= P4_USERSPACE_START then old(tables).user + {v} else old(tables).user)
                && tables.nodes == old(tables).nodes
                && overwritten == old(overwritten) + (if v in old(tables).data then {old(tables).data[v]} else {})
                && frames.available == old(frames.available) - {tables.data[v]}
      ensures !halted ==>
                var v := PageNumber(address);
                && FaultWord(frames.mem(tables.nodes[On(1, v)], v % 512), tables.data[v], v in tables.user)
                && Translate(frames.mem, cr3, 4, address)
                   == Some(Translation(tables.data[v] + address % 0x1000, true, v in tables.user, true))
      ensures halted ==> overwritten == old(overwritten)
      ensures DataKept(old(frames.mem), frames.mem, old(tables).data)
    {
      hide ToVirtualAddress, PageNumber, Span, ToPageTableEntry, FromPageTableEntry, Owns, FrameAllocator.Valid,
        Reflects, Tables.Shape, Grows, Missing, DataKept, Translate, TableIndex, FaultWord;
      ghost var mem0 := frames.mem;
      DataKeptSame(mem0, tables.data);
      P4IndexIsPageRange(address);
      ghost var v := PageNumber(address);
      var p4 := ToVirtualAddress(address).p4;
      var slot: Option<Slot> := None;
      if P4_KERNEL_HEAP <= p4 <= P4_KERNEL_STACKS {
        slot := GetP1Entry(address, false);
      } else if p4 >= P4_USERSPACE_START {
        slot := GetP1Entry(address, false);
        if slot.Some? {
          SetUser(v, slot.value.table, slot.value.index);
          ConservedData(mem0, frames.mem, tables.data, owner, owner);
        }
      } else {
        halted := true;
        return;
      }
      if slot.None? {
        halted := true;
        return;
      }
      ghost var mem1 := frames.mem;
      ResolveFault(v, slot.value);
      DataKeptTrans(mem0, mem1, frames.mem, old(tables).data);
      if !halted && v in old(tables).data {
        overwritten := overwritten + {old(tables).data[v]};
      }
      if !halted {
        SameNodesLayout(kernelHeapBreak, kernelStacksBreak, old(tables), tables);
        DataIsMapped(frames.mem, tables, address);
      }
    }

    /**
     A store of the running program to an address whose page has a frame. It reaches that frame
     through the translation, and no table, no free list and no other page.
     */
    method ProgramStore(address: Word, value: Word)
      requires Valid() && !halted
      requires InPages(PageNumber(address)) && PageNumber(address) in tables.data
      modifies frames`mem
      ensures Valid()
      ensures var v := PageNumber(address);
        && Translate(old(frames.mem), cr3, 4, address)
           == Some(Translation(tables.data[v] + address % 0x1000, true, v in tables.user, true))
        && frames.mem == Stored(old(frames.mem), tables.data[v], address % PAGE_SIZE_BYTES / 8, value)
        && DataKept(old(frames.mem), frames.mem, tables.data - {v})
    {
      hide PageNumber, ToPageTableEntry, FromPageTableEntry, FrameAllocator.Valid, Layout, Span, Translate, TableIndex, FaultWord;
      ghost var v := PageNumber(address);
      DataIsMapped(frames.mem, tables, address);
      TableFrames();
      TableNotData(ROOT);
      var physical := Translate(frames.mem, cr3, 4, address).value.physical;
      assert owner[tables.data[v]] == DataOf(v);
      DataIsAligned(v);
      FrameAndOffset(tables.data[v], address % PAGE_SIZE_BYTES);
      frames.Store(physical - physical % PAGE_SIZE_BYTES, physical % PAGE_SIZE_BYTES / 8, value);
      ReflectsUnaffected(old(frames.mem), frames.mem, tables);
    }

    /** The end of HandlePageFault: a fresh frame for the entry, whatever it held before. */
    method ResolveFault(ghost v: int, slot: Slot)
      requires Partitioned() && Reflects(frames.mem, tables) && !halted
      requires InPages(v) && tables.Mapped(v) && Some(slot) == SlotOf(v)
      modifies frames, this`tables, this`owner, this`halted
      ensures Partitioned() && (!halted ==> Reflects(frames.mem, tables))
      ensures halted <==> old(frames.available) == {}
      ensures halted ==> tables == old(tables) && owner == old(owner)
      ensures !halted ==>
                && v in tables.data && tables.data[v] in old(frames.available) && IsClear(frames.mem, tables.data[v])
                && tables == old(tables).(data := old(tables).data[v := tables.data[v]])
                && LostFrames(owner) == LostFrames(old(owner)) + (if v in old(tables).data then {old(tables).data[v]} else {})
                && frames.available == old(frames.available) - {tables.data[v]}
      ensures DataKept(old(frames.mem), frames.mem, old(tables).data)
    {
      hide ToPageTableEntry, FromPageTableEntry, Owns, FrameAllocator.Valid, Tables.Shape, LostFrames, Span, DataKept;
      TableFrames();
      TableNotData(On(1, v));
      OnOne(v);
      var frame := FrameAllocateSafe();
      ghost var mem1 := frames.mem;
      AllocationKeepsData(old(frames.mem), mem1, old(frames.available), tables.data);
      if halted {
        return;
      }
      var e := LoadEntry(slot.table, slot.index);
      e := e.SetAddress(frame);
      e := e.(present := true, writable := true, available2 := PAGE_ALLOCATED);
      assert EntryOk(old(frames.mem), tables, On(1, v), slot.index);
      StoreEntry(slot.table, slot.index, e);
      StoredKeepsData(mem1, slot.table, slot.index, FromPageTableEntry(e), tables.data);
      DataKeptTrans(old(frames.mem), mem1, frames.mem, tables.data);
      NewDataShape(tables, v, frame);
      OwnNewData(tables, owner, v, frame);
      LostOnInstall(tables, owner, v, frame);
      SetLeaf(old(frames.mem), frames.mem, tables, tables.(data := tables.data[v := frame]), v);
      owner := (if v in tables.data then owner[tables.data[v] := Lost] else owner)[frame := DataOf(v)];
      tables := tables.(data := tables.data[v := frame]);
    }

    /**
     Demand paging never fails inside what was handed out: the address lies under P4 entries 1 to 14
     and has a p1 entry, so HandlePageFault can only halt there when memory is exhausted.
     */
    lemma HandedOutIsMapped(address: Word)
      requires Valid() && !halted
      requires P4_BYTES <= address < kernelHeapBreak || kernelStacksBreak <= address < (P4_KERNEL_STACKS + 1) * P4_BYTES
      ensures P4_KERNEL_HEAP <= P4Index(address) <= P4_KERNEL_STACKS
      ensures tables.Mapped(PageNumber(address))
    {
      hide ToVirtualAddress, Reflects, FrameAllocator.Valid, Owns;
      P4IndexIsPageRange(address);
      PageNumberOf(address);
    }

    /**
     Conservation: at every moment each managed frame is free, a table, the data of one page, or
     overwritten by a second fault, and the four kinds add up to the memory FrameInit took over.
     */
    lemma FramesAccountedFor()
      requires Valid()
      ensures |frames.managed| == |frames.available| + (|tables.nodes.Keys| - 1) + |tables.data.Keys| + |overwritten|
      ensures forall f :: f in frames.managed ==> (f in frames.available <==> f !in owner)
    {
      frames.OutstandingCount();
      OwnedCount(tables, owner);
    }

    /** Clears a p1 entry and gives its frame back. */
    method Release(ghost v: int, slot: Slot)
      requires Partitioned() && Reflects(frames.mem, tables) && !halted
      requires InPages(v) && v in tables.data && tables.Mapped(v) && Some(slot) == SlotOf(v)
      modifies frames, this`tables, this`owner
      ensures Partitioned() && Reflects(frames.mem, tables)
      ensures tables == old(tables).(data := old(tables).data - {v})
      ensures owner == old(owner) - {old(tables).data[v]}
      ensures frames.available == old(frames.available) + {old(tables).data[v]}
      ensures frames.free == [old(tables).data[v]] + old(frames.free)
      ensures Conserved(old(frames.mem), frames.mem, tables.data, old(owner), owner)
    {
      hide ToPageTableEntry, FromPageTableEntry, FrameAllocator.Valid, Conserved;
      TableFrames();
      TableNotData(On(1, v));
      assert EntryOk(frames.mem, tables, On(1, v), slot.index);
      var e := LoadEntry(slot.table, slot.index);
      ghost var cleared := FromPageTableEntry(e.(present := false, writable := false, available2 := PAGE_NOT_ALLOCATED));
      StoreEntry(slot.table, slot.index, e.(present := false, writable := false, available2 := PAGE_NOT_ALLOCATED));
      var frame := e.GetAddress();
      assert frame in owner && owner[frame] == DataOf(v);
      ReleaseConserves(old(frames.mem), slot.table, slot.index, cleared, tables, owner, v, frames.freeFrame);
      frames.FrameFree(frame);
      NewDataShape(tables, v, frame);
      OwnDropData(tables, owner, v);
      SetLeaf(old(frames.mem), frames.mem, tables, tables.(data := tables.data - {v}), v);
      owner := owner - {frame};
      tables := tables.(data := tables.data - {v});
    }

    /** Clears a p1 entry that has no frame, which changes nothing that matters. */
    method ClearUnused(ghost v: int, slot: Slot)
      requires Partitioned() && Reflects(frames.mem, tables) && !halted
      requires InPages(v) && v !in tables.data && tables.Mapped(v) && Some(slot) == SlotOf(v)
      modifies frames`mem
      ensures Partitioned() && Reflects(frames.mem, tables)
      ensures Conserved(old(frames.mem), frames.mem, tables.data, owner, owner)
    {
      hide ToPageTableEntry, FromPageTableEntry, FrameAllocator.Valid, Conserved;
      TableFrames();
      TableNotData(On(1, v));
      assert EntryOk(frames.mem, tables, On(1, v), slot.index);
      var e := LoadEntry(slot.table, slot.index);
      StoreEntry(slot.table, slot.index, e.(present := false, writable := false, available2 := PAGE_NOT_ALLOCATED));
      StoreConserves(old(frames.mem), slot.table, slot.index,
        FromPageTableEntry(e.(present := false, writable := false, available2 := PAGE_NOT_ALLOCATED)), tables.data, owner);
      SetLeaf(old(frames.mem), frames.mem, tables, tables, v);
    }

    /** PageFree of a page with an entry: halts exactly when the page was never touched. */
    method PageFree(page: Word)
      requires Valid() && !halted
      requires InPages(PageNumber(page)) && tables.Mapped(PageNumber(page))
      modifies frames, this`tables, this`owner, this`halted
      ensures Valid()
      ensures halted <==> PageNumber(page) !in old(tables).data
      ensures !halted ==>
                && tables == old(tables).(data := old(tables).data - {PageNumber(page)})
                && owner == old(owner) - {old(tables).data[PageNumber(page)]}
                && frames.available == old(frames.available) + {old(tables).data[PageNumber(page)]}
      ensures halted ==> unchanged(frames) && tables == old(tables) && owner == old(owner)
      ensures Conserved(old(frames.mem), frames.mem, tables.data, old(owner), owner)
    {
      hide ToVirtualAddress, PageNumber, Span, ToPageTableEntry, FromPageTableEntry, Owns, FrameAllocator.Valid,
        Grows, Missing, Conserved;
      ConservedSame(frames.mem, tables.data, owner);
      ghost var v := PageNumber(page);
      var slot := GetP1Entry(page, false);
      assert EntryOk(frames.mem, tables, On(1, v), v % ENTRIES);
      OnOne(v);
      var e := LoadEntry(slot.value.table, slot.value.index);
      if !e.present || !e.writable || e.available2 != PAGE_ALLOCATED {
        halted := true;
        return;
      }
      Release(v, slot.value);
      ConservedLost(old(frames.mem), frames.mem, tables.data, old(owner), owner);
      SameNodesLayout(kernelHeapBreak, kernelStacksBreak, old(tables), tables);
    }

    /** PageFreeContiguous: halts exactly when some page of the run was never touched. */
    method PageFreeContiguous(page: nat, numPages: nat)
      requires Valid() && !halted
      requires P4_BYTES <= page && page + numPages * PAGE_SIZE_BYTES <= ALL_PAGES * PAGE_SIZE_BYTES
      requires numPages <= MAX_PRODUCTS
      requires forall v :: page / PAGE_SIZE_BYTES <= v < page / PAGE_SIZE_BYTES + numPages ==> tables.Mapped(v)
      modifies frames, this`tables, this`owner, this`halted
      ensures Valid()
      ensures var lo := page / PAGE_SIZE_BYTES;
        && (halted <==> exists v :: lo <= v < lo + numPages && v !in old(tables).data)
        && (!halted ==>
          && tables == DropData(old(tables), lo, lo + numPages)
          && frames.available == old(frames.available) + DataFrames(old(tables), lo, lo + numPages))
      ensures Conserved(old(frames.mem), frames.mem, tables.data, old(owner), owner)
    {
      hide ToVirtualAddress, PageNumber, Span, ToPageTableEntry, FromPageTableEntry, Owns, FrameAllocator.Valid,
        Reflects, Tables.Shape, Grows, Missing, Conserved, LostFrames, DropData, DataFrames;
      DropDataFrames(tables, page / PAGE_SIZE_BYTES, page / PAGE_SIZE_BYTES);
      ConservedSame(frames.mem, tables.data, owner);
      ghost var lo := page / PAGE_SIZE_BYTES;
      var i := 0;
      while i < numPages
        invariant 0 <= i <= numPages
        invariant Valid() && !halted
        invariant forall v :: lo <= v < lo + i ==> v in old(tables).data
        invariant tables == DropData(old(tables), lo, lo + i)
        invariant frames.available == old(frames.available) + DataFrames(old(tables), lo, lo + i)
        invariant Conserved(old(frames.mem), frames.mem, tables.data, old(owner), owner)
      {
        ghost var mem1, data1, owner1 := frames.mem, tables.data, owner;
        PageNumberOf(page + PAGE_SIZE_BYTES * i);
        DropDataFrames(old(tables), lo, lo + i);
        assert old(tables).Mapped(lo + i);
        PageFree(page + PAGE_SIZE_BYTES * i);
        ConservedFewer(old(frames.mem), mem1, data1, tables.data, old(owner), owner1);
        ConservedTrans(old(frames.mem), mem1, frames.mem, tables.data, old(owner), owner1, owner);
        if halted {
          return;
        }
        i := i + 1;
      }
    }

    /**
     StackFree of any address inside a stack: gives back every frame of that stack. Freeing a
     stack none of whose pages has a frame, as after an earlier StackFree, releases nothing.
     */
    method StackFree(pointer: nat)
      requires Valid() && !halted
      requires P4_BYTES <= StackBase(pointer) && StackBase(pointer) + STACK_SIZE_BYTES <= ALL_PAGES * PAGE_SIZE_BYTES
      requires var lo := StackBase(pointer) / PAGE_SIZE_BYTES;
        forall v :: lo <= v < lo + STACK_PAGES ==> tables.Mapped(v)
      modifies frames, this`tables, this`owner, this`halted
      ensures Valid() && !halted
      ensures var lo := StackBase(pointer) / PAGE_SIZE_BYTES;
        && tables == DropData(old(tables), lo, lo + STACK_PAGES)
        && frames.available == old(frames.available) + DataFrames(old(tables), lo, lo + STACK_PAGES)
        && ((forall v :: lo <= v < lo + STACK_PAGES ==> v !in old(tables).data) ==> frames.available == old(frames.available))
      ensures Conserved(old(frames.mem), frames.mem, tables.data, old(owner), owner)
    {
      hide ToVirtualAddress, PageNumber, Span, ToPageTableEntry, FromPageTableEntry, Owns, FrameAllocator.Valid,
        Tables.Shape, Grows, Missing, DataFrames, StackBase, Conserved, LostFrames, DropData;
      ConservedSame(frames.mem, tables.data, owner);
      var stack := StackBase(pointer);
      ghost var lo := stack / PAGE_SIZE_BYTES;
      NoDataFrames(tables, lo, lo + STACK_PAGES);
      DropDataFrames(tables, lo, lo);
      var i := 0;
      while i < STACK_PAGES
        invariant 0 <= i <= STACK_PAGES
        invariant Valid() && !halted
        invariant tables == DropData(old(tables), lo, lo + i)
        invariant frames.available == old(frames.available) + DataFrames(old(tables), lo, lo + i)
        invariant Conserved(old(frames.mem), frames.mem, tables.data, old(owner), owner)
      {
        ghost var mem1, data1, owner1 := frames.mem, tables.data, owner;
        PageNumberOf(stack + PAGE_SIZE_BYTES * i);
        DropDataFrames(old(tables), lo, lo + i);
        assert old(tables).Mapped(lo + i);
        FreeStackPage(stack + PAGE_SIZE_BYTES * i);
        ConservedFewer(old(frames.mem), mem1, data1, tables.data, old(owner), owner1);
        ConservedTrans(old(frames.mem), mem1, frames.mem, tables.data, old(owner), owner1, owner);
        i := i + 1;
      }
    }

    /** One round of StackFree's loop. */
    method FreeStackPage(page: Word)
      requires Valid() && !halted
      requires InPages(PageNumber(page)) && tables.Mapped(PageNumber(page))
      modifies frames, this`tables, this`owner, this`halted
      ensures Valid() && !halted
      ensures var v := PageNumber(page);
        && tables == old(tables).(data := old(tables).data - {v})
        && frames.available == old(frames.available) + (if v in old(tables).data then {old(tables).data[v]} else {})
      ensures Conserved(old(frames.mem), frames.mem, tables.data, old(owner), owner)
    {
      hide ToVirtualAddress, PageNumber, Span, ToPageTableEntry, FromPageTableEntry, Owns, FrameAllocator.Valid,
        Grows, Missing, Conserved;
      ghost var v := PageNumber(page);
      var slot := GetP1Entry(page, false);
      assert EntryOk(frames.mem, tables, On(1, v), v % ENTRIES);
      OnOne(v);
      var e := LoadEntry(slot.value.table, slot.value.index);
      if e.available2 == PAGE_ALLOCATED {
        Release(v, slot.value);
      } else {
        ClearUnused(v, slot.value);
      }
      ConservedLost(old(frames.mem), frames.mem, tables.data, old(owner), owner);
      SameNodesLayout(kernelHeapBreak, kernelStacksBreak, old(tables), tables);
    }
  }
}
