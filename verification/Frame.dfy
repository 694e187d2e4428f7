/**
 The physical frame allocator: free frames form a linked list threaded through
 the first word of each frame, and unopened 512-frame regions form a second
 list threaded through the first word of each region.
 */
module Frame {
  import opened Prelude
  import opened Chain

  const FRAME_SIZE_BYTES := 4096
  const REGION_MAX_FRAMES := 512
  const REGION_MAX_SIZE_BYTES := REGION_MAX_FRAMES * FRAME_SIZE_BYTES
  const WORDS_PER_FRAME := 512
  const NULL_FRAME: int := 0xFFFF_FFFF_FFFF_FFFF

  /** The first GiB, which the boot code maps one to one; the allocator writes frames through that mapping. */
  const PHYSICAL_LIMIT := 0x4000_0000

  /** The loops over frames and regions multiply a size by an index in a 32-bit int. */
  const INT_MAX := 0x7FFF_FFFF

  predicate FitsInt(step: nat, i: nat) { step * i <= INT_MAX }

  /** An unsigned 64-bit machine word. */
  type Word = w: nat | w < 0x1_0000_0000_0000_0000

  /** Physical memory: mem(f, k) is the word at byte address f + 8 * k, for a frame base f and k < 512. */
  type Memory = (int, int) -> int

  function Stored(mem: Memory, frame: int, index: int, value: int): Memory {
    (f, k) => if f == frame && k == index then value else mem(f, k)
  }

  /** memset of one frame to zero. */
  function Cleared(mem: Memory, frame: int): Memory {
    (f, k) => if f == frame then 0 else mem(f, k)
  }

  /** `f` holds the same 512 words in both memories. */
  ghost predicate SameFrame(mem: Memory, mem': Memory, f: int) {
    forall k :: 0 <= k < WORDS_PER_FRAME ==> mem(f, k) == mem'(f, k)
  }

  ghost predicate IsClear(mem: Memory, f: int) {
    forall k :: 0 <= k < WORDS_PER_FRAME ==> mem(f, k) == 0
  }

  // ----- address rounding -----

  function AlignAddressUp(address: Word): (r: Word)
    ensures address <= TWO_64 - FRAME_SIZE_BYTES <==> address <= r
    ensures address <= r ==> r % FRAME_SIZE_BYTES == 0 && r < address + FRAME_SIZE_BYTES
  {
    var leftover := address % FRAME_SIZE_BYTES;
    if leftover == 0 then address else (address + FRAME_SIZE_BYTES - leftover) % TWO_64
  }

  function AlignAddressDown(address: Word): (r: Word)
    ensures r % FRAME_SIZE_BYTES == 0 && r <= address < r + FRAME_SIZE_BYTES
  {
    address - address % FRAME_SIZE_BYTES
  }

  /** The products of the two loops are exact up to 2^19 frames and 1024 regions, and not beyond. */
  lemma ProductsFitIff(frames: nat, regions: nat)
    ensures (forall i :: 0 <= i < frames ==> FitsInt(FRAME_SIZE_BYTES, i)) <==> frames <= 0x8_0000
    ensures (forall i :: 0 <= i < regions ==> FitsInt(REGION_MAX_SIZE_BYTES, i)) <==> regions <= 1024
  {
    assert frames > 0x8_0000 ==> !FitsInt(FRAME_SIZE_BYTES, 0x8_0000);
    assert regions > 1024 ==> !FitsInt(REGION_MAX_SIZE_BYTES, 1024);
  }

  // ----- the two intrusive lists -----

  /** The links of the lists threaded through free frames: word 0 of each frame. */
  function Links(mem: Memory): int -> int {
    f => mem(f, 0)
  }

  /** `head` starts a null-terminated list that visits exactly `items`. */
  ghost predicate IsChain(mem: Memory, head: int, items: seq<int>) {
    Segment(Links(mem), head, items, NULL_FRAME)
  }

  /** `f` is one of the `count` frames from `start` on. */
  ghost predicate InRange(start: int, count: nat, f: int) {
    f % FRAME_SIZE_BYTES == 0 && start <= f < start + FRAME_SIZE_BYTES * count
  }

  /** `f` is a frame of one of the unopened regions. */
  ghost predicate InRegions(regions: seq<int>, f: int) {
    exists j :: 0 <= j < |regions| && InRange(regions[j], REGION_MAX_FRAMES, f)
  }

  /** Regions lie one after the other, in list order. */
  ghost predicate Ascending(regions: seq<int>) {
    && (forall i, j :: 0 <= i < j < |regions| ==> regions[i] + REGION_MAX_SIZE_BYTES <= regions[j])
    && (forall i :: 0 <= i < |regions| ==> regions[i] % FRAME_SIZE_BYTES == 0)
  }

  ghost function FrameSet(start: int, count: nat): set<int> {
    set f | start <= f < start + FRAME_SIZE_BYTES * count && InRange(start, count, f)
  }

  lemma FrameSetIs(start: int, count: nat, f: int)
    ensures f in FrameSet(start, count) <==> InRange(start, count, f)
  {}

  lemma FrameSetStep(start: int, count: nat)
    requires start % FRAME_SIZE_BYTES == 0 && count > 0
    ensures var last := start + FRAME_SIZE_BYTES * (count - 1);
      last !in FrameSet(start, count - 1) && FrameSet(start, count) == FrameSet(start, count - 1) + {last}
  {}

  lemma {:induction false} FrameSetSize(start: int, count: nat)
    requires start % FRAME_SIZE_BYTES == 0
    ensures |FrameSet(start, count)| == count
  {
    if count == 0 {
      assert FrameSet(start, 0) == {};
    } else {
      FrameSetSize(start, count - 1);
      FrameSetStep(start, count);
    }
  }

  lemma FrameSeqMembers(start: int, count: nat)
    requires start % FRAME_SIZE_BYTES == 0
    ensures forall f :: f in Spaced(start, FRAME_SIZE_BYTES, count) <==> InRange(start, count, f)
    ensures Distinct(Spaced(start, FRAME_SIZE_BYTES, count))
  {
    SpacedAt(start, FRAME_SIZE_BYTES, count);
    forall f | InRange(start, count, f) ensures f in Spaced(start, FRAME_SIZE_BYTES, count) {
      assert Spaced(start, FRAME_SIZE_BYTES, count)[(f - start) / FRAME_SIZE_BYTES] == f;
    }
  }

  lemma DisjointSizes(start1: int, n1: nat, start2: int, n2: nat)
    requires start1 % FRAME_SIZE_BYTES == 0 && start2 % FRAME_SIZE_BYTES == 0
    requires start1 + FRAME_SIZE_BYTES * n1 <= start2
    ensures |FrameSet(start1, n1) + FrameSet(start2, n2)| == n1 + n2
  {
    FrameSetSize(start1, n1);
    FrameSetSize(start2, n2);
    assert FrameSet(start1, n1) !! FrameSet(start2, n2);
  }

  lemma SpacedAscending(start: int, count: nat)
    requires start % FRAME_SIZE_BYTES == 0
    ensures Ascending(Spaced(start, REGION_MAX_SIZE_BYTES, count))
  {
    SpacedAt(start, REGION_MAX_SIZE_BYTES, count);
  }

  lemma InitialLists(start1: int, n1: nat, start2: int, r: nat)
    requires start1 % FRAME_SIZE_BYTES == 0 && start2 % FRAME_SIZE_BYTES == 0
    requires start1 + FRAME_SIZE_BYTES * n1 <= start2
    ensures var free := Spaced(start1, FRAME_SIZE_BYTES, n1);
      var regions := Spaced(start2, REGION_MAX_SIZE_BYTES, r);
      var managed := FrameSet(start1, n1) + FrameSet(start2, REGION_MAX_FRAMES * r);
      && Distinct(free) && Ascending(regions)
      && (forall f :: f in managed <==> f in free || InRegions(regions, f))
      && (forall f :: f in free ==> !InRegions(regions, f))
      && (forall f :: f in regions ==> f in managed && f !in free)
      && (forall f :: f in managed ==> f % FRAME_SIZE_BYTES == 0 && start1 <= f < start2 + REGION_MAX_SIZE_BYTES * r)
  {
    hide Spaced;
    FrameSeqMembers(start1, n1);
    RegionsMembers(start2, r);
    SpacedAscending(start2, r);
    var regions := Spaced(start2, REGION_MAX_SIZE_BYTES, r);
    forall f | f in regions ensures InRegions(regions, f) {
      assert InRange(f, REGION_MAX_FRAMES, f);
    }
  }

  lemma RegionsMembers(start: int, count: nat)
    requires start % FRAME_SIZE_BYTES == 0
    ensures forall f :: InRegions(Spaced(start, REGION_MAX_SIZE_BYTES, count), f) <==> InRange(start, REGION_MAX_FRAMES * count, f)
  {
    var rs := Spaced(start, REGION_MAX_SIZE_BYTES, count);
    SpacedAt(start, REGION_MAX_SIZE_BYTES, count);
    forall f | InRange(start, REGION_MAX_FRAMES * count, f) ensures InRegions(rs, f) {
      assert InRange(rs[(f - start) / REGION_MAX_SIZE_BYTES], REGION_MAX_FRAMES, f);
    }
  }

  /** Opening the first region moves its frames from the region list to the frame list. */
  lemma OpeningRegion(regions: seq<int>, f: int)
    requires regions != [] && Ascending(regions)
    ensures InRegions(regions, f) <==> InRange(regions[0], REGION_MAX_FRAMES, f) || InRegions(regions[1..], f)
    ensures !(InRange(regions[0], REGION_MAX_FRAMES, f) && InRegions(regions[1..], f))
  {
    if InRegions(regions[1..], f) {
      var j :| 0 <= j < |regions[1..]| && InRange(regions[1..][j], REGION_MAX_FRAMES, f);
      assert InRange(regions[j + 1], REGION_MAX_FRAMES, f);
    }
    if InRegions(regions, f) && !InRange(regions[0], REGION_MAX_FRAMES, f) {
      var j :| 0 <= j < |regions| && InRange(regions[j], REGION_MAX_FRAMES, f);
      assert InRange(regions[1..][j - 1], REGION_MAX_FRAMES, f);
    }
  }

  lemma FirstAligned(address: Word, f: int)
    requires address <= TWO_64 - FRAME_SIZE_BYTES
    ensures AlignAddressUp(address) % FRAME_SIZE_BYTES == 0
    ensures f % FRAME_SIZE_BYTES == 0 ==> (address <= f <==> AlignAddressUp(address) <= f)
  {}

  lemma LastAligned(address: Word, f: int)
    ensures f % FRAME_SIZE_BYTES == 0 ==> (f <= address <==> f <= AlignAddressDown(address))
  {}

  /** An offset lies below the last whole region exactly when its own region ends inside. */
  lemma RegionIndex(offset: int, size: nat)
    ensures offset < size / REGION_MAX_SIZE_BYTES * REGION_MAX_SIZE_BYTES <==> (offset / REGION_MAX_SIZE_BYTES + 1) * REGION_MAX_SIZE_BYTES <= size
  {}

  lemma WholeFrames(start: int, size: nat, f: int)
    requires start % FRAME_SIZE_BYTES == 0
    ensures InRange(start, size / FRAME_SIZE_BYTES, f) <==> f % FRAME_SIZE_BYTES == 0 && start <= f && f + FRAME_SIZE_BYTES <= start + size
  {}

  lemma WholeRegions(start: int, size: nat, f: int)
    requires start % FRAME_SIZE_BYTES == 0
    ensures var end := start + ((f - start) / REGION_MAX_SIZE_BYTES + 1) * REGION_MAX_SIZE_BYTES;
      && end % FRAME_SIZE_BYTES == 0
      && (InRange(start, REGION_MAX_FRAMES * (size / REGION_MAX_SIZE_BYTES), f)
          <==> f % FRAME_SIZE_BYTES == 0 && start <= f && end <= start + size)
  {
    RegionIndex(f - start, size);
  }

  lemma InsideRegion(offset: int)
    ensures offset % FRAME_SIZE_BYTES == 0 ==> offset + FRAME_SIZE_BYTES <= (offset / REGION_MAX_SIZE_BYTES + 1) * REGION_MAX_SIZE_BYTES
  {}

  /** What the boot tags say about usable memory. */
  datatype TagsInfo = TagsInfo(
    regionOneAddress: nat, regionOneSize: nat,
    regionTwoAddress: nat, regionTwoSize: nat,
    elfMaxAddress: nat)
  {
    function OneStart(): nat requires Usable() { AlignAddressUp(regionOneAddress) }
    function OneFrames(): nat requires Usable() {
      (AlignAddressDown(regionOneAddress + regionOneSize) - OneStart()) / FRAME_SIZE_BYTES
    }
    function TwoStart(): nat requires Usable() { AlignAddressUp(elfMaxAddress) }
    function Regions(): nat requires Usable() {
      (AlignAddressDown(regionTwoAddress + regionTwoSize) - TwoStart()) / REGION_MAX_SIZE_BYTES
    }

    /** At least one frame, at least one whole region, inside the mapped memory, and disjoint. */
    predicate Usable() {
      && regionOneAddress + regionOneSize < PHYSICAL_LIMIT
      && regionTwoAddress + regionTwoSize < PHYSICAL_LIMIT
      && elfMaxAddress < PHYSICAL_LIMIT
      && AlignAddressUp(regionOneAddress) + FRAME_SIZE_BYTES <= AlignAddressDown(regionOneAddress + regionOneSize)
      && AlignAddressUp(elfMaxAddress) + REGION_MAX_SIZE_BYTES <= AlignAddressDown(regionTwoAddress + regionTwoSize)
      && regionOneAddress + regionOneSize <= elfMaxAddress
    }

    /** All frames FrameInit takes over. */
    ghost function Managed(): set<int> requires Usable() {
      FrameSet(OneStart(), OneFrames()) + FrameSet(TwoStart(), REGION_MAX_FRAMES * Regions())
    }

    /** A whole frame of usable memory in area one. */
    predicate InAreaOne(f: int) {
      f % 0x1000 == 0 && regionOneAddress <= f && f + 0x1000 <= regionOneAddress + regionOneSize
    }

    /** The frames behind the kernel image are counted off in 2 MiB regions from the first aligned address on. */
    function RegionEnd(f: int): int requires Usable() {
      TwoStart() + ((f - TwoStart()) / 0x20_0000 + 1) * 0x20_0000
    }

    /** A frame behind the kernel image whose region ends inside area two. */
    predicate InWholeRegion(f: int) requires Usable() {
      f % 0x1000 == 0 && elfMaxAddress <= f && RegionEnd(f) <= regionTwoAddress + regionTwoSize
    }

    /** In terms of the tags: which frames FrameInit takes over. */
    lemma ManagedAre()
      requires Usable()
      ensures forall f: int :: f in Managed() <==> InAreaOne(f) || InWholeRegion(f)
    {
      forall f: int ensures f in Managed() <==> InAreaOne(f) || InWholeRegion(f) {
        AreaOneIs(f);
        AreaTwoIs(f);
        FrameSetIs(OneStart(), OneFrames(), f);
        FrameSetIs(TwoStart(), REGION_MAX_FRAMES * Regions(), f);
      }
    }

    lemma AreaOneIs(f: int)
      requires Usable()
      ensures InRange(OneStart(), OneFrames(), f) <==> InAreaOne(f)
    {
      hide AlignAddressUp, AlignAddressDown, InRange;
      var end := regionOneAddress + regionOneSize;
      FirstAligned(regionOneAddress, f);
      LastAligned(end, f + FRAME_SIZE_BYTES);
      WholeFrames(OneStart(), AlignAddressDown(end) - OneStart(), f);
    }

    lemma AreaTwoIs(f: int)
      requires Usable()
      ensures InRange(TwoStart(), REGION_MAX_FRAMES * Regions(), f) <==> InWholeRegion(f)
    {
      hide AlignAddressUp, AlignAddressDown, InRange;
      var end := regionTwoAddress + regionTwoSize;
      FirstAligned(elfMaxAddress, f);
      LastAligned(end, RegionEnd(f));
      WholeRegions(TwoStart(), AlignAddressDown(end) - TwoStart(), f);
    }

    /** Fewer than 512 whole frames at the end of area two are left over. */
    lemma LeftOver(f: int)
      requires Usable() && f % 0x1000 == 0 && f !in Managed()
      requires elfMaxAddress <= f && f + 0x1000 <= regionTwoAddress + regionTwoSize
      ensures regionTwoAddress + regionTwoSize < f + 0x20_0000
    {
      ManagedAre();
    }

    /**
     Area two is counted from the end of the kernel image, wherever it starts itself: all its
     frames are usable memory exactly when it does not start behind the first of them.
     */
    lemma InsideAreaTwoIff()
      requires Usable()
      ensures (forall f: int :: InWholeRegion(f) ==> regionTwoAddress <= f && f + 0x1000 <= regionTwoAddress + regionTwoSize)
        <==> regionTwoAddress <= AlignAddressUp(elfMaxAddress)
    {
      assert InWholeRegion(TwoStart());
      forall f: int | InWholeRegion(f) ensures TwoStart() <= f && f + 0x1000 <= RegionEnd(f) {
        RegionHolds(f);
      }
      hide RegionEnd, AlignAddressDown;
    }

    lemma RegionHolds(f: int)
      requires Usable() && f % 0x1000 == 0 && elfMaxAddress <= f
      ensures TwoStart() <= f && f + 0x1000 <= RegionEnd(f)
    {
      hide AlignAddressUp;
      FirstAligned(elfMaxAddress, f);
      InsideRegion(f - TwoStart());
    }

    lemma Layout()
      requires Usable()
      ensures OneStart() % FRAME_SIZE_BYTES == 0 && TwoStart() % FRAME_SIZE_BYTES == 0
      ensures OneFrames() >= 1 && OneStart() + FRAME_SIZE_BYTES * OneFrames() <= TwoStart()
      ensures Regions() >= 1 && TwoStart() + REGION_MAX_SIZE_BYTES * Regions() <= PHYSICAL_LIMIT
    {}

    /** In the mapped memory no product of the two loops overflows. */
    lemma ProductsFit()
      requires Usable()
      ensures forall i :: 0 <= i < OneFrames() ==> FitsInt(FRAME_SIZE_BYTES, i)
      ensures forall i :: 0 <= i < Regions() ==> FitsInt(REGION_MAX_SIZE_BYTES, i)
    {
      Layout();
      ProductsFitIff(OneFrames(), Regions());
    }

    lemma ManagedSize()
      requires Usable()
      ensures |Managed()| == OneFrames() + REGION_MAX_FRAMES * Regions()
    {
      Layout();
      DisjointSizes(OneStart(), OneFrames(), TwoStart(), REGION_MAX_FRAMES * Regions());
    }
  }

  class FrameAllocator {
    var mem: Memory
    var freeFrame: int
    var freeRegion: int

    ghost const managed: set<int>
    ghost var free: seq<int>
    ghost var regions: seq<int>
    ghost var available: set<int>

    ghost predicate Valid()
      reads this
    {
      && IsChain(mem, freeFrame, free) && Distinct(free)
      && IsChain(mem, freeRegion, regions) && Ascending(regions)
      && (forall f :: f in available <==> f in free || InRegions(regions, f))
      && (forall f :: f in free ==> !InRegions(regions, f))
      && available <= managed
      && (forall f :: f in managed ==> f % FRAME_SIZE_BYTES == 0 && 0 <= f < PHYSICAL_LIMIT)
    }

    /** Frames handed out and not yet given back. */
    ghost function Outstanding(): set<int>
      reads this
    {
      managed - available
    }

    /** FrameInit. Afterwards exactly n1 + 512 * r frames are available, and none is outstanding. */
    constructor FrameInit(tags: TagsInfo, memory: Memory)
      requires tags.Usable()
      ensures Valid()
      ensures managed == available && forall f: int :: f in managed <==> tags.InAreaOne(f) || tags.InWholeRegion(f)
      ensures |managed| == tags.OneFrames() + REGION_MAX_FRAMES * tags.Regions()
      ensures free == Spaced(tags.OneStart(), FRAME_SIZE_BYTES, tags.OneFrames())
      ensures regions == Spaced(tags.TwoStart(), REGION_MAX_SIZE_BYTES, tags.Regions())
      ensures forall f :: f !in managed ==> SameFrame(mem, memory, f)
    {
      managed := tags.Managed();
      mem := memory;
      freeFrame := NULL_FRAME;
      freeRegion := NULL_FRAME;
      new;
      tags.Layout();
      tags.ManagedSize();
      tags.ManagedAre();
      InitLists(tags.OneStart(), tags.OneFrames(), tags.TwoStart(), tags.Regions());
    }

    /** The body of FrameInit, once the region bounds are known. */
    method InitLists(start1: int, n1: nat, start2: int, r: nat)
      requires n1 >= 1 && r >= 1
      requires start1 % FRAME_SIZE_BYTES == 0 && start2 % FRAME_SIZE_BYTES == 0
      requires 0 <= start1 <= start1 + FRAME_SIZE_BYTES * n1 <= start2
      requires start2 + REGION_MAX_SIZE_BYTES * r <= PHYSICAL_LIMIT
      requires managed == FrameSet(start1, n1) + FrameSet(start2, REGION_MAX_FRAMES * r)
      modifies this
      ensures Valid() && available == managed
      ensures free == Spaced(start1, FRAME_SIZE_BYTES, n1) && regions == Spaced(start2, REGION_MAX_SIZE_BYTES, r)
      ensures forall f :: f !in managed ==> SameFrame(mem, old(mem), f)
    {
      hide Spaced, InRange, InRegions;
      InitialLists(start1, n1, start2, r);
      free := Spaced(start1, FRAME_SIZE_BYTES, n1);
      regions := Spaced(start2, REGION_MAX_SIZE_BYTES, r);
      available := managed;
      ThreadList(start1, FRAME_SIZE_BYTES, n1);
      freeFrame := start1;
      ghost var before := mem;
      ThreadList(start2, REGION_MAX_SIZE_BYTES, r);
      freeRegion := start2;
      SegmentUnaffected(Links(before), Links(mem), freeFrame, free, NULL_FRAME);
    }

    /** The pointer store `*((uint64_t*) frame) = value`. */
    method StoreLink(frame: int, value: int)
      modifies this`mem
      ensures mem == Stored(old(mem), frame, 0, value)
    {
      mem := Stored(mem, frame, 0, value);
    }

    /**
     InitializeFrameRegion, and the identical loop FrameInit runs over regions: threads `count`
     blocks, `step` bytes apart, into a null-terminated list. Only their first words change.
     */
    method ThreadList(start: int, step: nat, count: nat)
      requires count >= 1 && step >= FRAME_SIZE_BYTES && start >= 0
      requires start + step * count <= PHYSICAL_LIMIT
      modifies this`mem
      ensures IsChain(mem, start, Spaced(start, step, count))
      ensures forall f :: f !in Spaced(start, step, count) ==> SameFrame(mem, old(mem), f)
    {
      ghost var blocks := Spaced(start, step, count);
      var i := 0;
      while i < count
        invariant 0 <= i <= count
        invariant start + step * i <= PHYSICAL_LIMIT
        invariant Segment(Links(mem), start, Spaced(start, step, i), start + step * i)
        invariant forall f :: f !in blocks ==> SameFrame(mem, old(mem), f)
      {
        hide Spaced, Segment;
        var block := start + step * i;
        assert FitsInt(step, i);
        NextSpaced(start, step, count, i);
        ghost var before := mem;
        StoreLink(block, block + step);
        LinkNext(Links(before), Links(mem), start, Spaced(start, step, i), block);
        i := i + 1;
      }
      var lastBlock := start + step * (count - 1);
      NextSpaced(start, step, count, count - 1);
      SegmentPrefix(Links(mem), start, Spaced(start, step, count - 1), lastBlock, start + step * count);
      ghost var before := mem;
      StoreLink(lastBlock, NULL_FRAME);
      LinkNext(Links(before), Links(mem), start, Spaced(start, step, count - 1), lastBlock);
    }

    /**
     Hands out a zeroed frame that was not outstanding, and fails exactly when every
     managed frame is outstanding. Nothing outside the available frames is written.
     */
    method FrameAllocate() returns (r: int)
      requires Valid()
      modifies this
      ensures Valid()
      ensures r == NULL_FRAME <==> old(available) == {}
      ensures r == NULL_FRAME <==> |old(Outstanding())| == |managed|
      ensures r == NULL_FRAME ==> available == {} && mem == old(mem)
      ensures r != NULL_FRAME ==>
                && r in old(available) && available == old(available) - {r}
                && IsClear(mem, r)
      ensures old(free) != [] ==> r == old(free)[0] && free == old(free)[1..] && regions == old(regions)
      ensures old(free) == [] && old(regions) != [] ==>
                && r == old(regions)[0] && regions == old(regions)[1..]
                && free == Spaced(r, FRAME_SIZE_BYTES, REGION_MAX_FRAMES)[1..]
      ensures forall f :: f !in old(available) ==> SameFrame(mem, old(mem), f)
    {
      OutstandingCount();
      HeadsNull();
      if freeFrame != NULL_FRAME {
        r := PopFrame();
        return;
      }
      if freeRegion == NULL_FRAME {
        return NULL_FRAME;
      }
      r := OpenRegion();
    }

    /** The first branch of FrameAllocate: take the head of the frame list. */
    method PopFrame() returns (r: int)
      requires Valid() && free != []
      modifies this
      ensures Valid()
      ensures r == old(free)[0] && free == old(free)[1..] && regions == old(regions)
      ensures r in old(available) && available == old(available) - {r}
      ensures IsClear(mem, r) && r != NULL_FRAME
      ensures forall f :: f !in old(available) ==> SameFrame(mem, old(mem), f)
    {
      RegionHeadsAvailable();
      r := freeFrame;
      freeFrame := mem(r, 0);
      mem := Cleared(mem, r);
      free := free[1..];
      available := available - {r};
      SegmentUnaffected(Links(old(mem)), Links(mem), freeFrame, free, NULL_FRAME);
      SegmentUnaffected(Links(old(mem)), Links(mem), freeRegion, regions, NULL_FRAME);
    }

    /** The second half of FrameAllocate: thread the next region and take its first frame. */
    method OpenRegion() returns (r: int)
      requires Valid() && free == [] && regions != []
      modifies this
      ensures Valid()
      ensures r == old(regions)[0] && r in old(available) && available == old(available) - {r}
      ensures regions == old(regions)[1..] && free == Spaced(r, FRAME_SIZE_BYTES, REGION_MAX_FRAMES)[1..]
      ensures IsClear(mem, r) && r != NULL_FRAME
      ensures forall f :: f !in old(available) ==> SameFrame(mem, old(mem), f)
    {
      hide Spaced, InRange, InRegions, Segment, Distinct;
      OpenFirst();
      RegionHeadsAvailable();
      SegmentRest(Links(mem), freeRegion, regions, NULL_FRAME);
      var start := freeRegion;
      ghost var frames := Spaced(start, FRAME_SIZE_BYTES, REGION_MAX_FRAMES);
      freeRegion := mem(start, 0);
      ThreadList(start, FRAME_SIZE_BYTES, REGION_MAX_FRAMES);
      r := start;
      freeFrame := mem(r, 0);
      ghost var threaded := mem;
      mem := Cleared(mem, r);
      free, regions := frames[1..], regions[1..];
      available := available - {r};
      SegmentRest(Links(threaded), start, frames, NULL_FRAME);
      SegmentUnaffected(Links(threaded), Links(mem), freeFrame, free, NULL_FRAME);
      SegmentUnaffected(Links(old(mem)), Links(mem), freeRegion, regions, NULL_FRAME);
      assert IsChain(mem, freeFrame, free);
    }

    lemma OpenFirst()
      requires Valid() && free == [] && regions != []
      ensures regions[0] + FRAME_SIZE_BYTES * REGION_MAX_FRAMES <= PHYSICAL_LIMIT
      ensures var frames := Spaced(regions[0], FRAME_SIZE_BYTES, REGION_MAX_FRAMES);
        && frames != [] && frames[0] == regions[0] && regions[0] !in frames[1..] && Distinct(frames[1..]) && Ascending(regions[1..])
        && (forall f :: f in frames ==> f in available)
        && (forall f :: f in available - {regions[0]} <==> f in frames[1..] || InRegions(regions[1..], f))
        && (forall f :: f in frames[1..] ==> !InRegions(regions[1..], f))
        && (forall f :: f in regions[1..] ==> f !in frames)
    {
      hide Spaced;
      var start := regions[0];
      var frames := Spaced(start, FRAME_SIZE_BYTES, REGION_MAX_FRAMES);
      FrameSeqMembers(start, REGION_MAX_FRAMES);
      SpacedAt(start, FRAME_SIZE_BYTES, REGION_MAX_FRAMES);
      assert InRegions(regions, start + REGION_MAX_SIZE_BYTES - FRAME_SIZE_BYTES) by {
        assert InRange(start, REGION_MAX_FRAMES, start + REGION_MAX_SIZE_BYTES - FRAME_SIZE_BYTES);
      }
      assert frames == [start] + frames[1..];
      forall f ensures InRegions(regions, f) <==> f in frames || InRegions(regions[1..], f)
               ensures !(f in frames && InRegions(regions[1..], f))
      {
        if f >= 0 { OpeningRegion(regions, f); }
      }
      forall g | g in regions[1..] ensures g !in frames {
        assert InRange(g, REGION_MAX_FRAMES, g);
      }
    }

    /** Pushes an outstanding frame; the next FrameAllocate will return it. */
    method FrameFree(frame: int)
      requires Valid() && frame in Outstanding()
      modifies this
      ensures Valid()
      ensures available == old(available) + {frame}
      ensures free == [frame] + old(free) && regions == old(regions)
      ensures mem == Stored(old(mem), frame, 0, old(freeFrame))
    {
      RegionHeadsAvailable();
      StoreLink(frame, freeFrame);
      SegmentUnaffected(Links(old(mem)), Links(mem), freeFrame, free, NULL_FRAME);
      SegmentUnaffected(Links(old(mem)), Links(mem), freeRegion, regions, NULL_FRAME);
      freeFrame := frame;
      free := [frame] + free;
      available := available + {frame};
    }

    /** A store to word `index` of a frame that belongs to somebody. */
    method Store(frame: int, index: nat, value: Word)
      requires Valid() && frame !in available && index < WORDS_PER_FRAME
      modifies this`mem
      ensures Valid()
      ensures mem == Stored(old(mem), frame, index, value)
    {
      RegionHeadsAvailable();
      mem := Stored(mem, frame, index, value);
      SegmentUnaffected(Links(old(mem)), Links(mem), freeFrame, free, NULL_FRAME);
      SegmentUnaffected(Links(old(mem)), Links(mem), freeRegion, regions, NULL_FRAME);
    }

    lemma RegionHeadsAvailable()
      requires Valid()
      ensures forall j :: 0 <= j < |regions| ==> regions[j] in available
    {
      forall j | 0 <= j < |regions| ensures regions[j] in available {
        assert InRange(regions[j], REGION_MAX_FRAMES, regions[j]);
      }
    }

    lemma HeadsNull()
      requires Valid()
      ensures freeFrame == NULL_FRAME <==> free == []
      ensures freeRegion == NULL_FRAME <==> regions == []
      ensures available == {} <==> free == [] && regions == []
    {
      RegionHeadsAvailable();
      if free != [] {
        assert free[0] in available;
      } else if regions != [] {
        assert regions[0] in available;
      } else {
        assert forall f :: f !in available;
      }
    }

    lemma OutstandingCount()
      requires Valid()
      ensures |Outstanding()| == |managed| - |available|
      ensures available == {} <==> |Outstanding()| == |managed|
    {
      assert managed == Outstanding() + available;
    }
  }
}
