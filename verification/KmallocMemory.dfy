/**
 What the bytes of memory say about the inventory: free lists threaded through the first eight
 bytes of free blocks, and a one-byte header in front of every client region.
 */
module KmallocMemory {
  import opened Prelude
  import opened Chain
  import opened Bytes
  import opened KmallocHeap

  const NULL := 0

  const MAX_INT := 0x7FFF_FFFF

  /** Requests below this size are served in full, and no others. */
  const MAX_REQUEST := 0x7FFF_F000

  /** The cast of a 64-bit value to a 32-bit int. */
  function ToInt(n: int): int { (n + MAX_INT + 1) % 0x1_0000_0000 - MAX_INT - 1 }

  lemma ToIntIs(n: int)
    ensures -0x8000_0000 <= ToInt(n) < 0x8000_0000 && (ToInt(n) - n) % 0x1_0000_0000 == 0
  {}

  /** The page branch's page count, rounded up in int arithmetic; none when that overflows. */
  function IntPages(effectiveSize: int): Option<int> {
    var rounded := ToInt(effectiveSize) + PAGE_SIZE_BYTES - 1;
    if rounded > MAX_INT then None
    else Some(Quotient(rounded, PAGE_SIZE_BYTES))
  }

  /** The bytes of the block that kmalloc sets apart for any 64-bit request. */
  function BlockBytes(size: nat): Option<int>
    requires size < TWO_64
  {
    var effectiveSize := (size + 1) % TWO_64;
    if effectiveSize <= 32 then Some(32)
    else if effectiveSize <= 256 then Some(256)
    else if effectiveSize <= 1024 then Some(1024)
    else if IntPages(effectiveSize).None? then None
    else Some(IntPages(effectiveSize).value * PAGE_SIZE_BYTES)
  }

  /**
   The block holds the header and the whole region exactly for requests below `MAX_REQUEST`. From
   there on the additions overflow, and the cast drops the upper half of the size.
   */
  lemma HoldsRequestIff(size: nat)
    requires size < TWO_64
    ensures BlockBytes(size).Some? && size + 1 <= BlockBytes(size).value <==> size < MAX_REQUEST
    ensures size < MAX_REQUEST && PoolFor(size) < PPAGES ==> BlockBytes(size) == Some(PoolSize(PoolFor(size)))
    ensures size < MAX_REQUEST && PoolFor(size) == PPAGES ==>
      && IntPages(size + 1) == Some(NumPages(size)) && NumPages(size) * PAGE_SIZE_BYTES <= MAX_INT
  {
    if MAX_REQUEST < size + 1 < TWO_64 {
      CastLosesSize(size + 1);
    }
  }

  lemma CastLosesSize(effectiveSize: nat)
    requires MAX_REQUEST < effectiveSize
    ensures IntPages(effectiveSize).Some? ==> IntPages(effectiveSize).value * PAGE_SIZE_BYTES < effectiveSize
  {}

  /** The pool with the smallest blocks that hold header and region, or the smallest number of pages that does. */
  lemma TightestBlock(size: nat)
    ensures PoolFor(size) == 0 <==> size + 1 <= 32
    ensures PoolFor(size) == 1 <==> 32 < size + 1 <= 256
    ensures PoolFor(size) == 2 <==> 256 < size + 1 <= 1024
    ensures PoolFor(size) == PPAGES <==> 1024 < size + 1
    ensures PoolSize(0) == 32 && PoolSize(1) == 256 && PoolSize(2) == 1024
    ensures (NumPages(size) - 1) * 0x1000 < size + 1 <= NumPages(size) * 0x1000
  {}

  function PageOf(a: int): int { a / PAGE_SIZE_BYTES }

  /** The metadata byte: two bits of pool, six bits of page count. */
  function HeaderByte(b: Block): int {
    b.pool + 4 * (if b.pool == PPAGES then b.len / PAGE_SIZE_BYTES % 64 else 0)
  }

  /** The links of the free lists: the word at each block. */
  function WordLinks(mem: ByteMemory): int -> int {
    a => ReadWord(mem, a)
  }

  ghost predicate Lists(mem: ByteMemory, heads: seq<int>, free: seq<seq<int>>) {
    |heads| == |free| == 3 && forall k :: 0 <= k < 3 ==> Segment(WordLinks(mem), heads[k], free[k], NULL)
  }

  ghost predicate Headers(mem: ByteMemory, h: Heap) {
    forall a :: a in h.live && a in h.blocks ==> mem(a) == HeaderByte(h.blocks[a])
  }

  /** The headers of live blocks and all pool pages are backed by frames. */
  ghost predicate Backed(h: Heap, touched: set<int>) {
    forall a :: a in h.blocks && (a in h.live || h.blocks[a].pool < PPAGES) ==> PageOf(a) in touched
  }

  /** Nothing in the first eight bytes of a free block belongs to any other block. */
  lemma FreeBlockBytes(h: Heap, k: int, f: int, a: int, x: int)
    requires Inventory(h) && 0 <= k < 3 && f in h.free[k] && a in h.blocks && a != f
    requires f <= x < f + WORD_BYTES
    ensures !(a <= x < a + h.blocks[a].len)
  {
    CountPositive(k);
    assert f in h.blocks && BlockShape(f, h.blocks[f]) && h.blocks[f].len == PoolSize(k);
  }

  /** Changes inside one block that is on no list leave the lists alone. */
  lemma ListsKept(mem: ByteMemory, mem': ByteMemory, heads: seq<int>, h: Heap, a: int)
    requires Inventory(h) && Lists(mem, heads, h.free) && a in h.blocks
    requires forall k :: 0 <= k < 3 ==> a !in h.free[k]
    requires forall x :: !(a <= x < a + h.blocks[a].len) ==> mem'(x) == mem(x)
    ensures Lists(mem', heads, h.free)
  {
    forall k | 0 <= k < 3 ensures Segment(WordLinks(mem'), heads[k], h.free[k], NULL) {
      OneListKept(mem, mem', heads[k], h, k, a);
    }
  }

  lemma OneListKept(mem: ByteMemory, mem': ByteMemory, head: int, h: Heap, k: int, a: int)
    requires Inventory(h) && 0 <= k < 3 && Segment(WordLinks(mem), head, h.free[k], NULL) && a in h.blocks
    requires a !in h.free[k]
    requires forall x :: !(a <= x < a + h.blocks[a].len) ==> mem'(x) == mem(x)
    ensures Segment(WordLinks(mem'), head, h.free[k], NULL)
  {
    forall f | f in h.free[k] ensures WordLinks(mem')(f) == WordLinks(mem)(f) {
      forall x | f <= x < f + WORD_BYTES ensures mem'(x) == mem(x) { FreeBlockBytes(h, k, f, a, x); }
      WordElsewhere(mem, mem', f);
    }
    SegmentUnaffected(WordLinks(mem), WordLinks(mem'), head, h.free[k], NULL);
  }

  /** Changes above the heap break leave the lists alone. */
  lemma ListsBelow(mem: ByteMemory, mem': ByteMemory, heads: seq<int>, h: Heap)
    requires Inventory(h) && Lists(mem, heads, h.free)
    requires forall x :: x < h.brk ==> mem'(x) == mem(x)
    ensures Lists(mem', heads, h.free)
  {
    forall k | 0 <= k < 3 ensures Segment(WordLinks(mem'), heads[k], h.free[k], NULL) {
      forall f | f in h.free[k] ensures WordLinks(mem')(f) == WordLinks(mem)(f) {
        CountPositive(k);
        assert f in h.blocks && BlockShape(f, h.blocks[f]);
        WordElsewhere(mem, mem', f);
      }
      SegmentUnaffected(WordLinks(mem), WordLinks(mem'), heads[k], h.free[k], NULL);
    }
  }

  /** Blocks that carving adds lie in the new page; all others are as before. */
  lemma CarvedBlocks(h: Heap, pool: int)
    requires Inventory(h) && 0 <= pool < 3 && h.free[pool] == []
    ensures |Carve(h, pool).free| == 3
    ensures forall a :: a in Carve(h, pool).blocks && a !in h.blocks ==> PageOf(a) == PageOf(h.brk) && Carve(h, pool).blocks[a].pool == pool
    ensures forall a :: a in h.blocks ==> a in Carve(h, pool).blocks && Carve(h, pool).blocks[a] == h.blocks[a]
  {
    hide PageList, PageBlocks, PoolCount, PoolSize;
    CountPositive(pool);
    PageBlocksFacts(h.brk, pool);
    CutIsNew(h.blocks, h.brk, pool);
  }

  lemma RunHeader(mem: ByteMemory, h: Heap, pages: nat, size: nat, touched: set<int>)
    requires Inventory(h) && Headers(mem, h) && Backed(h, touched) && pages > 0
    ensures Headers(WriteByte(mem, h.brk, PPAGES + 4 * (pages % 64)), Run(h, pages, size))
    ensures Backed(Run(h, pages, size), touched + {PageOf(h.brk)})
  {
    assert pages * PAGE_SIZE_BYTES / PAGE_SIZE_BYTES == pages;
    BreakIsFree(h.blocks, h.brk);
  }

  /** The pages that `count` bytes from `a` on lie in. */
  ghost function PagesOf(a: int, count: nat): set<int> {
    set v | PageOf(a) <= v <= PageOf(a + count) && OnPages(v, a, count)
  }

  predicate OnPages(v: int, a: int, count: nat) {
    count > 0 && PageOf(a) <= v <= PageOf(a + count - 1)
  }

  lemma PagesOfMembers(a: int, count: nat)
    ensures forall v :: v in PagesOf(a, count) <==> OnPages(v, a, count)
  {
    assert PageOf(a + count - 1) <= PageOf(a + count);
  }

  lemma PagesOfMore(a: int, count: nat)
    ensures PagesOf(a, count + 1) == PagesOf(a, count) + {PageOf(a + count)}
  {
    hide PagesOf;
    PagesOfMembers(a, count);
    PagesOfMembers(a, count + 1);
    var all := PagesOf(a, count) + {PageOf(a + count)};
    assert PageOf(a + count - 1) <= PageOf(a + count) <= PageOf(a + count - 1) + 1;
    forall v: int ensures v in PagesOf(a, count + 1) <==> v in all {
      assert OnPages(v, a, count + 1) <==> OnPages(v, a, count) || v == PageOf(a + count);
    }
  }

  /** kfree gives back the frame of page `v`: the header of a run only holds its page count modulo 64. */
  ghost predicate Freed(h: Heap, block: int, v: int) {
    block in h.blocks && h.blocks[block].pool == PPAGES
    && PageOf(block) <= v < PageOf(block) + h.blocks[block].len / PAGE_SIZE_BYTES % 64
  }

  /** Every page whose frame kfree gives back has one. */
  ghost predicate RunBacked(h: Heap, block: int, touched: set<int>) {
    forall v :: Freed(h, block, v) ==> v in touched
  }

  /** The pages that keep their frames. */
  ghost function StillBacked(h: Heap, block: int, touched: set<int>): set<int> {
    set v | v in touched && !Freed(h, block, v)
  }

  ghost predicate DropDefined(h: Heap, block: int) {
    |h.free| == 3 && block in h.blocks && (0 <= h.blocks[block].pool < 3 || h.blocks[block].pool == PPAGES)
  }

  /** The inventory after kfree. */
  ghost predicate Released(h: Heap, h': Heap, block: int) {
    DropDefined(h, block) && h' == Drop(h, block)
  }

  /** The headers and regions of all live blocks but one hold the same bytes. */
  ghost predicate OthersKept(mem: ByteMemory, mem': ByteMemory, h: Heap, block: int) {
    forall a, x :: a in h.live && a != block && a <= x <= a + h.live[a] ==> mem'(x) == mem(x)
  }

  /** The headers and regions of all live blocks hold the same bytes. */
  ghost predicate LiveKept(mem: ByteMemory, mem': ByteMemory, h: Heap) {
    forall a, x :: a in h.live && a <= x <= a + h.live[a] ==> mem'(x) == mem(x)
  }

  /** kfree of a run of `pages` pages halts unless the first `pages % 64` of them have been touched. */
  lemma RunBackedIff(h: Heap, block: int, touched: set<int>)
    requires Inventory(h) && block in h.live && h.blocks[block].pool == PPAGES
    ensures var pages := h.blocks[block].len / PAGE_SIZE_BYTES;
      RunBacked(h, block, touched) <==> PagesOf(block, PAGE_SIZE_BYTES * (pages % 64)) <= touched
  {
    assert BlockShape(block, h.blocks[block]);
    var counted := h.blocks[block].len / PAGE_SIZE_BYTES % 64;
    PagesOfMembers(block, PAGE_SIZE_BYTES * counted);
    RunPages(block, counted);
    forall v: int ensures v in PagesOf(block, PAGE_SIZE_BYTES * counted) <==> Freed(h, block, v) {
      assert OnPages(v, block, PAGE_SIZE_BYTES * counted) <==> Freed(h, block, v);
    }
  }

  lemma RunPages(block: int, count: nat)
    requires block % PAGE_SIZE_BYTES == 0
    ensures PageOf(block + PAGE_SIZE_BYTES * count - 1) == PageOf(block) + count - 1
  {}

  /** A run whose region has been written from end to end is freed without halting. */
  lemma WrittenRunIsBacked(h: Heap, size: nat, touched: set<int>)
    requires Inventory(h) && PoolFor(size) == PPAGES
    requires PageOf(Chosen(h, size)) in touched && PagesOf(Chosen(h, size) + 1, size) <= touched
    ensures RunBacked(Malloc(h, size), Chosen(h, size), touched)
  {
    var block := h.brk;
    BreakIsHigh(h);
    PagesOfMembers(block + 1, size);
    assert NumPages(size) == size / PAGE_SIZE_BYTES + 1 && PageOf(block + size) == PageOf(block) + size / PAGE_SIZE_BYTES;
    assert PageOf(block + 1) == PageOf(block);
    forall v | Freed(Malloc(h, size), block, v) ensures v in touched {
      assert OnPages(v, block + 1, size);
    }
  }

  /** A run's frames are all given back if and only if it has at most 63 pages. */
  lemma WholeRunFreed(h: Heap, block: int)
    requires Inventory(h) && block in h.live && h.blocks[block].pool == PPAGES
    ensures var pages := h.blocks[block].len / PAGE_SIZE_BYTES;
      (forall v :: PageOf(block) <= v < PageOf(block) + pages ==> Freed(h, block, v)) <==> pages <= 63
  {
    var pages := h.blocks[block].len / PAGE_SIZE_BYTES;
    assert BlockShape(block, h.blocks[block]);
    if pages > 63 {
      assert !Freed(h, block, PageOf(block) + pages - 1);
    }
  }

  lemma HeaderFields(b: Block)
    requires 0 <= b.pool <= PPAGES
    ensures HeaderByte(b) % 4 == b.pool
    ensures HeaderByte(b) / 4 == if b.pool == PPAGES then b.len / PAGE_SIZE_BYTES % 64 else 0
    ensures b.len >= 0 ==> 0 <= HeaderByte(b) < 256
  {}

  lemma OtherLive(h: Heap, block: int)
    requires Inventory(h) && block in h.live
    ensures forall a :: a in h.live && a != block ==> a + h.live[a] < block || block + h.blocks[block].len <= a
    ensures block in h.blocks && 0 <= h.live[block] < h.blocks[block].len
  {}

  lemma InUse(h: Heap, block: int)
    requires Inventory(h) && block in h.live
    ensures forall k :: 0 <= k < 3 ==> block !in h.free[k]
  {}

  /** Giving back a run's frames leaves every other header and pool page backed. */
  lemma RunGone(h: Heap, block: int, touched: set<int>)
    requires Inventory(h) && block in h.live && h.blocks[block].pool == PPAGES && Backed(h, touched)
    ensures DropDefined(h, block)
    ensures Backed(Drop(h, block), StillBacked(h, block, touched))
  {
    assert BlockShape(block, h.blocks[block]);
    var h' := Drop(h, block);
    forall a | a in h'.blocks && (a in h'.live || h'.blocks[a].pool < PPAGES) ensures !Freed(h, block, PageOf(a)) {
      assert a != block;
      assert a < block || block + h.blocks[block].len <= a;
    }
  }

  /** Writing inside a client region keeps every header, every list, every other region and the backing. */
  lemma StoreKeeps(mem: ByteMemory, mem': ByteMemory, heads: seq<int>, h: Heap, touched: set<int>, touched': set<int>, block: int)
    requires Inventory(h) && Lists(mem, heads, h.free) && Headers(mem, h) && Backed(h, touched)
    requires block in h.live && touched <= touched'
    requires forall x :: !(block < x <= block + h.live[block]) ==> mem'(x) == mem(x)
    ensures Lists(mem', heads, h.free) && Headers(mem', h) && Backed(h, touched')
    ensures OthersKept(mem, mem', h, block) && forall a :: a in h.live ==> mem'(a) == mem(a)
  {
    OtherLive(h, block);
    InUse(h, block);
    ListsKept(mem, mem', heads, h, block);
  }

  /** Popping a free list and writing the header over the popped link keeps everything else. */
  lemma TakeKeepsMemory(mem: ByteMemory, heads: seq<int>, h: Heap, touched: set<int>, pool: int, size: nat)
    requires Inventory(h) && Lists(mem, heads, h.free) && Headers(mem, h) && Backed(h, touched)
    requires 0 <= pool < 3 && h.free[pool] != [] && size < PoolSize(pool)
    ensures |heads| == 3 && heads[pool] == h.free[pool][0] && PageOf(heads[pool]) in touched
    ensures Lists(WriteByte(mem, heads[pool], pool), heads[pool := ReadWord(mem, heads[pool])], Take(h, pool, size).free)
    ensures Headers(WriteByte(mem, heads[pool], pool), Take(h, pool, size)) && Backed(Take(h, pool, size), touched)
  {
    hide ReadWord, PoolSize, Counts, Geometry, WriteByte;
    var block := h.free[pool][0];
    assert block in h.free[pool] && block in h.blocks;
    TakeKeeps(h, pool, size);
    var h' := Take(h, pool, size);
    assert Lists(mem, heads[pool := ReadWord(mem, block)], h'.free);
    TakeHeaders(mem, h, pool, size);
    ListsKept(mem, WriteByte(mem, block, pool), heads[pool := ReadWord(mem, block)], h', block);
  }

  lemma TakeHeaders(mem: ByteMemory, h: Heap, pool: int, size: nat)
    requires Inventory(h) && Headers(mem, h) && 0 <= pool < 3 && h.free[pool] != []
    ensures Headers(WriteByte(mem, h.free[pool][0], pool), Take(h, pool, size))
    ensures h.free[pool][0] in h.blocks && h.blocks[h.free[pool][0]].len > 0
    ensures forall x :: x != h.free[pool][0] ==> WriteByte(mem, h.free[pool][0], pool)(x) == mem(x)
  {
    var block := h.free[pool][0];
    assert block in h.free[pool];
    CountPositive(pool);
  }

  /** Threading a dropped block back keeps every list and header. */
  lemma PushKeeps(mem: ByteMemory, heads: seq<int>, h: Heap, block: int, pool: int)
    requires Inventory(h) && Lists(mem, heads, h.free) && Headers(mem, h)
    requires block in h.live && 0 <= pool < 3 && h.blocks[block].pool == pool && 0 <= heads[pool] < TWO_64
    ensures DropDefined(h, block)
    ensures Lists(WriteWord(mem, block, heads[pool]), heads[pool := block], Drop(h, block).free)
    ensures Headers(WriteWord(mem, block, heads[pool]), Drop(h, block))
    ensures forall x :: !(block <= x < block + h.blocks[block].len) ==> WriteWord(mem, block, heads[pool])(x) == mem(x)
  {
    hide ReadWord;
    OtherLive(h, block);
    InUse(h, block);
    CountPositive(pool);
    assert BlockShape(block, h.blocks[block]);
    var mem' := WriteWord(mem, block, heads[pool]);
    WordRoundTrip(mem, block, heads[pool]);
    ListsKept(mem, mem', heads, h, block);
    var free' := Drop(h, block).free;
    assert free'[pool][1..] == h.free[pool] && free'[pool][0] == block;
    assert WordLinks(mem')(block) == heads[pool];
  }

  lemma LiveBelowBreak(h: Heap)
    requires Inventory(h)
    ensures forall a :: a in h.live ==> HEAP_BASE <= a && a + h.live[a] < h.brk
  {}

  lemma TakenIsNotLive(h: Heap, pool: int)
    requires Inventory(h) && 0 <= pool < 3 && h.free[pool] != []
    ensures forall a :: a in h.live ==> !(a <= h.free[pool][0] <= a + h.live[a])
  {
    var f := h.free[pool][0];
    assert f in h.free[pool] && f in h.blocks;
    CountPositive(pool);
  }

  lemma CarvedHead(h: Heap, pool: int)
    requires Inventory(h) && 0 <= pool < 3 && h.free[pool] == []
    ensures |Carve(h, pool).free| == 3 && Carve(h, pool).free[pool] != [] && Carve(h, pool).free[pool][0] == h.brk
  {
    CarveKeeps(h, pool);
  }

  lemma BreakIsHigh(h: Heap)
    requires Inventory(h)
    ensures h.brk >= HEAP_BASE && h.brk % PAGE_SIZE_BYTES == 0
    ensures |h.free| == 3 && forall k, a :: 0 <= k < 3 && a in h.free[k] ==> a >= HEAP_BASE
  {
    forall k, a | 0 <= k < 3 && a in h.free[k] ensures a >= HEAP_BASE {
      assert a in h.blocks;
    }
  }

  lemma NoPages(a: int)
    ensures PagesOf(a, 0) == {}
  {}

  /** The block at the head of a pool's list lies on a page with a frame. */
  lemma ChosenIsBacked(h: Heap, touched: set<int>, pool: int)
    requires Inventory(h) && Backed(h, touched) && 0 <= pool < 3
    ensures h.free[pool] != [] ==> touched + {PageOf(h.free[pool][0])} == touched
  {
    if h.free[pool] != [] {
      var block := h.free[pool][0];
      assert block in h.free[pool] && block in h.blocks;
    }
  }

  /** Bytes above the break, and a byte outside the live regions, are nobody's. */
  lemma ByteKeepsLive(mem: ByteMemory, mem1: ByteMemory, h: Heap, x: int, b: int)
    requires Inventory(h) && forall y :: y < h.brk ==> mem1(y) == mem(y)
    requires forall a :: a in h.live ==> !(a <= x <= a + h.live[a])
    ensures LiveKept(mem, WriteByte(mem1, x, b), h)
  {
    LiveBelowBreak(h);
  }

  /** Bytes below the heap are nobody's. */
  lemma LowBytesAreFree(mem: ByteMemory, mem1: ByteMemory, mem2: ByteMemory, h: Heap)
    requires Inventory(h) && LiveKept(mem, mem1, h) && forall x :: x >= HEAP_BASE ==> mem2(x) == mem1(x)
    ensures LiveKept(mem, mem2, h)
  {}

  /** The header of a live block names its pool and counts its pages modulo 64. */
  lemma HeaderOf(mem: ByteMemory, h: Heap, block: int)
    requires Inventory(h) && Headers(mem, h) && block in h.live
    ensures block in h.blocks && (0 <= h.blocks[block].pool < 3 || h.blocks[block].pool == PPAGES)
    ensures mem(block) % 4 == h.blocks[block].pool
    ensures h.blocks[block].pool == PPAGES ==> mem(block) / 4 == h.blocks[block].len / PAGE_SIZE_BYTES % 64
    ensures h.blocks[block].pool == PPAGES ==> block % PAGE_SIZE_BYTES == 0
  {
    assert BlockShape(block, h.blocks[block]);
    HeaderFields(h.blocks[block]);
  }

  /** Nothing is given back with a pool block. */
  lemma PoolBlockBacked(h: Heap, block: int, touched: set<int>)
    requires block in h.blocks && h.blocks[block].pool != PPAGES
    ensures RunBacked(h, block, touched) && StillBacked(h, block, touched) == touched
  {}

  /** Forgetting a run changes no list and no other header. */
  lemma DroppedRun(mem: ByteMemory, heads: seq<int>, h: Heap, block: int)
    requires Inventory(h) && Lists(mem, heads, h.free) && Headers(mem, h)
    requires block in h.live && block in h.blocks && h.blocks[block].pool == PPAGES
    ensures Released(h, Drop(h, block), block)
    ensures Lists(mem, heads, Drop(h, block).free) && Headers(mem, Drop(h, block)) && Drop(h, block).brk == h.brk
  {}

  /** Filling a new block leaves what was live before it as it was. */
  lemma OthersWereLive(mem: ByteMemory, mem1: ByteMemory, mem2: ByteMemory, h: Heap, h1: Heap, block: int)
    requires LiveKept(mem, mem1, h) && OthersKept(mem1, mem2, h1, block)
    requires block !in h.live && forall a :: a in h.live ==> a in h1.live && h1.live[a] == h.live[a]
    ensures LiveKept(mem, mem2, h)
  {}
}
