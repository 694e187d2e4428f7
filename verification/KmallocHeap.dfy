/**
 The inventory behind kmalloc: which blocks have been carved, which are free, live or gone.
 The byte level is in `Kmalloc`.
 */
module KmallocHeap {
  import opened Prelude
  import opened Chain

  const PPAGES := 3

  /** The first heap address, P4 entry 1. */
  const HEAP_BASE := 0x80_0000_0000

  function PoolSize(pool: int): int {
    if pool == 0 then 32 else if pool == 1 then 256 else 1024
  }

  /** Blocks per pool page: 4096 / PoolSize(pool). */
  function PoolCount(pool: int): int {
    if pool == 0 then 128 else if pool == 1 then 16 else 4
  }

  /** The pool a request goes to, its header byte included. */
  function PoolFor(size: nat): int {
    if size + 1 <= 32 then 0 else if size + 1 <= 256 then 1 else if size + 1 <= 1024 then 2 else PPAGES
  }

  function NumPages(size: nat): int { (size + 1 + PAGE_SIZE_BYTES - 1) / PAGE_SIZE_BYTES }

  datatype Block = Block(len: int, pool: int)

  datatype Heap = Heap(free: seq<seq<int>>, blocks: map<int, Block>, live: map<int, int>, gone: set<int>, carved: seq<int>, brk: int)

  ghost predicate DisjointBlocks(blocks: map<int, Block>) {
    forall a, b :: a in blocks && b in blocks && a < b ==> a + blocks[a].len <= b
  }

  ghost predicate BlockShape(a: int, b: Block) {
    if 0 <= b.pool < 3 then b.len == PoolSize(b.pool)
    else b.pool == PPAGES && b.len > 0 && b.len % PAGE_SIZE_BYTES == 0 && a % PAGE_SIZE_BYTES == 0
  }

  ghost function OfPool(blocks: map<int, Block>, pool: int): set<int> {
    set a | a in blocks.Keys && InPool(blocks, a, pool)
  }

  /** How many blocks have been carved for a pool. */
  ghost function PoolBlocks(blocks: map<int, Block>, pool: int): int {
    |OfPool(blocks, pool)|
  }

  ghost predicate InPool(blocks: map<int, Block>, a: int, pool: int) {
    a in blocks && blocks[a].pool == pool
  }

  ghost function LiveOf(h: Heap, pool: int): set<int> {
    set a | a in h.live.Keys && InPool(h.blocks, a, pool)
  }

  /** Carved blocks lie in the heap, have the size of their pool, and do not overlap. */
  ghost predicate Geometry(blocks: map<int, Block>, brk: int) {
    && brk >= HEAP_BASE && brk % PAGE_SIZE_BYTES == 0
    && DisjointBlocks(blocks)
    && (forall a :: a in blocks ==> HEAP_BASE <= a && a + blocks[a].len <= brk && BlockShape(a, blocks[a]))
  }

  ghost predicate Counts(blocks: map<int, Block>, carved: seq<int>) {
    |carved| == 3 && forall k :: 0 <= k < 3 ==> PoolBlocks(blocks, k) == Capacity(k, carved[k])
  }

  /** The number of blocks that `pages` pages of a pool hold. */
  function Capacity(pool: int, pages: int): int { PoolCount(pool) * pages }

  /** Every block is free, live or gone, and only one of them. */
  ghost predicate Status(free: seq<seq<int>>, blocks: map<int, Block>, live: map<int, int>, gone: set<int>) {
    && |free| == 3
    && (forall k :: 0 <= k < 3 ==> Distinct(free[k]))
    && (forall k, a :: 0 <= k < 3 && a in free[k] ==> a in blocks && blocks[a].pool == k && a !in live)
    && (forall a :: a in blocks && 0 <= blocks[a].pool < 3 ==> a in free[blocks[a].pool] || a in live)
    && (forall a :: a in blocks && blocks[a].pool == PPAGES ==> (a in live <==> a !in gone))
    && (forall a :: a in live ==> a in blocks && 0 <= live[a] < blocks[a].len)
    && (forall a :: a in gone ==> a in blocks && blocks[a].pool == PPAGES)
  }

  ghost predicate Inventory(h: Heap) {
    Geometry(h.blocks, h.brk) && Counts(h.blocks, h.carved) && Status(h.free, h.blocks, h.live, h.gone)
  }

  // ----- the four changes -----

  /** The addresses of the blocks a page is cut into. */
  function PageList(page: int, pool: int): seq<int> {
    Spaced(page, PoolSize(pool), PoolCount(pool))
  }

  function PageBlocks(page: int, pool: int): map<int, Block> {
    map a | a in PageList(page, pool) :: Block(PoolSize(pool), pool)
  }

  /** A fresh page cut into blocks of an empty pool. */
  function Carve(h: Heap, pool: int): Heap
    requires 0 <= pool < |h.free| && pool < |h.carved|
  {
    h.(free := h.free[pool := PageList(h.brk, pool)],
       blocks := h.blocks + PageBlocks(h.brk, pool),
       carved := h.carved[pool := h.carved[pool] + 1],
       brk := h.brk + PAGE_SIZE_BYTES)
  }

  /** The head of a pool's free list becomes live. */
  function Take(h: Heap, pool: int, size: int): Heap
    requires 0 <= pool < |h.free| && h.free[pool] != []
  {
    h.(free := h.free[pool := h.free[pool][1..]], live := h.live[h.free[pool][0] := size])
  }

  /** A run of fresh pages becomes live. */
  function Run(h: Heap, pages: int, size: int): Heap {
    h.(blocks := h.blocks[h.brk := Block(pages * PAGE_SIZE_BYTES, PPAGES)], live := h.live[h.brk := size],
       brk := h.brk + pages * PAGE_SIZE_BYTES)
  }

  /** A live block goes back to the pool it came from; a page run is gone for good. */
  function Drop(h: Heap, a: int): Heap
    requires |h.free| == 3 && a in h.blocks && (0 <= h.blocks[a].pool < 3 || h.blocks[a].pool == PPAGES)
  {
    var pool := h.blocks[a].pool;
    if pool == PPAGES then h.(live := h.live - {a}, gone := h.gone + {a})
    else h.(live := h.live - {a}, free := h.free[pool := [a] + h.free[pool]])
  }

  /** The block a request of `size` bytes gets. */
  function Chosen(h: Heap, size: nat): int
    requires |h.free| == 3
  {
    var pool := PoolFor(size);
    if pool == PPAGES || h.free[pool] == [] then h.brk else h.free[pool][0]
  }

  /** kmalloc on the inventory. */
  function Malloc(h: Heap, size: nat): Heap
    requires |h.free| == 3 && |h.carved| == 3
  {
    var pool := PoolFor(size);
    if pool == PPAGES then Run(h, NumPages(size), size)
    else if h.free[pool] == [] then CountPositive(pool); Take(Carve(h, pool), pool, size)
    else Take(h, pool, size)
  }

  lemma CountPositive(pool: int)
    requires 0 <= pool < 3
    ensures PoolCount(pool) >= 4 && PoolSize(pool) >= 32
  {}

  lemma BlocksFillPage(pool: int)
    requires 0 <= pool < 3
    ensures PoolSize(pool) * PoolCount(pool) == PAGE_SIZE_BYTES && PoolCount(pool) == PAGE_SIZE_BYTES / PoolSize(pool)
  {}

  // ----- they keep the inventory -----

  lemma PageBlocksFacts(page: int, pool: int)
    requires 0 <= pool < 3
    ensures |PageList(page, pool)| == PoolCount(pool) && PageList(page, pool)[0] == page
    ensures Distinct(PageList(page, pool))
    ensures forall a :: a in PageBlocks(page, pool) <==> a in PageList(page, pool)
    ensures forall a :: a in PageBlocks(page, pool) ==> PageBlocks(page, pool)[a] == Block(PoolSize(pool), pool)
    ensures forall a :: a in PageBlocks(page, pool) ==> page <= a && a + PoolSize(pool) <= page + PAGE_SIZE_BYTES
    ensures DisjointBlocks(PageBlocks(page, pool))
  {
    var size, count := PoolSize(pool), PoolCount(pool);
    CountPositive(pool);
    BlocksFillPage(pool);
    SpacedAt(page, size, count);
  }

  lemma PageBlocksSize(page: int, pool: int)
    requires 0 <= pool < 3
    ensures |PageBlocks(page, pool).Keys| == PoolCount(pool)
  {
    PageBlocksFacts(page, pool);
    SetOfDistinct(PageList(page, pool));
    assert PageBlocks(page, pool).Keys == Elements(PageList(page, pool));
  }

  lemma {:induction false} SetOfDistinct(s: seq<int>)
    requires Distinct(s)
    ensures |Elements(s)| == |s|
  {
    if s == [] {
      assert Elements(s) == {};
    } else {
      var rest := s[..|s| - 1];
      SetOfDistinct(rest);
      assert s == rest + [s[|s| - 1]];
      assert Elements(s) == Elements(rest) + {s[|s| - 1]};
    }
  }

  lemma ThreePools(h: Heap)
    requires Inventory(h)
    ensures |h.free| == 3 && |h.carved| == 3
  {}

  lemma BreakIsFree(blocks: map<int, Block>, brk: int)
    requires Geometry(blocks, brk)
    ensures forall a :: a in blocks ==> a < brk
  {}

  lemma UnionMembers(blocks: map<int, Block>, cut: map<int, Block>, k: int, pool: int)
    requires forall a :: a in blocks ==> a !in cut
    requires forall a :: a in cut ==> cut[a].pool == pool
    ensures OfPool(blocks + cut, k) == OfPool(blocks, k) + if k == pool then cut.Keys else {}
    ensures OfPool(blocks, k) * cut.Keys == {}
  {}

  lemma UnionOfPool(blocks: map<int, Block>, cut: map<int, Block>, k: int, pool: int)
    requires forall a :: a in blocks ==> a !in cut
    requires forall a :: a in cut ==> cut[a].pool == pool
    ensures PoolBlocks(blocks + cut, k) == PoolBlocks(blocks, k) + if k == pool then |cut.Keys| else 0
  {
    hide OfPool;
    UnionMembers(blocks, cut, k, pool);
    var more := if k == pool then cut.Keys else {};
    DisjointUnion(OfPool(blocks, k), more);
  }

  lemma UnionCounts(blocks: map<int, Block>, cut: map<int, Block>, carved: seq<int>, pool: int)
    requires Counts(blocks, carved) && (forall a :: a in blocks ==> a !in cut) && 0 <= pool < 3
    requires forall a :: a in cut ==> cut[a].pool == pool
    requires |cut.Keys| == PoolCount(pool)
    ensures Counts(blocks + cut, carved[pool := carved[pool] + 1])
  {
    hide PoolBlocks;
    forall k | 0 <= k < 3 ensures PoolBlocks(blocks + cut, k) == Capacity(k, carved[pool := carved[pool] + 1][k]) {
      UnionOfPool(blocks, cut, k, pool);
    }
  }

  lemma UnionGeometry(blocks: map<int, Block>, cut: map<int, Block>, brk: int)
    requires Geometry(blocks, brk) && DisjointBlocks(cut) && (forall a :: a in blocks ==> a !in cut)
    requires forall a :: a in blocks ==> a < brk
    requires forall a :: a in cut ==> brk <= a && a + cut[a].len <= brk + PAGE_SIZE_BYTES && BlockShape(a, cut[a])
    ensures Geometry(blocks + cut, brk + PAGE_SIZE_BYTES)
  {
    hide BlockShape;
    var all := blocks + cut;
    forall a, b | a in all && b in all && a < b ensures a + all[a].len <= b {
      if a in blocks && b in cut { assert a + blocks[a].len <= brk; }
    }
  }

  lemma UnionStatus(h: Heap, cut: map<int, Block>, s: seq<int>, pool: int)
    requires Status(h.free, h.blocks, h.live, h.gone) && 0 <= pool < 3 && h.free[pool] == []
    requires forall a :: a in h.blocks ==> a !in cut
    requires Distinct(s) && forall a :: a in cut <==> a in s
    requires forall a :: a in cut ==> cut[a].pool == pool
    ensures Status(h.free[pool := s], h.blocks + cut, h.live, h.gone)
  {
    assert forall a :: a in h.blocks + cut <==> a in h.blocks || a in cut;
  }

  lemma CutIsNew(blocks: map<int, Block>, brk: int, pool: int)
    requires Geometry(blocks, brk) && 0 <= pool < 3
    ensures forall a :: a in blocks ==> a !in PageBlocks(brk, pool)
    ensures forall a :: a in blocks ==> a < brk
  {
    hide PageList, PageBlocks, PoolCount, PoolSize;
    BreakIsFree(blocks, brk);
    PageBlocksFacts(brk, pool);
  }

  lemma CarveCounts(blocks: map<int, Block>, brk: int, carved: seq<int>, pool: int)
    requires Geometry(blocks, brk) && Counts(blocks, carved) && 0 <= pool < 3
    ensures Counts(blocks + PageBlocks(brk, pool), carved[pool := carved[pool] + 1])
  {
    hide PageList, PageBlocks, PoolCount, PoolSize, Geometry;
    CutIsNew(blocks, brk, pool);
    PageBlocksFacts(brk, pool);
    PageBlocksSize(brk, pool);
    UnionCounts(blocks, PageBlocks(brk, pool), carved, pool);
  }

  lemma CarveGeometry(h: Heap, pool: int)
    requires Inventory(h) && 0 <= pool < 3
    ensures Geometry(h.blocks + PageBlocks(h.brk, pool), h.brk + PAGE_SIZE_BYTES)
  {
    hide PageList, PageBlocks, PoolCount, PoolSize, Counts, Status;
    PageBlocksFacts(h.brk, pool);
    CutIsNew(h.blocks, h.brk, pool);
    UnionGeometry(h.blocks, PageBlocks(h.brk, pool), h.brk);
  }

  lemma CarveStatus(h: Heap, pool: int)
    requires Inventory(h) && 0 <= pool < 3 && h.free[pool] == []
    ensures Status(h.free[pool := PageList(h.brk, pool)], h.blocks + PageBlocks(h.brk, pool), h.live, h.gone)
  {
    hide PageList, PageBlocks, PoolCount, PoolSize, Counts, Geometry;
    PageBlocksFacts(h.brk, pool);
    CutIsNew(h.blocks, h.brk, pool);
    UnionStatus(h, PageBlocks(h.brk, pool), PageList(h.brk, pool), pool);
  }

  lemma CarveKeeps(h: Heap, pool: int)
    requires Inventory(h) && 0 <= pool < 3 && h.free[pool] == []
    ensures Inventory(Carve(h, pool))
    ensures Carve(h, pool).free[pool] != [] && Carve(h, pool).free[pool][0] == h.brk
  {
    hide PageList, PageBlocks, PoolCount, PoolSize, Capacity, PoolBlocks, DisjointBlocks, BlockShape;
    ThreePools(h);
    CountPositive(pool);
    PageBlocksFacts(h.brk, pool);
    CarveCounts(h.blocks, h.brk, h.carved, pool);
    CarveGeometry(h, pool);
    CarveStatus(h, pool);
  }

  lemma TakeKeeps(h: Heap, pool: int, size: int)
    requires Inventory(h) && 0 <= pool < 3 && h.free[pool] != [] && 0 <= size < PoolSize(pool)
    ensures Inventory(Take(h, pool, size)) && Take(h, pool, size).brk == h.brk
  {
    hide Counts, DisjointBlocks;
    assert h.free[pool] == [h.free[pool][0]] + h.free[pool][1..];
  }

  lemma SamePool(h: Heap, pages: int, size: int, k: int)
    requires h.brk !in h.blocks && 0 <= k < 3
    ensures PoolBlocks(Run(h, pages, size).blocks, k) == PoolBlocks(h.blocks, k)
  {
    assert OfPool(Run(h, pages, size).blocks, k) == OfPool(h.blocks, k);
  }

  lemma RunGeometry(h: Heap, pages: int, size: int)
    requires Geometry(h.blocks, h.brk) && pages > 0
    ensures Geometry(Run(h, pages, size).blocks, Run(h, pages, size).brk)
  {
    hide PoolSize;
    RunLength(pages, h.brk);
    BreakIsFree(h.blocks, h.brk);
  }

  lemma RunLength(pages: int, brk: int)
    requires pages > 0 && brk % PAGE_SIZE_BYTES == 0
    ensures pages * PAGE_SIZE_BYTES > 0 && pages * PAGE_SIZE_BYTES % PAGE_SIZE_BYTES == 0
    ensures (brk + pages * PAGE_SIZE_BYTES) % PAGE_SIZE_BYTES == 0
  {}

  lemma RunStatus(h: Heap, pages: int, size: int)
    requires Geometry(h.blocks, h.brk) && Status(h.free, h.blocks, h.live, h.gone)
    requires pages > 0 && 0 <= size < pages * PAGE_SIZE_BYTES
    ensures var h' := Run(h, pages, size); Status(h'.free, h'.blocks, h'.live, h'.gone)
  {
    hide Geometry;
    BreakIsFree(h.blocks, h.brk);
    assert h.brk !in h.blocks && h.brk !in h.live && h.brk !in h.gone;
    var h' := Run(h, pages, size);
    assert forall a :: a in h'.blocks <==> a in h.blocks || a == h.brk;
    assert forall a :: a in h.blocks ==> h'.blocks[a] == h.blocks[a];
  }

  lemma RunCounts(h: Heap, pages: int, size: int)
    requires Geometry(h.blocks, h.brk) && Counts(h.blocks, h.carved)
    ensures Counts(Run(h, pages, size).blocks, h.carved)
  {
    hide PoolBlocks, Geometry;
    BreakIsFree(h.blocks, h.brk);
    forall k | 0 <= k < 3 ensures PoolBlocks(Run(h, pages, size).blocks, k) == Capacity(k, h.carved[k]) {
      SamePool(h, pages, size, k);
    }
  }

  lemma RunKeeps(h: Heap, pages: int, size: int)
    requires Inventory(h) && pages > 0 && 0 <= size < pages * PAGE_SIZE_BYTES
    ensures Inventory(Run(h, pages, size))
  {
    hide Geometry, Counts, Status;
    RunGeometry(h, pages, size);
    RunCounts(h, pages, size);
    RunStatus(h, pages, size);
  }

  lemma DropKeeps(h: Heap, a: int)
    requires Inventory(h) && a in h.live
    ensures BlockShape(a, h.blocks[a]) && Inventory(Drop(h, a))
  {
    hide Counts, DisjointBlocks, PoolSize;
    var pool := h.blocks[a].pool;
    assert BlockShape(a, h.blocks[a]);
  }

  lemma MallocKeeps(h: Heap, size: nat)
    requires Inventory(h)
    ensures Inventory(Malloc(h, size))
    ensures Chosen(h, size) !in h.live
    ensures Malloc(h, size).live == h.live[Chosen(h, size) := size]
  {
    var pool := PoolFor(size);
    if pool == PPAGES {
      RunKeeps(h, NumPages(size), size);
    } else if h.free[pool] == [] {
      CarveKeeps(h, pool);
      TakeKeeps(Carve(h, pool), pool, size);
    } else {
      TakeKeeps(h, pool, size);
    }
  }

  // ----- what the inventory promises -----

  /** Header and client bytes of two live blocks never overlap. */
  lemma LiveRegionsDisjoint(h: Heap, a: int, b: int, x: int)
    requires Inventory(h) && a in h.live && b in h.live && a != b
    requires a <= x <= a + h.live[a]
    ensures !(b <= x <= b + h.live[b])
  {}

  lemma PoolOf(h: Heap, pool: int)
    requires Inventory(h) && 0 <= pool < 3
    ensures OfPool(h.blocks, pool) == Elements(h.free[pool]) + LiveOf(h, pool)
    ensures Elements(h.free[pool]) !! LiveOf(h, pool)
  {
    forall a ensures a in OfPool(h.blocks, pool) <==> a in h.free[pool] || a in LiveOf(h, pool) {
      assert InPool(h.blocks, a, pool) <==> a in h.free[pool] || a in LiveOf(h, pool);
    }
  }

  /** Conservation: every block ever carved for a pool is live or on its free list, exactly once. */
  lemma PoolConservation(h: Heap, pool: int)
    requires Inventory(h) && 0 <= pool < 3
    ensures |h.free[pool]| + |LiveOf(h, pool)| == Capacity(pool, h.carved[pool])
  {
    PoolOf(h, pool);
    SetOfDistinct(h.free[pool]);
  }

  /** Freeing what was just allocated and asking again for as much returns the same block. */
  lemma MallocDropMalloc(h: Heap, size: nat, size': nat)
    requires Inventory(h) && PoolFor(size) < PPAGES && PoolFor(size') == PoolFor(size)
    ensures var h1 := Malloc(h, size);
      var a := Chosen(h, size);
      a in h1.blocks && BlockShape(a, h1.blocks[a]) && Chosen(Drop(h1, a), size') == a
  {
    MallocKeeps(h, size);
    DropKeeps(Malloc(h, size), Chosen(h, size));
    var pool := PoolFor(size);
    var h1 := Malloc(h, size);
    var a := Chosen(h, size);
    assert h1.blocks[a].pool == pool by {
      if h.free[pool] == [] { CarveKeeps(h, pool); }
    }
  }
}
