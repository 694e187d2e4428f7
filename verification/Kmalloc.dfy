/** kmalloc, kfree and kcalloc over bytes. */
module Kmalloc {
  import opened Prelude
  import opened Chain
  import opened Bytes
  import opened KmallocHeap
  import opened KmallocMemory

  class Allocator {
    var mem: ByteMemory
    var heads: seq<int>
    var heapBreak: int
    /** kernel_stacks_break. */
    var limit: int
    /** The pages that have been read or written and so have a frame. */
    var touched: set<int>
    ghost var h: Heap

    ghost predicate Valid()
      reads this
    {
      && heapBreak == h.brk < limit <= TWO_64
      && Inventory(h) && Lists(mem, heads, h.free) && Headers(mem, h) && Backed(h, touched)
    }

    /** If the request takes new pages, they fit below the stacks. */
    ghost predicate HasRoom(size: nat)
      requires Valid()
      reads this
    {
      PoolFor(size) == PPAGES || h.free[PoolFor(size)] == [] ==> heapBreak + NumPages(size) * PAGE_SIZE_BYTES < limit
    }

    /** The static initial state: empty pools, heap break at the start of the heap. */
    constructor (mem: ByteMemory, limit: int)
      requires HEAP_BASE < limit <= TWO_64
      ensures Valid() && h == Heap([[], [], []], map[], map[], {}, [0, 0, 0], HEAP_BASE)
    {
      this.mem := mem;
      this.limit := limit;
      heads := [NULL, NULL, NULL];
      heapBreak := HEAP_BASE;
      touched := {};
      h := Heap([[], [], []], map[], map[], {}, [0, 0, 0], HEAP_BASE);
      new;
      EmptyInventory();
    }

    /** A byte store to memory this kernel mapped; the first one brings in the page's frame. */
    method StoreByte(a: int, b: int)
      modifies `mem, `touched
      ensures mem == WriteByte(old(mem), a, b) && touched == old(touched) + {PageOf(a)}
    {
      mem := WriteByte(mem, a, b);
      touched := touched + {PageOf(a)};
    }

    /** A StackAllocate takes the next 16 MiB below the limit, unless that would reach the heap. */
    method StackAllocate()
      requires Valid()
      modifies `limit
      ensures Valid()
      ensures limit == if old(limit) - STACK_SIZE_BYTES <= heapBreak then old(limit) else old(limit) - STACK_SIZE_BYTES
    {
      if limit - STACK_SIZE_BYTES <= heapBreak {
        return;
      }
      limit := limit - STACK_SIZE_BYTES;
    }

    /** PageAllocate: the page at the break, or null when the heap would reach the stacks. */
    method PageAllocate() returns (page: int)
      modifies `heapBreak
      ensures page == if old(heapBreak) + PAGE_SIZE_BYTES >= limit then NULL else old(heapBreak)
      ensures heapBreak == if old(heapBreak) + PAGE_SIZE_BYTES >= limit then old(heapBreak) else old(heapBreak) + PAGE_SIZE_BYTES
    {
      if heapBreak + PAGE_SIZE_BYTES >= limit {
        return NULL;
      }
      page := heapBreak;
      heapBreak := heapBreak + PAGE_SIZE_BYTES;
    }

    /** AllocateNewPool: a page, threaded into a list of its blocks. A null page is threaded like any other. */
    method AllocateNewPool(pool: int) returns (page: int)
      requires 0 <= pool < 3 && 0 <= heapBreak && limit <= TWO_64
      modifies `mem, `touched, `heapBreak
      ensures page == if old(heapBreak) + PAGE_SIZE_BYTES >= limit then NULL else old(heapBreak)
      ensures heapBreak == if old(heapBreak) + PAGE_SIZE_BYTES >= limit then old(heapBreak) else old(heapBreak) + PAGE_SIZE_BYTES
      ensures Segment(WordLinks(mem), page, PageList(page, pool), NULL)
      ensures forall x :: !(page <= x < page + PAGE_SIZE_BYTES) ==> mem(x) == old(mem)(x)
      ensures page % PAGE_SIZE_BYTES == 0 ==> touched == old(touched) + {PageOf(page)}
    {
      page := PageAllocate();
      BlocksFillPage(pool);
      ThreadPool(page, PoolSize(pool), PAGE_SIZE_BYTES / PoolSize(pool), page + PAGE_SIZE_BYTES);
    }

    /** AllocateNewPool's loop, over `count` blocks of `size` bytes that end at `end`. */
    method ThreadPool(page: int, size: nat, count: nat, ghost end: int)
      requires WORD_BYTES <= size && count >= 1 && page >= 0 && page + size * count == end < TWO_64
      modifies `mem, `touched
      ensures Segment(WordLinks(mem), page, Spaced(page, size, count), NULL)
      ensures forall x :: !(page <= x < end) ==> mem(x) == old(mem)(x)
      ensures touched == old(touched) + {PageOf(page)}
    {
      hide ReadWord, WriteWord;
      NoneSpaced(WordLinks(mem), page, size);
      var block, i := page, 0;
      while i < count
        invariant 0 <= i <= count && touched == old(touched)
        invariant page <= block == page + size * i <= end
        invariant Segment(WordLinks(mem), page, Spaced(page, size, i), block)
        invariant forall x :: !(page <= x < end) ==> mem(x) == old(mem)(x)
      {
        NextSpaced(page, size, count, i);
        StoreLink(page, size, i, block, block + size);
        block := block + size;
        i := i + 1;
      }
      NextSpaced(page, size, count, count - 1);
      var lastBlock := page + size * (count - 1);
      SegmentPrefix(WordLinks(mem), page, Spaced(page, size, count - 1), lastBlock, end);
      StoreLink(page, size, count - 1, lastBlock, NULL);
      touched := touched + {PageOf(page)};
    }

    /** Points block `i` of a page under construction at `next`, extending the list by it. */
    method StoreLink(page: int, size: nat, i: nat, block: int, next: int)
      requires WORD_BYTES <= size && 0 <= next < TWO_64 && block == page + size * i
      requires Segment(WordLinks(mem), page, Spaced(page, size, i), block)
      modifies `mem
      ensures Segment(WordLinks(mem), page, Spaced(page, size, i + 1), next)
      ensures forall x :: !(block <= x < block + size) ==> mem(x) == old(mem)(x)
    {
      hide ReadWord;
      ghost var before := mem;
      mem := WriteWord(mem, block, next);
      WordRoundTrip(before, block, next);
      NextSpaced(page, size, i + 1, i);
      SpacedAt(page, size, i);
      forall a | a in Spaced(page, size, i) ensures WordLinks(mem)(a) == WordLinks(before)(a) {
        var j :| 0 <= j < i && Spaced(page, size, i)[j] == a;
        MulMonotone(size, j + 1, i);
        assert size * (j + 1) == size * j + size;
        WordElsewhere(before, mem, a);
      }
      LinkNext(WordLinks(before), WordLinks(mem), page, Spaced(page, size, i), block);
    }

    /** A pool without free blocks gets a fresh page of them. */
    method RefillPool(pool: int)
      requires Valid() && 0 <= pool < 3 && h.free[pool] == [] && heapBreak + PAGE_SIZE_BYTES < limit
      modifies `mem, `heads, `heapBreak, `touched, `h
      ensures Valid() && h == Carve(old(h), pool) && h.free[pool] != []
      ensures forall x :: x < old(heapBreak) ==> mem(x) == old(mem)(x)
      ensures touched == old(touched) + {PageOf(old(heapBreak))}
    {
      var page := AllocateNewPool(pool);
      heads := heads[pool := page];
      CarveKeeps(h, pool);
      CarvedBlocks(h, pool);
      ListsBelow(old(mem), mem, old(heads), h);
      h := Carve(h, pool);
    }

    /** Pops the head block of a pool and writes its header byte. */
    method TakeHead(pool: int, size: nat) returns (block: int)
      requires Valid() && 0 <= pool < 3 && h.free[pool] != [] && size < PoolSize(pool)
      modifies `mem, `heads, `heapBreak, `touched, `h
      ensures Valid() && h == Take(old(h), pool, size) && block == old(h).free[pool][0] && heapBreak == old(heapBreak) == h.brk
      ensures mem == WriteByte(old(mem), block, pool) && touched == old(touched)
    {
      hide Inventory, Take, Lists, Headers, Backed, WriteByte, ReadWord;
      ThreePools(h);
      TakeKeeps(h, pool, size);
      TakeKeepsMemory(mem, heads, h, touched, pool, size);
      block := heads[pool];
      heads := heads[pool := ReadWord(mem, block)];
      StoreByte(block, pool);
      assert touched == old(touched);
      h := Take(h, pool, size);
    }

    /** The page branch: a run of pages at the heap break, with its page count in the header. */
    method NewRun(size: nat, numPages: nat) returns (block: int)
      requires Valid() && size < numPages * PAGE_SIZE_BYTES && heapBreak + numPages * PAGE_SIZE_BYTES < limit
      modifies `mem, `heads, `heapBreak, `touched, `h
      ensures Valid() && h == Run(old(h), numPages, size) && block == old(heapBreak)
      ensures mem == WriteByte(old(mem), block, PPAGES + 4 * (numPages % 64)) && touched == old(touched) + {PageOf(block)}
    {
      block := heapBreak;
      heapBreak := heapBreak + numPages * PAGE_SIZE_BYTES;
      RunKeeps(h, numPages, size);
      RunHeader(mem, h, numPages, size, touched);
      StoreByte(block, PPAGES + 4 * (numPages % 64));
      ListsBelow(old(mem), mem, heads, h);
      h := Run(h, numPages, size);
    }

    /**
     kmalloc. If the heap has room for the page or run that the request may need, it does to the
     inventory what `Malloc` says and touches no header and no client byte of any live block. If
     not, the null page it gets is used unchecked: the result is address 1, live blocks still keep
     their bytes, and nothing else is promised from then on.
     */
    method Kmalloc(size: nat) returns (p: int)
      requires Valid() && size < MAX_REQUEST
      modifies `mem, `heads, `heapBreak, `touched, `h
      ensures p == 1 <==> !old(HasRoom(size))
      ensures old(HasRoom(size)) ==>
        && Valid() && h == Malloc(old(h), size) && p == Chosen(old(h), size) + 1
        && touched == old(touched) + {PageOf(p - 1)}
      ensures LiveKept(old(mem), mem, old(h))
      ensures heapBreak == if old(HasRoom(size)) then h.brk else old(heapBreak)
    {
      hide Inventory, LiveKept;
      var effectiveSize := size + 1;
      var block;
      if effectiveSize <= 32 {
        block := TakeFromPool(0, size);
      } else if effectiveSize <= 256 {
        block := TakeFromPool(1, size);
      } else if effectiveSize <= 1024 {
        block := TakeFromPool(2, size);
      } else {
        block := TakeRun(size);
      }
      p := block + 1;
    }

    /** kmalloc's page branch. */
    method TakeRun(size: nat) returns (block: int)
      requires Valid() && size < MAX_REQUEST && PoolFor(size) == PPAGES
      modifies `mem, `heads, `heapBreak, `touched, `h
      ensures block == NULL <==> !old(HasRoom(size))
      ensures old(HasRoom(size)) ==>
        && Valid() && h == Malloc(old(h), size) && block == Chosen(old(h), size)
        && touched == old(touched) + {PageOf(block)}
      ensures LiveKept(old(mem), mem, old(h))
      ensures heapBreak == if old(HasRoom(size)) then h.brk else old(heapBreak)
    {
      hide Inventory, WriteByte;
      LiveBelowBreak(h);
      BreakIsHigh(h);
      HoldsRequestIff(size);
      var numPages := IntPages(size + 1).value;
      if heapBreak + numPages * PAGE_SIZE_BYTES < limit {
        block := NewRun(size, numPages);
        ByteKeepsLive(old(mem), old(mem), old(h), block, PPAGES + 4 * (numPages % 64));
      } else {
        block := NULL;
        StoreByte(block, PPAGES + 4 * (numPages % 64));
        ByteKeepsLive(old(mem), old(mem), old(h), block, PPAGES + 4 * (numPages % 64));
      }
    }

    /** One of kmalloc's three pool branches. */
    method TakeFromPool(pool: int, size: nat) returns (block: int)
      requires Valid() && PoolFor(size) == pool < PPAGES
      modifies `mem, `heads, `heapBreak, `touched, `h
      ensures block == NULL <==> !old(HasRoom(size))
      ensures old(HasRoom(size)) ==>
        && Valid() && h == Malloc(old(h), size) && block == Chosen(old(h), size)
        && touched == old(touched) + {PageOf(block)}
      ensures LiveKept(old(mem), mem, old(h))
      ensures heapBreak == if old(HasRoom(size)) then h.brk else old(heapBreak)
    {
      hide Inventory, WriteByte, Lists, Headers, Carve, Take;
      EmptyPools();
      ThreeHeads();
      LiveBelowBreak(h);
      BreakIsHigh(h);
      ThreePools(h);
      assert h.free[pool] != [] ==> h.free[pool][0] in h.free[pool];
      ChosenIsBacked(h, touched, pool);
      if h.free[pool] != [] { TakenIsNotLive(h, pool); }
      if heads[pool] == NULL {
        if heapBreak + PAGE_SIZE_BYTES >= limit {
          block := TakeFromNull(pool);
          LowBytesAreFree(old(mem), old(mem), mem, old(h));
          return;
        }
        RefillPool(pool);
        CarvedHead(old(h), pool);
      }
      ghost var mem1 := mem;
      block := TakeHead(pool, size);
      ByteKeepsLive(old(mem), mem1, old(h), block, pool);
    }

    /** What the same branch does with a null page. */
    method TakeFromNull(pool: int) returns (block: int)
      requires Valid() && 0 <= pool < 3 && heapBreak + PAGE_SIZE_BYTES >= limit
      modifies `mem, `heads, `heapBreak, `touched, `h
      ensures block == NULL && heapBreak == old(heapBreak)
      ensures forall x :: x >= PAGE_SIZE_BYTES ==> mem(x) == old(mem)(x)
    {
      hide Inventory, Lists, Headers, Backed;
      ThreeHeads();
      BreakIsHigh(h);
      var page := AllocateNewPool(pool);
      heads := heads[pool := page];
      block := heads[pool];
      heads := heads[pool := ReadWord(mem, block)];
      StoreByte(block, pool);
    }

    lemma ThreeHeads()
      requires Valid()
      ensures |heads| == 3
    {}

    /**
     kfree of a live region. A pool block goes back to the pool its header names, which is the one
     it came from. A run gives back as many pages as its six-bit count says; this halts exactly
     when one of them was never touched. No other live region loses a byte.
     */
    method Kfree(p: int) returns (ok: bool)
      requires Valid() && p - 1 in h.live
      modifies `mem, `heads, `heapBreak, `touched, `h
      ensures ok <==> RunBacked(old(h), p - 1, old(touched))
      ensures ok ==> Valid() && Released(old(h), h, p - 1) && touched == StillBacked(old(h), p - 1, old(touched))
      ensures ok ==> OthersKept(old(mem), mem, old(h), p - 1)
    {
      var block := p - 1;
      HeaderOf(mem, h, block);
      var pool := mem(block) % 4;
      if pool < PPAGES {
        PoolBlockBacked(h, block, touched);
        PushBlock(block, pool);
        ok := true;
      } else {
        ok := FreeRun(block);
      }
    }

    /** The page branch of kfree. */
    method FreeRun(block: int) returns (ok: bool)
      requires Valid() && block in h.live && block in h.blocks && h.blocks[block].pool == PPAGES
      modifies `mem, `heads, `heapBreak, `touched, `h
      ensures ok <==> RunBacked(old(h), block, old(touched))
      ensures ok ==> Valid() && Released(old(h), h, block) && touched == StillBacked(old(h), block, old(touched))
      ensures ok ==> mem == old(mem)
    {
      hide Lists;
      HeaderOf(mem, h, block);
      DropKeeps(h, block);
      RunGone(h, block, touched);
      DroppedRun(mem, heads, h, block);
      ok := PageFreeContiguous(block, mem(block) / 4);
      if ok {
        h := Drop(h, block);
      }
    }

    /** The pool branches of kfree: thread the block onto its pool's list. */
    method PushBlock(block: int, pool: int)
      requires Valid() && block in h.live && 0 <= pool < 3 && h.blocks[block].pool == pool
      modifies `mem, `heads, `heapBreak, `touched, `h
      ensures Valid() && Released(old(h), h, block) && touched == old(touched)
      ensures OthersKept(old(mem), mem, old(h), block)
    {
      hide WriteWord, Segment;
      DropKeeps(h, block);
      HeadInRange(pool);
      PushKeeps(mem, heads, h, block, pool);
      OtherLive(h, block);
      mem := WriteWord(mem, block, heads[pool]);
      heads := heads[pool := block];
      h := Drop(h, block);
    }

    /** PageFreeContiguous, on the frames behind the run's first pages. */
    method PageFreeContiguous(block: int, numPages: nat) returns (ok: bool)
      requires block % PAGE_SIZE_BYTES == 0
      modifies `touched
      ensures ok <==> forall v :: PageOf(block) <= v < PageOf(block) + numPages ==> v in old(touched)
      ensures ok ==> touched == set v | v in old(touched) && !(PageOf(block) <= v < PageOf(block) + numPages)
    {
      var i := 0;
      while i < numPages
        invariant 0 <= i <= numPages
        invariant forall v :: PageOf(block) <= v < PageOf(block) + i ==> v in old(touched)
        invariant touched == set v | v in old(touched) && !(PageOf(block) <= v < PageOf(block) + i)
      {
        var page := PageOf(block + PAGE_SIZE_BYTES * i);
        if page !in touched {
          return false;
        }
        touched := touched - {page};
        i := i + 1;
      }
      ok := true;
    }

    /** A client's read inside its own region. Reading a page for the first time gives it a frame, too. */
    method ClientLoad(p: int, offset: nat) returns (b: int)
      requires Valid() && p - 1 in h.live && offset < h.live[p - 1]
      modifies `touched
      ensures Valid() && b == mem(p + offset) && touched == old(touched) + {PageOf(p + offset)}
    {
      hide Inventory, Lists, Headers;
      b := mem(p + offset);
      touched := touched + {PageOf(p + offset)};
    }

    /** A client's store inside its own region. */
    method ClientStore(p: int, offset: nat, b: int)
      requires Valid() && p - 1 in h.live && offset < h.live[p - 1]
      modifies `mem, `touched
      ensures Valid() && mem == WriteByte(old(mem), p + offset, b) && touched == old(touched) + {PageOf(p + offset)}
      ensures OthersKept(old(mem), mem, h, p - 1) && forall a :: a in h.live ==> mem(a) == old(mem)(a)
    {
      hide Inventory, Lists, Headers, Backed, OthersKept;
      StoreByte(p + offset, b);
      StoreKeeps(old(mem), mem, heads, h, old(touched), touched, p - 1);
    }

    /** memset to zero. */
    method ZeroFill(p: int, size: nat)
      modifies `mem, `touched
      ensures forall x :: mem(x) == if p <= x < p + size then 0 else old(mem)(x)
      ensures touched == old(touched) + PagesOf(p, size)
    {
      hide PagesOf;
      NoPages(p);
      var i := 0;
      while i < size
        invariant 0 <= i <= size
        invariant forall x :: mem(x) == if p <= x < p + i then 0 else old(mem)(x)
        invariant touched == old(touched) + PagesOf(p, i)
      {
        PagesOfMore(p, i);
        StoreByte(p + i, 0);
        i := i + 1;
      }
    }

    /** kcalloc: kmalloc, then a memset of the whole region, be it null or not. */
    method Kcalloc(size: nat) returns (p: int)
      requires Valid() && size < MAX_REQUEST
      modifies `mem, `heads, `heapBreak, `touched, `h
      ensures p == 1 <==> !old(HasRoom(size))
      ensures forall x :: p <= x < p + size ==> mem(x) == 0
      ensures old(HasRoom(size)) ==>
        && Valid() && h == Malloc(old(h), size) && p == Chosen(old(h), size) + 1
        && touched == old(touched) + {PageOf(p - 1)} + PagesOf(p, size)
      ensures LiveKept(old(mem), mem, old(h))
    {
      hide Inventory, Malloc, Chosen, Lists, Headers, Backed, PagesOf, LiveKept;
      ghost var h0, mem0 := h, mem;
      ThreePools(h);
      MallocKeeps(h, size);
      p := Kmalloc(size);
      ghost var mem1, touched1 := mem, touched;
      ZeroFill(p, size);
      if old(HasRoom(size)) {
        StoreKeeps(mem1, mem, heads, h, touched1, touched, p - 1);
        OthersWereLive(mem0, mem1, mem, h0, h, p - 1);
      } else {
        LowBytesAreFree(mem0, mem1, mem, h0);
      }
    }

    lemma HeadInRange(pool: int)
      requires Valid() && 0 <= pool < 3
      ensures 0 <= heads[pool] < TWO_64
    {
      if h.free[pool] != [] { assert h.free[pool][0] in h.blocks; }
    }

    lemma EmptyPools()
      requires Valid()
      ensures forall k :: 0 <= k < 3 ==> (heads[k] == NULL <==> h.free[k] == [])
    {
      forall k | 0 <= k < 3 ensures heads[k] == NULL <==> h.free[k] == [] {
        if h.free[k] != [] { assert h.free[k][0] in h.blocks; }
      }
    }

    lemma EmptyInventory()
      ensures Inventory(Heap([[], [], []], map[], map[], {}, [0, 0, 0], HEAP_BASE))
    {
      var e := Heap([[], [], []], map[], map[], {}, [0, 0, 0], HEAP_BASE);
      forall k | 0 <= k < 3 ensures PoolBlocks(e.blocks, k) == Capacity(k, e.carved[k]) {
        assert OfPool(e.blocks, k) == {};
      }
    }
  }
}
