/**
 The page-table tree and its abstract value. A node is a table; its prefix is the part of the
 page number that selects it. `Tables` is the abstract value: which tables exist, and the flat
 maps from page numbers to data frames and to user access. `Reflects` says that the words in
 memory are exactly that value.
 */
module PageTree {
  import opened Prelude
  import opened Frame
  import opened PageEntry
  import opened Processor

  const PAGE_NOT_ALLOCATED := 0
  const PAGE_ALLOCATED := 1
  const ENTRIES := 512

  // ----- page numbers and nodes -----

  /** How many pages one table of a level covers: 512 for a p1 table, all of them for the p4 table. */
  function Span(level: int): int {
    match level
    case 1 => 512
    case 2 => 0x4_0000
    case 3 => 0x800_0000
    case 4 => 0x10_0000_0000
    case _ => 1
  }

  datatype Node = Node(level: int, prefix: int)
  {
    /** The tables this kernel builds: everything but those below entry 0, the identity map. */
    predicate InRange() {
      || this == ROOT
      || (1 <= level <= 3 && Span(3 - level) <= prefix < Span(4 - level))
    }

    function Child(i: int): Node { Node(level - 1, 512 * prefix + i) }

    function Parent(): Node { Node(level + 1, prefix / 512) }
  }

  const ROOT := Node(4, 0)

  /** The table of a level on the path to a page. */
  function On(level: int, page: int): Node { Node(level, page / Span(level)) }

  /** The index that table is left through. */
  function Index(level: int, page: int): int { page / Span(level - 1) % ENTRIES }

  /** A page number outside the identity map (P4 entry 0). */
  predicate InPages(page: int) { 0x800_0000 <= page < ALL_PAGES }

  /** The table lies on the path to some page of lo..hi. */
  predicate Spans(n: Node, lo: int, hi: int) {
    lo < hi && 1 <= n.level <= 3 && lo / Span(n.level) <= n.prefix <= (hi - 1) / Span(n.level)
  }

  lemma PathStep(level: int, page: int)
    requires InPages(page) && 2 <= level <= 4
    ensures On(4, page) == ROOT
    ensures On(level, page).InRange() && On(level - 1, page).InRange()
    ensures On(level, page).Child(Index(level, page)) == On(level - 1, page)
    ensures On(level - 1, page).Parent() == On(level, page)
  {}

  lemma ChildParent(n: Node, i: int)
    requires 0 <= i < ENTRIES
    ensures n.Child(i).Parent() == n && n.Child(i).prefix % ENTRIES == i
  {}

  lemma SpansStep(n: Node, lo: int, mid: int)
    requires 0 <= lo <= mid
    ensures Spans(n, lo, mid + 1) <==> Spans(n, lo, mid) || Spans(n, mid, mid + 1)
    ensures Spans(n, mid, mid + 1) <==> 1 <= n.level <= 3 && n == On(n.level, mid)
  {}

  // ----- the abstract value -----

  datatype Tables = Tables(root: int, nodes: map<Node, int>, data: map<int, int>, user: set<int>)
  {
    ghost predicate Shape() {
      && ROOT in nodes && nodes[ROOT] == root
      && (forall n :: n in nodes ==> n.InRange())
      && (forall n :: n in nodes && n != ROOT ==> n.Parent() in nodes)
      && (forall v :: v in data ==> Mapped(v))
      && (forall v :: v in user ==> Mapped(v))
    }

    /** The page has a p1 entry. */
    predicate Mapped(page: int) { On(1, page) in nodes }
  }

  function EntryAt(mem: Memory, frame: int, index: int): Entry {
    ToPageTableEntry(mem(frame, index))
  }

  /** An entry of an upper table: a usable link to the child table, or nothing. */
  ghost predicate InnerOk(mem: Memory, t: Tables, n: Node, i: int)
    requires n in t.nodes
  {
    var e := EntryAt(mem, t.nodes[n], i);
    && e.Plain()
    && if n.Child(i) in t.nodes then
         e.available2 == PAGE_ALLOCATED && e.GetAddress() == t.nodes[n.Child(i)] && e.present && e.writable && e.user
       else
         e.available2 == PAGE_NOT_ALLOCATED && !e.present
  }

  /** An entry of a p1 table: the page's data frame, or nothing. */
  ghost predicate LeafOk(mem: Memory, t: Tables, n: Node, i: int)
    requires n in t.nodes
  {
    var e := EntryAt(mem, t.nodes[n], i);
    var v := 512 * n.prefix + i;
    && (if v in t.data then e.available2 == PAGE_ALLOCATED && e.GetAddress() == t.data[v] && e.present && e.writable
        else e.available2 == PAGE_NOT_ALLOCATED && !e.present && !e.writable)
    && (e.user <==> v in t.user) && e.Plain()
  }

  ghost predicate EntryOk(mem: Memory, t: Tables, n: Node, i: int)
    requires n in t.nodes
  {
    if n.level == 1 then LeafOk(mem, t, n, i) else n.Child(i).InRange() ==> InnerOk(mem, t, n, i)
  }

  ghost predicate Reflects(mem: Memory, t: Tables) {
    t.Shape() && forall n, i :: n in t.nodes && 0 <= i < ENTRIES ==> EntryOk(mem, t, n, i)
  }

  // ----- reading the tree -----

  /** Where the kernel's table walk ends: a p1 table and an index into it. */
  datatype Slot = Slot(table: int, index: int)

  /** The walk of GetP1Entry without CREATE, from a table of the given level down. */
  function Walk(mem: Memory, table: int, level: int, page: int): Option<Slot>
    decreases level
  {
    if level <= 1 then Some(Slot(table, page % ENTRIES))
    else
      var e := EntryAt(mem, table, Index(level, page));
      if e.available2 == PAGE_ALLOCATED then Walk(mem, e.GetAddress(), level - 1, page) else None
  }

  lemma {:induction false} Ancestor(t: Tables, level: int, page: int)
    requires t.Shape() && InPages(page) && 1 <= level <= 4 && t.Mapped(page)
    ensures On(level, page) in t.nodes
  {
    if level > 1 {
      Ancestor(t, level - 1, page);
      PathStep(level, page);
      assert On(level - 1, page) != ROOT;
    }
  }

  /** The kernel's walk finds the page's p1 entry exactly when the page has one. */
  lemma {:induction false} WalkIsLookup(mem: Memory, t: Tables, level: int, page: int)
    requires Reflects(mem, t) && InPages(page) && 1 <= level <= 4 && On(level, page) in t.nodes
    ensures Walk(mem, t.nodes[On(level, page)], level, page)
         == if t.Mapped(page) then Some(Slot(t.nodes[On(1, page)], page % ENTRIES)) else None
  {
    hide ToPageTableEntry;
    if level > 1 {
      PathStep(level, page);
      assert EntryOk(mem, t, On(level, page), Index(level, page));
      if On(level - 1, page) in t.nodes {
        WalkIsLookup(mem, t, level - 1, page);
      } else if t.Mapped(page) {
        Ancestor(t, level - 1, page);
      }
    }
  }

  /** The processor and the kernel index the tables by the same bits. */
  lemma SameIndex(level: int, address: nat)
    requires 1 <= level <= 4
    ensures TableIndex(level, address) == Index(level, PageNumber(address)) && 0 <= TableIndex(level, address) < ENTRIES
  {
    var a := address / 0x1000;
    match level
    case 4 => DivTwice(address, 0x1000, 0x800_0000); ModThenDiv(a, 0x800_0000, 512);
    case 3 => DivTwice(address, 0x1000, 0x4_0000); ModThenDiv(a, 0x4_0000, 0x4_0000); ModThenDiv(a / 0x4_0000, 512, 512);
    case 2 => DivTwice(address, 0x1000, 512); ModThenDiv(a, 512, 0x800_0000); ModThenDiv(a / 512, 512, 0x4_0000);
    case 1 => ModThenDiv(a, 512, 0x800_0000);
  }

  /** An entry's word permits everything, and its frame is `frame`. */
  predicate Open(w: int, frame: int) {
    PresentBit(w) && WritableBit(w) && !PageSizeBit(w) && !NoExecuteBit(w) && FrameBits(w) == frame
  }

  /** What the processor finds in an entry of an upper table. */
  lemma InnerWord(mem: Memory, t: Tables, n: Node, i: int)
    requires n in t.nodes && InnerOk(mem, t, n, i)
    ensures var w := mem(t.nodes[n], i);
      if n.Child(i) in t.nodes then Open(w, t.nodes[n.Child(i)]) && UserBit(w) else !PresentBit(w)
  {
    hide ToPageTableEntry;
    EntryFields(mem(t.nodes[n], i));
  }

  /**
   What the processor and the kernel find in a p1 entry: bit 0 set exactly with a frame, which is
   then in bits 12 to 51, with bit 1 set and 1, PAGE_ALLOCATED, in bits 52 to 62, which are all
   clear otherwise; and in any case bit 2 set exactly for user pages.
   */
  lemma LeafWord(mem: Memory, t: Tables, n: Node, i: int)
    requires n in t.nodes && LeafOk(mem, t, n, i)
    ensures var w, v := mem(t.nodes[n], i), 512 * n.prefix + i;
      && (if v in t.data then Open(w, t.data[v]) && IgnoredBits(w) == 1 else !PresentBit(w) && !WritableBit(w) && IgnoredBits(w) == 0)
      && (UserBit(w) <==> v in t.user)
  {
    hide ToPageTableEntry;
    EntryFields(mem(t.nodes[n], i));
  }

  lemma WholeFrame(w: int)
    ensures FrameBits(w) / 0x1000 * 0x1000 == FrameBits(w)
  {}

  lemma RootIs(mem: Memory, t: Tables, page: int)
    requires Reflects(mem, t) && InPages(page)
    ensures On(4, page) in t.nodes && t.nodes[On(4, page)] == t.root
  {
    PathStep(4, page);
  }

  /** The last step of the processor's walk. */
  lemma TranslateLeaf(mem: Memory, t: Tables, address: nat)
    requires Reflects(mem, t) && On(1, PageNumber(address)) in t.nodes
    ensures var v := PageNumber(address);
      Translate(mem, t.nodes[On(1, v)], 1, address)
      == if v in t.data then Some(Translation(t.data[v] + address % 0x1000, true, v in t.user, true)) else None
  {
    hide PageNumber, TableIndex, PresentBit, WritableBit, UserBit, PageSizeBit, NoExecuteBit, FrameBits, LeafOk;
    var v := PageNumber(address);
    SameIndex(1, address);
    assert EntryOk(mem, t, On(1, v), Index(1, v));
    LeafWord(mem, t, On(1, v), Index(1, v));
    assert 512 * On(1, v).prefix + Index(1, v) == v;
    WholeFrame(mem(t.nodes[On(1, v)], TableIndex(1, address)));
  }

  /**
   The processor's walk over the words in memory is the flat map: a page with a frame is mapped
   there, for reading, writing and executing, and for user code exactly if it is marked so.
   */
  lemma {:induction false} TranslateIsFlatMap(mem: Memory, t: Tables, level: int, address: nat)
    requires Reflects(mem, t) && InPages(PageNumber(address)) && 1 <= level <= 4
    requires On(level, PageNumber(address)) in t.nodes
    ensures var v := PageNumber(address);
      Translate(mem, t.nodes[On(level, v)], level, address)
      == if v in t.data then Some(Translation(t.data[v] + address % 0x1000, true, v in t.user, true)) else None
  {
    hide ToPageTableEntry, PageNumber, TableIndex, PresentBit, WritableBit, UserBit, PageSizeBit, NoExecuteBit, FrameBits;
    hide InnerOk, LeafOk, Span;
    var v := PageNumber(address);
    if level == 1 {
      TranslateLeaf(mem, t, address);
    } else {
      SameIndex(level, address);
      PathStep(level, v);
      assert EntryOk(mem, t, On(level, v), Index(level, v));
      InnerWord(mem, t, On(level, v), Index(level, v));
      if On(level - 1, v) in t.nodes {
        TranslateIsFlatMap(mem, t, level - 1, address);
      } else if v in t.data {
        Ancestor(t, level - 1, v);
      }
    }
  }

  /**
   The word of a p1 entry after a page fault: bits 0 and 1 set, bit 2 for user pages, no execution
   bit 63, the frame in bits 12 to 51, and 1, PAGE_ALLOCATED, in bits 52 to 62.
   */
  predicate FaultWord(w: int, frame: int, user: bool) {
    && w % 2 == 1 && w / 2 % 2 == 1 && (w / 4 % 2 == 1 <==> user) && w / 0x8000_0000_0000_0000 % 2 == 0
    && w / 0x1000 % 0x100_0000_0000 * 0x1000 == frame && w / 0x10_0000_0000_0000 % 0x800 == 1
  }

  lemma WordBits(w: int, frame: int)
    ensures FaultWord(w, frame, UserBit(w)) <==> PresentBit(w) && WritableBit(w) && !NoExecuteBit(w) && FrameBits(w) == frame && IgnoredBits(w) == 1
  {}

  /** What the processor finds for a page with a frame: the bits of its p1 entry, and the whole translation. */
  lemma DataIsMapped(mem: Memory, t: Tables, address: nat)
    requires Reflects(mem, t) && InPages(PageNumber(address)) && PageNumber(address) in t.data
    ensures On(1, PageNumber(address)) in t.nodes
    ensures var v := PageNumber(address); FaultWord(mem(t.nodes[On(1, v)], v % 512), t.data[v], v in t.user)
    ensures var v := PageNumber(address);
      Translate(mem, t.root, 4, address) == Some(Translation(t.data[v] + address % 0x1000, true, v in t.user, true))
  {
    hide PageNumber, TableIndex, Translate, LeafOk, Span, PresentBit, UserBit, WritableBit, NoExecuteBit, FrameBits, IgnoredBits, FaultWord;
    var v := PageNumber(address);
    RootIs(mem, t, v);
    TranslateIsFlatMap(mem, t, 4, address);
    SameIndex(1, address);
    assert EntryOk(mem, t, On(1, v), Index(1, v));
    LeafWord(mem, t, On(1, v), Index(1, v));
    OnOne(v);
    WordBits(mem(t.nodes[On(1, v)], v % 512), t.data[v]);
  }

  lemma OnOne(page: int)
    ensures On(1, page) == Node(1, page / ENTRIES) && page == ENTRIES * (page / ENTRIES) + page % ENTRIES
    ensures 512 * On(1, page).prefix + Index(1, page) == page
  {}

  /** Two pages share a p1 entry only if they are the same page. */
  lemma SameSlotSamePage(mem: Memory, t: Tables, owner: map<int, Owner>, p: int, q: int)
    requires Reflects(mem, t) && Owns(t, owner) && InPages(p) && InPages(q)
    requires Walk(mem, t.root, 4, p).Some? && Walk(mem, t.root, 4, q).Some?
    ensures Walk(mem, t.root, 4, p) == Walk(mem, t.root, 4, q) <==> p == q
  {
    PathStep(4, p);
    PathStep(4, q);
    WalkIsLookup(mem, t, 4, p);
    WalkIsLookup(mem, t, 4, q);
    assert owner[t.nodes[On(1, p)]] == TableOf(On(1, p));
    assert owner[t.nodes[On(1, q)]] == TableOf(On(1, q));
  }

  /** Creating entries for a range of pages opens its mapped pages to user code, and changes no translation otherwise. */
  lemma CreationKeepsPages(mem: Memory, mem': Memory, t: Tables, t': Tables, lo: int, hi: int, address: nat)
    requires Reflects(mem, t) && Reflects(mem', t') && Grows(t, t', lo, hi) && InPages(PageNumber(address))
    ensures var before, after := Translate(mem, t.root, 4, address), Translate(mem', t.root, 4, address);
      after == if before.Some? && lo <= PageNumber(address) < hi then Some(before.value.(user := true)) else before
    ensures var page := PageNumber(address);
      && (Walk(mem, t.root, 4, page).Some? ==> Walk(mem', t.root, 4, page) == Walk(mem, t.root, 4, page))
      && (lo <= page < hi ==> Walk(mem', t.root, 4, page).Some?)
  {
    hide PageNumber, Translate, Walk, Reflects;
    var page := PageNumber(address);
    RootIs(mem, t, page);
    RootIs(mem', t', page);
    GrowsData(t, t', lo, hi);
    TranslateIsFlatMap(mem, t, 4, address);
    TranslateIsFlatMap(mem', t', 4, address);
    WalkIsLookup(mem, t, 4, page);
    WalkIsLookup(mem', t', 4, page);
  }

  // ----- changing the tree -----

  lemma ReflectsUnaffected(mem: Memory, mem': Memory, t: Tables)
    requires Reflects(mem, t)
    requires forall n, i :: n in t.nodes && 0 <= i < ENTRIES ==> EntryAt(mem', t.nodes[n], i) == EntryAt(mem, t.nodes[n], i)
    ensures Reflects(mem', t)
  {
    hide ToPageTableEntry;
    forall n, i | n in t.nodes && 0 <= i < ENTRIES ensures EntryOk(mem', t, n, i) {
      assert EntryOk(mem, t, n, i);
    }
  }

  /** Everything but one entry, and frames outside the tree, is as before. */
  ghost predicate OnlyEntryChanged(mem: Memory, mem': Memory, t: Tables, n: Node, i: int) {
    forall m, k :: m in t.nodes && 0 <= k < ENTRIES && !(m == n && k == i)
      ==> EntryAt(mem', t.nodes[m], k) == EntryAt(mem, t.nodes[m], k)
  }

  /** Linking a zeroed frame below an entry adds one empty table to the tree and changes no page. */
  lemma LinkChild(mem: Memory, mem': Memory, t: Tables, n: Node, i: int, frame: int)
    requires Reflects(mem, t)
    requires n in t.nodes && 2 <= n.level && 0 <= i < ENTRIES && n.Child(i).InRange() && n.Child(i) !in t.nodes
    requires OnlyEntryChanged(mem, mem', t, n, i)
    requires InnerOk(mem', t.(nodes := t.nodes[n.Child(i) := frame]), n, i)
    requires forall k :: 0 <= k < ENTRIES ==> mem'(frame, k) == 0
    ensures Reflects(mem', t.(nodes := t.nodes[n.Child(i) := frame]))
  {
    var c := n.Child(i);
    var t' := t.(nodes := t.nodes[c := frame]);
    ChildParent(n, i);
    assert t'.Shape();
    forall m, k | m in t'.nodes && 0 <= k < ENTRIES ensures EntryOk(mem', t', m, k) {
      LinkChildEntry(mem, mem', t, n, i, frame, m, k);
    }
  }

  lemma LinkChildEntry(mem: Memory, mem': Memory, t: Tables, n: Node, i: int, frame: int, m: Node, k: int)
    requires Reflects(mem, t)
    requires n in t.nodes && 2 <= n.level && 0 <= i < ENTRIES && n.Child(i).InRange() && n.Child(i) !in t.nodes
    requires OnlyEntryChanged(mem, mem', t, n, i)
    requires InnerOk(mem', t.(nodes := t.nodes[n.Child(i) := frame]), n, i)
    requires forall k :: 0 <= k < ENTRIES ==> mem'(frame, k) == 0
    requires (m in t.nodes || m == n.Child(i)) && 0 <= k < ENTRIES
    ensures EntryOk(mem', t.(nodes := t.nodes[n.Child(i) := frame]), m, k)
  {
    hide ToPageTableEntry, Span;
    var c := n.Child(i);
    if m == c {
      EmptyTable(t, c, k);
      ZeroEntry();
      assert mem'(frame, k) == 0;
    } else if m != n || k != i {
      assert EntryOk(mem, t, m, k);
      ChildParent(m, k);
      ChildParent(n, i);
    }
  }

  /** Nothing hangs below a table that does not exist yet. */
  lemma EmptyTable(t: Tables, c: Node, k: int)
    requires t.Shape() && c !in t.nodes && c.InRange() && 0 <= k < ENTRIES
    ensures c.level == 1 ==> 512 * c.prefix + k !in t.data && 512 * c.prefix + k !in t.user
    ensures c.level > 1 ==> c.Child(k) !in t.nodes
  {
    ChildParent(c, k);
    assert c.level == 1 ==> On(1, 512 * c.prefix + k) == c;
  }

  /** Rewriting one p1 entry changes that page only. */
  lemma SetLeaf(mem: Memory, mem': Memory, t: Tables, t': Tables, page: int)
    requires Reflects(mem, t) && InPages(page) && t.Mapped(page)
    requires t' == t.(data := t'.data, user := t'.user) && t'.Shape()
    requires forall v :: v != page ==> (v in t.data <==> v in t'.data) && (v in t.user <==> v in t'.user)
    requires forall v :: v != page && v in t.data ==> t'.data[v] == t.data[v]
    requires OnlyEntryChanged(mem, mem', t, On(1, page), page % ENTRIES)
    requires LeafOk(mem', t', On(1, page), page % ENTRIES)
    ensures Reflects(mem', t')
  {
    hide ToPageTableEntry;
    forall m, k | m in t'.nodes && 0 <= k < ENTRIES ensures EntryOk(mem', t', m, k) {
      if m != On(1, page) || k != page % ENTRIES {
        assert EntryOk(mem, t, m, k);
        assert m.level == 1 ==> 512 * m.prefix + k != page;
      }
    }
  }

  // ----- growth by created entries -----

  /** `t'` is `t` with entries created for exactly the pages lo..hi. */
  ghost predicate Grows(t: Tables, t': Tables, lo: int, hi: int) {
    && t'.root == t.root && t'.data == t.data
    && (forall n :: n in t'.nodes <==> n in t.nodes || Spans(n, lo, hi))
    && (forall n :: n in t.nodes ==> n in t'.nodes && t'.nodes[n] == t.nodes[n])
    && (forall v :: v in t'.user <==> v in t.user || lo <= v < hi)
  }

  lemma GrowsNot(t: Tables, lo: int)
    ensures Grows(t, t, lo, lo)
  {}

  lemma GrowsData(t: Tables, t': Tables, lo: int, hi: int)
    requires Grows(t, t', lo, hi)
    ensures t'.data == t.data && t'.root == t.root
  {}

  lemma GrowsStep(t: Tables, t1: Tables, t2: Tables, lo: int, mid: int)
    requires 0 <= lo <= mid
    requires Grows(t, t1, lo, mid) && Grows(t1, t2, mid, mid + 1)
    ensures Grows(t, t2, lo, mid + 1)
  {
    forall n ensures n in t2.nodes <==> n in t.nodes || Spans(n, lo, mid + 1) {
      SpansStep(n, lo, mid);
    }
  }

  lemma PathGrows(t: Tables, page: int, a3: int, a2: int, a1: int)
    requires InPages(page)
    requires On(3, page) in t.nodes ==> a3 == t.nodes[On(3, page)]
    requires On(2, page) in t.nodes ==> a2 == t.nodes[On(2, page)]
    requires On(1, page) in t.nodes ==> a1 == t.nodes[On(1, page)]
    ensures var nodes := t.nodes[On(3, page) := a3][On(2, page) := a2][On(1, page) := a1];
      Grows(t, t.(nodes := nodes, user := t.user + {page}), page, page + 1)
  {
    var t' := t.(nodes := t.nodes[On(3, page) := a3][On(2, page) := a2][On(1, page) := a1]);
    forall n ensures n in t'.nodes <==> n in t.nodes || Spans(n, page, page + 1) {
      SpansStep(n, page, page);
    }
  }

  /** The pages with entries afterwards: those in the same 512-page blocks as lo..hi, and the old ones. */
  lemma GrowsMaps(t: Tables, t': Tables, lo: int, hi: int, page: int)
    requires Grows(t, t', lo, hi) && 0 <= lo < hi && page >= 0
    ensures t'.Mapped(page) <==> t.Mapped(page) || lo / 512 <= page / 512 <= (hi - 1) / 512
    ensures lo <= page < hi ==> t'.Mapped(page)
  {}

  // ----- who owns each frame -----

  datatype Owner = TableOf(n: Node) | DataOf(page: int) | Lost

  /** Every owned frame has one owner, and tables and pages own exactly the frames they name. */
  ghost predicate Owns(t: Tables, owner: map<int, Owner>) {
    && (forall n :: n in t.nodes && n != ROOT ==> t.nodes[n] in owner && owner[t.nodes[n]] == TableOf(n))
    && (forall v :: v in t.data ==> t.data[v] in owner && owner[t.data[v]] == DataOf(v))
    && (forall f :: f in owner ==> match owner[f]
          case TableOf(n) => n in t.nodes && n != ROOT && t.nodes[n] == f
          case DataOf(v) => v in t.data && t.data[v] == f
          case Lost => true)
  }

  lemma OwnNewTable(t: Tables, owner: map<int, Owner>, c: Node, frame: int)
    requires Owns(t, owner) && t.Shape() && c !in t.nodes && c != ROOT && frame !in owner
    ensures Owns(t.(nodes := t.nodes[c := frame]), owner[frame := TableOf(c)])
  {}

  lemma OwnNewData(t: Tables, owner: map<int, Owner>, page: int, frame: int)
    requires Owns(t, owner) && frame !in owner
    ensures var freed := if page in t.data then owner[t.data[page] := Lost] else owner;
      freed.Keys == owner.Keys && Owns(t.(data := t.data[page := frame]), freed[frame := DataOf(page)])
  {}

  lemma OwnDropData(t: Tables, owner: map<int, Owner>, page: int)
    requires Owns(t, owner) && page in t.data
    ensures Owns(t.(data := t.data - {page}), owner - {t.data[page]})
  {}

  /** Frames that belong to nobody any more and can never be freed. */
  ghost function LostFrames(owner: map<int, Owner>): set<int> {
    set f | f in owner && owner[f] == Lost
  }

  /** The tables missing on the path to a page. */
  ghost function Missing(t: Tables, page: int): int {
    (if On(3, page) in t.nodes then 0 else 1) + (if On(2, page) in t.nodes then 0 else 1) + (if On(1, page) in t.nodes then 0 else 1)
  }

  /** The tables missing on the paths to the pages lo..hi. */
  ghost function MissingTables(t: Tables, lo: int, hi: int): set<Node> {
    set level, prefix | 1 <= level <= 3 && lo / Span(level) <= prefix <= (hi - 1) / Span(level)
      && Spans(Node(level, prefix), lo, hi) && Node(level, prefix) !in t.nodes :: Node(level, prefix)
  }

  ghost function MissingCount(t: Tables, lo: int, hi: int): int { |MissingTables(t, lo, hi)| }

  lemma MissingMembers(t: Tables, lo: int, hi: int)
    ensures forall n :: n in MissingTables(t, lo, hi) <==> Spans(n, lo, hi) && n !in t.nodes
  {
    forall n | Spans(n, lo, hi) && n !in t.nodes ensures n in MissingTables(t, lo, hi) {
      assert n == Node(n.level, n.prefix);
    }
  }

  function Absent(t: Tables, n: Node): set<Node> { if n in t.nodes then {} else {n} }

  lemma MissingOfOneIs(t: Tables, page: int)
    requires page >= 0
    ensures MissingTables(t, page, page + 1) == Absent(t, On(3, page)) + Absent(t, On(2, page)) + Absent(t, On(1, page))
  {
    MissingMembers(t, page, page + 1);
    forall n | n in MissingTables(t, page, page + 1)
      ensures n in Absent(t, On(3, page)) + Absent(t, On(2, page)) + Absent(t, On(1, page))
    {
      SpansStep(n, page, page);
    }
    forall level | 1 <= level <= 3 ensures Spans(On(level, page), page, page + 1) {
      SpansStep(On(level, page), page, page);
    }
  }

  lemma MissingOfOne(t: Tables, page: int)
    requires page >= 0
    ensures MissingCount(t, page, page + 1) == Missing(t, page)
  {
    hide MissingTables, On;
    MissingOfOneIs(t, page);
    var m3, m2, m1 := Absent(t, On(3, page)), Absent(t, On(2, page)), Absent(t, On(1, page));
    OnDiffers(page);
    assert m3 * m2 == {} && (m3 + m2) * m1 == {};
    DisjointUnion(m3, m2);
    DisjointUnion(m3 + m2, m1);
  }

  lemma OnDiffers(page: int)
    ensures On(3, page) != On(2, page) && On(3, page) != On(1, page) && On(2, page) != On(1, page)
  {}

  lemma MissingSplit(t: Tables, t1: Tables, lo: int, mid: int)
    requires 0 <= lo <= mid && Grows(t, t1, lo, mid)
    ensures MissingTables(t, lo, mid + 1) == MissingTables(t, lo, mid) + MissingTables(t1, mid, mid + 1)
    ensures MissingTables(t, lo, mid) * MissingTables(t1, mid, mid + 1) == {}
  {
    hide MissingTables, Spans;
    MissingMembers(t, lo, mid);
    MissingMembers(t1, mid, mid + 1);
    MissingMembers(t, lo, mid + 1);
    var a, b, c := MissingTables(t, lo, mid), MissingTables(t1, mid, mid + 1), MissingTables(t, lo, mid + 1);
    forall n: Node ensures n in c <==> n in a || n in b {
      SpansStep(n, lo, mid);
    }
  }

  /** What a range misses is what its front misses, and what its last page still misses after that. */
  lemma MissingStep(t: Tables, t1: Tables, lo: int, mid: int)
    requires 0 <= lo <= mid && Grows(t, t1, lo, mid)
    ensures MissingCount(t, lo, mid + 1) == MissingCount(t, lo, mid) + Missing(t1, mid)
  {
    hide MissingTables, Grows, Missing;
    MissingOfOne(t1, mid);
    MissingSplit(t, t1, lo, mid);
    DisjointUnion(MissingTables(t, lo, mid), MissingTables(t1, mid, mid + 1));
  }

  lemma MissingMonotone(t: Tables, lo: int, mid: int, hi: int)
    requires 0 <= lo <= mid <= hi
    ensures 0 <= MissingCount(t, lo, mid) <= MissingCount(t, lo, hi)
  {
    MissingMembers(t, lo, mid);
    MissingMembers(t, lo, hi);
    var a, c := MissingTables(t, lo, mid), MissingTables(t, lo, hi);
    forall n | n in a ensures n in c {
      SpansWider(n, lo, mid, hi);
    }
    assert c == a + (c - a);
  }

  lemma SpansWider(n: Node, lo: int, mid: int, hi: int)
    requires Spans(n, lo, mid) && mid <= hi
    ensures Spans(n, lo, hi)
  {}

  /** One more page of a range: enough frames for the front and the page, or too few for the range. */
  lemma MissingMore(t: Tables, t1: Tables, lo: int, mid: int, hi: int)
    requires 0 <= lo <= mid < hi && Grows(t, t1, lo, mid)
    ensures MissingCount(t, lo, mid + 1) == MissingCount(t, lo, mid) + Missing(t1, mid) <= MissingCount(t, lo, hi)
  {
    MissingStep(t, t1, lo, mid);
    MissingMonotone(t, lo, mid + 1, hi);
  }

  lemma MissingNone(t: Tables, lo: int)
    ensures MissingCount(t, lo, lo) == 0
  {
    assert MissingTables(t, lo, lo) == {};
  }

  // ----- what is never touched behind a page's back -----

  /** The data frames of the pages hold the same words in both memories. */
  ghost predicate DataKept(mem: Memory, mem': Memory, data: map<int, int>) {
    forall v :: v in data ==> SameFrame(mem, mem', data[v])
  }

  lemma DataKeptTrans(mem: Memory, mem1: Memory, mem2: Memory, data: map<int, int>)
    requires DataKept(mem, mem1, data) && DataKept(mem1, mem2, data)
    ensures DataKept(mem, mem2, data)
  {
    forall v | v in data ensures SameFrame(mem, mem2, data[v]) {
      assert SameFrame(mem, mem1, data[v]) && SameFrame(mem1, mem2, data[v]);
    }
  }

  lemma StoredKeepsData(mem: Memory, frame: int, index: int, value: int, data: map<int, int>)
    requires forall v :: v in data ==> data[v] != frame
    ensures DataKept(mem, Stored(mem, frame, index, value), data)
  {}

  lemma AllocationKeepsData(mem: Memory, mem': Memory, available: set<int>, data: map<int, int>)
    requires forall v :: v in data ==> data[v] !in available
    requires forall f :: f !in available ==> SameFrame(mem', mem, f)
    ensures DataKept(mem, mem', data)
  {
    forall v | v in data ensures SameFrame(mem, mem', data[v]) {
      assert SameFrame(mem', mem, data[v]);
    }
  }

  /** No frame is lost, and no page's data is written. */
  ghost predicate Conserved(mem: Memory, mem': Memory, data: map<int, int>, owner: map<int, Owner>, owner': map<int, Owner>) {
    DataKept(mem, mem', data) && LostFrames(owner') == LostFrames(owner)
  }

  lemma ConservedTrans(mem: Memory, mem1: Memory, mem2: Memory, data: map<int, int>,
                       owner: map<int, Owner>, owner1: map<int, Owner>, owner2: map<int, Owner>)
    requires Conserved(mem, mem1, data, owner, owner1) && Conserved(mem1, mem2, data, owner1, owner2)
    ensures Conserved(mem, mem2, data, owner, owner2)
  {
    DataKeptTrans(mem, mem1, mem2, data);
  }

  lemma ConservedSame(mem: Memory, data: map<int, int>, owner: map<int, Owner>)
    ensures Conserved(mem, mem, data, owner, owner)
  {}

  lemma ConservedFewer(mem: Memory, mem': Memory, data: map<int, int>, data': map<int, int>, owner: map<int, Owner>, owner': map<int, Owner>)
    requires Conserved(mem, mem', data, owner, owner')
    requires forall v :: v in data' ==> v in data && data'[v] == data[v]
    ensures Conserved(mem, mem', data', owner, owner')
  {
    forall v | v in data' ensures SameFrame(mem, mem', data'[v]) {
      assert SameFrame(mem, mem', data[v]);
    }
  }

  lemma DroppedLosesNothing(owner: map<int, Owner>, frame: int)
    requires frame in owner && owner[frame].DataOf?
    ensures LostFrames(owner - {frame}) == LostFrames(owner)
  {}

  lemma StoreConserves(mem: Memory, frame: int, index: int, value: int, data: map<int, int>, owner: map<int, Owner>)
    requires forall v :: v in data ==> data[v] != frame
    ensures Conserved(mem, Stored(mem, frame, index, value), data, owner, owner)
  {
    StoredKeepsData(mem, frame, index, value, data);
  }

  lemma AllocationConserves(mem: Memory, mem': Memory, available: set<int>, data: map<int, int>, owner: map<int, Owner>)
    requires forall v :: v in data ==> data[v] !in available
    requires forall f :: f !in available ==> SameFrame(mem', mem, f)
    ensures Conserved(mem, mem', data, owner, owner)
  {
    AllocationKeepsData(mem, mem', available, data);
  }

  lemma NewTableConserves(mem: Memory, table: int, index: int, value: int, data: map<int, int>, owner: map<int, Owner>, frame: int, n: Node)
    requires forall v :: v in data ==> data[v] != table
    requires frame !in owner
    ensures Conserved(mem, Stored(mem, table, index, value), data, owner, owner[frame := TableOf(n)])
  {
    StoredKeepsData(mem, table, index, value, data);
    NewTableLosesNothing(owner, frame, n);
  }

  lemma DataKeptSame(mem: Memory, data: map<int, int>)
    ensures DataKept(mem, mem, data)
  {}

  lemma ConservedData(mem: Memory, mem': Memory, data: map<int, int>, owner: map<int, Owner>, owner': map<int, Owner>)
    requires Conserved(mem, mem', data, owner, owner')
    ensures DataKept(mem, mem', data)
  {}

  lemma ConservedLost(mem: Memory, mem': Memory, data: map<int, int>, owner: map<int, Owner>, owner': map<int, Owner>)
    requires Conserved(mem, mem', data, owner, owner')
    ensures LostFrames(owner') == LostFrames(owner)
  {}

  /** Clearing an entry and putting its frame on the free list touches no other page's data. */
  lemma ReleaseConserves(mem: Memory, table: int, index: int, cleared: int, t: Tables, owner: map<int, Owner>, page: int, next: int)
    requires Owns(t, owner) && page in t.data && forall v :: v in t.data ==> t.data[v] != table
    ensures Conserved(mem, Stored(Stored(mem, table, index, cleared), t.data[page], 0, next), t.data - {page}, owner, owner - {t.data[page]})
  {
    var frame := t.data[page];
    var mem1 := Stored(mem, table, index, cleared);
    forall v | v in t.data - {page} ensures t.data[v] != frame {
      assert owner[t.data[v]] == DataOf(v);
    }
    StoredKeepsData(mem, table, index, cleared, t.data - {page});
    StoredKeepsData(mem1, frame, 0, next, t.data - {page});
    DataKeptTrans(mem, mem1, Stored(mem1, frame, 0, next), t.data - {page});
    DroppedLosesNothing(owner, frame);
  }

  lemma NewTableLosesNothing(owner: map<int, Owner>, frame: int, n: Node)
    requires frame !in owner
    ensures LostFrames(owner[frame := TableOf(n)]) == LostFrames(owner)
  {}

  /** The tables without the data frames of the pages lo..hi. */
  ghost function DropData(t: Tables, lo: int, hi: int): Tables {
    t.(data := map v | v in t.data && !(lo <= v < hi) :: t.data[v])
  }

  /** The data frames of the pages lo..hi. */
  ghost function DataFrames(t: Tables, lo: int, hi: int): set<int> {
    set v | v in t.data && lo <= v < hi :: t.data[v]
  }

  lemma LostOnInstall(t: Tables, owner: map<int, Owner>, page: int, frame: int)
    requires Owns(t, owner) && frame !in owner
    ensures var freed := if page in t.data then owner[t.data[page] := Lost] else owner;
      LostFrames(freed[frame := DataOf(page)]) == LostFrames(owner) + (if page in t.data then {t.data[page]} else {})
  {}

  lemma NewDataShape(t: Tables, page: int, frame: int)
    requires t.Shape() && t.Mapped(page)
    ensures t.(data := t.data[page := frame]).Shape() && t.(user := t.user + {page}).Shape()
    ensures t.(data := t.data - {page}).Shape()
  {}

  lemma NoDataFrames(t: Tables, lo: int, hi: int)
    ensures (forall v :: lo <= v < hi ==> v !in t.data) ==> DataFrames(t, lo, hi) == {}
  {}

  lemma DropDataFrames(t: Tables, lo: int, mid: int)
    requires lo <= mid
    ensures DropData(t, lo, mid + 1) == DropData(t, lo, mid).(data := DropData(t, lo, mid).data - {mid})
    ensures DropData(t, lo, lo) == t
    ensures DataFrames(t, lo, lo) == {}
    ensures DataFrames(t, lo, mid + 1) == DataFrames(t, lo, mid) + (if mid in t.data then {t.data[mid]} else {})
    ensures DropData(t, lo, mid).nodes == t.nodes
    ensures mid in DropData(t, lo, mid).data <==> mid in t.data
    ensures mid in t.data ==> DropData(t, lo, mid).data[mid] == t.data[mid]
  {}

  ghost function Image<K>(m: map<K, int>): set<int> {
    set k | k in m :: m[k]
  }

  lemma {:induction false} ImageSize<K>(m: map<K, int>)
    requires forall a, b :: a in m && b in m && m[a] == m[b] ==> a == b
    ensures |Image(m)| == |m.Keys|
  {
    if m.Keys != {} {
      var k :| k in m;
      var rest := m - {k};
      ImageSize(rest);
      assert m.Keys == rest.Keys + {k};
      assert Image(m) == Image(rest) + {m[k]};
    } else {
      assert Image(m) == {};
    }
  }

  lemma ImageMember<K>(m: map<K, int>, f: int) returns (k: K)
    requires f in Image(m)
    ensures k in m && m[k] == f
  {
    k :| k in m && m[k] == f;
  }

  ghost function OwnedByTables(owner: map<int, Owner>): set<int> {
    set f | f in owner && owner[f].TableOf?
  }

  ghost function OwnedByPages(owner: map<int, Owner>): set<int> {
    set f | f in owner && owner[f].DataOf?
  }

  lemma OwnerKinds(owner: map<int, Owner>)
    ensures |owner.Keys| == |OwnedByTables(owner)| + |OwnedByPages(owner)| + |LostFrames(owner)|
  {
    var ts, ds, ls := OwnedByTables(owner), OwnedByPages(owner), LostFrames(owner);
    assert ts !! ds && (ts + ds) !! ls;
    assert owner.Keys == ts + ds + ls;
  }

  lemma TableFramesCount(t: Tables, owner: map<int, Owner>)
    requires Owns(t, owner) && ROOT in t.nodes
    ensures |OwnedByTables(owner)| == |t.nodes.Keys| - 1
  {
    var below := t.nodes - {ROOT};
    forall a, b | a in below && b in below && below[a] == below[b] ensures a == b {
      assert owner[below[a]] == TableOf(a) && owner[below[b]] == TableOf(b);
    }
    ImageSize(below);
    assert t.nodes.Keys == below.Keys + {ROOT};
    var frames := OwnedByTables(owner);
    forall f ensures f in frames <==> f in Image(below) {
      if f in frames {
        assert below[owner[f].n] == f;
      }
      if f in Image(below) {
        var n := ImageMember(below, f);
        assert owner[f] == TableOf(n);
      }
    }
    assert frames == Image(below);
  }

  lemma DataFramesCount(t: Tables, owner: map<int, Owner>)
    requires Owns(t, owner)
    ensures |OwnedByPages(owner)| == |t.data.Keys|
  {
    forall a, b | a in t.data && b in t.data && t.data[a] == t.data[b] ensures a == b {
      assert owner[t.data[a]] == DataOf(a) && owner[t.data[b]] == DataOf(b);
    }
    ImageSize(t.data);
    var frames := OwnedByPages(owner);
    forall f ensures f in frames <==> f in Image(t.data) {
      if f in frames {
        assert t.data[owner[f].page] == f;
      }
      if f in Image(t.data) {
        var v := ImageMember(t.data, f);
        assert owner[f] == DataOf(v);
      }
    }
    assert frames == Image(t.data);
  }

  /** Owned frames are counted once: one per table below the root, one per data page, and the lost ones. */
  lemma OwnedCount(t: Tables, owner: map<int, Owner>)
    requires Owns(t, owner) && ROOT in t.nodes
    ensures |owner.Keys| == |t.nodes.Keys| - 1 + |t.data.Keys| + |LostFrames(owner)|
  {
    OwnerKinds(owner);
    TableFramesCount(t, owner);
    DataFramesCount(t, owner);
  }
}
