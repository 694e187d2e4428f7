/** The bit layouts of virtual addresses and page-table entries. */
module PageEntry {
  import opened Prelude
  import opened Chain
  import opened Frame
  import opened Processor

  /** The number of 4096-byte pages in the 48-bit address space. */
  const ALL_PAGES := 0x10_0000_0000

  /** The 36-bit page number of an address. */
  function PageNumber(address: nat): int {
    address / PAGE_SIZE_BYTES % ALL_PAGES
  }

  // ----- virtual addresses -----

  datatype VirtualAddress = VirtualAddress(offset: int, p1: int, p2: int, p3: int, p4: int, signExtended: int)
  {
    predicate Fits() {
      && 0 <= offset < 4096 && 0 <= p1 < 512 && 0 <= p2 < 512 && 0 <= p3 < 512 && 0 <= p4 < 512
      && 0 <= signExtended < 0x1_0000
    }
  }

  function ToVirtualAddress(address: nat): VirtualAddress {
    var a1 := address / 4096;
    var a2 := a1 / 512;
    var a3 := a2 / 512;
    var a4 := a3 / 512;
    VirtualAddress(address % 4096, a1 % 512, a2 % 512, a3 % 512, a4 % 512, a4 / 512 % 0x1_0000)
  }

  function FromVirtualAddress(v: VirtualAddress): int {
    v.offset + 4096 * (v.p1 + 512 * (v.p2 + 512 * (v.p3 + 512 * (v.p4 + 512 * v.signExtended))))
  }

  /** A bit field below a multiple of its size is the remainder, and the multiple is the quotient. */
  lemma Peel(low: int, size: int, high: int)
    requires 0 <= low < size && high >= 0
    ensures (low + size * high) / size == high && (low + size * high) % size == low
  {
    var w := low + size * high;
    assert w == size * (w / size) + w % size;
    if w / size < high { MulLess(size, w / size, high); }
    if high < w / size { MulLess(size, high, w / size); }
  }

  /** Dropping low bits commutes with cutting off high bits. */
  lemma ModThenDiv(a: nat, m: nat, k: nat)
    requires m > 0 && k > 0
    ensures m * k > 0 && a % (m * k) / m == a / m % k && a % (m * k) % m == a % m
  {
    var q := a / m;
    var low := m * (q % k) + a % m;
    assert m * (q % k + k * (q / k)) == m * (q % k) + m * (k * (q / k));
    assert m * k * (q / k) == m * (k * (q / k));
    assert a == low + m * k * (q / k);
    MulLess(m, q % k, k);
    Peel(low, m * k, q / k);
    Peel(a % m, m, q % k);
  }

  lemma VirtualAddressRoundTrip(v: VirtualAddress)
    requires v.Fits()
    ensures 0 <= FromVirtualAddress(v) < TWO_64
    ensures ToVirtualAddress(FromVirtualAddress(v)) == v
  {
    var a4 := v.p4 + 512 * v.signExtended;
    var a3 := v.p3 + 512 * a4;
    var a2 := v.p2 + 512 * a3;
    var a1 := v.p1 + 512 * a2;
    Peel(v.offset, 4096, a1);
    Peel(v.p1, 512, a2);
    Peel(v.p2, 512, a3);
    Peel(v.p3, 512, a4);
    Peel(v.p4, 512, v.signExtended);
  }

  lemma AddressRoundTrip(a: Word)
    ensures ToVirtualAddress(a).Fits()
    ensures FromVirtualAddress(ToVirtualAddress(a)) == a
  {}

  /** The fields are the bits by which the processor indexes its tables. */
  lemma AddressFields(a: Word)
    ensures var v := ToVirtualAddress(a);
      && v.offset == a % 0x1000 && v.signExtended == a / 0x1_0000_0000_0000
      && v.p1 == TableIndex(1, a) && v.p2 == TableIndex(2, a) && v.p3 == TableIndex(3, a) && v.p4 == TableIndex(4, a)
  {
    DivTwice(a, 4096, 512);
    DivTwice(a, 0x20_0000, 512);
    DivTwice(a, 0x4000_0000, 512);
    DivTwice(a, 0x80_0000_0000, 512);
  }

  // ----- page-table entries -----

  /** `flags` stands for the nine bits 3 to 11, which the kernel never touches. */
  datatype Entry = Entry(present: bool, writable: bool, user: bool, flags: int, address: int, available2: int, noExecute: bool)
  {
    predicate Fits() {
      0 <= flags < 512 && 0 <= address < 0x100_0000_0000 && 0 <= available2 < 2048
    }

    /** Bit 7, the fifth of the flags. */
    predicate HugePage() { flags / 16 % 2 == 1 }

    /** Neither a large page nor closed to execution. */
    predicate Plain() { !HugePage() && !noExecute }

    function GetAddress(): int { address * 4096 }

    function SetAddress(pointer: int): Entry { this.(address := pointer / 4096) }
  }

  function Bit(b: bool): int { if b then 1 else 0 }

  function ToPageTableEntry(w: int): Entry {
    var w1 := w / 2;
    var w2 := w1 / 2;
    var w3 := w2 / 2;
    var w12 := w3 / 512;
    var w52 := w12 / 0x100_0000_0000;
    Entry(w % 2 == 1, w1 % 2 == 1, w2 % 2 == 1, w3 % 512, w12 % 0x100_0000_0000, w52 % 2048, w52 / 2048 % 2 == 1)
  }

  function FromPageTableEntry(e: Entry): int {
    Bit(e.present) + 2 * (Bit(e.writable) + 2 * (Bit(e.user) + 2 * (e.flags + 512 * (
      e.address + 0x100_0000_0000 * (e.available2 + 2048 * Bit(e.noExecute))))))
  }

  /** The fields of an entry lie where the processor looks for them. */
  lemma EntryFields(w: int)
    ensures var e := ToPageTableEntry(w);
      && (e.present <==> PresentBit(w)) && (e.writable <==> WritableBit(w)) && (e.user <==> UserBit(w))
      && (e.HugePage() <==> PageSizeBit(w)) && (e.noExecute <==> NoExecuteBit(w))
      && e.GetAddress() == FrameBits(w) && e.available2 == IgnoredBits(w) && e.flags == w / 8 % 512
  {
    DivTwice(w, 2, 2);
    DivTwice(w, 4, 2);
    DivTwice(w, 8, 512);
    DivTwice(w, 0x1000, 0x100_0000_0000);
    DivTwice(w, 0x10_0000_0000_0000, 2048);
    HugePageBit(w / 8);
    DivTwice(w, 8, 16);
  }

  lemma HugePageBit(w3: int)
    ensures w3 % 512 / 16 % 2 == w3 / 16 % 2
  {
    var q, r := w3 / 512, w3 % 512;
    var x := r / 16;
    Rest(w3, 512);
    Rest(r, 16);
    QuotientIs(w3, 16, 32 * q + x, r % 16);
    SameParity(32 * q + x, x, 16 * q);
  }

  lemma Rest(w: int, size: nat)
    requires size > 0
    ensures w == size * (w / size) + w % size
  {}

  lemma SameParity(a: int, b: int, k: int)
    requires a == b + 2 * k
    ensures a % 2 == b % 2
  {}

  /** What a zeroed word means. */
  const NO_ENTRY := Entry(false, false, false, 0, 0, 0, false)

  lemma ZeroEntry()
    ensures ToPageTableEntry(0) == NO_ENTRY
  {}

  lemma EntryRoundTrip(e: Entry)
    requires e.Fits()
    ensures 0 <= FromPageTableEntry(e) < TWO_64
    ensures ToPageTableEntry(FromPageTableEntry(e)) == e
  {
    var w52 := e.available2 + 2048 * Bit(e.noExecute);
    var w12 := e.address + 0x100_0000_0000 * w52;
    var w3 := e.flags + 512 * w12;
    var w2 := Bit(e.user) + 2 * w3;
    var w1 := Bit(e.writable) + 2 * w2;
    var w := Bit(e.present) + 2 * w1;
    assert FromPageTableEntry(e) == w && 0 <= w < TWO_64;
    assert w / 2 == w1 && w % 2 == Bit(e.present) by { Peel(Bit(e.present), 2, w1); }
    assert w1 / 2 == w2 && w1 % 2 == Bit(e.writable) by { Peel(Bit(e.writable), 2, w2); }
    assert w2 / 2 == w3 && w2 % 2 == Bit(e.user) by { Peel(Bit(e.user), 2, w3); }
    assert w3 / 512 == w12 && w3 % 512 == e.flags by { Peel(e.flags, 512, w12); }
    assert w12 / 0x100_0000_0000 == w52 && w12 % 0x100_0000_0000 == e.address by { Peel(e.address, 0x100_0000_0000, w52); }
    assert w52 / 2048 == Bit(e.noExecute) && w52 % 2048 == e.available2 by { Peel(e.available2, 2048, Bit(e.noExecute)); }
  }

  lemma WordRoundTrip(w: Word)
    ensures ToPageTableEntry(w).Fits()
    ensures FromPageTableEntry(ToPageTableEntry(w)) == w
  {
    var e := ToPageTableEntry(w);
    var w1 := w / 2;
    var w2 := w1 / 2;
    var w3 := w2 / 2;
    assert Bit(e.present) == w % 2 && Bit(e.writable) == w1 % 2 && Bit(e.user) == w2 % 2;
    assert w == Bit(e.present) + 2 * (Bit(e.writable) + 2 * (Bit(e.user) + 2 * w3));
    var w12 := w3 / 512;
    var w52 := w12 / 0x100_0000_0000;
    assert w52 < 4096 && Bit(e.noExecute) == w52 / 2048;
    assert w3 == e.flags + 512 * (e.address + 0x100_0000_0000 * w52);
  }
}
