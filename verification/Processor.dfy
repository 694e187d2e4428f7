/**
 What the processor does with the words of its page tables: 4-level paging as section 4.5 of the
 Intel SDM, volume 3A, describes it, by bit positions and without the kernel's structures.
 */
module Processor {
  import opened Prelude
  import opened Frame

  // ----- the bits of an entry -----

  predicate PresentBit(w: int) { w % 2 == 1 }

  predicate WritableBit(w: int) { w / 2 % 2 == 1 }

  predicate UserBit(w: int) { w / 4 % 2 == 1 }

  /** Bit 7 makes an entry of the two middle levels map a large page; it is reserved in the top level. */
  predicate PageSizeBit(w: int) { w / 0x80 % 2 == 1 }

  predicate NoExecuteBit(w: int) { w / 0x8000_0000_0000_0000 % 2 == 1 }

  /** Bits 12 to 51, as an address. */
  function FrameBits(w: int): int { w / 0x1000 % 0x100_0000_0000 * 0x1000 }

  /** Bits 52 to 62, which the processor leaves to software. */
  function IgnoredBits(w: int): int { w / 0x10_0000_0000_0000 % 0x800 }

  // ----- translation -----

  /** The nine address bits that index a table of the given level. */
  function TableIndex(level: int, address: nat): int {
    match level
    case 4 => address / 0x80_0000_0000 % 512
    case 3 => address / 0x4000_0000 % 512
    case 2 => address / 0x20_0000 % 512
    case _ => address / 0x1000 % 512
  }

  /** The bytes that one entry of the given level maps. */
  function PageBytes(level: int): int {
    match level
    case 3 => 0x4000_0000
    case 2 => 0x20_0000
    case _ => 0x1000
  }

  /** A physical address, and what the program may do there. */
  datatype Translation = Translation(physical: int, writable: bool, user: bool, executable: bool)

  /** Every level has to permit what the whole translation permits. */
  function Restricted(t: Translation, w: int): Translation {
    t.(writable := t.writable && WritableBit(w), user := t.user && UserBit(w), executable := t.executable && !NoExecuteBit(w))
  }

  /** The walk from a table of the given level; without a result the processor faults. */
  function Translate(mem: Memory, table: int, level: int, address: nat): Option<Translation>
    decreases level
  {
    var w := mem(table, TableIndex(level, address));
    if !PresentBit(w) || (level >= 4 && PageSizeBit(w)) then None
    else if level <= 1 || PageSizeBit(w) then
      var offset := address % PageBytes(level);
      Some(Restricted(Translation(FrameBits(w) / PageBytes(level) * PageBytes(level) + offset, true, true, true), w))
    else
      match Translate(mem, FrameBits(w), level - 1, address)
      case None => None
      case Some(t) => Some(Restricted(t, w))
  }
}
