/** Byte-addressed memory and the little-endian 64-bit words in it. */
module Bytes {
  import opened Prelude

  const WORD_BYTES := 8

  /** The byte at each address, 0 to 255. */
  type ByteMemory = int -> int

  function Pow256(n: nat): int
    ensures Pow256(n) >= 1
  {
    if n == 0 then 1 else 256 * Pow256(n - 1)
  }

  /** Byte `i` of a word, least significant first. */
  function ByteOf(w: nat, i: nat): int {
    if i == 0 then w % 256 else ByteOf(w / 256, i - 1)
  }

  /** The little-endian number in `n` bytes. */
  function ReadBytes(mem: ByteMemory, a: int, n: nat): int
    decreases n
  {
    if n == 0 then 0 else mem(a) + 256 * ReadBytes(mem, a + 1, n - 1)
  }

  /** `*(uint64_t*) a` */
  function ReadWord(mem: ByteMemory, a: int): int {
    ReadBytes(mem, a, WORD_BYTES)
  }

  /** `*(uint64_t*) a = w` */
  function WriteWord(mem: ByteMemory, a: int, w: nat): ByteMemory {
    x => if a <= x < a + WORD_BYTES then ByteOf(w, x - a) else mem(x)
  }

  function WriteByte(mem: ByteMemory, a: int, b: int): ByteMemory {
    x => if x == a then b else mem(x)
  }

  /** Byte `i` is bits 8 * i to 8 * i + 7. */
  lemma BytesOfWord(n: nat)
    ensures ByteOf(n, 0) == n % 256 && ByteOf(n, 1) == n / 0x100 % 256 && ByteOf(n, 2) == n / 0x1_0000 % 256
    ensures ByteOf(n, 3) == n / 0x100_0000 % 256 && ByteOf(n, 4) == n / 0x1_0000_0000 % 256
    ensures ByteOf(n, 5) == n / 0x100_0000_0000 % 256 && ByteOf(n, 6) == n / 0x1_0000_0000_0000 % 256
    ensures ByteOf(n, 7) == n / 0x100_0000_0000_0000 % 256
  {
    var n1 := n / 0x100;
    var n2 := n / 0x1_0000;
    var n3 := n / 0x100_0000;
    var n4 := n / 0x1_0000_0000;
    var n5 := n / 0x100_0000_0000;
    var n6 := n / 0x1_0000_0000_0000;
    ByteOfStep(n, n1);
    ByteOfStep(n1, n2);
    ByteOfStep(n2, n3);
    ByteOfStep(n3, n4);
    ByteOfStep(n4, n5);
    ByteOfStep(n5, n6);
    ByteOfStep(n6, n / 0x100_0000_0000_0000);
  }

  lemma ByteOfStep(n: nat, m: nat)
    requires m == n / 256
    ensures ByteOf(n, 0) == n % 256
    ensures forall i: nat :: ByteOf(n, i + 1) == ByteOf(m, i)
  {}

  /** A word in memory has its least significant byte at its own address. */
  lemma LittleEndian(mem: ByteMemory, a: int, w: nat)
    requires w < TWO_64
    ensures var m := WriteWord(mem, a, w);
      && m(a) == w % 0x100 && m(a + 1) == w / 0x100 % 0x100 && m(a + 2) == w / 0x1_0000 % 0x100
      && m(a + 3) == w / 0x100_0000 % 0x100 && m(a + 4) == w / 0x1_0000_0000 % 0x100
      && m(a + 5) == w / 0x100_0000_0000 % 0x100 && m(a + 6) == w / 0x1_0000_0000_0000 % 0x100
      && m(a + 7) == w / 0x100_0000_0000_0000
      && forall x :: x < a || a + 8 <= x ==> m(x) == mem(x)
  {
    hide ByteOf;
    BytesOfWord(w);
  }

  lemma {:induction false} ReadSame(mem: ByteMemory, mem': ByteMemory, a: int, n: nat)
    requires forall x :: a <= x < a + n ==> mem'(x) == mem(x)
    ensures ReadBytes(mem', a, n) == ReadBytes(mem, a, n)
    decreases n
  {
    if n > 0 {
      ReadSame(mem, mem', a + 1, n - 1);
    }
  }

  lemma {:induction false} ReadBack(mem: ByteMemory, a: int, w: nat, n: nat)
    requires w < Pow256(n)
    requires forall i: nat :: i < n ==> mem(a + i) == ByteOf(w, i)
    ensures ReadBytes(mem, a, n) == w
    decreases n
  {
    if n > 0 {
      forall i: nat | i < n - 1 ensures mem(a + 1 + i) == ByteOf(w / 256, i) {
        assert mem(a + (i + 1)) == ByteOf(w, i + 1);
      }
      ReadBack(mem, a + 1, w / 256, n - 1);
      assert mem(a + 0) == ByteOf(w, 0);
    }
  }

  /** A word written is the word read, and words elsewhere stay. */
  lemma WordRoundTrip(mem: ByteMemory, a: int, w: nat)
    requires w < TWO_64
    ensures ReadWord(WriteWord(mem, a, w), a) == w
  {
    assert Pow256(8) == TWO_64;
    var mem' := WriteWord(mem, a, w);
    forall i: nat | i < WORD_BYTES ensures mem'(a + i) == ByteOf(w, i) {}
    ReadBack(mem', a, w, WORD_BYTES);
  }

  lemma WordElsewhere(mem: ByteMemory, mem': ByteMemory, a: int)
    requires forall x :: a <= x < a + WORD_BYTES ==> mem'(x) == mem(x)
    ensures ReadWord(mem', a) == ReadWord(mem, a)
  {
    ReadSame(mem, mem', a, WORD_BYTES);
  }
}
