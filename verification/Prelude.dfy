/** Shared by the other modules. */
module Prelude {
  const TWO_64 := 0x1_0000_0000_0000_0000
  const PAGE_SIZE_BYTES := 4096
  const STACK_PAGES := 4096
  const STACK_SIZE_BYTES := STACK_PAGES * PAGE_SIZE_BYTES

  datatype Option<+T> = None | Some(value: T)

  /** C's division: towards zero. */
  function Quotient(v: int, base: int): int
    requires base > 0
  {
    if v < 0 then -(-v / base) else v / base
  }

  /** Dividing twice. */
  lemma DivTwice(w: int, a: nat, b: nat)
    requires a > 0 && b > 0
    ensures w / a / b == w / (a * b)
  {
    var q := w / a;
    var p := q / b;
    var low := a * (q % b) + w % a;
    assert a * q == a * (b * p) + a * (q % b);
    assert a * (b * p) == a * b * p;
    MulLess(a, q % b, b);
    assert w == a * b * p + low && 0 <= low < a * b;
    QuotientIs(w, a * b, p, low);
  }

  lemma QuotientIs(w: int, size: nat, q: int, low: int)
    requires 0 <= low < size && w == size * q + low
    ensures w / size == q
  {
    var d := w / size - q;
    assert size * d == low - w % size;
  }

  lemma MulLess(size: nat, a: nat, b: nat)
    requires a < b
    ensures size * a + size <= size * b
  {
    MulMonotone(size, a + 1, b);
    assert size * (a + 1) == size * a + size;
  }

  lemma MulMonotone(step: nat, i: nat, j: nat)
    requires i <= j
    ensures step * i <= step * j
  {}

  ghost predicate Distinct<T>(s: seq<T>) {
    forall i, j :: 0 <= i < j < |s| ==> s[i] != s[j]
  }

  ghost function Elements<T>(s: seq<T>): set<T> { set x | x in s }

  lemma Member<T>(s: set<T>) returns (x: T)
    requires s != {}
    ensures x in s
  {
    x :| x in s;
  }

  lemma DisjointUnion<T>(a: set<T>, b: set<T>)
    requires a * b == {}
    ensures |a + b| == |a| + |b|
  {}
}
