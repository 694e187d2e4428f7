/**
 Intrusive lists: items at addresses, each holding the address of the next one. The link
 structure is a function from addresses to addresses, read off some memory.
 */
module Chain {
  import opened Prelude

  /** Following the links from `head` visits exactly `items` and arrives at `tail`. */
  ghost predicate Segment(next: int -> int, head: int, items: seq<int>, tail: int)
    decreases |items|
  {
    if items == [] then head == tail
    else head == items[0] && Segment(next, next(head), items[1..], tail)
  }

  lemma {:induction false} SegmentUnaffected(next: int -> int, next': int -> int, head: int, items: seq<int>, tail: int)
    requires Segment(next, head, items, tail)
    requires forall a :: a in items ==> next'(a) == next(a)
    ensures Segment(next', head, items, tail)
    decreases |items|
  {
    if items != [] {
      SegmentUnaffected(next, next', next(head), items[1..], tail);
    }
  }

  lemma {:induction false} SegmentAppend(next: int -> int, head: int, items: seq<int>, tail: int)
    requires Segment(next, head, items, tail)
    ensures Segment(next, head, items + [tail], next(tail))
    decreases |items|
  {
    if items == [] {
      assert [] + [tail] == [tail];
    } else {
      SegmentAppend(next, next(head), items[1..], tail);
      assert (items + [tail])[1..] == items[1..] + [tail];
    }
  }

  lemma SegmentRest(next: int -> int, head: int, items: seq<int>, tail: int)
    requires Segment(next, head, items, tail) && items != []
    ensures head == items[0] && Segment(next, next(head), items[1..], tail)
  {}

  lemma {:induction false} SegmentPrefix(next: int -> int, head: int, items: seq<int>, last: int, tail: int)
    requires Segment(next, head, items + [last], tail)
    ensures Segment(next, head, items, last)
    decreases |items|
  {
    if items != [] {
      assert (items + [last])[1..] == items[1..] + [last];
      SegmentPrefix(next, next(head), items[1..], last, tail);
    }
  }

  /** Storing a link into the item a segment ends at extends the segment by that item. */
  lemma LinkNext(next: int -> int, next': int -> int, head: int, items: seq<int>, block: int)
    requires Segment(next, head, items, block)
    requires forall a :: a in items ==> next'(a) == next(a)
    ensures Segment(next', head, items + [block], next'(block))
  {
    SegmentUnaffected(next, next', head, items, block);
    SegmentAppend(next', head, items, block);
  }

  /** `count` addresses from `start` on, `step` bytes apart. */
  function Spaced(start: int, step: nat, count: nat): (s: seq<int>)
    ensures |s| == count
  {
    if count == 0 then [] else Spaced(start, step, count - 1) + [start + step * (count - 1)]
  }

  lemma {:induction false} SpacedAt(start: int, step: nat, count: nat)
    ensures forall i :: 0 <= i < count ==> Spaced(start, step, count)[i] == start + step * i
    ensures forall a :: a in Spaced(start, step, count) ==> start <= a
    ensures forall a :: a in Spaced(start, step, count) ==> step == 0 || a < start + step * count
  {
    if count > 0 {
      SpacedAt(start, step, count - 1);
      assert step * (count - 1) + step == step * count;
      assert step * (count - 1) >= 0;
    }
  }

  lemma NoneSpaced(next: int -> int, start: int, step: nat)
    ensures Segment(next, start, Spaced(start, step, 0), start + step * 0)
  {}

  lemma NextSpaced(start: int, step: nat, count: nat, i: nat)
    requires i < count && step > 0
    ensures start <= start + step * i && start + step * i + step == start + step * (i + 1) <= start + step * count
    ensures Spaced(start, step, i + 1) == Spaced(start, step, i) + [start + step * i]
    ensures start + step * i !in Spaced(start, step, i)
    ensures start + step * i in Spaced(start, step, count)
  {
    SpacedAt(start, step, i);
    SpacedAt(start, step, count);
    MulMonotone(step, i + 1, count);
    assert Spaced(start, step, count)[i] == start + step * i;
  }
}
