/** The circular doubly linked list of list.h, and the sequence it stands for. */
module List {
  import opened Prelude

  // ----- the sequence operations -----

  /** The first position of `v`, which is where GetEntry stops; |s| when there is none. */
  function IndexOf<T(==)>(s: seq<T>, v: T): (k: nat)
    ensures k <= |s|
    ensures k < |s| ==> s[k] == v
    ensures forall i :: 0 <= i < k ==> s[i] != v
    ensures k < |s| <==> v in s
  {
    if s == [] then 0 else if s[0] == v then 0 else 1 + IndexOf(s[1..], v)
  }

  function Without<T>(s: seq<T>, k: nat): seq<T>
    requires k < |s|
  {
    s[..k] + s[k + 1..]
  }

  function Next<T(==)>(s: seq<T>, v: T): T
    requires v in s
  {
    var k := IndexOf(s, v);
    if k + 1 < |s| then s[k + 1] else s[0]
  }

  function Previous<T(==)>(s: seq<T>, v: T): T
    requires v in s
  {
    var k := IndexOf(s, v);
    if k == 0 then s[|s| - 1] else s[k - 1]
  }

  function NextNoLoop<T(==)>(s: seq<T>, v: T): Option<T>
    requires v in s
  {
    var k := IndexOf(s, v);
    if k + 1 < |s| then Some(s[k + 1]) else None
  }

  lemma IndexInDistinct<T>(s: seq<T>, i: nat)
    requires Distinct(s) && i < |s|
    ensures IndexOf(s, s[i]) == i
  {}

  lemma FirstOfTwo<T>(s: seq<T>, i: nat, j: nat)
    requires i < j < |s| && s[i] == s[j]
    ensures IndexOf(s, s[j]) <= i
  {}

  /** GetNext and GetPrevious undo each other when no value occurs twice. */
  lemma NextPreviousInverse<T>(s: seq<T>, v: T)
    requires Distinct(s) && v in s
    ensures Next(s, v) in s && Previous(s, v) in s
    ensures Previous(s, Next(s, v)) == v && Next(s, Previous(s, v)) == v
  {
    var k := IndexOf(s, v);
    IndexInDistinct(s, if k + 1 < |s| then k + 1 else 0);
    IndexInDistinct(s, if k == 0 then |s| - 1 else k - 1);
  }

  /** What a GetHead / GetNextNoLoop loop sees from `v` on, for at most `rounds` rounds. */
  function Traverse<T(==)>(s: seq<T>, v: T, rounds: nat): (seq<T>, bool)
    requires v in s
  {
    if rounds == 0 then ([], false)
    else
      match NextNoLoop(s, v)
      case None => ([v], true)
      case Some(w) =>
        var (rest, done) := Traverse(s, w, rounds - 1);
        ([v] + rest, done)
  }

  lemma {:induction false} TraverseSuffix<T>(s: seq<T>, i: nat)
    requires Distinct(s) && i < |s|
    ensures Traverse(s, s[i], |s| - i) == (s[i..], true)
    decreases |s| - i
  {
    hide Distinct, IndexOf;
    IndexInDistinct(s, i);
    if i + 1 < |s| {
      TraverseSuffix(s, i + 1);
      assert s[i..] == [s[i]] + s[i + 1..];
    } else {
      assert s[i..] == [s[i]];
    }
  }

  lemma {:induction false} TraverseStuck<T>(s: seq<T>, v: T, rounds: nat, i: nat, j: nat)
    requires i < j < |s| && s[i] == s[j] && v in s && IndexOf(s, v) < j
    ensures !Traverse(s, v, rounds).1
  {
    if rounds > 0 {
      var k := IndexOf(s, v);
      var k' := IndexOf(s, s[k + 1]);
      assert k' <= k + 1;
      FirstOfTwo(s, i, j);
      TraverseStuck(s, s[k + 1], rounds - 1, i, j);
    }
  }

  /** A traversal visits the whole list once, in order, if no value repeats; otherwise it never ends. */
  lemma TraversalEndsIffDistinct<T>(s: seq<T>)
    requires s != []
    ensures Distinct(s) ==> Traverse(s, s[0], |s|) == (s, true)
    ensures (exists rounds: nat :: Traverse(s, s[0], rounds).1) <==> Distinct(s)
  {
    if Distinct(s) {
      TraverseSuffix(s, 0);
      assert Traverse(s, s[0], |s|).1;
    } else {
      var i, j :| 0 <= i < j < |s| && s[i] == s[j];
      forall rounds: nat ensures !Traverse(s, s[0], rounds).1 {
        TraverseStuck(s, s[0], rounds, i, j);
      }
    }
  }

  // ----- the linked structure -----

  class ListEntry<T> {
    var value: T
    var prev: ListEntry<T>
    var next: ListEntry<T>

    constructor (value: T)
      ensures this.value == value && prev == this && next == this
    {
      this.value := value;
      prev := this;
      next := this;
    }
  }

  class List<T(==)> {
    var head: ListEntry?<T>
    ghost var spine: seq<ListEntry<T>>
    ghost var contents: seq<T>

    ghost predicate Valid()
      reads this, spine
    {
      && |contents| == |spine|
      && (head == null <==> spine == []) && (head != null ==> head == spine[0])
      && Distinct(spine)
      && (forall i {:trigger spine[i].value} :: 0 <= i < |spine| ==> spine[i].value == contents[i])
      && Linked(spine)
    }

    /** The entries of `s` form a ring, in order. */
    static ghost predicate Linked(s: seq<ListEntry<T>>)
      reads s
    {
      && (forall i {:trigger s[i].next} :: 0 <= i < |s| ==> s[i].next == s[Up(i, |s|)])
      && (forall i {:trigger s[i].prev} :: 0 <= i < |s| ==> s[i].prev == s[Down(i, |s|)])
    }

    static function Up(i: nat, n: nat): nat { if i + 1 < n then i + 1 else 0 }

    static function Down(i: nat, n: nat): nat requires n > 0 { if i == 0 then n - 1 else i - 1 }

    constructor ()
      ensures Valid() && contents == [] && spine == []
    {
      head := null;
      spine := [];
      contents := [];
    }

    /** Appends: the new entry goes just before the head. */
    method Add(value: T)
      requires Valid()
      modifies this, spine
      ensures Valid() && contents == old(contents) + [value]
      ensures |spine| == |old(spine)| + 1 && old(spine) == spine[..|old(spine)|] && fresh(spine[|old(spine)|])
    {
      var newEntry := new ListEntry(value);
      if head != null {
        LinkLast(spine, head, newEntry);
      } else {
        head := newEntry;
      }
      spine := spine + [newEntry];
      contents := contents + [value];
    }

    /** The four pointer writes that put an entry before the head of a ring, which is at its end. */
    method LinkLast(ghost s: seq<ListEntry<T>>, head: ListEntry<T>, newEntry: ListEntry<T>)
      requires s != [] && head == s[0] && newEntry !in s && Distinct(s) && Linked(s)
      modifies s, newEntry
      ensures Linked(s + [newEntry])
      ensures forall i :: 0 <= i < |s| ==> s[i].value == old(s[i].value)
      ensures newEntry.value == old(newEntry.value)
    {
      ghost var n := |s|;
      assert s[0].prev == s[Down(0, n)];
      newEntry.prev := head.prev;
      newEntry.next := head;
      head.prev.next := newEntry;
      head.prev := newEntry;
      ghost var w := s + [newEntry];
      forall i | 0 <= i < n + 1 ensures w[i].next == w[Up(i, n + 1)] {
        if i < n - 1 { assert s[i].next == s[Up(i, n)]; }
      }
      forall i | 0 <= i < n + 1 ensures w[i].prev == w[Down(i, n + 1)] {
        if 0 < i < n { assert s[i].prev == s[Down(i, n)]; }
      }
    }

    /** Walks from the head to the first entry with the value. */
    method GetEntry(value: T) returns (entry: ListEntry?<T>)
      requires Valid() && head != null
      ensures entry == if value in contents then spine[IndexOf(contents, value)] else null
    {
      entry := head;
      ghost var k := 0;
      while true
        invariant 0 <= k < |spine| && entry == spine[k]
        invariant value !in contents[..k]
        decreases |spine| - k
      {
        assert spine[k].value == contents[k];
        if entry.value == value {
          return;
        }
        assert spine[k].next == spine[Up(k, |spine|)];
        entry := entry.next;
        k := k + 1;
        if entry == head {
          entry := null;
          return;
        }
      }
    }

    /** Unlinks the first entry with the value; the other values keep their order. */
    method Remove(value: T)
      requires Valid() && value in contents
      modifies this, spine
      ensures Valid()
      ensures var k := IndexOf(old(contents), value);
        contents == Without(old(contents), k) && k < |old(spine)| && spine == Without(old(spine), k)
    {
      hide Distinct;
      var entry := GetEntry(value);
      ghost var k := IndexOf(contents, value);
      SelfLinked(spine, k);
      DistinctWithout(spine, k);
      if entry.next == entry {
        head := null;
        spine, contents := Without(spine, k), Without(contents, k);
        return;
      }
      if entry == head {
        head := entry.next;
      }
      Unlink(spine, entry, k);
      ValuesWithout(spine, contents, k);
      spine, contents := Without(spine, k), Without(contents, k);
    }

    /** An entry follows itself only when it is alone; otherwise the entry after the first is the second. */
    static lemma SelfLinked(s: seq<ListEntry<T>>, k: nat)
      requires Distinct(s) && Linked(s) && k < |s|
      ensures s[k].next == s[k] <==> |s| == 1
      ensures |s| > 1 ==> s[0].next == s[1]
    {
      assert s[k].next == s[Up(k, |s|)] && s[0].next == s[Up(0, |s|)];
    }

    static lemma DistinctWithout<E>(s: seq<E>, k: nat)
      requires Distinct(s) && k < |s|
      ensures Distinct(Without(s, k))
    {}

    static lemma ValuesWithout(s: seq<ListEntry<T>>, values: seq<T>, k: nat)
      requires |s| == |values| && k < |s| && forall i :: 0 <= i < |s| ==> s[i].value == values[i]
      ensures forall i :: 0 <= i < |s| - 1 ==> Without(s, k)[i].value == Without(values, k)[i]
    {}

    /** The two pointer writes that take an entry out of a ring of at least two. */
    method Unlink(ghost s: seq<ListEntry<T>>, entry: ListEntry<T>, ghost k: nat)
      requires |s| >= 2 && k < |s| && entry == s[k] && Distinct(s) && Linked(s)
      modifies s
      ensures Linked(Without(s, k))
      ensures forall i :: 0 <= i < |s| ==> s[i].value == old(s[i].value)
    {
      ghost var n, up, down := |s|, Up(k, |s|), Down(k, |s|);
      assert s[k].next == s[up] && s[k].prev == s[down];
      entry.prev.next := entry.next;
      entry.next.prev := entry.prev;
      NextWithout(s, k);
      PrevWithout(s, k);
    }

    static lemma NextWithout(s: seq<ListEntry<T>>, k: nat)
      requires |s| >= 2 && k < |s|
      requires forall i :: 0 <= i < |s| ==> s[i].next == if i == Down(k, |s|) then s[Up(k, |s|)] else s[Up(i, |s|)]
      ensures forall i {:trigger Without(s, k)[i].next} :: 0 <= i < |s| - 1 ==>
        Without(s, k)[i].next == Without(s, k)[Up(i, |s| - 1)]
    {
      forall i | 0 <= i < |s| - 1 ensures Without(s, k)[i].next == Without(s, k)[Up(i, |s| - 1)] {
        Neighbours(s, k, i);
      }
    }

    static lemma PrevWithout(s: seq<ListEntry<T>>, k: nat)
      requires |s| >= 2 && k < |s|
      requires forall i :: 0 <= i < |s| ==> s[i].prev == if i == Up(k, |s|) then s[Down(k, |s|)] else s[Down(i, |s|)]
      ensures forall i {:trigger Without(s, k)[i].prev} :: 0 <= i < |s| - 1 ==>
        Without(s, k)[i].prev == Without(s, k)[Down(i, |s| - 1)]
    {
      forall i | 0 <= i < |s| - 1 ensures Without(s, k)[i].prev == Without(s, k)[Down(i, |s| - 1)] {
        Neighbours(s, k, i);
      }
    }

    /** The neighbours of a position after position `k` has been taken out of a ring. */
    static lemma Neighbours<E>(was: seq<E>, k: nat, i: nat)
      requires |was| >= 2 && k < |was| && i < |was| - 1
      ensures var n, j := |was|, if i < k then i else i + 1;
        && Without(was, k)[i] == was[j]
        && Without(was, k)[Up(i, n - 1)] == (if j == Down(k, n) then was[Up(k, n)] else was[Up(j, n)])
        && Without(was, k)[Down(i, n - 1)] == (if j == Up(k, n) then was[Down(k, n)] else was[Down(j, n)])
    {}

    method GetHead() returns (r: Option<T>)
      requires Valid()
      ensures r == if contents == [] then None else Some(contents[0])
    {
      if head != null {
        assert spine[0].value == contents[0];
        return Some(head.value);
      }
      return None;
    }

    method GetNext(value: T) returns (r: T)
      requires Valid() && value in contents
      ensures r == Next(contents, value)
    {
      var entry := GetEntry(value);
      ghost var k := IndexOf(contents, value);
      assert spine[k].next == spine[Up(k, |spine|)];
      r := entry.next.value;
    }

    method GetPrevious(value: T) returns (r: T)
      requires Valid() && value in contents
      ensures r == Previous(contents, value)
    {
      var entry := GetEntry(value);
      ghost var k := IndexOf(contents, value);
      assert spine[k].prev == spine[Down(k, |spine|)];
      r := entry.prev.value;
    }

    method GetNextNoLoop(value: T) returns (r: Option<T>)
      requires Valid() && value in contents
      ensures r == NextNoLoop(contents, value)
    {
      var entry := GetEntry(value);
      ghost var k := IndexOf(contents, value);
      assert spine[k].next == spine[Up(k, |spine|)];
      entry := entry.next;
      if entry == head {
        return None;
      }
      return Some(entry.value);
    }

    method IsEmpty() returns (r: bool)
      requires Valid()
      ensures r <==> contents == []
    {
      r := head == null;
    }

    /** Removes the head until nothing is left; it ends because every round removes an entry. */
    method DestroyAll()
      requires Valid()
      modifies this, spine
      ensures Valid() && contents == []
    {
      while head != null
        invariant Valid()
        invariant forall i :: 0 <= i < |spine| ==> spine[i] in old(spine)
        decreases |spine|
      {
        var value := GetHead();
        Remove(value.value);
      }
    }
  }
}
