/** The singly linked FIFO of queue.h. */
module Queue {
  import opened Prelude

  class QueueEntry<T> {
    var value: T
    var next: QueueEntry?<T>

    constructor (value: T)
      ensures this.value == value && next == null
    {
      this.value := value;
      next := null;
    }
  }

  class Queue<T> {
    var head: QueueEntry?<T>
    ghost var spine: seq<QueueEntry<T>>
    ghost var contents: seq<T>

    ghost predicate Valid()
      reads this, spine
    {
      && |contents| == |spine|
      && head == (if spine == [] then null else spine[0])
      && Distinct(spine)
      && (forall i {:trigger spine[i].value} :: 0 <= i < |spine| ==> spine[i].value == contents[i])
      && (forall i {:trigger spine[i].next} :: 0 <= i < |spine| ==>
            spine[i].next == if i + 1 < |spine| then spine[i + 1] else null)
    }

    constructor ()
      ensures Valid() && contents == [] && spine == []
    {
      head := null;
      spine := [];
      contents := [];
    }

    method Add(value: T)
      requires Valid()
      modifies this, spine
      ensures Valid() && contents == old(contents) + [value]
      ensures |spine| == |old(spine)| + 1 && spine[..|old(spine)|] == old(spine) && fresh(spine[|old(spine)|])
    {
      var newEntry := new QueueEntry(value);
      if head != null {
        var last := GetLastEntry();
        last.next := newEntry;
      } else {
        head := newEntry;
      }
      spine := spine + [newEntry];
      contents := contents + [value];
    }

    method GetLastEntry() returns (last: QueueEntry<T>)
      requires Valid() && head != null
      ensures last == spine[|spine| - 1]
    {
      last := head;
      ghost var i := 0;
      while last.next != null
        invariant 0 <= i < |spine| && last == spine[i]
        decreases |spine| - i
      {
        last := last.next;
        i := i + 1;
      }
    }

    method Remove() returns (r: Option<T>)
      requires Valid()
      modifies this
      ensures Valid()
      ensures r == if old(contents) == [] then None else Some(old(contents)[0])
      ensures contents == if old(contents) == [] then [] else old(contents)[1..]
      ensures spine == if old(spine) == [] then [] else old(spine)[1..]
    {
      if head == null {
        return None;
      }
      assert spine[0].value == contents[0] && spine[0].next == if 1 < |spine| then spine[1] else null;
      r := Some(head.value);
      head := head.next;
      spine, contents := spine[1..], contents[1..];
      assert forall i {:trigger spine[i]} :: 0 <= i < |spine| ==> spine[i] == old(spine)[i + 1];
    }

    method Peek() returns (r: Option<T>)
      requires Valid()
      ensures r == if contents == [] then None else Some(contents[0])
    {
      if head == null {
        return None;
      }
      assert spine[0].value == contents[0];
      r := Some(head.value);
    }

    method IsEmpty() returns (r: bool)
      requires Valid()
      ensures r <==> contents == []
    {
      r := head == null;
    }
  }
}
