/** Wait queues threaded through the waiters: when the pointer fields agree with the queue contents. */
module WaitQueues {
  import opened Prelude
  import opened SchedProtocol

  /** The fields: each queue's head, each process's blocked_next and its is_blocked flag. */
  datatype Fields<!P, !Q> = Fields(heads: map<Q, Option<P>>, links: map<P, Option<P>>, flags: map<P, bool>)

  function At<P>(s: seq<P>, i: nat): Option<P> { if i < |s| then Some(s[i]) else None }

  /** Following the links from `head` visits exactly `s` and ends. */
  ghost predicate Threaded<P>(links: map<P, Option<P>>, head: Option<P>, s: seq<P>) {
    && head == At(s, 0)
    && (forall p :: p in s ==> p in links)
    && (forall i {:trigger links[s[i]]} :: 0 <= i < |s| ==> links[s[i]] == At(s, i + 1))
  }

  ghost predicate AllThreaded<P, Q>(f: Fields<P, Q>, queues: map<Q, seq<P>>) {
    f.heads.Keys == queues.Keys && forall q :: q in queues ==> Threaded(f.links, f.heads[q], queues[q])
  }

  /** A process is flagged exactly when it is on a queue, and links to a successor only then. */
  ghost predicate Marked<P, Q>(f: Fields<P, Q>, on: map<P, Q>) {
    && f.links.Keys == f.flags.Keys && (forall p :: p in on ==> p in f.links)
    && (forall p :: p in f.flags ==> (f.flags[p] <==> p in on))
    && (forall p :: p in f.links && p !in on ==> f.links[p] == None)
  }

  /** The chains are acyclic, disjoint and end in a null pointer, and the flags agree with them. */
  ghost predicate Consistent<P, Q>(f: Fields<P, Q>, queues: map<Q, seq<P>>, on: map<P, Q>) {
    Queued(queues, on) && AllThreaded(f, queues) && Marked(f, on)
  }

  lemma ThreadedElsewhere<P>(links: map<P, Option<P>>, links': map<P, Option<P>>, head: Option<P>, s: seq<P>)
    requires Threaded(links, head, s)
    requires forall p :: p in s && p in links ==> p in links' && links'[p] == links[p]
    ensures Threaded(links', head, s)
  {}

  lemma RestThreaded<P>(links: map<P, Option<P>>, head: Option<P>, s: seq<P>)
    requires s != [] && Threaded(links, head, s) && Distinct(s)
    ensures head == Some(s[0]) && s[0] in links && Threaded(links[s[0] := None], links[s[0]], s[1..])
  {
    var rest := s[1..];
    forall i | 0 <= i < |rest| ensures links[rest[i]] == At(rest, i + 1) {
      assert links[s[i + 1]] == At(s, i + 2);
    }
  }

  lemma MoreThreaded<P>(links: map<P, Option<P>>, head: Option<P>, s: seq<P>, p: P)
    requires Threaded(links, head, s) && Distinct(s) && p !in s && p in links && links[p] == None
    ensures s == [] ==> Threaded(links, Some(p), [p])
    ensures s != [] ==> Threaded(links[s[|s| - 1] := Some(p)], head, s + [p])
  {
    if s != [] {
      var links', t := links[s[|s| - 1] := Some(p)], s + [p];
      forall i | 0 <= i < |t| ensures links'[t[i]] == At(t, i + 1) {
        if i < |s| {
          assert links[s[i]] == At(s, i + 1);
        }
      }
    }
  }

  lemma OnOneQueue<P, Q>(queues: map<Q, seq<P>>, on: map<P, Q>, q: Q, r: Q, p: P)
    requires Queued(queues, on) && q in queues && r in queues && q != r && p in queues[q]
    ensures p in on && p !in queues[r]
  {
    assert on[p] == q;
  }

  lemma HeadIs<P, Q>(f: Fields<P, Q>, queues: map<Q, seq<P>>, on: map<P, Q>, q: Q)
    requires Consistent(f, queues, on) && q in queues
    ensures q in f.heads && f.heads[q] == At(queues[q], 0)
  {
    assert Threaded(f.links, f.heads[q], queues[q]);
  }

  /** The three writes of ProcUnblockHead. */
  function UnlinkHead<P, Q>(f: Fields<P, Q>, q: Q, p: P): Fields<P, Q>
    requires p in f.links
  {
    Fields(f.heads[q := f.links[p]], f.links[p := None], f.flags[p := false])
  }

  lemma UnlinkHeadThreads<P, Q>(f: Fields<P, Q>, queues: map<Q, seq<P>>, on: map<P, Q>, q: Q)
    requires Queued(queues, on) && AllThreaded(f, queues) && q in queues && queues[q] != []
    ensures queues[q][0] in f.links && f.heads[q] == Some(queues[q][0])
    ensures AllThreaded(UnlinkHead(f, q, queues[q][0]), queues[q := queues[q][1..]])
  {
    hide Threaded;
    var p := queues[q][0];
    assert Threaded(f.links, f.heads[q], queues[q]);
    RestThreaded(f.links, f.heads[q], queues[q]);
    var f' := UnlinkHead(f, q, p);
    forall r | r in queues && r != q ensures Threaded(f'.links, f'.heads[r], queues[r]) {
      OnOneQueue(queues, on, q, r, p);
      ThreadedElsewhere(f.links, f'.links, f.heads[r], queues[r]);
    }
  }

  lemma UnlinkHeadKeeps<P, Q>(f: Fields<P, Q>, queues: map<Q, seq<P>>, on: map<P, Q>, q: Q)
    requires Consistent(f, queues, on) && q in queues && queues[q] != []
    ensures queues[q][0] in f.links && f.heads[q] == Some(queues[q][0])
    ensures Consistent(UnlinkHead(f, q, queues[q][0]), queues[q := queues[q][1..]], on - {queues[q][0]})
  {
    hide Queued, AllThreaded;
    WakeQueued(queues, on, q);
    UnlinkHeadThreads(f, queues, on, q);
  }

  /** The writes of ProcBlockOn: behind the last waiter, or at the head of an empty queue. */
  function LinkLast<P, Q>(f: Fields<P, Q>, q: Q, s: seq<P>, p: P): Fields<P, Q> {
    if s == [] then Fields(f.heads[q := Some(p)], f.links, f.flags[p := true])
    else Fields(f.heads, f.links[s[|s| - 1] := Some(p)], f.flags[p := true])
  }

  lemma LinkLastThreads<P, Q>(f: Fields<P, Q>, queues: map<Q, seq<P>>, on: map<P, Q>, q: Q, p: P)
    requires Queued(queues, on) && AllThreaded(f, queues)
    requires q in queues && p in f.links && p !in on && f.links[p] == None
    ensures AllThreaded(LinkLast(f, q, queues[q], p), queues[q := queues[q] + [p]])
  {
    hide Threaded;
    var s := queues[q];
    var f' := LinkLast(f, q, s, p);
    MoreThreaded(f.links, f.heads[q], s, p);
    assert s + [p] == if s == [] then [p] else s + [p];
    forall r | r in queues && r != q ensures Threaded(f'.links, f'.heads[r], queues[r]) {
      if s != [] {
        OnOneQueue(queues, on, q, r, s[|s| - 1]);
      }
      ThreadedElsewhere(f.links, f'.links, f.heads[r], queues[r]);
    }
  }

  lemma LinkLastKeeps<P, Q>(f: Fields<P, Q>, queues: map<Q, seq<P>>, on: map<P, Q>, q: Q, p: P)
    requires Consistent(f, queues, on) && q in queues && p in f.links && p !in on
    ensures Consistent(LinkLast(f, q, queues[q], p), queues[q := queues[q] + [p]], on[p := q])
  {
    hide AllThreaded;
    EnqueueQueued(queues, on, q, p);
    LinkLastThreads(f, queues, on, q, p);
    if queues[q] != [] {
      LastIsOn(queues, on, q);
    }
  }

  lemma LastIsOn<P, Q>(queues: map<Q, seq<P>>, on: map<P, Q>, q: Q)
    requires Queued(queues, on) && q in queues && queues[q] != []
    ensures queues[q][|queues[q]| - 1] in on
  {}

  lemma InitQueueKeeps<P, Q>(f: Fields<P, Q>, queues: map<Q, seq<P>>, on: map<P, Q>, q: Q)
    requires Consistent(f, queues, on) && q !in queues
    ensures Consistent(f.(heads := f.heads[q := None]), queues[q := []], on)
  {
    hide Threaded, Queued;
    NoneThreaded(f.links);
    InitQueueQueued(queues, on, q);
  }

  lemma NoneThreaded<P>(links: map<P, Option<P>>)
    ensures Threaded(links, None, [])
  {}

  lemma InitQueueQueued<P, Q>(queues: map<Q, seq<P>>, on: map<P, Q>, q: Q)
    requires Queued(queues, on) && q !in queues
    ensures Queued(queues[q := []], on)
  {}

  lemma AddKeeps<P, Q>(f: Fields<P, Q>, queues: map<Q, seq<P>>, on: map<P, Q>, p: P)
    requires Consistent(f, queues, on) && p !in f.links
    ensures Consistent(Fields(f.heads, f.links[p := None], f.flags[p := false]), queues, on)
  {
    hide Queued;
    forall q | q in queues ensures Threaded(f.links[p := None], f.heads[q], queues[q]) {
      ThreadedElsewhere(f.links, f.links[p := None], f.heads[q], queues[q]);
    }
  }

  lemma DropKeeps<P, Q>(f: Fields<P, Q>, queues: map<Q, seq<P>>, on: map<P, Q>, p: P)
    requires Consistent(f, queues, on) && p !in on
    ensures Consistent(Fields(f.heads, f.links - {p}, f.flags - {p}), queues, on)
  {
    forall q | q in queues ensures Threaded(f.links - {p}, f.heads[q], queues[q]) {
      ThreadedElsewhere(f.links, f.links - {p}, f.heads[q], queues[q]);
    }
  }
}
