/**
 The critical sections of the thread pool on its linked list of tasks. Each is
 a step of the step system, whose queue is what the nodes of the list stand for.
 */
module ThreadPoolMonitor {
  import opened ThreadPool
  import L = LinkedQueue

  // ----- Which node stands for which entry -----

  ghost predicate Names(nodes: map<nat, L.Link>, head: L.Link, exit: L.Link) {
    && head != exit
    && (forall id :: id in nodes ==> nodes[id] != head && nodes[id] != exit)
    && (forall i, j :: i in nodes && j in nodes && nodes[i] == nodes[j] ==> i == j)
  }

  ghost predicate NodeIs(e: Entry, q: L.Link, nodes: map<nat, L.Link>, exit: L.Link) {
    match e
    case Exit => q == exit
    case Task(id) => id in nodes && nodes[id] == q
  }

  // Behind the head the list holds the nodes of the queue, in order.
  ghost predicate Holds(queue: seq<Entry>, nodes: map<nat, L.Link>, exit: L.Link, ring: seq<L.Link>) {
    |ring| == |queue| + 1 && forall i :: 0 <= i < |queue| ==> NodeIs(queue[i], ring[i + 1], nodes, exit)
  }

  lemma HoldsMore(queue: seq<Entry>, nodes: map<nat, L.Link>, exit: L.Link, ring: seq<L.Link>, e: Entry, q: L.Link)
    requires Holds(queue, nodes, exit, ring) && NodeIs(e, q, nodes, exit)
    ensures Holds(queue + [e], nodes, exit, ring + [q])
  {
  }

  // Without the k-th entry.
  lemma HoldsLess(queue: seq<Entry>, nodes: map<nat, L.Link>, exit: L.Link, ring: seq<L.Link>, k: nat)
    requires Holds(queue, nodes, exit, ring) && k < |queue|
    ensures Holds(queue[..k] + queue[k + 1..], nodes, exit, ring[..k + 1] + ring[k + 2..])
  {
    var r := ring[..k + 1] + ring[k + 2..];
    assert forall i :: 0 <= i < |r| ==> r[i] == ring[if i < k + 1 then i else i + 1];
  }

  lemma HoldsRenamed(queue: seq<Entry>, nodes: map<nat, L.Link>, exit: L.Link, ring: seq<L.Link>, id: nat, q: L.Link)
    requires Holds(queue, nodes, exit, ring) && id !in nodes
    ensures Holds(queue, nodes[id := q], exit, ring)
  {
    forall i | 0 <= i < |queue|
      ensures NodeIs(queue[i], ring[i + 1], nodes[id := q], exit)
    {
      assert NodeIs(queue[i], ring[i + 1], nodes, exit);
    }
  }

  // A node is in the list exactly when its entry is in the queue.
  lemma Listed(queue: seq<Entry>, nodes: map<nat, L.Link>, head: L.Link, exit: L.Link, ring: seq<L.Link>,
               e: Entry, q: L.Link)
    requires Names(nodes, head, exit) && Holds(queue, nodes, exit, ring) && ring[0] == head
    requires NodeIs(e, q, nodes, exit)
    ensures q in ring <==> e in queue
    ensures q != head
  {
    if q in ring {
      var i :| 0 <= i < |ring| && ring[i] == q;
      assert i > 0 && NodeIs(queue[i - 1], q, nodes, exit);
      assert queue[i - 1] == e;
    }
    if e in queue {
      var i :| 0 <= i < |queue| && queue[i] == e;
      assert NodeIs(queue[i], ring[i + 1], nodes, exit);
    }
  }

  lemma {:induction false} DropNone(queue: seq<Entry>, id: nat)
    requires Task(id) !in queue
    ensures Drop(queue, id) == queue
  {
    if queue != [] {
      DropNone(queue[1..], id);
      assert queue == [queue[0]] + queue[1..];
    }
  }

  // A task that is in the queue once is dropped there.
  lemma {:induction false} DropOne(queue: seq<Entry>, id: nat, k: nat)
    requires k < |queue| && queue[k] == Task(id)
    requires forall i :: 0 <= i < |queue| && i != k ==> queue[i] != Task(id)
    ensures Drop(queue, id) == queue[..k] + queue[k + 1..]
  {
    if k == 0 {
      DropNone(queue[1..], id);
      assert queue[..0] + queue[1..] == queue[1..];
    } else {
      DropOne(queue[1..], id, k - 1);
      assert queue[..k] + queue[k + 1..] == [queue[0]] + (queue[1..][..k - 1] + queue[1..][k..]);
    }
  }

  // A node that stands for nothing is not in the list.
  lemma NotListed(queue: seq<Entry>, nodes: map<nat, L.Link>, head: L.Link, exit: L.Link, ring: seq<L.Link>, q: L.Link)
    requires Holds(queue, nodes, exit, ring) && ring[0] == head
    requires q != head && q !in nodes.Values && (q == exit ==> Exit !in queue)
    ensures q !in ring
  {
    forall i | 0 <= i < |ring|
      ensures ring[i] != q
    {
      if i > 0 {
        assert NodeIs(queue[i - 1], ring[i], nodes, exit);
        assert queue[i - 1] in queue;
      }
    }
  }

  // ----- What each critical section makes of the state -----

  // The state after a signal to some waiting thread, if there is one.
  ghost function AfterSignal(s: Pool): (s': Pool)
    ensures Signal(s, s') && s' == s.(workers := s'.workers) && s'.workers.Keys == s.workers.Keys
  {
    if forall t :: t in s.workers ==> s.workers[t] != Waiting then s
    else
      var t :| t in s.workers && s.workers[t] == Waiting;
      ThreadPool.Move(s, t, Signalled)
  }

  // All but the links themselves.
  ghost predicate Fits(s: Pool, nodes: map<nat, L.Link>, head: L.Link, exit: L.Link, ring: seq<L.Link>) {
    && Inv(s, s.workers.Keys)
    && Names(nodes, head, exit) && (forall id :: id in nodes <==> id in s.submitted)
    && Holds(s.queue, nodes, exit, ring) && ring[0] == head
    && (s.released < 0 ==> Exit !in s.queue)
  }

  // A task that is neither queued nor taken back has a node that is linked to
  // itself, so that removing it again is harmless.
  ghost predicate Loose(s: Pool, nodes: map<nat, L.Link>, id: nat) {
    id in nodes && Task(id) !in s.queue && id !in s.cancelled
  }

  lemma LooseApart(s: Pool, nodes: map<nat, L.Link>, head: L.Link, exit: L.Link, ring: seq<L.Link>)
    requires Fits(s, nodes, head, exit, ring)
    ensures forall id :: id in nodes && Loose(s, nodes, id) ==> nodes[id] !in ring
  {
    hide Inv;
    forall id | Loose(s, nodes, id)
      ensures nodes[id] !in ring
    {
      Listed(s.queue, nodes, head, exit, ring, Task(id), nodes[id]);
    }
  }

  ghost function Posted(s: Pool, e: Entry): Pool {
    var s1 := s.(queue := s.queue + [e]);
    if s.idle > 0 then AfterSignal(s1) else s1
  }

  lemma SubmitFits(s: Pool, nodes: map<nat, L.Link>, head: L.Link, exit: L.Link, ring: seq<L.Link>, id: nat, q: L.Link)
    requires Fits(s, nodes, head, exit, ring) && id !in s.submitted && q !in nodes.Values && q != head && q != exit
    ensures q !in ring
    ensures var s', n := Posted(s.(submitted := s.submitted + [id]), Task(id)), nodes[id := q];
      && Next(s, Submit(id), s') && Fits(s', n, head, exit, ring + [q]) && s'.idle == s.idle
      && forall i :: Loose(s', n, i) ==> i in nodes && Loose(s, nodes, i) && n[i] == nodes[i]
  {
    hide Inv, Signal;
    var s' := Posted(s.(submitted := s.submitted + [id]), Task(id));
    NotListed(s.queue, nodes, head, exit, ring, q);
    HoldsRenamed(s.queue, nodes, exit, ring, id, q);
    HoldsMore(s.queue, nodes[id := q], exit, ring, Task(id), q);
    StepInv(s, Submit(id), s', s.workers.Keys);
    assert Task(id) in s'.queue by { assert s'.queue[|s.queue|] == Task(id); }
  }

  lemma ReleaseFits(s: Pool, nodes: map<nat, L.Link>, head: L.Link, exit: L.Link, ring: seq<L.Link>)
    requires Fits(s, nodes, head, exit, ring) && s.released < 0
    ensures exit !in ring
    ensures var s' := Posted(s.(released := |s.submitted|), Exit);
      && Next(s, Release, s') && Fits(s', nodes, head, exit, ring + [exit]) && s'.idle == s.idle
      && forall i :: Loose(s', nodes, i) ==> i in nodes && Loose(s, nodes, i)
  {
    hide Inv, Signal;
    var s' := Posted(s.(released := |s.submitted|), Exit);
    NotListed(s.queue, nodes, head, exit, ring, exit);
    HoldsMore(s.queue, nodes, exit, ring, Exit, exit);
    StepInv(s, Release, s', s.workers.Keys);
    assert forall e :: e in s.queue ==> e in s'.queue;
  }

  function WaitMore(s: Pool, t: nat): Pool
    requires t in s.workers
  {
    ThreadPool.Move(Wake(s, t), t, Waiting).(idle := Wake(s, t).idle + 1)
  }

  lemma WaitFits(s: Pool, nodes: map<nat, L.Link>, head: L.Link, exit: L.Link, ring: seq<L.Link>, t: nat)
    requires Fits(s, nodes, head, exit, ring) && CanLock(s, t) && s.queue == []
    ensures var s' := WaitMore(s, t);
      && Next(s, Lock(t), s') && Fits(s', nodes, head, exit, ring)
      && s'.idle == s.idle + (if s.workers[t].Ready? then 1 else 0)
      && forall i :: Loose(s', nodes, i) ==> i in nodes && Loose(s, nodes, i)
  {
    hide Inv;
    var s' := WaitMore(s, t);
    StepInv(s, Lock(t), s', s.workers.Keys);
    assert s'.workers.Keys == s.workers.Keys;
  }

  ghost function Gone(s: Pool, t: nat): Pool
    requires t in s.workers
  {
    AfterSignal(ThreadPool.Move(Wake(s, t), t, Exited))
  }

  lemma ExitFits(s: Pool, nodes: map<nat, L.Link>, head: L.Link, exit: L.Link, ring: seq<L.Link>, t: nat)
    requires Fits(s, nodes, head, exit, ring) && CanLock(s, t) && s.queue != [] && s.queue[0] == Exit
    ensures var s' := Gone(s, t);
      && Next(s, Lock(t), s') && Fits(s', nodes, head, exit, ring)
      && s'.idle == s.idle - (if s.workers[t].Ready? then 0 else 1)
      && forall i :: Loose(s', nodes, i) ==> i in nodes && Loose(s, nodes, i)
  {
    hide Inv, Signal;
    StepInv(s, Lock(t), Gone(s, t), s.workers.Keys);
    assert Gone(s, t).workers.Keys == s.workers.Keys;
  }

  function Taken(s: Pool, t: nat, id: nat): Pool
    requires t in s.workers && s.queue != []
  {
    ThreadPool.Move(Wake(s, t), t, Running(id)).(queue := s.queue[1..], started := s.started + [id])
  }

  lemma TakeFits(s: Pool, nodes: map<nat, L.Link>, head: L.Link, exit: L.Link, ring: seq<L.Link>, t: nat, id: nat)
    requires Fits(s, nodes, head, exit, ring) && CanLock(s, t) && s.queue != [] && s.queue[0] == Task(id)
    ensures |ring| > 1 && id in nodes
    ensures var s' := Taken(s, t, id);
      && Next(s, Lock(t), s') && Fits(s', nodes, head, exit, ring[..1] + ring[2..])
      && s'.idle == s.idle - (if s.workers[t].Ready? then 0 else 1)
      && forall i :: Loose(s', nodes, i) ==> i in nodes && (i == id || Loose(s, nodes, i))
  {
    hide Inv, Holds, Names;
    HoldsTail(s.queue, nodes, exit, ring, id);
    TakeStep(s, t, id);
    StepInv(s, Lock(t), Taken(s, t, id), s.workers.Keys);
  }

  lemma TakeStep(s: Pool, t: nat, id: nat)
    requires CanLock(s, t) && s.queue != [] && s.queue[0] == Task(id)
    ensures Next(s, Lock(t), Taken(s, t, id)) && Taken(s, t, id).workers.Keys == s.workers.Keys
  {
    assert Taken(s, t, id).workers.Keys == s.workers.Keys;
  }

  lemma HoldsTail(queue: seq<Entry>, nodes: map<nat, L.Link>, exit: L.Link, ring: seq<L.Link>, id: nat)
    requires Holds(queue, nodes, exit, ring) && queue != [] && queue[0] == Task(id)
    ensures |ring| > 1 && id in nodes && ring[1] == nodes[id] && ring[0] == (ring[..1] + ring[2..])[0]
    ensures Holds(queue[1..], nodes, exit, ring[..1] + ring[2..])
    ensures forall e :: e in queue <==> e == Task(id) || e in queue[1..]
  {
    assert NodeIs(queue[0], ring[1], nodes, exit);
    HoldsLess(queue, nodes, exit, ring, 0);
    HeadOrTail(queue);
  }

  lemma HeadOrTail(queue: seq<Entry>)
    requires queue != []
    ensures queue[..0] + queue[1..] == queue[1..]
    ensures forall e :: e in queue <==> e == queue[0] || e in queue[1..]
  {
    assert queue == [queue[0]] + queue[1..];
  }

  function Finished(s: Pool, t: nat): Pool
    requires t in s.workers && s.workers[t].Running?
  {
    ThreadPool.Move(s, t, Ready).(finished := s.finished + {s.workers[t].id})
  }

  lemma FinishFits(s: Pool, nodes: map<nat, L.Link>, head: L.Link, exit: L.Link, ring: seq<L.Link>, t: nat)
    requires Fits(s, nodes, head, exit, ring) && t in s.workers && s.workers[t].Running?
    ensures var s' := Finished(s, t);
      && Next(s, Finish(t), s') && Fits(s', nodes, head, exit, ring) && s'.idle == s.idle
      && forall i :: Loose(s', nodes, i) ==> i in nodes && Loose(s, nodes, i)
  {
    hide Inv;
    StepInv(s, Finish(t), Finished(s, t), s.workers.Keys);
    assert Finished(s, t).workers.Keys == s.workers.Keys;
  }

  // Nothing is taken back of a task that is done, or from an empty queue.
  lemma RefuseFits(s: Pool, nodes: map<nat, L.Link>, head: L.Link, exit: L.Link, ring: seq<L.Link>, id: nat)
    requires Fits(s, nodes, head, exit, ring) && id in nodes && id !in s.cancelled
    requires s.queue == [] || id in s.finished
    ensures Next(s, Cancel(id, false), s)
  {
    if id in s.finished {
      StartedOnce(s, id);
    }
  }

  lemma CancelFits(s: Pool, nodes: map<nat, L.Link>, head: L.Link, exit: L.Link, ring: seq<L.Link>, id: nat)
    returns (k: nat)
    requires Fits(s, nodes, head, exit, ring) && id in nodes && id !in s.cancelled && id !in s.finished
    requires Task(id) in s.queue && L.Distinct(ring)
    ensures k < |s.queue| && k + 1 < |ring| && ring[k + 1] == nodes[id]
    ensures var s' := s.(queue := Drop(s.queue, id), cancelled := s.cancelled + {id});
      && Next(s, Cancel(id, true), s') && Fits(s', nodes, head, exit, ring[..k + 1] + ring[k + 2..])
      && forall i :: Loose(s', nodes, i) ==> i in nodes && Loose(s, nodes, i)
  {
    hide Inv;
    k :| 0 <= k < |s.queue| && s.queue[k] == Task(id);
    forall i | 0 <= i < |s.queue|
      ensures NodeIs(s.queue[i], ring[i + 1], nodes, exit) && (i != k ==> s.queue[i] != Task(id))
    {
      assert NodeIs(s.queue[i], ring[i + 1], nodes, exit) && NodeIs(s.queue[k], ring[k + 1], nodes, exit);
    }
    DropOne(s.queue, id, k);
    HoldsLess(s.queue, nodes, exit, ring, k);
    var s' := s.(queue := Drop(s.queue, id), cancelled := s.cancelled + {id});
    StepInv(s, Cancel(id, true), s', s.workers.Keys);
  }

  // ----- The pool -----

  class Monitor {
    const head: L.Link
    const exit: L.Link
    var idle: int
    ghost var s: Pool
    ghost var nodes: map<nat, L.Link>
    ghost var ring: seq<L.Link>

    ghost predicate Valid()
      reads this, ring, nodes.Values
    {
      && Fits(s, nodes, head, exit, ring) && idle == s.idle && L.Ring(ring)
      && forall id :: id in nodes && Loose(s, nodes, id) ==> L.Ring([nodes[id]])
    }

    constructor (ghost threads: set<nat>)
      ensures Valid() && s == Create(threads)
    {
      head := new L.Link();
      exit := new L.Link();
      idle, s, nodes := 0, Create(threads), map[];
      new;
      ring := [head];
      InitInv(threads);
    }

    // What post does to the list.
    method Insert(q: L.Link)
      requires L.Ring(ring) && ring[0] == head && q !in ring
      modifies this`ring, ring, q
      ensures ring == old(ring) + [q] && L.Ring(ring)
    {
      L.InsertTail(head, q, ring);
      ring := ring + [q];
    }

    // threadpool_submit, on a node of a task that was not submitted before.
    method Submitting(q: L.Link, ghost id: nat)
      requires Valid() && id !in s.submitted && q !in nodes.Values && q != head && q != exit
      modifies this, ring, q
      ensures Valid() && Next(old(s), Submit(id), s) && nodes == old(nodes)[id := q]
    {
      hide Fits, Loose, Next, Posted, L.Ring;
      LooseApart(s, nodes, head, exit, ring);
      SubmitFits(s, nodes, head, exit, ring, id, q);
      FirstIs(s, nodes, head, exit, ring);
      Insert(q);
      s := Posted(s.(submitted := s.submitted + [id]), Task(id));
      nodes := nodes[id := q];
    }

    // threadpool_release up to the joins.
    method Releasing()
      requires Valid() && s.released < 0
      modifies this, ring, exit
      ensures Valid() && Next(old(s), Release, s) && nodes == old(nodes)
    {
      hide Fits, Loose, Next, Posted, L.Ring;
      LooseApart(s, nodes, head, exit, ring);
      ReleaseFits(s, nodes, head, exit, ring);
      FirstIs(s, nodes, head, exit, ring);
      Insert(exit);
      s := Posted(s.(released := |s.submitted|), Exit);
    }

    // A worker with the mutex, from the top of its loop or back from a wait:
    // null when it waits, else the node it goes on with.
    method Locking(ghost t: nat, back: bool) returns (q: L.Link?)
      requires Valid() && CanLock(s, t) && (back <==> !s.workers[t].Ready?)
      modifies this, ring
      ensures Valid() && Next(old(s), Lock(t), s) && nodes == old(nodes)
      ensures q == null <==> old(s).queue == []
      ensures q != null ==> NodeIs(old(s).queue[0], q, nodes, exit)
    {
      hide Fits, Loose, Next, WaitMore, Gone, L.Ring, CanLock;
      LooseApart(s, nodes, head, exit, ring);
      FirstIs(s, nodes, head, exit, ring);
      CanLockIs(s, t);
      if back {
        idle := idle - 1;
      }
      var empty := L.Empty(head, ring);
      if empty {
        WaitFits(s, nodes, head, exit, ring, t);
        idle := idle + 1;
        s := WaitMore(s, t);
        return null;
      }
      L.Neighbours(ring, 0);
      q := head.next;
      if q == exit {
        ExitFits(s, nodes, head, exit, ring, t);
        s := Gone(s, t);
      } else {
        Dequeue(q, t);
      }
    }

    // Takes the task at the head off the list.
    method Dequeue(q: L.Link, ghost t: nat)
      requires Fits(s, nodes, head, exit, ring) && CanLock(s, t) && s.queue != [] && q == ring[1] != exit
      requires idle == s.idle - (if s.workers[t].Ready? then 0 else 1)
      requires L.Ring(ring) && forall id :: id in nodes && Loose(s, nodes, id) ==> L.Ring([nodes[id]])
      modifies this`ring, this`s, ring
      ensures Valid() && Next(old(s), Lock(t), s)
    {
      hide Fits, Loose, Next, Taken, L.Ring, CanLock;
      LooseApart(s, nodes, head, exit, ring);
      FirstIs(s, nodes, head, exit, ring);
      CanLockIs(s, t);
      ghost var id := s.queue[0].id;
      TakeFits(s, nodes, head, exit, ring, t, id);
      NotTwice(ring, 1);
      L.Remove(q, ring, 1);
      L.Init(q);
      ring := ring[..1] + ring[2..];
      s := Taken(s, t, id);
    }

    // The end of a task, outside of the mutex.
    ghost method Finishing(t: nat)
      requires Valid() && t in s.workers && s.workers[t].Running?
      modifies this`s
      ensures Valid() && Next(old(s), Finish(t), s)
    {
      hide Fits, Loose, Next, Finished, L.Ring;
      FinishFits(s, nodes, head, exit, ring, t);
      s := Finished(s, t);
    }

    // threadpool_cancel, on a task that was submitted and not taken back; its
    // work is there until it has been done.
    method Cancelling(q: L.Link, ghost id: nat, working: bool) returns (cancelled: bool)
      requires Valid() && id in nodes && q == nodes[id] && id !in s.cancelled && (working <==> id !in s.finished)
      modifies this, ring, q
      ensures Valid() && Next(old(s), Cancel(id, cancelled), s) && nodes == old(nodes)
    {
      hide Fits, Loose, Next, L.Ring, L.Distinct, Drop;
      LooseApart(s, nodes, head, exit, ring);
      FirstIs(s, nodes, head, exit, ring);
      var empty := L.Empty(head, ring);
      cancelled := !empty && working;
      if !cancelled {
        RefuseFits(s, nodes, head, exit, ring, id);
        return;
      }
      ghost var queued := Task(id) in s.queue;
      ghost var r, k := [q], 0;
      NotTwice(ring, 0);
      if queued {
        k := CancelFits(s, nodes, head, exit, ring, id);
        r, k := ring, k + 1;
        NotTwice(ring, k);
      } else {
        LooseIs(s, nodes, id);
      }
      L.Remove(q, r, k);
      if queued {
        ring := ring[..k] + ring[k + 1..];
        s := s.(queue := Drop(s.queue, id), cancelled := s.cancelled + {id});
      }
    }
  }

  lemma LooseIs(s: Pool, nodes: map<nat, L.Link>, id: nat)
    requires id in nodes && Task(id) !in s.queue && id !in s.cancelled && s.queue != [] && id !in s.finished
    ensures Loose(s, nodes, id) && (id in s.submitted ==> Next(s, Cancel(id, true), s))
  {
  }

  lemma NotTwice(ring: seq<L.Link>, k: nat)
    requires L.Ring(ring) && k < |ring|
    ensures L.Distinct(ring) && ring[k] !in ring[..k] + ring[k + 1..]
    ensures forall x :: x in ring[..k] + ring[k + 1..] ==> x in ring
  {
  }

  lemma CanLockIs(s: Pool, t: nat)
    requires CanLock(s, t)
    ensures t in s.workers
  {
  }

  lemma FirstIs(s: Pool, nodes: map<nat, L.Link>, head: L.Link, exit: L.Link, ring: seq<L.Link>)
    requires Fits(s, nodes, head, exit, ring)
    ensures |ring| == |s.queue| + 1 && ring[0] == head && forall id :: id in nodes ==> nodes[id] != exit
    ensures s.queue != [] ==> NodeIs(s.queue[0], ring[1], nodes, exit)
    ensures forall id :: id in nodes ==> id in s.submitted
  {
  }
}
