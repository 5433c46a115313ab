/**
 The thread pool as a step system. A step is what one thread does while it
 holds the mutex (or, for the end of a task, between two critical sections), so
 runs are all interleavings of steps, spurious wakeups included.
 */
module ThreadPool {
  import opened Counting

  datatype Entry = Task(id: nat) | Exit

  // About to lock the mutex; in cond_wait; in cond_wait but already signalled;
  // running a task; gone.
  datatype Place = Ready | Waiting | Signalled | Running(id: nat) | Exited

  // The last five fields are the history: tasks in the order of submission and
  // of starting, how many were submitted before the release (or -1), and which
  // were cancelled or finished.
  datatype Pool = Pool(
    queue: seq<Entry>,
    idle: int,
    workers: map<nat, Place>,
    submitted: seq<nat>,
    released: int,
    cancelled: set<nat>,
    started: seq<nat>,
    finished: set<nat>)

  function Create(threads: set<nat>): Pool {
    Pool([], 0, map t | t in threads :: Ready, [], -1, {}, [], {})
  }

  function Move(s: Pool, t: nat, p: Place): Pool {
    s.(workers := s.workers[t := p])
  }

  // pthread_cond_signal: one waiting thread, if there is one.
  ghost predicate Signal(s: Pool, s': Pool) {
    if forall t :: t in s.workers ==> s.workers[t] != Waiting then s' == s
    else exists t :: t in s.workers && s.workers[t] == Waiting && s' == Move(s, t, Signalled)
  }

  // post: signals only when some thread counts as idle.
  ghost predicate Post(s: Pool, e: Entry, s': Pool) {
    var s1 := s.(queue := s.queue + [e]);
    if s.idle > 0 then Signal(s1, s') else s' == s1
  }

  // The body of the worker's loop once the mutex is held and the queue is not
  // empty: a task is taken off the queue; the exit message stays there, and the
  // next thread is signalled.
  ghost predicate Take(s: Pool, t: nat, s': Pool)
    requires s.queue != []
  {
    match s.queue[0]
    case Exit => Signal(Move(s, t, Exited), s')
    case Task(id) => s' == Move(s, t, Running(id)).(queue := s.queue[1..], started := s.started + [id])
  }

  datatype Step =
    | Submit(id: nat)
    | Release
    | Lock(t: nat)        // from the top of the loop, or back from cond_wait
    | Finish(t: nat)
    | Cancel(id: nat, result: bool)

  predicate WorkerStep(step: Step) {
    step.Lock? || step.Finish?
  }

  // The queue without a task.
  function Drop(queue: seq<Entry>, id: nat): seq<Entry> {
    if queue == [] then []
    else (if queue[0] == Task(id) then [] else [queue[0]]) + Drop(queue[1..], id)
  }

  // Back from cond_wait a thread counts as idle no more.
  function Wake(s: Pool, t: nat): Pool
    requires t in s.workers
  {
    if s.workers[t].Ready? then s else s.(idle := s.idle - 1)
  }

  ghost predicate CanLock(s: Pool, t: nat) {
    t in s.workers && (s.workers[t].Ready? || s.workers[t].Waiting? || s.workers[t].Signalled?)
  }

  ghost predicate Next(s: Pool, step: Step, s': Pool) {
    match step
    case Submit(id) =>
      id !in s.submitted && Post(s.(submitted := s.submitted + [id]), Task(id), s')
    case Release =>
      s.released < 0 && Post(s.(released := |s.submitted|), Exit, s')
    case Lock(t) =>
      && CanLock(s, t)
      && (if s.queue == [] then s' == Move(Wake(s, t), t, Waiting).(idle := Wake(s, t).idle + 1)
          else Take(Wake(s, t), t, s'))
    case Finish(t) =>
      && t in s.workers && s.workers[t].Running?
      && s' == Move(s, t, Ready).(finished := s.finished + {s.workers[t].id})
    case Cancel(id, result) =>
      // The task was submitted and not taken back before; its work pointer is
      // reset when it has finished. Removing a node that is linked to itself
      // changes nothing.
      && id in s.submitted && id !in s.cancelled
      && result == (s.queue != [] && id !in s.finished)
      && s' == if Task(id) in s.queue then s.(queue := Drop(s.queue, id), cancelled := s.cancelled + {id}) else s
  }

  // ----- Threads and wakeups -----

  ghost predicate Threads(s: Pool, threads: set<nat>) {
    s.workers.Keys == threads && s.idle == Count(s.workers, Waiting) + Count(s.workers, Signalled)
  }

  // A thread that still waits unsignalled has nothing to wait for: every entry
  // in the queue has a signalled thread on its way.
  ghost predicate Wakeups(s: Pool) {
    Count(s.workers, Waiting) > 0 ==> |s.queue| <= Count(s.workers, Signalled)
  }

  // A signal turns a waiting thread, if any, into a signalled one; nothing
  // else changes.
  lemma SignalCounts(s: Pool, s': Pool)
    requires Signal(s, s')
    ensures s' == s.(workers := s'.workers) && s'.workers.Keys == s.workers.Keys
    ensures var k := if Count(s.workers, Waiting) > 0 then 1 else 0;
      Count(s'.workers, Waiting) == Count(s.workers, Waiting) - k &&
      Count(s'.workers, Signalled) == Count(s.workers, Signalled) + k
    ensures forall t :: t in s.workers && s.workers[t] != Waiting ==> s'.workers[t] == s.workers[t]
    ensures forall t :: t in s.workers && s.workers[t] == Waiting ==>
      s'.workers[t] == Waiting || s'.workers[t] == Signalled
  {
    hide Count;
    CountZero(s.workers, Waiting);
    if t :| t in s.workers && s.workers[t] == Waiting && s' == Move(s, t, Signalled) {
      MoveCounts(s.workers, t, Signalled, Waiting);
      MoveCounts(s.workers, t, Signalled, Signalled);
    }
  }

  lemma PostThreads(s: Pool, e: Entry, s': Pool, threads: set<nat>)
    requires Post(s, e, s') && Threads(s, threads) && Wakeups(s)
    ensures Threads(s', threads) && Wakeups(s')
  {
    hide Count;
    hide Signal;
    if s.idle > 0 {
      SignalCounts(s.(queue := s.queue + [e]), s');
    }
  }

  lemma TakeThreads(s: Pool, t: nat, s': Pool, threads: set<nat>)
    requires Threads(s, threads) && Wakeups(s) && CanLock(s, t) && s.queue != []
    requires Take(Wake(s, t), t, s')
    ensures Threads(s', threads) && Wakeups(s')
  {
    hide Count;
    hide Signal;
    var p := if s.queue[0].Exit? then Exited else Running(s.queue[0].id);
    MoveCounts(s.workers, t, p, Waiting);
    MoveCounts(s.workers, t, p, Signalled);
    if s.queue[0].Exit? {
      SignalCounts(Move(Wake(s, t), t, Exited), s');
    }
  }

  lemma {:induction false} DropShrinks(queue: seq<Entry>, id: nat)
    ensures |Drop(queue, id)| <= |queue|
  {
    if queue != [] {
      DropShrinks(queue[1..], id);
    }
  }

  lemma StepThreads(s: Pool, step: Step, s': Pool, threads: set<nat>)
    requires Threads(s, threads) && Wakeups(s) && Next(s, step, s')
    ensures Threads(s', threads) && Wakeups(s')
  {
    hide Count;
    hide Post;
    hide Take;
    match step {
      case Submit(id) =>
        PostThreads(s.(submitted := s.submitted + [id]), Task(id), s', threads);
      case Release =>
        PostThreads(s.(released := |s.submitted|), Exit, s', threads);
      case Lock(t) =>
        MoveCounts(s.workers, t, Waiting, Waiting);
        MoveCounts(s.workers, t, Waiting, Signalled);
        if s.queue != [] {
          TakeThreads(s, t, s', threads);
        }
      case Finish(t) =>
        MoveCounts(s.workers, t, Ready, Waiting);
        MoveCounts(s.workers, t, Ready, Signalled);
      case Cancel(id, _) =>
        DropShrinks(s.queue, id);
    }
  }

  // ----- Order: every task is taken in turn, at most once -----

  // The tasks in front of the exit message, and those behind it.
  function BeforeExit(queue: seq<Entry>): seq<nat> {
    if queue == [] || queue[0].Exit? then [] else [queue[0].id] + BeforeExit(queue[1..])
  }

  function AfterExit(queue: seq<Entry>): seq<nat> {
    if queue == [] then []
    else if queue[0].Exit? then BeforeExit(queue[1..])
    else AfterExit(queue[1..])
  }

  function Exits(queue: seq<Entry>): nat {
    if queue == [] then 0 else (if queue[0].Exit? then 1 else 0) + Exits(queue[1..])
  }

  // The tasks that were not taken back.
  function Kept(tasks: seq<nat>, cancelled: set<nat>): seq<nat> {
    if tasks == [] then []
    else (if tasks[0] in cancelled then [] else [tasks[0]]) + Kept(tasks[1..], cancelled)
  }

  function BeforeRelease(s: Pool): seq<nat> {
    if 0 <= s.released <= |s.submitted| then s.submitted[..s.released] else s.submitted
  }

  function AfterRelease(s: Pool): seq<nat> {
    if 0 <= s.released <= |s.submitted| then s.submitted[s.released..] else []
  }

  ghost predicate Order(s: Pool) {
    && s.released <= |s.submitted|
    && Exits(s.queue) == (if s.released >= 0 then 1 else 0)
    && s.started + BeforeExit(s.queue) == Kept(BeforeRelease(s), s.cancelled)
    && AfterExit(s.queue) == Kept(AfterRelease(s), s.cancelled)
  }

  // A worker is gone only when the exit message has come to the head.
  ghost predicate Drained(s: Pool) {
    Exited in s.workers.Values ==> s.queue != [] && s.queue[0] == Exit
  }

  lemma {:induction false} KeptAppend(a: seq<nat>, b: seq<nat>, cancelled: set<nat>)
    ensures Kept(a + b, cancelled) == Kept(a, cancelled) + Kept(b, cancelled)
  {
    if a == [] {
      assert a + b == b;
    } else {
      assert (a + b)[1..] == a[1..] + b;
      KeptAppend(a[1..], b, cancelled);
    }
  }

  lemma {:induction false} KeptTwice(a: seq<nat>, c: set<nat>, d: set<nat>)
    ensures Kept(Kept(a, c), d) == Kept(a, c + d)
  {
    if a != [] {
      KeptTwice(a[1..], c, d);
      var head := if a[0] in c then [] else [a[0]];
      KeptAppend(head, Kept(a[1..], c), d);
    }
  }

  lemma {:induction false} KeptAll(a: seq<nat>, c: set<nat>)
    requires forall x :: x in a ==> x !in c
    ensures Kept(a, c) == a
  {
    if a != [] {
      KeptAll(a[1..], c);
      assert a == [a[0]] + a[1..];
    }
  }

  lemma {:induction false} KeptMembers(a: seq<nat>, c: set<nat>)
    ensures forall x :: x in Kept(a, c) <==> x in a && x !in c
  {
    if a != [] {
      KeptMembers(a[1..], c);
      assert a == [a[0]] + a[1..];
    }
  }

  // A new task or the exit message at the tail.
  lemma {:induction false} Appended(queue: seq<Entry>, e: Entry)
    requires Exits(queue) <= 1 && (e.Exit? ==> Exits(queue) == 0)
    ensures Exits(queue + [e]) == Exits(queue) + if e.Exit? then 1 else 0
    ensures BeforeExit(queue + [e]) == BeforeExit(queue) + if Exits(queue) == 0 && e.Task? then [e.id] else []
    ensures AfterExit(queue + [e]) == AfterExit(queue) + if Exits(queue) == 1 && e.Task? then [e.id] else []
  {
    if queue == [] {
      assert queue + [e] == [e];
    } else {
      assert (queue + [e])[1..] == queue[1..] + [e] && (queue + [e])[0] == queue[0];
      if queue[0].Exit? {
        NoExit(queue[1..]);
        NoExitAppended(queue[1..], e);
      } else {
        Appended(queue[1..], e);
      }
    }
  }

  lemma {:induction false} NoExit(queue: seq<Entry>)
    requires Exits(queue) == 0
    ensures AfterExit(queue) == [] && |BeforeExit(queue)| == |queue|
    ensures forall i :: 0 <= i < |queue| ==> queue[i] == Task(BeforeExit(queue)[i])
  {
    if queue != [] {
      NoExit(queue[1..]);
      assert forall i :: 1 <= i < |queue| ==> queue[i] == queue[1..][i - 1];
    }
  }

  lemma {:induction false} NoExitAppended(queue: seq<Entry>, e: Entry)
    requires Exits(queue) == 0 && e.Task?
    ensures BeforeExit(queue + [e]) == BeforeExit(queue) + [e.id] && Exits(queue + [e]) == 0
  {
    if queue == [] {
      assert queue + [e] == [e];
    } else {
      assert (queue + [e])[1..] == queue[1..] + [e];
      NoExitAppended(queue[1..], e);
    }
  }

  lemma {:induction false} Dropped(queue: seq<Entry>, id: nat)
    ensures Exits(Drop(queue, id)) == Exits(queue)
    ensures BeforeExit(Drop(queue, id)) == Kept(BeforeExit(queue), {id})
    ensures AfterExit(Drop(queue, id)) == Kept(AfterExit(queue), {id})
  {
    if queue != [] {
      Dropped(queue[1..], id);
      var rest := Drop(queue[1..], id);
      if queue[0] == Task(id) {
        assert [] + rest == rest;
      } else {
        assert ([queue[0]] + rest)[1..] == rest;
      }
    }
  }

  lemma KeptOne(id: nat, cancelled: set<nat>)
    requires id !in cancelled
    ensures Kept([id], cancelled) == [id]
  {
  }

  lemma SubmitOrder(s: Pool, id: nat, s1: Pool)
    requires Order(s) && id !in s.cancelled
    requires s1 == s.(submitted := s.submitted + [id], queue := s.queue + [Task(id)])
    ensures Order(s1)
  {
    hide BeforeExit, AfterExit, Exits, Kept;
    Appended(s.queue, Task(id));
    KeptOne(id, s.cancelled);
    if s.released >= 0 {
      assert BeforeRelease(s1) == BeforeRelease(s);
      assert AfterRelease(s1) == AfterRelease(s) + [id];
      KeptAppend(AfterRelease(s), [id], s.cancelled);
    } else {
      KeptAppend(s.submitted, [id], s.cancelled);
    }
  }

  lemma ReleaseOrder(s: Pool, s1: Pool)
    requires Order(s) && s.released < 0
    requires s1 == s.(released := |s.submitted|, queue := s.queue + [Exit])
    ensures Order(s1)
  {
    Appended(s.queue, Exit);
    assert BeforeRelease(s1) == s.submitted && AfterRelease(s1) == [];
  }

  lemma CancelOrder(s: Pool, id: nat, s1: Pool)
    requires Order(s) && id !in s.started
    requires s1 == s.(queue := Drop(s.queue, id), cancelled := s.cancelled + {id})
    ensures Order(s1)
  {
    Dropped(s.queue, id);
    KeptAll(s.started, {id});
    KeptAppend(s.started, BeforeExit(s.queue), {id});
    KeptTwice(BeforeRelease(s), s.cancelled, {id});
    KeptTwice(AfterRelease(s), s.cancelled, {id});
  }

  lemma TakeOrder(s: Pool, s1: Pool)
    requires Order(s) && s.queue != [] && s.queue[0].Task?
    requires s1.queue == s.queue[1..] && s1.started == s.started + [s.queue[0].id]
    requires s1.submitted == s.submitted && s1.released == s.released && s1.cancelled == s.cancelled
    ensures Order(s1)
  {
    var id := s.queue[0].id;
    assert s.started + BeforeExit(s.queue) == s1.started + BeforeExit(s1.queue) by {
      assert s.started + ([id] + BeforeExit(s.queue[1..])) == (s.started + [id]) + BeforeExit(s.queue[1..]);
    }
  }

  // ----- History -----

  ghost predicate Distinct(tasks: seq<nat>) {
    forall i, j :: 0 <= i < j < |tasks| ==> tasks[i] != tasks[j]
  }

  // Tasks that were started are finished or still running, on one thread.
  ghost predicate History(s: Pool) {
    && Distinct(s.submitted)
    && (forall id :: id in s.cancelled ==> id in s.submitted)
    && (forall id :: id in s.finished ==> id in s.started)
    && (forall t :: t in s.workers && s.workers[t].Running? ==>
          s.workers[t].id in s.started && s.workers[t].id !in s.finished)
    && (forall id :: id in s.started && id !in s.finished ==> Running(id) in s.workers.Values)
    && (forall t, u :: t in s.workers && u in s.workers && s.workers[t].Running? && s.workers[t] == s.workers[u] ==>
        t == u)
  }

  ghost predicate Inv(s: Pool, threads: set<nat>) {
    Threads(s, threads) && Wakeups(s) && Order(s) && Drained(s) && History(s)
  }

  lemma {:induction false} KeptDistinct(a: seq<nat>, c: set<nat>)
    requires Distinct(a)
    ensures Distinct(Kept(a, c))
  {
    if a != [] {
      TailDistinct(a);
      KeptDistinct(a[1..], c);
      KeptMembers(a[1..], c);
      FrontDistinct(a[0], Kept(a[1..], c));
    }
  }

  lemma TailDistinct(a: seq<nat>)
    requires a != [] && Distinct(a)
    ensures Distinct(a[1..]) && a[0] !in a[1..]
  {
    assert forall i :: 0 <= i < |a[1..]| ==> a[1..][i] == a[i + 1];
  }

  lemma FrontDistinct(id: nat, rest: seq<nat>)
    requires Distinct(rest) && id !in rest
    ensures Distinct([id] + rest) && Distinct([] + rest)
  {
    assert forall j :: 1 <= j < |[id] + rest| ==> ([id] + rest)[j] == rest[j - 1] && rest[j - 1] in rest;
  }

  lemma {:induction false} InQueue(queue: seq<Entry>, id: nat)
    requires Exits(queue) <= 1
    ensures Task(id) in queue <==> id in BeforeExit(queue) || id in AfterExit(queue)
  {
    if queue != [] {
      assert queue == [queue[0]] + queue[1..];
      if queue[0].Exit? {
        NoExit(queue[1..]);
        assert Task(id) in queue[1..] <==> id in BeforeExit(queue[1..]);
      } else {
        InQueue(queue[1..], id);
      }
    }
  }

  lemma Prefix(x: nat, a: seq<nat>, b: seq<nat>, whole: seq<nat>)
    requires a + b == whole
    ensures x in a || x in b <==> x in whole
  {
    assert x in a + b <==> x in a || x in b;
  }

  // A started task was submitted before the release and not taken back, and is
  // in the queue no more.
  lemma StartedOnce(s: Pool, id: nat)
    requires Order(s) && Distinct(s.submitted) && id in s.started
    ensures id in BeforeRelease(s) && id in s.submitted && id !in s.cancelled && Task(id) !in s.queue
  {
    var before, after, queued := BeforeRelease(s), AfterRelease(s), BeforeExit(s.queue);
    Prefix(id, s.started, queued, Kept(before, s.cancelled));
    KeptMembers(before, s.cancelled);
    KeptMembers(after, s.cancelled);
    KeptDistinct(before, s.cancelled);
    assert before + after == s.submitted;
    InQueue(s.queue, id);
    DistinctParts(s.started, queued);
    DistinctParts(before, after);
  }

  lemma DistinctParts(a: seq<nat>, b: seq<nat>)
    requires Distinct(a + b)
    ensures forall x :: x in a ==> x !in b
  {
    forall i, j | 0 <= i < |a| && 0 <= j < |b| ensures a[i] != b[j] {
      assert (a + b)[i] == a[i] && (a + b)[|a| + j] == b[j];
    }
  }

  lemma StepOrder(s: Pool, step: Step, s': Pool)
    requires Order(s) && History(s) && Next(s, step, s')
    ensures Order(s')
  {
    hide Count;
    hide BeforeExit, AfterExit, Exits, Kept;
    match step {
      case Submit(id) =>
        PostChanges(s.(submitted := s.submitted + [id]), Task(id), s');
        SubmitOrder(s, id, s.(submitted := s.submitted + [id], queue := s.queue + [Task(id)]));
      case Release =>
        PostChanges(s.(released := |s.submitted|), Exit, s');
        ReleaseOrder(s, s.(released := |s.submitted|, queue := s.queue + [Exit]));
      case Lock(t) =>
        if s.queue != [] {
          if s.queue[0].Exit? {
            SignalCounts(Move(Wake(s, t), t, Exited), s');
          } else {
            TakeOrder(s, s');
          }
        }
      case Finish(t) =>
      case Cancel(id, _) =>
        if Task(id) in s.queue {
          if id in s.started {
            StartedOnce(s, id);
          }
          CancelOrder(s, id, s');
        }
    }
  }

  lemma PostChanges(s: Pool, e: Entry, s': Pool)
    requires Post(s, e, s')
    ensures s' == s.(queue := s.queue + [e], workers := s'.workers) && s'.workers.Keys == s.workers.Keys
    ensures forall t :: t in s.workers && s.workers[t] != Waiting ==> s'.workers[t] == s.workers[t]
    ensures forall t :: t in s.workers && s.workers[t] == Waiting ==>
      s'.workers[t] == Waiting || s'.workers[t] == Signalled
  {
    if s.idle > 0 {
      SignalCounts(s.(queue := s.queue + [e]), s');
    }
  }

  lemma StepDrained(s: Pool, step: Step, s': Pool)
    requires Order(s) && Drained(s) && Next(s, step, s')
    ensures Drained(s')
  {
    hide Count;
    hide AfterExit, Kept, BeforeRelease, AfterRelease;
    match step {
      case Submit(id) => PostChanges(s.(submitted := s.submitted + [id]), Task(id), s');
      case Release => PostChanges(s.(released := |s.submitted|), Exit, s');
      case Lock(t) =>
        if s.queue != [] && s.queue[0].Exit? {
          SignalCounts(Move(Wake(s, t), t, Exited), s');
        }
      case Finish(t) =>
      case Cancel(id, _) =>
    }
  }

  // The history only looks at which threads run which tasks.
  lemma SameHistory(s: Pool, s': Pool)
    requires History(s)
    requires s'.submitted == s.submitted && s'.cancelled == s.cancelled
    requires s'.started == s.started && s'.finished == s.finished
    requires s'.workers.Keys == s.workers.Keys
    requires forall t :: t in s.workers ==>
      (s.workers[t].Running? || s'.workers[t].Running? ==> s'.workers[t] == s.workers[t])
    ensures History(s')
  {
    forall id | id in s.started && id !in s.finished ensures Running(id) in s'.workers.Values {
      var t :| t in s.workers && s.workers[t] == Running(id);
      assert s'.workers[t] == Running(id);
    }
  }

  lemma TakeHistory(s: Pool, t: nat, s': Pool)
    requires Order(s) && History(s) && CanLock(s, t) && s.queue != [] && s.queue[0].Task?
    requires Take(Wake(s, t), t, s')
    ensures History(s')
  {
    var id := s.queue[0].id;
    assert Task(id) in s.queue;
    if id in s.started {
      StartedOnce(s, id);
    }
    forall id' | id' in s'.started && id' !in s'.finished ensures Running(id') in s'.workers.Values {
      if id' == id {
        assert s'.workers[t] == Running(id);
      } else {
        var u :| u in s.workers && s.workers[u] == Running(id');
        assert s'.workers[u] == Running(id');
      }
    }
  }

  lemma FinishHistory(s: Pool, t: nat, s': Pool)
    requires History(s) && Next(s, Finish(t), s')
    ensures History(s')
  {
    forall id | id in s'.started && id !in s'.finished ensures Running(id) in s'.workers.Values {
      var u :| u in s.workers && s.workers[u] == Running(id);
      assert s'.workers[u] == Running(id);
    }
  }

  lemma StepHistory(s: Pool, step: Step, s': Pool)
    requires Order(s) && History(s) && Next(s, step, s')
    ensures History(s')
  {
    hide Count;
    hide History;
    match step {
      case Submit(id) =>
        PostChanges(s.(submitted := s.submitted + [id]), Task(id), s');
        SubmitHistory(s, id, s');
      case Release =>
        PostChanges(s.(released := |s.submitted|), Exit, s');
        SameHistory(s, s');
      case Lock(t) =>
        if s.queue == [] {
          SameHistory(s, s');
        } else if s.queue[0].Exit? {
          SignalCounts(Move(Wake(s, t), t, Exited), s');
          SameHistory(s, s');
        } else {
          TakeHistory(s, t, s');
        }
      case Finish(t) =>
        FinishHistory(s, t, s');
      case Cancel(id, _) =>
        CancelHistory(s, s');
    }
  }

  lemma SubmitHistory(s: Pool, id: nat, s': Pool)
    requires History(s) && id !in s.submitted
    requires s' == s.(submitted := s.submitted + [id], queue := s'.queue, workers := s'.workers)
    requires s'.workers.Keys == s.workers.Keys
    requires forall t :: t in s.workers ==>
      (s.workers[t].Running? || s'.workers[t].Running? ==> s'.workers[t] == s.workers[t])
    ensures History(s')
  {
    SameHistory(s, s'.(submitted := s.submitted));
  }

  lemma CancelHistory(s: Pool, s': Pool)
    requires History(s) && s' == s.(queue := s'.queue, cancelled := s'.cancelled)
    requires forall id :: id in s'.cancelled ==> id in s.cancelled || id in s.submitted
    ensures History(s')
  {
  }

  lemma StepInv(s: Pool, step: Step, s': Pool, threads: set<nat>)
    requires Inv(s, threads) && Next(s, step, s')
    ensures Inv(s', threads)
  {
    hide Threads;
    hide Wakeups;
    hide Order;
    hide Drained;
    hide History;
    hide Next;
    StepThreads(s, step, s', threads);
    StepOrder(s, step, s');
    StepDrained(s, step, s');
    StepHistory(s, step, s');
  }

  lemma InitInv(threads: set<nat>)
    ensures Inv(Create(threads), threads)
  {
    CountZero(Create(threads).workers, Waiting);
    CountZero(Create(threads).workers, Signalled);
  }

  // ----- Runs -----

  // Any interleaving: one state more than steps.
  ghost predicate Run(states: seq<Pool>, steps: seq<Step>, threads: set<nat>) {
    && |states| == |steps| + 1
    && states[0] == Create(threads)
    && forall i :: 0 <= i < |steps| ==> Next(states[i], steps[i], states[i + 1])
  }

  lemma {:induction false} RunInv(states: seq<Pool>, steps: seq<Step>, threads: set<nat>, i: nat)
    requires Run(states, steps, threads) && i < |states|
    ensures Inv(states[i], threads)
  {
    hide Inv;
    hide Next;
    if i == 0 {
      InitInv(threads);
    } else {
      RunInv(states, steps, threads, i - 1);
      StepInv(states[i - 1], steps[i - 1], states[i], threads);
    }
  }

  // No wakeup is lost: while the queue is not empty, either every worker has
  // gone or some worker can go on without being signalled and without a
  // spurious wakeup.
  lemma NoLostWakeup(states: seq<Pool>, steps: seq<Step>, threads: set<nat>, i: nat)
    requires Run(states, steps, threads) && i < |states|
    requires states[i].queue != []
    requires exists t :: t in states[i].workers && states[i].workers[t] != Exited
    ensures exists t :: t in states[i].workers && states[i].workers[t] != Exited && states[i].workers[t] != Waiting
  {
    RunInv(states, steps, threads, i);
    var s := states[i];
    CountZero(s.workers, Waiting);
    CountZero(s.workers, Signalled);
  }

  // Tasks are started in the order of their submission, each at most once,
  // none of them taken back: what was started is the beginning of what was
  // submitted before the release, without the cancelled tasks.
  lemma StartedInOrder(states: seq<Pool>, steps: seq<Step>, threads: set<nat>, i: nat)
    requires Run(states, steps, threads) && i < |states|
    ensures var s := states[i]; s.started <= Kept(BeforeRelease(s), s.cancelled) && Distinct(s.started)
  {
    RunInv(states, steps, threads, i);
    var s := states[i];
    var whole := Kept(BeforeRelease(s), s.cancelled);
    assert BeforeRelease(s) <= s.submitted;
    KeptDistinct(BeforeRelease(s), s.cancelled);
    assert s.started + BeforeExit(s.queue) == whole;
    assert forall k :: 0 <= k < |s.started| ==> s.started[k] == whole[k];
  }

  // Once one worker is gone, no task submitted before the release is queued
  // any more; once all are gone, each of them has run to its end, exactly the
  // cancelled ones excepted.
  lemma DrainedBeforeExit(states: seq<Pool>, steps: seq<Step>, threads: set<nat>, i: nat, t: nat)
    requires Run(states, steps, threads) && i < |states|
    requires t in states[i].workers && states[i].workers[t] == Exited
    ensures var s := states[i];
      0 <= s.released <= |s.submitted| && s.started == Kept(s.submitted[..s.released], s.cancelled)
    ensures (forall u :: u in states[i].workers ==> states[i].workers[u] == Exited) ==>
      forall id :: id in states[i].submitted[..states[i].released] && id !in states[i].cancelled ==>
        id in states[i].finished
  {
    RunInv(states, steps, threads, i);
    var s := states[i];
    assert s.started + [] == s.started;
    KeptMembers(BeforeRelease(s), s.cancelled);
  }

  // ----- The end of the pool -----

  function Alive(w: map<nat, Place>): set<nat> {
    set t | t in w && w[t] != Exited
  }

  function Busy(w: map<nat, Place>): set<nat> {
    set t | t in w && w[t].Running?
  }

  // What the workers still have to do once the exit message is queued: start
  // and finish each task in front of it, finish the running ones, and go.
  ghost function Remaining(s: Pool): nat {
    2 * |BeforeExit(s.queue)| + |Busy(s.workers)| + |Alive(s.workers)|
  }

  lemma MoveBusy(w: map<nat, Place>, t: nat, p: Place)
    requires t in w
    ensures |Busy(w[t := p])| == |Busy(w)| - (if w[t].Running? then 1 else 0) + (if p.Running? then 1 else 0)
  {
    assert Busy(w[t := p]) == (Busy(w) - {t}) + if p.Running? then {t} else {};
    assert t in Busy(w) <==> w[t].Running?;
  }

  lemma MoveAlive(w: map<nat, Place>, t: nat, p: Place)
    requires t in w
    ensures |Alive(w[t := p])| == |Alive(w)| - (if w[t] != Exited then 1 else 0) + (if p != Exited then 1 else 0)
  {
    assert Alive(w[t := p]) == (Alive(w) - {t}) + if p != Exited then {t} else {};
    assert t in Alive(w) <==> w[t] != Exited;
  }

  lemma SameLoad(w: map<nat, Place>, w': map<nat, Place>)
    requires w.Keys == w'.Keys
    requires forall t :: t in w && w[t] != Waiting ==> w'[t] == w[t]
    requires forall t :: t in w && w[t] == Waiting ==> w'[t] == Waiting || w'[t] == Signalled
    ensures Busy(w) == Busy(w') && Alive(w) == Alive(w')
  {
  }

  // After the release every step of a worker, spurious wakeups included,
  // leaves less to do; the steps of other threads never leave more.
  lemma RemainingDecreases(s: Pool, step: Step, s': Pool, threads: set<nat>)
    requires Inv(s, threads) && Next(s, step, s') && s.released >= 0
    ensures if WorkerStep(step) then Remaining(s') < Remaining(s) else Remaining(s') <= Remaining(s)
  {
    hide Count;
    match step {
      case Submit(id) =>
        PostChanges(s.(submitted := s.submitted + [id]), Task(id), s');
        Appended(s.queue, Task(id));
        SameLoad(s.workers, s'.workers);
      case Release =>
      case Lock(t) => LockDecreases(s, t, s', threads);
      case Finish(t) =>
        MoveBusy(s.workers, t, Ready);
        MoveAlive(s.workers, t, Ready);
      case Cancel(id, _) =>
        Dropped(s.queue, id);
        KeptShrinks(BeforeExit(s.queue), {id});
    }
  }

  lemma {:induction false} KeptShrinks(a: seq<nat>, c: set<nat>)
    ensures |Kept(a, c)| <= |a|
  {
    if a != [] {
      KeptShrinks(a[1..], c);
    }
  }

  lemma LockDecreases(s: Pool, t: nat, s': Pool, threads: set<nat>)
    requires Inv(s, threads) && Next(s, Lock(t), s') && s.released >= 0
    ensures Remaining(s') < Remaining(s)
  {
    hide Count;
    assert s.queue != [];
    if s.queue[0].Exit? {
      var s1 := Move(Wake(s, t), t, Exited);
      MoveBusy(s.workers, t, Exited);
      MoveAlive(s.workers, t, Exited);
      SignalCounts(s1, s');
      SameLoad(s1.workers, s'.workers);
    } else {
      MoveBusy(s.workers, t, Running(s.queue[0].id));
      MoveAlive(s.workers, t, Running(s.queue[0].id));
    }
  }

  function WorkerSteps(steps: seq<Step>): nat {
    if steps == [] then 0 else WorkerSteps(steps[..|steps| - 1]) + if WorkerStep(steps[|steps| - 1]) then 1 else 0
  }

  // After the release the workers make at most as many steps as there is work
  // remaining, whatever the other threads do.
  lemma {:induction false} ReleaseEnds(states: seq<Pool>, steps: seq<Step>, threads: set<nat>, i: nat, k: nat)
    requires Run(states, steps, threads) && i <= k < |states| && states[i].released >= 0
    ensures states[k].released >= 0
    ensures WorkerSteps(steps[i..k]) + Remaining(states[k]) <= Remaining(states[i])
  {
    hide Remaining;
    hide Next;
    hide Inv;
    if i < k {
      ReleaseEnds(states, steps, threads, i, k - 1);
      RunInv(states, steps, threads, k - 1);
      RemainingDecreases(states[k - 1], steps[k - 1], states[k], threads);
      StaysReleased(states[k - 1], steps[k - 1], states[k]);
      var made := steps[i..k];
      assert made[..|made| - 1] == steps[i..k - 1] && made[|made| - 1] == steps[k - 1];
    }
  }

  // While not all workers are gone after the release, one of them can make a
  // step without being signalled. With ReleaseEnds, every run in which workers
  // that can go on do so ends with all of them gone.
  lemma ReleaseNotStuck(states: seq<Pool>, steps: seq<Step>, threads: set<nat>, i: nat)
    requires Run(states, steps, threads) && i < |states| && states[i].released >= 0
    requires exists t :: t in states[i].workers && states[i].workers[t] != Exited
    ensures exists t :: t in states[i].workers && states[i].workers[t] != Exited && states[i].workers[t] != Waiting
  {
    RunInv(states, steps, threads, i);
    NoLostWakeup(states, steps, threads, i);
  }

  lemma StaysReleased(s: Pool, step: Step, s': Pool)
    requires Next(s, step, s') && s.released >= 0
    ensures s'.released == s.released
  {
    hide Count;
    match step {
      case Submit(id) => PostChanges(s.(submitted := s.submitted + [id]), Task(id), s');
      case Lock(t) =>
        if s.queue != [] && s.queue[0].Exit? {
          SignalCounts(Move(Wake(s, t), t, Exited), s');
        }
      case _ =>
    }
  }

  // ----- Cancelling -----

  // A successful cancel keeps the task from running exactly when it is still
  // queued; otherwise it is already running, and the result is true merely
  // because some other entry is queued.
  lemma CancelExactly(states: seq<Pool>, steps: seq<Step>, threads: set<nat>, i: nat, id: nat)
    requires Run(states, steps, threads) && i < |steps| && steps[i] == Cancel(id, true)
    ensures Task(id) in states[i].queue <==> id !in states[i].started
    ensures Task(id) in states[i].queue ==> forall k :: i < k < |states| ==> id !in states[k].started
    ensures Task(id) !in states[i].queue ==> Running(id) in states[i].workers.Values && states[i + 1] == states[i]
  {
    RunInv(states, steps, threads, i);
    var s := states[i];
    assert Next(s, steps[i], states[i + 1]);
    if id in s.started {
      StartedOnce(s, id);
    } else {
      NotStarted(s, id);
      forall k | i < k < |states| ensures id !in states[k].started {
        CancelledStays(states, steps, threads, i + 1, k, id);
        RunInv(states, steps, threads, k);
        if id in states[k].started {
          StartedOnce(states[k], id);
        }
      }
    }
  }

  // What a cancel returns, whatever became of the task: true while it is
  // queued, false once it has finished, and while it is running true exactly
  // when some other entry is queued.
  lemma CancelResult(states: seq<Pool>, steps: seq<Step>, threads: set<nat>, i: nat, id: nat, result: bool)
    requires Run(states, steps, threads) && i < |steps| && steps[i] == Cancel(id, result)
    ensures Task(id) in states[i].queue || Running(id) in states[i].workers.Values || id in states[i].finished
    ensures Task(id) in states[i].queue ==> result
    ensures Running(id) in states[i].workers.Values ==> (result <==> states[i].queue != [])
    ensures id in states[i].finished ==> !result
  {
    RunInv(states, steps, threads, i);
    var s := states[i];
    assert Next(s, steps[i], states[i + 1]);
    if id in s.started {
      StartedOnce(s, id);
    } else {
      NotStarted(s, id);
    }
  }

  lemma SubmitStep(s: Pool, id: nat)
    requires s.idle == 0 && id !in s.submitted
    ensures Next(s, Submit(id), s.(submitted := s.submitted + [id], queue := s.queue + [Task(id)]))
  {
  }

  lemma TakeStep(s: Pool, t: nat)
    requires t in s.workers && s.workers[t] == Ready && s.queue != [] && s.queue[0].Task?
    ensures var id := s.queue[0].id;
      Next(s, Lock(t), Move(s, t, Running(id)).(queue := s.queue[1..], started := s.started + [id]))
  {
  }

  lemma CancelStep(s: Pool, id: nat)
    requires id in s.submitted && id !in s.cancelled && id !in s.finished && Task(id) !in s.queue
    ensures Next(s, Cancel(id, s.queue != []), s)
  {
  }

  // A run in which the cancel of a running task returns true.
  lemma CancelOfRunning() returns (states: seq<Pool>, steps: seq<Step>)
    ensures Run(states, steps, {0}) && |steps| == 4 && steps[3] == Cancel(1, true)
    ensures Running(1) in states[3].workers.Values && states[4] == states[3]
  {
    hide Next;
    var s0 := Create({0});
    SubmitStep(s0, 1);
    var s1 := s0.(submitted := [] + [1], queue := [] + [Task(1)]);
    SubmitStep(s1, 2);
    var s2 := s1.(submitted := [] + [1] + [2], queue := [] + [Task(1)] + [Task(2)]);
    TakeStep(s2, 0);
    var s3 := Move(s2, 0, Running(1)).(queue := s2.queue[1..], started := [] + [1]);
    assert s3.workers[0] == Running(1) && s3.queue == [Task(2)];
    CancelStep(s3, 1);
    states := [s0, s1, s2, s3, s3];
    steps := [Submit(1), Submit(2), Lock(0), Cancel(1, true)];
  }

  // A task that was submitted, not taken back and not started is queued.
  lemma NotStarted(s: Pool, id: nat)
    requires Order(s) && id in s.submitted && id !in s.cancelled && id !in s.started
    ensures Task(id) in s.queue
  {
    var before, after := BeforeRelease(s), AfterRelease(s);
    assert before + after == s.submitted;
    KeptMembers(before, s.cancelled);
    KeptMembers(after, s.cancelled);
    Prefix(id, s.started, BeforeExit(s.queue), Kept(before, s.cancelled));
    InQueue(s.queue, id);
  }

  lemma {:induction false} CancelledStays(states: seq<Pool>, steps: seq<Step>, threads: set<nat>,
                                          j: nat, k: nat, id: nat)
    requires Run(states, steps, threads) && j <= k < |states| && id in states[j].cancelled
    ensures id in states[k].cancelled
  {
    if j < k {
      CancelledStays(states, steps, threads, j, k - 1, id);
      CancelledGrows(states[k - 1], steps[k - 1], states[k]);
    }
  }

  lemma CancelledGrows(s: Pool, step: Step, s': Pool)
    requires Next(s, step, s')
    ensures s.cancelled <= s'.cancelled
  {
    hide Count;
    match step {
      case Submit(id) => PostChanges(s.(submitted := s.submitted + [id]), Task(id), s');
      case Release => PostChanges(s.(released := |s.submitted|), Exit, s');
      case Lock(t) =>
        if s.queue != [] && s.queue[0].Exit? {
          SignalCounts(Move(Wake(s, t), t, Exited), s');
        }
      case _ =>
    }
  }
}
