/**
 The channel as a step system: senders and receivers under one mutex, with one
 condition variable each. Runs are all interleavings, spurious wakeups
 included, with any number of threads.
 */
module Channel {
  import opened Counting

  // A message is a pointer, here a number, and a size.
  datatype Msg = Msg(ud: int, sz: nat)

  datatype Place = Idle | SendWaiting | SendSignalled | RecvWaiting | RecvSignalled

  // `slots` is the size of the ring behind the queue (see MessageQueue.Push);
  // `pending` is the message of a thread that waits to send. `sent` and
  // `received` are the history.
  datatype Chan = Chan(
    cap: nat,
    queue: seq<Msg>,
    slots: nat,
    threads: map<nat, Place>,
    pending: map<nat, Msg>,
    sent: seq<Msg>,
    received: seq<Msg>)

  ghost function Create(cap: nat, threads: set<nat>): Chan {
    Chan(cap, [], cap + 1, map t | t in threads :: Idle, map[], [], [])
  }

  // pthread_cond_signal: one of the threads that wait at `from`, if any.
  ghost predicate Signal(s: Chan, from: Place, to: Place, s': Chan) {
    if forall t :: t in s.threads ==> s.threads[t] != from then s' == s
    else exists t :: t in s.threads && s.threads[t] == from && s' == s.(threads := s.threads[t := to])
  }

  datatype Step =
    | Send(t: nat, m: Msg)  // a thread enters ch_send
    | SendBack(t: nat)    // a sender is back from cond_wait
    | Recv(t: nat)
    | RecvBack(t: nat)

  // The body of ch_send once the thread holds the mutex.
  ghost predicate TrySend(s: Chan, t: nat, m: Msg, s': Chan) {
    if s.cap > 0 && |s.queue| >= s.cap then
      s' == s.(threads := s.threads[t := SendWaiting], pending := s.pending[t := m])
    else
      Signal(s.(queue := s.queue + [m], sent := s.sent + [m], threads := s.threads[t := Idle],
                slots := if |s.queue| + 1 == s.slots then 2 * s.slots else s.slots),
             RecvWaiting, RecvSignalled, s')
  }

  // The body of ch_recv once the thread holds the mutex.
  ghost predicate TryRecv(s: Chan, t: nat, s': Chan) {
    if s.queue == [] then s' == s.(threads := s.threads[t := RecvWaiting])
    else
      var s1 := s.(queue := s.queue[1..], received := s.received + [s.queue[0]], threads := s.threads[t := Idle]);
      if s.cap > 0 then Signal(s1, SendWaiting, SendSignalled, s') else s' == s1
  }

  ghost predicate Next(s: Chan, step: Step, s': Chan) {
    && step.t in s.threads
    && match step
       case Send(t, m) => s.threads[t] == Idle && TrySend(s, t, m, s')
       case SendBack(t) =>
         (s.threads[t] == SendWaiting || s.threads[t] == SendSignalled)
         && t in s.pending && TrySend(s, t, s.pending[t], s')
       case Recv(t) => s.threads[t] == Idle && TryRecv(s, t, s')
       case RecvBack(t) => (s.threads[t] == RecvWaiting || s.threads[t] == RecvSignalled) && TryRecv(s, t, s')
  }

  // Messages arrive in the order in which they were sent, none twice, none
  // lost on the way.
  ghost predicate Fifo(s: Chan) {
    s.sent == s.received + s.queue
  }

  ghost predicate Bounded(s: Chan) {
    if s.cap > 0 then |s.queue| <= s.cap && s.slots == s.cap + 1 else s.slots > |s.queue|
  }

  // A receiver that waits unsignalled has no message to wait for, and a sender
  // no room: for each there is a signalled thread on its way.
  ghost predicate Wakeups(s: Chan) {
    && (Count(s.threads, RecvWaiting) > 0 ==> |s.queue| <= Count(s.threads, RecvSignalled))
    && (Count(s.threads, SendWaiting) > 0 ==> 0 < s.cap <= |s.queue| + Count(s.threads, SendSignalled))
  }

  // Every thread that waits to send has its message at hand.
  ghost predicate Pending(s: Chan) {
    forall t :: t in s.threads && (s.threads[t] == SendWaiting || s.threads[t] == SendSignalled) ==> t in s.pending
  }

  ghost predicate Inv(s: Chan) {
    Fifo(s) && Bounded(s) && Wakeups(s) && Pending(s)
  }

  lemma SignalCounts(s: Chan, from: Place, to: Place, s': Chan, other: Place)
    requires Signal(s, from, to, s') && from != to && other != from && other != to
    ensures s' == s.(threads := s'.threads) && s'.threads.Keys == s.threads.Keys
    ensures var k := if Count(s.threads, from) > 0 then 1 else 0;
      Count(s'.threads, from) == Count(s.threads, from) - k && Count(s'.threads, to) == Count(s.threads, to) + k
    ensures Count(s'.threads, other) == Count(s.threads, other)
    ensures forall t :: t in s.threads ==>
      s'.threads[t] == s.threads[t] || (s.threads[t] == from && s'.threads[t] == to)
  {
    hide Count;
    CountZero(s.threads, from);
    if t :| t in s.threads && s.threads[t] == from && s' == s.(threads := s.threads[t := to]) {
      MoveCounts(s.threads, t, to, from);
      MoveCounts(s.threads, t, to, to);
      MoveCounts(s.threads, t, to, other);
    }
  }

  lemma SendWakeups(s: Chan, t: nat, m: Msg, s': Chan)
    requires Inv(s) && t in s.threads && TrySend(s, t, m, s')
    requires s.threads[t] == Idle || s.threads[t] == SendWaiting || s.threads[t] == SendSignalled
    ensures Wakeups(s')
  {
    hide Count;
    hide Signal;
    var p := if s.cap > 0 && |s.queue| >= s.cap then SendWaiting else Idle;
    MoveCounts(s.threads, t, p, RecvWaiting);
    MoveCounts(s.threads, t, p, RecvSignalled);
    MoveCounts(s.threads, t, p, SendWaiting);
    MoveCounts(s.threads, t, p, SendSignalled);
    if p == Idle {
      var s1 := s.(queue := s.queue + [m], sent := s.sent + [m], threads := s.threads[t := Idle],
                   slots := if |s.queue| + 1 == s.slots then 2 * s.slots else s.slots);
      SignalCounts(s1, RecvWaiting, RecvSignalled, s', SendWaiting);
      SignalCounts(s1, RecvWaiting, RecvSignalled, s', SendSignalled);
    }
  }

  lemma RecvWakeups(s: Chan, t: nat, s': Chan)
    requires Inv(s) && t in s.threads && TryRecv(s, t, s')
    requires s.threads[t] == Idle || s.threads[t] == RecvWaiting || s.threads[t] == RecvSignalled
    ensures Wakeups(s')
  {
    hide Count;
    hide Signal;
    var p := if s.queue == [] then RecvWaiting else Idle;
    MoveCounts(s.threads, t, p, RecvWaiting);
    MoveCounts(s.threads, t, p, RecvSignalled);
    MoveCounts(s.threads, t, p, SendWaiting);
    MoveCounts(s.threads, t, p, SendSignalled);
    if p == Idle && s.cap > 0 {
      var s1 := s.(queue := s.queue[1..], received := s.received + [s.queue[0]], threads := s.threads[t := Idle]);
      SignalCounts(s1, SendWaiting, SendSignalled, s', RecvWaiting);
      SignalCounts(s1, SendWaiting, SendSignalled, s', RecvSignalled);
    }
  }

  lemma SendRest(s: Chan, t: nat, m: Msg, s': Chan)
    requires Inv(s) && t in s.threads && TrySend(s, t, m, s')
    ensures Fifo(s') && Bounded(s') && Pending(s')
    ensures s'.threads.Keys == s.threads.Keys && s'.cap == s.cap
    ensures s'.sent == s.sent || s'.sent == s.sent + [m]
  {
    hide Count;
    if !(s.cap > 0 && |s.queue| >= s.cap) {
      assert s.received + (s.queue + [m]) == (s.received + s.queue) + [m];
      var s1 := s.(queue := s.queue + [m], sent := s.sent + [m], threads := s.threads[t := Idle],
                   slots := if |s.queue| + 1 == s.slots then 2 * s.slots else s.slots);
      SignalCounts(s1, RecvWaiting, RecvSignalled, s', Idle);
    }
  }

  lemma RecvRest(s: Chan, t: nat, s': Chan)
    requires Inv(s) && t in s.threads && TryRecv(s, t, s')
    ensures Fifo(s') && Bounded(s') && Pending(s')
    ensures s'.threads.Keys == s.threads.Keys && s'.cap == s.cap
  {
    hide Count;
    if s.queue != [] {
      assert s.received + s.queue == (s.received + [s.queue[0]]) + s.queue[1..];
      if s.cap > 0 {
        var s1 := s.(queue := s.queue[1..], received := s.received + [s.queue[0]], threads := s.threads[t := Idle]);
        SignalCounts(s1, SendWaiting, SendSignalled, s', Idle);
      }
    }
  }

  lemma StepInv(s: Chan, step: Step, s': Chan)
    requires Inv(s) && Next(s, step, s')
    ensures Inv(s') && s'.cap == s.cap && s'.threads.Keys == s.threads.Keys
  {
    hide Inv;
    hide TrySend;
    hide TryRecv;
    match step {
      case Send(t, m) => SendInv(s, t, m, s');
      case SendBack(t) => SendInv(s, t, s.pending[t], s');
      case Recv(t) => RecvInv(s, t, s');
      case RecvBack(t) => RecvInv(s, t, s');
    }
  }

  lemma SendInv(s: Chan, t: nat, m: Msg, s': Chan)
    requires Inv(s) && t in s.threads && TrySend(s, t, m, s')
    requires s.threads[t] == Idle || s.threads[t] == SendWaiting || s.threads[t] == SendSignalled
    ensures Inv(s') && s'.cap == s.cap && s'.threads.Keys == s.threads.Keys
  {
    SendWakeups(s, t, m, s');
    SendRest(s, t, m, s');
  }

  lemma RecvInv(s: Chan, t: nat, s': Chan)
    requires Inv(s) && t in s.threads && TryRecv(s, t, s')
    requires s.threads[t] == Idle || s.threads[t] == RecvWaiting || s.threads[t] == RecvSignalled
    ensures Inv(s') && s'.cap == s.cap && s'.threads.Keys == s.threads.Keys
  {
    RecvWakeups(s, t, s');
    RecvRest(s, t, s');
  }

  // ----- Runs -----

  ghost predicate Run(states: seq<Chan>, steps: seq<Step>, cap: nat, threads: set<nat>) {
    && |states| == |steps| + 1
    && states[0] == Create(cap, threads)
    && forall i :: 0 <= i < |steps| ==> Next(states[i], steps[i], states[i + 1])
  }

  lemma {:induction false} RunInv(states: seq<Chan>, steps: seq<Step>, cap: nat, threads: set<nat>, i: nat)
    requires Run(states, steps, cap, threads) && i < |states|
    ensures Inv(states[i]) && states[i].cap == cap && states[i].threads.Keys == threads
  {
    if i == 0 {
      CountZero(states[0].threads, RecvWaiting);
      CountZero(states[0].threads, SendWaiting);
    } else {
      hide Inv;
      hide Next;
      RunInv(states, steps, cap, threads, i - 1);
      StepInv(states[i - 1], steps[i - 1], states[i]);
    }
  }

  // What has been received is the beginning of what has been sent; a channel
  // with a capacity never holds more, and its ring of capacity + 1 slots never
  // grows.
  lemma RunRefinesFifo(states: seq<Chan>, steps: seq<Step>, cap: nat, threads: set<nat>, i: nat)
    requires Run(states, steps, cap, threads) && i < |states|
    ensures states[i].received <= states[i].sent
    ensures cap > 0 ==> |states[i].sent| - |states[i].received| <= cap && states[i].slots == cap + 1
  {
    RunInv(states, steps, cap, threads, i);
  }

  // No wakeup is lost: when nobody is on the way back from cond_wait, waiting
  // receivers mean an empty channel and waiting senders a full one, so that
  // receivers and senders never wait for each other.
  lemma NoLostWakeup(states: seq<Chan>, steps: seq<Step>, cap: nat, threads: set<nat>, i: nat)
    requires Run(states, steps, cap, threads) && i < |states|
    requires forall t :: t in states[i].threads ==>
      states[i].threads[t] != SendSignalled && states[i].threads[t] != RecvSignalled
    ensures (exists t :: t in states[i].threads && states[i].threads[t] == RecvWaiting) ==> states[i].queue == []
    ensures (exists t :: t in states[i].threads && states[i].threads[t] == SendWaiting) ==> |states[i].queue| == cap > 0
    ensures forall t, u :: t in states[i].threads && u in states[i].threads ==>
      !(states[i].threads[t] == RecvWaiting && states[i].threads[u] == SendWaiting)
  {
    RunInv(states, steps, cap, threads, i);
    var w := states[i].threads;
    CountZero(w, RecvWaiting);
    CountZero(w, RecvSignalled);
    CountZero(w, SendWaiting);
    CountZero(w, SendSignalled);
  }
}
