/**
 The critical sections of the channel on its ring queue. Each is a step of the
 step system, whose queue is the contents of the ring and whose number of slots
 is the size of the ring.
 */
module ChannelMonitor {
  import opened Channel
  import opened MessageQueue

  class Monitor {
    const cap: nat
    const q: Queue<Msg>
    ghost var s: Chan

    ghost predicate Valid()
      reads this, q, q.q
    {
      q.Valid() && s.cap == cap && s.queue == q.Contents() && s.slots == q.cap
    }

    constructor (cap: nat, ghost threads: set<nat>)
      ensures Valid() && fresh(q) && fresh(q.q) && s == Create(cap, threads) && this.cap == cap
    {
      this.cap := cap;
      q := new Queue(cap + 1);
      s := Create(cap, threads);
    }

    // ch_send from the test of its loop on: waits, or sends and signals.
    method Sending(t: nat, m: Msg, ghost step: Step) returns (sent: bool)
      requires Valid() && t in s.threads && TakesPart(step, t, m, s)
      modifies this, q, q.q
      ensures Valid() && Next(old(s), step, s)
      ensures q.q == old(q.q) || fresh(q.q)
      ensures sent <==> !(cap > 0 && |old(s).queue| >= cap)
    {
      if cap > 0 {
        var n := q.Count();
        if n >= cap {
          s := s.(threads := s.threads[t := SendWaiting], pending := s.pending[t := m]);
          return false;
        }
      }
      q.Push(m);
      s := Signalled(s.(queue := s.queue + [m], sent := s.sent + [m], threads := s.threads[t := Idle],
                        slots := if |s.queue| + 1 == s.slots then 2 * s.slots else s.slots),
                     RecvWaiting, RecvSignalled);
      return true;
    }

    // ch_recv from the test of its loop on.
    method Receiving(t: nat, ghost step: Step) returns (received: bool, m: Msg)
      requires Valid() && t in s.threads && (step == Recv(t) || step == RecvBack(t))
      requires if step.Recv? then s.threads[t] == Idle else s.threads[t] == RecvWaiting || s.threads[t] == RecvSignalled
      modifies this, q
      ensures Valid() && Next(old(s), step, s)
      ensures received <==> old(s).queue != []
      ensures received ==> m == old(s).queue[0]
    {
      var n := q.Count();
      if n == 0 {
        m := Msg(0, 0);
        s := s.(threads := s.threads[t := RecvWaiting]);
        return false, m;
      }
      received, m := q.Pop();
      s := s.(queue := s.queue[1..], received := s.received + [s.queue[0]], threads := s.threads[t := Idle]);
      if cap > 0 {
        s := Signalled(s, SendWaiting, SendSignalled);
      }
    }
  }

  // The steps in which a thread holds the mutex in ch_send with a message.
  ghost predicate TakesPart(step: Step, t: nat, m: Msg, s: Chan)
    requires t in s.threads
  {
    (step == Send(t, m) && s.threads[t] == Idle) ||
    (step == SendBack(t) && (s.threads[t] == SendWaiting || s.threads[t] == SendSignalled)
     && t in s.pending && s.pending[t] == m)
  }

  // The state after a signal to some waiting thread, if there is one.
  ghost function Signalled(s: Chan, from: Place, to: Place): (s': Chan)
    ensures Signal(s, from, to, s') && s'.queue == s.queue && s'.slots == s.slots && s'.cap == s.cap
  {
    if forall t :: t in s.threads ==> s.threads[t] != from then s
    else
      var t :| t in s.threads && s.threads[t] == from;
      s.(threads := s.threads[t := to])
  }
}
