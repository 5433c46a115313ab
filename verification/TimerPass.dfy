/**
 What a pass over the timers means for each of them: who is removed, who fires
 and what every node holds in the end, read off the log of the pass.
 */
module TimerPass {
  import opened TimerModel

  // The ids that callbacks deleted in the course of some visits.
  function DeletedIn(log: seq<Visit>): set<int> {
    if log == [] then {} else DeletedIn(log[..|log| - 1]) + Deletes(log[|log| - 1])
  }

  lemma MarkTwice(e: Entry, ids: set<int>, more: set<int>)
    ensures Mark(Mark(e, ids), more) == Mark(e, ids + more)
  {
  }

  // Until it is visited, a node changes only by being deleted.
  lemma {:induction false} BeforeItsVisit(v: seq<Entry>, log: seq<Visit>, world: World, j: nat)
    requires |log| <= j < |v|
    ensures Left(v, log, world)[j - |log| + Kept(log)] == Mark(v[j], DeletedIn(log))
  {
    hide Next, Mark, Deletes;
    if log == [] {
      assert DeletedIn(log) == {};
      MarkNothing(v[j]);
    } else {
      var n := |log| - 1;
      BeforeItsVisit(v, log[..n], world, j);
      var r, k := Left(v, log[..n], world), Kept(log[..n]);
      MarkTwice(v[j], DeletedIn(log[..n]), Deletes(log[n]));
      BeyondTheVisit(r, k, log[n], world, j - n + k);
    }
  }

  lemma MarkNothing(e: Entry)
    ensures Mark(e, {}) == e
  {
  }

  lemma BeyondTheVisit(r: seq<Entry>, k: nat, visit: Visit, world: World, m: nat)
    requires k < m < |r|
    ensures Next(r, k, visit, world)[if visit.Removed? then m - 1 else m] == Mark(r[m], Deletes(visit))
  {
    hide After, Deletes, Mark, Marked, Without;
    var w := if visit.Removed? then Without(r, k) else r[k := After(r[k], visit, world)];
    assert Next(r, k, visit, world) == Marked(w, Deletes(visit));
  }

  // A node that holds e is removed exactly when it is deleted on its visit, and
  // fires exactly when it is live and due then.
  predicate Accounted(e: Entry, deletedBefore: set<int>, visit: Visit, world: World) {
    && (visit.Removed? <==> e.id == -1 || e.id in deletedBefore)
    && (visit.Fired? ==> visit.id == e.id && Due(e.when, world.clock(visit.reading)))
    && (visit.Skipped? ==> !Due(e.when, world.clock(visit.reading)))
  }

  lemma {:induction false} EveryVisit(v: seq<Entry>, log: seq<Visit>, first: nat, from: nat, world: World, j: nat)
    requires j < |log| <= |v| && Explained(v, log, first, from, world)
    ensures Accounted(v[j], DeletedIn(log[..j]), log[j], world)
    ensures VisitOf(Mark(v[j], DeletedIn(log[..j])), log[j], first + j, from + Taken(log[..j]), world)
  {
    hide Left, Kept, DeletedIn;
    var n := |log| - 1;
    if j < n {
      EveryVisit(v, log[..n], first, from, world, j);
      assert log[..n][..j] == log[..j];
    } else {
      BeforeItsVisit(v, log[..n], world, n);
    }
  }

  // Timers fire at most once in a pass, and only those from before it.
  lemma FiresOnce(v: seq<Entry>, log: seq<Visit>, first: nat, from: nat, world: World, nextId: int, i: nat, j: nat)
    requires i < |log| <= |v| && j < |log| && Explained(v, log, first, from, world) && Ids(v, nextId)
    requires log[i].Fired? && log[j].Fired?
    ensures 0 <= log[i].id < nextId && (log[i].id == log[j].id <==> i == j)
  {
    hide Explained, DeletedIn;
    EveryVisit(v, log, first, from, world, i);
    EveryVisit(v, log, first, from, world, j);
  }

  // A timer that was deleted before its visit does not fire in the pass.
  lemma DeletedDoesNotFire(v: seq<Entry>, log: seq<Visit>, first: nat, from: nat, world: World, nextId: int,
                           i: nat, j: nat)
    requires i < j < |log| <= |v| && Explained(v, log, first, from, world) && log[j].Fired?
    ensures log[j].id !in Deletes(log[i])
  {
    hide Explained, Deletes;
    EveryVisit(v, log, first, from, world, j);
    DeletedEarlier(log, i, j);
  }

  lemma {:induction false} DeletedEarlier(log: seq<Visit>, i: nat, j: nat)
    requires i < j <= |log|
    ensures Deletes(log[i]) <= DeletedIn(log[..j])
  {
    assert log[..j][..j - 1] == log[..j - 1];
    if i < j - 1 {
      DeletedEarlier(log, i, j - 1);
    }
  }

  // What the j-th node holds in the end: it is deleted if a callback of the
  // pass deleted it or its own asked for no more, and only a firing re-arms it.
  function Final(e: Entry, visit: Visit, deleted: set<int>, world: World): Entry {
    var last := if visit.Fired? && visit.outcome.retval != -1
                then Armed(e.id, visit.rearmed, visit.outcome.retval, world) else e;
    if e.id in deleted || (visit.Fired? && visit.outcome.retval == -1) then last.(id := -1) else last
  }

  lemma {:induction false} FinalState(v: seq<Entry>, log: seq<Visit>, first: nat, from: nat, world: World, j: nat)
    requires j < |log| <= |v| && Explained(v, log, first, from, world) && !log[j].Removed?
    ensures Kept(log[..j]) < Kept(log)
    ensures Left(v, log, world)[Kept(log[..j])] == Final(v[j], log[j], DeletedIn(log), world)
  {
    hide Final, Deletes, Mark, Left, VisitOf;
    var n, k := |log| - 1, Kept(log[..j]);
    if j < n {
      FinalState(v, log[..n], first, from, world, j);
      assert log[..n][..j] == log[..j];
      LaterVisit(v, log, world, k);
      FinalMarked(v[j], log[j], DeletedIn(log[..n]), Deletes(log[n]), world);
    } else {
      OwnVisit(v, log, first, from, world);
    }
  }

  // And it is the j-th node that holds it.
  lemma {:induction false} FinalNode<T>(nodes: seq<T>, log: seq<Visit>, j: nat)
    requires j < |log| <= |nodes| && !log[j].Removed?
    ensures Kept(log[..j]) < Kept(log) && Remaining(nodes, log)[Kept(log[..j])] == nodes[j]
  {
    hide Remaining;
    var n := |log| - 1;
    if j < n {
      FinalNode(nodes, log[..n], j);
      assert log[..n][..j] == log[..j];
      LaterVisitOfNodes(nodes, log, Kept(log[..j]));
    } else {
      NodesBeforeVisit(nodes, log[..n], n);
      RemainingStep(nodes, log[..n], log[n]);
      assert log == log[..n] + [log[n]];
    }
  }

  lemma FinalMarked(e: Entry, visit: Visit, ids: set<int>, more: set<int>, world: World)
    ensures Mark(Final(e, visit, ids, world), more) == Final(e, visit, ids + more, world)
  {
  }

  lemma LaterVisit(v: seq<Entry>, log: seq<Visit>, world: World, k: nat)
    requires 0 < |log| <= |v| && k < Kept(log[..|log| - 1])
    ensures Left(v, log, world)[k] == Mark(Left(v, log[..|log| - 1], world)[k], Deletes(log[|log| - 1]))
  {
  }

  lemma LaterVisitOfNodes<T>(nodes: seq<T>, log: seq<Visit>, k: nat)
    requires 0 < |log| <= |nodes| && k < Kept(log[..|log| - 1])
    ensures Remaining(nodes, log)[k] == Remaining(nodes, log[..|log| - 1])[k]
  {
  }

  lemma OwnVisit(v: seq<Entry>, log: seq<Visit>, first: nat, from: nat, world: World)
    requires 0 < |log| <= |v| && Explained(v, log, first, from, world) && !log[|log| - 1].Removed?
    ensures var n := |log| - 1; Left(v, log, world)[Kept(log[..n])] == Final(v[n], log[n], DeletedIn(log), world)
  {
    hide Explained, Deletes;
    var n := |log| - 1;
    BeforeItsVisit(v, log[..n], world, n);
    EveryVisit(v, log, first, from, world, n);
  }

  lemma {:induction false} NodesBeforeVisit<T>(nodes: seq<T>, log: seq<Visit>, j: nat)
    requires |log| <= j < |nodes|
    ensures Remaining(nodes, log)[j - |log| + Kept(log)] == nodes[j]
  {
    if log != [] {
      NodesBeforeVisit(nodes, log[..|log| - 1], j);
    }
  }

  lemma DueMeansLater(when: Time, now: Time)
    requires Reading(now) && when.ms < 1000 && Due(when, now)
    ensures Total(now) >= Total(when)
  {
  }

  // Each visit takes its readings before the next.
  lemma {:induction false} TakenBefore(log: seq<Visit>, j: nat)
    requires j < |log|
    ensures Taken(log[..j]) + Takes(log[j]) <= Taken(log)
  {
    var n := |log| - 1;
    if j < n {
      TakenBefore(log[..n], j);
      assert log[..n][..j] == log[..j];
    }
  }

  // What the entries hold before a pass, the clock and the callbacks leave no
  // choice.
  lemma {:induction false} PassDetermined(v: seq<Entry>, log: seq<Visit>, other: seq<Visit>, first: nat, from: nat,
                                          world: World)
    requires |log| == |other| <= |v|
    requires Explained(v, log, first, from, world) && Explained(v, other, first, from, world)
    ensures log == other
  {
    hide Left, Kept, Taken;
    if log != [] {
      var n := |log| - 1;
      PassDetermined(v, log[..n], other[..n], first, from, world);
      assert log == log[..n] + [log[n]] && other == other[..n] + [other[n]];
    }
  }

  // Over any run: no timer fires before the delay is over with which it was
  // armed last, at a reading before the pass, unless the clock was seen to run
  // backwards since. (A pass begins with sound entries.)
  lemma NeverEarly(v: seq<Entry>, log: seq<Visit>, first: nat, from: nat, world: World, j: nat)
    requires j < |log| <= |v| && Explained(v, log, first, from, world) && log[j].Fired?
    requires Sound(v, from, world) && forall r: nat :: Reading(world.clock(r))
    ensures v[j].armed.reading < from <= log[j].reading == from + Taken(log[..j]) < from + Taken(log)
    ensures !v[j].armed.rewound ==>
      Total(world.clock(log[j].reading)) - Total(world.clock(v[j].armed.reading)) >= v[j].armed.delay
  {
    hide Explained, AddMilliseconds;
    EveryVisit(v, log, first, from, world, j);
    TakenBefore(log, j);
    DueMeansLater(v[j].when, world.clock(log[j].reading));
  }

  // How long after its arming a reading of the clock is, in milliseconds.
  function Elapsed(a: Arming, reading: nat, world: World): int {
    var since, now := world.clock(a.reading), world.clock(reading);
    (now.sec - since.sec) * 1000 + now.ms - since.ms
  }

  // The milliseconds of a deadline lie below zero: C's remainder of a negative
  // delay takes more than the reading has.
  predicate BelowZero(a: Arming, world: World) {
    a.delay < 0 && world.clock(a.reading).ms < (-a.delay) % 1000
  }

  // What decides, from the two readings and the delay alone, whether a timer
  // that is visited fires. One armed with a negative delay may wait for a full
  // second, and one that was rewound fires by the milliseconds in the first
  // second of the epoch only.
  predicate Expired(a: Arming, reading: nat, world: World) {
    var since, now := world.clock(a.reading), world.clock(reading);
    if a.rewound then now.sec > 0 || (now.sec == 0 && (BelowZero(a, world) || now.ms >= (since.ms + a.delay) % 1000))
    else if BelowZero(a, world) then now.sec >= since.sec - (-a.delay) / 1000
    else Elapsed(a, reading, world) >= a.delay
  }

  // C's division leaves the milliseconds of a deadline between those of a
  // second and, for a negative delay, a second below zero.
  lemma ArmedAt(now: Time, delay: int)
    requires Reading(now)
    ensures var t, below := AddMilliseconds(now, delay), delay < 0 && now.ms < (-delay) % 1000;
      && (below <==> t.ms < 0)
      && (below ==> t.sec == now.sec - (-delay) / 1000)
      && (!below ==> t.ms == (now.ms + delay) % 1000)
  {
    if delay < 0 {
      var q, r := (-delay) / 1000, (-delay) % 1000;
      assert delay == -(1000 * q) - r;
      assert Remainder(delay, 1000) == -r;
      if now.ms >= r {
        Residue(now.ms - r, -q, now.ms + delay);
      }
    } else {
      var q, r := delay / 1000, delay % 1000;
      Residue(if now.ms + r >= 1000 then now.ms + r - 1000 else now.ms + r,
              if now.ms + r >= 1000 then q + 1 else q, now.ms + delay);
    }
  }

  lemma Residue(r: int, q: int, n: int)
    requires 0 <= r < 1000 && n == 1000 * q + r
    ensures n % 1000 == r
  {
  }

  lemma DueExactly(a: Arming, reading: nat, world: World)
    requires Reading(world.clock(a.reading)) && Reading(world.clock(reading))
    ensures Due(When(a, world), world.clock(reading)) <==> Expired(a, reading, world)
  {
    hide AddMilliseconds;
    ArmedAt(world.clock(a.reading), a.delay);
  }

  // A visited timer that is live fires exactly when the reading of its visit
  // lies at least the delay after the one that it was armed at. A rewound one
  // fires at any reading after the first second of the epoch.
  lemma FiresExactly(v: seq<Entry>, log: seq<Visit>, first: nat, from: nat, world: World, j: nat)
    requires j < |log| <= |v| && Explained(v, log, first, from, world)
    requires Sound(v, from, world) && forall r: nat :: Reading(world.clock(r))
    ensures var reading := from + Taken(log[..j]);
      if v[j].id == -1 || v[j].id in DeletedIn(log[..j]) then log[j].Removed?
      else if Expired(v[j].armed, reading, world) then log[j].Fired? && log[j].reading == reading
      else log[j] == Skipped(reading)
  {
    hide Explained, AddMilliseconds, Expired, Due;
    EveryVisit(v, log, first, from, world, j);
    DueExactly(v[j].armed, from + Taken(log[..j]), world);
  }

  // ----- Timers that finalizers create -----

  // While none of the visited nodes was kept, only what the last callback
  // created is still in the list.
  lemma InFrontOfRemoved(log: seq<Visit>)
    requires log != [] && Kept(log) == 0
    ensures InFront(log) == Creations(log[|log| - 1]) && log[|log| - 1].Removed? && Kept(log[..|log| - 1]) == 0
  {
  }

  // In terms of the visits: some callback creates timers while no node was kept
  // yet, and the next node is unlinked as well.
  lemma {:induction false} LostByVisits(log: seq<Visit>)
    ensures Lost(log) == 0 <==>
      forall j :: 0 <= j && j + 1 < |log| && Kept(log[..j + 2]) == 0 ==> Creations(log[j]) == 0
  {
    hide InFront, Creations, Lost, Kept;
    if log == [] {
      NothingLost();
    } else {
      var n := |log| - 1;
      var prefix := log[..n];
      LostByVisits(prefix);
      LostOneMore(log);
      assert forall j :: 0 <= j && j + 1 < n ==> prefix[..j + 2] == log[..j + 2] && prefix[j] == log[j];
      assert n > 0 ==> log[..(n - 1) + 2] == log;
    }
  }

  lemma NothingLost()
    ensures Lost([]) == 0
  {
  }

  lemma LostOneMore(log: seq<Visit>)
    requires log != []
    ensures var n := |log| - 1;
      Lost(log) == Lost(log[..n]) + if n > 0 && Kept(log) == 0 then Creations(log[n - 1]) else 0
  {
    var n := |log| - 1;
    if n > 0 && Kept(log) == 0 {
      InFrontOfRemoved(log);
      InFrontOfRemoved(log[..n]);
    }
  }

  // The ids that the first n finalizers of a pass delete.
  function Finalized(first: nat, n: nat, world: World): set<int> {
    if n == 0 then {} else Finalized(first, n - 1, world) + DeletedBy(world.finalize(first + n - 1))
  }

  // The first n entries are deleted, by the finalizers in front of them at the
  // latest.
  predicate Leading(v: seq<Entry>, n: nat, first: nat, world: World)
    requires n <= |v|
  {
    forall i :: 0 <= i < n ==> v[i].id == DELETED || v[i].id in Finalized(first, i, world)
  }

  // Known before a pass: among the deleted entries at the head of the list, the
  // finalizer of one that is not the last of them creates timers.
  predicate LosesAt(v: seq<Entry>, j: nat, first: nat, world: World) {
    j + 1 < |v| && Leading(v, j + 2, first, world) && Creates(world.finalize(first + j)) > 0
  }

  ghost predicate Loses(v: seq<Entry>, first: nat, world: World) {
    exists j: nat :: LosesAt(v, j, first, world)
  }

  // No node is kept exactly as long as the entries are such.
  lemma {:induction false} LeadingKept(v: seq<Entry>, log: seq<Visit>, first: nat, from: nat, world: World, n: nat)
    requires n <= |log| <= |v| && Explained(v, log, first, from, world)
    ensures Kept(log[..n]) == 0 <==> Leading(v, n, first, world)
    ensures Kept(log[..n]) == 0 ==> DeletedIn(log[..n]) == Finalized(first, n, world)
    ensures Kept(log[..n]) == 0 && n > 0 ==> log[n - 1] == Removed(world.finalize(first + n - 1))
  {
    hide Explained;
    if n > 0 {
      LeadingKept(v, log, first, from, world, n - 1);
      EveryVisit(v, log, first, from, world, n - 1);
      assert log[..n][..n - 1] == log[..n - 1];
    }
  }

  // A pass loses timers exactly when its entries and finalizers say so before.
  lemma LostExactly(v: seq<Entry>, log: seq<Visit>, first: nat, from: nat, world: World)
    requires |log| == |v| && Explained(v, log, first, from, world)
    ensures Lost(log) == 0 <==> !Loses(v, first, world)
  {
    hide Explained, Leading, Kept, Lost;
    LostByVisits(log);
    forall j: nat | j + 1 < |log|
      ensures LosesAt(v, j, first, world) <==> Kept(log[..j + 2]) == 0 && Creations(log[j]) > 0
    {
      LeadingKept(v, log, first, from, world, j + 1);
      LeadingKept(v, log, first, from, world, j + 2);
      if Kept(log[..j + 2]) == 0 {
        InFrontOfRemoved(log[..j + 2]);
        assert log[..j + 2][..j + 1] == log[..j + 1];
      }
    }
  }

  // It happens: two deleted entries, and a finalizer of the first that creates
  // a timer.
  lemma LosesOne(v: seq<Entry>, from: nat, world: World) returns (log: seq<Visit>)
    requires |v| == 2 && v[0].id == DELETED && v[1].id == DELETED
    requires world.finalize(0) == [Create(0)] && world.finalize(1) == []
    ensures |log| == 2 && Explained(v, log, 0, from, world) && Lost(log) == 1 && Loses(v, 0, world)
  {
    var one, two := Removed(world.finalize(0)), Removed(world.finalize(1));
    log := [one, two];
    Begun(v, from, world);
    DeletedByOne(Create(0));
    hide Explained, Left, Lost, InFront, Kept, DeletedBy, Creates, Loses;
    LeftStep(v, [], one, world);
    ExplainedStep(v, [], one, 0, from, world);
    KeptStep([], one);
    FrontStep([], one, 0, from, world);
    assert [] + [one] == [one] && [one] + [two] == log;
    ExplainedStep(v, [one], two, 0, from, world);
    FrontStep([one], two, 0, from, world);
    assert LosesAt(v, 0, 0, world);
    LosesThere(v, 0, 0, world);
  }

  lemma Begun(v: seq<Entry>, from: nat, world: World)
    ensures Explained(v, [], 0, from, world) && Left(v, [], world) == v
    ensures Kept([]) == 0 && InFront([]) == 0 && Lost([]) == 0 && Creates([]) == 0
  {
  }

  lemma LosesThere(v: seq<Entry>, j: nat, first: nat, world: World)
    requires LosesAt(v, j, first, world)
    ensures Loses(v, first, world)
  {
  }

  // Stepping the times back does not matter to it.
  lemma LosesRewound(v: seq<Entry>, first: nat, world: World)
    ensures Loses(Rewound(v), first, world) <==> Loses(v, first, world)
  {
    var r := Rewound(v);
    forall j: nat
      ensures LosesAt(r, j, first, world) <==> LosesAt(v, j, first, world)
    {
      assert forall i :: 0 <= i < |v| ==> r[i].id == v[i].id;
    }
  }

  // So no timer is lost when finalizers create none.
  lemma NoneLost(log: seq<Visit>)
    requires forall j :: 0 <= j < |log| && log[j].Removed? ==> Creations(log[j]) == 0
    ensures Lost(log) == 0
  {
    forall j | 0 <= j && j + 1 < |log| && Kept(log[..j + 2]) == 0
      ensures Creations(log[j]) == 0
    {
      InFrontOfRemoved(log[..j + 2]);
      InFrontOfRemoved(log[..j + 2][..j + 1]);
      assert log[..j + 2][..j + 1][j] == log[j];
    }
    LostByVisits(log);
  }
}
