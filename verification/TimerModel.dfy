/**
 What the timers of the event loop hold, what callbacks and visits make of it,
 and the bookkeeping of a pass. The clock and the callbacks are oracles: what
 they do on each call is arbitrary.
 */
module TimerModel {

  datatype Time = Time(sec: int, ms: int)

  const DELETED := -1
  const NOMORE := -1

  datatype Action = Create(milliseconds: int) | Delete(id: int)

  // What a callback does, in order, and what it returns.
  datatype Outcome = Outcome(actions: seq<Action>, retval: int)

  // How a timer came by its time: from which reading of the clock it was armed
  // with which delay, and whether the clock was seen to run backwards since.
  datatype Arming = Arming(reading: nat, delay: int, rewound: bool)

  // What a node of the list holds besides its link.
  datatype Entry = Entry(id: int, when: Time, armed: Arming)

  // What happened to one node of the list in a pass. Readings of the clock are
  // given by their number.
  datatype Visit =
    | Removed(finalizer: seq<Action>)
    | Fired(id: int, reading: nat, outcome: Outcome, rearmed: nat)
    | Skipped(reading: nat)

  // The oracles: the clock by the number of earlier readings, the callbacks by
  // the number of earlier visits, and a timer's callback also by its id.
  datatype World = World(clock: nat -> Time, script: (nat, int) -> Outcome, finalize: nat -> seq<Action>)

  // C's division and remainder truncate toward zero.
  function Quotient(a: int, b: int): int
    requires b > 0
  {
    if a >= 0 then a / b else -((-a) / b)
  }

  function Remainder(a: int, b: int): int
    requires b > 0
  {
    a - b * Quotient(a, b)
  }

  function Total(t: Time): int {
    t.sec * 1000 + t.ms
  }

  predicate Reading(t: Time) {
    0 <= t.ms < 1000
  }

  // The time that lies the given number of milliseconds after now.
  function AddMilliseconds(now: Time, milliseconds: int): (t: Time)
    ensures Reading(now) ==> Total(t) == Total(now) + milliseconds && t.ms < 1000
    ensures Reading(now) && milliseconds >= 0 ==> Reading(t)
  {
    var sec, ms := now.sec + Quotient(milliseconds, 1000), now.ms + Remainder(milliseconds, 1000);
    if ms >= 1000 then Time(sec + 1, ms - 1000) else Time(sec, ms)
  }

  predicate Due(when: Time, now: Time) {
    now.sec > when.sec || (now.sec == when.sec && now.ms >= when.ms)
  }

  predicate Before(a: Time, b: Time) {
    a.sec < b.sec || (a.sec == b.sec && a.ms < b.ms)
  }

  // How long a poll may sleep.
  datatype Wait = Forever | AtMost(sec: int, usec: int)

  function DeletedBy(actions: seq<Action>): set<int> {
    if actions == [] then {} else (if actions[0].Delete? then {actions[0].id} else {}) + DeletedBy(actions[1..])
  }

  function Mark(e: Entry, ids: set<int>): Entry {
    if e.id in ids then e.(id := DELETED) else e
  }

  function Marked(v: seq<Entry>, ids: set<int>): (r: seq<Entry>)
    ensures |r| == |v|
    ensures forall i :: 0 <= i < |v| ==> r[i] == Mark(v[i], ids)
  {
    seq(|v|, i requires 0 <= i < |v| => Mark(v[i], ids))
  }

  function Without<T>(s: seq<T>, k: nat): (r: seq<T>)
    requires k < |s|
    ensures |r| == |s| - 1
    ensures forall i :: 0 <= i < k ==> r[i] == s[i]
    ensures forall i :: k <= i < |r| ==> r[i] == s[i + 1]
  {
    s[..k] + s[k + 1..]
  }

  // Live timers have distinct ids below the next one.
  predicate Ids(v: seq<Entry>, nextId: int) {
    && nextId >= 0
    && (forall i :: 0 <= i < |v| ==> v[i].id == DELETED || 0 <= v[i].id < nextId)
    && (forall i, j :: 0 <= i < j < |v| && v[i].id != DELETED ==> v[i].id != v[j].id)
  }

  // Every time is what its arming says, at a reading that was taken.
  predicate Sound(v: seq<Entry>, readings: nat, world: World) {
    forall i :: 0 <= i < |v| ==> v[i].armed.reading < readings && v[i].when == When(v[i].armed, world)
  }

  function When(a: Arming, world: World): Time {
    var t := AddMilliseconds(world.clock(a.reading), a.delay);
    if a.rewound then Time(0, t.ms) else t
  }

  predicate Good(v: seq<Entry>, nextId: int, readings: nat, world: World) {
    Ids(v, nextId) && Sound(v, readings, world)
  }

  function Creates(actions: seq<Action>): nat {
    if actions == [] then 0 else (if actions[0].Create? then 1 else 0) + Creates(actions[1..])
  }

  // What the callback of a visit does.
  function Actions(v: Visit): seq<Action> {
    match v
    case Removed(finalizer) => finalizer
    case Fired(_, _, outcome, _) => outcome.actions
    case Skipped(_) => []
  }

  function Creations(v: Visit): nat {
    Creates(Actions(v))
  }

  function Deletes(v: Visit): set<int> {
    DeletedBy(Actions(v))
  }

  // The readings that a visit takes: one to see what is due, one for each timer
  // that its callback creates, and one to arm the timer again.
  function Takes(v: Visit): nat {
    match v
    case Removed(_) => Creations(v)
    case Fired(_, _, outcome, _) => 1 + Creations(v) + if outcome.retval == NOMORE then 0 else 1
    case Skipped(_) => 1
  }

  function Taken(log: seq<Visit>): nat {
    if log == [] then 0 else Taken(log[..|log| - 1]) + Takes(log[|log| - 1])
  }

  function CreatedIn(log: seq<Visit>): nat {
    if log == [] then 0 else CreatedIn(log[..|log| - 1]) + Creations(log[|log| - 1])
  }

  // What a visit makes of the node itself, apart from deletions by callbacks.
  function After(e: Entry, v: Visit, world: World): Entry {
    if !v.Fired? then e
    else if v.outcome.retval == NOMORE then e.(id := DELETED)
    else Armed(e.id, v.rearmed, v.outcome.retval, world)
  }

  // A timer armed at a reading of the clock.
  function Armed(id: int, reading: nat, delay: int, world: World): Entry {
    Entry(id, AddMilliseconds(world.clock(reading), delay), Arming(reading, delay, false))
  }

  // How many of the visited nodes stayed in the list.
  function Kept(log: seq<Visit>): (k: nat)
    ensures k <= |log|
  {
    if log == [] then 0
    else Kept(log[..|log| - 1]) + if log[|log| - 1].Removed? then 0 else 1
  }

  // What actions make of the entries of a list, from the next id and the next
  // reading on.
  function Ran(v: seq<Entry>, actions: seq<Action>, nextId: int, reading: nat, world: World): (w: seq<Entry>)
    ensures |w| == Creates(actions) + |v|
    decreases |actions|
  {
    if actions == [] then v
    else
      match actions[0]
      case Create(milliseconds) =>
        Ran([Armed(nextId, reading, milliseconds, world)] + v, actions[1..], nextId + 1, reading + 1, world)
      case Delete(id) => Ran(Marked(v, {id}), actions[1..], nextId, reading, world)
  }

  // One action, and the rest.
  function RanOne(v: seq<Entry>, a: Action, nextId: int, reading: nat, world: World): seq<Entry> {
    match a
    case Create(milliseconds) => [Armed(nextId, reading, milliseconds, world)] + v
    case Delete(id) => Marked(v, {id})
  }

  function One(a: Action): nat {
    if a.Create? then 1 else 0
  }

  lemma RanNothing(v: seq<Entry>, nextId: int, reading: nat, world: World)
    ensures Ran(v, [], nextId, reading, world) == v && Creates([]) == 0
  {
  }

  lemma RanStep(v: seq<Entry>, actions: seq<Action>, nextId: int, reading: nat, world: World)
    requires actions != []
    ensures Creates(actions) == One(actions[0]) + Creates(actions[1..])
    ensures Ran(v, actions, nextId, reading, world)
         == Ran(RanOne(v, actions[0], nextId, reading, world), actions[1..],
                nextId + One(actions[0]), reading + One(actions[0]), world)
  {
  }

  // The timers created in a pass that are in the list, and how many were lost:
  // unlinking the first node of those before the pass, when none was kept yet,
  // unlinks all that were put in front of it.
  function Front(log: seq<Visit>, nextId: int, from: nat, world: World): (f: seq<Entry>)
    ensures |f| == InFront(log)
  {
    if log == [] then []
    else
      var prefix, visit := log[..|log| - 1], log[|log| - 1];
      var f := if visit.Removed? && Kept(prefix) == 0 then [] else Front(prefix, nextId, from, world);
      RunBy(f, prefix, visit, nextId, from, world)
  }

  // The callback of a visit runs after the reading that the visit begins with.
  function RunBy(v: seq<Entry>, log: seq<Visit>, visit: Visit, nextId: int, from: nat, world: World): (w: seq<Entry>)
    ensures |w| == Creations(visit) + |v|
  {
    var reading := from + Taken(log) + if visit.Fired? then 1 else 0;
    Ran(v, Actions(visit), nextId + CreatedIn(log), reading, world)
  }

  function InFront(log: seq<Visit>): nat {
    if log == [] then 0
    else
      var prefix, visit := log[..|log| - 1], log[|log| - 1];
      Creations(visit) + if visit.Removed? && Kept(prefix) == 0 then 0 else InFront(prefix)
  }

  function Lost(log: seq<Visit>): nat {
    if log == [] then 0
    else
      var prefix, visit := log[..|log| - 1], log[|log| - 1];
      Lost(prefix) + if visit.Removed? && Kept(prefix) == 0 then InFront(prefix) else 0
  }

  function Fires(log: seq<Visit>): nat {
    if log == [] then 0 else Fires(log[..|log| - 1]) + if log[|log| - 1].Fired? then 1 else 0
  }

  // What is left, after some visits, of the nodes a pass began with.
  function Remaining<T>(nodes: seq<T>, log: seq<Visit>): (r: seq<T>)
    requires |log| <= |nodes|
    ensures |r| == |nodes| - |log| + Kept(log)
  {
    if log == [] then nodes
    else
      var r := Remaining(nodes, log[..|log| - 1]);
      if log[|log| - 1].Removed? then Without(r, Kept(log[..|log| - 1])) else r
  }

  // What a visit makes of the k-th entry and, through its callback, of all.
  function Next(v: seq<Entry>, k: nat, visit: Visit, world: World): (r: seq<Entry>)
    requires k < |v|
    ensures |r| == if visit.Removed? then |v| - 1 else |v|
  {
    Marked(if visit.Removed? then Without(v, k) else v[k := After(v[k], visit, world)], Deletes(visit))
  }

  // What those nodes hold.
  function Left(v: seq<Entry>, log: seq<Visit>, world: World): (r: seq<Entry>)
    requires |log| <= |v|
    ensures |r| == |v| - |log| + Kept(log)
  {
    if log == [] then v
    else Next(Left(v, log[..|log| - 1], world), Kept(log[..|log| - 1]), log[|log| - 1], world)
  }

  // The n-th visit in the life of the event loop, of a node that holds e, with
  // the next reading of the clock.
  predicate VisitOf(e: Entry, v: Visit, n: nat, next: nat, world: World) {
    match v
    case Removed(finalizer) => e.id == DELETED && finalizer == world.finalize(n)
    case Fired(id, reading, outcome, rearmed) =>
      && e.id != DELETED && id == e.id && outcome == world.script(n, id)
      && reading == next && rearmed == next + 1 + Creates(outcome.actions) && Due(e.when, world.clock(reading))
    case Skipped(reading) => e.id != DELETED && reading == next && !Due(e.when, world.clock(reading))
  }

  predicate Explained(v: seq<Entry>, log: seq<Visit>, first: nat, from: nat, world: World)
    requires |log| <= |v|
  {
    log != [] ==>
      var n := |log| - 1;
      && Explained(v, log[..n], first, from, world)
      && VisitOf(Left(v, log[..n], world)[Kept(log[..n])], log[n], first + n, from + Taken(log[..n]), world)
  }

  lemma MarkedTwice(v: seq<Entry>, ids: set<int>, more: set<int>)
    ensures Marked(Marked(v, ids), more) == Marked(v, ids + more)
  {
  }

  lemma MarkedBoth(f: seq<Entry>, r: seq<Entry>, ids: set<int>)
    ensures Marked(f + r, ids) == Marked(f, ids) + Marked(r, ids)
  {
  }

  // Of the entries behind, actions only mark some as deleted.
  lemma {:induction false} RanBehind(f: seq<Entry>, r: seq<Entry>, actions: seq<Action>, nextId: int, reading: nat,
                                     world: World)
    ensures Ran(f + r, actions, nextId, reading, world)
         == Ran(f, actions, nextId, reading, world) + Marked(r, DeletedBy(actions))
    decreases |actions|
  {
    hide Armed;
    if actions == [] {
      assert Marked(r, {}) == r;
    } else {
      match actions[0] {
        case Create(milliseconds) =>
          var e := [Armed(nextId, reading, milliseconds, world)];
          assert e + (f + r) == (e + f) + r;
          RanBehind(e + f, r, actions[1..], nextId + 1, reading + 1, world);
        case Delete(id) =>
          MarkedBoth(f, r, {id});
          RanBehind(Marked(f, {id}), Marked(r, {id}), actions[1..], nextId, reading, world);
          MarkedTwice(r, {id}, DeletedBy(actions[1..]));
      }
    }
  }

  lemma PushGood(v: seq<Entry>, e: Entry, readings: nat, world: World)
    requires Good(v, e.id, readings, world) && e == Armed(e.id, readings, e.armed.delay, world)
    ensures Good([e] + v, e.id + 1, readings + 1, world)
  {
  }

  lemma LaterGood(v: seq<Entry>, nextId: int, readings: nat, later: nat, world: World)
    requires Good(v, nextId, readings, world) && readings <= later
    ensures Good(v, nextId, later, world)
  {
  }

  lemma DeletedByOne(a: Action)
    ensures DeletedBy([a]) == if a.Delete? then {a.id} else {}
    ensures Creates([a]) == if a.Create? then 1 else 0
  {
    assert [a][1..] == [];
  }

  lemma WithoutGood(v: seq<Entry>, nextId: int, readings: nat, world: World, k: nat)
    requires Good(v, nextId, readings, world) && k < |v|
    ensures Good(Without(v, k), nextId, readings, world) && Good(v[k + 1..], nextId, readings, world)
  {
    hide AddMilliseconds;
    var r := Without(v, k);
    forall i, j | 0 <= i < j < |r| && r[i].id != DELETED
      ensures r[i].id != r[j].id
    {
      assert r[i] == v[if i < k then i else i + 1] && r[j] == v[if j < k then j else j + 1];
    }
  }

  lemma MarkedGood(v: seq<Entry>, nextId: int, readings: nat, world: World, ids: set<int>)
    requires Good(v, nextId, readings, world)
    ensures Good(Marked(v, ids), nextId, readings, world)
  {
    hide When;
  }

  lemma DeletedGood(v: seq<Entry>, nextId: int, readings: nat, world: World, k: nat)
    requires Good(v, nextId, readings, world) && k < |v|
    ensures Good(v[k := v[k].(id := DELETED)], nextId, readings, world)
  {
    hide When;
  }

  lemma RearmedGood(v: seq<Entry>, nextId: int, readings: nat, world: World, k: nat, delay: int)
    requires Good(v, nextId, readings, world) && k < |v|
    ensures Good(v[k := Armed(v[k].id, readings, delay, world)], nextId, readings + 1, world)
  {
    hide AddMilliseconds;
  }

  lemma RewoundGood(v: seq<Entry>, nextId: int, readings: nat, world: World)
    requires Good(v, nextId, readings, world)
    ensures Good(Rewound(v), nextId, readings, world)
  {
    hide AddMilliseconds;
  }

  lemma KeptStep(log: seq<Visit>, visit: Visit)
    ensures Kept(log + [visit]) == Kept(log) + if visit.Removed? then 0 else 1
    ensures Fires(log + [visit]) == Fires(log) + if visit.Fired? then 1 else 0
  {
    assert (log + [visit])[..|log|] == log;
  }

  lemma FrontStep(log: seq<Visit>, visit: Visit, nextId: int, from: nat, world: World)
    ensures InFront(log + [visit]) == Creations(visit) + if visit.Removed? && Kept(log) == 0 then 0 else InFront(log)
    ensures Lost(log + [visit]) == Lost(log) + if visit.Removed? && Kept(log) == 0 then InFront(log) else 0
    ensures Taken(log + [visit]) == Taken(log) + Takes(visit)
    ensures CreatedIn(log + [visit]) == CreatedIn(log) + Creations(visit)
    ensures var f := if visit.Removed? && Kept(log) == 0 then [] else Front(log, nextId, from, world);
      Front(log + [visit], nextId, from, world) == RunBy(f, log, visit, nextId, from, world)
  {
    hide Kept, Creations, Takes, RunBy;
    assert (log + [visit])[..|log|] == log;
  }

  lemma RemainingStep<T>(nodes: seq<T>, log: seq<Visit>, visit: Visit)
    requires |log| < |nodes|
    ensures Remaining(nodes, log + [visit])
         == if visit.Removed? then Without(Remaining(nodes, log), Kept(log)) else Remaining(nodes, log)
  {
    hide Kept, Without;
    assert (log + [visit])[..|log|] == log;
  }

  lemma LeftStep(v: seq<Entry>, log: seq<Visit>, visit: Visit, world: World)
    requires |log| < |v|
    ensures Left(v, log + [visit], world) == Next(Left(v, log, world), Kept(log), visit, world)
  {
    hide Kept, Next;
    assert (log + [visit])[..|log|] == log;
  }

  lemma ExplainedStep(v: seq<Entry>, log: seq<Visit>, visit: Visit, first: nat, from: nat, world: World)
    requires |log| < |v|
    requires Explained(v, log, first, from, world)
    ensures Explained(v, log + [visit], first, from, world)
       <==> VisitOf(Left(v, log, world)[Kept(log)], visit, first + |log|, from + Taken(log), world)
  {
    hide Kept, Left, VisitOf, Taken;
    assert (log + [visit])[..|log|] == log;
  }

  lemma LeftSkipped(v: seq<Entry>, log: seq<Visit>, visit: Visit, world: World)
    requires |log| < |v| && visit.Skipped?
    ensures Left(v, log + [visit], world) == Left(v, log, world)
  {
    hide Kept, Left;
    LeftStep(v, log, visit, world);
    assert Marked(Left(v, log, world), {}) == Left(v, log, world);
  }

  // The length of a sleep in microseconds, and the time left to a deadline.
  function Sleep(wait: Wait): int
    requires wait.AtMost?
  {
    wait.sec * 1000000 + wait.usec
  }

  function Remains(deadline: Time, now: Time): nat {
    if Total(deadline) > Total(now) then (Total(deadline) - Total(now)) * 1000 else 0
  }

  // A pass under way: what it began with, the timers created since that are in
  // the list and those that were lost, and the visits.
  datatype Pass<T> = Pass(v: seq<Entry>, nodes: seq<T>, first: nat, from: nat, nextId: int, world: World,
                          created: seq<T>, lost: seq<T>, log: seq<Visit>)
  {
    // The index of the next node to visit.
    ghost function At(): nat {
      |created| + Kept(log)
    }

    // One visit more, whose callback created some timers.
    ghost function Then(visit: Visit, more: seq<T>): Pass<T> {
      if visit.Removed? && Kept(log) == 0 then this.(log := log + [visit], created := more, lost := lost + created)
      else this.(log := log + [visit], created := more + created)
    }
  }

  lemma ThenParts<T>(p: Pass<T>, visit: Visit, more: seq<T>)
    ensures var q := p.Then(visit, more);
      q == p.(log := p.log + [visit], created := q.created, lost := q.lost)
    ensures var q := p.Then(visit, more);
      forall n :: n in q.created || n in q.lost ==> n in more || n in p.created || n in p.lost
  {
  }

  lemma ThenCounts<T>(p: Pass<T>, visit: Visit, more: seq<T>)
    ensures var q := p.Then(visit, more);
      && q.first == p.first && q.from == p.from && q.nextId == p.nextId && q.world == p.world
      && |q.log| == |p.log| + 1 && Taken(q.log) == Taken(p.log) + Takes(visit)
      && CreatedIn(q.log) == CreatedIn(p.log) + Creations(visit)
      && Kept(q.log) == Kept(p.log) + if visit.Removed? then 0 else 1
  {
    hide Takes, Creations;
    KeptStep(p.log, visit);
    FrontStep(p.log, visit, p.nextId, p.from, p.world);
  }

  ghost predicate Visited<T>(p: Pass<T>, list: seq<T>, view: seq<Entry>) {
    && |p.log| <= |p.nodes| == |p.v| && |view| == |list|
    && list == p.created + Remaining(p.nodes, p.log)
    && view == Front(p.log, p.nextId, p.from, p.world) + Left(p.v, p.log, p.world)
    && Explained(p.v, p.log, p.first, p.from, p.world)
    && |p.created| == InFront(p.log) && |p.lost| == Lost(p.log)
  }

  // Unlinking the k-th: through the node in front of it or, without one that a
  // pass has kept, through the head.
  function Cut<T>(s: seq<T>, k: nat, first: bool): seq<T>
    requires k < |s|
  {
    if first then s[k + 1..] else Without(s, k)
  }

  lemma VisitedRemoved<T>(p: Pass<T>, visit: Visit, list: seq<T>, view: seq<Entry>, more: seq<T>)
    requires Visited(p, list, view) && visit.Removed? && p.At() < |view| && |more| == Creations(visit)
    requires VisitOf(view[p.At()], visit, p.first + |p.log|, p.from + Taken(p.log), p.world)
    ensures p.Then(visit, more).At() == |more| + if Kept(p.log) == 0 then 0 else p.At()
    ensures Visited(p.Then(visit, more), more + Cut(list, p.At(), Kept(p.log) == 0),
                    RunBy(Cut(view, p.At(), Kept(p.log) == 0), p.log, visit, p.nextId, p.from, p.world))
  {
    hide Kept, Remaining, Left, Explained, VisitOf, InFront, Lost, Without, Cut, Creations, Front, RunBy, Taken;
    KeptStep(p.log, visit);
    FrontStep(p.log, visit, p.nextId, p.from, p.world);
    ExplainedStep(p.v, p.log, visit, p.first, p.from, p.world);
    ViewCut(p, visit, view);
    ListCut(p, visit, list, more);
  }

  // The list's part of it.
  lemma ListCut<T>(p: Pass<T>, visit: Visit, list: seq<T>, more: seq<T>)
    requires |p.log| < |p.nodes| && visit.Removed? && list == p.created + Remaining(p.nodes, p.log) && p.At() < |list|
    ensures var q := p.Then(visit, more);
      more + Cut(list, p.At(), Kept(p.log) == 0) == q.created + Remaining(q.nodes, q.log)
  {
    hide Kept, Remaining, Without, Cut;
    RemainingStep(p.nodes, p.log, visit);
    var k, r := Kept(p.log), Remaining(p.nodes, p.log);
    Ends(list, p.created, r);
    CutParts(list, |p.created|, k, r);
    if k > 0 {
      Regroup(more, p.created, Without(r, k));
    }
  }

  lemma Regroup<T>(a: seq<T>, b: seq<T>, c: seq<T>)
    ensures a + (b + c) == (a + b) + c
  {
  }

  // The view's part of it.
  lemma ViewCut<T>(p: Pass<T>, visit: Visit, view: seq<Entry>)
    requires |p.log| < |p.v| && visit.Removed? && |p.created| == InFront(p.log) && p.At() < |view|
    requires view == Front(p.log, p.nextId, p.from, p.world) + Left(p.v, p.log, p.world)
    ensures RunBy(Cut(view, p.At(), Kept(p.log) == 0), p.log, visit, p.nextId, p.from, p.world)
         == Front(p.log + [visit], p.nextId, p.from, p.world) + Left(p.v, p.log + [visit], p.world)
  {
    hide Kept, Left, Without, Cut, Front, Marked, Taken, CreatedIn, Ran, InFront, Creates, DeletedBy;
    var k, f, left := Kept(p.log), Front(p.log, p.nextId, p.from, p.world), Left(p.v, p.log, p.world);
    var g := if k == 0 then [] else f;
    CutBehind(f, left, k);
    FrontStep(p.log, visit, p.nextId, p.from, p.world);
    LeftStep(p.v, p.log, visit, p.world);
    RanBehind(g, Without(left, k), Actions(visit), p.nextId + CreatedIn(p.log), p.from + Taken(p.log), p.world);
  }

  lemma CutBehind<T>(f: seq<T>, r: seq<T>, k: nat)
    requires k < |r|
    ensures Cut(f + r, |f| + k, k == 0) == (if k == 0 then [] else f) + Without(r, k)
  {
    hide Without, Cut;
    Ends(f + r, f, r);
    CutParts(f + r, |f|, k, r);
  }

  lemma Ends<T>(s: seq<T>, a: seq<T>, b: seq<T>)
    requires s == a + b
    ensures s[..|a|] == a && s[|a|..] == b
  {
  }

  lemma CutParts<T>(s: seq<T>, c: nat, k: nat, r: seq<T>)
    requires c <= |s| && s[c..] == r && k < |r|
    ensures Cut(s, c + k, k == 0) == if k == 0 then Without(r, 0) else s[..c] + Without(r, k)
  {
    assert s == s[..c] + r;
  }

  lemma VisitedFired<T>(p: Pass<T>, visit: Visit, list: seq<T>, view: seq<Entry>, more: seq<T>)
    requires Visited(p, list, view) && visit.Fired? && p.At() < |view| && |more| == Creations(visit)
    requires VisitOf(view[p.At()], visit, p.first + |p.log|, p.from + Taken(p.log), p.world)
    ensures p.Then(visit, more).At() == |more| + p.At() + 1
    ensures var ran, at := RunBy(view, p.log, visit, p.nextId, p.from, p.world), |more| + p.At();
      Visited(p.Then(visit, more), more + list, ran[at := After(ran[at], visit, p.world)])
  {
    hide Kept, Remaining, Left, Explained, VisitOf, InFront, Lost, Creations, Front, RunBy, After, Taken;
    KeptStep(p.log, visit);
    FrontStep(p.log, visit, p.nextId, p.from, p.world);
    RemainingStep(p.nodes, p.log, visit);
    ExplainedStep(p.v, p.log, visit, p.first, p.from, p.world);
    ViewFired(p, visit, view);
    Regroup(more, p.created, Remaining(p.nodes, p.log));
  }

  lemma ViewFired<T>(p: Pass<T>, visit: Visit, view: seq<Entry>)
    requires |p.log| < |p.v| && visit.Fired? && |p.created| == InFront(p.log) && p.At() < |view|
    requires view == Front(p.log, p.nextId, p.from, p.world) + Left(p.v, p.log, p.world)
    ensures var ran, at := RunBy(view, p.log, visit, p.nextId, p.from, p.world), Creations(visit) + p.At();
      ran[at := After(ran[at], visit, p.world)]
        == Front(p.log + [visit], p.nextId, p.from, p.world) + Left(p.v, p.log + [visit], p.world)
  {
    hide Kept, Left, Front, Taken, Ran, InFront, After, Creates, DeletedBy;
    var k, f, left := Kept(p.log), Front(p.log, p.nextId, p.from, p.world), Left(p.v, p.log, p.world);
    FrontStep(p.log, visit, p.nextId, p.from, p.world);
    LeftStep(p.v, p.log, visit, p.world);
    RanBehind(f, left, Actions(visit), p.nextId + CreatedIn(p.log), p.from + Taken(p.log) + 1, p.world);
    AfterMarked(left, k, visit, p.world);
  }

  // Marking and what a visit makes of its own node do not interfere.
  lemma AfterMarked(v: seq<Entry>, k: nat, visit: Visit, world: World)
    requires visit.Fired? && k < |v|
    ensures var m := Marked(v, Deletes(visit)); m[k := After(m[k], visit, world)] == Next(v, k, visit, world)
  {
  }

  lemma VisitedSkipped<T>(p: Pass<T>, visit: Visit, list: seq<T>, view: seq<Entry>)
    requires Visited(p, list, view) && visit.Skipped? && p.At() < |view|
    requires VisitOf(view[p.At()], visit, p.first + |p.log|, p.from + Taken(p.log), p.world)
    ensures p.Then(visit, []).At() == p.At() + 1
    ensures Visited(p.Then(visit, []), list, view)
  {
    hide Kept, Remaining, Left, Explained, VisitOf, InFront, Lost, Front, Taken;
    KeptStep(p.log, visit);
    FrontStep(p.log, visit, p.nextId, p.from, p.world);
    RemainingStep(p.nodes, p.log, visit);
    ExplainedStep(p.v, p.log, visit, p.first, p.from, p.world);
    LeftSkipped(p.v, p.log, visit, p.world);
    assert [] + p.created == p.created;
  }

  lemma StillToVisit<T>(p: Pass<T>, list: seq<T>, view: seq<Entry>)
    requires Visited(p, list, view)
    ensures |list| - p.At() == |p.nodes| - |p.log| >= 0
  {
    hide Kept, Remaining, Left, Explained, Front, InFront, Lost;
  }

  lemma VisitedNothing<T>(p: Pass<T>, list: seq<T>)
    requires p.log == [] && p.created == [] && p.lost == [] && p.nodes == list && |p.v| == |list|
    ensures p.At() == 0 && Visited(p, list, p.v)
    ensures Fires(p.log) == Kept(p.log) == Taken(p.log) == CreatedIn(p.log) == 0
  {
    assert p.v[0..] == p.v;
  }

  predicate Older(v: seq<Entry>, nextId: int) {
    forall i :: 0 <= i < |v| ==> v[i].id < nextId
  }

  lemma NextIsOld(v: seq<Entry>, k: nat, visit: Visit, world: World, nextId: int)
    requires k < |v| && Older(v, nextId) && nextId >= 0
    ensures Older(Next(v, k, visit, world), nextId)
  {
    hide Deletes, AddMilliseconds;
    var w := if visit.Removed? then Without(v, k) else v[k := After(v[k], visit, world)];
    assert Older(w, nextId);
  }

  lemma {:induction false} LeftIsOld(v: seq<Entry>, log: seq<Visit>, world: World, nextId: int)
    requires |log| <= |v| && Older(v, nextId) && nextId >= 0
    ensures Older(Left(v, log, world), nextId)
  {
    hide Next, Older, Kept;
    if log != [] {
      var prefix := log[..|log| - 1];
      LeftIsOld(v, prefix, world, nextId);
      NextIsOld(Left(v, prefix, world), Kept(prefix), log[|log| - 1], world, nextId);
    }
  }

  // The node about to be visited has an id from before the pass.
  lemma ReachedIsOld<T>(p: Pass<T>, list: seq<T>, view: seq<Entry>)
    requires Visited(p, list, view) && p.At() < |list| && Ids(p.v, p.nextId)
    ensures view[p.At()].id < p.nextId && |p.log| < |p.nodes| && |list| == |view|
  {
    hide Left, Remaining, Explained, Front, InFront, Lost;
    LeftIsOld(p.v, p.log, p.world, p.nextId);
    assert view[p.At()] == Left(p.v, p.log, p.world)[Kept(p.log)];
  }

  // The entries after a step back of the clock.
  function Rewound(v: seq<Entry>): (r: seq<Entry>)
    ensures |r| == |v|
    ensures forall i :: 0 <= i < |v| ==> r[i] == Rewind(v[i])
  {
    seq(|v|, i requires 0 <= i < |v| => Rewind(v[i]))
  }

  // The first i of them.
  function RewoundFrom(v: seq<Entry>, i: nat): (r: seq<Entry>)
    requires i <= |v|
    ensures |r| == |v|
  {
    Rewound(v)[..i] + v[i..]
  }

  lemma RewoundEnds(v: seq<Entry>)
    ensures RewoundFrom(v, 0) == v && RewoundFrom(v, |v|) == Rewound(v)
  {
  }

  lemma RewoundOne(v: seq<Entry>, i: nat)
    requires i < |v|
    ensures RewoundFrom(v, i)[i] == v[i] && RewoundFrom(v, i + 1) == RewoundFrom(v, i)[i := Rewind(v[i])]
  {
  }

  function Rewind(e: Entry): Entry {
    e.(when := e.when.(sec := 0), armed := e.armed.(rewound := true))
  }

  // ----- The timeout of a poll -----

  // What the code makes of the nearest time: nothing once it is due.
  function WaitFor(nearest: Time, now: Time): (w: Wait)
    ensures w.AtMost?
  {
    var ms := (nearest.sec - now.sec) * 1000 + nearest.ms - now.ms;
    if ms > 0 then AtMost(ms / 1000, ms % 1000 * 1000) else AtMost(0, 0)
  }

  lemma WaitsExactly(nearest: Time, now: Time)
    ensures var w := WaitFor(nearest, now); 0 <= w.sec && 0 <= w.usec < 1000000 && Sleep(w) == Remains(nearest, now)
  {
  }

  predicate IsNearest(v: seq<Entry>, i: nat)
    requires i < |v|
  {
    forall j :: 0 <= j < |v| ==> !Before(v[j].when, v[i].when)
  }

  predicate Respects(wait: Wait, v: seq<Entry>, now: Time)
    requires wait.AtMost?
  {
    forall k :: 0 <= k < |v| ==> Sleep(wait) <= Remains(v[k].when, now)
  }

  // The first in the order of seconds and then milliseconds is not due, and
  // another time is earlier.
  predicate Misled(v: seq<Entry>, now: Time) {
    exists i, k :: 0 <= i < |v| && 0 <= k < |v| && IsNearest(v, i)
                   && Total(now) < Total(v[i].when) && Total(v[k].when) < Total(v[i].when)
  }

  // A poll that waits for the nearest timer sleeps past a deadline exactly
  // when it is misled.
  lemma RespectsUnlessMisled(v: seq<Entry>, i: nat, now: Time)
    requires i < |v| && IsNearest(v, i)
    ensures Respects(WaitFor(v[i].when, now), v, now) <==> !Misled(v, now)
  {
    WaitsExactly(v[i].when, now);
    forall j | 0 <= j < |v| && IsNearest(v, j)
      ensures v[j].when == v[i].when
    {
      assert !Before(v[j].when, v[i].when) && !Before(v[i].when, v[j].when);
    }
  }

  // It is not misled by times of a clock that did not run backwards: armed no
  // later than now, in normal form, or rewound.
  predicate Calm(e: Entry, now: Time, world: World) {
    || Reading(e.when)
    || (!e.armed.rewound && Total(world.clock(e.armed.reading)) <= Total(now))
    || (e.armed.rewound && Total(now) >= 0)
  }

  ghost predicate Steady(v: seq<Entry>, now: Time, world: World) {
    (forall r: nat :: Reading(world.clock(r))) && forall i :: 0 <= i < |v| ==> Calm(v[i], now, world)
  }

  lemma NotMisled(v: seq<Entry>, readings: nat, now: Time, world: World)
    requires Sound(v, readings, world) && Steady(v, now, world)
    ensures !Misled(v, now)
  {
    hide AddMilliseconds;
    forall i, k | 0 <= i < |v| && 0 <= k < |v| && IsNearest(v, i) && Total(v[k].when) < Total(v[i].when)
      ensures Total(now) >= Total(v[i].when)
    {
      assert !Before(v[k].when, v[i].when);
      assert v[i].when.ms < 1000 && v[k].when.ms < 0;
      if v[k].armed.rewound {
      } else {
        NegativeRest(world.clock(v[k].armed.reading), v[k].armed.delay);
      }
    }
  }

  // A time with milliseconds below zero has no more seconds than its reading.
  lemma NegativeRest(t: Time, delay: int)
    requires Reading(t) && AddMilliseconds(t, delay).ms < 0
    ensures AddMilliseconds(t, delay).sec <= t.sec
  {
  }

  // After a step back of the clock it can be: armed at 10.000 with a delay of
  // -500 and at 9.000 with one of 999, and polled at 9.200, it sleeps 799
  // milliseconds, and the first of the two is due after 300.
  lemma SteppedBack(world: World)
    requires world.clock(0) == Time(10, 0) && world.clock(1) == Time(9, 0)
    ensures var v, now := [Armed(0, 0, -500, world), Armed(1, 1, 999, world)], Time(9, 200);
      IsNearest(v, 1) && Sleep(WaitFor(v[1].when, now)) == 799000 > Remains(v[0].when, now)
  {
    hide AddMilliseconds;
    TwoArmings();
    var v := [Armed(0, 0, -500, world), Armed(1, 1, 999, world)];
    assert v[0].when == Time(10, -500) && v[1].when == Time(9, 999);
  }

  lemma TwoArmings()
    ensures AddMilliseconds(Time(10, 0), -500) == Time(10, -500) && AddMilliseconds(Time(9, 0), 999) == Time(9, 999)
  {
  }
}
