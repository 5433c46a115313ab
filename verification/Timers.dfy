/**
 The event loop's timers: a linked list that is traversed while callbacks put
 new timers in front of it and mark others as deleted.
 */
module Timers {
  import opened TimerModel
  import opened TimerPass

  class TimeEvent {
    var id: int
    var when: Time
    var next: TimeEvent?
    ghost var armed: Arming

    constructor (id: int, when: Time, next: TimeEvent?, ghost armed: Arming)
      ensures this.id == id && this.when == when && this.next == next && this.armed == armed
    {
      this.id, this.when, this.next, this.armed := id, when, next, armed;
    }
  }

  ghost function View(list: seq<TimeEvent>): (v: seq<Entry>)
    reads list
    ensures |v| == |list|
    ensures forall i :: 0 <= i < |list| ==> v[i] == Entry(list[i].id, list[i].when, list[i].armed)
  {
    seq(|list|, i requires 0 <= i < |list| reads list => Entry(list[i].id, list[i].when, list[i].armed))
  }

  ghost predicate Linked(list: seq<TimeEvent>)
    reads list
  {
    && (forall i, j :: 0 <= i < j < |list| ==> list[i] != list[j])
    && (forall i {:trigger list[i].next} :: 0 <= i < |list| ==> list[i].next == Node(list, i + 1))
  }

  function Node(list: seq<TimeEvent>, i: nat): TimeEvent? {
    if i < |list| then list[i] else null
  }

  lemma PushLinked(te: TimeEvent, list: seq<TimeEvent>)
    requires Linked(list) && te !in list && te.next == Node(list, 0)
    ensures Linked([te] + list)
  {
  }

  lemma LinkedTail(list: seq<TimeEvent>, k: nat)
    requires k < |list| && Linked(list)
    ensures Linked(list[k + 1..]) && list[k].next == Node(list[k + 1..], 0)
  {
  }

  method Bypass(te: TimeEvent, prev: TimeEvent, ghost list: seq<TimeEvent>, ghost k: nat)
    requires Linked(list) && 0 < k < |list| && te == list[k] && prev == list[k - 1]
    modifies prev`next
    ensures Linked(Without(list, k))
  {
    ghost var rest := Without(list, k);
    assert te.next == Node(rest, k);
    prev.next := te.next;
    assert forall i :: 0 <= i < k - 1 ==> rest[i].next == rest[i + 1];
    assert forall i :: k <= i < |rest| ==> rest[i] == list[i + 1] && rest[i] != prev;
  }

  method RewindAll(head: TimeEvent?, ghost list: seq<TimeEvent>, ghost v: seq<Entry>)
    requires Linked(list) && head == Node(list, 0) && View(list) == v
    modifies list
    ensures Linked(list) && View(list) == RewoundFrom(v, |v|)
  {
    hide View, Linked, Rewound, RewoundFrom;
    RewoundEnds(v);
    var te := head;
    ghost var i := 0;
    while te != null
      invariant 0 <= i <= |list| && te == Node(list, i) && Linked(list)
      invariant View(list) == RewoundFrom(v, i)
      decreases |list| - i
    {
      RewindOne(te, list, v, i);
      NextNode(list, i);
      te := te.next;
      i := i + 1;
    }
  }

  lemma NextNode(list: seq<TimeEvent>, i: nat)
    requires Linked(list) && i < |list|
    ensures list[i].next == Node(list, i + 1)
  {
  }

  method RewindOne(te: TimeEvent, ghost list: seq<TimeEvent>, ghost v: seq<Entry>, ghost i: nat)
    requires Linked(list) && i < |list| == |v| && te == list[i] && View(list) == RewoundFrom(v, i)
    modifies te`when, te`armed
    ensures Linked(list) && View(list) == RewoundFrom(v, i + 1)
  {
    hide View, Linked, Rewound, RewoundFrom;
    RewoundOne(v, i);
    Holds(list, i);
    SetTime(te, te.when.(sec := 0), te.armed.(rewound := true), list, i);
  }

  lemma Holds(list: seq<TimeEvent>, i: nat)
    requires i < |list|
    ensures View(list)[i] == Entry(list[i].id, list[i].when, list[i].armed)
  {
  }

  method SetTime(te: TimeEvent, when: Time, ghost armed: Arming, ghost list: seq<TimeEvent>, ghost k: nat)
    requires Linked(list) && k < |list| && te == list[k]
    modifies te`when, te`armed
    ensures Linked(list) && View(list) == old(View(list))[k := Entry(te.id, when, armed)]
  {
    te.when := when;
    te.armed := armed;
  }

  class EventLoop {
    const world: World
    var head: TimeEvent?
    var nextId: int
    var lastTime: int
    var readings: nat
    var visits: nat
    ghost var list: seq<TimeEvent>

    ghost predicate Valid()
      reads this`head, this`nextId, this`list, this`readings, list
    {
      Linked(list) && head == Node(list, 0) && Good(View(list), nextId, readings, world)
    }

    constructor (world: World)
      ensures Valid() && list == [] && lastTime == world.clock(0).sec
    {
      this.world := world;
      head, nextId, list, readings, visits := null, 0, [], 1, 0;
      lastTime := world.clock(0).sec;
    }

    method ReadClock() returns (now: Time)
      requires Valid()
      modifies this`readings
      ensures Valid() && now == world.clock(old(readings)) && readings == old(readings) + 1
    {
      hide Good;
      LaterGood(View(list), nextId, readings, readings + 1, world);
      now := world.clock(readings);
      readings := readings + 1;
    }

    // New timers go to the front of the list.
    method CreateTimeEvent(milliseconds: int) returns (id: int, ghost node: TimeEvent)
      requires Valid()
      modifies this`head, this`nextId, this`list, this`readings
      ensures readings == old(readings) + 1
      ensures Valid() && id == old(nextId) && nextId == old(nextId) + 1
      ensures list == [node] + old(list) && fresh(node)
      ensures View(list) == [Armed(id, old(readings), milliseconds, world)] + old(View(list))
    {
      hide Good, AddMilliseconds, Linked;
      ghost var v, e := View(list), Armed(nextId, readings, milliseconds, world);
      PushGood(v, e, readings, world);
      id := nextId;
      nextId := nextId + 1;
      var now := world.clock(readings);
      readings := readings + 1;
      var te := new TimeEvent(id, AddMilliseconds(now, milliseconds), head, e.armed);
      PushLinked(te, list);
      head := te;
      list := [te] + list;
      node := te;
      assert View(list) == [e] + v;
    }

    // Marks the timer; it stays in the list until the next pass.
    method DeleteTimeEvent(id: int) returns (ok: bool)
      requires Valid()
      modifies list
      ensures Valid() && View(list) == Marked(old(View(list)), {id})
      ensures ok <==> exists i :: 0 <= i < |list| && old(View(list))[i].id == id
    {
      hide Good;
      var te := head;
      ghost var i, v := 0, View(list);
      MarkedGood(v, nextId, readings, world, {id});
      while te != null
        invariant 0 <= i <= |list| && te == Node(list, i)
        invariant unchanged(list)
        invariant forall j :: 0 <= j < i ==> v[j].id != id
        decreases |list| - i
      {
        if te.id == id {
          assert v[i].id == id;
          OnlyOne(v, nextId, readings, world, i);
          te.id := DELETED;
          assert View(list) == v[i := v[i].(id := DELETED)];
          return true;
        }
        te := te.next;
        i := i + 1;
      }
      assert Marked(v, {id}) == v;
      return false;
    }

    method RunAction(a: Action) returns (ghost created: seq<TimeEvent>)
      requires Valid()
      modifies this`head, this`nextId, this`list, this`readings, list
      ensures Valid() && list == created + old(list) && forall n :: n in created ==> fresh(n)
      ensures View(list) == RanOne(old(View(list)), a, old(nextId), old(readings), world)
      ensures |created| == nextId - old(nextId) == readings - old(readings) == One(a)
      ensures forall i :: 0 <= i < |list| ==> list[i] in old(list) || fresh(list[i])
    {
      hide Valid, View, Armed, Marked;
      match a {
        case Create(milliseconds) =>
          var _, node := CreateTimeEvent(milliseconds);
          created := [node];
        case Delete(id) =>
          var _ := DeleteTimeEvent(id);
          created := [];
      }
    }

    // A callback's calls into the event loop.
    method RunActions(actions: seq<Action>) returns (ghost created: seq<TimeEvent>)
      requires Valid()
      modifies this`head, this`nextId, this`list, this`readings, list
      ensures Valid() && list == created + old(list) && forall n :: n in created ==> fresh(n)
      ensures View(list) == Ran(old(View(list)), actions, old(nextId), old(readings), world)
      ensures |created| == nextId - old(nextId) == readings - old(readings) == Creates(actions)
      decreases actions
    {
      hide Valid, View, RanOne, One, Ran, Creates;
      if actions == [] {
        RanNothing(View(list), nextId, readings, world);
        return [];
      }
      RanStep(View(list), actions, nextId, readings, world);
      ghost var first := RunAction(actions[0]);
      ghost var rest := RunActions(actions[1..]);
      Regroup(rest, first, old(list));
      created := rest + first;
    }

    // Takes the k-th node out of the list, as the traversal does it: through
    // the previous node or, without one, through the head, and then whatever
    // is in front of the node goes as well.
    method Unlink(te: TimeEvent, prev: TimeEvent?, ghost k: nat)
      requires Valid() && k < |list| && te == list[k]
      requires prev != null ==> k > 0 && prev == list[k - 1]
      modifies this`head, this`list, list
      ensures Valid() && list == Cut(old(list), k, prev == null)
      ensures View(list) == Cut(old(View(list)), k, prev == null)
    {
      hide Good;
      ghost var before, v := list, View(list);
      WithoutGood(v, nextId, readings, world, k);
      if prev == null {
        LinkedTail(list, k);
        head := te.next;
      } else {
        Bypass(te, prev, list, k);
      }
      list := Cut(before, k, prev == null);
      assert View(list) == Cut(v, k, prev == null);
    }

    // The visit of a deleted node: unlinked, then finalized.
    method Remove(te: TimeEvent, prev: TimeEvent?, ghost k: nat) returns (ghost created: seq<TimeEvent>)
      requires Valid() && k < |list| && te == list[k]
      requires prev != null ==> k > 0 && prev == list[k - 1]
      modifies this`head, this`list, this`nextId, this`readings, list
      ensures Valid() && list == created + Cut(old(list), k, prev == null) && forall n :: n in created ==> fresh(n)
      ensures View(list)
           == Ran(Cut(old(View(list)), k, prev == null), world.finalize(visits), old(nextId), old(readings), world)
      ensures |created| == nextId - old(nextId) == readings - old(readings) == Creates(world.finalize(visits))
    {
      hide Valid, View, Ran, Creates;
      Unlink(te, prev, k);
      assert forall i :: 0 <= i < |list| ==> list[i] in old(list);
      created := RunActions(world.finalize(visits));
    }

    method Rearm(te: TimeEvent, milliseconds: int, ghost k: nat)
      requires Valid() && k < |list| && te == list[k]
      modifies te`when, te`armed, this`readings
      ensures Valid() && readings == old(readings) + 1
      ensures View(list) == old(View(list))[k := Armed(old(te.id), old(readings), milliseconds, world)]
    {
      hide Good, View, Linked, AddMilliseconds;
      ghost var v := View(list);
      RearmedGood(v, nextId, readings, world, k, milliseconds);
      Holds(list, k);
      var now := world.clock(readings);
      SetTime(te, AddMilliseconds(now, milliseconds), Arming(readings, milliseconds, false), list, k);
      readings := readings + 1;
    }

    method MarkDeleted(te: TimeEvent, ghost k: nat)
      requires Valid() && k < |list| && te == list[k]
      modifies te`id
      ensures Valid()
      ensures View(list) == old(View(list))[k := old(View(list))[k].(id := DELETED)]
    {
      hide Good;
      ghost var v := View(list);
      DeletedGood(v, nextId, readings, world, k);
      te.id := DELETED;
      assert View(list) == v[k := v[k].(id := DELETED)];
    }

    // The visit of a due timer: its callback, then re-armed or marked as deleted.
    method Fire(te: TimeEvent, ghost reading: nat, ghost k: nat)
      returns (ghost created: seq<TimeEvent>, ghost visit: Visit)
      requires Valid() && k < |list| && te == list[k]
      modifies this`head, this`nextId, this`list, this`readings, list
      ensures Valid() && list == created + old(list) && forall n :: n in created ==> fresh(n)
      ensures visit == Fired(old(te.id), reading, world.script(visits, old(te.id)), old(readings) + Creations(visit))
      ensures |created| == nextId - old(nextId) == Creations(visit)
      ensures readings == old(readings) + Takes(visit) - 1
      ensures var ran, at := Ran(old(View(list)), Actions(visit), old(nextId), old(readings), world), |created| + k;
        at < |ran| && View(list) == ran[at := After(ran[at], visit, world)]
    {
      hide Valid, View, Ran, Creates;
      var outcome := world.script(visits, te.id);
      ghost var id := te.id;
      created := RunActions(outcome.actions);
      visit := Fired(id, reading, outcome, readings);
      Holds(list, |created| + k);
      if outcome.retval != NOMORE {
        Rearm(te, outcome.retval, |created| + k);
      } else {
        MarkDeleted(te, |created| + k);
      }
    }

    // A pass is under way and is about to visit te, which comes after prev.
    // `looked` is 1 when the visit has already read the clock.
    ghost predicate Passing(p: Pass<TimeEvent>, te: TimeEvent?, prev: TimeEvent?, looked: nat)
      reads this, list
    {
      && Valid() && p.world == world && visits == p.first + |p.log|
      && readings == p.from + Taken(p.log) + looked && nextId == p.nextId + CreatedIn(p.log)
      && Visited(p, list, View(list))
      && te == Node(list, p.At()) && prev == if Kept(p.log) == 0 then null else list[p.At() - 1]
    }

    lemma NextIs(te: TimeEvent, k: nat)
      requires Valid() && k < |list| && te == list[k]
      ensures te.next == Node(list, k + 1)
    {
    }

    method VisitDeleted(te: TimeEvent, prev: TimeEvent?, ghost p: Pass<TimeEvent>)
      returns (next: TimeEvent?, ghost visit: Visit, ghost more: seq<TimeEvent>)
      requires Passing(p, te, prev, 0) && te.id == DELETED
      modifies this`head, this`list, this`nextId, this`readings, this`visits, list
      ensures visit.Removed? && Passing(p.Then(visit, more), next, prev, 0) && forall n :: n in more ==> fresh(n)
      ensures forall i :: 0 <= i < |list| ==> fresh(list[i]) || list[i] in old(list)
    {
      hide Valid, View, Visited, Creates, Taken, CreatedIn, Kept, Ran, p.Then;
      ghost var k, v, before := p.At(), View(list), list;
      visit := Removed(world.finalize(visits));
      Holds(list, k);
      NextIs(te, k);
      next := te.next;
      more := Remove(te, prev, k);
      VisitedRemoved(p, visit, before, v, more);
      ThenCounts(p, visit, more);
      AfterCut(p, before, k, visit, more);
      visits := visits + 1;
      forall i | 0 <= i < |list|
        ensures list[i] in more || list[i] in old(list)
      {
        InCut(more, before, k, prev == null, i);
      }
    }

    method VisitDue(te: TimeEvent, prev: TimeEvent?, ghost p: Pass<TimeEvent>)
      returns (ghost visit: Visit, ghost more: seq<TimeEvent>)
      requires Passing(p, te, prev, 1) && te.id != DELETED && Due(te.when, world.clock(readings - 1))
      modifies this`head, this`list, this`nextId, this`readings, this`visits, list
      ensures visit.Fired? && forall n :: n in more ==> fresh(n)
      ensures Passing(p.Then(visit, more), te.next, te, 0)
      ensures list == more + old(list)
    {
      hide Valid, View, Visited, Creations, Takes, Taken, CreatedIn, Kept, After, Ran, p.At, p.Then;
      ghost var k, v := p.At(), View(list);
      Holds(list, k);
      more, visit := Fire(te, readings - 1, k);
      VisitedFired(p, visit, old(list), v, more);
      ThenCounts(p, visit, more);
      visits := visits + 1;
      assert te == list[|more| + k];
      NextIs(te, |more| + k);
    }

    method VisitNotDue(te: TimeEvent, prev: TimeEvent?, ghost p: Pass<TimeEvent>)
      requires Passing(p, te, prev, 1) && te.id != DELETED && !Due(te.when, world.clock(readings - 1))
      modifies this`visits
      ensures Passing(p.Then(Skipped(readings - 1), []), te.next, te, 0)
    {
      hide Valid, View, Visited, Due, Taken, CreatedIn, Kept, Linked, Good, p.At, p.Then;
      ghost var visit := Skipped(readings - 1);
      Holds(list, p.At());
      ThenCounts(p, visit, []);
      VisitedSkipped(p, visit, list, View(list));
      visits := visits + 1;
      NextIs(te, p.At());
    }

    method VisitLive(te: TimeEvent, prev: TimeEvent?, ghost p: Pass<TimeEvent>)
      returns (fired: bool, ghost visit: Visit, ghost more: seq<TimeEvent>)
      requires Passing(p, te, prev, 0) && te.id != DELETED
      modifies this`head, this`list, this`nextId, this`readings, this`visits, list
      ensures fired == visit.Fired? && !visit.Removed? && forall n :: n in more ==> fresh(n)
      ensures Passing(p.Then(visit, more), te.next, te, 0)
      ensures list == more + old(list)
    {
      hide Valid, View, Visited, Due, p.At;
      var now := ReadClock();
      fired := Due(te.when, now);
      if fired {
        visit, more := VisitDue(te, prev, p);
      } else {
        visit, more := Skipped(readings - 1), [];
        VisitNotDue(te, prev, p);
      }
    }

    // A clock that ran backwards makes every timer due.
    method StepBack()
      requires Valid()
      modifies list
      ensures Valid() && View(list) == Rewound(old(View(list)))
    {
      hide Good, View, Linked, Rewound, RewoundFrom;
      ghost var v := View(list);
      RewoundGood(v, nextId, readings, world);
      RewoundEnds(v);
      RewindAll(head, list, v);
    }

    method VisitOne(te: TimeEvent, prev: TimeEvent?, maxId: int, ghost p: Pass<TimeEvent>)
      returns (next: TimeEvent?, last: TimeEvent?, fired: bool, ghost visit: Visit, ghost more: seq<TimeEvent>)
      requires Passing(p, te, prev, 0) && Ids(p.v, p.nextId) && maxId == p.nextId - 1
      modifies this`head, this`list, this`nextId, this`readings, this`visits, list
      ensures Passing(p.Then(visit, more), next, last, 0) && fired == visit.Fired?
      ensures forall n :: n in more ==> fresh(n)
      ensures forall i :: 0 <= i < |list| ==> list[i] in old(list) || fresh(list[i])
    {
      hide Valid, View, Visited, Ids, p.At;
      ReachedIsOld(p, list, View(list));
      if te.id == DELETED {
        next, visit, more := VisitDeleted(te, prev, p);
        last, fired := prev, false;
      } else if te.id > maxId {
        assert false;
      } else {
        fired, visit, more := VisitLive(te, prev, p);
        next, last := te.next, te;
        forall i | 0 <= i < |list|
          ensures list[i] in old(list) || fresh(list[i])
        {
          if i < |more| {
            assert list[i] == more[i] && more[i] in more;
          } else {
            assert list[i] == old(list)[i - |more|];
          }
        }
      }
    }

    method Traverse(ghost first: Pass<TimeEvent>) returns (processed: nat, ghost p: Pass<TimeEvent>)
      requires Valid() && first == Pass(View(list), list, visits, readings, nextId, world, [], [], [])
      modifies this`head, this`list, this`nextId, this`readings, this`visits, list
      ensures Valid() && Visited(p, list, View(list)) && |p.log| == |p.nodes|
      ensures p == first.(log := p.log, created := p.created, lost := p.lost) && processed == Fires(p.log)
      ensures forall n :: n in p.created || n in p.lost ==> fresh(n)
      ensures readings == p.from + Taken(p.log) && nextId == p.nextId + CreatedIn(p.log)
      ensures visits == p.first + |p.log|
    {
      hide View, Visited, Fires, Good, Kept, Linked, Taken, CreatedIn, Ids, p.Then, p.At;
      HoldsIds();
      VisitedNothing(first, list);
      p, processed := first, 0;
      var prev: TimeEvent? := null;
      var te := head;
      var maxId := nextId - 1;
      while te != null
        invariant Passing(p, te, prev, 0) && |p.log| <= |p.nodes|
        invariant p == first.(log := p.log, created := p.created, lost := p.lost)
        invariant processed == Fires(p.log)
        invariant forall i :: 0 <= i < |list| ==> list[i] in old(list) || fresh(list[i])
        invariant forall n :: n in p.created || n in p.lost ==> fresh(n)
        decreases |p.nodes| - |p.log|
      {
        ghost var visit, more;
        var fired;
        te, prev, fired, visit, more := VisitOne(te, prev, maxId, p);
        if fired {
          processed := processed + 1;
        }
        KeptStep(p.log, visit);
        ThenParts(p, visit, more);
        p := p.Then(visit, more);
        StillToVisit(p, list, View(list));
      }
      StillToVisit(p, list, View(list));
    }

    // A pass over the timers. What it did is told by its log, one visit for
    // each node that was there, and explained by what the node then held. No
    // timer fires before the delay is over with which it was armed last, unless
    // the clock was seen to run backwards since.
    method ProcessTimeEvents() returns (processed: nat, ghost p: Pass<TimeEvent>)
      requires Valid()
      modifies this`head, this`list, this`nextId, this`readings, this`visits, this`lastTime, list
      ensures Valid() && Visited(p, list, View(list)) && |p.log| == |p.nodes|
              && p.nodes == old(list) && p.world == world
      ensures lastTime == world.clock(old(readings)).sec
      ensures p.v == if lastTime < old(lastTime) then Rewound(old(View(list))) else old(View(list))
      ensures p.first == old(visits) && p.from == old(readings) + 1 && p.nextId == old(nextId)
      ensures readings == p.from + Taken(p.log) && nextId == p.nextId + CreatedIn(p.log)
      ensures visits == p.first + |p.log|
      ensures processed == Fires(p.log)
      ensures forall n :: n in p.created || n in p.lost ==> fresh(n)
      ensures Sound(p.v, p.from, world)
      ensures p.lost == [] <==> !Loses(old(View(list)), old(visits), world)
    {
      hide Valid, View, Visited, Fires, Loses;
      ghost var v := View(list);
      var now := ReadClock();
      if now.sec < lastTime {
        StepBack();
      }
      lastTime := now.sec;
      HoldsSound();
      processed, p := Traverse(Pass(View(list), list, visits, readings, nextId, world, [], [], []));
      LosesRewound(v, p.first, world);
      NothingLost(p);
    }

    lemma NothingLost(p: Pass<TimeEvent>)
      requires Visited(p, list, View(list)) && |p.log| == |p.nodes|
      ensures p.lost == [] <==> !Loses(p.v, p.first, p.world)
    {
      hide Explained, Loses;
      LostExactly(p.v, p.log, p.first, p.from, p.world);
    }

    lemma HoldsSound()
      requires Valid()
      ensures Sound(View(list), readings, world)
    {
    }

    lemma HoldsIds()
      requires Valid()
      ensures Ids(View(list), nextId)
    {
    }

    // The first of the timers with the earliest time, deleted ones included.
    method SearchNearestTimer() returns (nearest: TimeEvent?, ghost at: nat)
      requires Valid()
      ensures nearest == null <==> list == []
      ensures nearest != null ==> at < |list| && nearest == list[at] && IsNearest(View(list), at)
    {
      hide Good;
      nearest, at := null, 0;
      var te := head;
      ghost var i := 0;
      while te != null
        invariant 0 <= i <= |list| && te == Node(list, i)
        invariant nearest == null <==> i == 0
        invariant nearest != null ==> at < |list| && nearest == list[at]
        invariant nearest != null ==> forall j :: 0 <= j < i ==> !Before(list[j].when, nearest.when)
        decreases |list| - i
      {
        if nearest == null || Before(te.when, nearest.when) {
          nearest, at := te, i;
        }
        te := te.next;
        i := i + 1;
      }
    }

    // The timeout of a poll: it blocks only without timers to wait for. The
    // sleep ends with the nearest deadline, and respects all of them exactly
    // unless it is misled, which takes a clock that stepped back.
    method PollTimeout(timeEvents: bool, dontWait: bool) returns (wait: Wait)
      requires Valid()
      modifies this`readings
      ensures Valid() && (wait.Forever? <==> !dontWait && (timeEvents ==> list == []))
      ensures dontWait ==> wait == AtMost(0, 0)
      ensures wait.AtMost? ==> 0 <= wait.sec && 0 <= wait.usec < 1000000
      ensures wait.AtMost? && !dontWait ==>
        (Respects(wait, View(list), world.clock(old(readings))) <==> !Misled(View(list), world.clock(old(readings))))
      ensures wait.AtMost? && !dontWait ==>
        exists i :: 0 <= i < |list| && Sleep(wait) == Remains(View(list)[i].when, world.clock(old(readings)))
      ensures Steady(View(list), world.clock(old(readings)), world) ==> !Misled(View(list), world.clock(old(readings)))
    {
      hide Misled, Respects, Good, WaitFor, Remains, Steady, Linked;
      HoldsSound();
      ghost var v, now0 := View(list), world.clock(readings);
      if Steady(v, now0, world) {
        NotMisled(v, readings, now0, world);
      }
      var shortest: TimeEvent? := null;
      ghost var i: nat := 0;
      if timeEvents && !dontWait {
        shortest, i := SearchNearestTimer();
      }
      if shortest != null {
        var now := ReadClock();
        wait := WaitFor(shortest.when, now);
        RespectsUnlessMisled(v, i, now);
        WaitsExactly(v[i].when, now);
      } else if dontWait {
        wait := AtMost(0, 0);
      } else {
        wait := Forever;
      }
    }
  }

  lemma OnlyOne(v: seq<Entry>, nextId: int, readings: nat, world: World, i: nat)
    requires Good(v, nextId, readings, world) && i < |v|
    ensures Marked(v, {v[i].id}) == v[i := v[i].(id := DELETED)]
  {
    hide Sound;
  }

  lemma InCut(more: seq<TimeEvent>, list: seq<TimeEvent>, k: nat, first: bool, i: nat)
    requires k < |list| && i < |more + Cut(list, k, first)|
    ensures (more + Cut(list, k, first))[i] in more || (more + Cut(list, k, first))[i] in list
  {
  }

  // What cutting the k-th node leaves at the places around it.
  lemma AfterCut(p: Pass<TimeEvent>, list: seq<TimeEvent>, k: nat, visit: Visit, more: seq<TimeEvent>)
    requires k == p.At() < |list| && visit.Removed? && |p.created| <= k
    ensures var after, at := more + Cut(list, k, Kept(p.log) == 0), |more| + if Kept(p.log) == 0 then 0 else k;
      Node(after, at) == Node(list, k + 1) && (Kept(p.log) > 0 ==> after[at - 1] == list[k - 1])
  {
  }
}
