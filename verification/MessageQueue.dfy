/** The ring queue that doubles when it is full. */
module MessageQueue {

  // The entries from `head` to `tail`, around the end of the ring.
  function Ring<T>(q: seq<T>, head: nat, tail: nat): (r: seq<T>)
    requires head <= |q| && tail <= |q|
    ensures |r| == if head <= tail then tail - head else tail + |q| - head
  {
    if head <= tail then q[head..tail] else q[head..] + q[..tail]
  }

  class Queue<T(0)> {
    var head: nat
    var tail: nat
    var cap: nat
    var q: array<T>

    ghost predicate Valid()
      reads this
    {
      cap > 0 && q.Length == cap && head < cap && tail < cap
    }

    ghost function Contents(): seq<T>
      requires Valid()
      reads this, q
    {
      Ring(q[..], head, tail)
    }

    constructor (cap: nat)
      requires cap > 0
      ensures Valid() && fresh(q) && Contents() == [] && this.cap == cap
    {
      head, tail, this.cap := 0, 0, cap;
      q := new T[cap];
    }

    method Count() returns (n: nat)
      requires Valid()
      ensures n == |Contents()|
    {
      if head <= tail {
        n := tail - head;
      } else {
        n := tail + cap - head;
      }
    }

    // Called on a full ring, when head and tail have met.
    method Expand()
      requires Valid() && head == tail
      modifies this
      ensures Valid() && fresh(q) && cap == 2 * old(cap)
      ensures Contents() == old(q[head..]) + old(q[..head])
    {
      var nq := new T[cap * 2];
      ghost var full := q[head..] + q[..head];
      var i := 0;
      while i < cap
        invariant unchanged(this) && unchanged(q) && 0 <= i <= cap
        invariant nq[..i] == full[..i]
      {
        Wraps(head, i, cap);
        assert full[i] == q[(head + i) % cap];
        nq[i] := q[(head + i) % cap];
        assert full[..i + 1] == full[..i] + [full[i]];
        i := i + 1;
      }
      head := 0;
      tail := cap;
      cap := cap * 2;
      q := nq;
      assert full[..old(cap)] == full;
    }

    // Appends; the ring doubles exactly when the push fills its last slot.
    method Push(msg: T)
      requires Valid()
      modifies this, q
      ensures Valid() && Contents() == old(Contents()) + [msg]
      ensures cap == if |old(Contents())| + 1 == old(cap) then 2 * old(cap) else old(cap)
      ensures q == old(q) || fresh(q)
    {
      ghost var before, q' := Contents(), q[..][tail := msg];
      q[tail] := msg;
      assert q[..] == q';
      assert (if head <= tail then q'[head..tail + 1] else q'[head..] + q'[..tail + 1]) == before + [msg];
      tail := tail + 1;
      if tail >= cap {
        tail := 0;
      }
      if head == tail {
        assert q'[head..] + q'[..head] == before + [msg];
        Expand();
      }
    }

    // Takes the oldest entry; an empty queue stays as it is.
    method Pop() returns (ret: bool, msg: T)
      requires Valid()
      modifies this`head
      ensures Valid() && (ret <==> old(Contents()) != [])
      ensures if ret then old(Contents()) == [msg] + Contents() else Contents() == old(Contents())
    {
      ghost var before := Contents();
      ret := false;
      msg := q[0];
      if head != tail {
        msg := q[head];
        head := head + 1;
        ret := true;
        if head >= cap {
          head := 0;
        }
        assert before[0] == msg;
        assert Contents() == before[1..];
      }
    }
  }

  lemma Wraps(head: nat, i: nat, cap: nat)
    requires head < cap && i < cap
    ensures (head + i) % cap == if head + i < cap then head + i else head + i - cap
  {
  }
}
