/** How many threads are at which place: the bookkeeping that both monitors share. */
module Counting {

  function Where<P(==)>(w: map<nat, P>, p: P): set<nat> {
    set t | t in w && w[t] == p
  }

  function Count<P(==)>(w: map<nat, P>, p: P): nat {
    |Where(w, p)|
  }

  // Moving one thread changes the count of the place it leaves and of the
  // place it goes to.
  lemma MoveCounts<P>(w: map<nat, P>, t: nat, p: P, x: P)
    requires t in w
    ensures Count(w[t := p], x) == Count(w, x) - (if w[t] == x then 1 else 0) + (if p == x then 1 else 0)
  {
    assert Where(w[t := p], x) == (Where(w, x) - {t}) + if p == x then {t} else {};
    assert t in Where(w, x) <==> w[t] == x;
  }

  lemma CountZero<P>(w: map<nat, P>, x: P)
    ensures Count(w, x) == 0 <==> forall t :: t in w ==> w[t] != x
  {
    if t :| t in w && w[t] == x {
      assert t in Where(w, x);
    } else {
      assert Where(w, x) == {};
    }
  }
}
