/** The epsilon-closure of a set of states: the least superset that is closed
    under epsilon entries, which is also the set of states reachable from the
    given ones by chains of epsilon entries. */
module EpsilonClosure {
  import opened Transitions

  /** The destinations of q's epsilon entry, if it has one. */
  function EpsTargets(t: Table, q: State): seq<State>
  {
    Dests(t, q, EPSILON)
  }

  /** No epsilon entry leads out of s. */
  ghost predicate EpsClosed(t: Table, s: set<State>)
  {
    forall q, r :: q in s && r in EpsTargets(t, q) ==> r in s
  }

  /** The closure as a fixpoint: keep adding one epsilon step until nothing
      new appears. Every step stays inside x + Targets(t), which bounds it. */
  function Closure(t: Table, x: set<State>): (c: set<State>)
    ensures x <= c
    ensures EpsClosed(t, c)
    ensures c <= x + Targets(t)
    decreases |x + Targets(t)| - |x|
  {
    var y := x + Post(t, x, EPSILON);
    if y == x then
      x
    else
      PostWithinTargets(t, x, EPSILON);
      assert y + Targets(t) == x + Targets(t);
      CardStrictSubset(x, y);
      CardSubset(y, y + Targets(t));
      Closure(t, y)
  }

  /** Growing c inside u shrinks what is left of u. */
  lemma RemainderShrinks<T>(u: set<T>, c0: set<T>, c: set<T>)
    requires c0 <= c <= u && c0 != c
    ensures |u - c| < |u - c0|
  {
    CardStrictSubset(u - c, u - c0);
  }

  lemma CardSubset<T>(a: set<T>, b: set<T>)
    requires a <= b
    ensures |a| <= |b|
  {
    assert b == a + (b - a);
  }

  lemma CardStrictSubset<T>(a: set<T>, b: set<T>)
    requires a <= b && a != b
    ensures |a| < |b|
  {
    assert b == a + (b - a);
  }

  /** One step of the fixpoint: either x is already closed and is its own
      closure, or the step adds something, leaves the closure unchanged and
      brings the iteration closer to its bound. */
  lemma ClosureUnfold(t: Table, x: set<State>)
    ensures var y := x + Post(t, x, EPSILON);
      && (y == x ==> Closure(t, x) == x)
      && (y != x ==> Closure(t, x) == Closure(t, y) && |y + Targets(t)| - |y| < |x + Targets(t)| - |x|)
    ensures |x| <= |x + Targets(t)|
  {
    var y := x + Post(t, x, EPSILON);
    CardSubset(x, x + Targets(t));
    if y != x {
      PostWithinTargets(t, x, EPSILON);
      assert y + Targets(t) == x + Targets(t);
      CardStrictSubset(x, y);
      CardSubset(y, y + Targets(t));
    }
  }

  /** One epsilon step from inside a closed set stays inside it. */
  lemma PostInsideClosed(t: Table, x: set<State>, s: set<State>)
    requires x <= s && EpsClosed(t, s)
    ensures Post(t, x, EPSILON) <= s
  {
  }

  /** The closure is the LEAST closed superset: it lies inside every closed
      set that contains x. */
  lemma {:induction false} ClosureLeast(t: Table, x: set<State>, s: set<State>)
    requires x <= s && EpsClosed(t, s)
    ensures Closure(t, x) <= s
    decreases |x + Targets(t)| - |x|
  {
    var y := x + Post(t, x, EPSILON);
    ClosureUnfold(t, x);
    if y != x {
      PostInsideClosed(t, x, s);
      ClosureLeast(t, y, s);
    }
  }

  /** A set that is already closed is its own closure. */
  lemma ClosureOfClosed(t: Table, s: set<State>)
    requires EpsClosed(t, s)
    ensures Closure(t, s) == s
  {
    ClosureLeast(t, s, s);
  }

  /** Closing twice is closing once. */
  lemma ClosureIdempotent(t: Table, x: set<State>)
    ensures Closure(t, Closure(t, x)) == Closure(t, x)
  {
    ClosureOfClosed(t, Closure(t, x));
  }

  /** A larger starting set never has a smaller closure. */
  lemma ClosureMonotonic(t: Table, x: set<State>, y: set<State>)
    requires x <= y
    ensures Closure(t, x) <= Closure(t, y)
  {
    ClosureLeast(t, x, Closure(t, y));
  }

  lemma ClosureOfEmpty(t: Table)
    ensures Closure(t, {}) == {}
  {
    ClosureLeast(t, {}, {});
  }

  /** Without epsilon entries every set is its own closure, whatever the
      other entries hold. */
  lemma ClosureWithoutEpsilon(t: Table, x: set<State>)
    requires forall q :: q in t ==> EPSILON !in t[q]
    ensures Closure(t, x) == x
  {
    forall q | q in x
      ensures EpsTargets(t, q) == []
    {
    }
    ClosureOfClosed(t, x);
  }

  /** p is a chain of epsilon entries: each state is an epsilon destination
      of the one before it. */
  ghost predicate EpsPath(t: Table, p: seq<State>)
  {
    |p| >= 1 && forall i :: 0 <= i < |p| - 1 ==> p[i + 1] in EpsTargets(t, p[i])
  }

  /** r is reached from some member of x by a chain of epsilon entries. */
  ghost predicate EpsReaches(t: Table, x: set<State>, r: State)
  {
    exists p :: EpsPath(t, p) && p[0] in x && p[|p| - 1] == r
  }

  /** Every chain of epsilon entries that starts in x ends in the closure of x. */
  lemma {:induction false} PathEndsInClosure(t: Table, x: set<State>, p: seq<State>)
    requires EpsPath(t, p) && p[0] in x
    ensures p[|p| - 1] in Closure(t, x)
    decreases |p|
  {
    if |p| > 1 {
      var p' := p[..|p| - 1];
      assert EpsPath(t, p');
      PathEndsInClosure(t, x, p');
      assert p[|p| - 1] in EpsTargets(t, p'[|p'| - 1]);
    }
  }

  /** Everything the closure adds is reached by a chain of epsilon entries
      from x: the closure holds no unreachable state. */
  lemma ClosureOnlyReachable(t: Table, x: set<State>, r: State)
    requires r in Closure(t, x)
    ensures EpsReaches(t, x, r)
  {
    forall q | q in x
      ensures EpsReaches(t, x, q)
    {
      assert EpsPath(t, [q]);
    }
    ReachableClosure(t, x, x, r);
  }

  /** A chain to q followed by one epsilon entry from q is a chain to r. */
  lemma ExtendReach(t: Table, x0: set<State>, q: State, r: State)
    requires EpsReaches(t, x0, q) && r in EpsTargets(t, q)
    ensures EpsReaches(t, x0, r)
  {
    var p :| EpsPath(t, p) && p[0] in x0 && p[|p| - 1] == q;
    var p' := p + [r];
    assert EpsPath(t, p');
    assert p'[0] in x0 && p'[|p'| - 1] == r;
  }

  /** One epsilon step from reachable states reaches only reachable states. */
  lemma StepReaches(t: Table, x0: set<State>, x: set<State>)
    requires forall q :: q in x ==> EpsReaches(t, x0, q)
    ensures forall r :: r in Post(t, x, EPSILON) ==> EpsReaches(t, x0, r)
  {
    forall r | r in Post(t, x, EPSILON)
      ensures EpsReaches(t, x0, r)
    {
      var q :| q in x && r in Dests(t, q, EPSILON);
      ExtendReach(t, x0, q, r);
    }
  }

  lemma {:induction false} ReachableClosure(t: Table, x0: set<State>, x: set<State>, r: State)
    requires forall q :: q in x ==> EpsReaches(t, x0, q)
    requires r in Closure(t, x)
    ensures EpsReaches(t, x0, r)
    decreases |x + Targets(t)| - |x|
  {
    var y := x + Post(t, x, EPSILON);
    ClosureUnfold(t, x);
    if y != x {
      StepReaches(t, x0, x);
      ReachableClosure(t, x0, y, r);
    }
  }

  /** Membership in the closure is exactly epsilon-reachability. */
  lemma ClosureIsReachability(t: Table, x: set<State>, r: State)
    ensures r in Closure(t, x) <==> EpsReaches(t, x, r)
  {
    if r in Closure(t, x) {
      ClosureOnlyReachable(t, x, r);
    }
    if EpsReaches(t, x, r) {
      var p :| EpsPath(t, p) && p[0] in x && p[|p| - 1] == r;
      PathEndsInClosure(t, x, p);
    }
  }
}
