/** The transition table of a finite automaton and the queries every other
    part of the model makes of it. */
module Transitions {

  /** States are opaque labels; equality is equality of labels. */
  type State = string

  /** An alphabet symbol, or the reserved epsilon key. */
  type Symbol = string

  /** state -> symbol -> destination list. The lists are lists, not sets:
      an entry written twice holds the same destination twice. */
  type Table = map<State, map<Symbol, seq<State>>>

  /** The only key that stands for an epsilon move inside the table. */
  const EPSILON: Symbol := "ε"

  /** The destination list of (q, a), or the empty list when there is no entry. */
  function Dests(t: Table, q: State, a: Symbol): (ds: seq<State>)
    ensures ds != [] ==> q in t && a in t[q] && ds == t[q][a]
    ensures q in t && a in t[q] ==> ds == t[q][a]
  {
    if q in t && a in t[q] then t[q][a] else []
  }

  /** Every state reached from a member of `s` by one `a`-labelled entry. */
  function Post(t: Table, s: set<State>, a: Symbol): (p: set<State>)
    ensures forall q, r :: q in s && r in Dests(t, q, a) ==> r in p
    ensures forall r :: r in p ==> exists q :: q in s && r in Dests(t, q, a)
  {
    set q, r | q in s && r in Dests(t, q, a) :: r
  }

  /** Every state named as a destination anywhere in the table. */
  function Targets(t: Table): set<State>
  {
    set q, a, r | q in t && a in t[q] && r in t[q][a] :: r
  }

  lemma DestInTargets(t: Table, q: State, a: Symbol, r: State)
    requires r in Dests(t, q, a)
    ensures r in Targets(t)
  {
    assert q in t && a in t[q] && r in t[q][a];
  }

  lemma PostWithinTargets(t: Table, s: set<State>, a: Symbol)
    ensures Post(t, s, a) <= Targets(t)
  {
    forall r | r in Post(t, s, a)
      ensures r in Targets(t)
    {
      var q :| q in s && r in Dests(t, q, a);
      assert q in t && a in t[q] && r in t[q][a];
    }
  }

  lemma PostOfEmpty(t: Table, a: Symbol)
    ensures Post(t, {}, a) == {}
  {
  }

  /** Taking one more source state adds exactly its own destinations. */
  lemma PostAddOne(t: Table, s: set<State>, q: State, a: Symbol)
    ensures Post(t, s + {q}, a) == Post(t, s, a) + (set r | r in Dests(t, q, a))
  {
  }

  /** No entry is an epsilon entry and no entry has more than one
      destination: a table where every move is determined. */
  ghost predicate Deterministic(t: Table)
  {
    forall q, a :: q in t && a in t[q] ==> a != EPSILON && |t[q][a]| <= 1
  }
}
