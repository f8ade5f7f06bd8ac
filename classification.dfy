/** Classifying an automaton as DFA, NFA or epsilon-NFA, and the list of
    violations that DFA validation reports. */
module Classification {
  import opened Transitions

  /** Some listed state has an epsilon entry. */
  predicate HasEpsilonEntry(states: seq<State>, t: Table)
  {
    exists q :: q in states && q in t && EPSILON in t[q]
  }

  /** Some listed state has an entry with more than one destination. */
  predicate HasMultiEntry(states: seq<State>, t: Table)
  {
    exists q, a :: q in states && q in t && a in t[q] && |t[q][a]| > 1
  }

  /** Every listed state that is not accepting has a row, and that row has an
      entry for every alphabet symbol. Accepting states are exempt. */
  predicate CompleteOutsideAccept(states: seq<State>, alphabet: seq<Symbol>, t: Table, accept: set<State>)
  {
    forall q :: q in states && q !in accept ==> q in t && forall a :: a in alphabet ==> a in t[q]
  }

  /** What the automaton's DFA flag is computed to be. */
  predicate IsDfa(states: seq<State>, alphabet: seq<Symbol>, t: Table, accept: set<State>)
  {
    !HasEpsilonEntry(states, t) && !HasMultiEntry(states, t) && CompleteOutsideAccept(states, alphabet, t, accept)
  }

  /** When every row of the table belongs to a listed state, a table that
      is classified as a DFA determines every move. */
  lemma DfaIsDeterministic(states: seq<State>, alphabet: seq<Symbol>, t: Table, accept: set<State>)
    requires IsDfa(states, alphabet, t, accept)
    requires forall q :: q in t ==> q in states
    ensures Deterministic(t)
  {
    forall q, a | q in t && a in t[q]
      ensures a != EPSILON && |t[q][a]| <= 1
    {
      assert q in states;
    }
  }

  datatype Kind = DFA | NFA | EpsilonNFA

  /** The label shown for an automaton whose DFA flag is `isDfa`. */
  function KindOf(states: seq<State>, alphabet: seq<Symbol>, t: Table, accept: set<State>, isDfa: bool): (k: Kind)
    requires isDfa == IsDfa(states, alphabet, t, accept)
    ensures k == EpsilonNFA <==> HasEpsilonEntry(states, t)
    ensures k == NFA <==> !HasEpsilonEntry(states, t) && (HasMultiEntry(states, t) || !CompleteOutsideAccept(states, alphabet, t, accept))
    ensures k == DFA <==> !HasEpsilonEntry(states, t) && !HasMultiEntry(states, t) && CompleteOutsideAccept(states, alphabet, t, accept)
  {
    if isDfa then DFA
    else if HasEpsilonEntry(states, t) then EpsilonNFA
    else NFA
  }

  /** One offending (state, symbol) pair of DFA validation. */
  datatype Violation =
    | Missing(state: State, symbol: Symbol)    // no entry at all
    | NotSingle(state: State, symbol: Symbol)  // an entry whose list length is not 1

  /** (q, a) does not have exactly one destination. */
  predicate BadPair(t: Table, q: State, a: Symbol)
  {
    q !in t || a !in t[q] || |t[q][a]| != 1
  }

  /** The violation that validation reports for a bad pair. */
  function ViolationFor(t: Table, q: State, a: Symbol): Violation
  {
    if q !in t || a !in t[q] then Missing(q, a) else NotSingle(q, a)
  }

  /** What validation reports for one pair: its violation if it is bad,
      nothing otherwise. */
  function PairViolations(t: Table, q: State, a: Symbol): seq<Violation>
  {
    if BadPair(t, q, a) then [ViolationFor(t, q, a)] else []
  }

  /** The violations of one non-accepting state for the first m symbols of
      the alphabet, in alphabet order. */
  function StateViolationsUpTo(t: Table, q: State, alphabet: seq<Symbol>, m: nat): seq<Violation>
    requires m <= |alphabet|
  {
    if m == 0 then []
    else StateViolationsUpTo(t, q, alphabet, m - 1) + PairViolations(t, q, alphabet[m - 1])
  }

  function StateViolations(t: Table, q: State, alphabet: seq<Symbol>): seq<Violation>
  {
    StateViolationsUpTo(t, q, alphabet, |alphabet|)
  }

  /** The violations of the first n listed states, in state order and then
      alphabet order; accepting states contribute none. */
  function ViolationsUpTo(states: seq<State>, alphabet: seq<Symbol>, t: Table, accept: set<State>, n: nat): seq<Violation>
    requires n <= |states|
  {
    if n == 0 then []
    else
      ViolationsUpTo(states, alphabet, t, accept, n - 1)
        + (if states[n - 1] in accept then [] else StateViolations(t, states[n - 1], alphabet))
  }

  /** Every violation DFA validation reports. */
  function Violations(states: seq<State>, alphabet: seq<Symbol>, t: Table, accept: set<State>): seq<Violation>
  {
    ViolationsUpTo(states, alphabet, t, accept, |states|)
  }

  /** A state without a row gets one Missing violation per symbol. */
  lemma {:induction false} StateViolationsWithoutRow(t: Table, q: State, alphabet: seq<Symbol>, m: nat)
    requires q !in t && m <= |alphabet|
    ensures StateViolationsUpTo(t, q, alphabet, m) == seq(m, k requires 0 <= k < m => Missing(q, alphabet[k]))
  {
    if m > 0 {
      StateViolationsWithoutRow(t, q, alphabet, m - 1);
    }
  }

  lemma {:induction false} StateViolationsExact(t: Table, q: State, alphabet: seq<Symbol>, m: nat)
    requires m <= |alphabet|
    ensures forall v :: v in StateViolationsUpTo(t, q, alphabet, m) ==>
      v.state == q && v.symbol in alphabet[..m] && BadPair(t, q, v.symbol) && v == ViolationFor(t, q, v.symbol)
    ensures forall a :: a in alphabet[..m] && BadPair(t, q, a) ==> ViolationFor(t, q, a) in StateViolationsUpTo(t, q, alphabet, m)
  {
    if m > 0 {
      StateViolationsExact(t, q, alphabet, m - 1);
      assert alphabet[..m] == alphabet[..m - 1] + [alphabet[m - 1]];
    }
  }

  lemma {:induction false} ViolationsUpToExact(states: seq<State>, alphabet: seq<Symbol>, t: Table, accept: set<State>, n: nat)
    requires n <= |states|
    ensures forall v :: v in ViolationsUpTo(states, alphabet, t, accept, n) ==>
      v.state in states[..n] && v.state !in accept && v.symbol in alphabet
      && BadPair(t, v.state, v.symbol) && v == ViolationFor(t, v.state, v.symbol)
    ensures forall q, a :: q in states[..n] && q !in accept && a in alphabet && BadPair(t, q, a) ==>
      ViolationFor(t, q, a) in ViolationsUpTo(states, alphabet, t, accept, n)
  {
    if n > 0 {
      ViolationsUpToExact(states, alphabet, t, accept, n - 1);
      StateViolationsExact(t, states[n - 1], alphabet, |alphabet|);
      assert alphabet[..|alphabet|] == alphabet;
      assert states[..n] == states[..n - 1] + [states[n - 1]];
    }
  }

  /** Validation collects every bad pair and nothing else: a violation is
      reported exactly for each non-accepting listed state and alphabet
      symbol whose entry is missing or does not hold exactly one destination. */
  lemma ViolationsExact(states: seq<State>, alphabet: seq<Symbol>, t: Table, accept: set<State>)
    ensures forall v :: v in Violations(states, alphabet, t, accept) ==>
      v.state in states && v.state !in accept && v.symbol in alphabet
      && BadPair(t, v.state, v.symbol) && v == ViolationFor(t, v.state, v.symbol)
    ensures forall q, a :: q in states && q !in accept && a in alphabet && BadPair(t, q, a) ==>
      ViolationFor(t, q, a) in Violations(states, alphabet, t, accept)
  {
    ViolationsUpToExact(states, alphabet, t, accept, |states|);
    assert states[..|states|] == states;
  }

  /** Validation reports nothing exactly when every non-accepting listed state
      has exactly one destination for every alphabet symbol. */
  lemma NoViolationsIff(states: seq<State>, alphabet: seq<Symbol>, t: Table, accept: set<State>)
    ensures Violations(states, alphabet, t, accept) == [] <==>
      forall q, a :: q in states && q !in accept && a in alphabet ==> !BadPair(t, q, a)
  {
    ViolationsExact(states, alphabet, t, accept);
    if Violations(states, alphabet, t, accept) != [] {
      var v := Violations(states, alphabet, t, accept)[0];
      assert v in Violations(states, alphabet, t, accept);
    }
  }

  /** No entry of the table has an empty destination list. */
  ghost predicate NoEmptyLists(t: Table)
  {
    forall q, a :: q in t && a in t[q] ==> t[q][a] != []
  }

  /** Once the automaton is classified as a DFA, validation can only fail on
      an entry whose destination list is empty. */
  lemma DfaViolationsOnlyEmpty(states: seq<State>, alphabet: seq<Symbol>, t: Table, accept: set<State>)
    requires IsDfa(states, alphabet, t, accept)
    ensures Violations(states, alphabet, t, accept) != [] <==>
      exists q, a :: q in states && q !in accept && a in alphabet && q in t && a in t[q] && t[q][a] == []
  {
    NoViolationsIff(states, alphabet, t, accept);
    if Violations(states, alphabet, t, accept) != [] {
      var q, a :| q in states && q !in accept && a in alphabet && BadPair(t, q, a);
      assert q in t && a in t[q] && |t[q][a]| <= 1;
    }
  }

  /** Hence a DFA whose table has no empty list always passes validation. */
  lemma DfaWithoutEmptyListsValid(states: seq<State>, alphabet: seq<Symbol>, t: Table, accept: set<State>)
    requires IsDfa(states, alphabet, t, accept) && NoEmptyLists(t)
    ensures Violations(states, alphabet, t, accept) == []
  {
    DfaViolationsOnlyEmpty(states, alphabet, t, accept);
  }
}
