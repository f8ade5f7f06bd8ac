/** Which input strings an automaton accepts, using the "set of current
    states" reading that covers DFA, NFA and epsilon-NFA alike. Input strings
    are read one character at a time; character c stands for the symbol [c]. */
module Acceptance {
  import opened Transitions
  import opened EpsilonClosure
  import opened Classification

  /** The characters of w that are not alphabet symbols. A symbol of more
      than one character can never be matched by a single character. */
  function InvalidSymbols(alphabet: seq<Symbol>, w: string): (bad: set<char>)
    ensures forall c :: c in bad <==> c in w && [c] !in alphabet
  {
    set c | c in w && [c] !in alphabet
  }

  /** The current set after reading c from s: every destination of a
      c-entry of a member of s, closed under epsilon. */
  function Next(t: Table, s: set<State>, c: char): set<State>
  {
    Closure(t, Post(t, s, [c]))
  }

  /** The current set after reading all of w from s. */
  function Run(t: Table, s: set<State>, w: string): set<State>
  {
    if w == [] then s else Next(t, Run(t, s, w[..|w| - 1]), w[|w| - 1])
  }

  /** w is accepted when the run from the closure of the start state ends
      in a set that meets the accepting states. */
  predicate Accepts(t: Table, start: State, accept: set<State>, w: string)
  {
    Run(t, Closure(t, {start}), w) * accept != {}
  }

  /** The empty string is accepted exactly when the epsilon-closure of the
      start state holds an accepting state. */
  lemma AcceptsEmpty(t: Table, start: State, accept: set<State>)
    ensures Accepts(t, start, accept, []) <==> Closure(t, {start}) * accept != {}
  {
  }

  /** Reading one more character replaces the current set by the closure of
      that character's destinations from it. */
  lemma RunPrefixStep(t: Table, s: set<State>, w: string, i: nat)
    requires i < |w|
    ensures Run(t, s, w[..i + 1]) == Closure(t, Post(t, Run(t, s, w[..i]), [w[i]]))
  {
    assert w[..i + 1][..i] == w[..i];
  }

  /** Once the current set is empty it stays empty, so stopping early with a
      rejection gives the same verdict as reading the rest of the input. */
  lemma {:induction false} RunStaysEmpty(t: Table, s: set<State>, w: string, i: nat)
    requires i <= |w| && Run(t, s, w[..i]) == {}
    ensures Run(t, s, w) == {}
    decreases |w| - i
  {
    if i < |w| {
      assert w[..i + 1][..i] == w[..i];
      PostOfEmpty(t, [w[i]]);
      ClosureOfEmpty(t);
      RunStaysEmpty(t, s, w, i + 1);
    } else {
      assert w[..i] == w;
    }
  }

  /** From at most one state, a deterministic table leads to at most one state. */
  lemma PostAtMostOne(t: Table, s: set<State>, a: Symbol)
    requires Deterministic(t) && |s| <= 1
    ensures |Post(t, s, a)| <= 1
  {
    if s == {} {
      PostOfEmpty(t, a);
    } else {
      var q :| q in s;
      if s != {q} {
        var q2 :| q2 in s && q2 != q;
        CardSubset({q, q2}, s);
        assert false;
      }
      var ds := Dests(t, q, a);
      if ds == [] {
        assert Post(t, s, a) == {};
      } else {
        assert ds == [ds[0]];
        assert Post(t, s, a) <= {ds[0]};
        CardSubset(Post(t, s, a), {ds[0]});
      }
    }
  }

  /** Run from at most one state over a deterministic table never holds
      more than one state: the set-of-states simulation of a DFA tracks a
      single state, or none once a move is missing. */
  lemma {:induction false} RunAtMostOne(t: Table, s: set<State>, w: string)
    requires Deterministic(t) && |s| <= 1
    ensures |Run(t, s, w)| <= 1
  {
    if w != [] {
      var prev := Run(t, s, w[..|w| - 1]);
      RunAtMostOne(t, s, w[..|w| - 1]);
      PostAtMostOne(t, prev, [w[|w| - 1]]);
      ClosureWithoutEpsilon(t, Post(t, prev, [w[|w| - 1]]));
    }
  }

  /** An automaton classified as a DFA, whose table has rows only for listed
      states, is in at most one state at every point of a simulation. */
  lemma DfaRunTracksOneState(states: seq<State>, alphabet: seq<Symbol>, t: Table, accept: set<State>,
                             start: State, w: string)
    requires IsDfa(states, alphabet, t, accept)
    requires forall q :: q in t ==> q in states
    ensures |Run(t, Closure(t, {start}), w)| <= 1
  {
    DfaIsDeterministic(states, alphabet, t, accept);
    ClosureWithoutEpsilon(t, {start});
    RunAtMostOne(t, {start}, w);
  }
}
