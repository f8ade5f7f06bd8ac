/** The automaton object: five defining fields fixed at construction, the DFA
    flag computed once by the constructor, and the read-only operations that
    classify, validate and simulate. */
module Automaton {
  import opened Results
  import opened Transitions
  import opened EpsilonClosure
  import opened Classification
  import opened Acceptance

  /** What the input form guarantees before an automaton is built: non-empty
      states, alphabet and accepting states, a listed start state, and
      accepting states drawn from the listed ones. */
  predicate BasicInputs(states: seq<State>, alphabet: seq<Symbol>, start: State, accept: set<State>)
  {
    |states| > 0 && |alphabet| > 0 && start in states && accept != {} && forall q :: q in accept ==> q in states
  }

  class FiniteAutomaton {
    const states: seq<State>
    const alphabet: seq<Symbol>
    const transitions: Table
    const startState: State
    const acceptStates: set<State>
    /** Computed once by the constructor. */
    const isDfa: bool

    /** Stores the fields and computes the DFA flag. Validation, which may
        raise, is done by NewFiniteAutomaton. */
    constructor (states: seq<State>, alphabet: seq<Symbol>, transitions: Table, startState: State, acceptStates: set<State>)
      requires BasicInputs(states, alphabet, startState, acceptStates)
      ensures this.states == states && this.alphabet == alphabet && this.transitions == transitions
      ensures this.startState == startState && this.acceptStates == acceptStates
      ensures isDfa == IsDfa(states, alphabet, transitions, acceptStates)
    {
      this.states := states;
      this.alphabet := alphabet;
      this.transitions := transitions;
      this.startState := startState;
      var dfa := CheckIfDfa(states, alphabet, transitions, acceptStates);
      this.acceptStates := acceptStates;
      isDfa := dfa;
    }

    /** Skips NFAs; for a DFA, collects a violation for every non-accepting
        state and symbol whose entry is missing or does not hold exactly one
        destination, and fails with all of them at once. */
    method ValidateTransitions() returns (r: Outcome<seq<Violation>>)
      ensures !isDfa ==> r == Pass
      ensures isDfa ==> r == if Violations(states, alphabet, transitions, acceptStates) == [] then Pass
                             else Fail(Violations(states, alphabet, transitions, acceptStates))
    {
      if !isDfa {
        return Pass;
      }
      var missing: seq<Violation> := [];
      for i := 0 to |states|
        invariant missing == ViolationsUpTo(states, alphabet, transitions, acceptStates, i)
      {
        var q := states[i];
        if q in acceptStates {
          continue;
        }
        if q !in transitions {
          StateViolationsWithoutRow(transitions, q, alphabet, |alphabet|);
          missing := missing + seq(|alphabet|, k requires 0 <= k < |alphabet| => Missing(q, alphabet[k]));
          continue;
        }
        ghost var before := missing;
        for j := 0 to |alphabet|
          invariant missing == before + StateViolationsUpTo(transitions, q, alphabet, j)
        {
          var a := alphabet[j];
          ghost var prev := missing;
          if a !in transitions[q] {
            missing := missing + [Missing(q, a)];
          } else if |transitions[q][a]| != 1 {
            missing := missing + [NotSingle(q, a)];
          }
          assert missing == prev + PairViolations(transitions, q, a);
          AppendAssoc(before, StateViolationsUpTo(transitions, q, alphabet, j), PairViolations(transitions, q, a));
        }
        assert missing == before + StateViolations(transitions, q, alphabet);
      }
      if missing != [] {
        return Fail(missing);
      }
      return Pass;
    }

    /** Fails with exactly the characters of the input that are not alphabet
        symbols, or passes when there are none. */
    method ValidateInputString(input: string) returns (r: Outcome<set<char>>)
      ensures r.Pass? <==> forall k :: 0 <= k < |input| ==> [input[k]] in alphabet
      ensures r.Fail? ==> r.error == InvalidSymbols(alphabet, input)
    {
      var invalid: set<char> := {};
      var i := 0;
      while i < |input|
        invariant 0 <= i <= |input|
        invariant invalid == InvalidSymbols(alphabet, input[..i])
      {
        var c := input[i];
        assert input[..i + 1] == input[..i] + [c];
        if [c] !in alphabet {
          invalid := invalid + {c};
        }
        i := i + 1;
      }
      assert input[..i] == input;
      if invalid != {} {
        return Fail(invalid);
      }
      return Pass;
    }

    /** The worklist computation of the epsilon-closure: after the starting
        states, a state is pushed only when it first enters the closure, so
        the loop ends once no new state can be added. */
    method GetEpsilonClosure(start: set<State>) returns (closure: set<State>)
      ensures closure == Closure(transitions, start)
    {
      closure := start;
      var stack := Enumerate(start);
      ghost var full := Closure(transitions, start);
      ghost var universe := start + Targets(transitions);
      while stack != []
        invariant start <= closure <= full
        invariant closure <= universe
        invariant AllIn(stack, closure)
        invariant ClosedExcept(transitions, closure, stack, {})
        decreases |universe - closure|, |stack|
      {
        PopKeepsClosed(transitions, closure, stack);
        var q := stack[|stack| - 1];
        stack := stack[..|stack| - 1];
        ghost var closure0 := closure;
        closure, stack := PushEpsilonTargets(transitions, q, closure, stack, full);
        if closure != closure0 {
          RemainderShrinks(universe, closure0, closure);
        }
      }
      ClosureLeast(transitions, start, closure);
    }

    /** Rejects an input with invalid characters before computing anything;
        otherwise runs the set-of-current-states simulation, stopping with
        a rejection as soon as the current set becomes empty. */
    method Simulate(input: string) returns (r: Result<bool, set<char>>)
      ensures r.Failure? <==> InvalidSymbols(alphabet, input) != {}
      ensures r.Failure? ==> r.error == InvalidSymbols(alphabet, input)
      ensures r.Success? ==> r.value == Accepts(transitions, startState, acceptStates, input)
    {
      var check := ValidateInputString(input);
      if check.Fail? {
        return Failure(check.error);
      }
      var initial := GetEpsilonClosure({startState});
      var current := initial;
      var i := 0;
      while i < |input|
        invariant 0 <= i <= |input|
        invariant current == Run(transitions, initial, input[..i])
      {
        var c := input[i];
        var symbol := [c];
        var next: set<State> := {};
        var pending := current;
        while pending != {}
          invariant pending <= current
          invariant next == Post(transitions, current - pending, symbol)
          decreases pending
        {
          var q :| q in pending;
          PostAddOne(transitions, current - pending, q, symbol);
          assert current - (pending - {q}) == (current - pending) + {q};
          if q in transitions && symbol in transitions[q] {
            next := next + (set s | s in transitions[q][symbol]);
          }
          pending := pending - {q};
        }
        assert current - pending == current;
        next := GetEpsilonClosure(next);
        RunPrefixStep(transitions, initial, input, i);
        if next == {} {
          RunStaysEmpty(transitions, initial, input, i + 1);
          return Success(false);
        }
        current := next;
        i := i + 1;
      }
      assert input[..i] == input;
      return Success(current * acceptStates != {});
    }
  }

  /** Scans the listed states for an epsilon entry or an entry with more
      than one destination; if there is none, the automaton is a DFA exactly
      when every non-accepting state has an entry for every symbol. */
  method CheckIfDfa(states: seq<State>, alphabet: seq<Symbol>, transitions: Table, acceptStates: set<State>)
    returns (b: bool)
    ensures b == IsDfa(states, alphabet, transitions, acceptStates)
  {
    var i := 0;
    while i < |states|
      invariant 0 <= i <= |states|
      invariant forall k :: 0 <= k < i && states[k] in transitions ==>
        EPSILON !in transitions[states[k]] && forall a :: a in transitions[states[k]] ==> |transitions[states[k]][a]| <= 1
    {
      var q := states[i];
      if q in transitions {
        if EPSILON in transitions[q] {
          assert HasEpsilonEntry(states, transitions);
          return false;
        }
        var row := transitions[q];
        var pending := row.Keys;
        while pending != {}
          invariant pending <= row.Keys
          invariant forall a :: a in row && a !in pending ==> |row[a]| <= 1
          decreases pending
        {
          var a :| a in pending;
          if |row[a]| > 1 {
            assert q in states;
            assert HasMultiEntry(states, transitions);
            return false;
          }
          pending := pending - {a};
        }
      }
      i := i + 1;
    }
    assert !HasEpsilonEntry(states, transitions) by {
      forall q | q in states && q in transitions
        ensures EPSILON !in transitions[q]
      {
        var k :| 0 <= k < |states| && states[k] == q;
      }
    }
    assert !HasMultiEntry(states, transitions) by {
      forall q, a | q in states && q in transitions && a in transitions[q]
        ensures |transitions[q][a]| <= 1
      {
        var k :| 0 <= k < |states| && states[k] == q;
      }
    }
    b := CompleteOutsideAccept(states, alphabet, transitions, acceptStates);
  }

  /** Every member of c that is neither on the stack nor excluded has all its
      epsilon destinations in c. */
  ghost predicate ClosedExcept(t: Table, c: set<State>, stack: seq<State>, excluded: set<State>)
  {
    forall q, r :: q in c && q !in stack && q !in excluded && r in EpsTargets(t, q) ==> r in c
  }

  /** The inner loop of the worklist: every epsilon destination of q that
      is not yet in the closure joins it and is pushed. Afterwards q's
      destinations are all inside, and the stack holds every state whose own
      destinations are still unchecked. */
  method PushEpsilonTargets(t: Table, q: State, closure0: set<State>, stack0: seq<State>, ghost full: set<State>)
    returns (closure: set<State>, stack: seq<State>)
    requires EpsClosed(t, full) && q in full && closure0 <= full
    requires AllIn(stack0, closure0) && ClosedExcept(t, closure0, stack0, {q})
    ensures closure == closure0 + (set r | r in EpsTargets(t, q))
    ensures |stack0| <= |stack| && stack[..|stack0|] == stack0
    ensures forall r :: r in stack[|stack0|..] <==> r in closure - closure0
    ensures closure <= full && closure <= closure0 + Targets(t)
    ensures closure == closure0 ==> stack == stack0
    ensures AllIn(stack, closure) && ClosedExcept(t, closure, stack, {})
  {
    closure, stack := closure0, stack0;
    if q in t && EPSILON in t[q] {
      var targets := t[q][EPSILON];
      var j := 0;
      while j < |targets|
        invariant 0 <= j <= |targets|
        invariant closure == closure0 + (set r | r in targets[..j])
        invariant |stack0| <= |stack| && stack[..|stack0|] == stack0
        invariant forall r :: r in stack[|stack0|..] <==> r in closure - closure0
        invariant closure <= full
        invariant closure <= closure0 + Targets(t)
        invariant closure == closure0 ==> stack == stack0
        invariant AllIn(stack, closure)
        invariant AllIn(targets[..j], closure)
        invariant ClosedExcept(t, closure, stack, {q})
      {
        var next := targets[j];
        assert targets[..j + 1] == targets[..j] + [next];
        if next !in closure {
          DestInTargets(t, q, EPSILON, next);
          PushKeepsClosed(t, closure, stack, {q}, next);
          assert (stack + [next])[|stack0|..] == stack[|stack0|..] + [next];
          closure := closure + {next};
          stack := stack + [next];
        }
        AllInExtend(targets, j, closure);
        j := j + 1;
      }
      assert targets[..j] == EpsTargets(t, q);
    } else {
      assert EpsTargets(t, q) == [];
    }
    FinishKeepsClosed(t, closure, stack, q);
  }

  lemma AppendAssoc<T>(a: seq<T>, b: seq<T>, c: seq<T>)
    ensures a + b + c == a + (b + c)
  {
  }

  /** Every element of xs is in s. */
  ghost predicate AllIn(xs: seq<State>, s: set<State>)
  {
    forall x :: x in xs ==> x in s
  }

  lemma PopKeepsClosed(t: Table, c: set<State>, stack: seq<State>)
    requires stack != [] && AllIn(stack, c) && ClosedExcept(t, c, stack, {})
    ensures AllIn(stack[..|stack| - 1], c) && stack[|stack| - 1] in c
    ensures ClosedExcept(t, c, stack[..|stack| - 1], {stack[|stack| - 1]})
  {
    assert stack == stack[..|stack| - 1] + [stack[|stack| - 1]];
  }

  lemma AllInExtend(xs: seq<State>, j: nat, c: set<State>)
    requires j < |xs| && AllIn(xs[..j], c) && xs[j] in c
    ensures AllIn(xs[..j + 1], c)
  {
    assert xs[..j + 1] == xs[..j] + [xs[j]];
  }

  lemma PushKeepsClosed(t: Table, c: set<State>, stack: seq<State>, excluded: set<State>, r: State)
    requires AllIn(stack, c) && ClosedExcept(t, c, stack, excluded)
    ensures AllIn(stack + [r], c + {r}) && ClosedExcept(t, c + {r}, stack + [r], excluded)
  {
  }

  lemma FinishKeepsClosed(t: Table, c: set<State>, stack: seq<State>, q: State)
    requires ClosedExcept(t, c, stack, {q}) && AllIn(EpsTargets(t, q), c)
    ensures ClosedExcept(t, c, stack, {})
  {
  }

  /** The elements of a set, each once, in some order. */
  method Enumerate(s: set<State>) returns (xs: seq<State>)
    ensures forall q :: q in xs <==> q in s
    ensures |xs| == |s|
  {
    xs := [];
    var rest := s;
    while rest != {}
      invariant forall q :: q in xs <==> q in s && q !in rest
      invariant rest <= s
      invariant |xs| + |rest| == |s|
      decreases rest
    {
      var q :| q in rest;
      xs := xs + [q];
      rest := rest - {q};
    }
  }

  /** Construction: the DFA flag is computed, and an automaton classified
      as a DFA is validated, failing with every violation found. An NFA or
      epsilon-NFA is never validated and never fails. */
  method NewFiniteAutomaton(states: seq<State>, alphabet: seq<Symbol>, transitions: Table, startState: State, acceptStates: set<State>)
    returns (r: Result<FiniteAutomaton, seq<Violation>>)
    requires BasicInputs(states, alphabet, startState, acceptStates)
    ensures r.Failure? <==> IsDfa(states, alphabet, transitions, acceptStates) && Violations(states, alphabet, transitions, acceptStates) != []
    ensures r.Failure? ==> r.error == Violations(states, alphabet, transitions, acceptStates)
    ensures r.Success? ==>
              && r.value.states == states && r.value.alphabet == alphabet && r.value.transitions == transitions
              && r.value.startState == startState && r.value.acceptStates == acceptStates
              && r.value.isDfa == IsDfa(states, alphabet, transitions, acceptStates)
  {
    var automaton := new FiniteAutomaton(states, alphabet, transitions, startState, acceptStates);
    var validation := automaton.ValidateTransitions();
    if validation.Fail? {
      return Failure(validation.error);
    }
    return Success(automaton);
  }
}
