# Finite automaton simulator: a verified model

This project models the automaton core of a small desktop tool. The tool lets
a user define a deterministic or non-deterministic finite automaton, with or
without epsilon moves, and then run an input string through it. The model
covers:

- the `FiniteAutomaton` class:
  - construction, which computes the DFA flag and validates a DFA;
  - DFA classification (`check_if_dfa`);
  - DFA validation (`validate_transitions`);
  - input checking (`validate_input_string`);
  - the epsilon-closure worklist (`get_epsilon_closure`);
  - the set-of-current-states simulation (`simulate`);
- the DFA / NFA / epsilon-NFA label shown to the user;
- the parser for the `state,symbol -> next` transition notation
  (`parse_transitions`).

## Modules

| file | module | what it holds |
|---|---|---|
| `results.dfy` | `Results` | `Result` and `Outcome`, the raised exceptions turned into values |
| `transitions.dfy` | `Transitions` | the transition table (state → symbol → list of next states), the epsilon key `"ε"`, one-step successors |
| `epsilon_closure.dfy` | `EpsilonClosure` | the closure as a fixpoint function; proofs that it is the least epsilon-closed superset and exactly the set of states reachable by epsilon moves |
| `classification.dfy` | `Classification` | the DFA predicate, the kind label, the violation list that DFA validation reports, and proofs of both |
| `acceptance.dfy` | `Acceptance` | invalid input characters, the run over an input, acceptance, and proofs about them |
| `finite_automaton.dfy` | `Automaton` | the `FiniteAutomaton` class, with its loops as methods proved against the functions above, and construction that can fail |
| `py_strings.dfy` | `PyStrings` | the string operations the parser uses: `strip()`, `split(sep)`, `lower()` on ASCII |
| `transition_parser.dfy` | `TransitionParser` | the line-by-line parser, the in-place table build, and proofs of what a parsed table contains |

Modelling choices that follow the code:

- **Destination lists are sequences.** The source appends to Python lists, so a
  destination written twice counts twice. The length checks ("more than one",
  "not exactly one") are made on those lists.
- **Input is read one character at a time.** Character `c` matches alphabet
  entry `[c]`, so an alphabet symbol longer than one character never matches
  any input.
- **Missing entries make an automaton an NFA.** A non-accepting state without
  an entry for some symbol makes the DFA check false. The automaton is then
  treated as an NFA and is never validated, so it never fails.
- **Accepting states are exempt from completeness.** This holds both for the
  DFA check and for validation.
- **The parser lower-cases only the symbol.** It lower-cases the symbol of a
  line but not the alphabet. An alphabet symbol with an upper-case letter
  therefore can never appear in a parsed table (`ParsedTableDeclared`).
- **Epsilon aliases are rewritten.** The parser turns `eps` and `epsilon`
  into the epsilon key.
- **Errors are data.** Each error is the collected list or set of offending
  items, not message text:
  - DFA validation fails with the list of `(state, symbol)` violations, in
    the order the source visits them;
  - input checking fails with the set of invalid characters;
  - the parser fails with the first malformed line's kind and 1-based
    number, plus the offending name where there is one.
- **Fields are fixed at construction.** All class fields are immutable
  (`const`). The DFA flag is one of them: the constructor computes it with
  `CheckIfDfa`, which takes the defining values as parameters.
- **Construction that can fail is a separate method.** The raising
  constructor is `NewFiniteAutomaton`, which returns a `Result`.

## Model

All source paths are relative to the repository root.

| member | source | states |
|---|---|---|
| Automaton.FiniteAutomaton.constructor | CS3C__Group1_FinalProjectCodeRevised.py:16-24 | stores the five fields unchanged and sets the DFA flag to exactly `IsDfa` of them |
| Automaton.NewFiniteAutomaton | CS3C__Group1_FinalProjectCodeRevised.py:16-27 | construction fails iff the automaton is classified as a DFA and validation finds a violation, and then fails with exactly that violation list; otherwise it yields an automaton holding the given fields |
| Automaton.CheckIfDfa | CS3C__Group1_FinalProjectCodeRevised.py:72-88 | the two scanning loops return exactly `IsDfa`: no listed state has an epsilon entry or an entry with more than one destination, and every non-accepting listed state has an entry for every symbol |
| Automaton.FiniteAutomaton.ValidateTransitions | CS3C__Group1_FinalProjectCodeRevised.py:42-70 | passes when the flag says NFA; for a DFA it fails iff the violation list is non-empty, and then fails with the whole list, not just the first violation |
| Automaton.FiniteAutomaton.ValidateInputString | CS3C__Group1_FinalProjectCodeRevised.py:29-40 | passes iff every input character is an alphabet symbol; otherwise fails with exactly the set of characters that are not |
| Automaton.FiniteAutomaton.GetEpsilonClosure | CS3C__Group1_FinalProjectCodeRevised.py:90-103 | the stack-based worklist terminates and returns exactly `Closure` of its argument, the least epsilon-closed superset |
| Automaton.PushEpsilonTargets | CS3C__Group1_FinalProjectCodeRevised.py:97-101 | the new closure is exactly the old one plus the popped state's epsilon destinations; the old stack is kept as a prefix and what is pushed after it is exactly the newly added states; the closure stays inside the true closure, and every closure member not on the stack has its epsilon destinations inside the closure |
| Automaton.FiniteAutomaton.Simulate | CS3C__Group1_FinalProjectCodeRevised.py:105-124 | fails iff the input has an invalid character, with exactly those characters, and so gives no verdict then; otherwise the verdict is `Accepts`, including after the early rejection on an empty current set |
| Classification.KindOf | CS3C__Group1_FinalProjectCodeRevised.py:311-314 | the label is DFA iff the DFA conditions hold, epsilon-NFA iff some listed state has an epsilon entry, and NFA otherwise |
| Classification.DfaIsDeterministic | CS3C__Group1_FinalProjectCodeRevised.py:72-88 | if every table row belongs to a listed state, a table classified as a DFA has no epsilon entry and no entry with two or more destinations |
| Classification.StateViolationsWithoutRow | CS3C__Group1_FinalProjectCodeRevised.py:55-58 | a state with no row yields one missing-entry violation per alphabet symbol, in alphabet order |
| Classification.ViolationsExact | CS3C__Group1_FinalProjectCodeRevised.py:49-64 | every reported violation names a non-accepting listed state and an alphabet symbol whose entry is missing or does not have exactly one destination; every such pair is reported, and with the right kind |
| Classification.NoViolationsIff | CS3C__Group1_FinalProjectCodeRevised.py:42-70 | validation reports nothing iff every non-accepting listed state has exactly one destination for every symbol |
| Classification.DfaViolationsOnlyEmpty | CS3C__Group1_FinalProjectCodeRevised.py:63-88 | once the DFA check has passed, validation fails iff some non-accepting listed state has an empty destination list for an alphabet symbol |
| Classification.DfaWithoutEmptyListsValid | CS3C__Group1_FinalProjectCodeRevised.py:24-27 | a DFA whose table has no empty list always passes validation |
| Transitions.PostAddOne | CS3C__Group1_FinalProjectCodeRevised.py:112-116 | taking one more current state adds exactly that state's destinations for the symbol to the successors |
| Transitions.PostWithinTargets | CS3C__Group1_FinalProjectCodeRevised.py:112-116 | every successor is a state named somewhere in the table as a destination |
| EpsilonClosure.Closure | CS3C__Group1_FinalProjectCodeRevised.py:90-103 | the closure contains the starting states, is closed under epsilon entries, and adds only states named somewhere as destinations |
| EpsilonClosure.ClosureLeast | CS3C__Group1_FinalProjectCodeRevised.py:90-103 | the closure lies inside every epsilon-closed set that contains the starting states |
| EpsilonClosure.ClosureOfClosed | CS3C__Group1_FinalProjectCodeRevised.py:92-101 | an epsilon-closed set is its own closure |
| EpsilonClosure.ClosureIdempotent | CS3C__Group1_FinalProjectCodeRevised.py:92-101 | closing a closure again changes nothing |
| EpsilonClosure.ClosureMonotonic | CS3C__Group1_FinalProjectCodeRevised.py:90-103 | a larger starting set has a closure no smaller |
| EpsilonClosure.PathEndsInClosure | CS3C__Group1_FinalProjectCodeRevised.py:96-101 | every chain of epsilon entries that starts in the starting set ends inside the closure |
| EpsilonClosure.ClosureOnlyReachable | CS3C__Group1_FinalProjectCodeRevised.py:96-101 | every state in the closure is reached from the starting set by a chain of epsilon entries |
| EpsilonClosure.ClosureIsReachability | CS3C__Group1_FinalProjectCodeRevised.py:90-103 | membership in the closure is exactly reachability by epsilon chains |
| Acceptance.AcceptsEmpty | CS3C__Group1_FinalProjectCodeRevised.py:109-124 | the empty input is accepted iff the epsilon-closure of the start state contains an accepting state |
| Acceptance.RunPrefixStep | CS3C__Group1_FinalProjectCodeRevised.py:111-121 | each character replaces the current set by the epsilon-closure of that character's destinations from it |
| Acceptance.RunStaysEmpty | CS3C__Group1_FinalProjectCodeRevised.py:118-119 | once the current set is empty it stays empty for the rest of the input, so the early rejection agrees with reading on |
| EpsilonClosure.ClosureWithoutEpsilon | CS3C__Group1_FinalProjectCodeRevised.py:90-103 | in a table without epsilon entries every set is its own closure, however many destinations the other entries hold |
| Acceptance.PostAtMostOne | CS3C__Group1_FinalProjectCodeRevised.py:112-116 | in a deterministic table, at most one current state gives at most one successor |
| Acceptance.RunAtMostOne | CS3C__Group1_FinalProjectCodeRevised.py:111-121 | in a deterministic table, a run that starts from at most one state holds at most one state after every input |
| Acceptance.DfaRunTracksOneState | CS3C__Group1_FinalProjectCodeRevised.py:105-124 | simulating an automaton classified as a DFA, with rows only for listed states, keeps at most one current state |
| PyStrings.StripSpec | CS3C__Group1_FinalProjectCodeRevised.py:245 | `strip()` gives the empty string iff the line is all whitespace; otherwise the result neither starts nor ends with whitespace |
| PyStrings.TrimLeftSpec | CS3C__Group1_FinalProjectCodeRevised.py:253 | the removed prefix is whitespace and the rest does not start with whitespace |
| PyStrings.TrimRightSpec | CS3C__Group1_FinalProjectCodeRevised.py:253 | the removed suffix is whitespace and the rest does not end with whitespace |
| PyStrings.Split | CS3C__Group1_FinalProjectCodeRevised.py:248 | `split(sep)` always yields at least one piece |
| PyStrings.SplitFirstPrefix | CS3C__Group1_FinalProjectCodeRevised.py:248 | the first piece of a split is a prefix of the string |
| PyStrings.SplitPiecesFree | CS3C__Group1_FinalProjectCodeRevised.py:248-258 | no piece of a split contains the separator, so the string is cut wherever the separator occurs; with `JoinSplit` (the pieces joined by the separator give the string back) this pins down the pieces for `->`, `,` and the newline, none of which can overlap itself |
| PyStrings.JoinSplit | CS3C__Group1_FinalProjectCodeRevised.py:244-248 | the pieces of a split, joined with the separator, give back the original string |
| PyStrings.LowerSpec | CS3C__Group1_FinalProjectCodeRevised.py:263 | the result has the same length and no ASCII upper-case letter; each upper-case letter becomes its lower-case form and every other character is kept |
| TransitionParser.LineShapeLower | CS3C__Group1_FinalProjectCodeRevised.py:248-264 | a line that passes both split checks yields a symbol with no upper-case letter |
| TransitionParser.LineShapeBlank | CS3C__Group1_FinalProjectCodeRevised.py:245-246 | a line is skipped iff it is all whitespace |
| TransitionParser.CheckLine | CS3C__Group1_FinalProjectCodeRevised.py:266-284 | a line is blank iff its shape is blank; an error carries the line's number; an accepted line had the state,symbol -> next shape, and when its symbol has no upper-case letter the entry names declared states and a declared symbol or the epsilon key, never an alias |
| TransitionParser.CheckLineExact | CS3C__Group1_FinalProjectCodeRevised.py:248-284 | which error each line gets, in the order the source checks: arrow, comma, state, symbol, next state. Also: a line is accepted iff all three names are declared, and the aliases become the epsilon key |
| TransitionParser.ParseLineWellFormed | CS3C__Group1_FinalProjectCodeRevised.py:245-284 | what one line yields is well formed: an error names that line's number, and an accepted entry is declared, with a lower-cased symbol |
| TransitionParser.ParseEachWellFormed | CS3C__Group1_FinalProjectCodeRevised.py:244-284 | every line result is well formed: an error names its own line number, and an entry is declared |
| TransitionParser.BuildFailsAtFirstMalformed | CS3C__Group1_FinalProjectCodeRevised.py:244-281 | building fails iff some line is malformed, and then with the error of the first such line |
| TransitionParser.ParseFailsAtFirstMalformed | CS3C__Group1_FinalProjectCodeRevised.py:244-281 | for parser-produced line results, the failure names the first malformed line by its own 1-based number |
| TransitionParser.FailureSticks | CS3C__Group1_FinalProjectCodeRevised.py:244-251 | once a line fails, no later line changes the outcome |
| TransitionParser.AddEntryDests | CS3C__Group1_FinalProjectCodeRevised.py:286-291 | adding an entry appends its next state to exactly one list and leaves every other list unchanged |
| TransitionParser.AppendTransition | CS3C__Group1_FinalProjectCodeRevised.py:286-291 | the three in-place steps (create the row if missing, create the list if missing, append) give exactly `AddEntry`, whose effect `AddEntryDests` pins down |
| TransitionParser.BuildStep | CS3C__Group1_FinalProjectCodeRevised.py:244-291 | a blank line leaves the table unchanged, and an accepted line adds its entry |
| TransitionParser.BuildContents | CS3C__Group1_FinalProjectCodeRevised.py:286-291 | each list of the built table holds exactly the next states of the entries naming that state and symbol, in line order; no list is empty and no row is empty |
| TransitionParser.ParsedTableDeclared | CS3C__Group1_FinalProjectCodeRevised.py:266-291 | every row of a parsed table is a declared state. Every key is an alphabet symbol or the epsilon key, with no upper-case letter and no alias. Every destination is declared, and no list is empty |
| TransitionParser.ParsedNeverFailsValidation | CS3C__Group1_FinalProjectCodeRevised.py:286-291 | a parsed table classified as a DFA always passes DFA validation, so construction from parsed transitions never fails |
| TransitionParser.ParseTransitions | CS3C__Group1_FinalProjectCodeRevised.py:236-293 | the loop that builds the dictionary in place returns exactly `Parse` of the text, and a successful table has no empty list |

## Left out

- The graphical interface is not modelled: widget construction, the display
  of results and graphs, and `main`. `validate_basic_inputs` survives only as
  the precondition `BasicInputs`:
  - states, alphabet and accepting states are non-empty;
  - the start state is listed;
  - every accepting state is listed.
- The declared-state and alphabet sets that the parser reads from the form
  are parameters. How the form text is split into those sets is not modelled.
- `visualize` is not modelled. It is a wrapper over an external graph
  library plus file output.
- The text of error messages is not modelled. Python set iteration order
  also drives the joined message for invalid characters, so errors are the
  collected items.
- Error kinds are kept, but the exception class hierarchy is not modelled,
  and neither is the catch-all handler in the interface.
- PyStrings.LowerSpec: only ASCII letters are lower-cased. Python's `lower()`
  also maps non-ASCII letters, and full Unicode case mapping is not
  modelled.
- Iteration order over Python sets and dictionaries is not modelled.
  - `CheckIfDfa` and `Simulate` pick set elements in an unspecified order.
    Their results do not depend on it.
  - `GetEpsilonClosure` starts from the elements of its argument in an
    unspecified order. Its result does not depend on it.
- Acceptance.DfaRunTracksOneState is stated for tables whose rows all belong
  to listed states. The source's DFA check only looks at listed states, so a
  row for an unlisted state could still hold an epsilon entry.
