/** Reading the line-oriented transition notation `state,symbol -> next`
    into a transition table. The declared states and the alphabet, which the
    input form supplies, are parameters. */
module TransitionParser {
  import opened Results
  import opened Transitions
  import opened PyStrings
  import opened Classification

  /** Why a line was refused, with its 1-based line number. */
  datatype ParseError =
    | BadArrow(line: nat)                          // not exactly one "->"
    | BadLeftSide(line: nat)                       // left side is not exactly "state,symbol"
    | UnknownState(line: nat, state: State)
    | UnknownSymbol(line: nat, symbol: Symbol)
    | UnknownNextState(line: nat, next: State)

  /** One accepted line: `state` moves to `next` on `symbol`. */
  datatype Entry = Entry(state: State, symbol: Symbol, next: State)

  datatype LineResult = Blank | Parsed(entry: Entry) | Malformed(error: ParseError)

  /** The spellings that are rewritten to the epsilon key. */
  predicate IsEpsilonAlias(symbol: Symbol)
  {
    symbol == "eps" || symbol == "epsilon"
  }

  /** The symbols a line may name: the alphabet, the two aliases and the
      epsilon key itself. */
  predicate ValidSymbol(symbol: Symbol, alphabetSet: set<Symbol>)
  {
    symbol in alphabetSet || IsEpsilonAlias(symbol) || symbol == EPSILON
  }

  predicate NoAsciiUpper(s: string)
  {
    forall k :: 0 <= k < |s| ==> !IsAsciiUpper(s[k])
  }

  /** The three fields of a line, already stripped; the symbol also
      lower-cased. */
  datatype Fields = Fields(state: State, symbol: Symbol, next: State)

  /** The shape of a line before any name is checked. */
  datatype Shape = BlankLine | NoSingleArrow | NoSingleComma | Shaped(fields: Fields)

  /** Splits a line into its fields: a whitespace-only line is blank; the line
      must split into exactly two parts at "->" and its stripped left part into
      exactly two at ","; the symbol, and only the symbol, is lower-cased. */
  function LineShape(line: string): Shape
  {
    if Strip(line) == [] then BlankLine
    else
      var parts := Split(line, "->");
      if |parts| != 2 then NoSingleArrow
      else
        var left := Strip(parts[0]);
        var right := Strip(parts[1]);
        var sides := Split(left, ",");
        if |sides| != 2 then NoSingleComma
        else Shaped(Fields(Strip(sides[0]), Lower(Strip(sides[1])), Strip(right)))
  }

  /** The symbol of a shaped line has no upper-case letter. */
  lemma LineShapeLower(line: string)
    ensures LineShape(line).Shaped? ==> NoAsciiUpper(LineShape(line).fields.symbol)
  {
    if Strip(line) != [] {
      var parts := Split(line, "->");
      if |parts| == 2 {
        var sides := Split(Strip(parts[0]), ",");
        if |sides| == 2 {
          LowerSpec(Strip(sides[1]));
        }
      }
    }
  }

  /** A line is blank exactly when it is all whitespace. */
  lemma LineShapeBlank(line: string)
    ensures LineShape(line).BlankLine? <==> forall k :: 0 <= k < |line| ==> IsSpace(line[k])
  {
    StripSpec(line);
  }

  /** An entry the parser may produce: declared states, and an alphabet
      symbol or the epsilon key, never an alias or an upper-case letter. */
  ghost predicate Declared(e: Entry, stateSet: set<State>, alphabetSet: set<Symbol>)
  {
    && e.state in stateSet && e.next in stateSet
    && (e.symbol == EPSILON || e.symbol in alphabetSet)
    && !IsEpsilonAlias(e.symbol) && NoAsciiUpper(e.symbol)
  }

  /** Checks the fields of a line: the state, the symbol and the next state
      are checked in that order, and the aliases are rewritten to the
      epsilon key. */
  function CheckLine(sh: Shape, lineNum: nat, stateSet: set<State>, alphabetSet: set<Symbol>): (r: LineResult)
    ensures r.Blank? <==> sh.BlankLine?
    ensures r.Malformed? ==> r.error.line == lineNum
    ensures r.Parsed? ==> sh.Shaped? && (NoAsciiUpper(sh.fields.symbol) ==> Declared(r.entry, stateSet, alphabetSet))
  {
    if sh.BlankLine? then Blank
    else if sh.NoSingleArrow? then Malformed(BadArrow(lineNum))
    else if sh.NoSingleComma? then Malformed(BadLeftSide(lineNum))
    else
      var f := sh.fields;
      if f.state !in stateSet then Malformed(UnknownState(lineNum, f.state))
      else if !ValidSymbol(f.symbol, alphabetSet) then Malformed(UnknownSymbol(lineNum, f.symbol))
      else if f.next !in stateSet then Malformed(UnknownNextState(lineNum, f.next))
      else Parsed(Entry(f.state, if IsEpsilonAlias(f.symbol) then EPSILON else f.symbol, f.next))
  }

  /** What each line shape yields: the state is checked first, then the
      symbol, then the next state, each failure naming the offending field;
      an accepted line keeps its fields, with an alias replaced by the
      epsilon key. */
  lemma CheckLineExact(sh: Shape, lineNum: nat, stateSet: set<State>, alphabetSet: set<Symbol>)
    ensures var r := CheckLine(sh, lineNum, stateSet, alphabetSet);
      && (r == Malformed(BadArrow(lineNum)) <==> sh.NoSingleArrow?)
      && (r == Malformed(BadLeftSide(lineNum)) <==> sh.NoSingleComma?)
      && (sh.Shaped? ==>
            var f := sh.fields;
            && (r == Malformed(UnknownState(lineNum, f.state)) <==> f.state !in stateSet)
            && (r == Malformed(UnknownSymbol(lineNum, f.symbol)) <==> f.state in stateSet && !ValidSymbol(f.symbol, alphabetSet))
            && (r == Malformed(UnknownNextState(lineNum, f.next)) <==>
                  f.state in stateSet && ValidSymbol(f.symbol, alphabetSet) && f.next !in stateSet)
            && (r.Parsed? <==> f.state in stateSet && ValidSymbol(f.symbol, alphabetSet) && f.next in stateSet)
            && (r.Parsed? ==>
                  && r.entry.state == f.state && r.entry.next == f.next
                  && (r.entry.symbol == EPSILON <==> f.symbol == EPSILON || IsEpsilonAlias(f.symbol))
                  && (!IsEpsilonAlias(f.symbol) ==> r.entry.symbol == f.symbol)))
  {
  }

  /** One line of the notation. */
  function ParseLine(line: string, lineNum: nat, stateSet: set<State>, alphabetSet: set<Symbol>): LineResult
  {
    CheckLine(LineShape(line), lineNum, stateSet, alphabetSet)
  }

  /** What one line yields is well formed: an error carries the line's
      number, and an accepted entry is declared. */
  lemma ParseLineWellFormed(line: string, lineNum: nat, stateSet: set<State>, alphabetSet: set<Symbol>)
    ensures var r := ParseLine(line, lineNum, stateSet, alphabetSet);
      && (r.Malformed? ==> r.error.line == lineNum)
      && (r.Parsed? ==> Declared(r.entry, stateSet, alphabetSet))
  {
    LineShapeLower(line);
  }

  /** The lines of the text: surrounding whitespace removed, split at "\n". */
  function Lines(text: string): (lines: seq<string>)
    ensures |lines| >= 1
  {
    Split(Strip(text), "\n")
  }

  /** What each line yields, numbering the lines from 1. */
  function ParseEach(lines: seq<string>, stateSet: set<State>, alphabetSet: set<Symbol>): (rs: seq<LineResult>)
    ensures |rs| == |lines|
  {
    seq(|lines|, k requires 0 <= k < |lines| => ParseLine(lines[k], k + 1, stateSet, alphabetSet))
  }

  /** Line results as the parser can produce them: a malformed line's error
      carries its own line number, and an accepted line names declared
      states and symbols only. */
  ghost predicate WellFormed(rs: seq<LineResult>, stateSet: set<State>, alphabetSet: set<Symbol>)
  {
    forall i :: 0 <= i < |rs| ==>
      (rs[i].Malformed? ==> rs[i].error.line == i + 1) && (rs[i].Parsed? ==> Declared(rs[i].entry, stateSet, alphabetSet))
  }

  lemma {:induction false} ParseEachWellFormed(lines: seq<string>, stateSet: set<State>, alphabetSet: set<Symbol>)
    ensures WellFormed(ParseEach(lines, stateSet, alphabetSet), stateSet, alphabetSet)
  {
    forall i | 0 <= i < |lines|
      ensures var r := ParseEach(lines, stateSet, alphabetSet)[i];
        (r.Malformed? ==> r.error.line == i + 1) && (r.Parsed? ==> Declared(r.entry, stateSet, alphabetSet))
    {
      ParseEachAt(lines, stateSet, alphabetSet, i);
      ParseLineWellFormed(lines[i], i + 1, stateSet, alphabetSet);
    }
  }

  /** The result for line i + 1 is what that line alone yields. */
  lemma ParseEachAt(lines: seq<string>, stateSet: set<State>, alphabetSet: set<Symbol>, i: nat)
    requires i < |lines|
    ensures ParseEach(lines, stateSet, alphabetSet)[i] == ParseLine(lines[i], i + 1, stateSet, alphabetSet)
  {
  }

  /** Appends next to the list of (state, symbol), creating the row and the
      list when they are missing. */
  function AddEntry(t: Table, e: Entry): Table
  {
    var row := if e.state in t then t[e.state] else map[];
    var dests := if e.symbol in row then row[e.symbol] else [];
    t[e.state := row[e.symbol := dests + [e.next]]]
  }

  /** The table built from the first n line results, or the error of the
      first malformed one among them. */
  function BuildUpTo(rs: seq<LineResult>, n: nat): Result<Table, ParseError>
    requires n <= |rs|
  {
    if n == 0 then Success(map[])
    else
      match BuildUpTo(rs, n - 1)
      case Failure(e) => Failure(e)
      case Success(t) =>
        match rs[n - 1]
        case Blank => Success(t)
        case Malformed(e) => Failure(e)
        case Parsed(e) => Success(AddEntry(t, e))
  }

  /** What parsing the whole text produces. */
  function Parse(text: string, stateSet: set<State>, alphabetSet: set<Symbol>): Result<Table, ParseError>
  {
    var rs := ParseEach(Lines(text), stateSet, alphabetSet);
    BuildUpTo(rs, |rs|)
  }

  /** The entries of the well-formed lines among the first n, in line order. */
  function EntriesUpTo(rs: seq<LineResult>, n: nat): seq<Entry>
    requires n <= |rs|
  {
    if n == 0 then []
    else if rs[n - 1].Parsed? then EntriesUpTo(rs, n - 1) + [rs[n - 1].entry]
    else EntriesUpTo(rs, n - 1)
  }

  /** The next states of the entries for (q, a), in order. */
  function DestsOf(es: seq<Entry>, q: State, a: Symbol): seq<State>
  {
    if es == [] then []
    else
      var e := es[|es| - 1];
      DestsOf(es[..|es| - 1], q, a) + (if e.state == q && e.symbol == a then [e.next] else [])
  }

  /** i is the index of the first malformed result among the first n. */
  ghost predicate FirstMalformed(rs: seq<LineResult>, n: nat, i: nat)
    requires n <= |rs|
  {
    && i < n && rs[i].Malformed?
    && forall k :: 0 <= k < i ==> !rs[k].Malformed?
  }

  /** Building fails exactly when some line is malformed, and then with the
      error of the first such line: later lines are never looked at. */
  lemma {:induction false} BuildFailsAtFirstMalformed(rs: seq<LineResult>, n: nat)
    requires n <= |rs|
    ensures BuildUpTo(rs, n).Failure? <==> exists i :: 0 <= i < n && rs[i].Malformed?
    ensures BuildUpTo(rs, n).Failure? ==>
      exists i: nat :: FirstMalformed(rs, n, i) && BuildUpTo(rs, n).error == rs[i].error
  {
    if n > 0 {
      BuildFailsAtFirstMalformed(rs, n - 1);
      if BuildUpTo(rs, n - 1).Failure? {
        var i: nat :| FirstMalformed(rs, n - 1, i) && BuildUpTo(rs, n - 1).error == rs[i].error;
        assert FirstMalformed(rs, n, i);
      } else if rs[n - 1].Malformed? {
        assert FirstMalformed(rs, n, n - 1);
      }
    }
  }

  /** For line results the parser produced, the failure names the first
      malformed line by its own 1-based number. */
  lemma ParseFailsAtFirstMalformed(rs: seq<LineResult>, stateSet: set<State>, alphabetSet: set<Symbol>)
    requires WellFormed(rs, stateSet, alphabetSet)
    ensures BuildUpTo(rs, |rs|).Failure? <==> exists i :: 0 <= i < |rs| && rs[i].Malformed?
    ensures BuildUpTo(rs, |rs|).Failure? ==>
      exists i: nat :: FirstMalformed(rs, |rs|, i) && BuildUpTo(rs, |rs|).error == rs[i].error
        && BuildUpTo(rs, |rs|).error.line == i + 1
  {
    BuildFailsAtFirstMalformed(rs, |rs|);
  }

  /** AddEntry appends to exactly one list and leaves every other one alone. */
  lemma AddEntryDests(t: Table, e: Entry, q: State, a: Symbol)
    ensures Dests(AddEntry(t, e), q, a) == Dests(t, q, a) + (if e.state == q && e.symbol == a then [e.next] else [])
    ensures q in AddEntry(t, e) && a in AddEntry(t, e)[q] <==> (q in t && a in t[q]) || (e.state == q && e.symbol == a)
  {
  }

  /** The table built from line results holds, for every state and symbol,
      exactly the next states of the entries that name them, in line order;
      an entry is present exactly when some line names it, so no list is
      ever empty. */
  lemma {:induction false} BuildContents(rs: seq<LineResult>, n: nat)
    requires n <= |rs| && BuildUpTo(rs, n).Success?
    ensures forall q, a :: Dests(BuildUpTo(rs, n).value, q, a) == DestsOf(EntriesUpTo(rs, n), q, a)
    ensures NoEmptyLists(BuildUpTo(rs, n).value)
    ensures forall q :: q in BuildUpTo(rs, n).value ==> BuildUpTo(rs, n).value[q] != map[]
  {
    if n > 0 {
      BuildContents(rs, n - 1);
      var t := BuildUpTo(rs, n - 1).value;
      var es := EntriesUpTo(rs, n - 1);
      if rs[n - 1].Parsed? {
        var e := rs[n - 1].entry;
        forall q, a
          ensures Dests(AddEntry(t, e), q, a) == DestsOf(es + [e], q, a)
        {
          AddEntryDests(t, e, q, a);
          assert (es + [e])[..|es|] == es;
        }
        forall q, a | q in AddEntry(t, e) && a in AddEntry(t, e)[q]
          ensures AddEntry(t, e)[q][a] != []
        {
          AddEntryDests(t, e, q, a);
        }
        assert e.symbol in AddEntry(t, e)[e.state];
      }
    }
  }

  lemma {:induction false} EntriesDeclared(rs: seq<LineResult>, n: nat, stateSet: set<State>, alphabetSet: set<Symbol>)
    requires n <= |rs| && WellFormed(rs, stateSet, alphabetSet)
    ensures forall e :: e in EntriesUpTo(rs, n) ==> Declared(e, stateSet, alphabetSet)
  {
    if n > 0 {
      EntriesDeclared(rs, n - 1, stateSet, alphabetSet);
    }
  }

  lemma {:induction false} DestsOfFromEntries(es: seq<Entry>, q: State, a: Symbol, r: State)
    requires r in DestsOf(es, q, a)
    ensures Entry(q, a, r) in es
  {
    var init := es[..|es| - 1];
    if r in DestsOf(init, q, a) {
      DestsOfFromEntries(init, q, a, r);
    }
  }

  /** The entry for (q, a) names a declared state, an alphabet symbol or the
      epsilon key (never an alias, never with an upper-case letter), and
      lists declared states only. */
  ghost predicate DeclaredCell(t: Table, q: State, a: Symbol, stateSet: set<State>, alphabetSet: set<Symbol>)
    requires q in t && a in t[q]
  {
    && q in stateSet && (a == EPSILON || a in alphabetSet) && !IsEpsilonAlias(a) && NoAsciiUpper(a)
    && forall r :: r in t[q][a] ==> r in stateSet
  }

  lemma CellDeclared(es: seq<Entry>, t: Table, q: State, a: Symbol, stateSet: set<State>, alphabetSet: set<Symbol>)
    requires q in t && a in t[q] && t[q][a] != []
    requires Dests(t, q, a) == DestsOf(es, q, a)
    requires forall e :: e in es ==> Declared(e, stateSet, alphabetSet)
    ensures DeclaredCell(t, q, a, stateSet, alphabetSet)
  {
    DestsOfFromEntries(es, q, a, t[q][a][0]);
    forall r | r in t[q][a]
      ensures r in stateSet
    {
      DestsOfFromEntries(es, q, a, r);
    }
  }

  /** Everything in a parsed table is declared, and no list is empty. */
  lemma ParsedTableDeclared(rs: seq<LineResult>, stateSet: set<State>, alphabetSet: set<Symbol>)
    requires WellFormed(rs, stateSet, alphabetSet) && BuildUpTo(rs, |rs|).Success?
    ensures var t := BuildUpTo(rs, |rs|).value;
      && NoEmptyLists(t)
      && (forall q, a :: q in t && a in t[q] ==> DeclaredCell(t, q, a, stateSet, alphabetSet))
      && (forall q :: q in t ==> q in stateSet)
  {
    var t := BuildUpTo(rs, |rs|).value;
    var es := EntriesUpTo(rs, |rs|);
    BuildContents(rs, |rs|);
    EntriesDeclared(rs, |rs|, stateSet, alphabetSet);
    forall q, a | q in t && a in t[q]
      ensures DeclaredCell(t, q, a, stateSet, alphabetSet)
    {
      CellDeclared(es, t, q, a, stateSet, alphabetSet);
    }
    forall q | q in t
      ensures q in stateSet
    {
      var a :| a in t[q];
      CellDeclared(es, t, q, a, stateSet, alphabetSet);
    }
  }

  /** A table produced by the parser never makes construction fail: if it
      is classified as a DFA, DFA validation finds no violation, whatever the
      listed states, alphabet and accepting states are. */
  lemma ParsedNeverFailsValidation(rs: seq<LineResult>, states: seq<State>, alphabet: seq<Symbol>, accept: set<State>)
    requires BuildUpTo(rs, |rs|).Success?
    requires IsDfa(states, alphabet, BuildUpTo(rs, |rs|).value, accept)
    ensures Violations(states, alphabet, BuildUpTo(rs, |rs|).value, accept) == []
  {
    BuildContents(rs, |rs|);
    DfaWithoutEmptyListsValid(states, alphabet, BuildUpTo(rs, |rs|).value, accept);
  }

  /** Once a prefix of the line results fails, the whole fails with the same error. */
  lemma {:induction false} FailureSticks(rs: seq<LineResult>, n: nat)
    requires n <= |rs| && BuildUpTo(rs, n).Failure?
    ensures BuildUpTo(rs, |rs|) == BuildUpTo(rs, n)
    decreases |rs| - n
  {
    if n < |rs| {
      FailureSticks(rs, n + 1);
    }
  }

  /** Appends the entry's destination in three in-place steps: create the
      row if missing, create the list if missing, append. */
  method AppendTransition(t: Table, e: Entry) returns (t': Table)
    ensures t' == AddEntry(t, e)
  {
    t' := t;
    if e.state !in t' {
      t' := t'[e.state := map[]];
    }
    if e.symbol !in t'[e.state] {
      t' := t'[e.state := t'[e.state][e.symbol := []]];
    }
    ghost var row := if e.state in t then t[e.state] else map[];
    ghost var dests := if e.symbol in row then row[e.symbol] else [];
    assert t'[e.state][e.symbol] == dests;
    assert t'[e.state][e.symbol := dests + [e.next]] == row[e.symbol := dests + [e.next]];
    t' := t'[e.state := t'[e.state][e.symbol := t'[e.state][e.symbol] + [e.next]]];
  }

  /** One more line result extends the built table by that line. */
  lemma BuildStep(rs: seq<LineResult>, i: nat, t: Table)
    requires i < |rs| && BuildUpTo(rs, i) == Success(t)
    ensures rs[i].Blank? ==> BuildUpTo(rs, i + 1) == Success(t)
    ensures rs[i].Parsed? ==> BuildUpTo(rs, i + 1) == Success(AddEntry(t, rs[i].entry))
  {
  }

  /** Reads the text line by line, building the table in place; the first
      malformed line stops it with that line's error. */
  method ParseTransitions(text: string, stateSet: set<State>, alphabetSet: set<Symbol>)
    returns (r: Result<Table, ParseError>)
    ensures r == Parse(text, stateSet, alphabetSet)
    ensures r.Success? ==> NoEmptyLists(r.value)
  {
    var transitions: Table := map[];
    var lines := Lines(text);
    ghost var rs := ParseEach(lines, stateSet, alphabetSet);
    for i := 0 to |lines|
      invariant BuildUpTo(rs, i) == Success(transitions)
    {
      var lineNum := i + 1;
      var result := ParseLine(lines[i], lineNum, stateSet, alphabetSet);
      ParseEachAt(lines, stateSet, alphabetSet, i);
      match result {
        case Blank =>
          BuildStep(rs, i, transitions);
          assert BuildUpTo(rs, i + 1) == Success(transitions);
        case Malformed(e) =>
          FailureSticks(rs, i + 1);
          return Failure(e);
        case Parsed(entry) =>
          BuildStep(rs, i, transitions);
          transitions := AppendTransition(transitions, entry);
          assert BuildUpTo(rs, i + 1) == Success(transitions);
      }
    }
    r := Success(transitions);
    BuildContents(rs, |rs|);
  }
}
