/** The Python string operations the transition parser relies on:
    str.strip() with no argument, str.split(sep) with a non-empty separator,
    and str.lower() restricted to ASCII letters. */
module PyStrings {

  /** The characters str.isspace() accepts. */
  predicate IsSpace(c: char)
  {
    || c == ' ' || c == '\t' || c == '\n' || c == '\r'
    || c == '\U{000B}' || c == '\U{000C}'
    || ('\U{001C}' <= c <= '\U{001F}')
    || c == '\U{0085}' || c == '\U{00A0}' || c == '\U{1680}'
    || ('\U{2000}' <= c <= '\U{200A}')
    || c == '\U{2028}' || c == '\U{2029}' || c == '\U{202F}' || c == '\U{205F}' || c == '\U{3000}'
  }

  /** s without its leading whitespace. */
  function TrimLeft(s: string): string
  {
    if s != [] && IsSpace(s[0]) then TrimLeft(s[1..]) else s
  }

  /** What TrimLeft removes is a whitespace prefix, and what remains does not
      start with whitespace. */
  lemma {:induction false} TrimLeftSpec(s: string)
    ensures |TrimLeft(s)| <= |s| && TrimLeft(s) == s[|s| - |TrimLeft(s)|..]
    ensures forall k :: 0 <= k < |s| - |TrimLeft(s)| ==> IsSpace(s[k])
    ensures TrimLeft(s) != [] ==> !IsSpace(TrimLeft(s)[0])
  {
    if s != [] && IsSpace(s[0]) {
      var tail := s[1..];
      TrimLeftSpec(tail);
      var r := TrimLeft(tail);
      assert TrimLeft(s) == r;
      assert tail[|tail| - |r|..] == s[|s| - |r|..];
      forall k | 0 <= k < |s| - |r|
        ensures IsSpace(s[k])
      {
        if k > 0 {
          assert s[k] == tail[k - 1];
        }
      }
    }
  }

  /** s without its trailing whitespace. */
  function TrimRight(s: string): string
  {
    if s != [] && IsSpace(s[|s| - 1]) then TrimRight(s[..|s| - 1]) else s
  }

  /** What TrimRight removes is a whitespace suffix, and what remains does
      not end with whitespace. */
  lemma {:induction false} TrimRightSpec(s: string)
    ensures |TrimRight(s)| <= |s| && TrimRight(s) == s[..|TrimRight(s)|]
    ensures forall k :: |TrimRight(s)| <= k < |s| ==> IsSpace(s[k])
    ensures TrimRight(s) != [] ==> !IsSpace(TrimRight(s)[|TrimRight(s)| - 1])
  {
    if s != [] && IsSpace(s[|s| - 1]) {
      TrimRightSpec(s[..|s| - 1]);
    }
  }

  /** str.strip(): s without leading and trailing whitespace. */
  function Strip(s: string): string
  {
    TrimRight(TrimLeft(s))
  }

  /** The stripped string is empty exactly when s is all whitespace, and
      otherwise starts and ends with a character that is not. */
  lemma StripSpec(s: string)
    ensures Strip(s) == [] <==> forall k :: 0 <= k < |s| ==> IsSpace(s[k])
    ensures Strip(s) != [] ==> !IsSpace(Strip(s)[0]) && !IsSpace(Strip(s)[|Strip(s)| - 1])
  {
    TrimLeftSpec(s);
    TrimRightSpec(TrimLeft(s));
  }

  /** str.split(sep): the pieces of s between the occurrences of sep found
      scanning left to right. There is always at least one piece. */
  function Split(s: string, sep: string): (parts: seq<string>)
    requires sep != []
    ensures |parts| >= 1
    decreases |s|
  {
    if |s| < |sep| then [s]
    else if s[..|sep|] == sep then [[]] + Split(s[|sep|..], sep)
    else
      var rest := Split(s[1..], sep);
      [[s[0]] + rest[0]] + rest[1..]
  }

  /** sep occurs in p starting at position k. */
  predicate OccursAt(p: string, sep: string, k: int)
  {
    0 <= k && k + |sep| <= |p| && p[k..k + |sep|] == sep
  }

  /** sep does not occur anywhere in p. */
  ghost predicate Free(p: string, sep: string)
  {
    forall k :: !OccursAt(p, sep, k)
  }

  /** The first piece is a prefix of the string. */
  lemma {:induction false} SplitFirstPrefix(s: string, sep: string)
    requires sep != []
    ensures Split(s, sep)[0] <= s
    decreases |s|
  {
    if |s| < |sep| {
    } else if s[..|sep|] == sep {
    } else {
      SplitFirstPrefix(s[1..], sep);
    }
  }

  /** The three cases of Split, one unfolding each. */
  lemma SplitUnfold(s: string, sep: string)
    requires sep != []
    ensures |s| < |sep| ==> Split(s, sep) == [s]
    ensures |s| >= |sep| && s[..|sep|] == sep ==> Split(s, sep) == [[]] + Split(s[|sep|..], sep)
    ensures |s| >= |sep| && s[..|sep|] != sep ==>
      Split(s, sep) == [[s[0]] + Split(s[1..], sep)[0]] + Split(s[1..], sep)[1..]
  {
  }

  /** A character that does not start sep, followed by a prefix of the rest
      that is free of sep, is free of sep. */
  lemma ConsFree(s: string, sep: string, p: string)
    requires sep != [] && |s| >= |sep| && s[..|sep|] != sep
    requires p <= s[1..] && Free(p, sep)
    ensures Free([s[0]] + p, sep)
  {
    var first := [s[0]] + p;
    forall k
      ensures !OccursAt(first, sep, k)
    {
      if k == 0 && |sep| <= |first| {
        assert first[..|sep|] == s[..|sep|];
      } else if 0 < k && k + |sep| <= |first| {
        assert first[k..k + |sep|] == p[k - 1..k - 1 + |sep|];
        assert !OccursAt(p, sep, k - 1);
      }
    }
  }

  /** Splitting cuts at every occurrence of sep: no piece contains it.
      With JoinSplit, this fixes the pieces of a split by "->", "," or a
      newline, none of which can overlap another occurrence of itself. */
  lemma {:induction false} SplitPiecesFree(s: string, sep: string)
    requires sep != []
    ensures forall i :: 0 <= i < |Split(s, sep)| ==> Free(Split(s, sep)[i], sep)
    decreases |s|
  {
    var parts := Split(s, sep);
    SplitUnfold(s, sep);
    if |s| < |sep| {
    } else if s[..|sep|] == sep {
      var rest := Split(s[|sep|..], sep);
      SplitPiecesFree(s[|sep|..], sep);
      forall i | 0 <= i < |parts|
        ensures Free(parts[i], sep)
      {
        if i > 0 {
          assert parts[i] == rest[i - 1];
        }
      }
    } else {
      var rest := Split(s[1..], sep);
      SplitPiecesFree(s[1..], sep);
      SplitFirstPrefix(s[1..], sep);
      ConsFree(s, sep, rest[0]);
      forall i | 0 <= i < |parts|
        ensures Free(parts[i], sep)
      {
        if i > 0 {
          assert parts[i] == rest[i];
        }
      }
    }
  }

  /** sep.join(parts). */
  function Join(parts: seq<string>, sep: string): string
    requires |parts| >= 1
  {
    if |parts| == 1 then parts[0] else parts[0] + sep + Join(parts[1..], sep)
  }

  /** Splitting loses nothing: joining the pieces with the separator gives
      the string back. */
  lemma {:induction false} JoinSplit(s: string, sep: string)
    requires sep != []
    ensures Join(Split(s, sep), sep) == s
    decreases |s|
  {
    if |s| < |sep| {
    } else if s[..|sep|] == sep {
      var rest := Split(s[|sep|..], sep);
      JoinSplit(s[|sep|..], sep);
      assert Split(s, sep) == [[]] + rest;
      JoinCons([], rest, sep);
      assert s == sep + s[|sep|..];
    } else {
      var rest := Split(s[1..], sep);
      JoinSplit(s[1..], sep);
      assert Split(s, sep) == [[s[0]] + rest[0]] + rest[1..];
      JoinFirstPrefix([s[0]], rest, sep);
      assert s == [s[0]] + s[1..];
    }
  }

  /** Joining a list with one more piece in front adds that piece and a separator. */
  lemma JoinCons(p: string, rest: seq<string>, sep: string)
    requires |rest| >= 1
    ensures Join([p] + rest, sep) == p + sep + Join(rest, sep)
  {
    assert ([p] + rest)[1..] == rest;
  }

  /** Prepending to the first piece prepends to the joined string. */
  lemma JoinFirstPrefix(c: string, rest: seq<string>, sep: string)
    requires |rest| >= 1
    ensures Join([c + rest[0]] + rest[1..], sep) == c + Join(rest, sep)
  {
    var parts := [c + rest[0]] + rest[1..];
    if |rest| > 1 {
      assert parts[1..] == rest[1..];
    }
  }

  predicate IsAsciiUpper(c: char)
  {
    'A' <= c <= 'Z'
  }

  function LowerChar(c: char): (d: char)
  {
    if IsAsciiUpper(c) then (c as int + 32) as char else c
  }

  /** str.lower() on ASCII letters. */
  function Lower(s: string): string
  {
    seq(|s|, k requires 0 <= k < |s| => LowerChar(s[k]))
  }

  /** Every upper-case letter becomes its lower-case form and every other
      character is kept. */
  lemma LowerSpec(s: string)
    ensures |Lower(s)| == |s|
    ensures forall k :: 0 <= k < |s| ==> !IsAsciiUpper(Lower(s)[k])
    ensures forall k :: 0 <= k < |s| && !IsAsciiUpper(s[k]) ==> Lower(s)[k] == s[k]
    ensures forall k :: 0 <= k < |s| && IsAsciiUpper(s[k]) ==> Lower(s)[k] as int == s[k] as int + 32
  {
  }
}
