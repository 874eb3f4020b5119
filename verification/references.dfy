/**
 ${...} references in configuration strings: the search for the innermost unescaped
 reference, replacing text, and the escape that doubles dollar signs.

 The search goes on in what remains of a string; a position to start from stands for the
 substring that remains.
 */
module References {

  // ----- strings

  /** The first c in s at or after position from, or -1. */
  function IndexFrom(s: string, c: char, from: nat): (k: int)
    requires from <= |s|
    ensures k < 0 ==> k == -1 && forall j :: from <= j < |s| ==> s[j] != c
    ensures k >= 0 ==> from <= k < |s| && s[k] == c && forall j :: from <= j < k ==> s[j] != c
    decreases |s| - from
  {
    if from == |s| then -1 else if s[from] == c then from else IndexFrom(s, c, from + 1)
  }

  /** c stands in s[from..] */
  predicate ContainsFrom(s: string, c: char, from: nat)
    requires from <= |s|
  {
    IndexFrom(s, c, from) >= 0
  }

  predicate Contains(s: string, c: char) {
    ContainsFrom(s, c, 0)
  }

  /** c stands in s[a..b] */
  predicate ContainsIn(s: string, c: char, a: nat, b: nat)
    requires a <= b <= |s|
  {
    0 <= IndexFrom(s, c, a) < b
  }

  /** "${" starts at i */
  predicate OpenAt(s: string, i: int) {
    0 <= i && i + 1 < |s| && s[i] == '$' && s[i + 1] == '{'
  }

  /** The last position from a up to b where "${" starts, or -1. */
  function LastOpen(s: string, a: nat, b: nat): (i: int)
    requires a <= b
    ensures i == -1 || (a <= i < b && OpenAt(s, i))
    ensures forall j :: a <= j < b && i < j ==> !OpenAt(s, j)
    decreases b - a
  {
    if a == b then -1 else if OpenAt(s, b - 1) then b - 1 else LastOpen(s, a, b - 1)
  }

  predicate HasOpen(s: string) {
    LastOpen(s, 0, |s|) >= 0
  }

  function ReplaceAll(s: string, old': string, new': string): string
    requires old' != ""
    decreases |s|
  {
    if |s| < |old'| then s
    else if s[..|old'|] == old' then new' + ReplaceAll(s[|old'|..], old', new')
    else [s[0]] + ReplaceAll(s[1..], old', new')
  }

  // ----- what replacing means

  /** The parts with a separator between them. */
  function Joined(parts: seq<string>, sep: string): string {
    if parts == [] then "" else if |parts| == 1 then parts[0] else parts[0] + sep + Joined(parts[1..], sep)
  }

  /** sep stands in s at position i. */
  predicate StandsAt(s: string, sep: string, i: nat) {
    i + |sep| <= |s| && s[i..i + |sep|] == sep
  }

  /** A part that ends where sep first stands: sep does not stand any earlier in the part and the sep behind it. */
  ghost predicate UpToFirst(part: string, sep: string) {
    forall i {:trigger StandsAt(part + sep, sep, i)} :: 0 <= i < |part| ==> !StandsAt(part + sep, sep, i)
  }

  /** The parts are what lies between the occurrences of sep, each taken as far left as possible. */
  ghost predicate SplitLeftmost(parts: seq<string>, sep: string)
    decreases |parts|
  {
    if parts == [] then false
    else if |parts| == 1 then forall i {:trigger StandsAt(parts[0], sep, i)} :: 0 <= i ==> !StandsAt(parts[0], sep, i)
    else UpToFirst(parts[0], sep) && SplitLeftmost(parts[1..], sep)
  }

  lemma {:induction false} ReplaceNone(s: string, sep: string, t: string)
    requires sep != "" && forall i {:trigger StandsAt(s, sep, i)} :: 0 <= i ==> !StandsAt(s, sep, i)
    ensures ReplaceAll(s, sep, t) == s
    decreases |s|
  {
    if |s| >= |sep| {
      assert !StandsAt(s, sep, 0);
      assert s[0..|sep|] == s[..|sep|];
      forall i | 0 <= i ensures !StandsAt(s[1..], sep, i) {
        assert !StandsAt(s, sep, i + 1);
        assert i + |sep| <= |s[1..]| ==> s[1..][i..i + |sep|] == s[i + 1..i + 1 + |sep|];
      }
      ReplaceNone(s[1..], sep, t);
      assert s == [s[0]] + s[1..];
    }
  }

  lemma {:induction false} ReplaceFirst(part: string, sep: string, rest: string, t: string)
    requires sep != "" && UpToFirst(part, sep)
    ensures ReplaceAll(part + sep + rest, sep, t) == part + t + ReplaceAll(rest, sep, t)
    decreases |part|
  {
    var s := part + sep + rest;
    if part == "" {
      assert s[..|sep|] == sep && s[|sep|..] == rest;
    } else {
      assert !StandsAt(part + sep, sep, 0);
      assert s[..|sep|] == (part + sep)[0..|sep|];
      var tail := part[1..];
      assert s[1..] == tail + sep + rest;
      UpToFirstTail(part, sep);
      ReplaceFirst(tail, sep, rest, t);
      var replaced := ReplaceAll(rest, sep, t);
      assert part + t + replaced == [part[0]] + (tail + t + replaced);
    }
  }

  lemma UpToFirstTail(part: string, sep: string)
    requires part != "" && UpToFirst(part, sep)
    ensures UpToFirst(part[1..], sep)
  {
    var tail := part[1..];
    forall i | 0 <= i < |tail| ensures !StandsAt(tail + sep, sep, i) {
      assert !StandsAt(part + sep, sep, i + 1);
      assert (tail + sep)[i..i + |sep|] == (part + sep)[i + 1..i + 1 + |sep|];
    }
  }

  /** Every occurrence is replaced and everything between them is kept, in order. */
  lemma {:induction false} ReplacesBetweenParts(parts: seq<string>, sep: string, t: string)
    requires sep != "" && SplitLeftmost(parts, sep)
    ensures ReplaceAll(Joined(parts, sep), sep, t) == Joined(parts, t)
    decreases |parts|
  {
    if |parts| == 1 {
      ReplaceNone(parts[0], sep, t);
    } else {
      ReplaceFirst(parts[0], sep, Joined(parts[1..], sep), t);
      ReplacesBetweenParts(parts[1..], sep, t);
    }
  }

  lemma FirstPlace(s: string, sep: string, from: nat) returns (i: int)
    requires forall j {:trigger StandsAt(s, sep, j)} :: 0 <= j < from ==> !StandsAt(s, sep, j)
    ensures i == -1 ==> forall j {:trigger StandsAt(s, sep, j)} :: 0 <= j ==> !StandsAt(s, sep, j)
    ensures i != -1 ==> 0 <= i && StandsAt(s, sep, i)
    ensures i != -1 ==> forall j {:trigger StandsAt(s, sep, j)} :: 0 <= j < i ==> !StandsAt(s, sep, j)
    decreases |s| - from
  {
    if from > |s| {
      i := -1;
    } else if StandsAt(s, sep, from) {
      i := from;
    } else {
      i := FirstPlace(s, sep, from + 1);
    }
  }

  /** Every string is such parts joined. */
  lemma {:induction false} PartsOf(s: string, sep: string) returns (parts: seq<string>)
    requires sep != ""
    ensures SplitLeftmost(parts, sep) && Joined(parts, sep) == s
    decreases |s|
  {
    var i := FirstPlace(s, sep, 0);
    if i == -1 {
      parts := [s];
    } else {
      var part, rest := s[..i], s[i + |sep|..];
      var more := PartsOf(rest, sep);
      parts := [part] + more;
      assert parts[1..] == more;
      assert part + sep == s[..i + |sep|];
      forall j | 0 <= j < |part| ensures !StandsAt(part + sep, sep, j) {
        assert !StandsAt(s, sep, j);
        assert j + |sep| <= |part + sep| ==> (part + sep)[j..j + |sep|] == s[j..j + |sep|];
      }
      assert s == part + sep + rest;
    }
  }

  // ----- finding a reference

  /** How many dollar signs stand right before position i, none before position from counted. */
  function DollarsBefore(s: string, from: nat, i: nat): nat
    requires from <= i <= |s|
    decreases i
  {
    if i > from && s[i - 1] == '$' then 1 + DollarsBefore(s, from, i - 1) else 0
  }

  /** Where a reference starts and where its closing bracket is. */
  datatype Found = NotFound | At(open: nat, close: nat)

  /** The reference that findURI finds in s[from..]. */
  function FindAt(s: string, from: nat, hasDefault: bool): (f: Found)
    requires from <= |s| && ContainsFrom(s, '}', from)
    ensures f.At? ==> from <= f.open && f.open + 2 <= f.close < |s|
    decreases |s| - from
  {
    var close := IndexFrom(s, '}', from);
    var open := LastOpen(s, from, close);
    if open < 0 || (!hasDefault && !ContainsIn(s, ':', open, close + 1)) then
      if !ContainsFrom(s, '}', close + 1) then NotFound else FindAt(s, close + 1, hasDefault)
    else if DollarsBefore(s, from, open) % 2 == 1 then NotFound
    else
      assert s[open + 1] == '{';
      At(open, close)
  }

  /** The reference of s that a round of expansion replaces; empty when there is nothing to expand. */
  function Reference(s: string, hasDefault: bool): (uri: string)
    ensures uri != "" ==> 3 <= |uri| <= |s|
  {
    if !HasOpen(s) || !Contains(s, '}') then ""
    else match FindAt(s, 0, hasDefault)
      case NotFound => ""
      case At(open, close) => s[open..close + 1]
  }

  method CountDollars(s: string, from: nat, open: nat) returns (count: nat)
    requires from <= open < |s|
    ensures count == DollarsBefore(s, from, open)
  {
    var index := open - 1;
    var current := '$';
    count := 0;
    while index >= from && current == '$'
      invariant from - 1 <= index < open
      invariant current == '$' ==> DollarsBefore(s, from, open) == count + DollarsBefore(s, from, index + 1)
      invariant current != '$' ==> DollarsBefore(s, from, open) == count
    {
      current := s[index];
      if current == '$' {
        count := count + 1;
      }
      index := index - 1;
    }
  }

  method FindURI(s: string, from: nat, defaultScheme: string) returns (f: Found)
    requires from <= |s| && ContainsFrom(s, '}', from)
    ensures f == FindAt(s, from, defaultScheme != "")
    decreases |s| - from
  {
    var close := IndexFrom(s, '}', from);
    var open := LastOpen(s, from, close);
    if open < 0 || (defaultScheme == "" && !ContainsIn(s, ':', open, close + 1)) {
      if !ContainsFrom(s, '}', close + 1) {
        return NotFound;
      }
      f := FindURI(s, close + 1, defaultScheme);
      return;
    }
    var count := CountDollars(s, from, open);
    return if count % 2 == 1 then NotFound else At(open, close);
  }

  method FindReference(s: string, defaultScheme: string) returns (uri: string)
    ensures uri == Reference(s, defaultScheme != "")
  {
    if !HasOpen(s) || !Contains(s, '}') {
      return "";
    }
    var found := FindURI(s, 0, defaultScheme);
    return if found == NotFound then "" else s[found.open..found.close + 1];
  }

  /** "${" stands at open and the next closing bracket at close, with no other "${" in between. */
  ghost predicate Candidate(s: string, open: nat, close: nat) {
    && open + 2 <= close < |s| && OpenAt(s, open) && s[close] == '}'
    && (forall j :: open < j < close ==> s[j] != '}')
    && (forall j :: open < j < close ==> !OpenAt(s, j))
  }

  /** An odd number of dollar signs stands before it. */
  predicate Escaped(s: string, open: nat)
    requires open <= |s|
  {
    DollarsBefore(s, 0, open) % 2 == 1
  }

  /** s holds a reference from open to close that is innermost and not escaped. */
  ghost predicate InnermostAt(s: string, open: nat, close: nat) {
    Candidate(s, open, close) && !Escaped(s, open)
  }

  /** Where no dollar sign stands before the start, starting there or at 0 counts the same. */
  lemma {:induction false} DollarsFromStart(s: string, from: nat, i: nat)
    requires from <= i <= |s| && (from == 0 || s[from - 1] != '$')
    ensures DollarsBefore(s, from, i) == DollarsBefore(s, 0, i)
    decreases i
  {
    if i > from {
      DollarsFromStart(s, from, i - 1);
    }
  }

  // ----- exactly what is found

  /** A candidate that names a scheme, or needs none. */
  ghost predicate Viable(s: string, open: nat, close: nat, hasDefault: bool) {
    Candidate(s, open, close) && (hasDefault || ContainsIn(s, ':', open, close + 1))
  }

  /** Of the viable candidates from a position on, the one that closes first. */
  ghost predicate FirstViable(s: string, from: nat, open: nat, close: nat, hasDefault: bool) {
    && from <= open && Viable(s, open, close, hasDefault)
    && forall o: nat, c: nat :: from <= o && Viable(s, o, c, hasDefault) ==> close <= c
  }

  ghost predicate NoneViable(s: string, from: nat, hasDefault: bool) {
    forall o: nat, c: nat :: from <= o ==> !Viable(s, o, c, hasDefault)
  }

  ghost predicate FirstEscaped(s: string, from: nat, hasDefault: bool) {
    exists o: nat, c: nat :: FirstViable(s, from, o, c, hasDefault) && Escaped(s, o)
  }

  /** A closing bracket belongs to one candidate at most. */
  lemma SameOpen(s: string, open: nat, o: nat, close: nat)
    requires Candidate(s, open, close) && Candidate(s, o, close)
    ensures open == o
  {
  }

  /** A candidate either closes at the first bracket there is, or lies behind it. */
  lemma CandidateHereOrLater(s: string, from: nat, o: nat, c: nat)
    requires from <= o && Candidate(s, o, c)
    ensures var close := IndexFrom(s, '}', from);
            0 <= close <= c && (c == close ==> o == LastOpen(s, from, close)) && (c > close ==> o > close)
  {
    var close := IndexFrom(s, '}', from);
    assert s[c] == '}';
    if c > close {
      assert s[close] == '}' && s[o] == '$';
    } else {
      var open := LastOpen(s, from, close);
      assert OpenAt(s, o);
    }
  }

  /** The search stopped at the first viable candidate; it found that one if it is not escaped, and nothing
      otherwise. */
  ghost predicate Exact(s: string, from: nat, f: Found, hasDefault: bool) {
    match f
    case At(open, close) => FirstViable(s, from, open, close, hasDefault) && !Escaped(s, open)
    case NotFound => NoneViable(s, from, hasDefault) || FirstEscaped(s, from, hasDefault)
  }

  lemma {:induction false} SearchExactly(s: string, from: nat, hasDefault: bool)
    requires from <= |s| && ContainsFrom(s, '}', from) && (from == 0 || s[from - 1] != '$')
    ensures Exact(s, from, FindAt(s, from, hasDefault), hasDefault)
    decreases |s| - from
  {
    var found := FindAt(s, from, hasDefault);
    var close := IndexFrom(s, '}', from);
    var open := LastOpen(s, from, close);
    if open < 0 || (!hasDefault && !ContainsIn(s, ':', open, close + 1)) {
      if ContainsFrom(s, '}', close + 1) {
        SearchExactly(s, close + 1, hasDefault);
        SkippedExactly(s, from, hasDefault);
      } else {
        assert found == NotFound;
        ExactNowhere(s, from, open, close, hasDefault);
      }
    } else {
      ExactHere(s, from, open, close, hasDefault);
    }
    assert Exact(s, from, found, hasDefault);
  }

  lemma SkippedExactly(s: string, from: nat, hasDefault: bool)
    requires from <= |s| && ContainsFrom(s, '}', from)
    requires var close := IndexFrom(s, '}', from);
             var open := LastOpen(s, from, close);
             && (open < 0 || (!hasDefault && !ContainsIn(s, ':', open, close + 1)))
             && ContainsFrom(s, '}', close + 1) && Exact(s, close + 1, FindAt(s, close + 1, hasDefault), hasDefault)
    ensures Exact(s, from, FindAt(s, from, hasDefault), hasDefault)
  {
    var close := IndexFrom(s, '}', from);
    var found := FindAt(s, close + 1, hasDefault);
    ExactLater(s, from, LastOpen(s, from, close), close, found, hasDefault);
    assert FindAt(s, from, hasDefault) == found;
  }

  lemma ExactHere(s: string, from: nat, open: nat, close: nat, hasDefault: bool)
    requires from <= |s| && close == IndexFrom(s, '}', from) && open == LastOpen(s, from, close)
    requires (hasDefault || ContainsIn(s, ':', open, close + 1)) && (from == 0 || s[from - 1] != '$')
    ensures var found := if DollarsBefore(s, from, open) % 2 == 1 then NotFound else At(open, close);
            Exact(s, from, found, hasDefault)
  {
    FirstHere(s, from, open, close, hasDefault);
    DollarsFromStart(s, from, open);
  }

  lemma FirstHere(s: string, from: nat, open: nat, close: nat, hasDefault: bool)
    requires from <= |s| && close == IndexFrom(s, '}', from) && open == LastOpen(s, from, close)
    requires hasDefault || ContainsIn(s, ':', open, close + 1)
    ensures FirstViable(s, from, open, close, hasDefault)
  {
    assert s[open + 1] == '{';
    forall o: nat, c: nat | from <= o && Viable(s, o, c, hasDefault) ensures close <= c {
      CandidateHereOrLater(s, from, o, c);
    }
  }

  /** No viable candidate closes at a bracket that the search goes past. */
  lemma SkippedClose(s: string, from: nat, open: int, close: nat, hasDefault: bool)
    requires from <= |s| && close == IndexFrom(s, '}', from) && open == LastOpen(s, from, close)
    requires open < 0 || (!hasDefault && !ContainsIn(s, ':', open, close + 1))
    ensures forall o: nat, c: nat :: from <= o && Viable(s, o, c, hasDefault) ==> close + 1 <= o
  {
    forall o: nat, c: nat | from <= o && Viable(s, o, c, hasDefault) ensures close + 1 <= o {
      CandidateHereOrLater(s, from, o, c);
    }
  }

  lemma ExactLater(s: string, from: nat, open: int, close: nat, f: Found, hasDefault: bool)
    requires from <= |s| && close == IndexFrom(s, '}', from) && open == LastOpen(s, from, close)
    requires open < 0 || (!hasDefault && !ContainsIn(s, ':', open, close + 1))
    requires Exact(s, close + 1, f, hasDefault)
    ensures Exact(s, from, f, hasDefault)
  {
    SkippedClose(s, from, open, close, hasDefault);
    if f.NotFound? && FirstEscaped(s, close + 1, hasDefault) {
      var o: nat, c: nat :| FirstViable(s, close + 1, o, c, hasDefault) && Escaped(s, o);
      assert FirstViable(s, from, o, c, hasDefault);
    }
  }

  lemma ExactNowhere(s: string, from: nat, open: int, close: nat, hasDefault: bool)
    requires from <= |s| && close == IndexFrom(s, '}', from) && open == LastOpen(s, from, close)
    requires open < 0 || (!hasDefault && !ContainsIn(s, ':', open, close + 1))
    requires close < |s| && !ContainsFrom(s, '}', close + 1)
    ensures Exact(s, from, NotFound, hasDefault)
  {
    NoneBehindLast(s, close, hasDefault);
    SkippedClose(s, from, open, close, hasDefault);
  }

  lemma NoneBehindLast(s: string, close: nat, hasDefault: bool)
    requires close < |s| && !ContainsFrom(s, '}', close + 1)
    ensures NoneViable(s, close + 1, hasDefault)
  {
  }

  /** What is found is an innermost, unescaped reference; with no default scheme it names a scheme. */
  lemma FoundIsInnermost(s: string, from: nat, hasDefault: bool)
    requires from <= |s| && ContainsFrom(s, '}', from) && (from == 0 || s[from - 1] != '$')
    ensures var f := FindAt(s, from, hasDefault);
            f.At? ==> InnermostAt(s, f.open, f.close) && (hasDefault || ContainsIn(s, ':', f.open, f.close + 1))
  {
    SearchExactly(s, from, hasDefault);
  }

  lemma SameFirst(s: string, o: nat, c: nat, o': nat, c': nat, hasDefault: bool)
    requires FirstViable(s, 0, o, c, hasDefault) && FirstViable(s, 0, o', c', hasDefault)
    ensures o == o' && c == c'
  {
    SameOpen(s, o, o', c);
  }

  /** A reference is found if and only if it is the first viable candidate and not escaped. */
  lemma FoundExactly(s: string, open: nat, close: nat, hasDefault: bool)
    requires Contains(s, '}')
    ensures FindAt(s, 0, hasDefault) == At(open, close)
            <==> FirstViable(s, 0, open, close, hasDefault) && !Escaped(s, open)
  {
    SearchExactly(s, 0, hasDefault);
    if FirstViable(s, 0, open, close, hasDefault) && !Escaped(s, open) {
      match FindAt(s, 0, hasDefault) {
        case At(o, c) =>
          SameFirst(s, open, close, o, c, hasDefault);
        case NotFound =>
          assert Viable(s, open, close, hasDefault);
          var o: nat, c: nat :| FirstViable(s, 0, o, c, hasDefault) && Escaped(s, o);
          SameFirst(s, open, close, o, c, hasDefault);
      }
    }
  }

  /** A string offers nothing for expansion if and only if it has no viable candidate or the first one is escaped, with
      any number of other candidates before it and anything after it. */
  lemma NothingExactly(s: string, hasDefault: bool)
    ensures Reference(s, hasDefault) == "" <==> NoneViable(s, 0, hasDefault) || FirstEscaped(s, 0, hasDefault)
  {
    if HasOpen(s) && Contains(s, '}') {
      SearchExactly(s, 0, hasDefault);
      match FindAt(s, 0, hasDefault) {
        case NotFound =>
        case At(open, close) =>
          if FirstEscaped(s, 0, hasDefault) {
            var o: nat, c: nat :| FirstViable(s, 0, o, c, hasDefault) && Escaped(s, o);
            SameFirst(s, open, close, o, c, hasDefault);
          }
      }
    } else {
      NeedsBrackets(s, hasDefault);
    }
  }

  lemma NeedsBrackets(s: string, hasDefault: bool)
    requires !HasOpen(s) || !Contains(s, '}')
    ensures NoneViable(s, 0, hasDefault)
  {
  }

  // ----- what follows an escaped candidate

  lemma {:induction false} IndexFromPrefix(u: string, t: string, c: char, from: nat)
    requires from <= |u| && IndexFrom(u, c, from) >= 0
    ensures IndexFrom(u + t, c, from) == IndexFrom(u, c, from)
    decreases |u| - from
  {
    if u[from] != c {
      IndexFromPrefix(u, t, c, from + 1);
    }
  }

  lemma {:induction false} DollarsBeforePrefix(u: string, t: string, from: nat, i: nat)
    requires from <= i <= |u|
    ensures DollarsBefore(u + t, from, i) == DollarsBefore(u, from, i)
    decreases i
  {
    if i > from {
      DollarsBeforePrefix(u, t, from, i - 1);
    }
  }

  lemma ViablePrefix(u: string, t: string, o: nat, c: nat, hasDefault: bool)
    requires c < |u|
    ensures Viable(u + t, o, c, hasDefault) <==> Viable(u, o, c, hasDefault)
  {
    assert forall j :: 0 <= j < |u| ==> (u + t)[j] == u[j];
    assert forall j :: 0 <= j < c ==> OpenAt(u + t, j) == OpenAt(u, j);
    if o < c && !hasDefault {
      if IndexFrom(u, ':', o) >= 0 {
        IndexFromPrefix(u, t, ':', o);
      }
    }
  }

  lemma FirstPrefix(u: string, t: string, open: nat, close: nat, hasDefault: bool)
    requires FirstViable(u, 0, open, close, hasDefault)
    ensures FirstViable(u + t, 0, open, close, hasDefault)
  {
    ViablePrefix(u, t, open, close, hasDefault);
    forall o: nat, c: nat | Viable(u + t, o, c, hasDefault) ensures close <= c {
      if c < |u| {
        ViablePrefix(u, t, o, c, hasDefault);
      }
    }
  }

  /** An escaped candidate ends the search: if the first viable one is escaped, nothing is found whatever follows. */
  lemma EscapedCandidateEndsSearch(u: string, t: string, open: nat, close: nat, hasDefault: bool)
    requires FirstViable(u, 0, open, close, hasDefault) && Escaped(u, open)
    ensures Reference(u + t, hasDefault) == ""
  {
    DollarsBeforePrefix(u, t, 0, open);
    FirstPrefix(u, t, open, close, hasDefault);
    NothingExactly(u + t, hasDefault);
  }

  // ----- escaping by doubling

  function Doubled(s: string): string {
    if s == "" then "" else (if s[0] == '$' then "$$" else [s[0]]) + Doubled(s[1..])
  }

  /** strings.ReplaceAll(s, "$$", "$") */
  function Unescape(s: string): string {
    ReplaceAll(s, "$$", "$")
  }

  /** Pairs of dollar signs, taken from the left, become single ones, and nothing else changes. */
  lemma UnescapesPairs(parts: seq<string>)
    requires SplitLeftmost(parts, "$$")
    ensures Unescape(Joined(parts, "$$")) == Joined(parts, "$")
  {
    ReplacesBetweenParts(parts, "$$", "$");
  }

  lemma {:induction false} UnescapeUndoesDoubling(s: string)
    ensures Unescape(Doubled(s)) == s
  {
    if s != "" {
      UnescapeUndoesDoubling(s[1..]);
      var d, rest := Doubled(s), Doubled(s[1..]);
      if s[0] == '$' {
        assert d[..2] == "$$" && d[2..] == rest;
      } else if rest == "" {
        assert d == [s[0]];
      } else {
        assert d[0] != '$' && d[1..] == rest;
      }
    }
  }

  /** Every run of dollar signs that ends before another character, or ends the string, is even. */
  ghost predicate EvenRuns(s: string) {
    forall i :: 0 <= i <= |s| && (i == |s| || s[i] != '$') ==> DollarsBefore(s, 0, i) % 2 == 0
  }

  lemma {:induction false} DollarsBehind(c: char, s: string, i: nat)
    requires c != '$' && i <= |s|
    ensures DollarsBefore([c] + s, 0, i + 1) == DollarsBefore(s, 0, i)
    decreases i
  {
    if i > 0 {
      DollarsBehind(c, s, i - 1);
    }
  }

  lemma {:induction false} DollarsBehindPair(s: string, i: nat)
    requires i <= |s|
    ensures DollarsBefore("$$" + s, 0, i + 2) % 2 == DollarsBefore(s, 0, i) % 2
    decreases i
  {
    var t := "$$" + s;
    if i == 0 {
      assert DollarsBefore(t, 0, 1) == 1 + DollarsBefore(t, 0, 0);
      assert DollarsBefore(t, 0, 2) == 1 + DollarsBefore(t, 0, 1);
    } else {
      assert t[i + 1] == s[i - 1];
      DollarsBehindPair(s, i - 1);
    }
  }

  lemma {:induction false} DoubledHasEvenRuns(s: string)
    ensures EvenRuns(Doubled(s))
  {
    if s != "" {
      DoubledHasEvenRuns(s[1..]);
      var d, rest := Doubled(s), Doubled(s[1..]);
      forall i | 0 <= i <= |d| && (i == |d| || d[i] != '$') ensures DollarsBefore(d, 0, i) % 2 == 0 {
        if s[0] == '$' && i >= 2 {
          DollarsBehindPair(rest, i - 2);
        } else if s[0] != '$' && i >= 1 {
          DollarsBehind(s[0], rest, i - 1);
        }
      }
    }
  }

  lemma EvenRunsEscape(s: string)
    requires EvenRuns(s)
    ensures forall o: nat :: OpenAt(s, o) ==> Escaped(s, o)
  {
    forall o: nat | OpenAt(s, o) ensures Escaped(s, o) {
      assert DollarsBefore(s, 0, o + 1) == 1 + DollarsBefore(s, 0, o);
    }
  }

  lemma EvenRunsFindNothing(s: string, hasDefault: bool)
    requires EvenRuns(s)
    ensures Reference(s, hasDefault) == ""
  {
    EvenRunsEscape(s);
    if HasOpen(s) && Contains(s, '}') {
      SearchExactly(s, 0, hasDefault);
    }
  }

  /** A string with every dollar sign doubled holds nothing to expand, and unescaping gives the string back. */
  lemma DoublingProtects(s: string, hasDefault: bool)
    ensures Reference(Doubled(s), hasDefault) == ""
    ensures Unescape(Doubled(s)) == s
  {
    DoubledHasEvenRuns(s);
    EvenRunsFindNothing(Doubled(s), hasDefault);
    UnescapeUndoesDoubling(s);
  }
}
