/**
 Pipeline IDs and their text form, and InstanceID, which keeps a set of pipeline IDs as one
 sorted, delimited string so that it can be compared.

 Which characters a name may hold is a parameter; all that matters is that no white space
 is among them.
 */
module Pipelines {
  import opened Common
  import opened Text

  datatype ID = ID(signal: string, name: string)

  const SIGNALS := {"profiles", "traces", "metrics", "logs"}

  function ToString(id: ID): string {
    if id.name == "" then id.signal else id.signal + "/" + id.name
  }

  /** unicode.IsSpace */
  predicate IsSpace(c: char) {
    var n := c as int;
    || 0x09 <= n <= 0x0d || n == 0x20 || n == 0x85 || n == 0xa0 || n == 0x1680 || 0x2000 <= n <= 0x200a
    || n == 0x2028 || n == 0x2029 || n == 0x202f || n == 0x205f || n == 0x3000
  }

  /** A class of name characters that leaves white space out. */
  ghost predicate Spaceless(ok: char -> bool) {
    forall c :: IsSpace(c) ==> !ok(c)
  }

  function TrimLeft(s: string): string {
    if s != "" && IsSpace(s[0]) then TrimLeft(s[1..]) else s
  }

  function TrimRight(s: string): string {
    if s != "" && IsSpace(s[|s| - 1]) then TrimRight(s[..|s| - 1]) else s
  }

  function TrimSpace(s: string): string {
    TrimRight(TrimLeft(s))
  }

  /** The length of the UTF-8 encoding. */
  function ByteLength(s: string): nat {
    if s == "" then 0
    else
      var n := s[0] as int;
      (if n < 0x80 then 1 else if n < 0x800 then 2 else if n < 0x10000 then 3 else 4) + ByteLength(s[1..])
  }

  predicate ValidName(ok: char -> bool, name: string) {
    name != "" && ByteLength(name) <= 1024 && forall i :: 0 <= i < |name| ==> ok(name[i])
  }

  /** The position of the first slash, or -1. */
  function Slash(s: string, from: nat): (i: int)
    requires from <= |s|
    ensures i == -1 || (from <= i < |s| && s[i] == '/')
    decreases |s| - from
  {
    if from == |s| then -1 else if s[from] == '/' then from else Slash(s, from + 1)
  }

  function UnmarshalText(ok: char -> bool, text: string): Option<ID> {
    var cut := Slash(text, 0);
    var signal := TrimSpace(if cut < 0 then text else text[..cut]);
    if signal == "" then None
    else if cut < 0 then if signal in SIGNALS then Some(ID(signal, "")) else None
    else
      var name := TrimSpace(text[cut + 1..]);
      if !ValidName(ok, name) then None
      else if signal in SIGNALS then Some(ID(signal, name)) else None
  }

  predicate Valid(ok: char -> bool, id: ID) {
    id.signal in SIGNALS && (id.name == "" || ValidName(ok, id.name))
  }

  lemma SignalFacts(signal: string)
    requires signal in SIGNALS
    ensures signal != "" && forall i :: 0 <= i < |signal| ==> signal[i] != '/' && !IsSpace(signal[i])
  {
  }

  lemma {:induction false} SlashAt(s: string, from: nat, at: nat)
    requires from <= at <= |s| && (forall i :: from <= i < at ==> s[i] != '/') && (at < |s| ==> s[at] == '/')
    ensures Slash(s, from) == if at < |s| then at else -1
    decreases at - from
  {
    if from < at {
      SlashAt(s, from + 1, at);
    }
  }

  /** Parsing undoes printing for every valid ID. */
  lemma UnmarshalToString(ok: char -> bool, id: ID)
    requires Spaceless(ok) && Valid(ok, id)
    ensures UnmarshalText(ok, ToString(id)) == Some(id)
  {
    SignalFacts(id.signal);
    var s := ToString(id);
    SlashAt(s, 0, |id.signal|);
    if id.name != "" {
      assert s[..|id.signal|] == id.signal && s[|id.signal| + 1..] == id.name;
    }
  }

  /** And what parses is valid. */
  lemma UnmarshalIsValid(ok: char -> bool, text: string)
    ensures UnmarshalText(ok, text).Some? ==> Valid(ok, UnmarshalText(ok, text).value)
  {
  }

  // ----- which texts parse

  predicate Blank(s: string) {
    forall i :: 0 <= i < |s| ==> IsSpace(s[i])
  }

  /** s is core with white space around it. */
  ghost predicate Padded(s: string, core: string) {
    exists before, after :: Blank(before) && Blank(after) && s == before + core + after
  }

  /** Not empty, with no white space at its ends. */
  predicate Tight(s: string) {
    s != "" && !IsSpace(s[0]) && !IsSpace(s[|s| - 1])
  }

  lemma {:induction false} TrimLeftPadding(before: string, s: string)
    requires Blank(before) && s != "" && !IsSpace(s[0])
    ensures TrimLeft(before + s) == s
    decreases |before|
  {
    if before == "" {
      assert before + s == s;
    } else {
      assert (before + s)[0] == before[0] && (before + s)[1..] == before[1..] + s;
      TrimLeftPadding(before[1..], s);
    }
  }

  lemma {:induction false} TrimRightPadding(s: string, after: string)
    requires Blank(after) && s != "" && !IsSpace(s[|s| - 1])
    ensures TrimRight(s + after) == s
    decreases |after|
  {
    if after == "" {
      assert s + after == s;
    } else {
      var n := |after| - 1;
      assert (s + after)[|s + after| - 1] == after[n] && (s + after)[..|s + after| - 1] == s + after[..n];
      TrimRightPadding(s, after[..n]);
    }
  }

  lemma TrimPadded(s: string, core: string)
    requires Padded(s, core) && Tight(core)
    ensures TrimSpace(s) == core
  {
    var before, after :| Blank(before) && Blank(after) && s == before + core + after;
    assert s == before + (core + after) && (core + after)[0] == core[0];
    TrimLeftPadding(before, core + after);
    TrimRightPadding(core, after);
  }

  lemma {:induction false} TrimmedLeft(s: string) returns (before: string)
    ensures Blank(before) && s == before + TrimLeft(s) && (TrimLeft(s) != "" ==> !IsSpace(TrimLeft(s)[0]))
    decreases s
  {
    if s != "" && IsSpace(s[0]) {
      var rest := TrimmedLeft(s[1..]);
      before := [s[0]] + rest;
      assert s == [s[0]] + s[1..];
    } else {
      before := "";
      assert s == "" + s;
    }
  }

  lemma {:induction false} TrimmedRight(s: string) returns (after: string)
    ensures Blank(after) && s == TrimRight(s) + after
    ensures TrimRight(s) != "" ==> !IsSpace(TrimRight(s)[|TrimRight(s)| - 1])
    decreases s
  {
    if s != "" && IsSpace(s[|s| - 1]) {
      var n := |s| - 1;
      var rest := TrimmedRight(s[..n]);
      after := rest + [s[n]];
      assert s == s[..n] + [s[n]];
    } else {
      after := "";
      assert s == s + "";
    }
  }

  lemma TrimIsPadded(s: string)
    ensures Padded(s, TrimSpace(s)) && (TrimSpace(s) != "" ==> Tight(TrimSpace(s)))
  {
    var before := TrimmedLeft(s);
    var after := TrimmedRight(TrimLeft(s));
    assert s == before + TrimSpace(s) + after;
    if TrimSpace(s) != "" {
      assert TrimSpace(s)[0] == TrimLeft(s)[0];
    }
  }

  /** A known signal and, after a slash, a name; each may have white space around it. */
  ghost predicate Reads(text: string, id: ID) {
    if id.name == "" then Padded(text, id.signal)
    else exists cut :: 0 <= cut < |text| && text[cut] == '/' && Around(text, cut, id)
  }

  ghost predicate Around(text: string, cut: nat, id: ID)
    requires cut < |text|
  {
    Padded(text[..cut], id.signal) && Padded(text[cut + 1..], id.name)
  }

  lemma SignalHasNoSlash(text: string, signal: string)
    requires signal in SIGNALS && Padded(text, signal)
    ensures Tight(signal) && forall i :: 0 <= i < |text| ==> text[i] != '/'
  {
    SignalFacts(signal);
    var before, after :| Blank(before) && Blank(after) && text == before + signal + after;
    assert !IsSpace('/');
    forall i | 0 <= i < |text| ensures text[i] != '/' {
      if i < |before| {
        assert text[i] == before[i];
      } else if i < |before| + |signal| {
        assert text[i] == signal[i - |before|];
      } else {
        assert text[i] == after[i - |before| - |signal|];
      }
    }
  }

  /** A text parses to an ID exactly when it reads so and the ID is valid. */
  lemma UnmarshalExactly(ok: char -> bool, text: string, id: ID)
    requires Spaceless(ok)
    ensures UnmarshalText(ok, text) == Some(id) <==> Valid(ok, id) && Reads(text, id)
  {
    if Valid(ok, id) && Reads(text, id) {
      if id.name == "" {
        SignalParses(ok, text, id.signal);
      } else {
        var cut :| 0 <= cut < |text| && text[cut] == '/' && Around(text, cut, id);
        NamedParses(ok, text, cut, id);
      }
    }
    if UnmarshalText(ok, text) == Some(id) {
      var cut := Slash(text, 0);
      TrimIsPadded(if cut < 0 then text else text[..cut]);
      if cut >= 0 {
        TrimIsPadded(text[cut + 1..]);
        assert Around(text, cut, id);
      }
    }
  }

  lemma SignalParses(ok: char -> bool, text: string, signal: string)
    requires signal in SIGNALS && Padded(text, signal)
    ensures UnmarshalText(ok, text) == Some(ID(signal, ""))
  {
    SignalHasNoSlash(text, signal);
    SlashAt(text, 0, |text|);
    TrimPadded(text, signal);
  }

  lemma NamedParses(ok: char -> bool, text: string, cut: nat, id: ID)
    requires Spaceless(ok) && id.signal in SIGNALS && ValidName(ok, id.name)
    requires cut < |text| && text[cut] == '/' && Around(text, cut, id)
    ensures UnmarshalText(ok, text) == Some(id)
  {
    FirstSlash(text, cut, id.signal);
    assert TrimSpace(text[cut + 1..]) == id.name by {
      assert ok(id.name[0]) && ok(id.name[|id.name| - 1]);
      TrimPadded(text[cut + 1..], id.name);
    }
  }

  lemma FirstSlash(text: string, cut: nat, signal: string)
    requires cut < |text| && text[cut] == '/' && signal in SIGNALS && Padded(text[..cut], signal)
    ensures Slash(text, 0) == cut && TrimSpace(text[..cut]) == signal && signal != ""
  {
    SignalHasNoSlash(text[..cut], signal);
    assert forall i :: 0 <= i < cut ==> text[i] == text[..cut][i];
    SlashAt(text, 0, cut);
    TrimPadded(text[..cut], signal);
  }

  /** An ID of a known signal whose name does not hold the delimiter of instance IDs; anything else may occur in it. */
  predicate Delimited(id: ID) {
    id.signal in SIGNALS && Free(id.name, ' ')
  }

  lemma ValidIsDelimited(ok: char -> bool, id: ID)
    requires Spaceless(ok) && Valid(ok, id)
    ensures Delimited(id)
  {
    assert IsSpace(' ');
  }

  lemma ToStringFacts(id: ID)
    requires Delimited(id)
    ensures ToString(id) != "" && Free(ToString(id), ' ')
  {
    SignalFacts(id.signal);
    assert IsSpace(' ');
  }

  /** IDs of known signals that print alike are the same, whatever their names. */
  lemma ToStringInjective(a: ID, b: ID)
    requires a.signal in SIGNALS && b.signal in SIGNALS && ToString(a) == ToString(b)
    ensures a == b
  {
    SignalFacts(a.signal);
    SignalFacts(b.signal);
    var s := ToString(a);
    SlashAt(s, 0, |a.signal|);
    SlashAt(s, 0, |b.signal|);
    assert a.signal == s[..|a.signal|] && b.signal == s[..|b.signal|];
    assert a.name != "" ==> a.name == s[|a.signal| + 1..];
    assert b.name != "" ==> b.name == s[|b.signal| + 1..];
  }
}

module Instances {
  import opened Common
  import opened Text
  import opened Pipelines

  const DELIM := ' '

  function Strings(ids: seq<ID>): (s: seq<string>)
    ensures |s| == |ids| && forall i :: 0 <= i < |ids| ==> s[i] == ToString(ids[i])
  {
    seq(|ids|, i requires 0 <= i < |ids| => ToString(ids[i]))
  }

  /** What addPipelines makes of the encoded string. */
  function Added(encoded: string, ids: seq<ID>): string {
    Join(SortedUnique(Split(encoded, DELIM) + Strings(ids)), DELIM) + [DELIM]
  }

  /** The encoding of a set, given by its strings in increasing order: an empty string comes first. */
  function Canonical(sorted: seq<string>): string {
    Join([""] + sorted, DELIM) + [DELIM]
  }

  /** Strings that are not empty and do not hold the delimiter. */
  predicate Plain(s: seq<string>) {
    forall i :: 0 <= i < |s| ==> s[i] != "" && Free(s[i], DELIM)
  }

  lemma PlainSorted(s: seq<string>)
    requires Plain(s)
    ensures Plain(SortedUnique(s)) && Increasing(SortedUnique(s)) && Elements(SortedUnique(s)) == Elements(s)
  {
    SortedUniqueIsSorted(s);
    var t := SortedUnique(s);
    forall i | 0 <= i < |t| ensures t[i] != "" && Free(t[i], DELIM) {
      assert t[i] in Elements(t);
      assert t[i] in s;
    }
  }

  lemma SplitCanonical(sorted: seq<string>)
    requires Plain(sorted)
    ensures Split(Canonical(sorted), DELIM) == [""] + sorted + [""]
  {
    var parts := [""] + sorted;
    JoinAppend(parts, "", DELIM);
    assert Join(parts + [""], DELIM) == Canonical(sorted);
    forall i | 0 <= i < |parts + [""]| ensures Free((parts + [""])[i], DELIM) {
      if 0 < i <= |sorted| {
        assert (parts + [""])[i] == sorted[i - 1];
      }
    }
    SplitJoin(parts + [""], DELIM);
  }

  /** Sorting with an empty string among the others puts it first. */
  lemma SortWithEmpty(all: seq<string>, plain: seq<string>)
    requires Plain(plain) && Elements(all) == Elements(plain) + {""}
    ensures SortedUnique(all) == [""] + SortedUnique(plain)
  {
    PlainSorted(plain);
    SortedUniqueIsSorted(all);
    var m := SortedUnique(plain);
    forall y | y in m ensures Less("", y) {
      var i :| 0 <= i < |m| && m[i] == y;
    }
    IncreasingCons("", m);
    ElementsCons("", m);
    IncreasingUnique(SortedUnique(all), [""] + m);
  }

  /** A new instance holds the canonical encoding of its pipelines. */
  lemma AddedToNothing(ids: seq<ID>)
    requires Plain(Strings(ids))
    ensures Added("", ids) == Canonical(SortedUnique(Strings(ids)))
  {
    var all := Split("", DELIM) + Strings(ids);
    assert all == [""] + Strings(ids);
    ElementsCons("", Strings(ids));
    SortWithEmpty(all, Strings(ids));
  }

  /** Adding pipelines to an instance gives the canonical encoding of all of them. */
  lemma AddedToCanonical(ids: seq<ID>, more: seq<ID>)
    requires Plain(Strings(ids)) && Plain(Strings(more))
    ensures Added(Canonical(SortedUnique(Strings(ids))), more) == Canonical(SortedUnique(Strings(ids + more)))
  {
    var m, both := SortedUnique(Strings(ids)), Strings(ids + more);
    PlainSorted(Strings(ids));
    SplitCanonical(m);
    var all := [""] + m + [""] + Strings(more);
    assert both == Strings(ids) + Strings(more);
    assert Elements(all) == Elements(m) + {""} + Elements(Strings(more));
    assert Elements(both) == Elements(Strings(ids)) + Elements(Strings(more));
    SortWithEmpty(all, both);
  }

  predicate AllDelimited(ids: seq<ID>) {
    forall i :: 0 <= i < |ids| ==> Delimited(ids[i])
  }

  lemma DelimitedArePlain(ids: seq<ID>)
    requires AllDelimited(ids)
    ensures Plain(Strings(ids))
  {
    forall i | 0 <= i < |ids| ensures ToString(ids[i]) != "" && Free(ToString(ids[i]), DELIM) {
      ToStringFacts(ids[i]);
    }
  }

  function IdSet(ids: seq<ID>): set<ID> {
    set id | id in ids
  }

  lemma SameStrings(a: seq<ID>, b: seq<ID>)
    requires AllDelimited(a) && AllDelimited(b)
    requires Elements(Strings(a)) <= Elements(Strings(b))
    ensures IdSet(a) <= IdSet(b)
  {
    forall id | id in a ensures id in b {
      var i :| 0 <= i < |a| && a[i] == id;
      assert Strings(a)[i] in Elements(Strings(b));
      var j :| 0 <= j < |b| && Strings(b)[j] == ToString(id);
      ToStringInjective(id, b[j]);
    }
  }

  lemma SameIds(a: seq<ID>, b: seq<ID>)
    requires IdSet(a) <= IdSet(b)
    ensures Elements(Strings(a)) <= Elements(Strings(b))
  {
    forall x | x in Strings(a) ensures x in Strings(b) {
      var i :| 0 <= i < |a| && Strings(a)[i] == x;
      assert a[i] in IdSet(b);
      var j :| 0 <= j < |b| && b[j] == a[i];
      assert Strings(b)[j] == x;
    }
  }

  /** The encoding is that of a set: in any order and with any repetitions, encodings are equal exactly when the
      sets of IDs are. */
  lemma CanonicalSet(a: seq<ID>, b: seq<ID>)
    requires AllDelimited(a) && AllDelimited(b)
    ensures Canonical(SortedUnique(Strings(a))) == Canonical(SortedUnique(Strings(b))) <==> IdSet(a) == IdSet(b)
  {
    DelimitedArePlain(a);
    DelimitedArePlain(b);
    PlainSorted(Strings(a));
    PlainSorted(Strings(b));
    var m, n := SortedUnique(Strings(a)), SortedUnique(Strings(b));
    if Canonical(m) == Canonical(n) {
      SplitCanonical(m);
      SplitCanonical(n);
      assert ([""] + m + [""])[1..|m| + 1] == m && ([""] + n + [""])[1..|n| + 1] == n;
      SameStrings(a, b);
      SameStrings(b, a);
    }
    if IdSet(a) == IdSet(b) {
      SameIds(a, b);
      SameIds(b, a);
      IncreasingUnique(m, n);
    }
  }

  // ----- reading the set back

  ghost predicate AllValid(ok: char -> bool, ids: seq<ID>) {
    forall i :: 0 <= i < |ids| ==> Valid(ok, ids[i])
  }

  lemma AllValidDelimited(ok: char -> bool, ids: seq<ID>)
    requires Spaceless(ok) && AllValid(ok, ids)
    ensures AllDelimited(ids)
  {
    forall i | 0 <= i < |ids| ensures Delimited(ids[i]) {
      ValidIsDelimited(ok, ids[i]);
    }
  }

  /** The scan of the encoded string: bs is the part read since the last delimiter. */
  function Scan(ok: char -> bool, bs: string, s: string, f: ID -> bool): seq<ID>
    decreases s
  {
    if s == "" then []
    else if s[0] != DELIM then Scan(ok, bs + [s[0]], s[1..], f)
    else match UnmarshalText(ok, bs)
      case None => Scan(ok, "", s[1..], f)
      case Some(id) => if f(id) then [id] + Scan(ok, "", s[1..], f) else [id]
  }

  lemma {:induction false} ScanPart(ok: char -> bool, bs: string, part: string, rest: string, f: ID -> bool)
    requires Free(part, DELIM)
    ensures Scan(ok, bs, part + rest, f) == Scan(ok, bs + part, rest, f)
    decreases part
  {
    if part == "" {
      assert part + rest == rest && bs + part == bs;
    } else {
      assert (part + rest)[1..] == part[1..] + rest;
      assert bs + [part[0]] + part[1..] == bs + part;
      ScanPart(ok, bs + [part[0]], part[1..], rest, f);
    }
  }

  /** The IDs up to and including the first one at which f says to stop. */
  function Through(ids: seq<ID>, f: ID -> bool): seq<ID> {
    if ids == [] then [] else if f(ids[0]) then [ids[0]] + Through(ids[1..], f) else [ids[0]]
  }

  lemma ScanOne(ok: char -> bool, id: ID, tail: string, f: ID -> bool)
    requires Spaceless(ok) && Valid(ok, id)
    ensures Scan(ok, "", ToString(id) + ([DELIM] + tail), f) == if f(id) then [id] + Scan(ok, "", tail, f) else [id]
  {
    var head := ToString(id);
    ValidIsDelimited(ok, id);
    ToStringFacts(id);
    UnmarshalToString(ok, id);
    ScanPart(ok, "", head, [DELIM] + tail, f);
    assert ([DELIM] + tail)[1..] == tail && "" + head == head;
  }

  lemma JoinStrings(ids: seq<ID>)
    requires |ids| > 1
    ensures Join(Strings(ids), DELIM) + [DELIM]
         == ToString(ids[0]) + ([DELIM] + (Join(Strings(ids[1..]), DELIM) + [DELIM]))
  {
    assert Strings(ids)[1..] == Strings(ids[1..]);
  }

  lemma {:induction false} ScanJoined(ok: char -> bool, ids: seq<ID>, f: ID -> bool)
    requires Spaceless(ok) && AllValid(ok, ids) && ids != []
    ensures Scan(ok, "", Join(Strings(ids), DELIM) + [DELIM], f) == Through(ids, f)
    decreases ids
  {
    if |ids| == 1 {
      ScanOne(ok, ids[0], "", f);
      assert Join(Strings(ids), DELIM) + [DELIM] == ToString(ids[0]) + ([DELIM] + "");
    } else {
      JoinStrings(ids);
      ScanOne(ok, ids[0], Join(Strings(ids[1..]), DELIM) + [DELIM], f);
      ScanJoined(ok, ids[1..], f);
    }
  }

  lemma UnmarshalEmpty(ok: char -> bool)
    ensures UnmarshalText(ok, "") == None
  {
  }

  lemma ScanCanonical(ok: char -> bool, ids: seq<ID>, f: ID -> bool)
    requires Spaceless(ok) && AllValid(ok, ids)
    ensures Scan(ok, "", Canonical(Strings(ids)), f) == Through(ids, f)
  {
    UnmarshalEmpty(ok);
    var c, parts := Canonical(Strings(ids)), [""] + Strings(ids);
    assert parts[1..] == Strings(ids);
    if ids == [] {
      assert c == [DELIM];
      assert c[1..] == "";
    } else {
      var rest := Join(Strings(ids), DELIM) + [DELIM];
      assert c == [DELIM] + rest;
      assert c[1..] == rest;
      ScanJoined(ok, ids, f);
    }
  }

  lemma FindString(ids: seq<ID>, x: string) returns (j: nat)
    requires x in Elements(Strings(ids))
    ensures j < |ids| && ToString(ids[j]) == x
  {
    j :| 0 <= j < |ids| && Strings(ids)[j] == x;
  }

  lemma StringsCons(id: ID, ids: seq<ID>)
    ensures Strings([id] + ids) == [ToString(id)] + Strings(ids)
  {
  }

  /** IDs whose strings are the given ones. */
  lemma {:induction false} IdsOf(ok: char -> bool, sorted: seq<string>, ids: seq<ID>) returns (of: seq<ID>)
    requires AllValid(ok, ids) && Elements(sorted) <= Elements(Strings(ids))
    ensures Strings(of) == sorted && AllValid(ok, of)
    decreases sorted
  {
    if sorted == [] {
      of := [];
    } else {
      assert sorted == [sorted[0]] + sorted[1..];
      ElementsCons(sorted[0], sorted[1..]);
      var rest := IdsOf(ok, sorted[1..], ids);
      var j := FindString(ids, sorted[0]);
      of := [ids[j]] + rest;
      StringsCons(ids[j], rest);
    }
  }

  /** Reading the encoding of any valid IDs visits exactly their set, each once, in the order of their strings. */
  lemma VisitsTheSet(ok: char -> bool, ids: seq<ID>) returns (visited: seq<ID>)
    requires Spaceless(ok) && AllValid(ok, ids)
    ensures forall f: ID -> bool :: Scan(ok, "", Canonical(SortedUnique(Strings(ids))), f) == Through(visited, f)
    ensures Increasing(Strings(visited)) && IdSet(visited) == IdSet(ids)
  {
    var sorted := SortedUnique(Strings(ids));
    SortedUniqueIsSorted(Strings(ids));
    visited := IdsOf(ok, sorted, ids);
    forall f: ID -> bool ensures Scan(ok, "", Canonical(sorted), f) == Through(visited, f) {
      ScanCanonical(ok, visited, f);
    }
    AllValidDelimited(ok, ids);
    AllValidDelimited(ok, visited);
    SameStrings(visited, ids);
    SameStrings(ids, visited);
  }

  lemma {:induction false} ScanIsValid(ok: char -> bool, bs: string, s: string, f: ID -> bool)
    ensures AllValid(ok, Scan(ok, bs, s, f))
    decreases s
  {
    if s != "" {
      UnmarshalIsValid(ok, bs);
      ScanIsValid(ok, bs + [s[0]], s[1..], f);
      ScanIsValid(ok, "", s[1..], f);
    }
  }

  lemma {:induction false} ThroughAll(ids: seq<ID>)
    ensures Through(ids, _ => true) == ids
  {
    if ids != [] {
      ThroughAll(ids[1..]);
    }
  }

  /** For IDs of any kind: a new instance gives back exactly its set of IDs if and only if they are all valid. */
  lemma ReadsBackExactly(ok: char -> bool, ids: seq<ID>)
    requires Spaceless(ok)
    ensures IdSet(Scan(ok, "", Added("", ids), _ => true)) == IdSet(ids) <==> AllValid(ok, ids)
  {
    var read := Scan(ok, "", Added("", ids), _ => true);
    if AllValid(ok, ids) {
      AllValidDelimited(ok, ids);
      DelimitedArePlain(ids);
      AddedToNothing(ids);
      var visited := VisitsTheSet(ok, ids);
      ThroughAll(visited);
      assert read == visited;
    } else {
      var i :| 0 <= i < |ids| && !Valid(ok, ids[i]);
      ScanIsValid(ok, "", Added("", ids), _ => true);
      assert ids[i] in IdSet(ids) && ids[i] !in read;
    }
  }

  lemma JoinSorted(ids: seq<ID>, strings: seq<string>)
    requires Strings(ids) == strings && Increasing(strings) && Plain(strings)
    ensures Added("", ids) == Canonical(strings)
  {
    AddedToNothing(ids);
    SortedUniqueIsSorted(strings);
    IncreasingUnique(SortedUnique(strings), strings);
  }

  lemma JoinOfTwo(x: string, y: string)
    ensures Canonical([x, y]) == [DELIM] + x + [DELIM] + y + [DELIM]
  {
    assert [x, y][1..] == [y];
    assert Join([x, y], DELIM) == x + [DELIM] + y;
    assert ([""] + [x, y])[1..] == [x, y];
    assert Join([""] + [x, y], DELIM) == "" + [DELIM] + (x + [DELIM] + y);
  }

  lemma JoinOfOne(x: string)
    ensures Join(["", x], DELIM) + [DELIM] == [DELIM] + x + [DELIM]
  {
    assert ["", x][1..] == [x];
    assert Join([x], DELIM) == x;
  }

  lemma SortedPair(x: string)
    ensures SortedUnique(["", x]) == if x == "" then [""] else ["", x]
  {
    SortedUniqueIsSorted(["", x]);
    var s := if x == "" then [""] else ["", x];
    assert Increasing(s) && Elements(s) == Elements(["", x]) by {
      assert "" in s && x in s;
    }
    IncreasingUnique(SortedUnique(["", x]), s);
  }

  lemma AddedOne(id: ID)
    requires ToString(id) != ""
    ensures Added("", [id]) == [DELIM] + ToString(id) + [DELIM]
  {
    var x := ToString(id);
    assert Strings([id]) == [x];
    assert Split("", DELIM) + [x] == ["", x];
    SortedPair(x);
    JoinOfOne(x);
  }

  lemma AddedTwo(left: ID, right: ID)
    requires Delimited(left) && Delimited(right) && Less(ToString(left), ToString(right))
    ensures Added("", [left, right]) == [DELIM] + ToString(left) + [DELIM] + ToString(right) + [DELIM]
  {
    var x, y := ToString(left), ToString(right);
    DelimitedArePlain([left, right]);
    assert Strings([left, right]) == [x, y];
    JoinSorted([left, right], [x, y]);
    JoinOfTwo(x, y);
  }

  lemma OneIsNotTwo(whole: ID, left: ID, right: ID)
    requires left != right
    ensures IdSet([whole]) != IdSet([left, right])
  {
    assert left in IdSet([left, right]) && right in IdSet([left, right]);
  }

  lemma Regroup(x: string, y: string)
    ensures [DELIM] + (x + [DELIM] + y) + [DELIM] == [DELIM] + x + [DELIM] + y + [DELIM]
  {
  }

  /** One ID with a space in its name encodes like its two halves, if those are IDs in increasing order. So the
      encodings of different sets can be equal. */
  lemma SpacesCollide(whole: ID, left: ID, right: ID)
    requires Delimited(left) && Delimited(right) && Less(ToString(left), ToString(right))
    requires ToString(whole) == ToString(left) + [DELIM] + ToString(right)
    ensures IdSet([whole]) != IdSet([left, right]) && Added("", [whole]) == Added("", [left, right])
  {
    AddedOne(whole);
    AddedTwo(left, right);
    Regroup(ToString(left), ToString(right));
    LessIrreflexive(ToString(left));
    OneIsNotTwo(whole, left, right);
  }

  /** Such IDs exist. */
  lemma SpacesCollideHere()
    ensures Added("", [ID("logs", "a metrics")]) == Added("", [ID("logs", "a"), ID("metrics", "")])
  {
    var whole, left, right := ID("logs", "a metrics"), ID("logs", "a"), ID("metrics", "");
    assert ToString(left) == "logs/a" && ToString(right) == "metrics";
    assert ToString(whole) == "logs/a" + [DELIM] + "metrics";
    assert Less("logs/a", "metrics");
    SpacesCollide(whole, left, right);
  }

  // ----- instances

  class InstanceID {
    const componentID: string
    const kind: int
    var pipelineIDs: string

    constructor Raw(componentID: string, kind: int, pipelineIDs: string)
      ensures this.componentID == componentID && this.kind == kind && this.pipelineIDs == pipelineIDs
    {
      this.componentID, this.kind, this.pipelineIDs := componentID, kind, pipelineIDs;
    }

    method AddPipelines(ids: seq<ID>)
      modifies this
      ensures pipelineIDs == Added(old(pipelineIDs), ids)
    {
      var strIDs := Split(pipelineIDs, DELIM);
      for i := 0 to |ids|
        invariant strIDs == Split(pipelineIDs, DELIM) + Strings(ids[..i]) && pipelineIDs == old(pipelineIDs)
      {
        assert Strings(ids[..i + 1]) == Strings(ids[..i]) + [ToString(ids[i])];
        strIDs := strIDs + [ToString(ids[i])];
      }
      assert ids[..|ids|] == ids;
      var sorted := SortStrings(strIDs);
      CompactSorted(strIDs, sorted);
      pipelineIDs := Join(Compact(sorted), DELIM) + [DELIM];
    }

    method WithPipelines(ids: seq<ID>) returns (id: InstanceID)
      ensures fresh(id) && id.componentID == componentID && id.kind == kind
      ensures id.pipelineIDs == Added(pipelineIDs, ids)
    {
      id := new InstanceID.Raw(componentID, kind, pipelineIDs);
      id.AddPipelines(ids);
    }

    /** Calls f for the IDs in turn until it returns false; returns those it was called with. */
    method AllPipelineIDs(ok: char -> bool, f: ID -> bool) returns (visited: seq<ID>)
      ensures visited == Scan(ok, "", pipelineIDs, f)
    {
      visited := [];
      var bs := "";
      for i := 0 to |pipelineIDs|
        invariant Scan(ok, "", pipelineIDs, f) == visited + Scan(ok, bs, pipelineIDs[i..], f)
      {
        assert pipelineIDs[i..][1..] == pipelineIDs[i + 1..];
        var b := pipelineIDs[i];
        if b != DELIM {
          bs := bs + [b];
        } else {
          var id := UnmarshalText(ok, bs);
          bs := "";
          if id.Some? {
            visited := visited + [id.value];
            if !f(id.value) {
              return;
            }
          }
        }
      }
    }
  }

  method NewInstanceID(componentID: string, kind: int, ids: seq<ID>) returns (id: InstanceID)
    ensures fresh(id) && id.componentID == componentID && id.kind == kind && id.pipelineIDs == Added("", ids)
  {
    id := new InstanceID.Raw(componentID, kind, "");
    id.AddPipelines(ids);
  }

  /** However pipelines are split between creation and later additions, only their set matters. */
  method SplitDoesNotMatter(componentID: string, kind: int, a: seq<ID>, b: seq<ID>, all: seq<ID>)
    returns (x: InstanceID, y: InstanceID)
    requires AllDelimited(a) && AllDelimited(b) && AllDelimited(all)
    ensures x.componentID == y.componentID == componentID && x.kind == y.kind == kind
    ensures x.pipelineIDs == y.pipelineIDs <==> IdSet(a) + IdSet(b) == IdSet(all)
  {
    var first := NewInstanceID(componentID, kind, a);
    x := first.WithPipelines(b);
    y := NewInstanceID(componentID, kind, all);
    DelimitedArePlain(a);
    DelimitedArePlain(b);
    DelimitedArePlain(all);
    AddedToNothing(a);
    AddedToCanonical(a, b);
    AddedToNothing(all);
    assert IdSet(a + b) == IdSet(a) + IdSet(b);
    CanonicalSet(a + b, all);
  }
}
