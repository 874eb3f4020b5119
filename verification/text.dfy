/**
 Strings as the canonical encodings use them: the lexicographic order, sorting and
 removing duplicates, splitting and joining at a delimiter.  Characters compare as code
 points, which is how their UTF-8 encodings compare byte by byte.
 */
module Text {

  // ----- order

  predicate Less(a: string, b: string) {
    if b == [] then false
    else if a == [] then true
    else if a[0] != b[0] then a[0] < b[0]
    else Less(a[1..], b[1..])
  }

  lemma {:induction false} LessTotal(a: string, b: string)
    ensures Less(a, b) || a == b || Less(b, a)
  {
    if a != [] && b != [] && a[0] == b[0] {
      LessTotal(a[1..], b[1..]);
      assert a == [a[0]] + a[1..] && b == [b[0]] + b[1..];
    }
  }

  lemma {:induction false} LessTransitive(a: string, b: string, c: string)
    requires Less(a, b) && Less(b, c)
    ensures Less(a, c)
  {
    if a != [] && a[0] == b[0] && b[0] == c[0] {
      LessTransitive(a[1..], b[1..], c[1..]);
    }
  }

  lemma {:induction false} LessIrreflexive(a: string)
    ensures !Less(a, a)
  {
    if a != [] {
      LessIrreflexive(a[1..]);
    }
  }

  predicate Increasing(s: seq<string>) {
    forall i, j :: 0 <= i < j < |s| ==> Less(s[i], s[j])
  }

  function Elements(s: seq<string>): set<string> {
    set x | x in s
  }

  lemma FirstNotRepeated(s: seq<string>)
    requires Increasing(s) && s != []
    ensures s[0] !in s[1..] && Increasing(s[1..])
  {
    LessIrreflexive(s[0]);
  }

  lemma LeastOfBoth(a: seq<string>, b: seq<string>)
    requires Increasing(a) && Increasing(b) && a != [] && b != []
    requires a[0] in b && b[0] in a
    ensures a[0] == b[0]
  {
    if a[0] != b[0] {
      var i :| 0 <= i < |b| && b[i] == a[0];
      var j :| 0 <= j < |a| && a[j] == b[0];
      LessTransitive(a[0], b[0], a[0]);
      LessIrreflexive(a[0]);
    }
  }

  lemma NoElements(s: seq<string>)
    ensures s == [] <==> Elements(s) == {}
  {
    assert s != [] ==> s[0] in Elements(s);
  }

  lemma ElementsCons(x: string, s: seq<string>)
    ensures Elements([x] + s) == Elements(s) + {x}
  {
  }

  /** An increasing sequence is determined by its elements. */
  lemma {:induction false} IncreasingUnique(a: seq<string>, b: seq<string>)
    requires Increasing(a) && Increasing(b) && Elements(a) == Elements(b)
    ensures a == b
    decreases a
  {
    NoElements(a);
    NoElements(b);
    if a != [] {
      assert a[0] in Elements(b) && b[0] in Elements(a);
      LeastOfBoth(a, b);
      FirstNotRepeated(a);
      FirstNotRepeated(b);
      assert a == [a[0]] + a[1..] && b == [b[0]] + b[1..];
      forall x ensures x in Elements(a[1..]) <==> x in Elements(b[1..]) {
        assert x in a <==> x in Elements(a);
        assert x in b <==> x in Elements(b);
      }
      IncreasingUnique(a[1..], b[1..]);
    }
  }

  // ----- sorting without duplicates

  /** x put into its place in an increasing sequence, unless it is there. */
  function Insert(x: string, s: seq<string>): seq<string> {
    if s == [] then [x]
    else if x == s[0] then s
    else if Less(x, s[0]) then [x] + s
    else [s[0]] + Insert(x, s[1..])
  }

  lemma IncreasingCons(x: string, s: seq<string>)
    requires Increasing(s) && forall y :: y in s ==> Less(x, y)
    ensures Increasing([x] + s)
  {
  }

  lemma {:induction false} InsertIncreasing(x: string, s: seq<string>)
    requires Increasing(s)
    ensures Increasing(Insert(x, s)) && Elements(Insert(x, s)) == Elements(s) + {x}
    decreases s
  {
    ElementsCons(x, s);
    if s == [] {
      assert [x] + s == [x];
    } else if x == s[0] {
      assert x in s;
    } else if Less(x, s[0]) {
      forall y | y in s ensures Less(x, y) {
        var j :| 0 <= j < |s| && s[j] == y;
        if j > 0 {
          LessTransitive(x, s[0], y);
        }
      }
      IncreasingCons(x, s);
    } else {
      var rest := Insert(x, s[1..]);
      FirstNotRepeated(s);
      InsertIncreasing(x, s[1..]);
      LessTotal(x, s[0]);
      forall y | y in rest ensures Less(s[0], y) {
        assert y in Elements(rest);
      }
      IncreasingCons(s[0], rest);
      ElementsCons(s[0], s[1..]);
      ElementsCons(s[0], rest);
      assert s == [s[0]] + s[1..];
    }
  }

  /** The elements in increasing order. */
  function SortedUnique(s: seq<string>): seq<string> {
    if s == [] then [] else Insert(s[0], SortedUnique(s[1..]))
  }

  lemma {:induction false} SortedUniqueIsSorted(s: seq<string>)
    ensures Increasing(SortedUnique(s)) && Elements(SortedUnique(s)) == Elements(s)
  {
    if s != [] {
      SortedUniqueIsSorted(s[1..]);
      InsertIncreasing(s[0], SortedUnique(s[1..]));
      assert s == [s[0]] + s[1..];
    }
  }

  predicate LessOrEqual(a: string, b: string) {
    a == b || Less(a, b)
  }

  predicate Sorted(s: seq<string>) {
    forall i, j :: 0 <= i < j < |s| ==> LessOrEqual(s[i], s[j])
  }

  /** sort.Strings: a sorted rearrangement. */
  method SortStrings(s: seq<string>) returns (t: seq<string>)
    ensures Sorted(t) && multiset(t) == multiset(s)
  {
    t := [];
    for i := 0 to |s|
      invariant Sorted(t) && multiset(t) == multiset(s[..i])
    {
      assert s[..i + 1] == s[..i] + [s[i]];
      t := Place(s[i], t);
    }
    assert s[..|s|] == s;
  }

  method Place(x: string, s: seq<string>) returns (t: seq<string>)
    requires Sorted(s)
    ensures Sorted(t) && multiset(t) == multiset(s) + multiset{x}
  {
    var i := 0;
    while i < |s| && Less(s[i], x)
      invariant 0 <= i <= |s| && forall j :: 0 <= j < i ==> Less(s[j], x)
    {
      i := i + 1;
    }
    forall j | i <= j < |s| ensures LessOrEqual(x, s[j]) {
      LessTotal(s[i], x);
      if x != s[i] && i < j && s[i] != s[j] {
        LessTransitive(x, s[i], s[j]);
      }
    }
    t := s[..i] + [x] + s[i..];
    SortedAround(s[..i], x, s[i..]);
    assert s == s[..i] + s[i..];
  }

  lemma SortedAround(a: seq<string>, x: string, b: seq<string>)
    requires Sorted(a + b)
    requires forall j :: 0 <= j < |a| ==> Less(a[j], x)
    requires forall j :: 0 <= j < |b| ==> LessOrEqual(x, b[j])
    ensures Sorted(a + [x] + b)
  {
    var s, t := a + b, a + [x] + b;
    forall i, j | 0 <= i < j < |t| ensures LessOrEqual(t[i], t[j]) {
      if i != |a| && j != |a| {
        assert t[i] == s[if i < |a| then i else i - 1] && t[j] == s[if j < |a| then j else j - 1];
      }
    }
  }

  /** slices.Compact: runs of equal elements become one. */
  function Compact(s: seq<string>): seq<string> {
    if |s| <= 1 then s
    else
      var front, last := s[..|s| - 1], s[|s| - 1];
      if s[|s| - 2] == last then Compact(front) else Compact(front) + [last]
  }

  lemma {:induction false} CompactIsIncreasing(s: seq<string>)
    requires Sorted(s)
    ensures Increasing(Compact(s)) && Elements(Compact(s)) == Elements(s)
    ensures s != [] ==> Compact(s) != [] && Compact(s)[|Compact(s)| - 1] == s[|s| - 1]
    decreases s
  {
    if |s| > 1 {
      var front, last := s[..|s| - 1], s[|s| - 1];
      CompactIsIncreasing(front);
      var c := Compact(front);
      assert s == front + [last];
      assert Elements(s) == Elements(front) + {last};
      if front[|front| - 1] != last {
        forall i | 0 <= i < |c| ensures Less(c[i], last) {
          if i < |c| - 1 {
            LessTransitive(c[i], c[|c| - 1], last);
          }
        }
        assert Elements(c + [last]) == Elements(c) + {last};
      }
    }
  }

  /** Sorting and compacting gives the elements in increasing order, whatever order and repetitions they came in. */
  lemma CompactSorted(s: seq<string>, t: seq<string>)
    requires Sorted(t) && multiset(t) == multiset(s)
    ensures Compact(t) == SortedUnique(s)
  {
    CompactIsIncreasing(t);
    SortedUniqueIsSorted(s);
    assert Elements(t) == Elements(s) by {
      forall x ensures x in t <==> x in s {
        assert x in t <==> x in multiset(t);
        assert x in s <==> x in multiset(s);
      }
    }
    IncreasingUnique(Compact(t), SortedUnique(s));
  }

  // ----- delimiters

  /** strings.Split at a one-character delimiter. */
  function Split(s: string, d: char): (parts: seq<string>)
    ensures parts != []
  {
    if s == [] then [[]]
    else
      var rest := Split(s[1..], d);
      if s[0] == d then [[]] + rest else [[s[0]] + rest[0]] + rest[1..]
  }

  function Join(parts: seq<string>, d: char): string {
    if parts == [] then [] else if |parts| == 1 then parts[0] else parts[0] + [d] + Join(parts[1..], d)
  }

  predicate Free(s: string, d: char) {
    forall i :: 0 <= i < |s| ==> s[i] != d
  }

  lemma {:induction false} SplitFree(s: string, d: char)
    requires Free(s, d)
    ensures Split(s, d) == [s]
  {
    if s != [] {
      SplitFree(s[1..], d);
      assert s == [s[0]] + s[1..];
    }
  }

  lemma {:induction false} SplitAtDelimiter(s: string, rest: string, d: char)
    requires Free(s, d)
    ensures Split(s + [d] + rest, d) == [s] + Split(rest, d)
  {
    var t := s + [d] + rest;
    if s == [] {
      assert t[1..] == rest;
    } else {
      assert t[1..] == s[1..] + [d] + rest;
      SplitAtDelimiter(s[1..], rest, d);
      assert s == [s[0]] + s[1..];
    }
  }

  /** Splitting undoes joining when no part holds the delimiter. */
  lemma {:induction false} SplitJoin(parts: seq<string>, d: char)
    requires parts != [] && forall i :: 0 <= i < |parts| ==> Free(parts[i], d)
    ensures Split(Join(parts, d), d) == parts
    decreases parts
  {
    if |parts| == 1 {
      SplitFree(parts[0], d);
    } else {
      SplitJoin(parts[1..], d);
      SplitAtDelimiter(parts[0], Join(parts[1..], d), d);
      assert parts == [parts[0]] + parts[1..];
    }
  }

  lemma {:induction false} JoinAppend(parts: seq<string>, last: string, d: char)
    requires parts != []
    ensures Join(parts + [last], d) == Join(parts, d) + [d] + last
    decreases parts
  {
    var more := parts + [last];
    assert more[0] == parts[0] && more[1..] == parts[1..] + [last];
    if |parts| == 1 {
      assert more[1..] == [last];
    } else {
      JoinAppend(parts[1..], last, d);
    }
  }
}
