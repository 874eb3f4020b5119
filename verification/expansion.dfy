/**
 Expansion of references in nested configuration values: one round over a value, and the
 bounded loop that repeats rounds until one of them changes nothing.
 */
module Expansion {
  import opened Common
  import opened References

  /** A configuration value.  A map is its keys in iteration order and their values in the same
      order, so a statement about all values covers every order a map may be visited in. */
  datatype Value =
    | Other(id: int)
    | Str(s: string)
    | List(items: seq<Value>)
    | Map(keys: seq<string>, values: seq<Value>)
    | ExpandedValue(value: Value, original: string)

  /** What a provider answers: a raw value and, when it has one, its string representation. */
  datatype Fetch = NotFetched | Fetched(raw: Value, text: Option<string>)

  /** The providers, as a function of scheme and opaque value. */
  datatype Env = Env(defaultScheme: string, retrieve: (string, string) -> Fetch) {
    predicate HasDefault() {
      defaultScheme != ""
    }
  }

  /** A round of expansion: its result, whether something changed, and the references it retrieved. */
  datatype Outcome =
    | Done(value: Value, changed: bool, fetched: seq<string>)
    | Failed(fetched: seq<string>)

  datatype Items =
    | ItemsDone(values: seq<Value>, changed: bool, fetched: seq<string>)
    | ItemsFailed(fetched: seq<string>)

  // ----- retrieving one reference

  predicate IsLetter(c: char) {
    'A' <= c <= 'Z' || 'a' <= c <= 'z'
  }

  predicate IsSchemeChar(c: char) {
    IsLetter(c) || '0' <= c <= '9' || c == '+' || c == '.' || c == '-'
  }

  /** Scheme names, section 3.1 of RFC 3986, two characters or more. */
  predicate IsScheme(s: string) {
    |s| >= 2 && IsLetter(s[0]) && forall i :: 0 < i < |s| ==> IsSchemeChar(s[i])
  }

  datatype Location = Location(scheme: string, opaqueValue: string)

  function NewLocation(uri: string): Option<Location> {
    var colon := IndexFrom(uri, ':', 0);
    if colon >= 0 && IsScheme(uri[..colon]) then Some(Location(uri[..colon], uri[colon + 1..])) else None
  }

  /** reference is "${" + body + "}" */
  function Retrieve(env: Env, reference: string): Fetch
    requires |reference| >= 3
  {
    var body := reference[2..|reference| - 1];
    match NewLocation(if Contains(body, ':') then body else env.defaultScheme + ":" + body)
    case None => NotFetched
    case Some(l) => if Contains(l.opaqueValue, '$') then NotFetched else env.retrieve(l.scheme, l.opaqueValue)
  }

  function AsString(f: Fetch): Option<string>
    requires f.Fetched?
  {
    if f.text.Some? then f.text else if f.raw.Str? then Some(f.raw.s) else None
  }

  // ----- one round

  function ExpandString(env: Env, s: string): Outcome {
    var uri := Reference(s, env.HasDefault());
    if uri == "" then Done(Str(s), false, [])
    else
      var f := Retrieve(env, uri);
      if f.NotFetched? then Failed([])
      else match AsString(f)
        case Some(t) =>
          if uri == s then Done(ExpandedValue(f.raw, t), true, [uri])
          else Done(Str(ReplaceAll(s, uri, t)), true, [uri])
        case None =>
          if uri == s then Done(f.raw, true, [uri]) else Failed([uri])
  }

  function ExpandValue(env: Env, v: Value): Outcome
    decreases v
  {
    match v
    case Other(_) => Done(v, false, [])
    case Str(s) => ExpandString(env, s)
    case List(items) =>
      (match ExpandItems(env, items)
       case ItemsDone(vs, changed, fetched) => Done(List(vs), changed, fetched)
       case ItemsFailed(fetched) => Failed(fetched))
    case Map(keys, values) =>
      (match ExpandItems(env, values)
       case ItemsDone(vs, changed, fetched) => Done(Map(keys, vs), changed, fetched)
       case ItemsFailed(fetched) => Failed(fetched))
    case ExpandedValue(inner, original) =>
      (match ExpandValue(env, inner)
       case Failed(fetched) => Failed(fetched)
       case Done(x, changed, fetched) =>
         if x.ExpandedValue? || x.Str? then Done(x, changed, fetched)
         else WithOriginal(x, changed, fetched, ExpandString(env, original)))
  }

  /** The original representation is kept beside a value that is not a string, if it still is one. */
  function WithOriginal(x: Value, changed: bool, fetched: seq<string>, original: Outcome): Outcome {
    match original
    case Failed(more) => Done(x, changed, fetched + more)
    case Done(o, oChanged, more) =>
      if o.Str? then Done(ExpandedValue(x, o.s), changed || oChanged, fetched + more)
      else Done(x, changed, fetched + more)
  }

  function ExpandItems(env: Env, vs: seq<Value>): Items
    decreases vs
  {
    if vs == [] then ItemsDone([], false, [])
    else match ExpandValue(env, vs[0])
      case Failed(fetched) => ItemsFailed(fetched)
      case Done(x, changed, fetched) =>
        match ExpandItems(env, vs[1..])
        case ItemsFailed(more) => ItemsFailed(fetched + more)
        case ItemsDone(xs, restChanged, more) => ItemsDone([x] + xs, changed || restChanged, fetched + more)
  }

  // ----- what a round does

  /** A reference with a scheme is looked up by scheme and opaque value, provided that holds no dollar sign. */
  lemma RetrievesScheme(env: Env, scheme: string, opaqueValue: string)
    requires IsScheme(scheme)
    ensures Retrieve(env, "${" + scheme + ":" + opaqueValue + "}")
         == if '$' in opaqueValue then NotFetched else env.retrieve(scheme, opaqueValue)
  {
    var reference := "${" + scheme + ":" + opaqueValue + "}";
    var body := scheme + ":" + opaqueValue;
    assert reference[2..|reference| - 1] == body;
    assert forall i :: 0 <= i < |scheme| ==> body[i] == scheme[i] && (IsLetter(scheme[i]) || IsSchemeChar(scheme[i]));
    assert body[|scheme|] == ':';
    assert IndexFrom(body, ':', 0) == |scheme|;
    assert body[..|scheme|] == scheme && body[|scheme| + 1..] == opaqueValue;
  }

  /** One without a colon is looked up with the default scheme, if that is one. */
  lemma RetrievesDefault(env: Env, name: string)
    requires ':' !in name && ':' !in env.defaultScheme
    ensures Retrieve(env, "${" + name + "}")
         == if !IsScheme(env.defaultScheme) || '$' in name then NotFetched else env.retrieve(env.defaultScheme, name)
  {
    var reference := "${" + name + "}";
    assert reference[2..|reference| - 1] == name;
    var uri := env.defaultScheme + ":" + name;
    assert uri[|env.defaultScheme|] == ':';
    assert forall i :: 0 <= i < |env.defaultScheme| ==> uri[i] == env.defaultScheme[i];
    assert IndexFrom(uri, ':', 0) == |env.defaultScheme|;
    assert uri[..|env.defaultScheme|] == env.defaultScheme && uri[|env.defaultScheme| + 1..] == name;
  }

  /** A string that is one reference becomes what was retrieved, with its text beside it if it has one. */
  lemma ExpandsWhole(env: Env, s: string)
    requires s != "" && Reference(s, env.HasDefault()) == s && Retrieve(env, s).Fetched?
    ensures var f, out := Retrieve(env, s), ExpandString(env, s);
            && out.Done? && out.changed && out.fetched == [s]
            && (f.text.Some? ==> out.value == ExpandedValue(f.raw, f.text.value))
            && (f.text.None? && f.raw.Str? ==> out.value == ExpandedValue(f.raw, f.raw.s))
            && (f.text.None? && !f.raw.Str? ==> out.value == f.raw)
  {
  }

  /** In a string around it, every occurrence of the reference found is replaced by the text retrieved for it, and all
      the rest is kept, in order. */
  lemma ExpandsEmbedded(env: Env, s: string, parts: seq<string>, text: string)
    requires var uri := Reference(s, env.HasDefault());
             && uri != "" && uri != s && SplitLeftmost(parts, uri) && Joined(parts, uri) == s
             && Retrieve(env, uri).Fetched? && AsString(Retrieve(env, uri)) == Some(text)
    ensures ExpandString(env, s) == Done(Str(Joined(parts, text)), true, [Reference(s, env.HasDefault())])
  {
    ReplacesBetweenParts(parts, Reference(s, env.HasDefault()), text);
  }

  /** What a round owes a string around a reference whose text could be retrieved, whichever way it is split. */
  ghost predicate TextReplaced(env: Env, s: string, out: Outcome) {
    var uri := Reference(s, env.HasDefault());
    uri != "" && uri != s && Retrieve(env, uri).Fetched? && AsString(Retrieve(env, uri)).Some? ==>
      forall parts {:trigger SplitLeftmost(parts, uri)} :: SplitLeftmost(parts, uri) && Joined(parts, uri) == s ==>
        out == Done(Str(Joined(parts, AsString(Retrieve(env, uri)).value)), true, [uri])
  }

  lemma TextIsReplaced(env: Env, s: string)
    ensures TextReplaced(env, s, ExpandString(env, s))
  {
    var uri := Reference(s, env.HasDefault());
    if uri != "" && uri != s && Retrieve(env, uri).Fetched? && AsString(Retrieve(env, uri)).Some? {
      forall parts | SplitLeftmost(parts, uri) && Joined(parts, uri) == s
        ensures ExpandString(env, s) == Done(Str(Joined(parts, AsString(Retrieve(env, uri)).value)), true, [uri])
      {
        ExpandsEmbedded(env, s, parts, AsString(Retrieve(env, uri)).value);
      }
    }
  }

  /** A round over a string retrieves at most the reference found in it, and fails exactly when that cannot be
      retrieved, or has no text to put into the string. */
  lemma FailsExactly(env: Env, s: string)
    ensures var uri, out := Reference(s, env.HasDefault()), ExpandString(env, s);
            && (out.Failed? <==> uri != "" && (Retrieve(env, uri).NotFetched?
                                              || (uri != s && AsString(Retrieve(env, uri)).None?)))
            && out.fetched == (if uri != "" && Retrieve(env, uri).Fetched? then [uri] else [])
  {
  }

  /** Elements are expanded one by one: the result has the expansion of each in its place, something changed if one did,
      and it fails exactly when one fails. */
  lemma {:induction false} ItemsOneByOne(env: Env, vs: seq<Value>)
    ensures ExpandItems(env, vs).ItemsFailed? <==> exists i :: 0 <= i < |vs| && ExpandValue(env, vs[i]).Failed?
    ensures var r := ExpandItems(env, vs);
            r.ItemsDone? ==>
              && |r.values| == |vs|
              && (forall i :: 0 <= i < |vs| ==> ExpandValue(env, vs[i]).Done?)
              && (forall i :: 0 <= i < |vs| ==> r.values[i] == ExpandValue(env, vs[i]).value)
              && (r.changed <==> exists i :: 0 <= i < |vs| && ExpandValue(env, vs[i]).changed)
    decreases vs
  {
    if vs != [] {
      ItemsOneByOne(env, vs[1..]);
      var r := ExpandItems(env, vs);
      assert forall i :: 1 <= i < |vs| ==> vs[1..][i - 1] == vs[i];
      if i :| 0 <= i < |vs[1..]| && ExpandValue(env, vs[1..][i]).Failed? {
        assert ExpandValue(env, vs[i + 1]).Failed?;
      }
      if r.ItemsDone? {
        if i :| 0 <= i < |vs[1..]| && ExpandValue(env, vs[1..][i]).changed {
          assert ExpandValue(env, vs[i + 1]).changed;
        }
      }
    }
  }

  /** Lists stay lists and maps keep their keys. */
  lemma ShapeKept(env: Env, v: Value)
    requires ExpandValue(env, v).Done?
    ensures v.List? ==> ExpandValue(env, v).value.List? && |ExpandValue(env, v).value.items| == |v.items|
    ensures v.Map? ==> ExpandValue(env, v).value.Map? && ExpandValue(env, v).value.keys == v.keys
    ensures v.Map? ==> |ExpandValue(env, v).value.values| == |v.values|
    ensures v.Other? ==> ExpandValue(env, v).value == v
  {
    match v {
      case List(items) => ItemsOneByOne(env, items);
      case Map(_, values) => ItemsOneByOne(env, values);
      case _ =>
    }
  }

  /** What was retrieved for the text counts too.  If the text fails to expand, or no longer is one, it is dropped and
      does not count as a change. */
  lemma OriginalKept(x: Outcome, o: Outcome)
    requires x.Done?
    ensures var out := WithOriginal(x.value, x.changed, x.fetched, o);
            && out.Done? && out.fetched == x.fetched + o.fetched
            && (o.Done? && o.value.Str? ==> out.value == ExpandedValue(x.value, o.value.s))
            && (o.Done? && o.value.Str? ==> (out.changed <==> x.changed || o.changed))
            && (o.Failed? || !o.value.Str? ==> out.value == x.value && out.changed == x.changed)
  {
  }

  /** An expanded value is expanded inside.  If that gives a string or another expanded value, it is all that remains;
      otherwise the original text is expanded too and kept beside it. */
  lemma OriginalExpanded(env: Env, inner: Value, original: string, x: Outcome, o: Outcome)
    requires x == ExpandValue(env, inner) && o == ExpandString(env, original)
    ensures var out := ExpandValue(env, ExpandedValue(inner, original));
            && (x.Failed? || x.value.Str? || x.value.ExpandedValue? ==> out == x)
            && (x.Done? && !x.value.Str? && !x.value.ExpandedValue? ==>
                  out.Done? && out.fetched == x.fetched + o.fetched)
            && (x.Done? && !x.value.Str? && !x.value.ExpandedValue? && o.Done? && o.value.Str? ==>
                  out.value == ExpandedValue(x.value, o.value.s) && (out.changed <==> x.changed || o.changed))
            && (x.Done? && !x.value.Str? && !x.value.ExpandedValue? && (o.Failed? || !o.value.Str?) ==>
                  out.value == x.value && out.changed == x.changed)
  {
    var out := ExpandValue(env, ExpandedValue(inner, original));
    if x.Done? && !x.value.Str? && !x.value.ExpandedValue? {
      assert out == WithOriginal(x.value, x.changed, x.fetched, o);
      OriginalKept(x, o);
    }
  }

  // ----- the bounded loop

  const MAX_ROUNDS := 1000

  datatype Final = Finished(value: Value, fetched: seq<string>) | GaveUp(fetched: seq<string>)

  /** Repeats a step until one changes nothing, at most so many rounds. */
  function Iterate(step: Value -> Outcome, v: Value, rounds: nat): Final
    decreases rounds
  {
    if rounds == 0 then GaveUp([])
    else match step(v)
      case Failed(fetched) => GaveUp(fetched)
      case Done(x, changed, fetched) =>
        if !changed then Finished(x, fetched) else After(fetched, Iterate(step, x, rounds - 1))
  }

  /** r, when fetched was retrieved before. */
  function After(fetched: seq<string>, r: Final): Final {
    match r
    case Finished(v, more) => Finished(v, fetched + more)
    case GaveUp(more) => GaveUp(fetched + more)
  }

  function Round(env: Env): Value -> Outcome {
    v => ExpandValue(env, v)
  }

  function ExpandUpTo(env: Env, v: Value, rounds: nat): Final {
    Iterate(Round(env), v, rounds)
  }

  /** The value before round k, if all rounds before it worked and changed something. */
  function Before(step: Value -> Outcome, v: Value, k: nat): Option<Value>
    decreases k
  {
    if k == 0 then Some(v)
    else
      match Before(step, v, k - 1)
      case None => None
      case Some(x) => if step(x).Done? && step(x).changed then Some(step(x).value) else None
  }

  /** Round k works and changes nothing. */
  predicate SettlesAt(step: Value -> Outcome, v: Value, k: nat) {
    var x := Before(step, v, k);
    x.Some? && step(x.value).Done? && !step(x.value).changed
  }

  lemma {:induction false} BeforeShifts(step: Value -> Outcome, v: Value, k: nat)
    requires step(v).Done? && step(v).changed
    ensures Before(step, v, k + 1) == Before(step, step(v).value, k)
    decreases k
  {
    if k > 0 {
      BeforeShifts(step, v, k - 1);
    } else {
      assert Before(step, v, 1) == Some(step(v).value);
    }
  }

  lemma {:induction false} OnlyChangesGoOn(step: Value -> Outcome, v: Value, k: nat)
    requires !(step(v).Done? && step(v).changed)
    ensures Before(step, v, k + 1) == None
    decreases k
  {
    if k > 0 {
      OnlyChangesGoOn(step, v, k - 1);
    }
  }

  /** The loop finishes exactly when one of the rounds allowed changes nothing after rounds that all changed something,
      and its result is what that round gives. */
  lemma {:induction false} IterateExactly(step: Value -> Outcome, v: Value, rounds: nat)
    ensures Iterate(step, v, rounds).Finished? <==> exists k: nat :: k < rounds && SettlesAt(step, v, k)
    ensures forall k: nat :: k < rounds && SettlesAt(step, v, k) ==>
      Iterate(step, v, rounds).Finished? && Iterate(step, v, rounds).value == step(Before(step, v, k).value).value
    decreases rounds
  {
    if rounds > 0 {
      if step(v).Done? && step(v).changed {
        var x := step(v).value;
        IterateExactly(step, x, rounds - 1);
        forall k: nat | k < rounds && SettlesAt(step, v, k)
          ensures k > 0 && SettlesAt(step, x, k - 1) && Before(step, v, k) == Before(step, x, k - 1)
        {
          if k > 0 {
            BeforeShifts(step, v, k - 1);
          }
        }
        if k: nat :| k < rounds - 1 && SettlesAt(step, x, k) {
          BeforeShifts(step, v, k);
          assert SettlesAt(step, v, k + 1);
        }
      } else {
        forall k: nat | SettlesAt(step, v, k) ensures k == 0 {
          if k > 0 {
            OnlyChangesGoOn(step, v, k - 1);
          }
        }
        assert SettlesAt(step, v, 0) <==> step(v).Done?;
      }
    }
  }

  // ----- fixed points

  /** No string in v, the original of an expanded value included, holds a reference, and every
      expanded value is about something that is neither a string nor expanded itself. */
  predicate FullyExpanded(v: Value, hasDefault: bool)
    decreases v
  {
    match v
    case Other(_) => true
    case Str(s) => Reference(s, hasDefault) == ""
    case List(items) => AllExpanded(items, hasDefault)
    case Map(_, values) => AllExpanded(values, hasDefault)
    case ExpandedValue(inner, original) =>
      && FullyExpanded(inner, hasDefault) && !inner.Str? && !inner.ExpandedValue?
      && Reference(original, hasDefault) == ""
  }

  predicate AllExpanded(vs: seq<Value>, hasDefault: bool)
    decreases vs
  {
    vs == [] || (FullyExpanded(vs[0], hasDefault) && AllExpanded(vs[1..], hasDefault))
  }

  lemma {:induction false} UnchangedIsFullyExpanded(env: Env, v: Value)
    requires ExpandValue(env, v).Done? && !ExpandValue(env, v).changed
    ensures FullyExpanded(ExpandValue(env, v).value, env.HasDefault())
    decreases v
  {
    match v {
      case List(items) => UnchangedItemsExpanded(env, items);
      case Map(_, values) => UnchangedItemsExpanded(env, values);
      case ExpandedValue(inner, original) =>
        var x := ExpandValue(env, inner);
        if x.value.Str? || x.value.ExpandedValue? {
          UnchangedIsFullyExpanded(env, inner);
        } else {
          assert ExpandValue(env, v) == WithOriginal(x.value, x.changed, x.fetched, ExpandString(env, original));
          UnchangedIsFullyExpanded(env, inner);
          UnchangedOriginal(env, x.value, x.changed, x.fetched, original);
        }
      case _ =>
    }
  }

  lemma UnchangedString(env: Env, s: string)
    requires ExpandString(env, s).Done? && !ExpandString(env, s).changed
    ensures ExpandString(env, s).value == Str(s) && Reference(s, env.HasDefault()) == ""
  {
  }

  lemma UnchangedOriginal(env: Env, x: Value, changed: bool, fetched: seq<string>, original: string)
    requires FullyExpanded(x, env.HasDefault()) && !x.Str? && !x.ExpandedValue?
    ensures var r := WithOriginal(x, changed, fetched, ExpandString(env, original));
            r.Done? && (!r.changed ==> FullyExpanded(r.value, env.HasDefault()))
  {
    var o := ExpandString(env, original);
    if o.Done? && !o.changed {
      UnchangedString(env, original);
    }
  }

  lemma {:induction false} UnchangedItemsExpanded(env: Env, vs: seq<Value>)
    requires ExpandItems(env, vs).ItemsDone? && !ExpandItems(env, vs).changed
    ensures AllExpanded(ExpandItems(env, vs).values, env.HasDefault())
    decreases vs
  {
    if vs != [] {
      UnchangedIsFullyExpanded(env, vs[0]);
      UnchangedItemsExpanded(env, vs[1..]);
      var xs := ExpandItems(env, vs).values;
      assert xs[1..] == ExpandItems(env, vs[1..]).values;
    }
  }

  lemma {:induction false} FullyExpandedStays(env: Env, v: Value)
    requires FullyExpanded(v, env.HasDefault())
    ensures ExpandValue(env, v) == Done(v, false, [])
    decreases v
  {
    match v {
      case List(items) => AllExpandedStay(env, items);
      case Map(_, values) => AllExpandedStay(env, values);
      case ExpandedValue(inner, original) => FullyExpandedStays(env, inner);
      case _ =>
    }
  }

  lemma {:induction false} AllExpandedStay(env: Env, vs: seq<Value>)
    requires AllExpanded(vs, env.HasDefault())
    ensures ExpandItems(env, vs) == ItemsDone(vs, false, [])
    decreases vs
  {
    if vs != [] {
      FullyExpandedStays(env, vs[0]);
      AllExpandedStay(env, vs[1..]);
      assert vs == [vs[0]] + vs[1..];
    }
  }

  /** A round leaves a value alone exactly when it is fully expanded, and a round that reports no
      change gives such a value: expanding it again, any number of times, does nothing. */
  lemma FixedPoint(env: Env, v: Value)
    ensures ExpandValue(env, v) == Done(v, false, []) <==> FullyExpanded(v, env.HasDefault())
    ensures var r := ExpandValue(env, v);
            r.Done? && !r.changed ==> ExpandValue(env, r.value) == Done(r.value, false, [])
  {
    var r := ExpandValue(env, v);
    if FullyExpanded(v, env.HasDefault()) {
      FullyExpandedStays(env, v);
    }
    if r.Done? && !r.changed {
      UnchangedIsFullyExpanded(env, v);
      FullyExpandedStays(env, r.value);
    }
  }

  /** The result of a loop that finishes came out of a round that changed nothing. */
  lemma {:induction false} LastRound(step: Value -> Outcome, v: Value, rounds: nat) returns (last: Value)
    requires Iterate(step, v, rounds).Finished?
    ensures step(last).Done? && !step(last).changed && step(last).value == Iterate(step, v, rounds).value
    decreases rounds
  {
    last := v;
    if step(v).changed {
      last := LastRound(step, step(v).value, rounds - 1);
    }
  }

  /** Whenever the bounded loop succeeds its result is fully expanded: one more round changes nothing. */
  lemma LoopReachesFixedPoint(env: Env, v: Value, rounds: nat)
    requires ExpandUpTo(env, v, rounds).Finished?
    ensures FullyExpanded(ExpandUpTo(env, v, rounds).value, env.HasDefault())
  {
    var last := LastRound(Round(env), v, rounds);
    UnchangedIsFullyExpanded(env, last);
  }

  lemma FullyExpandedFinishes(env: Env, v: Value, rounds: nat)
    requires rounds > 0 && FullyExpanded(v, env.HasDefault())
    ensures ExpandUpTo(env, v, rounds) == Finished(v, [])
  {
    FullyExpandedStays(env, v);
  }

  // ----- escaping whole values

  /** escapeDollarSigns */
  function UnescapeValue(v: Value): Value
    decreases v
  {
    match v
    case Other(_) => v
    case Str(s) => Str(Unescape(s))
    case List(items) => List(UnescapeAll(items))
    case Map(keys, values) => Map(keys, UnescapeAll(values))
    case ExpandedValue(inner, original) => ExpandedValue(UnescapeValue(inner), Unescape(original))
  }

  function UnescapeAll(vs: seq<Value>): seq<Value>
    decreases vs
  {
    if vs == [] then [] else [UnescapeValue(vs[0])] + UnescapeAll(vs[1..])
  }

  /** A value as a user writes it: nothing in it is expanded yet. */
  predicate Plain(v: Value)
    decreases v
  {
    match v
    case List(items) => AllPlain(items)
    case Map(_, values) => AllPlain(values)
    case _ => !v.ExpandedValue?
  }

  predicate AllPlain(vs: seq<Value>)
    decreases vs
  {
    vs == [] || (Plain(vs[0]) && AllPlain(vs[1..]))
  }

  /** v with every dollar sign of every string in it doubled. */
  function DoubledValue(v: Value): Value
    decreases v
  {
    match v
    case Str(s) => Str(Doubled(s))
    case List(items) => List(DoubledAll(items))
    case Map(keys, values) => Map(keys, DoubledAll(values))
    case ExpandedValue(inner, original) => ExpandedValue(DoubledValue(inner), Doubled(original))
    case Other(_) => v
  }

  function DoubledAll(vs: seq<Value>): seq<Value>
    decreases vs
  {
    if vs == [] then [] else [DoubledValue(vs[0])] + DoubledAll(vs[1..])
  }

  /** Unescaping goes into every element, in its place, and into the text of expanded values. */
  lemma {:induction false} UnescapesEach(vs: seq<Value>)
    ensures |UnescapeAll(vs)| == |vs| && forall i :: 0 <= i < |vs| ==> UnescapeAll(vs)[i] == UnescapeValue(vs[i])
    decreases vs
  {
    if vs != [] {
      UnescapesEach(vs[1..]);
      assert forall i :: 0 < i < |vs| ==> vs[i] == vs[1..][i - 1];
    }
  }

  /** Unescaping undoes doubling in every string of every value, in the original text of expanded ones too. */
  lemma {:induction false} UnescapeUndoesDoubledValue(v: Value)
    ensures UnescapeValue(DoubledValue(v)) == v
    decreases v
  {
    match v {
      case Str(s) => UnescapeUndoesDoubling(s);
      case List(items) => UnescapeUndoesDoubledAll(items);
      case Map(_, values) => UnescapeUndoesDoubledAll(values);
      case ExpandedValue(inner, original) =>
        UnescapeUndoesDoubledValue(inner);
        UnescapeUndoesDoubling(original);
      case _ =>
    }
  }

  lemma {:induction false} UnescapeUndoesDoubledAll(vs: seq<Value>)
    ensures UnescapeAll(DoubledAll(vs)) == vs
    decreases vs
  {
    if vs != [] {
      UnescapeUndoesDoubledValue(vs[0]);
      UnescapeUndoesDoubledAll(vs[1..]);
      assert DoubledAll(vs)[0] == DoubledValue(vs[0]) && DoubledAll(vs)[1..] == DoubledAll(vs[1..]);
      assert vs == [vs[0]] + vs[1..];
    }
  }

  lemma {:induction false} DoubledValueStays(v: Value, hasDefault: bool)
    requires Plain(v)
    ensures FullyExpanded(DoubledValue(v), hasDefault) && UnescapeValue(DoubledValue(v)) == v
    decreases v
  {
    match v {
      case Str(s) => DoublingProtects(s, hasDefault);
      case List(items) => DoubledAllStay(items, hasDefault);
      case Map(_, values) => DoubledAllStay(values, hasDefault);
      case _ =>
    }
  }

  lemma {:induction false} DoubledAllStay(vs: seq<Value>, hasDefault: bool)
    requires AllPlain(vs)
    ensures AllExpanded(DoubledAll(vs), hasDefault) && UnescapeAll(DoubledAll(vs)) == vs
    decreases vs
  {
    if vs != [] {
      DoubledValueStays(vs[0], hasDefault);
      DoubledAllStay(vs[1..], hasDefault);
      assert DoubledAll(vs)[0] == DoubledValue(vs[0]) && DoubledAll(vs)[1..] == DoubledAll(vs[1..]);
      assert vs == [vs[0]] + vs[1..];
    }
  }

  /** Doubling the dollar signs of a configuration value is undone by resolving it: the loop stops
      in its first round without retrieving anything, and unescaping gives the value back. */
  lemma DoublingUndoneByResolution(env: Env, v: Value)
    requires Plain(v)
    ensures ExpandUpTo(env, DoubledValue(v), MAX_ROUNDS) == Finished(DoubledValue(v), [])
    ensures UnescapeValue(DoubledValue(v)) == v
  {
    DoubledValueStays(v, env.HasDefault());
    FullyExpandedFinishes(env, DoubledValue(v), MAX_ROUNDS);
  }
}
