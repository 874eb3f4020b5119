/**
 The configuration resolver: retrieving and merging the configured locations, expanding and
 unescaping every value, and the ownership of the close functions that retrievals hand out.

 A close function is the number of the retrieval it came with.  The resolver's world may
 change from call to call: providers, close errors, merging and converters are parameters.
 */
module Resolve {
  import opened Common
  import opened References
  import opened Expansion

  /** A configuration as its keys, in order, and the value of each. */
  datatype Conf = Conf(keys: seq<string>, values: seq<Value>)

  datatype World = World(
    retrieve: (string, string) -> Fetch,
    closeFails: nat -> bool,
    merge: (Conf, Conf) -> Option<Conf>,
    converters: seq<Conf -> Option<Conf>>)

  const NIL := Other(0)

  /** Retrieved.AsConf */
  function AsConf(raw: Value): Option<Conf> {
    if raw == NIL then Some(Conf([], []))
    else if raw.Map? then Some(Conf(raw.keys, raw.values))
    else None
  }

  // ----- what a resolution computes

  /** The merge of all locations and the number of retrievals made for it. */
  datatype Gathered = Gathered(conf: Option<Conf>, fetched: nat)

  function Gather(w: World, uris: seq<Location>, acc: Conf): Gathered
    decreases uris
  {
    if uris == [] then Gathered(Some(acc), 0)
    else match w.retrieve(uris[0].scheme, uris[0].opaqueValue)
      case NotFetched => Gathered(None, 0)
      case Fetched(raw, _) =>
        match AsConf(raw)
        case None => Gathered(None, 1)
        case Some(c) =>
          match w.merge(acc, c)
          case None => Gathered(None, 1)
          case Some(m) =>
            var rest := Gather(w, uris[1..], m);
            Gathered(rest.conf, rest.fetched + 1)
  }

  datatype Values = Values(all: Option<seq<Value>>, fetched: nat)

  /** Expands a value in as many rounds as the resolver allows. */
  function Expander(env: Env): Value -> Final {
    v => ExpandUpTo(env, v, MAX_ROUNDS)
  }

  /** Expands and unescapes every value; stops at the first that cannot be expanded. */
  function ExpandAll(expand: Value -> Final, vs: seq<Value>): Values
    decreases vs
  {
    if vs == [] then Values(Some([]), 0)
    else match expand(vs[0])
      case GaveUp(fetched) => Values(None, |fetched|)
      case Finished(x, fetched) =>
        var rest := ExpandAll(expand, vs[1..]);
        Values(if rest.all.Some? then Some([UnescapeValue(x)] + rest.all.value) else None, |fetched| + rest.fetched)
  }

  function Convert(converters: seq<Conf -> Option<Conf>>, c: Conf): Option<Conf>
    decreases converters
  {
    if converters == [] then Some(c)
    else match converters[0](c)
      case None => None
      case Some(d) => Convert(converters[1..], d)
  }

  function Resolved(w: World, defaultScheme: string, uris: seq<Location>): Option<Conf> {
    match Gather(w, uris, Conf([], [])).conf
    case None => None
    case Some(c) =>
      match ExpandAll(Expander(Env(defaultScheme, w.retrieve)), c.values).all
      case None => None
      case Some(vs) => Convert(w.converters, Conf(c.keys, vs))
  }

  /** Gathering the locations of a and then those of b: b starts from what a gave, and is not looked at if a failed. */
  lemma {:induction false} GatherConcat(w: World, a: seq<Location>, b: seq<Location>, acc: Conf)
    ensures var first, all := Gather(w, a, acc), Gather(w, a + b, acc);
            && (first.conf.None? ==> all == first)
            && (first.conf.Some? ==>
                  all == Gathered(Gather(w, b, first.conf.value).conf,
                                  first.fetched + Gather(w, b, first.conf.value).fetched))
    decreases a
  {
    if a == [] {
      assert a + b == b;
    } else {
      assert (a + b)[0] == a[0] && (a + b)[1..] == a[1..] + b;
      var f := w.retrieve(a[0].scheme, a[0].opaqueValue);
      if f.Fetched? && AsConf(f.raw).Some? && w.merge(acc, AsConf(f.raw).value).Some? {
        GatherConcat(w, a[1..], b, w.merge(acc, AsConf(f.raw).value).value);
      }
    }
  }

  /** One location is merged over what came before it; whatever was retrieved counts, also if it could not be used. */
  lemma GatherOne(w: World, uri: Location, acc: Conf, c: Conf, text: Option<string>)
    ensures w.retrieve(uri.scheme, uri.opaqueValue) == NotFetched ==> Gather(w, [uri], acc) == Gathered(None, 0)
    ensures w.retrieve(uri.scheme, uri.opaqueValue) == Fetched(Map(c.keys, c.values), text) ==>
              Gather(w, [uri], acc) == Gathered(w.merge(acc, c), 1)
    ensures w.retrieve(uri.scheme, uri.opaqueValue) == Fetched(NIL, text) ==>
              Gather(w, [uri], acc) == Gathered(w.merge(acc, Conf([], [])), 1)
    ensures var f := w.retrieve(uri.scheme, uri.opaqueValue);
            f.Fetched? && !f.raw.Map? && f.raw != NIL ==> Gather(w, [uri], acc) == Gathered(None, 1)
  {
    assert forall m :: Gather(w, [uri][1..], m) == Gathered(Some(m), 0);
  }

  /** Converters run in order, each on what the one before it made, and stop at the first that fails. */
  lemma {:induction false} ConvertConcat(a: seq<Conf -> Option<Conf>>, b: seq<Conf -> Option<Conf>>, c: Conf)
    ensures Convert(a + b, c) == match Convert(a, c) case None => None case Some(d) => Convert(b, d)
    decreases a
  {
    if a == [] {
      assert a + b == b;
    } else {
      assert (a + b)[0] == a[0] && (a + b)[1..] == a[1..] + b;
      if a[0](c).Some? {
        ConvertConcat(a[1..], b, a[0](c).value);
      }
    }
  }

  lemma ConvertOne(converter: Conf -> Option<Conf>, c: Conf)
    ensures Convert([converter], c) == converter(c) && Convert([], c) == Some(c)
  {
    assert forall d :: Convert([converter][1..], d) == Some(d);
  }

  /** A resolution has values exactly when every value can be expanded. */
  lemma {:induction false} ExpandAllExactly(expand: Value -> Final, vs: seq<Value>)
    ensures ExpandAll(expand, vs).all.Some? <==> forall i :: 0 <= i < |vs| ==> expand(vs[i]).Finished?
    decreases vs
  {
    if vs != [] {
      ExpandAllExactly(expand, vs[1..]);
      assert forall i :: 0 < i < |vs| ==> vs[i] == vs[1..][i - 1];
      if forall i :: 0 <= i < |vs| ==> expand(vs[i]).Finished? {
        assert forall i :: 0 <= i < |vs[1..]| ==> vs[1..][i] == vs[i + 1];
      }
    }
  }

  lemma {:induction false} ExpandAllElements(expand: Value -> Final, vs: seq<Value>)
    requires ExpandAll(expand, vs).all.Some?
    ensures |ExpandAll(expand, vs).all.value| == |vs|
    ensures forall i :: 0 <= i < |vs| ==>
              expand(vs[i]).Finished? && ExpandAll(expand, vs).all.value[i] == UnescapeValue(expand(vs[i]).value)
    decreases vs
  {
    if vs != [] {
      ExpandAllElements(expand, vs[1..]);
      assert forall i :: 0 < i < |vs| ==> vs[i] == vs[1..][i - 1];
    }
  }

  /** Every value of a resolution is the unescaped form of a fully expanded value. */
  lemma ResolvedValuesExpanded(env: Env, vs: seq<Value>, i: nat)
    requires ExpandAll(Expander(env), vs).all.Some? && i < |vs|
    ensures |ExpandAll(Expander(env), vs).all.value| == |vs|
    ensures var x := Expander(env)(vs[i]);
            && x.Finished? && FullyExpanded(x.value, env.HasDefault())
            && ExpandAll(Expander(env), vs).all.value[i] == UnescapeValue(x.value)
  {
    ExpandAllElements(Expander(env), vs);
    LoopReachesFixedPoint(env, vs[i], MAX_ROUNDS);
  }

  lemma {:induction false} DoubledValuesResolve(env: Env, vs: seq<Value>)
    requires AllPlain(vs)
    ensures ExpandAll(Expander(env), DoubledAll(vs)) == Values(Some(vs), 0)
    decreases vs
  {
    if vs != [] {
      DoublingUndoneByResolution(env, vs[0]);
      DoubledValuesResolve(env, vs[1..]);
      assert DoubledAll(vs)[0] == DoubledValue(vs[0]) && DoubledAll(vs)[1..] == DoubledAll(vs[1..]);
      assert [vs[0]] + vs[1..] == vs;
    }
  }

  /** A configuration written with every dollar sign doubled resolves to what the converters make of the
      configuration itself, for every provider, default scheme and merge. */
  lemma DoubledConfigurationResolves(w: World, defaultScheme: string, uris: seq<Location>, c: Conf)
    requires AllPlain(c.values)
    requires Gather(w, uris, Conf([], [])).conf == Some(Conf(c.keys, DoubledAll(c.values)))
    ensures Resolved(w, defaultScheme, uris) == Convert(w.converters, c)
  {
    DoubledValuesResolve(Env(defaultScheme, w.retrieve), c.values);
  }

  // ----- close functions

  /** The numbers from a up to b. */
  function Range(a: nat, b: nat): seq<nat>
    requires a <= b
  {
    seq(b - a, i requires i >= 0 => a + i)
  }

  lemma RangeAppend(cs: seq<nat>, a: nat, b: nat, c: nat)
    requires a <= b <= c
    ensures cs + Range(a, b) + Range(b, c) == cs + Range(a, c)
  {
  }

  class Resolver {
    const uris: seq<Location>
    const defaultScheme: string

    var closers: seq<nat>
    var unexpandedConf: Option<Conf>

    // What happened outside: how many retrievals succeeded, and which close functions ran, in order.
    var retrievals: nat
    var closed: seq<nat>

    constructor (uris: seq<Location>, defaultScheme: string)
      ensures this.uris == uris && this.defaultScheme == defaultScheme
      ensures Conserved() && retrievals == 0 && unexpandedConf == None
    {
      this.uris, this.defaultScheme := uris, defaultScheme;
      closers, unexpandedConf, retrievals, closed := [], None, 0, [];
    }

    /** Every retrieval's close function has run once, in order, or waits to run once; none is lost or repeated. */
    ghost predicate Conserved()
      reads this
    {
      closed + closers == Range(0, retrievals)
    }

    /** Since there were r retrievals and cs waited, n more retrievals were made and their close functions wait too. */
    ghost predicate Kept(r: nat, cs: seq<nat>, n: nat)
      reads `retrievals, `closers
    {
      retrievals == r + n && closers == cs + Range(r, retrievals)
    }

    /** Keeps the close function of a retrieval that succeeded. */
    method Take()
      modifies `closers, `retrievals
      ensures Kept(old(retrievals), old(closers), 1)
    {
      closers := closers + [retrievals];
      retrievals := retrievals + 1;
    }

    method ExpandURI(env: Env, uri: string) returns (f: Fetch)
      requires |uri| >= 3
      modifies `closers, `retrievals
      ensures f == Retrieve(env, uri)
      ensures Kept(old(retrievals), old(closers), if f.Fetched? then 1 else 0)
    {
      f := Retrieve(env, uri);
      if f.Fetched? {
        Take();
      } else {
        assert closers == closers + [];
      }
    }

    method FindAndExpandURI(env: Env, s: string) returns (out: Outcome)
      modifies `closers, `retrievals
      ensures out == ExpandString(env, s) && TextReplaced(env, s, out)
      ensures Kept(old(retrievals), old(closers), |out.fetched|)
    {
      TextIsReplaced(env, s);
      assert closers == closers + [];
      var uri := FindReference(s, env.defaultScheme);
      if uri == "" {
        return Done(Str(s), false, []);
      }
      var f := ExpandURI(env, uri);
      if f.NotFetched? {
        return Failed([]);
      }
      var text := AsString(f);
      if uri == s {
        return if text.Some? then Done(ExpandedValue(f.raw, text.value), true, [uri]) else Done(f.raw, true, [uri]);
      }
      return if text.Some? then Done(Str(ReplaceAll(s, uri, text.value)), true, [uri]) else Failed([uri]);
    }

    method ExpandOne(env: Env, v: Value) returns (out: Outcome)
      modifies `closers, `retrievals
      ensures out == ExpandValue(env, v)
      ensures Kept(old(retrievals), old(closers), |out.fetched|)
      decreases v, 1
    {
      assert closers == closers + [];
      match v {
        case Other(_) =>
          out := Done(v, false, []);
        case Str(s) =>
          out := FindAndExpandURI(env, s);
        case List(items) =>
          var r := ExpandEach(env, items);
          out := if r.ItemsDone? then Done(List(r.values), r.changed, r.fetched) else Failed(r.fetched);
        case Map(keys, values) =>
          var r := ExpandEach(env, values);
          out := if r.ItemsDone? then Done(Map(keys, r.values), r.changed, r.fetched) else Failed(r.fetched);
        case ExpandedValue(inner, original) =>
          out := ExpandOne(env, inner);
          if out.Done? && !out.value.ExpandedValue? && !out.value.Str? {
            ghost var mid := retrievals;
            var o := FindAndExpandURI(env, original);
            RangeAppend(old(closers), old(retrievals), mid, retrievals);
            out := WithOriginal(out.value, out.changed, out.fetched, o);
          }
      }
    }

    /** The loop over the elements of a list or map. */
    method ExpandEach(env: Env, vs: seq<Value>) returns (r: Items)
      modifies `closers, `retrievals
      ensures r == ExpandItems(env, vs)
      ensures Kept(old(retrievals), old(closers), |r.fetched|)
      decreases vs, 0
    {
      var done: seq<Value>, changed, fetched: seq<string> := [], false, [];
      var i := 0;
      assert closers == closers + [];
      while i < |vs|
        invariant 0 <= i <= |vs|
        invariant ExpandItems(env, vs) == Continue(done, changed, fetched, ExpandItems(env, vs[i..]))
        invariant Kept(old(retrievals), old(closers), |fetched|)
      {
        ghost var mid := retrievals;
        var out := ExpandOne(env, vs[i]);
        RangeAppend(old(closers), old(retrievals), mid, retrievals);
        ContinueStep(env, done, changed, fetched, vs[i..]);
        assert vs[i..][1..] == vs[i + 1..];
        fetched := fetched + out.fetched;
        if out.Failed? {
          return ItemsFailed(fetched);
        }
        done, changed := done + [out.value], changed || out.changed;
        i := i + 1;
      }
      assert done + [] == done && fetched + [] == fetched;
      return ItemsDone(done, changed, fetched);
    }

    method ExpandValueRecursively(env: Env, value: Value) returns (r: Final)
      modifies `closers, `retrievals
      ensures r == ExpandUpTo(env, value, MAX_ROUNDS)
      ensures Kept(old(retrievals), old(closers), |r.fetched|)
    {
      r := ExpandRounds(env, value, MAX_ROUNDS, Round(env));
    }

    method ExpandRound(env: Env, v: Value, ghost step: Value -> Outcome) returns (out: Outcome)
      requires forall x {:trigger ExpandValue(env, x)} :: step(x) == ExpandValue(env, x)
      modifies `closers, `retrievals
      ensures out == step(v)
      ensures Kept(old(retrievals), old(closers), |out.fetched|)
    {
      out := ExpandOne(env, v);
    }

    method ExpandRounds(env: Env, value: Value, rounds: nat, ghost step: Value -> Outcome) returns (r: Final)
      requires forall x {:trigger ExpandValue(env, x)} :: step(x) == ExpandValue(env, x)
      modifies `closers, `retrievals
      ensures r == Iterate(step, value, rounds)
      ensures Kept(old(retrievals), old(closers), |r.fetched|)
    {
      var v, fetched: seq<string> := value, [];
      ghost var whole := Iterate(step, value, rounds);
      assert closers == closers + [];
      for i := 0 to rounds
        invariant Kept(old(retrievals), old(closers), |fetched|)
        invariant whole == After(fetched, Iterate(step, v, rounds - i))
      {
        ghost var mid := retrievals;
        var out := ExpandRound(env, v, step);
        RangeAppend(old(closers), old(retrievals), mid, retrievals);
        AfterStep(step, fetched, v, rounds - i, out);
        fetched := fetched + out.fetched;
        if out.Failed? {
          return GaveUp(fetched);
        }
        if !out.changed {
          return Finished(out.value, fetched);
        }
        v := out.value;
      }
      assert fetched + [] == fetched;
      return GaveUp(fetched);
    }

    /** Runs every waiting close function, whether or not one of them fails. */
    method CloseIfNeeded(closeFails: nat -> bool) returns (failed: bool)
      modifies `closers, `closed
      ensures closers == [] && closed == old(closed) + old(closers)
      ensures failed <==> exists c :: c in old(closers) && closeFails(c)
    {
      failed := false;
      for i := 0 to |closers|
        invariant closers == old(closers)
        invariant closed == old(closed) + closers[..i]
        invariant failed <==> exists c :: c in closers[..i] && closeFails(c)
      {
        assert closers[..i + 1] == closers[..i] + [closers[i]];
        closed := closed + [closers[i]];
        if closeFails(closers[i]) {
          failed := true;
        }
      }
      assert closers[..|closers|] == closers;
      closers := [];
    }

    /** Retrieves every location in turn and merges what they hold. */
    method RetrieveAll(w: World) returns (conf: Option<Conf>)
      modifies `closers, `retrievals
      ensures conf == Gather(w, uris, Conf([], [])).conf
      ensures Kept(old(retrievals), old(closers), Gather(w, uris, Conf([], [])).fetched)
    {
      var acc := Conf([], []);
      assert closers == closers + [];
      for i := 0 to |uris|
        invariant Kept(old(retrievals), old(closers), i)
        invariant var rest := Gather(w, uris[i..], acc);
                  Gather(w, uris, Conf([], [])) == Gathered(rest.conf, i + rest.fetched)
      {
        assert uris[i..][1..] == uris[i + 1..];
        var f := w.retrieve(uris[i].scheme, uris[i].opaqueValue);
        if f.NotFetched? {
          return None;
        }
        ghost var mid := retrievals;
        Take();
        RangeAppend(old(closers), old(retrievals), mid, retrievals);
        var c := AsConf(f.raw);
        if c.None? {
          return None;
        }
        var m := w.merge(acc, c.value);
        if m.None? {
          return None;
        }
        acc := m.value;
      }
      return Some(acc);
    }

    method ExpandFully(env: Env, v: Value, ghost expand: Value -> Final) returns (r: Final)
      requires forall x {:trigger ExpandUpTo(env, x, MAX_ROUNDS)} :: expand(x) == ExpandUpTo(env, x, MAX_ROUNDS)
      modifies `closers, `retrievals
      ensures r == expand(v)
      ensures Kept(old(retrievals), old(closers), |r.fetched|)
    {
      r := ExpandValueRecursively(env, v);
    }

    /** Expands and unescapes the values in turn. */
    method ExpandConf(env: Env, vs: seq<Value>, ghost expand: Value -> Final) returns (all: Option<seq<Value>>)
      requires forall x {:trigger ExpandUpTo(env, x, MAX_ROUNDS)} :: expand(x) == ExpandUpTo(env, x, MAX_ROUNDS)
      modifies `closers, `retrievals
      ensures all == ExpandAll(expand, vs).all
      ensures Kept(old(retrievals), old(closers), ExpandAll(expand, vs).fetched)
    {
      var done: seq<Value> := [];
      ghost var count: nat := 0;
      assert closers == closers + [];
      assert vs[0..] == vs;
      ghost var whole := ExpandAll(expand, vs);
      assert whole.all.Some? ==> [] + whole.all.value == whole.all.value;
      for i := 0 to |vs|
        invariant Kept(old(retrievals), old(closers), count)
        invariant ExpandAll(expand, vs) == Collect(done, count, ExpandAll(expand, vs[i..]))
      {
        ghost var mid := retrievals;
        CollectStep(expand, done, count, vs[i..]);
        assert vs[i..][1..] == vs[i + 1..];
        var r := ExpandFully(env, vs[i], expand);
        RangeAppend(old(closers), old(retrievals), mid, retrievals);
        if r.GaveUp? {
          return None;
        }
        count := count + |r.fetched|;
        done := done + [UnescapeValue(r.value)];
      }
      assert done + [] == done;
      return Some(done);
    }

    method ResolveAnew(w: World) returns (r: Option<Conf>)
      requires closers == []
      modifies `closers, `retrievals, `unexpandedConf
      ensures retrievals >= old(retrievals) && closers == Range(old(retrievals), retrievals)
      ensures r == Resolved(w, defaultScheme, uris)
      ensures var merged := Gather(w, uris, Conf([], [])).conf;
              unexpandedConf == if merged.None? then old(unexpandedConf) else merged
    {
      var conf := RetrieveAll(w);
      assert closers == Range(old(retrievals), retrievals);
      if conf.None? {
        return None;
      }
      unexpandedConf := conf;
      ghost var mid := retrievals;
      var env := Env(defaultScheme, w.retrieve);
      var values := ExpandConf(env, conf.value.values, Expander(env));
      RangeAppend([], old(retrievals), mid, retrievals);
      assert closers == [] + Range(old(retrievals), mid) + Range(mid, retrievals);
      if values.None? {
        return None;
      }
      r := Convert(w.converters, Conf(conf.value.keys, values.value));
    }

    /** Closes what earlier calls left open, then resolves; what it opens waits for the next call. */
    method Resolve(w: World) returns (r: Option<Conf>)
      requires Conserved()
      modifies this
      ensures Conserved() && closed == Range(0, old(retrievals))
      ensures var closeFailed := exists c :: c in old(closers) && w.closeFails(c);
              && r == (if closeFailed then None else Resolved(w, defaultScheme, uris))
              && unexpandedConf ==
                 (if closeFailed || Gather(w, uris, Conf([], [])).conf.None? then old(unexpandedConf)
                  else Gather(w, uris, Conf([], [])).conf)
    {
      var failed := CloseIfNeeded(w.closeFails);
      assert closed + [] == closed;
      if failed {
        return None;
      }
      ghost var start := retrievals;
      r := ResolveAnew(w);
      RangeAppend([], 0, start, retrievals);
      assert [] + Range(0, start) == Range(0, start);
    }

    /** Closes what is still open. */
    method Shutdown(w: World) returns (failed: bool)
      requires Conserved()
      modifies this
      ensures closers == [] && closed == Range(0, retrievals) && retrievals == old(retrievals)
      ensures failed <==> exists c :: c in old(closers) && w.closeFails(c)
    {
      failed := CloseIfNeeded(w.closeFails);
    }
  }

  /** Any number of calls of Resolve, each in a world of its own and with any outcome, ended by Shutdown: every
      close function that a retrieval handed out has run exactly once, in the order of the retrievals. */
  method Session(resolver: Resolver, worlds: seq<World>, last: World)
    requires resolver.Conserved()
    modifies resolver
    ensures resolver.closed == Range(0, resolver.retrievals) && resolver.closers == []
  {
    for i := 0 to |worlds|
      invariant resolver.Conserved()
    {
      var _ := resolver.Resolve(worlds[i]);
    }
    var _ := resolver.Shutdown(last);
  }

  function Collect(done: seq<Value>, count: nat, rest: Values): Values {
    Values(if rest.all.Some? then Some(done + rest.all.value) else None, count + rest.fetched)
  }

  lemma CollectStep(expand: Value -> Final, done: seq<Value>, count: nat, vs: seq<Value>)
    requires vs != []
    ensures Collect(done, count, ExpandAll(expand, vs)) ==
            match expand(vs[0])
            case GaveUp(fetched) => Values(None, count + |fetched|)
            case Finished(x, fetched) =>
              Collect(done + [UnescapeValue(x)], count + |fetched|, ExpandAll(expand, vs[1..]))
  {
    var x, rest := expand(vs[0]), ExpandAll(expand, vs[1..]);
    if x.Finished? && rest.all.Some? {
      assert done + [UnescapeValue(x.value)] + rest.all.value == done + ([UnescapeValue(x.value)] + rest.all.value);
    }
  }

  function Continue(done: seq<Value>, changed: bool, fetched: seq<string>, rest: Items): Items {
    match rest
    case ItemsDone(vs, c, f) => ItemsDone(done + vs, changed || c, fetched + f)
    case ItemsFailed(f) => ItemsFailed(fetched + f)
  }

  lemma ContinueStep(env: Env, done: seq<Value>, changed: bool, fetched: seq<string>, vs: seq<Value>)
    requires vs != []
    ensures Continue(done, changed, fetched, ExpandItems(env, vs)) ==
            match ExpandValue(env, vs[0])
            case Failed(f) => ItemsFailed(fetched + f)
            case Done(x, c, f) => Continue(done + [x], changed || c, fetched + f, ExpandItems(env, vs[1..]))
  {
    var out, rest := ExpandValue(env, vs[0]), ExpandItems(env, vs[1..]);
    if out.Done? {
      assert fetched + out.fetched + rest.fetched == fetched + (out.fetched + rest.fetched);
      if rest.ItemsDone? {
        assert done + [out.value] + rest.values == done + ([out.value] + rest.values);
      }
    }
  }

  lemma AfterStep(step: Value -> Outcome, fetched: seq<string>, v: Value, rounds: nat, out: Outcome)
    requires rounds > 0 && out == step(v)
    ensures var r := After(fetched, Iterate(step, v, rounds));
            && (out.Failed? ==> r == GaveUp(fetched + out.fetched))
            && (out.Done? && !out.changed ==> r == Finished(out.value, fetched + out.fetched))
            && (out.Done? && out.changed ==> r == After(fetched + out.fetched, Iterate(step, out.value, rounds - 1)))
  {
    if out.Done? && out.changed {
      var rest := Iterate(step, out.value, rounds - 1);
      assert fetched + out.fetched + rest.fetched == fetched + (out.fetched + rest.fetched);
    }
  }
}
