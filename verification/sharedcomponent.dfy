/**
 Components shared between pipelines: the map of live components, the once-only start and stop of the
 wrapped component, and the host wrapper that replays recent status events to late subscribers.

 Calls are sequential. What the wrapped component does when it is started or stopped (the events it
 reports, the error it returns) is a parameter.
 */
module SharedComponents {
  import opened Common

  type Event = int
  type Error = int
  type Reporter = int

  /** What the wrapped component does during one call of its Start or Shutdown. */
  datatype Script = Script(events: seq<Event>, err: Option<Error>)

  // ----- replay

  /** A call of Report on the reporter of one subscription. */
  datatype Call = Call(source: nat, event: Event)

  /** The events one subscription received, in order. */
  function Received(calls: seq<Call>, source: nat): seq<Event> {
    if calls == [] then []
    else
      var n := |calls| - 1;
      Received(calls[..n], source) + if calls[n].source == source then [calls[n].event] else []
  }

  lemma ReceivedSnoc(calls: seq<Call>, call: Call, source: nat)
    ensures Received(calls + [call], source)
         == Received(calls, source) + if call.source == source then [call.event] else []
  {
    assert (calls + [call])[..|calls|] == calls;
  }

  const SLOTS := 5

  /** The ring, read from its current slot on, holds the last recorded events, the oldest first, after empty slots. */
  ghost predicate Holds(ring: seq<Option<Event>>, at: nat, recorded: seq<Event>) {
    |ring| == SLOTS && at < SLOTS && forall k :: 0 <= k < SLOTS ==> ring[(at + k) % SLOTS] == Kept(recorded, k)
  }

  /** The k-th of the last five events, if there is one. */
  function Kept(recorded: seq<Event>, k: nat): Option<Event>
    requires k < SLOTS
  {
    var i := |recorded| - SLOTS + k;
    if 0 <= i then Some(recorded[i]) else None
  }

  /** Where the replay starts for a subscription that joins after n recorded events. */
  function ReplayFrom(n: nat): nat {
    if n < SLOTS then 0 else n - SLOTS
  }

  lemma RingAdvances(ring: seq<Option<Event>>, at: nat, recorded: seq<Event>, e: Event)
    requires Holds(ring, at, recorded)
    ensures Holds(ring[at := Some(e)], (at + 1) % SLOTS, recorded + [e])
  {
    var r, next, more := ring[at := Some(e)], (at + 1) % SLOTS, recorded + [e];
    forall k | 0 <= k < SLOTS ensures r[(next + k) % SLOTS] == Kept(more, k) {
      if k < SLOTS - 1 {
        assert (next + k) % SLOTS == (at + (k + 1)) % SLOTS != at;
        assert ring[(at + (k + 1)) % SLOTS] == Kept(recorded, k + 1);
      } else {
        assert (next + k) % SLOTS == at;
      }
    }
  }

  class HostWrapper {
    var sources: seq<Reporter>
    var ring: seq<Option<Event>>
    var at: nat
    /** All events given to Report, how many of them came before the first source, and the recorded rest. */
    ghost var reported: seq<Event>
    ghost var skipped: nat
    ghost var recorded: seq<Event>
    /** For each source, the number of events recorded when it joined. */
    ghost var joined: seq<nat>
    /** All calls of Report on the sources, in order. */
    ghost var calls: seq<Call>

    /** Every source received the last five events recorded before it joined, or all if they were fewer, and then
        every later event. Recorded are the events since the first source joined. */
    ghost predicate Valid()
      reads this
    {
      && Holds(ring, at, recorded)
      && skipped <= |reported| && recorded == reported[skipped..] && (sources == [] ==> skipped == |reported|)
      && |joined| == |sources|
      && (forall i :: 0 <= i < |sources| ==>
            joined[i] <= |recorded| && Received(calls, i) == recorded[ReplayFrom(joined[i])..])
      && (forall i :: i >= |sources| ==> Received(calls, i) == [])
    }

    constructor ()
      ensures Valid() && sources == [] && recorded == [] && reported == [] && joined == [] && calls == []
    {
      sources, ring, at := [], [None, None, None, None, None], 0;
      reported, skipped, recorded, joined, calls := [], 0, [], [], [];
    }

    method Report(e: Event)
      requires Valid()
      modifies this
      ensures Valid() && sources == old(sources) && joined == old(joined) && reported == old(reported) + [e]
      ensures recorded == if sources == [] then old(recorded) else old(recorded) + [e]
    {
      reported := reported + [e];
      if |sources| > 0 {
        RingAdvances(ring, at, recorded, e);
        ring := ring[at := Some(e)];
        at := (at + 1) % SLOTS;
        recorded := recorded + [e];
      } else {
        skipped := skipped + 1;
      }
      Emit(e);
    }

    /** Calls Report on every source in turn. */
    method Emit(e: Event)
      modifies this`calls
      ensures forall i :: 0 <= i < |sources| ==> Received(calls, i) == Received(old(calls), i) + [e]
      ensures forall i :: i >= |sources| ==> Received(calls, i) == Received(old(calls), i)
    {
      for s := 0 to |sources|
        invariant forall i :: 0 <= i < s ==> Received(calls, i) == Received(old(calls), i) + [e]
        invariant forall i :: i >= s ==> Received(calls, i) == Received(old(calls), i)
      {
        forall i: nat {
          ReceivedSnoc(calls, Call(s, e), i);
        }
        calls := calls + [Call(s, e)];
      }
    }

    /** Replays the ring to the new source before it is added. */
    method AddSource(reporter: Reporter)
      requires Valid()
      modifies this
      ensures Valid() && sources == old(sources) + [reporter] && joined == old(joined) + [|recorded|]
      ensures recorded == old(recorded) && reported == old(reported)
    {
      Replay(|sources|);
      sources := sources + [reporter];
      joined := joined + [|recorded|];
    }

    method Replay(source: nat)
      requires Holds(ring, at, recorded)
      modifies this`calls
      ensures Received(calls, source) == Received(old(calls), source) + recorded[ReplayFrom(|recorded|)..]
      ensures forall i :: i != source ==> Received(calls, i) == Received(old(calls), i)
    {
      ghost var from := ReplayFrom(|recorded|);
      for k := 0 to SLOTS
        invariant from <= Reached(|recorded|, k) <= |recorded|
        invariant Received(calls, source) == Received(old(calls), source) + recorded[from..Reached(|recorded|, k)]
        invariant forall i :: i != source ==> Received(calls, i) == Received(old(calls), i)
      {
        var slot := ring[(at + k) % SLOTS];
        assert slot == Kept(recorded, k);
        if slot.Some? {
          forall i: nat {
            ReceivedSnoc(calls, Call(source, slot.value), i);
          }
          calls := calls + [Call(source, slot.value)];
          assert recorded[from..Reached(|recorded|, k + 1)] == recorded[from..Reached(|recorded|, k)] + [slot.value];
        }
      }
    }
  }

  /** How far the replay of n events has come after k slots. */
  function Reached(n: nat, k: nat): nat {
    if n + k < SLOTS then 0 else n + k - SLOTS
  }

  // ----- components

  class Component<K(==)> {
    const key: K
    const owner: Map<K>
    var started: bool
    var startErr: Option<Error>
    var stopped: bool
    var hostWrapper: HostWrapper?
    /** How often the wrapped component was started and stopped. */
    ghost var starts: nat
    ghost var stops: nat

    ghost predicate Valid()
      reads this, hostWrapper
    {
      && (started <==> hostWrapper != null)
      && starts == (if started then 1 else 0)
      && stops == (if stopped then 1 else 0)
      && (hostWrapper != null ==> hostWrapper.Valid())
    }

    constructor (owner: Map<K>, key: K)
      ensures Valid() && this.owner == owner && this.key == key && !started && !stopped && hostWrapper == null
    {
      this.owner, this.key := owner, key;
      started, startErr, stopped, hostWrapper, starts, stops := false, None, false, null, 0, 0;
    }

    /** Starts the wrapped component the first time only; every call returns the error of that start. The host's
        reporter, if it is one, is subscribed by every call. */
    method Start(host: Option<Reporter>, script: Script) returns (err: Option<Error>)
      requires Valid()
      modifies this, hostWrapper
      ensures Valid() && starts == 1 && stopped == old(stopped) && err == startErr
      ensures startErr == if old(started) then old(startErr) else script.err
      ensures hostWrapper != null && (if old(started) then hostWrapper == old(hostWrapper) else fresh(hostWrapper))
      ensures old(started) ==>
        && hostWrapper.recorded == old(hostWrapper.recorded)
        && hostWrapper.joined == old(hostWrapper.joined) + (if host.Some? then [|hostWrapper.recorded|] else [])
      ensures !old(started) ==>
        && hostWrapper.reported == script.events
        && hostWrapper.joined == (if host.Some? then [0] else [])
        && hostWrapper.recorded == (if host.Some? then script.events else [])
    {
      if hostWrapper == null {
        started := true;
        hostWrapper := Launch(host, script.events);
        starts := starts + 1;
        startErr := script.err;
        return startErr;
      }
      if host.Some? {
        hostWrapper.AddSource(host.value);
      }
      return startErr;
    }

    /** The host wrapper of the first start, after the wrapped component has reported its events to it. */
    static method Launch(host: Option<Reporter>, events: seq<Event>) returns (h: HostWrapper)
      ensures fresh(h) && h.Valid() && h.reported == events && h.joined == (if host.Some? then [0] else [])
      ensures h.recorded == if host.Some? then events else []
    {
      h := new HostWrapper();
      if host.Some? {
        h.AddSource(host.value);
      }
      ReportAll(h, events);
    }

    static method ReportAll(h: HostWrapper, events: seq<Event>)
      requires h.Valid()
      modifies h
      ensures h.Valid() && h.sources == old(h.sources) && h.joined == old(h.joined)
      ensures h.reported == old(h.reported) + events
      ensures h.recorded == old(h.recorded) + if h.sources == [] then [] else events
    {
      for i := 0 to |events|
        invariant h.Valid() && h.sources == old(h.sources) && h.joined == old(h.joined)
        invariant h.reported == old(h.reported) + events[..i]
        invariant h.recorded == old(h.recorded) + if h.sources == [] then [] else events[..i]
      {
        assert events[..i + 1] == events[..i] + [events[i]];
        h.Report(events[i]);
      }
      assert events[..|events|] == events;
    }

    /** Stops the wrapped component the first time only, and then takes this one out of the map. */
    method Shutdown(script: Script) returns (err: Option<Error>)
      requires Valid()
      modifies this, hostWrapper, owner`components
      ensures Valid() && stops == 1 && stopped && started == old(started) && startErr == old(startErr)
      ensures hostWrapper == old(hostWrapper)
      ensures err == if old(stopped) then None else script.err
      ensures owner.components == if old(stopped) then old(owner.components) else old(owner.components) - {key}
      ensures hostWrapper != null ==>
        && hostWrapper.joined == old(hostWrapper.joined)
        && hostWrapper.reported == old(hostWrapper.reported) + (if old(stopped) then [] else script.events)
    {
      err := None;
      if !stopped {
        stopped := true;
        stops := stops + 1;
        if hostWrapper != null {
          ReportAll(hostWrapper, script.events);
        }
        err := script.err;
        owner.components := owner.components - {key};
      }
    }
  }

  class Map<K(==)> {
    var components: map<K, Component<K>>
    /** All components this map ever created. */
    ghost var created: seq<Component<K>>

    ghost function Wrappers(): set<HostWrapper?>
      reads this, created
    {
      set c | c in created :: c.hostWrapper
    }

    /** The map holds exactly the components that were not stopped, each under its key; so there is at most one
        for a key. Each was started and stopped at most once and kept the promise of replay. */
    ghost predicate Valid()
      reads this, created, Wrappers()
    {
      && (forall k :: k in components ==> components[k] in created && components[k].key == k)
      && (forall c :: c in created ==>
            c.owner == this && c.Valid() && (!c.stopped <==> c.key in components && components[c.key] == c))
      && (forall c, d :: c in created && d in created && c != d ==>
            c.hostWrapper == null || c.hostWrapper != d.hostWrapper)
    }

    constructor ()
      ensures Valid() && components == map[] && created == []
    {
      components, created := map[], [];
    }

    method LoadOrStore(key: K, createErr: Option<Error>) returns (c: Component?<K>, err: Option<Error>)
      requires Valid()
      modifies this
      ensures Valid()
      ensures key in old(components) ==> c == old(components)[key] && err == None && created == old(created)
      ensures key !in old(components) && createErr.Some? ==> c == null && err == createErr && created == old(created)
      ensures key !in old(components) && createErr.None? ==> fresh(c) && err == None && created == old(created) + [c]
      ensures components == if c == null then old(components) else old(components)[key := c]
      ensures Wrappers() <= old(Wrappers()) + {null}
    {
      if key in components {
        return components[key], None;
      }
      if createErr.Some? {
        return null, createErr;
      }
      var n := new Component<K>(this, key);
      components := components[key := n];
      created := created + [n];
      return n, None;
    }

    // What a pipeline does with one of the components: the promises to all of them hold afterwards.

    method StartOne(c: Component<K>, host: Option<Reporter>, script: Script) returns (err: Option<Error>)
      requires Valid() && c in created
      modifies this, created, Wrappers()
      ensures Valid() && created == old(created) && components == old(components)
      ensures fresh(Wrappers() - old(Wrappers()))
      ensures c.started && err == if old(c.started) then old(c.startErr) else script.err
    {
      err := c.Start(host, script);
      forall d | d in created && d != c ensures d.Valid() {
        assert old(d.Valid()) && d.hostWrapper == old(d.hostWrapper);
      }
    }

    method ReportOne(c: Component<K>, e: Event)
      requires Valid() && c in created && c.hostWrapper != null
      modifies Wrappers()
      ensures Valid() && created == old(created) && components == old(components) && Wrappers() == old(Wrappers())
    {
      c.hostWrapper.Report(e);
    }

    method ShutdownOne(c: Component<K>, script: Script) returns (err: Option<Error>)
      requires Valid() && c in created
      modifies this, created, Wrappers()
      ensures Valid() && created == old(created) && Wrappers() == old(Wrappers())
      ensures c.stopped && components == if old(c.stopped) then old(components) else old(components) - {c.key}
    {
      err := c.Shutdown(script);
      forall d | d in created && d != c ensures d.Valid() {
        assert old(d.Valid()) && d.hostWrapper == old(d.hostWrapper);
      }
    }
  }

  datatype Op<K> =
    | Load(key: K, createErr: Option<Error>)
    | Start(component: nat, host: Option<Reporter>, script: Script)
    | Report(component: nat, event: Event)
    | Stop(component: nat, script: Script)

  /** One step of a run; the caller keeps all the components it was given. */
  method Apply<K>(m: Map<K>, all: seq<Component<K>>, op: Op<K>) returns (now: seq<Component<K>>)
    requires m.Valid() && m.created == all
    modifies m, all, m.Wrappers()
    ensures m.Valid() && m.created == now && fresh((set c | c in now) - (set c | c in all))
    ensures fresh(m.Wrappers() - old(m.Wrappers()) - {null})
  {
    now := all;
    match op {
      case Load(key, createErr) =>
        var c, err := m.LoadOrStore(key, createErr);
        if c != null && c !in all {
          now := all + [c];
        }
      case Start(n, host, script) =>
        if n < |all| {
          var err := m.StartOne(all[n], host, script);
        }
      case Report(n, e) =>
        if n < |all| && all[n].hostWrapper != null {
          m.ReportOne(all[n], e);
        }
      case Stop(n, script) =>
        if n < |all| {
          var err := m.ShutdownOne(all[n], script);
        }
    }
  }

  /** Any sequential run from a new map: at its end, as at any earlier point, the map holds exactly the components
      that were not stopped, each was started and stopped at most once, and every subscription got its replay. */
  method Session<K(==)>(ops: seq<Op<K>>) returns (m: Map<K>, all: seq<Component<K>>)
    ensures fresh(m) && m.Valid() && m.created == all
  {
    m := new Map<K>();
    all := [];
    for i := 0 to |ops|
      invariant fresh(m) && m.Valid() && m.created == all
      invariant fresh(set c | c in all) && fresh(m.Wrappers() - {null})
    {
      all := Apply(m, all, ops[i]);
    }
  }
}
