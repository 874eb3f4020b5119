/**
 The collector's run loop: starting a service, reloading it as a whole or only its
 receivers, and shutting down.  What the outside does in a run - the outcome of every
 step, and the signals that arrive - is the input; the calls the collector makes on its
 services are recorded in order.
 */
module Collectors {
  import opened Common
  import opened ConfigDiff
  import opened Receivers

  datatype CollectorState = StateStarting | StateRunning | StateClosing | StateClosed

  // ----- the outside

  /** How setting up a service goes: it fails before there is a configuration, it fails to start, or it runs. */
  datatype Attempt = FailsEarly | StartFails(config: Config) | Starts(config: Config)

  ghost predicate Works(a: Attempt, valid: Config -> bool) {
    a.Starts? && valid(a.config)
  }

  /** How a partial reload goes: there is no configuration, or there is one and stopping and starting receivers works or
      not, and then leaves some of them running. */
  datatype Partial = NoConfig | Loaded(config: Config, updates: bool, left: map<Node, Receiver>)

  datatype Reload = Reload(partial: Partial, stopFails: bool, attempt: Attempt)

  datatype Signal =
    | WatchFailed
    | ConfigChanged(reload: Reload)
    | AsyncError
    | Sighup(reload: Reload)
    | Terminate
    | ShutdownRequested
    | ContextDone

  // ----- the calls on services

  datatype Call = Created(id: nat) | StartCalled(id: nat) | ShutdownCalled(id: nat)

  /** n services, each created, started and shut down before the next is created. */
  function History(n: nat): seq<Call> {
    if n == 0 then [] else History(n - 1) + Life(n - 1)
  }

  function Life(id: nat): seq<Call> {
    [Created(id), StartCalled(id), ShutdownCalled(id)]
  }

  /** The same, with one more service up. */
  function HistoryUp(n: nat): seq<Call> {
    History(n) + [Created(n), StartCalled(n)]
  }

  /** In it every call on every one of the services, and on no other, occurs exactly once. */
  lemma HistoryCounts(n: nat, c: Call)
    ensures multiset(History(n))[c] == if c.id < n then 1 else 0
  {
    var count := (calls: seq<Call>) => multiset(calls)[c];
    forall calls: seq<Call>, id: nat ensures count(calls + Life(id)) == count(calls) + if c.id == id then 1 else 0 {
      LifeAdds(calls, id, c);
    }
    CountedByLives(n, c, count);
  }

  lemma {:induction false} CountedByLives(n: nat, c: Call, count: seq<Call> -> nat)
    requires count([]) == 0
    requires forall calls: seq<Call>, id: nat {:trigger count(calls + Life(id))} ::
               count(calls + Life(id)) == count(calls) + if c.id == id then 1 else 0
    ensures count(History(n)) == if c.id < n then 1 else 0
  {
    if n > 0 {
      CountedByLives(n - 1, c, count);
      assert History(n) == History(n - 1) + Life(n - 1);
    }
  }

  lemma LifeCounts(id: nat, c: Call)
    ensures multiset(Life(id))[c] == if c.id == id then 1 else 0
  {
    assert multiset(Life(id)) == multiset{Created(id), StartCalled(id), ShutdownCalled(id)};
  }

  lemma LifeAdds(calls: seq<Call>, id: nat, c: Call)
    ensures multiset(calls + Life(id))[c] == multiset(calls)[c] + if c.id == id then 1 else 0
  {
    LifeCounts(id, c);
  }

  /** Services created and not yet shut down, at a point of a history. */
  function LiveIn(calls: seq<Call>): set<nat> {
    if calls == [] then {}
    else
      var live := LiveIn(calls[..|calls| - 1]);
      match calls[|calls| - 1]
      case Created(id) => live + {id}
      case StartCalled(_) => live
      case ShutdownCalled(id) => live - {id}
  }

  /** At every point of a history at most the service created last is live. */
  lemma {:induction false} OneLiveAtATime(n: nat, k: nat)
    requires k <= |HistoryUp(n)|
    ensures |History(n)| == 3 * n
    ensures LiveIn(HistoryUp(n)[..k]) == if k % 3 == 0 then {} else {k / 3}
    decreases n, k
  {
    HistoryLength(n);
    var h := HistoryUp(n);
    if k > 0 {
      OneLiveAtATime(n, k - 1);
      assert h[..k][..k - 1] == h[..k - 1];
      HistoryAt(n, k - 1);
    }
  }

  lemma {:induction false} HistoryLength(n: nat)
    ensures |History(n)| == 3 * n
  {
    if n > 0 {
      HistoryLength(n - 1);
    }
  }

  lemma {:induction false} HistoryAt(n: nat, k: nat)
    requires k < |HistoryUp(n)|
    ensures HistoryUp(n)[k] ==
            if k % 3 == 0 then Created(k / 3) else if k % 3 == 1 then StartCalled(k / 3) else ShutdownCalled(k / 3)
    decreases n
  {
    HistoryLength(n);
    if n > 0 && k < 3 * n {
      HistoryLength(n - 1);
      if k < 3 * n - 1 {
        HistoryAt(n - 1, k);
        assert HistoryUp(n)[k] == History(n)[k] == HistoryUp(n - 1)[k];
      }
    }
  }

  // ----- the reloads of a run

  datatype Exit = StillRunning | NeverStarted | SetupFailed | ReloadFailed | Stopped

  predicate IsReload(s: Signal) {
    s.ConfigChanged? || s.Sighup?
  }

  /** A service between two signals: its configurations, what it was built with and runs, and how many there were. */
  datatype Snapshot = Snapshot(configs: seq<Config>, connectors: set<ID>, running: map<Node, Receiver>, created: nat)

  /** The change is valid and confined to receivers, and updating them works. */
  ghost predicate PartialWorks(k: Conditions, enabled: bool, s: Snapshot, p: Partial) {
    enabled && p.Loaded? && p.updates && k.reloadable(s.configs, s.connectors, s.running, p.config)
  }

  ghost predicate Succeeds(k: Conditions, enabled: bool, s: Snapshot, r: Reload) {
    PartialWorks(k, enabled, s, r.partial) || (!r.stopFails && Works(r.attempt, k.valid))
  }

  /** A reload that succeeds: a partial one applies its configuration to the service, any other one builds a new service
      from that of its attempt. */
  ghost predicate Renewed(k: Conditions, enabled: bool, s: Snapshot, r: Reload, s': Snapshot) {
    && Succeeds(k, enabled, s, r) && k.serves(s'.configs, s'.connectors, s'.running)
    && if PartialWorks(k, enabled, s, r.partial)
       then s'.configs == s.configs + [r.partial.config] && s'.connectors == s.connectors && s'.created == s.created
       else s'.configs == [r.attempt.config] && s'.created == s.created + 1
  }

  /** The snapshots before and after each of as many signals, all of which are reloads that succeed. */
  ghost predicate Traced(k: Conditions, enabled: bool, trace: seq<Snapshot>, signals: seq<Signal>) {
    var n := |trace| - 1;
    && 0 <= n <= |signals|
    && (n > 0 ==>
          && Traced(k, enabled, trace[..n], signals) && IsReload(signals[n - 1])
          && Renewed(k, enabled, trace[n - 1], signals[n - 1].reload, trace[n]))
  }

  /** What the first signal that is not such a reload makes of the run. */
  ghost function ExitAfter(k: Conditions, enabled: bool, trace: seq<Snapshot>, signals: seq<Signal>): Option<Exit>
    requires 0 < |trace| <= |signals| + 1
  {
    var n := |trace| - 1;
    if n == |signals| then Some(StillRunning)
    else if !IsReload(signals[n]) then Some(Stopped)
    else if !Succeeds(k, enabled, trace[n], signals[n].reload) then Some(ReloadFailed)
    else None
  }

  lemma ExtendTrace(k: Conditions, enabled: bool, trace: seq<Snapshot>, signals: seq<Signal>, s: Snapshot)
    requires Traced(k, enabled, trace, signals) && |trace| <= |signals| && IsReload(signals[|trace| - 1])
    requires Renewed(k, enabled, trace[|trace| - 1], signals[|trace| - 1].reload, s)
    ensures Traced(k, enabled, trace + [s], signals)
  {
    var n := |trace|;
    assert (trace + [s])[..n] == trace;
  }

  /** The configuration that a reload that succeeds brings. */
  ghost function Brought(k: Conditions, enabled: bool, s: Snapshot, r: Reload): Option<Config> {
    if PartialWorks(k, enabled, s, r.partial) then Some(r.partial.config)
    else if r.attempt.FailsEarly? then None
    else Some(r.attempt.config)
  }

  /** After its last reload a service has the configuration which that one brought. */
  lemma NewestConfig(k: Conditions, enabled: bool, trace: seq<Snapshot>, signals: seq<Signal>)
    requires Traced(k, enabled, trace, signals) && |trace| > 1 && IsReload(signals[|trace| - 2])
    ensures var n := |trace| - 1;
            && trace[n].configs != []
            && Some(Last(trace[n].configs)) == Brought(k, enabled, trace[n - 1], signals[n - 1].reload)
  {
  }

  /** The signals that were full reloads. */
  ghost function FullReloads(k: Conditions, enabled: bool, trace: seq<Snapshot>, signals: seq<Signal>): set<nat>
    requires |trace| <= |signals| + 1
  {
    set i: nat |
      i < |trace| - 1 && IsReload(signals[i]) && !PartialWorks(k, enabled, trace[i], signals[i].reload.partial)
  }

  lemma FullReloadsStep(k: Conditions, enabled: bool, trace: seq<Snapshot>, signals: seq<Signal>)
    requires 1 < |trace| <= |signals| + 1 && IsReload(signals[|trace| - 2])
    ensures var n := |trace| - 1;
            |FullReloads(k, enabled, trace, signals)| == |FullReloads(k, enabled, trace[..n], signals)| +
              if PartialWorks(k, enabled, trace[n - 1], signals[n - 1].reload.partial) then 0 else 1
  {
    var n := |trace| - 1;
    var all, front := FullReloads(k, enabled, trace, signals), FullReloads(k, enabled, trace[..n], signals);
    assert forall i: nat :: i < n ==> trace[..n][i] == trace[i];
    if PartialWorks(k, enabled, trace[n - 1], signals[n - 1].reload.partial) {
      assert all == front;
    } else {
      assert all == front + {n - 1};
    }
  }

  /** Exactly the full reloads create services. */
  lemma {:induction false} CreatedCounts(k: Conditions, enabled: bool, trace: seq<Snapshot>, signals: seq<Signal>)
    requires Traced(k, enabled, trace, signals)
    ensures trace[|trace| - 1].created == trace[0].created + |FullReloads(k, enabled, trace, signals)|
    decreases |trace|
  {
    var n := |trace| - 1;
    if n > 0 {
      CreatedCounts(k, enabled, trace[..n], signals);
      FullReloadsStep(k, enabled, trace, signals);
    } else {
      assert FullReloads(k, enabled, trace, signals) == {};
    }
  }

  // ----- the collector

  class Collector {
    const hashing: Hashing
    const partialReloadEnabled: bool

    var state: CollectorState
    var service: Option<nat>
    var currentFingerprint: Option<Fingerprint>

    // The connectors the live service was built with, and its receivers.
    var connectors: set<ID>
    var running: map<Node, Receiver>

    // The calls made so far, the number of services created, and whether the configuration provider was shut down.
    var calls: seq<Call>
    var created: nat
    var providerShutdown: bool

    // What is required of the live service.
    ghost const conditions: Conditions

    // The configurations of the live service: the one it was built from, then those applied to it since.
    ghost var configs: seq<Config>

    constructor (hashing: Hashing, partialReloadEnabled: bool)
      ensures this.hashing == hashing && this.partialReloadEnabled == partialReloadEnabled
      ensures state == StateStarting && service == None && currentFingerprint == None
      ensures calls == [] && created == 0 && !providerShutdown && Means(conditions, hashing)
    {
      conditions := ConditionsOf(hashing);
      ConditionsMean(hashing);
      this.hashing, this.partialReloadEnabled := hashing, partialReloadEnabled;
      state, service, currentFingerprint := StateStarting, None, None;
      calls, created, providerShutdown := [], 0, false;
      configs, connectors, running := [], {}, map[];
    }

    /** No service is up; all there were went through their whole life. */
    ghost predicate Down()
      reads this
    {
      calls == History(created) && !providerShutdown
    }

    /** One service is up and running; its configurations are valid and were reached by allowed partial reloads, and the
        fingerprint is that of the last one. */
    ghost predicate Up()
      reads this
    {
      && state == StateRunning && !providerShutdown
      && created > 0 && service == Some(created - 1) && calls == HistoryUp(created - 1)
      && configs != [] && conditions.reloads(configs, connectors)
      && (partialReloadEnabled ==> currentFingerprint == Some(FingerprintOf(hashing, Last(configs))))
      && (!partialReloadEnabled ==> currentFingerprint == None && |configs| == 1)
    }

    ghost function Snap(): Snapshot
      reads this
    {
      Snapshot(configs, connectors, running, created)
    }

    /** The live service runs the receivers its configurations call for. */
    ghost predicate Served()
      reads this
    {
      conditions.serves(configs, connectors, running)
    }

    method StartService()
      requires Down()
      modifies `service, `created, `calls
      ensures created == old(created) + 1 && service == Some(created - 1) && calls == HistoryUp(created - 1)
    {
      var id := created;
      service, created := Some(id), created + 1;
      calls := calls + [Created(id)];
      calls := calls + [StartCalled(id)];
    }

    method StopService()
      requires created > 0 && service == Some(created - 1) && calls == HistoryUp(created - 1)
      modifies `calls
      ensures calls == History(created)
    {
      calls := calls + [ShutdownCalled(service.value)];
      assert calls == History(created - 1) + Life(created - 1);
    }

    method SetupConfigurationComponents(a: Attempt) returns (ok: bool)
      requires Means(conditions, hashing) && Down() && (!partialReloadEnabled ==> currentFingerprint == None)
      modifies this
      ensures ok == Works(a, conditions.valid)
      ensures if ok then Up() && Served() && configs == [a.config] && created == old(created) + 1
              else Down() && state == StateStarting
      ensures !ok ==> created == old(created) + if a.StartFails? && conditions.valid(a.config) then 1 else 0
    {
      state := StateStarting;
      if a.FailsEarly? {
        return false;
      }
      var valid := Validate(hashing, conditions, a.config);
      if !valid {
        return false;
      }
      StartService();
      configs := [a.config];
      if a.StartFails? {
        StopService();
        return false;
      }
      RunService(a.config);
      return true;
    }

    /** The rest of a setup, once the service has started. */
    method RunService(c: Config)
      requires Means(conditions, hashing) && conditions.valid(c) && configs == [c]
      requires created > 0 && service == Some(created - 1) && calls == HistoryUp(created - 1) && !providerShutdown
      requires !partialReloadEnabled ==> currentFingerprint == None
      modifies `currentFingerprint, `connectors, `running, `state
      ensures Up() && Served()
    {
      if partialReloadEnabled {
        currentFingerprint := Some(FingerprintOf(hashing, c));
      }
      connectors, running := BuildReceivers(hashing, conditions, c);
      state := StateRunning;
    }

    /** Whether a partial reload was attempted, and whether it failed. */
    method TryPartialReceiverReload(p: Partial) returns (attempted: bool, failed: bool)
      requires Means(conditions, hashing) && Up() && Served() && currentFingerprint.Some?
      modifies `currentFingerprint, `configs, `running
      ensures Up() && (!attempted || !failed ==> Served())
      ensures attempted <==> p.Loaded? && conditions.attempts(old(configs), p.config)
      ensures attempted && !failed <==> PartialWorks(conditions, partialReloadEnabled, old(Snap()), p)
      ensures configs == if attempted && !failed then old(configs) + [p.config] else old(configs)
    {
      if p.NoConfig? {
        return false, true;
      }
      var ok, now;
      attempted, ok, now :=
        PartialReload(hashing, currentFingerprint.value, connectors, running, conditions, configs, p.config);
      failed := !ok || !p.updates;
      if attempted {
        running := if failed then p.left else now;
        if !failed {
          currentFingerprint := Some(FingerprintOf(hashing, p.config));
          configs := configs + [p.config];
        }
      }
    }

    /** A full reload gets as far as a service that does not start. */
    ghost predicate StartsAndFails(r: Reload) {
      !r.stopFails && r.attempt.StartFails? && conditions.valid(r.attempt.config)
    }

    /** A partial reload keeps the service; anything else replaces it. */
    method ReloadConfiguration(r: Reload) returns (ok: bool)
      requires Means(conditions, hashing) && Up() && Served()
      modifies this
      ensures ok <==> Succeeds(conditions, partialReloadEnabled, old(Snap()), r)
      ensures ok ==> Up() && Served() && Renewed(conditions, partialReloadEnabled, old(Snap()), r, Snap())
      ensures !ok ==> Down() && (state == StateStarting || state == StateClosing)
      ensures !ok ==> created == old(created) + if StartsAndFails(r) then 1 else 0
    {
      if partialReloadEnabled && currentFingerprint.Some? {
        var attempted, failed := TryPartialReceiverReload(r.partial);
        if attempted && !failed {
          return true;
        }
      }
      state := StateClosing;
      StopService();
      if r.stopFails {
        return false;
      }
      ok := SetupConfigurationComponents(r.attempt);
    }

    method Shutdown()
      requires Up()
      modifies this
      ensures state == StateClosed && calls == History(created) && providerShutdown && created == old(created)
    {
      state := StateClosing;
      providerShutdown := true;
      StopService();
      state := StateClosed;
    }

    /** One turn of the loop. */
    method Handle(signal: Signal) returns (exit: Exit)
      requires Means(conditions, hashing) && Up() && Served()
      modifies this
      ensures exit == if !IsReload(signal) then Stopped
                      else if Succeeds(conditions, partialReloadEnabled, old(Snap()), signal.reload) then StillRunning
                      else ReloadFailed
      ensures exit == StillRunning ==>
        Up() && Served() && Renewed(conditions, partialReloadEnabled, old(Snap()), signal.reload, Snap())
      ensures exit == Stopped ==> state == StateClosed && providerShutdown && created == old(created)
      ensures exit == ReloadFailed ==>
        && (state == StateStarting || state == StateClosing) && !providerShutdown
        && created == old(created) + if StartsAndFails(signal.reload) then 1 else 0
      ensures exit != StillRunning ==> calls == History(created)
    {
      match signal {
        case ConfigChanged(reload) =>
          var reloaded := ReloadConfiguration(reload);
          return if reloaded then StillRunning else ReloadFailed;
        case Sighup(reload) =>
          var reloaded := ReloadConfiguration(reload);
          return if reloaded then StillRunning else ReloadFailed;
        case _ =>
          Shutdown();
          return Stopped;
      }
    }

    /** Takes signals until one ends the run: the first that is not a reload, or a reload that does not succeed. */
    method Loop(signals: seq<Signal>) returns (exit: Exit, ghost trace: seq<Snapshot>)
      requires Means(conditions, hashing) && Up() && Served()
      modifies this
      ensures Traced(conditions, partialReloadEnabled, trace, signals) && trace[0] == old(Snap())
      ensures ExitAfter(conditions, partialReloadEnabled, trace, signals) == Some(exit)
      ensures exit == StillRunning ==> Up() && Served() && Snap() == trace[|signals|]
      ensures exit == StillRunning && signals != [] ==>
        && IsReload(signals[|signals| - 1])
        && Some(Last(configs)) ==
           Brought(conditions, partialReloadEnabled, trace[|signals| - 1], signals[|signals| - 1].reload)
      ensures exit in {StillRunning, Stopped} ==>
        created == old(created) + |FullReloads(conditions, partialReloadEnabled, trace, signals)|
      ensures exit == Stopped ==> state == StateClosed && providerShutdown
      ensures exit == ReloadFailed ==>
        && (state == StateStarting || state == StateClosing) && !providerShutdown
        && created == trace[|trace| - 1].created + if StartsAndFails(signals[|trace| - 1].reload) then 1 else 0
      ensures exit != StillRunning ==> calls == History(created)
    {
      trace := [Snap()];
      for i := 0 to |signals|
        invariant Up() && Served()
        invariant |trace| == i + 1 && trace[i] == Snap() && trace[0] == old(Snap())
        invariant Traced(conditions, partialReloadEnabled, trace, signals)
      {
        CreatedCounts(conditions, partialReloadEnabled, trace, signals);
        exit := Handle(signals[i]);
        if exit != StillRunning {
          return;
        }
        ExtendTrace(conditions, partialReloadEnabled, trace, signals, Snap());
        trace := trace + [Snap()];
      }
      CreatedCounts(conditions, partialReloadEnabled, trace, signals);
      if signals != [] {
        NewestConfig(conditions, partialReloadEnabled, trace, signals);
      }
      exit := StillRunning;
    }

    /** A run up to some point: it begins with a shutdown request or an attempt to set up, then takes signals until one
        ends it.  As long as it goes on one service is up; when it ends every service was started once and shut down
        once, one after the other, and the collector is closed unless a reload failed.  There were as many services as
        full reloads and one more.  Whatever was reloaded, the live service has the core it was built from if and only
        if none of its configurations collide, and then it ran the receivers of its newest configuration after every
        reload if and only if none of those collided. */
    method Run(shutdownBefore: bool, first: Attempt, signals: seq<Signal>)
      returns (exit: Exit, ghost trace: seq<Snapshot>)
      requires Means(conditions, hashing)
      requires Down() && created == 0 && state == StateStarting && currentFingerprint == None
      modifies this
      ensures exit == StillRunning ==> Up() && Served() && Follows(hashing, configs, connectors, running)
      ensures exit != StillRunning ==> calls == History(created)
      ensures exit in {NeverStarted, SetupFailed, Stopped} ==> state == StateClosed
      ensures exit == ReloadFailed ==> state == StateStarting || state == StateClosing
      ensures providerShutdown <==> exit in {NeverStarted, Stopped}
      ensures exit == NeverStarted <==> shutdownBefore
      ensures exit == SetupFailed <==> !shutdownBefore && !Works(first, conditions.valid)
      ensures exit in {StillRunning, Stopped, ReloadFailed} ==>
        && Traced(conditions, partialReloadEnabled, trace, signals)
        && trace[0].configs == [first.config] && trace[0].created == 1
        && ExitAfter(conditions, partialReloadEnabled, trace, signals) == Some(exit)
      ensures exit in {StillRunning, Stopped} ==>
        created == 1 + |FullReloads(conditions, partialReloadEnabled, trace, signals)|
      ensures exit == StillRunning ==> Snap() == trace[|signals|]
      ensures exit == StillRunning && signals != [] ==>
        && IsReload(signals[|signals| - 1])
        && Some(Last(configs)) ==
           Brought(conditions, partialReloadEnabled, trace[|signals| - 1], signals[|signals| - 1].reload)
    {
      trace := [];
      if shutdownBefore {
        state := StateClosed;
        providerShutdown := true;
        return NeverStarted, trace;
      }
      var ok := SetupConfigurationComponents(first);
      if !ok {
        state := StateClosed;
        return SetupFailed, trace;
      }
      exit, trace := Loop(signals);
      if exit == StillRunning {
        ServiceExactly(hashing, conditions, configs, connectors, running);
      }
    }
  }
}
