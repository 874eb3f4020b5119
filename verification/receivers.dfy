/**
 The receiver half of a partial reload: which receivers of a running service are kept, which
 are stopped and which are built anew.

 A receiver node serves all pipelines of one signal that name the receiver.  Nodes are told
 apart by signal and receiver, and a node is what it was built with: the configuration of its
 receiver and the pipelines it feeds.
 */
module Receivers {
  import opened Common
  import opened ConfigDiff
  import Pipelines

  datatype Node = Node(signal: string, id: ID)
  datatype Receiver = Receiver(config: Raw, pipelines: set<PipelineID>)

  // ----- the receivers that pipelines call for

  /** Pipeline pid takes data from node n. */
  predicate Feeds(ps: map<PipelineID, Pipeline>, isConnector: ID -> bool, n: Node, pid: PipelineID) {
    pid in ps && pid.signal == n.signal && n.id in ps[pid].receivers && !isConnector(n.id)
  }

  function Nodes(ps: map<PipelineID, Pipeline>, isConnector: ID -> bool): (ns: set<Node>)
    ensures forall n, pid :: Feeds(ps, isConnector, n, pid) ==> n in ns
    ensures forall n :: n in ns ==> exists pid :: Feeds(ps, isConnector, n, pid)
  {
    var ns := set pid, id | pid in ps && id in ps[pid].receivers && !isConnector(id) :: Node(pid.signal, id);
    assert forall n, pid :: Feeds(ps, isConnector, n, pid) ==> n == Node(pid.signal, n.id) && n in ns;
    assert forall pid, id :: pid in ps && id in ps[pid].receivers && !isConnector(id) ==>
      Feeds(ps, isConnector, Node(pid.signal, id), pid);
    ns
  }

  function PipelinesOf(ps: map<PipelineID, Pipeline>, isConnector: ID -> bool, n: Node): set<PipelineID> {
    set pid | pid in ps && Feeds(ps, isConnector, n, pid)
  }

  function Desired(ps: map<PipelineID, Pipeline>, isConnector: ID -> bool): map<Node, set<PipelineID>> {
    map n | n in Nodes(ps, isConnector) :: PipelinesOf(ps, isConnector, n)
  }

  predicate In(desired: map<Node, set<PipelineID>>, n: Node, pid: PipelineID) {
    n in desired && pid in desired[n]
  }

  function AddPipeline(desired: map<Node, set<PipelineID>>, n: Node, pid: PipelineID)
    : (more: map<Node, set<PipelineID>>)
    ensures forall m, p :: In(more, m, p) <==> In(desired, m, p) || (m == n && p == pid)
    ensures NonEmpty(desired) ==> NonEmpty(more)
  {
    desired[n := (if n in desired then desired[n] else {}) + {pid}]
  }

  predicate NonEmpty(desired: map<Node, set<PipelineID>>) {
    forall n :: n in desired ==> desired[n] != {}
  }

  lemma DesiredUnique(ps: map<PipelineID, Pipeline>, isConnector: ID -> bool, desired: map<Node, set<PipelineID>>)
    requires NonEmpty(desired) && forall n, pid :: In(desired, n, pid) <==> Feeds(ps, isConnector, n, pid)
    ensures desired == Desired(ps, isConnector)
  {
    forall n | n in desired ensures n in Nodes(ps, isConnector) {
      var pid :| pid in desired[n];
      assert In(desired, n, pid);
    }
    forall n | n in Nodes(ps, isConnector)
      ensures n in desired && desired[n] == PipelinesOf(ps, isConnector, n)
    {
      var pid :| Feeds(ps, isConnector, n, pid);
      assert In(desired, n, pid);
      SamePipelineSet(ps, isConnector, desired, n);
    }
  }

  lemma SamePipelineSet(ps: map<PipelineID, Pipeline>, isConnector: ID -> bool,
                        desired: map<Node, set<PipelineID>>, n: Node)
    requires n in desired && forall pid :: In(desired, n, pid) <==> Feeds(ps, isConnector, n, pid)
    ensures desired[n] == PipelinesOf(ps, isConnector, n)
  {
    forall pid ensures pid in desired[n] <==> pid in PipelinesOf(ps, isConnector, n) {
      assert In(desired, n, pid) <==> pid in desired[n];
    }
  }

  /** The loops over the pipelines, in any order, and their receivers. */
  method CollectDesired(ps: map<PipelineID, Pipeline>, isConnector: ID -> bool)
    returns (desired: map<Node, set<PipelineID>>)
    ensures desired == Desired(ps, isConnector)
  {
    desired := map[];
    var rest := ps.Keys;
    while rest != {}
      invariant rest <= ps.Keys && NonEmpty(desired)
      invariant forall n, pid :: In(desired, n, pid) <==> pid !in rest && Feeds(ps, isConnector, n, pid)
      decreases |rest|
    {
      var pid :| pid in rest;
      desired := CollectReceivers(pid, ps[pid].receivers, desired, isConnector);
      rest := rest - {pid};
    }
    DesiredUnique(ps, isConnector, desired);
  }

  method CollectReceivers(pid: PipelineID, receivers: seq<ID>, before: map<Node, set<PipelineID>>,
                          isConnector: ID -> bool)
    returns (desired: map<Node, set<PipelineID>>)
    requires NonEmpty(before)
    ensures NonEmpty(desired)
    ensures forall n, p :: In(desired, n, p) <==>
              In(before, n, p) || (p == pid && n.signal == pid.signal && n.id in receivers && !isConnector(n.id))
  {
    desired := before;
    for i := 0 to |receivers|
      invariant NonEmpty(desired)
      invariant forall n, p :: In(desired, n, p) <==>
        In(before, n, p) || (p == pid && n.signal == pid.signal && n.id in receivers[..i] && !isConnector(n.id))
    {
      assert receivers[..i + 1] == receivers[..i] + [receivers[i]];
      if !isConnector(receivers[i]) {
        desired := AddPipeline(desired, Node(pid.signal, receivers[i]), pid);
      }
    }
    assert receivers[..|receivers|] == receivers;
  }

  // ----- updating

  /** What becomes of a node that is called for by some pipelines: the receiver stays if it feeds the same pipelines and
      is not among the changed ones; otherwise it is built, if it is configured. */
  function Choose(running: map<Node, Receiver>, changed: set<ID>, configs: map<ID, Raw>, n: Node,
                  pipelines: set<PipelineID>): Option<Receiver>
  {
    if n in running && running[n].pipelines == pipelines && n.id !in changed then Some(running[n])
    else if n.id in configs then Some(Receiver(configs[n.id], pipelines))
    else None
  }

  predicate CanBuild(running: map<Node, Receiver>, changed: set<ID>, configs: map<ID, Raw>,
                     desired: map<Node, set<PipelineID>>)
  {
    forall n :: n in desired ==> Choose(running, changed, configs, n, desired[n]).Some?
  }

  function Updated(running: map<Node, Receiver>, changed: set<ID>, configs: map<ID, Raw>,
                   desired: map<Node, set<PipelineID>>): map<Node, Receiver>
    requires CanBuild(running, changed, configs, desired)
  {
    map n | n in desired :: Choose(running, changed, configs, n, desired[n]).value
  }

  /** Fails exactly when a receiver to be built is not configured. */
  method UpdateReceivers(running: map<Node, Receiver>, changed: set<ID>, configs: map<ID, Raw>,
                         pipelines: map<PipelineID, Pipeline>, isConnector: ID -> bool)
    returns (ok: bool, now: map<Node, Receiver>)
    ensures ok <==> CanBuild(running, changed, configs, Desired(pipelines, isConnector))
    ensures ok ==> now == Updated(running, changed, configs, Desired(pipelines, isConnector))
  {
    var desired := CollectDesired(pipelines, isConnector);
    ok, now := Rebuild(running, changed, configs, desired);
  }

  method Rebuild(running: map<Node, Receiver>, changed: set<ID>, configs: map<ID, Raw>,
                 desired: map<Node, set<PipelineID>>)
    returns (ok: bool, now: map<Node, Receiver>)
    ensures ok <==> CanBuild(running, changed, configs, desired)
    ensures ok ==> now == Updated(running, changed, configs, desired)
  {
    now := map[];
    var rest := desired.Keys;
    while rest != {}
      invariant rest <= desired.Keys && now.Keys == desired.Keys - rest
      invariant forall n :: n in now ==> Choose(running, changed, configs, n, desired[n]) == Some(now[n])
      decreases |rest|
    {
      var n :| n in rest;
      var receiver := Choose(running, changed, configs, n, desired[n]);
      if receiver.None? {
        return false, now;
      }
      now := now[n := receiver.value];
      rest := rest - {n};
    }
    ok := true;
  }

  // ----- what should run

  predicate Configured(c: Config, isConnector: ID -> bool) {
    forall n :: n in Nodes(c.pipelines, isConnector) ==> n.id in c.receivers
  }

  /** The receivers of a service built from c. */
  function RunningOf(c: Config, isConnector: ID -> bool): map<Node, Receiver>
    requires Configured(c, isConnector)
  {
    var desired := Desired(c.pipelines, isConnector);
    map n | n in desired :: Receiver(c.receivers[n.id], desired[n])
  }

  lemma ValidIsConfigured(c: Config, isConnector: ID -> bool)
    requires ValidConfig(c) && forall id :: isConnector(id) <==> id in c.sections.connectors
    ensures Configured(c, isConnector)
  {
    forall n | n in Nodes(c.pipelines, isConnector) ensures n.id in c.receivers {
      var pid :| Feeds(c.pipelines, isConnector, n, pid);
      assert ValidPipeline(c, c.pipelines[pid]);
    }
  }

  function Changed(h: Hashing, old': Config, cur: Config): set<ID> {
    set id | id in old'.receivers && id in cur.receivers
      && h.receiver(old'.receivers[id]) != h.receiver(cur.receivers[id])
  }

  /** Nodes that both configurations call for, for the same pipelines. */
  predicate Unmoved(old': Config, cur: Config, isConnector: ID -> bool, n: Node) {
    && n in Nodes(old'.pipelines, isConnector) && n in Nodes(cur.pipelines, isConnector)
    && PipelinesOf(old'.pipelines, isConnector, n) == PipelinesOf(cur.pipelines, isConnector, n)
  }

  /** A receiver does not have two different configurations with the same hash. */
  predicate Told(h: Hashing, old': Config, cur: Config, id: ID)
    requires id in old'.receivers && id in cur.receivers
  {
    h.receiver(old'.receivers[id]) == h.receiver(cur.receivers[id]) ==> old'.receivers[id] == cur.receivers[id]
  }

  /** None of these nodes has. */
  ghost predicate NoReceiverCollision(h: Hashing, old': Config, cur: Config, isConnector: ID -> bool)
    requires Configured(old', isConnector) && Configured(cur, isConnector)
  {
    forall n :: Unmoved(old', cur, isConnector, n) ==> Told(h, old', cur, n.id)
  }

  lemma ConfiguredCanBuild(running: map<Node, Receiver>, changed: set<ID>, c: Config, isConnector: ID -> bool)
    requires Configured(c, isConnector)
    ensures CanBuild(running, changed, c.receivers, Desired(c.pipelines, isConnector))
  {
  }

  /** The receivers after a partial reload, whatever ran before. */
  function Reloaded(h: Hashing, running: map<Node, Receiver>, old': Config, cur: Config, isConnector: ID -> bool)
    : map<Node, Receiver>
    requires Configured(cur, isConnector)
  {
    ConfiguredCanBuild(running, Changed(h, old', cur), cur, isConnector);
    Updated(running, Changed(h, old', cur), cur.receivers, Desired(cur.pipelines, isConnector))
  }

  lemma ReloadedNode(h: Hashing, old': Config, cur: Config, isConnector: ID -> bool, n: Node)
    requires Configured(old', isConnector) && Configured(cur, isConnector) && n in Nodes(cur.pipelines, isConnector)
    ensures var now := Reloaded(h, RunningOf(old', isConnector), old', cur, isConnector);
            n in now && (now[n] == RunningOf(cur, isConnector)[n] <==>
                         (Unmoved(old', cur, isConnector, n) ==> Told(h, old', cur, n.id)))
  {
  }

  lemma SameMaps(a: map<Node, Receiver>, b: map<Node, Receiver>)
    requires a.Keys == b.Keys
    ensures a == b <==> forall n :: n in b ==> a[n] == b[n]
  {
  }

  /** A partial reload of a service that runs the receivers of the old configuration leaves it with those of the new one
      if and only if no receiver collides. */
  lemma ReloadExactly(h: Hashing, old': Config, cur: Config, isConnector: ID -> bool)
    requires Configured(old', isConnector) && Configured(cur, isConnector)
    ensures Reloaded(h, RunningOf(old', isConnector), old', cur, isConnector) == RunningOf(cur, isConnector)
            <==> NoReceiverCollision(h, old', cur, isConnector)
  {
    var now, want := Reloaded(h, RunningOf(old', isConnector), old', cur, isConnector), RunningOf(cur, isConnector);
    assert now.Keys == want.Keys == Nodes(cur.pipelines, isConnector);
    SameMaps(now, want);
    forall n | n in want
      ensures now[n] == want[n] <==> (Unmoved(old', cur, isConnector, n) ==> Told(h, old', cur, n.id))
    {
      ReloadedNode(h, old', cur, isConnector, n);
    }
  }

  // ----- chains of partial reloads

  predicate AllConfigured(configs: seq<Config>, isConnector: ID -> bool) {
    var n := |configs| - 1;
    n >= 0 ==> Configured(configs[n], isConnector) && AllConfigured(configs[..n], isConnector)
  }

  lemma PreviousConfigured(configs: seq<Config>, isConnector: ID -> bool)
    requires |configs| > 1 && AllConfigured(configs, isConnector)
    ensures Configured(configs[|configs| - 2], isConnector)
  {
    assert AllConfigured(configs[..|configs| - 1], isConnector);
  }

  /** The receivers of a service that was built from the first of the configurations and reloaded with the others. */
  function RunningAfter(h: Hashing, configs: seq<Config>, isConnector: ID -> bool): map<Node, Receiver>
    requires configs != [] && AllConfigured(configs, isConnector)
    decreases |configs|
  {
    var n := |configs| - 1;
    if n == 0 then RunningOf(configs[0], isConnector)
    else Reloaded(h, RunningAfter(h, configs[..n], isConnector), configs[n - 1], configs[n], isConnector)
  }

  /** After each of the reloads the service runs exactly the receivers of its newest configuration. */
  ghost predicate UpToDate(h: Hashing, configs: seq<Config>, isConnector: ID -> bool)
    requires configs != [] && AllConfigured(configs, isConnector)
    decreases |configs|
  {
    var n := |configs| - 1;
    && RunningAfter(h, configs, isConnector) == RunningOf(configs[n], isConnector)
    && (n > 0 ==> UpToDate(h, configs[..n], isConnector))
  }

  ghost predicate NoneCollide(h: Hashing, configs: seq<Config>, isConnector: ID -> bool)
    requires configs != [] && AllConfigured(configs, isConnector)
    decreases |configs|
  {
    var n := |configs| - 1;
    if n == 0 then true
    else
      PreviousConfigured(configs, isConnector);
      NoReceiverCollision(h, configs[n - 1], configs[n], isConnector) && NoneCollide(h, configs[..n], isConnector)
  }

  lemma LastReload(h: Hashing, configs: seq<Config>, isConnector: ID -> bool)
    requires |configs| > 1 && AllConfigured(configs, isConnector)
    requires RunningAfter(h, configs[..|configs| - 1], isConnector) == RunningOf(configs[|configs| - 2], isConnector)
    ensures var n := |configs| - 1;
            RunningAfter(h, configs, isConnector) == RunningOf(configs[n], isConnector)
            <==> NoReceiverCollision(h, configs[n - 1], configs[n], isConnector)
  {
    ReloadExactly(h, configs[|configs| - 2], configs[|configs| - 1], isConnector);
  }

  /** However often a service is reloaded: it ran exactly the receivers of its newest configuration after each reload if
      and only if no receiver collided in any of them. */
  lemma {:induction false} ReceiversFollowExactly(h: Hashing, configs: seq<Config>, isConnector: ID -> bool)
    requires configs != [] && AllConfigured(configs, isConnector)
    ensures UpToDate(h, configs, isConnector) <==> NoneCollide(h, configs, isConnector)
    decreases |configs|
  {
    var n := |configs| - 1;
    if n > 0 {
      var front := configs[..n];
      assert front[n - 1] == configs[n - 1];
      ReceiversFollowExactly(h, front, isConnector);
      if UpToDate(h, front, isConnector) {
        LastReload(h, configs, isConnector);
      }
    }
  }

  // ----- the receivers of a live service

  /** The connectors a service was built with. */
  function Connected(connectors: set<ID>): ID -> bool {
    id => id in connectors
  }

  /** The receivers that run are those a chain of reloads leaves, if its sections do not collide. */
  ghost predicate Fed(h: Hashing, configs: seq<Config>, connectors: set<ID>, running: map<Node, Receiver>)
    requires configs != []
  {
    NoCollision(h, SectionsOf(configs)) ==>
      AllConfigured(configs, Connected(connectors)) && running == RunningAfter(h, configs, Connected(connectors))
  }

  ghost predicate Live(h: Hashing, configs: seq<Config>, connectors: set<ID>) {
    Chain(h, configs) && AllValid(configs) && connectors == configs[0].sections.connectors.Keys
  }

  predicate AllValid(configs: seq<Config>) {
    var n := |configs| - 1;
    n >= 0 ==> ValidConfig(configs[n]) && AllValid(configs[..n])
  }

  lemma ChainConfigured(h: Hashing, configs: seq<Config>, connectors: set<ID>)
    requires Live(h, configs, connectors) && NoCollision(h, SectionsOf(configs))
    ensures AllConfigured(configs, Connected(connectors))
    decreases |configs|
  {
    var n := |configs| - 1;
    ChainHash(h, configs, n);
    assert configs[n].sections in SectionsOf(configs) && configs[0].sections in SectionsOf(configs);
    ValidIsConfigured(configs[n], Connected(connectors));
    if n > 0 {
      assert SectionsOf(configs[..n]) <= SectionsOf(configs) by {
        assert forall c :: c in configs[..n] ==> c in configs;
      }
      ChainConfigured(h, configs[..n], connectors);
    }
  }

  lemma OneConfigured(h: Hashing, c: Config, isConnector: ID -> bool)
    requires Configured(c, isConnector)
    ensures AllConfigured([c], isConnector) && RunningAfter(h, [c], isConnector) == RunningOf(c, isConnector)
  {
    assert [c][..0] == [];
  }

  lemma FedFromStart(h: Hashing, c: Config)
    requires ValidConfig(c)
    ensures Configured(c, Connected(c.sections.connectors.Keys))
    ensures Fed(h, [c], c.sections.connectors.Keys, RunningOf(c, Connected(c.sections.connectors.Keys)))
  {
    ValidIsConfigured(c, Connected(c.sections.connectors.Keys));
    OneConfigured(h, c, Connected(c.sections.connectors.Keys));
  }

  lemma FedAfterReload(h: Hashing, configs: seq<Config>, c: Config, connectors: set<ID>, running: map<Node, Receiver>)
    requires configs != [] && Live(h, configs + [c], connectors) && Fed(h, configs, connectors, running)
    requires var changed := Changed(h, configs[|configs| - 1], c);
             CanBuild(running, changed, c.receivers, Desired(c.pipelines, Connected(connectors)))
    ensures var changed := Changed(h, configs[|configs| - 1], c);
            Fed(h, configs + [c], connectors,
                Updated(running, changed, c.receivers, Desired(c.pipelines, Connected(connectors))))
  {
    var all := configs + [c];
    if NoCollision(h, SectionsOf(all)) {
      ChainConfigured(h, all, connectors);
      assert SectionsOf(configs) <= SectionsOf(all) by {
        assert forall x :: x in configs ==> x in all;
      }
      assert all[..|configs|] == configs;
      OneMoreReload(h, all, Connected(connectors));
    }
  }

  lemma OneMoreReload(h: Hashing, all: seq<Config>, isConnector: ID -> bool)
    requires |all| > 1 && AllConfigured(all, isConnector)
    ensures var n := |all| - 1;
            && AllConfigured(all[..n], isConnector) && Configured(all[n], isConnector)
            && RunningAfter(h, all, isConnector)
            == Reloaded(h, RunningAfter(h, all[..n], isConnector), all[n - 1], all[n], isConnector)
  {
  }

  ghost function Last(configs: seq<Config>): Config
    requires configs != []
  {
    configs[|configs| - 1]
  }

  /** The new configuration is valid and differs from the one before only in receivers, as far as hashes tell. */
  ghost predicate Attempts(h: Hashing, configs: seq<Config>, c: Config)
    requires configs != []
  {
    ValidConfig(c) && PartialAllowed(h, Last(configs), c)
  }

  /** And the receivers it calls for that do not run yet are configured. */
  ghost predicate Reloadable(h: Hashing, configs: seq<Config>, connectors: set<ID>, running: map<Node, Receiver>,
                             c: Config)
    requires configs != []
  {
    && Attempts(h, configs, c)
    && CanBuild(running, Changed(h, Last(configs), c), c.receivers, Desired(c.pipelines, Connected(connectors)))
  }

  /** What the run loop depends on, as values: which configurations are valid and lead to a partial reload, whether the
      configurations of a service are those of valid partial reloads, whether it runs the receivers that they leave, and
      whether it can be reloaded. */
  datatype Conditions = Conditions(
    valid: Config -> bool,
    attempts: (seq<Config>, Config) -> bool,
    reloads: (seq<Config>, set<ID>) -> bool,
    serves: (seq<Config>, set<ID>, map<Node, Receiver>) -> bool,
    reloadable: (seq<Config>, set<ID>, map<Node, Receiver>, Config) -> bool)

  ghost predicate Stated(configs: seq<Config>, connectors: set<ID>, running: map<Node, Receiver>, c: Config) {
    true
  }

  /** What these mean; it is spelled out only where it is stated. */
  ghost predicate Means(k: Conditions, h: Hashing) {
    forall configs, connectors, running, c {:trigger Stated(configs, connectors, running, c)} ::
      Stated(configs, connectors, running, c) ==>
        && (k.valid(c) <==> ValidConfig(c))
        && (k.attempts(configs, c) <==> configs != [] && Attempts(h, configs, c))
        && (k.reloads(configs, connectors) <==> Live(h, configs, connectors))
        && (k.serves(configs, connectors, running) <==> configs != [] && Fed(h, configs, connectors, running))
        && (k.reloadable(configs, connectors, running, c) <==>
              configs != [] && Reloadable(h, configs, connectors, running, c))
  }

  ghost function ConditionsOf(h: Hashing): Conditions {
    Conditions(
      c => ValidConfig(c),
      (configs, c) => configs != [] && Attempts(h, configs, c),
      (configs, connectors) => Live(h, configs, connectors),
      (configs, connectors, running) => configs != [] && Fed(h, configs, connectors, running),
      (configs, connectors, running, c) => configs != [] && Reloadable(h, configs, connectors, running, c))
  }

  lemma ConditionsMean(h: Hashing)
    ensures Means(ConditionsOf(h), h)
  {
  }

  lemma Spelled(k: Conditions, h: Hashing, configs: seq<Config>, connectors: set<ID>, running: map<Node, Receiver>,
                c: Config)
    requires Means(k, h) && configs != []
    ensures k.valid(c) <==> ValidConfig(c)
    ensures k.attempts(configs, c) <==> Attempts(h, configs, c)
    ensures k.reloads(configs, connectors) <==> Live(h, configs, connectors)
    ensures k.serves(configs, connectors, running) <==> Fed(h, configs, connectors, running)
    ensures k.reloadable(configs, connectors, running, c) <==> Reloadable(h, configs, connectors, running, c)
  {
    assert Stated(configs, connectors, running, c);
  }

  method Validate(ghost h: Hashing, ghost k: Conditions, c: Config) returns (ok: bool)
    requires Means(k, h)
    ensures ok == k.valid(c)
  {
    Spelled(k, h, [c], {}, map[], c);
    ok := ValidConfig(c);
  }

  /** The receivers of a service that starts. */
  method BuildReceivers(ghost h: Hashing, ghost k: Conditions, c: Config)
    returns (connectors: set<ID>, running: map<Node, Receiver>)
    requires k.valid(c) && Means(k, h)
    ensures k.reloads([c], connectors) && k.serves([c], connectors, running)
  {
    Spelled(k, h, [c], {}, map[], c);
    connectors, running := BuildValues(h, c);
    Spelled(k, h, [c], connectors, running, c);
  }

  method BuildValues(ghost h: Hashing, c: Config) returns (connectors: set<ID>, running: map<Node, Receiver>)
    requires ValidConfig(c)
    ensures Live(h, [c], connectors) && Fed(h, [c], connectors, running)
  {
    connectors := c.sections.connectors.Keys;
    FedFromStart(h, c);
    LiveFromStart(h, c);
    running := RunningOf(c, Connected(connectors));
  }

  lemma LiveFromStart(h: Hashing, c: Config)
    requires ValidConfig(c)
    ensures Live(h, [c], c.sections.connectors.Keys)
  {
    assert [c][..0] == [];
  }

  lemma ChangedIs(h: Hashing, old': Config, cur: Config, changed: set<ID>)
    requires var a, b := FingerprintOf(h, old').receiverHashes, FingerprintOf(h, cur).receiverHashes;
             forall id :: id in changed <==> id in a && id in b && a[id] != b[id]
    ensures changed == Changed(h, old', cur)
  {
  }

  /** A partial reload up to the point where receivers are stopped and started: whether it is attempted, whether they
      can all be built, and what runs then. */
  method PartialReload(h: Hashing, fingerprint: Fingerprint, connectors: set<ID>, running: map<Node, Receiver>,
                       ghost k: Conditions, ghost configs: seq<Config>, c: Config)
    returns (attempted: bool, ok: bool, now: map<Node, Receiver>)
    requires Means(k, h) && k.reloads(configs, connectors) && k.serves(configs, connectors, running)
    requires configs != [] && fingerprint == FingerprintOf(h, Last(configs))
    ensures attempted <==> k.attempts(configs, c)
    ensures attempted && ok <==> k.reloadable(configs, connectors, running, c)
    ensures attempted && ok ==> k.reloads(configs + [c], connectors) && k.serves(configs + [c], connectors, now)
  {
    Spelled(k, h, configs, connectors, running, c);
    attempted, ok, now := ReloadValues(h, fingerprint, connectors, running, configs, c);
    Spelled(k, h, configs + [c], connectors, now, c);
  }

  method ReloadValues(h: Hashing, fingerprint: Fingerprint, connectors: set<ID>, running: map<Node, Receiver>,
                      ghost configs: seq<Config>, c: Config)
    returns (attempted: bool, ok: bool, now: map<Node, Receiver>)
    requires Live(h, configs, connectors) && configs != [] && Fed(h, configs, connectors, running)
    requires fingerprint == FingerprintOf(h, Last(configs))
    ensures attempted <==> Attempts(h, configs, c)
    ensures attempted && ok <==> Reloadable(h, configs, connectors, running, c)
    ensures attempted && ok ==> Live(h, configs + [c], connectors) && Fed(h, configs + [c], connectors, now)
  {
    attempted, ok, now := false, false, running;
    if !ValidConfig(c) {
      return;
    }
    var newFingerprint := FingerprintOf(h, c);
    attempted := ReceiversOnlyChanged(fingerprint, newFingerprint, IsConnector(c));
    if attempted {
      var changed := ChangedReceivers(fingerprint, newFingerprint);
      ChangedIs(h, Last(configs), c, changed);
      ok, now := UpdateReceivers(running, changed, c.receivers, c.pipelines, Connected(connectors));
      LiveAfterReload(h, configs, c, connectors);
      if ok {
        FedAfterReload(h, configs, c, connectors, running);
      }
    }
  }

  lemma LiveAfterReload(h: Hashing, configs: seq<Config>, c: Config, connectors: set<ID>)
    requires configs != [] && Live(h, configs, connectors) && Attempts(h, configs, c)
    ensures Live(h, configs + [c], connectors)
  {
    LongerChain(h, configs + [c], configs, c);
    LongerValid(configs + [c], configs, c);
    assert (configs + [c])[0] == configs[0];
  }

  lemma LongerChain(h: Hashing, all: seq<Config>, configs: seq<Config>, c: Config)
    requires all == configs + [c] && Chain(h, configs) && PartialAllowed(h, configs[|configs| - 1], c)
    ensures Chain(h, all)
  {
    assert all[..|configs|] == configs;
    ChainStep(h, all, configs, configs[|configs| - 1], c);
  }

  lemma ChainStep(h: Hashing, all: seq<Config>, front: seq<Config>, before: Config, c: Config)
    requires |all| > 1 && front == all[..|all| - 1] && before == all[|all| - 2] && c == all[|all| - 1]
    requires Chain(h, front) && PartialAllowed(h, before, c)
    ensures Chain(h, all)
  {
  }

  lemma LongerValid(all: seq<Config>, configs: seq<Config>, c: Config)
    requires all == configs + [c] && AllValid(configs) && ValidConfig(c)
    ensures AllValid(all)
  {
    var n := |configs|;
    assert all[..n] == configs;
    var last := all[n];
    assert last == c;
  }

  /** A service has the core it was built from if and only if none of its configurations collide; then it runs what its
      reloads left, and ran the receivers of its newest configuration after every reload if and only if none of those
      collided. */
  ghost predicate Follows(h: Hashing, configs: seq<Config>, connectors: set<ID>, running: map<Node, Receiver>) {
    && configs != [] && (KeptCore(configs) <==> NoCollision(h, SectionsOf(configs)))
    && (KeptCore(configs) ==>
          && AllConfigured(configs, Connected(connectors))
          && running == RunningAfter(h, configs, Connected(connectors))
          && (UpToDate(h, configs, Connected(connectors)) <==> NoneCollide(h, configs, Connected(connectors))))
  }

  /** Whatever was reloaded. */
  lemma ServiceExactly(h: Hashing, k: Conditions, configs: seq<Config>, connectors: set<ID>,
                       running: map<Node, Receiver>)
    requires configs != [] && Means(k, h) && k.reloads(configs, connectors) && k.serves(configs, connectors, running)
    ensures Follows(h, configs, connectors, running)
  {
    Spelled(k, h, configs, connectors, running, configs[0]);
    NoDrift(h, configs);
    if NoCollision(h, SectionsOf(configs)) {
      ChainConfigured(h, configs, connectors);
      ReceiversFollowExactly(h, configs, Connected(connectors));
    }
  }

  /** Every 64-bit hash of receivers allows a partial reload between valid configurations that differ in one receiver,
      which keeps running with its old configuration. */
  lemma EveryHashLeavesStale(h: Hashing) returns (a: Config, b: Config)
    ensures ValidConfig(a) && ValidConfig(b) && PartialAllowed(h, a, b) && a.sections == b.sections
    ensures Configured(a, IsConnector(a)) && Configured(b, IsConnector(a))
    ensures Reloaded(h, RunningOf(a, IsConnector(a)), a, b, IsConnector(a)) != RunningOf(b, IsConnector(a))
  {
    var s, t := SameHash(h.receiver);
    var x := Sections("", map[], map[], map["e" := ""], map[]);
    assert "e" in x.exporters;
    a, b := Small(x, "r", s, "e"), Small(x, "r", t, "e");
    SmallIsValid(x, "r", s, "e");
    SmallIsValid(x, "r", t, "e");
    assert a.pipelines == b.pipelines;
    ValidIsConfigured(a, IsConnector(a));
    ValidIsConfigured(b, IsConnector(a));
    var pid := Pipelines.ID("logs", "");
    var n := Node("logs", "r");
    assert pid in a.pipelines && a.pipelines[pid].receivers == ["r"];
    assert Feeds(a.pipelines, IsConnector(a), n, pid);
    assert Unmoved(a, b, IsConnector(a), n);
    ReloadExactly(h, a, b, IsConnector(a));
  }
}
