/**
 Fingerprints of collector configurations and the test that decides whether a change is
 confined to receivers, so that a running service may be updated instead of rebuilt.
 */
module ConfigDiff {
  import opened Common
  import Pipelines

  type ID = string
  type PipelineID = Pipelines.ID

  datatype Pipeline = Pipeline(receivers: seq<ID>, processors: seq<ID>, exporters: seq<ID>)

  datatype Fingerprint = Fingerprint(
    nonReceiverHash: U64,
    receiverHashes: map<ID, U64>,
    extensions: seq<ID>,
    pipelines: map<PipelineID, Pipeline>)

  // ----- comparing fingerprints

  function Filter(ids: seq<ID>, pred: ID -> bool): seq<ID> {
    if ids == [] then []
    else
      var front, last := ids[..|ids| - 1], ids[|ids| - 1];
      Filter(front, pred) + if pred(last) then [last] else []
  }

  lemma FilterOne(id: ID, pred: ID -> bool)
    ensures Filter([id], pred) == if pred(id) then [id] else []
  {
    assert Filter([id][..0], pred) == [];
  }

  lemma {:induction false} FilterConcat(a: seq<ID>, b: seq<ID>, pred: ID -> bool)
    ensures Filter(a + b, pred) == Filter(a, pred) + Filter(b, pred)
    decreases b
  {
    if b == [] {
      assert a + b == a;
    } else {
      var front := b[..|b| - 1];
      assert (a + b)[..|a + b| - 1] == a + front;
      FilterConcat(a, front, pred);
    }
  }

  /** at lists, in increasing order, the places of ids at which pred holds. */
  ghost predicate Enumerates(at: seq<nat>, ids: seq<ID>, pred: ID -> bool) {
    && (forall i, j :: 0 <= i < j < |at| ==> at[i] < at[j])
    && (forall i :: 0 <= i < |at| ==> at[i] < |ids| && pred(ids[at[i]]))
    && (forall k: nat :: k < |ids| && pred(ids[k]) ==> k in at)
  }

  /** out is what ids holds at these places, one by one. */
  ghost predicate Reads(out: seq<ID>, ids: seq<ID>, at: seq<nat>) {
    |out| == |at| && forall i :: 0 <= i < |at| ==> at[i] < |ids| && out[i] == ids[at[i]]
  }

  lemma EnumeratesFront(at: seq<nat>, ids: seq<ID>, pred: ID -> bool)
    requires ids != [] && Enumerates(at, ids, pred)
    ensures !pred(ids[|ids| - 1]) ==> Enumerates(at, ids[..|ids| - 1], pred)
    ensures pred(ids[|ids| - 1]) ==>
              at != [] && at[|at| - 1] == |ids| - 1 && Enumerates(at[..|at| - 1], ids[..|ids| - 1], pred)
  {
    var n := |ids| - 1;
    if pred(ids[n]) {
      assert n in at;
      var k :| 0 <= k < |at| && at[k] == n;
      assert at[k] <= at[|at| - 1];
      var front := at[..|at| - 1];
      forall k: nat | k < n && pred(ids[..n][k]) ensures k in front {
        assert ids[k] == ids[..n][k];
        var i :| 0 <= i < |at| && at[i] == k;
        assert front[i] == k;
      }
    }
  }

  lemma PlacesInside(at: seq<nat>, ids: seq<ID>, pred: ID -> bool)
    requires Enumerates(at, ids, pred)
    ensures at != [] ==> ids != []
  {
    if at != [] {
      assert at[0] < |ids|;
    }
  }

  /** Filter is made of the elements at the places where the predicate holds, in order, whichever way they are found. */
  lemma {:induction false} FilterReads(ids: seq<ID>, pred: ID -> bool, at: seq<nat>)
    requires Enumerates(at, ids, pred)
    ensures Reads(Filter(ids, pred), ids, at)
    decreases ids
  {
    PlacesInside(at, ids, pred);
    if ids != [] {
      var n := |ids| - 1;
      EnumeratesFront(at, ids, pred);
      FilterReads(ids[..n], pred, if pred(ids[n]) then at[..|at| - 1] else at);
    }
  }

  lemma {:induction false} Places(ids: seq<ID>, pred: ID -> bool) returns (at: seq<nat>)
    ensures Enumerates(at, ids, pred)
    decreases ids
  {
    at := [];
    if ids != [] {
      var n := |ids| - 1;
      at := Places(ids[..n], pred);
      assert forall k: nat :: k < n ==> ids[..n][k] == ids[k];
      if pred(ids[n]) {
        var before := at;
        at := before + [n];
        forall k: nat | k < |ids| && pred(ids[k]) ensures k in at {
          assert at[|before|] == n;
        }
      }
    }
  }

  /** Where pred holds in a and where it holds in b there are as many elements, and the same ones in the same order. */
  ghost predicate SameWhere(a: seq<ID>, b: seq<ID>, pred: ID -> bool) {
    exists at, bt :: Enumerates(at, a, pred) && Enumerates(bt, b, pred) && SameAt(a, at, b, bt)
  }

  ghost predicate SameAt(a: seq<ID>, at: seq<nat>, b: seq<ID>, bt: seq<nat>) {
    |at| == |bt| && forall i :: 0 <= i < |at| ==> at[i] < |a| && bt[i] < |b| && a[at[i]] == b[bt[i]]
  }

  lemma FilterSameExactly(a: seq<ID>, b: seq<ID>, pred: ID -> bool)
    ensures Filter(a, pred) == Filter(b, pred) <==> SameWhere(a, b, pred)
  {
    if SameWhere(a, b, pred) {
      var at, bt :| Enumerates(at, a, pred) && Enumerates(bt, b, pred) && SameAt(a, at, b, bt);
      FilterReads(a, pred, at);
      FilterReads(b, pred, bt);
    }
    if Filter(a, pred) == Filter(b, pred) {
      var at := Places(a, pred);
      var bt := Places(b, pred);
      FilterReads(a, pred, at);
      FilterReads(b, pred, bt);
      assert SameAt(a, at, b, bt);
    }
  }

  method FilterIDs(ids: seq<ID>, pred: ID -> bool) returns (out: seq<ID>)
    ensures out == Filter(ids, pred)
    ensures forall at {:trigger Enumerates(at, ids, pred)} :: Enumerates(at, ids, pred) ==> Reads(out, ids, at)
  {
    out := [];
    for i := 0 to |ids|
      invariant out == Filter(ids[..i], pred)
    {
      assert ids[..i + 1][..i] == ids[..i];
      if pred(ids[i]) {
        out := out + [ids[i]];
      }
    }
    assert ids[..|ids|] == ids;
    forall at | Enumerates(at, ids, pred) ensures Reads(out, ids, at) {
      FilterReads(ids, pred, at);
    }
  }

  /** A pipeline without its pure receivers. */
  function ErasePipeline(p: Pipeline, isConnector: ID -> bool): Pipeline {
    p.(receivers := Filter(p.receivers, isConnector))
  }

  /** What must not change: the fingerprint without receiver hashes and pure receivers. */
  datatype Fixed = Fixed(nonReceiverHash: U64, extensions: seq<ID>, pipelines: map<PipelineID, Pipeline>)

  function ErasePipelines(ps: map<PipelineID, Pipeline>, isConnector: ID -> bool): map<PipelineID, Pipeline> {
    map pid | pid in ps :: ErasePipeline(ps[pid], isConnector)
  }

  function Erase(f: Fingerprint, isConnector: ID -> bool): Fixed {
    Fixed(f.nonReceiverHash, f.extensions, ErasePipelines(f.pipelines, isConnector))
  }

  lemma SameSizeSubset(a: set<PipelineID>, b: set<PipelineID>)
    requires a <= b && |a| == |b|
    ensures a == b
  {
    assert b == a + (b - a);
  }

  lemma ErasedPipelinesEqual(old': map<PipelineID, Pipeline>, cur: map<PipelineID, Pipeline>, isConnector: ID -> bool)
    requires |old'| == |cur|
    requires forall pid :: pid in old' ==>
               pid in cur && ErasePipeline(old'[pid], isConnector) == ErasePipeline(cur[pid], isConnector)
    ensures ErasePipelines(old', isConnector) == ErasePipelines(cur, isConnector)
  {
    assert old'.Keys <= cur.Keys;
    SameSizeSubset(old'.Keys, cur.Keys);
  }

  lemma ErasedPipelinesDiffer(old': map<PipelineID, Pipeline>, cur: map<PipelineID, Pipeline>, isConnector: ID -> bool)
    requires ErasePipelines(old', isConnector) == ErasePipelines(cur, isConnector)
    ensures old'.Keys == cur.Keys && |old'| == |cur|
    ensures forall pid :: pid in old' ==> ErasePipeline(old'[pid], isConnector) == ErasePipeline(cur[pid], isConnector)
  {
    var a, b := ErasePipelines(old', isConnector), ErasePipelines(cur, isConnector);
    assert old'.Keys == a.Keys && cur.Keys == b.Keys;
    forall pid | pid in old' ensures ErasePipeline(old'[pid], isConnector) == ErasePipeline(cur[pid], isConnector) {
      assert a[pid] == b[pid];
    }
  }

  /** The loop over the pipelines, in any order. */
  method SamePipelines(old': map<PipelineID, Pipeline>, cur: map<PipelineID, Pipeline>, isConnector: ID -> bool)
    returns (same: bool)
    requires |old'| == |cur|
    ensures same <==> ErasePipelines(old', isConnector) == ErasePipelines(cur, isConnector)
  {
    if ErasePipelines(old', isConnector) == ErasePipelines(cur, isConnector) {
      ErasedPipelinesDiffer(old', cur, isConnector);
    }
    var rest := old'.Keys;
    while rest != {}
      invariant rest <= old'.Keys
      invariant forall pid :: pid in old'.Keys - rest ==>
                  pid in cur && ErasePipeline(old'[pid], isConnector) == ErasePipeline(cur[pid], isConnector)
      decreases |rest|
    {
      var pid :| pid in rest;
      if pid !in cur {
        return false;
      }
      var oldPipe, curPipe := old'[pid], cur[pid];
      if oldPipe.processors != curPipe.processors {
        return false;
      }
      if oldPipe.exporters != curPipe.exporters {
        return false;
      }
      var oldConnReceivers := FilterIDs(oldPipe.receivers, isConnector);
      var curConnReceivers := FilterIDs(curPipe.receivers, isConnector);
      if oldConnReceivers != curConnReceivers {
        return false;
      }
      rest := rest - {pid};
    }
    ErasedPipelinesEqual(old', cur, isConnector);
    return true;
  }

  /** Two pipelines with the same processors and exporters, and the same connectors in the same order among their
      receivers. */
  ghost predicate SameButReceivers(p: Pipeline, q: Pipeline, isConnector: ID -> bool) {
    p.processors == q.processors && p.exporters == q.exporters && SameWhere(p.receivers, q.receivers, isConnector)
  }

  ghost predicate OnlyReceiversDiffer(a: Fingerprint, b: Fingerprint, isConnector: ID -> bool) {
    && a.nonReceiverHash == b.nonReceiverHash && a.extensions == b.extensions && a.pipelines.Keys == b.pipelines.Keys
    && forall pid :: pid in a.pipelines ==> SameButReceivers(a.pipelines[pid], b.pipelines[pid], isConnector)
  }

  /** What is erased is exactly what may differ. */
  lemma ErasedExactly(a: Fingerprint, b: Fingerprint, isConnector: ID -> bool)
    ensures Erase(a, isConnector) == Erase(b, isConnector) <==> OnlyReceiversDiffer(a, b, isConnector)
  {
    forall p: Pipeline, q: Pipeline
      ensures ErasePipeline(p, isConnector) == ErasePipeline(q, isConnector) <==> SameButReceivers(p, q, isConnector)
    {
      FilterSameExactly(p.receivers, q.receivers, isConnector);
    }
    if Erase(a, isConnector) == Erase(b, isConnector) {
      ErasedPipelinesDiffer(a.pipelines, b.pipelines, isConnector);
    }
    if OnlyReceiversDiffer(a, b, isConnector) {
      assert |a.pipelines| == |a.pipelines.Keys| && |b.pipelines| == |b.pipelines.Keys|;
      ErasedPipelinesEqual(a.pipelines, b.pipelines, isConnector);
    }
  }

  /** A change is confined to receivers exactly when nothing else differs. */
  method ReceiversOnlyChanged(old': Fingerprint, cur: Fingerprint, isConnector: ID -> bool) returns (only: bool)
    ensures only <==> Erase(old', isConnector) == Erase(cur, isConnector)
    ensures only <==> OnlyReceiversDiffer(old', cur, isConnector)
  {
    ErasedExactly(old', cur, isConnector);
    if old'.nonReceiverHash != cur.nonReceiverHash {
      return false;
    }
    if old'.extensions != cur.extensions {
      return false;
    }
    if |old'.pipelines| != |cur.pipelines| {
      if ErasePipelines(old'.pipelines, isConnector) == ErasePipelines(cur.pipelines, isConnector) {
        ErasedPipelinesDiffer(old'.pipelines, cur.pipelines, isConnector);
      }
      return false;
    }
    only := SamePipelines(old'.pipelines, cur.pipelines, isConnector);
  }

  /** The receivers present in both whose own configuration changed, found by a loop in any order. */
  method ChangedReceivers(old': Fingerprint, cur: Fingerprint) returns (changed: set<ID>)
    ensures forall id :: id in changed <==>
              id in old'.receiverHashes && id in cur.receiverHashes && old'.receiverHashes[id] != cur.receiverHashes[id]
  {
    changed := {};
    var rest := cur.receiverHashes.Keys;
    while rest != {}
      invariant rest <= cur.receiverHashes.Keys
      invariant forall id :: id in changed <==>
                  id in cur.receiverHashes.Keys - rest && id in old'.receiverHashes
                  && old'.receiverHashes[id] != cur.receiverHashes[id]
      decreases |rest|
    {
      var id :| id in rest;
      if id in old'.receiverHashes && old'.receiverHashes[id] != cur.receiverHashes[id] {
        changed := changed + {id};
      }
      rest := rest - {id};
    }
  }

  // ----- fingerprints of configurations

  /** A component's raw configuration. */
  type Raw = string

  /** Everything but receivers, as far as it is configuration of components. */
  datatype Sections = Sections(
    telemetry: Raw,
    extensions: map<ID, Raw>,
    processors: map<ID, Raw>,
    exporters: map<ID, Raw>,
    connectors: map<ID, Raw>)

  datatype Config = Config(
    sections: Sections,
    receivers: map<ID, Raw>,
    extensions: seq<ID>,
    pipelines: map<PipelineID, Pipeline>)

  /** What the validation of configurations accepts, with no feature gates set: it names its components. */
  predicate ValidConfig(c: Config) {
    && c.receivers != map[] && c.sections.exporters != map[]
    && c.sections.connectors.Keys !! c.sections.exporters.Keys && c.sections.connectors.Keys !! c.receivers.Keys
    && (forall id :: id in c.extensions ==> id in c.sections.extensions)
    && c.pipelines != map[]
    && forall pid :: pid in c.pipelines ==> pid.signal != "profiles" && ValidPipeline(c, c.pipelines[pid])
  }

  predicate ValidPipeline(c: Config, p: Pipeline) {
    && p.receivers != [] && p.exporters != []
    && (forall id :: id in p.receivers ==> id in c.receivers || id in c.sections.connectors)
    && (forall id :: id in p.processors ==> id in c.sections.processors)
    && (forall i, j :: 0 <= i < j < |p.processors| ==> p.processors[i] != p.processors[j])
    && (forall id :: id in p.exporters ==> id in Sinks(c.sections))
  }

  /** The components a pipeline can export to. */
  function Sinks(x: Sections): set<ID> {
    x.exporters.Keys + x.connectors.Keys
  }

  /** The hash functions, of the sections together and of one receiver. */
  datatype Hashing = Hashing(sections: Sections -> U64, receiver: Raw -> U64)

  function FingerprintOf(h: Hashing, c: Config): Fingerprint {
    Fingerprint(
      h.sections(c.sections),
      map id | id in c.receivers :: h.receiver(c.receivers[id]),
      c.extensions,
      c.pipelines)
  }

  function IsConnector(c: Config): ID -> bool {
    id => id in c.sections.connectors
  }

  /** The decision made when a new configuration arrives. */
  ghost predicate PartialAllowed(h: Hashing, old': Config, cur: Config) {
    Erase(FingerprintOf(h, old'), IsConnector(cur)) == Erase(FingerprintOf(h, cur), IsConnector(cur))
  }

  /** What a service is built from, apart from its receivers. */
  datatype Core = Core(sections: Sections, extensions: seq<ID>, pipelines: map<PipelineID, Pipeline>)

  function CoreOf(c: Config): Core {
    Core(c.sections, c.extensions, ErasePipelines(c.pipelines, IsConnector(c)))
  }

  /** No two of the given sections have the same hash. */
  ghost predicate NoCollision(h: Hashing, all: set<Sections>) {
    forall x, y :: x in all && y in all && h.sections(x) == h.sections(y) ==> x == y
  }

  lemma {:induction false} FilterSame(ids: seq<ID>, p: ID -> bool, q: ID -> bool)
    requires forall id :: p(id) == q(id)
    ensures Filter(ids, p) == Filter(ids, q)
  {
    if ids != [] {
      FilterSame(ids[..|ids| - 1], p, q);
    }
  }

  lemma EraseSame(ps: map<PipelineID, Pipeline>, p: ID -> bool, q: ID -> bool)
    requires forall id :: p(id) == q(id)
    ensures ErasePipelines(ps, p) == ErasePipelines(ps, q)
  {
    forall pid | pid in ps ensures ErasePipeline(ps[pid], p) == ErasePipeline(ps[pid], q) {
      FilterSame(ps[pid].receivers, p, q);
    }
  }

  /** The core is the same exactly when a partial reload is allowed and the sections do not just have equal hashes. */
  lemma PartialKeepsCore(h: Hashing, old': Config, cur: Config)
    ensures CoreOf(old') == CoreOf(cur) <==> PartialAllowed(h, old', cur) && old'.sections == cur.sections
  {
    if old'.sections == cur.sections {
      EraseSame(old'.pipelines, IsConnector(old'), IsConnector(cur));
    }
  }

  /** Configurations each of which was reached from the one before it by an allowed partial reload. */
  ghost predicate Chain(h: Hashing, configs: seq<Config>) {
    var n := |configs| - 1;
    n >= 0 && (n > 0 ==> PartialAllowed(h, configs[n - 1], configs[n]) && Chain(h, configs[..n]))
  }

  /** All of them have the core of the first. */
  ghost predicate KeptCore(configs: seq<Config>) {
    forall i :: 0 <= i < |configs| ==> CoreOf(configs[i]) == CoreOf(configs[0])
  }

  function SectionsOf(configs: seq<Config>): set<Sections> {
    set c | c in configs :: c.sections
  }

  lemma {:induction false} ChainHash(h: Hashing, configs: seq<Config>, i: nat)
    requires Chain(h, configs) && i < |configs|
    ensures h.sections(configs[i].sections) == h.sections(configs[0].sections)
    decreases |configs|
  {
    var n := |configs| - 1;
    if n > 0 {
      var front, k := configs[..n], if i < n then i else n - 1;
      assert front[0] == configs[0] && front[k] == configs[k];
      ChainHash(h, front, k);
    }
  }

  lemma {:induction false} ChainCore(h: Hashing, configs: seq<Config>, i: nat)
    requires Chain(h, configs) && i < |configs| && NoCollision(h, SectionsOf(configs))
    ensures CoreOf(configs[i]) == CoreOf(configs[0])
    decreases |configs|
  {
    var n := |configs| - 1;
    if n > 0 {
      assert SectionsOf(configs[..n]) <= SectionsOf(configs) by {
        assert forall c :: c in configs[..n] ==> c in configs;
      }
      ChainCore(h, configs[..n], if i < n then i else n - 1);
      assert configs[n - 1].sections in SectionsOf(configs) && configs[n].sections in SectionsOf(configs);
      PartialKeepsCore(h, configs[n - 1], configs[n]);
    }
  }

  /** A chain of partial reloads of any length keeps the core it began with if and only if no two of the
      configurations in it collide. */
  lemma {:induction false} NoDrift(h: Hashing, configs: seq<Config>)
    requires Chain(h, configs)
    ensures KeptCore(configs) <==> NoCollision(h, SectionsOf(configs))
  {
    if NoCollision(h, SectionsOf(configs)) {
      forall i | 0 <= i < |configs| ensures CoreOf(configs[i]) == CoreOf(configs[0]) {
        ChainCore(h, configs, i);
      }
    }
    if KeptCore(configs) {
      forall x | x in SectionsOf(configs) ensures x == configs[0].sections {
        var c :| c in configs && c.sections == x;
        var i :| 0 <= i < |configs| && configs[i] == c;
        assert CoreOf(configs[i]) == CoreOf(configs[0]);
      }
    }
  }

  /** Sections that a valid configuration can have. */
  predicate Usable(x: Sections) {
    x.exporters != map[] && x.exporters.Keys !! x.connectors.Keys
  }

  /** Different sections with the same hash, both usable, in which one pipeline can be configured. */
  predicate Confusable(h: Hashing, x: Sections, y: Sections) {
    x != y && h.sections(x) == h.sections(y) && Usable(x) && Usable(y) && Sinks(x) * Sinks(y) != {}
  }

  /** No partial reload between valid configurations with the given sections changes the core. */
  ghost predicate CoreSafe(h: Hashing, all: set<Sections>) {
    forall a: Config, b: Config :: a.sections in all && b.sections in all && PartialAllowed(h, a, b) ==>
      ValidConfig(a) && ValidConfig(b) ==> CoreOf(a) == CoreOf(b)
  }

  /** Given the sections that may occur, the core is safe from every partial reload between valid configurations with
      them if and only if no two of them can be confused. */
  lemma CoreSafeExactly(h: Hashing, all: set<Sections>)
    ensures CoreSafe(h, all) <==> forall x, y :: x in all && y in all ==> !Confusable(h, x, y)
  {
    forall a: Config, b: Config | ValidConfig(a) && ValidConfig(b) && PartialAllowed(h, a, b) && CoreOf(a) != CoreOf(b)
      ensures Confusable(h, a.sections, b.sections)
    {
      DriftConfuses(h, a, b);
    }
    if x, y :| x in all && y in all && Confusable(h, x, y) {
      var a, b := CollisionDrifts(h, x, y);
    }
  }

  lemma DriftConfuses(h: Hashing, a: Config, b: Config)
    requires ValidConfig(a) && ValidConfig(b) && PartialAllowed(h, a, b) && CoreOf(a) != CoreOf(b)
    ensures Confusable(h, a.sections, b.sections)
  {
    PartialKeepsCore(h, a, b);
    ErasedPipelinesDiffer(a.pipelines, b.pipelines, IsConnector(b));
    var pid :| pid in a.pipelines;
    assert ErasePipeline(a.pipelines[pid], IsConnector(b)) == ErasePipeline(b.pipelines[pid], IsConnector(b));
    var id := a.pipelines[pid].exporters[0];
    assert id in a.pipelines[pid].exporters && id in b.pipelines[pid].exporters;
    assert id in Sinks(a.sections) * Sinks(b.sections);
  }

  /** A valid configuration with one receiver and one pipeline. */
  function Small(x: Sections, receiver: ID, raw: Raw, sink: ID): Config {
    Config(x, map[receiver := raw], [], map[Pipelines.ID("logs", "") := Pipeline([receiver], [], [sink])])
  }

  lemma SmallIsValid(x: Sections, receiver: ID, raw: Raw, sink: ID)
    requires Usable(x) && receiver !in x.connectors && sink in Sinks(x)
    ensures ValidConfig(Small(x, receiver, raw, sink))
  {
    var c := Small(x, receiver, raw, sink);
    assert receiver in c.receivers;
    assert Pipelines.ID("logs", "") in c.pipelines;
  }

  /** Two sections that can be confused: valid configurations with them, of which a partial reload from one to the other
      is allowed and changes the core. */
  lemma CollisionDrifts(h: Hashing, x: Sections, y: Sections) returns (a: Config, b: Config)
    requires Confusable(h, x, y)
    ensures a.sections == x && b.sections == y && ValidConfig(a) && ValidConfig(b)
    ensures PartialAllowed(h, a, b) && CoreOf(a) != CoreOf(b)
  {
    var sink :| sink in Sinks(x) * Sinks(y);
    var receiver := NewID(x.connectors.Keys + y.connectors.Keys);
    a, b := Small(x, receiver, "", sink), Small(y, receiver, "", sink);
    SmallIsValid(x, receiver, "", sink);
    SmallIsValid(y, receiver, "", sink);
    assert a.pipelines == b.pipelines;
  }

  lemma NewID(ids: set<ID>) returns (id: ID)
    ensures id !in ids
  {
    var n := Longer(ids);
    id := seq(n, _ => 'r');
  }

  lemma Longer(ids: set<ID>) returns (n: nat)
    ensures forall id :: id in ids ==> |id| < n
  {
    n := 0;
    var rest := ids;
    while rest != {}
      invariant rest <= ids && forall id :: id in ids - rest ==> |id| < n
      decreases |rest|
    {
      var id :| id in rest;
      rest := rest - {id};
      n := if n <= |id| then |id| + 1 else n;
    }
  }

  // ----- every hash has collisions

  /** Among n + 1 numbers below n two are equal. */
  lemma {:induction false} Pigeonhole(g: nat -> int, n: nat) returns (i: nat, j: nat)
    requires forall k :: 0 <= k <= n ==> 0 <= g(k) < n
    ensures i < j <= n && g(i) == g(j)
    decreases n
  {
    assert 0 <= g(0) < n;
    if exists k :: 0 <= k < n && g(k) == g(n) {
      i :| 0 <= i < n && g(i) == g(n);
      j := n;
    } else {
      var rest := (k: nat) => if g(k) == n - 1 then g(n) else g(k);
      i, j := Pigeonhole(rest, n - 1);
    }
  }

  /** n in binary, lowest digit first. */
  function Binary(n: nat, width: nat): (s: string)
    ensures |s| == width
  {
    if width == 0 then "" else [if n % 2 == 1 then '1' else '0'] + Binary(n / 2, width - 1)
  }

  lemma {:induction false} BinaryInjective(m: nat, n: nat, width: nat)
    requires m < Pow2(width) && n < Pow2(width) && Binary(m, width) == Binary(n, width)
    ensures m == n
    decreases width
  {
    if width > 0 {
      assert Binary(m, width)[0] == Binary(n, width)[0];
      assert Binary(m, width)[1..] == Binary(m / 2, width - 1) && Binary(n, width)[1..] == Binary(n / 2, width - 1);
      BinaryInjective(m / 2, n / 2, width - 1);
    }
  }

  lemma {:induction false} Pow2Sum(a: nat, b: nat)
    ensures Pow2(a + b) == Pow2(a) * Pow2(b)
    decreases b
  {
    if b > 0 {
      Pow2Sum(a, b - 1);
      assert Pow2(a + b) == 2 * Pow2(a + b - 1);
      assert 2 * (Pow2(a) * Pow2(b - 1)) == Pow2(a) * (2 * Pow2(b - 1));
    }
  }

  lemma Pow2Doubled(n: nat, p: nat)
    requires Pow2(n) == p
    ensures Pow2(2 * n) == p * p
  {
    Pow2Sum(n, n);
  }

  lemma Pow2Of64()
    ensures Pow2(64) == TWO_64
  {
    assert Pow2(1) == 2 * Pow2(0);
    Pow2Doubled(1, 2);
    Pow2Doubled(2, 4);
    Pow2Doubled(4, 16);
    Pow2Doubled(8, 256);
    Pow2Doubled(16, 65536);
    Pow2Doubled(32, TWO_32);
  }

  /** Two different strings of 65 characters with the same value. */
  lemma SameHash(f: string -> U64) returns (s: string, t: string)
    ensures |s| == |t| == 65 && s != t && f(s) == f(t)
  {
    var g := (n: nat) => f(Binary(n, 65)) as int;
    forall k: nat | k <= TWO_64 ensures 0 <= g(k) < TWO_64 {
      var value: U64 := f(Binary(k, 65));
    }
    var i, j := Pigeonhole(g, TWO_64);
    s, t := Binary(i, 65), Binary(j, 65);
    Pow2Of64();
    assert Pow2(65) == 2 * Pow2(64);
    if s == t {
      BinaryInjective(i, j, 65);
    }
  }

  /** Every 64-bit hash of the sections allows a partial reload between valid configurations, with no more than 65
      characters of telemetry settings and one of each component, that changes the core. */
  lemma EveryHashDrifts(h: Hashing) returns (a: Config, b: Config)
    ensures ValidConfig(a) && ValidConfig(b) && PartialAllowed(h, a, b) && CoreOf(a) != CoreOf(b)
    ensures |a.sections.telemetry| == |b.sections.telemetry| == 65
    ensures |a.receivers| == |b.receivers| == |a.pipelines| == |b.pipelines| == 1
  {
    var s, t := SameHash(t => h.sections(Sections(t, map[], map[], map["e" := ""], map[])));
    var x, y := Sections(s, map[], map[], map["e" := ""], map[]), Sections(t, map[], map[], map["e" := ""], map[]);
    assert "e" in Sinks(x) * Sinks(y);
    a, b := Small(x, "r", "", "e"), Small(y, "r", "", "e");
    assert "e" in x.exporters && "e" in y.exporters;
    SmallIsValid(x, "r", "", "e");
    SmallIsValid(y, "r", "", "e");
    assert a.pipelines == b.pipelines;
  }
}
