/**
 Feature gates: a registry of gates with lifecycle stages, and the command-line flag that prints and
 sets them. Versions are ranks in their order. The warnings printed for stable and deprecated gates
 are left out.
 */
module FeatureGates {
  import opened Common
  import opened Text

  datatype Stage = Alpha | Beta | Stable | Deprecated | Other(value: int)

  datatype State = State(stage: Stage, enabled: bool)

  /** What a registry holds. */
  type View = map<string, State>

  datatype Error =
    | InvalidID(id: string)
    | OptionFailed(id: string)
    | UnknownStage(id: string)
    | NoRemovalVersion(id: string)
    | VersionsReversed(id: string)
    | AlreadyRegistered(id: string)
    | NoSuchGate(id: string)
    | StableDisabled(id: string)
    | DeprecatedEnabled(id: string)
    | EmptyIdentifier(index: nat)

  datatype Outcome = Outcome(view: View, errors: seq<Error>)

  /** A registration option; versions and URLs that do not parse make it fail. */
  datatype RegisterOption =
    | Description
    | ReferenceURL(parses: bool)
    | FromVersion(from: Option<int>)
    | ToVersion(to: Option<int>)

  datatype Versions = Versions(from: Option<int>, to: Option<int>)

  // ----- registering

  predicate IdChar(c: char) {
    '0' <= c <= '9' || 'a' <= c <= 'z' || 'A' <= c <= 'Z' || c == '.'
  }

  predicate ValidID(id: string) {
    id != "" && forall i :: 0 <= i < |id| ==> IdChar(id[i])
  }

  function Configure(opts: seq<RegisterOption>, versions: Versions): Option<Versions> {
    if opts == [] then Some(versions)
    else match opts[0]
      case Description => Configure(opts[1..], versions)
      case ReferenceURL(parses) => if parses then Configure(opts[1..], versions) else None
      case FromVersion(from) => if from.None? then None else Configure(opts[1..], versions.(from := from))
      case ToVersion(to) => if to.None? then None else Configure(opts[1..], versions.(to := to))
  }

  function Refusal(id: string, stage: Stage, versions: Option<Versions>): Option<Error> {
    if !ValidID(id) then Some(InvalidID(id))
    else if versions.None? then Some(OptionFailed(id))
    else if stage.Other? then Some(UnknownStage(id))
    else
      var Versions(from, to) := versions.value;
      if (stage.Stable? || stage.Deprecated?) && to.None? then Some(NoRemovalVersion(id))
      else if from.Some? && to.Some? && to.value < from.value then Some(VersionsReversed(id))
      else None
  }

  function Registered(v: View, id: string, stage: Stage, opts: seq<RegisterOption>): Outcome {
    var refusal := Refusal(id, stage, Configure(opts, Versions(None, None)));
    if refusal.Some? then Outcome(v, [refusal.value])
    else if id in v then Outcome(v, [AlreadyRegistered(id)])
    else Outcome(v[id := State(stage, stage.Beta? || stage.Stable?)], [])
  }

  predicate Parses(o: RegisterOption) {
    match o
    case Description => true
    case ReferenceURL(parses) => parses
    case FromVersion(from) => from.Some?
    case ToVersion(to) => to.Some?
  }

  /** x is the version of the last option that gives one, or the one before if no option does. */
  ghost predicate LastFrom(opts: seq<RegisterOption>, before: Option<int>, x: Option<int>) {
    if exists i :: 0 <= i < |opts| && opts[i].FromVersion?
    then exists i :: 0 <= i < |opts| && opts[i] == FromVersion(x)
                     && forall j :: i < j < |opts| ==> !opts[j].FromVersion?
    else x == before
  }

  ghost predicate LastTo(opts: seq<RegisterOption>, before: Option<int>, x: Option<int>) {
    if exists i :: 0 <= i < |opts| && opts[i].ToVersion?
    then exists i :: 0 <= i < |opts| && opts[i] == ToVersion(x)
                     && forall j :: i < j < |opts| ==> !opts[j].ToVersion?
    else x == before
  }

  lemma LastFromStep(opts: seq<RegisterOption>, before: Option<int>, x: Option<int>)
    requires opts != [] && LastFrom(opts[1..], if opts[0].FromVersion? then opts[0].from else before, x)
    ensures LastFrom(opts, before, x)
  {
    var rest := opts[1..];
    if i :| 0 <= i < |rest| && rest[i] == FromVersion(x) && forall j :: i < j < |rest| ==> !rest[j].FromVersion? {
      assert opts[i + 1] == rest[i];
      forall j | i + 1 < j < |opts| ensures !opts[j].FromVersion? {
        assert opts[j] == rest[j - 1];
      }
    } else {
      assert forall j :: 0 < j < |opts| ==> opts[j] == rest[j - 1];
    }
  }

  lemma LastToStep(opts: seq<RegisterOption>, before: Option<int>, x: Option<int>)
    requires opts != [] && LastTo(opts[1..], if opts[0].ToVersion? then opts[0].to else before, x)
    ensures LastTo(opts, before, x)
  {
    var rest := opts[1..];
    if i :| 0 <= i < |rest| && rest[i] == ToVersion(x) && forall j :: i < j < |rest| ==> !rest[j].ToVersion? {
      assert opts[i + 1] == rest[i];
      forall j | i + 1 < j < |opts| ensures !opts[j].ToVersion? {
        assert opts[j] == rest[j - 1];
      }
    } else {
      assert forall j :: 0 < j < |opts| ==> opts[j] == rest[j - 1];
    }
  }

  /** The options are accepted exactly when all of them parse, and the last versions given count. */
  lemma {:induction false} ConfigureExactly(opts: seq<RegisterOption>, versions: Versions)
    ensures Configure(opts, versions).Some? <==> forall i :: 0 <= i < |opts| ==> Parses(opts[i])
    ensures Configure(opts, versions).Some? ==>
      var r := Configure(opts, versions).value;
      LastFrom(opts, versions.from, r.from) && LastTo(opts, versions.to, r.to)
    decreases opts
  {
    if opts != [] {
      var now := match opts[0]
        case FromVersion(from) => versions.(from := from)
        case ToVersion(to) => versions.(to := to)
        case _ => versions;
      ConfigureExactly(opts[1..], now);
      assert forall j :: 0 < j < |opts| ==> opts[j] == opts[1..][j - 1];
      assert (forall i :: 0 <= i < |opts| ==> Parses(opts[i])) ==>
          forall i :: 0 <= i < |opts[1..]| ==> Parses(opts[1..][i]) by {
        assert forall i :: 0 <= i < |opts[1..]| ==> opts[1..][i] == opts[i + 1];
      }
      if Configure(opts, versions).Some? {
        var r := Configure(opts, versions).value;
        LastFromStep(opts, versions.from, r.from);
        LastToStep(opts, versions.to, r.to);
      }
    }
  }

  /** A gate that is registered is enabled if and only if its stage is beta or stable, and no other gate changes. */
  lemma RegisteredExactly(v: View, id: string, stage: Stage, opts: seq<RegisterOption>, versions: Option<Versions>)
    requires versions == Configure(opts, Versions(None, None))
    ensures var r := Registered(v, id, stage, opts);
            && |r.errors| <= 1
            && (r.errors == [] <==>
                  && ValidID(id) && id !in v && stage in {Alpha, Beta, Stable, Deprecated} && versions.Some?
                  && (stage in {Stable, Deprecated} ==> versions.value.to.Some?)
                  && (versions.value.from.Some? && versions.value.to.Some? ==>
                        versions.value.from.value <= versions.value.to.value))
            && (r.errors != [] ==> r.view == v)
            && (r.errors == [] ==>
                  && r.view.Keys == v.Keys + {id} && (forall other :: other in v ==> r.view[other] == v[other])
                  && r.view[id].stage == stage && (r.view[id].enabled <==> stage in {Beta, Stable}))
  {
  }

  // ----- setting

  function SetGate(v: View, id: string, enabled: bool): Outcome {
    if id !in v then Outcome(v, [NoSuchGate(id)])
    else match v[id].stage
      case Stable => Outcome(v, if enabled then [] else [StableDisabled(id)])
      case Deprecated => Outcome(v, if enabled then [DeprecatedEnabled(id)] else [])
      case _ => Outcome(v[id := v[id].(enabled := enabled)], [])
  }

  /** The gate and the value that one part of the flag asks for. */
  function Request(part: string): (string, bool)
    requires part != ""
  {
    if part[0] == '-' then (part[1..], false) else if part[0] == '+' then (part[1..], true) else (part, true)
  }

  /** Setting is refused for unknown gates, for disabling stable and for enabling deprecated ones; otherwise the gate
      has the value asked for, and no other gate changes. */
  lemma SetExactly(v: View, id: string, enabled: bool)
    ensures var r := SetGate(v, id, enabled);
            && |r.errors| <= 1
            && (r.errors == [] <==>
                  id in v && (v[id].stage.Stable? ==> enabled) && (v[id].stage.Deprecated? ==> !enabled))
            && (r.errors != [] ==> r.view == v)
            && r.view.Keys == v.Keys && (forall other :: other in v && other != id ==> r.view[other] == v[other])
            && (r.errors == [] && Lawful(v) ==> r.view[id] == v[id].(enabled := enabled))
  {
  }

  /** A plus sign asks for the same as no sign, a minus sign for the opposite. */
  lemma Signs(v: View, id: string, index: nat)
    ensures ApplyFlag(v, "+" + id, index) == SetGate(v, id, true)
    ensures ApplyFlag(v, "-" + id, index) == SetGate(v, id, false)
    ensures id != "" && id[0] != '+' && id[0] != '-' ==> ApplyFlag(v, id, index) == SetGate(v, id, true)
  {
    assert ("+" + id)[1..] == id && ("-" + id)[1..] == id;
  }

  function ApplyFlag(v: View, part: string, index: nat): Outcome {
    if part == "" then Outcome(v, [EmptyIdentifier(index)])
    else var (id, enabled) := Request(part); SetGate(v, id, enabled)
  }

  function ApplyFlags(v: View, parts: seq<string>): Outcome {
    if parts == [] then Outcome(v, [])
    else
      var n := |parts| - 1;
      var before := ApplyFlags(v, parts[..n]);
      var now := ApplyFlag(before.view, parts[n], n);
      Outcome(now.view, before.errors + now.errors)
  }

  function FlagSet(v: View, s: string): Outcome {
    if s == "" then Outcome(v, []) else ApplyFlags(v, Split(s, ','))
  }

  // ----- printing

  /** A set of IDs in lexicographical order. */
  ghost function SortedKeys(keys: set<string>): (ids: seq<string>)
    ensures Increasing(ids) && Elements(ids) == keys
    decreases |keys|
  {
    if keys == {} then []
    else
      var id :| id in keys;
      var rest := SortedKeys(keys - {id});
      InsertIncreasing(id, rest);
      Insert(id, rest)
  }

  function Flag(v: View, id: string): string
    requires id in v
  {
    if v[id].enabled then id else "-" + id
  }

  function Flags(v: View, ids: seq<string>): (flags: seq<string>)
    requires Elements(ids) <= v.Keys
    ensures |flags| == |ids| && forall i :: 0 <= i < |ids| ==> ids[i] in v && flags[i] == Flag(v, ids[i])
  {
    assert forall i :: 0 <= i < |ids| ==> ids[i] in Elements(ids);
    seq(|ids|, i requires 0 <= i < |ids| => Flag(v, ids[i]))
  }

  ghost function FlagString(v: View): string {
    Join(Flags(v, SortedKeys(v.Keys)), ',')
  }

  // ----- what every registry keeps

  /** Gates have valid IDs and known stages; a stable gate is enabled and a deprecated one is disabled. */
  ghost predicate Lawful(v: View) {
    forall id :: id in v ==>
      ValidID(id) && !v[id].stage.Other? && (v[id].stage.Stable? ==> v[id].enabled)
      && (v[id].stage.Deprecated? ==> !v[id].enabled)
  }

  /** Gates stay registered, with their stages. */
  ghost predicate Extends(v: View, w: View) {
    forall id :: id in v ==> id in w && w[id].stage == v[id].stage
  }

  ghost predicate SameGates(v: View, w: View) {
    v.Keys == w.Keys && Extends(v, w)
  }

  lemma {:induction false} ApplyFlagsKeeps(v: View, parts: seq<string>)
    requires Lawful(v)
    ensures Lawful(ApplyFlags(v, parts).view) && SameGates(v, ApplyFlags(v, parts).view)
  {
    if parts != [] {
      ApplyFlagsKeeps(v, parts[..|parts| - 1]);
    }
  }

  datatype Op =
    | Register(id: string, stage: Stage, opts: seq<RegisterOption>)
    | Set(id: string, enabled: bool)
    | SetFlags(s: string)

  function Step(v: View, op: Op): Outcome {
    match op
    case Register(id, stage, opts) => Registered(v, id, stage, opts)
    case Set(id, enabled) => SetGate(v, id, enabled)
    case SetFlags(s) => FlagSet(v, s)
  }

  function Run(v: View, ops: seq<Op>): View
    decreases ops
  {
    if ops == [] then v else Run(Step(v, ops[0]).view, ops[1..])
  }

  lemma StepKeeps(v: View, op: Op)
    requires Lawful(v)
    ensures Lawful(Step(v, op).view) && Extends(v, Step(v, op).view)
  {
    if op.SetFlags? {
      ApplyFlagsKeeps(v, Split(op.s, ','));
    }
  }

  /** Whatever is called in whatever order: stable gates stay enabled, deprecated ones disabled, and no gate is
      removed or changes its stage. */
  lemma {:induction false} EveryRunLawful(v: View, ops: seq<Op>)
    requires Lawful(v)
    ensures Lawful(Run(v, ops)) && Extends(v, Run(v, ops))
    decreases ops
  {
    if ops != [] {
      StepKeeps(v, ops[0]);
      EveryRunLawful(Step(v, ops[0]).view, ops[1..]);
    }
  }

  // ----- the flag

  /** The errors of all parts, each one tried on the same registry. */
  function ErrorsOneByOne(v: View, parts: seq<string>): seq<Error> {
    if parts == [] then []
    else
      var n := |parts| - 1;
      ErrorsOneByOne(v, parts[..n]) + ApplyFlag(v, parts[n], n).errors
  }

  /** Whether a part is refused does not depend on the other parts, and no part is skipped after an error. */
  lemma {:induction false} PartsFailIndependently(v: View, parts: seq<string>)
    requires Lawful(v)
    ensures ApplyFlags(v, parts).errors == ErrorsOneByOne(v, parts)
  {
    if parts != [] {
      var n := |parts| - 1;
      ApplyFlagsKeeps(v, parts[..n]);
      PartsFailIndependently(v, parts[..n]);
    }
  }

  /** What the last part that names the gate asks for. */
  function LastRequest(parts: seq<string>, id: string, otherwise: bool): bool {
    if parts == [] then otherwise
    else
      var n := |parts| - 1;
      if parts[n] != "" && Request(parts[n]).0 == id then Request(parts[n]).1
      else LastRequest(parts[..n], id, otherwise)
  }

  /** The last part that names a gate decides, for the gates that can be set; the others stay as they are. */
  lemma {:induction false} LastPartWins(v: View, parts: seq<string>, id: string)
    requires Lawful(v) && id in v
    ensures id in ApplyFlags(v, parts).view
    ensures ApplyFlags(v, parts).view[id].enabled
         == if v[id].stage.Alpha? || v[id].stage.Beta? then LastRequest(parts, id, v[id].enabled) else v[id].enabled
  {
    if parts != [] {
      var n := |parts| - 1;
      ApplyFlagsKeeps(v, parts[..n]);
      LastPartWins(v, parts[..n], id);
    }
  }

  lemma FlagFacts(v: View, id: string)
    requires Lawful(v) && id in v
    ensures Flag(v, id) != "" && Free(Flag(v, id), ',') && Request(Flag(v, id)) == (id, v[id].enabled)
  {
    assert IdChar(id[0]);
    assert !IdChar(',') && !IdChar('-') && !IdChar('+');
  }

  /** Applying a gate's own flag to a registry with the same gates copies its state. */
  lemma FlagCopies(v: View, u: View, id: string, index: nat)
    requires Lawful(v) && Lawful(u) && SameGates(v, u) && id in v
    ensures ApplyFlag(u, Flag(v, id), index) == Outcome(u[id := v[id]], [])
  {
    FlagFacts(v, id);
    assert u[id].stage == v[id].stage;
    if v[id].stage.Stable? || v[id].stage.Deprecated? {
      assert u[id] == v[id];
      assert u[id := v[id]] == u;
    }
  }

  lemma {:induction false} FlagsCopy(v: View, w: View, ids: seq<string>)
    requires Lawful(v) && Lawful(w) && SameGates(v, w) && Elements(ids) <= v.Keys
    ensures ApplyFlags(w, Flags(v, ids)).errors == []
    ensures var u := ApplyFlags(w, Flags(v, ids)).view;
            forall id :: id in ids ==> id in u && u[id] == v[id]
    decreases ids
  {
    if ids != [] {
      var n := |ids| - 1;
      var front, last := ids[..n], ids[n];
      assert last in Elements(ids) && Elements(front) <= Elements(ids);
      FlagsCopy(v, w, front);
      assert Flags(v, ids)[..n] == Flags(v, front);
      var before := ApplyFlags(w, Flags(v, front));
      ApplyFlagsKeeps(w, Flags(v, front));
      FlagCopies(v, before.view, last, n);
      assert ids == front + [last];
    }
  }

  lemma FlagsSplit(v: View, ids: seq<string>)
    requires Lawful(v) && Elements(ids) <= v.Keys && ids != []
    ensures Join(Flags(v, ids), ',') != "" && Split(Join(Flags(v, ids), ','), ',') == Flags(v, ids)
  {
    var flags := Flags(v, ids);
    forall i | 0 <= i < |flags| ensures flags[i] != "" && Free(flags[i], ',') {
      FlagFacts(v, ids[i]);
    }
    SplitJoin(flags, ',');
    JoinNotEmpty(flags);
  }

  lemma AllCopied(v: View, u: View, ids: seq<string>)
    requires v.Keys == u.Keys == Elements(ids) && forall id :: id in ids ==> id in u && id in v && u[id] == v[id]
    ensures u == v
  {
    forall id | id in v ensures u[id] == v[id] {
      assert id in Elements(ids);
    }
  }

  lemma PrintedFlagsCopy(v: View, w: View, ids: seq<string>)
    requires Lawful(v) && Lawful(w) && SameGates(v, w) && Elements(ids) == v.Keys
    ensures FlagSet(w, Join(Flags(v, ids), ',')) == Outcome(v, [])
  {
    var flags := Flags(v, ids);
    if ids == [] {
      assert v.Keys == {} && w.Keys == {};
      assert v == w;
    } else {
      FlagsSplit(v, ids);
      FlagsCopy(v, w, ids);
      ApplyFlagsKeeps(w, flags);
      AllCopied(v, ApplyFlags(w, flags).view, ids);
    }
  }

  /** What one registry prints, set on another one with the same gates, is accepted without errors and makes the
      two agree on every gate, whatever state the other was in. */
  lemma FlagRoundTrip(v: View, w: View)
    requires Lawful(v) && Lawful(w) && SameGates(v, w)
    ensures FlagSet(w, FlagString(v)) == Outcome(v, [])
  {
    PrintedFlagsCopy(v, w, SortedKeys(v.Keys));
  }

  lemma JoinNotEmpty(flags: seq<string>)
    requires flags != [] && flags[0] != ""
    ensures Join(flags, ',') != ""
  {
  }

  /** In particular for any two registries reached by any calls. */
  lemma EveryFlagRoundTrips(ops: seq<Op>, others: seq<Op>)
    requires SameGates(Run(map[], ops), Run(map[], others))
    ensures FlagSet(Run(map[], others), FlagString(Run(map[], ops))) == Outcome(Run(map[], ops), [])
  {
    EveryRunLawful(map[], ops);
    EveryRunLawful(map[], others);
    FlagRoundTrip(Run(map[], ops), Run(map[], others));
  }

  // ----- the registry

  class Gate {
    const id: string
    const stage: Stage
    var enabled: bool

    constructor (id: string, stage: Stage, enabled: bool)
      ensures this.id == id && this.stage == stage && this.enabled == enabled
    {
      this.id, this.stage, this.enabled := id, stage, enabled;
    }
  }

  lemma Repeated(ids: seq<string>, i: nat, j: nat)
    requires i < j < |ids| && ids[i] == ids[j]
    ensures multiset(ids)[ids[j]] >= 2
  {
    assert ids == ids[..j] + [ids[j]] + ids[j + 1..];
    assert ids[i] in ids[..j];
  }

  lemma SortedDistinct(ids: seq<string>, keys: set<string>)
    requires Sorted(ids) && multiset(ids) == multiset(keys)
    ensures Increasing(ids) && Elements(ids) == keys && ids == SortedKeys(keys)
  {
    forall i, j | 0 <= i < j < |ids| ensures Less(ids[i], ids[j]) {
      assert LessOrEqual(ids[i], ids[j]);
      if ids[i] == ids[j] {
        Repeated(ids, i, j);
      }
    }
    assert Elements(ids) == keys by {
      forall id ensures id in ids <==> id in keys {
        assert id in ids <==> id in multiset(ids);
      }
    }
    IncreasingUnique(ids, SortedKeys(keys));
  }

  method SortKeys(keys: set<string>) returns (sorted: seq<string>)
    ensures sorted == SortedKeys(keys)
  {
    var ids, left := [], keys;
    while left != {}
      invariant left <= keys && multiset(ids) + multiset(left) == multiset(keys)
      decreases |left|
    {
      var id :| id in left;
      ids, left := ids + [id], left - {id};
    }
    assert multiset(left) == multiset{};
    sorted := SortStrings(ids);
    SortedDistinct(sorted, keys);
  }

  class Registry {
    var gates: map<string, Gate>

    ghost predicate Valid()
      reads this
    {
      forall id :: id in gates ==> gates[id].id == id
    }

    ghost function View(): View
      reads this, gates.Values
    {
      map id | id in gates :: State(gates[id].stage, gates[id].enabled)
    }

    constructor ()
      ensures Valid() && View() == map[] && gates == map[]
    {
      gates := map[];
    }

    method Register(id: string, stage: Stage, opts: seq<RegisterOption>) returns (g: Gate?, err: Option<Error>)
      requires Valid()
      modifies this
      ensures Valid()
      ensures (var r := Registered(old(View()), id, stage, opts);
               View() == r.view && r.errors == (if err.Some? then [err.value] else []))
      ensures err.Some? <==> g == null
      ensures g != null ==> fresh(g) && gates == old(gates)[id := g]
      ensures g == null ==> gates == old(gates)
    {
      g := null;
      var versions := Some(Versions(None, None));
      var i := 0;
      while i < |opts| && versions.Some?
        invariant 0 <= i <= |opts|
        invariant Configure(opts, Versions(None, None))
               == if versions.Some? then Configure(opts[i..], versions.value) else None
      {
        assert opts[i..][1..] == opts[i + 1..];
        match opts[i] {
          case Description =>
          case ReferenceURL(parses) => versions := if parses then versions else None;
          case FromVersion(from) => versions := if from.None? then None else Some(versions.value.(from := from));
          case ToVersion(to) => versions := if to.None? then None else Some(versions.value.(to := to));
        }
        i := i + 1;
      }
      err := Refusal(id, stage, versions);
      if err.Some? {
        return;
      }
      if id in gates {
        err := Some(AlreadyRegistered(id));
        return;
      }
      g := new Gate(id, stage, stage.Beta? || stage.Stable?);
      gates := gates[id := g];
    }

    /** Only the enabled bit of the named gate can change. */
    method Set(id: string, enabled: bool) returns (err: Option<Error>)
      requires Valid()
      modifies gates.Values
      ensures Valid()
      ensures (var r := SetGate(old(View()), id, enabled);
               View() == r.view && r.errors == (if err.Some? then [err.value] else []))
    {
      if id !in gates {
        return Some(NoSuchGate(id));
      }
      var g := gates[id];
      assert g in gates.Values;
      match g.stage {
        case Stable => return if enabled then None else Some(StableDisabled(id));
        case Deprecated => return if enabled then Some(DeprecatedEnabled(id)) else None;
        case _ =>
          g.enabled := enabled;
          return None;
      }
    }

    /** The gates in the order in which the callback is called with them. */
    method VisitAll() returns (visited: seq<Gate>)
      requires Valid()
      ensures (var ids := SortedKeys(gates.Keys);
               |visited| == |ids| && forall i :: 0 <= i < |ids| ==> ids[i] in gates && visited[i] == gates[ids[i]])
    {
      var sorted := SortKeys(gates.Keys);
      visited := [];
      for i := 0 to |sorted|
        invariant |visited| == i && forall j :: 0 <= j < i ==> sorted[j] in gates && visited[j] == gates[sorted[j]]
      {
        assert sorted[i] in Elements(sorted);
        visited := visited + [gates[sorted[i]]];
      }
    }
  }

  class FlagValue {
    const reg: Registry?

    constructor (reg: Registry?)
      ensures this.reg == reg
    {
      this.reg := reg;
    }

    static method Print(visited: seq<Gate>) returns (flags: seq<string>)
      ensures |flags| == |visited|
      ensures forall i :: 0 <= i < |visited| ==>
        flags[i] == if visited[i].enabled then visited[i].id else "-" + visited[i].id
    {
      flags := [];
      for i := 0 to |visited|
        invariant |flags| == i
        invariant forall j :: 0 <= j < i ==>
                    flags[j] == if visited[j].enabled then visited[j].id else "-" + visited[j].id
      {
        var g := visited[i];
        flags := flags + [if g.enabled then g.id else "-" + g.id];
      }
    }

    method String() returns (s: string)
      requires reg != null ==> reg.Valid()
      ensures s == if reg == null then "" else FlagString(reg.View())
    {
      if reg == null {
        return "";
      }
      var visited := reg.VisitAll();
      var flags := Print(visited);
      ghost var v, ids := reg.View(), SortedKeys(reg.gates.Keys);
      assert v.Keys == reg.gates.Keys;
      assert flags == Flags(v, ids);
      s := Join(flags, ',');
    }

    method Set(s: string) returns (errs: seq<Error>)
      requires reg != null && reg.Valid()
      modifies reg.gates.Values
      ensures reg.Valid() && Outcome(reg.View(), errs) == FlagSet(old(reg.View()), s)
    {
      errs := [];
      if s == "" {
        return;
      }
      var ids := Split(s, ',');
      for i := 0 to |ids|
        invariant reg.Valid() && Outcome(reg.View(), errs) == ApplyFlags(old(reg.View()), ids[..i])
      {
        assert ids[..i + 1][..i] == ids[..i];
        if ids[i] == "" {
          errs := errs + [EmptyIdentifier(i)];
        } else {
          var id, val := ids[i], true;
          if id[0] == '-' {
            id, val := id[1..], false;
          } else if id[0] == '+' {
            id := id[1..];
          }
          var err := reg.Set(id, val);
          errs := errs + if err.Some? then [err.value] else [];
        }
      }
      assert ids[..|ids|] == ids;
    }
  }
}
