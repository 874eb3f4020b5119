/**
 Fan-out of telemetry data to several consumers, any of which may be a fan-out itself: who
 gets the data object as it is, who gets a clone, and when the object becomes read-only.

 A consumer that is not a fan-out is a leaf.  A leaf that mutates may turn the content of
 the object it gets into any other; a leaf that does not leaves it alone.  Every leaf may fail.

 A clone has content of its own but uses the byte arrays of its original, as copies of
 AnyValues do.  One object stands for these arrays; a leaf that mutates may write to them in
 place.  Logs without byte strings have no such object.
 */
module Fanouts {
  import opened Common

  type Content = int
  type Data = int

  class ByteArrays {
    var data: Data

    constructor (data: Data)
      ensures this.data == data
    {
      this.data := data;
    }
  }

  class Logs {
    var content: Content
    var readOnly: bool
    const bytes: ByteArrays?

    constructor (content: Content, bytes: ByteArrays?)
      ensures this.content == content && this.bytes == bytes && !readOnly
    {
      this.content, this.bytes, readOnly := content, bytes, false;
    }

    /** What the byte arrays hold, if there are any. */
    ghost function Data(): Option<Data>
      reads bytes
    {
      if bytes == null then None else Some(bytes.data)
    }
  }

  /** What a leaf does depends on what it sees: what it makes of the content, what it writes to the byte arrays, and
      whether it fails. */
  datatype Consumer =
    | Leaf(
        id: nat,
        mutatesData: bool,
        effect: (Content, Option<Data>) -> Content,
        writes: (Content, Data) -> Data,
        fails: (Content, Option<Data>) -> bool)
    | Fanout(mutable: seq<Consumer>, readonly: seq<Consumer>)

  /** Capabilities().MutatesData */
  predicate Mutates(c: Consumer) {
    match c
    case Leaf(_, m, _, _, _) => m
    case Fanout(ms, rs) => |ms| > 0 && |rs| == 0
  }

  /** Every consumer of every fan-out is in the list its capabilities call for. */
  predicate WellFormed(c: Consumer)
    decreases c
  {
    c.Fanout? ==>
      && (forall i :: 0 <= i < |c.mutable| ==> Mutates(c.mutable[i]) && WellFormed(c.mutable[i]))
      && (forall i :: 0 <= i < |c.readonly| ==> !Mutates(c.readonly[i]) && WellFormed(c.readonly[i]))
  }

  // ----- construction

  function LeavesOf(c: Consumer): multiset<nat>
    decreases c
  {
    match c
    case Leaf(id, _, _, _, _) => multiset{id}
    case Fanout(ms, rs) => LeavesOfAll(ms) + LeavesOfAll(rs)
  }

  function LeavesOfAll(cs: seq<Consumer>): multiset<nat>
    decreases cs
  {
    if cs == [] then multiset{} else LeavesOf(cs[0]) + LeavesOfAll(cs[1..])
  }

  lemma {:induction false} LeavesAppend(cs: seq<Consumer>, c: Consumer)
    ensures LeavesOfAll(cs + [c]) == LeavesOfAll(cs) + LeavesOf(c)
  {
    if cs == [] {
      assert cs + [c] == [c];
      assert LeavesOfAll([c]) == LeavesOf(c) + LeavesOfAll([]);
    } else {
      assert (cs + [c])[1..] == cs[1..] + [c];
      LeavesAppend(cs[1..], c);
    }
  }

  /** The consumers that mutate, or those that do not, in order. */
  function Keep(cs: seq<Consumer>, mutating: bool): seq<Consumer>
    decreases cs
  {
    if cs == [] then []
    else
      var front, last := cs[..|cs| - 1], cs[|cs| - 1];
      Keep(front, mutating) + if Mutates(last) == mutating then [last] else []
  }

  lemma {:induction false} KeepKeeps(cs: seq<Consumer>, mutating: bool)
    requires forall i :: 0 <= i < |cs| ==> WellFormed(cs[i])
    ensures forall i :: 0 <= i < |Keep(cs, mutating)| ==> WellFormed(Keep(cs, mutating)[i])
    ensures forall i :: 0 <= i < |Keep(cs, mutating)| ==> Mutates(Keep(cs, mutating)[i]) == mutating
    ensures Keep(cs, mutating) == [] <==> forall i :: 0 <= i < |cs| ==> Mutates(cs[i]) != mutating
    decreases cs
  {
    if cs != [] {
      KeepKeeps(cs[..|cs| - 1], mutating);
    }
  }

  lemma {:induction false} KeepLeaves(cs: seq<Consumer>)
    ensures LeavesOfAll(Keep(cs, true)) + LeavesOfAll(Keep(cs, false)) == LeavesOfAll(cs)
    decreases cs
  {
    if cs != [] {
      var front, last := cs[..|cs| - 1], cs[|cs| - 1];
      assert cs == front + [last];
      var ms, rs := Keep(front, true), Keep(front, false);
      KeepLeaves(front);
      LeavesAppend(front, last);
      KeepStep(front, last);
      if Mutates(last) {
        LeavesAppend(ms, last);
        Shuffle(LeavesOfAll(ms), LeavesOfAll(rs), LeavesOf(last));
      } else {
        LeavesAppend(rs, last);
        Shuffle(LeavesOfAll(ms), LeavesOfAll(rs), LeavesOf(last));
      }
    }
  }

  lemma Shuffle(a: multiset<nat>, b: multiset<nat>, x: multiset<nat>)
    ensures a + x + b == a + b + x && a + (b + x) == a + b + x
  {
  }

  lemma KeepStep(front: seq<Consumer>, last: Consumer)
    ensures Keep(front + [last], Mutates(last)) == Keep(front, Mutates(last)) + [last]
    ensures Keep(front + [last], !Mutates(last)) == Keep(front, !Mutates(last))
  {
    assert (front + [last])[..|front|] == front;
  }

  /** Wraps consumers in one: every leaf below them is below the result, once for each time it was. */
  method NewLogs(lcs: seq<Consumer>) returns (c: Consumer)
    requires forall i :: 0 <= i < |lcs| ==> WellFormed(lcs[i])
    ensures WellFormed(c) && LeavesOf(c) == LeavesOfAll(lcs)
    ensures Mutates(c) <==> lcs != [] && forall i :: 0 <= i < |lcs| ==> Mutates(lcs[i])
  {
    if |lcs| == 1 && !Mutates(lcs[0]) {
      assert LeavesOfAll(lcs) == LeavesOf(lcs[0]) + LeavesOfAll([]);
      return lcs[0];
    }
    var mutable: seq<Consumer>, readonly: seq<Consumer> := [], [];
    for i := 0 to |lcs|
      invariant mutable == Keep(lcs[..i], true) && readonly == Keep(lcs[..i], false)
    {
      assert lcs[..i + 1][..i] == lcs[..i];
      if Mutates(lcs[i]) {
        mutable := mutable + [lcs[i]];
      } else {
        readonly := readonly + [lcs[i]];
      }
    }
    assert lcs[..|lcs|] == lcs;
    KeepKeeps(lcs, true);
    KeepKeeps(lcs, false);
    KeepLeaves(lcs);
    c := Fanout(mutable, readonly);
  }

  // ----- delivery

  /** One call of a leaf: the object it got, what that was like then, and whether the call failed. */
  datatype Delivery = Delivery(
    id: nat,
    mutatesData: bool,
    obj: Logs,
    content: Content,
    data: Option<Data>,
    readOnly: bool,
    failed: bool)

  /** What a call of a leaf saw of the byte arrays, and whether it failed. */
  datatype Sight = Sight(id: nat, data: Option<Data>, failed: bool)

  function SightsIn(trace: seq<Delivery>): seq<Sight> {
    seq(|trace|, i requires 0 <= i < |trace| => Sight(trace[i].id, trace[i].data, trace[i].failed))
  }

  function Ids(sights: seq<Sight>): seq<nat> {
    seq(|sights|, i requires 0 <= i < |sights| => sights[i].id)
  }

  function Failed(sights: seq<Sight>): seq<nat> {
    if sights == [] then []
    else
      var n := |sights| - 1;
      Failed(sights[..n]) + if sights[n].failed then [sights[n].id] else []
  }

  lemma {:induction false} FailedConcat(a: seq<Sight>, b: seq<Sight>)
    ensures Failed(a + b) == Failed(a) + Failed(b)
  {
    if b == [] {
      assert a + b == a;
    } else {
      var n := |b| - 1;
      assert (a + b)[..|a| + n] == a + b[..n];
      FailedConcat(a, b[..n]);
    }
  }

  /** The byte arrays after a consumer was called: the leaves that mutate wrote to them in turn. */
  function After(c: Consumer, content: Content, data: Option<Data>): Option<Data>
    decreases c
  {
    match c
    case Leaf(_, m, _, writes, _) => if m && data.Some? then Some(writes(content, data.value)) else data
    case Fanout(ms, rs) => AfterAll(rs, content, AfterAll(ms, content, data))
  }

  function AfterAll(cs: seq<Consumer>, content: Content, data: Option<Data>): Option<Data>
    decreases cs
  {
    if cs == [] then data else AfterAll(cs[1..], content, After(cs[0], content, data))
  }

  /** The calls of the leaves, in order; each sees what the leaves before it have written. */
  function Sights(c: Consumer, content: Content, data: Option<Data>): seq<Sight>
    decreases c
  {
    match c
    case Leaf(id, _, _, _, fails) => [Sight(id, data, fails(content, data))]
    case Fanout(ms, rs) => SightsAll(ms, content, data) + SightsAll(rs, content, AfterAll(ms, content, data))
  }

  function SightsAll(cs: seq<Consumer>, content: Content, data: Option<Data>): seq<Sight>
    decreases cs
  {
    if cs == [] then []
    else Sights(cs[0], content, data) + SightsAll(cs[1..], content, After(cs[0], content, data))
  }

  lemma {:induction false} SightsAppend(cs: seq<Consumer>, c: Consumer, content: Content, data: Option<Data>)
    ensures AfterAll(cs + [c], content, data) == After(c, content, AfterAll(cs, content, data))
    ensures SightsAll(cs + [c], content, data)
         == SightsAll(cs, content, data) + Sights(c, content, AfterAll(cs, content, data))
    decreases cs
  {
    if cs == [] {
      assert cs + [c] == [c];
      assert SightsAll([c], content, data) == Sights(c, content, data) + [];
    } else {
      assert (cs + [c])[0] == cs[0] && (cs + [c])[1..] == cs[1..] + [c];
      SightsAppend(cs[1..], c, content, After(cs[0], content, data));
    }
  }

  lemma IdsConcat(a: seq<Sight>, b: seq<Sight>)
    ensures Ids(a + b) == Ids(a) + Ids(b)
  {
  }

  /** Called once each, a leaf is called as often as it occurs. */
  lemma {:induction false} CalledOnceEach(c: Consumer, content: Content, data: Option<Data>)
    ensures multiset(Ids(Sights(c, content, data))) == LeavesOf(c)
    decreases c
  {
    if c.Fanout? {
      var middle := AfterAll(c.mutable, content, data);
      CalledOnceEachAll(c.mutable, content, data);
      CalledOnceEachAll(c.readonly, content, middle);
      IdsConcat(SightsAll(c.mutable, content, data), SightsAll(c.readonly, content, middle));
    } else {
      assert Ids(Sights(c, content, data)) == [c.id];
    }
  }

  lemma {:induction false} CalledOnceEachAll(cs: seq<Consumer>, content: Content, data: Option<Data>)
    ensures multiset(Ids(SightsAll(cs, content, data))) == LeavesOfAll(cs)
    decreases cs
  {
    if cs != [] {
      var next := After(cs[0], content, data);
      CalledOnceEach(cs[0], content, data);
      CalledOnceEachAll(cs[1..], content, next);
      IdsConcat(Sights(cs[0], content, data), SightsAll(cs[1..], content, next));
    }
  }

  // ----- when the byte arrays stay as they were

  /** No leaf that mutates writes to the byte arrays, given what they held on entry. */
  predicate Quiet(c: Consumer, content: Content, data: Option<Data>)
    decreases c
  {
    match c
    case Leaf(_, m, _, writes, _) => m && data.Some? ==> writes(content, data.value) == data.value
    case Fanout(ms, rs) => QuietAll(ms, content, data) && QuietAll(rs, content, data)
  }

  predicate QuietAll(cs: seq<Consumer>, content: Content, data: Option<Data>)
    decreases cs
  {
    cs != [] ==> Quiet(cs[0], content, data) && QuietAll(cs[1..], content, data)
  }

  ghost predicate AllSaw(sights: seq<Sight>, data: Option<Data>) {
    forall i :: 0 <= i < |sights| ==> sights[i].data == data
  }

  /** The first leaf sees what there was on entry; without leaves nothing is written. */
  lemma {:induction false} FirstSight(c: Consumer, content: Content, data: Option<Data>)
    ensures var sights := Sights(c, content, data);
            if sights == [] then After(c, content, data) == data else sights[0].data == data
    decreases c
  {
    if c.Fanout? {
      FirstSightAll(c.mutable, content, data);
      FirstSightAll(c.readonly, content, AfterAll(c.mutable, content, data));
    }
  }

  lemma {:induction false} FirstSightAll(cs: seq<Consumer>, content: Content, data: Option<Data>)
    ensures var sights := SightsAll(cs, content, data);
            if sights == [] then AfterAll(cs, content, data) == data else sights[0].data == data
    decreases cs
  {
    if cs != [] {
      FirstSight(cs[0], content, data);
      FirstSightAll(cs[1..], content, After(cs[0], content, data));
    }
  }

  /** What is seen in two stretches, the second of which begins with what the first left. */
  lemma SawBoth(a: seq<Sight>, b: seq<Sight>, data: Option<Data>, middle: Option<Data>, after: Option<Data>)
    requires if b == [] then after == middle else b[0].data == middle
    ensures AllSaw(a + b, data) && after == data <==>
            AllSaw(a, data) && middle == data && AllSaw(b, data) && after == data
  {
    assert forall i :: 0 <= i < |a| ==> (a + b)[i] == a[i];
    assert forall i :: 0 <= i < |b| ==> (a + b)[|a| + i] == b[i];
  }

  /** Every leaf sees the bytes there were on entry, and they are there on return, if and only if no leaf that mutates
      writes to them in place; in particular always, if the logs have none. */
  lemma {:induction false} BytesKeptExactly(c: Consumer, content: Content, data: Option<Data>)
    ensures AllSaw(Sights(c, content, data), data) && After(c, content, data) == data <==> Quiet(c, content, data)
    decreases c
  {
    if c.Fanout? {
      var middle := AfterAll(c.mutable, content, data);
      BytesKeptExactlyAll(c.mutable, content, data);
      BytesKeptExactlyAll(c.readonly, content, data);
      FirstSightAll(c.readonly, content, middle);
      SawBoth(SightsAll(c.mutable, content, data), SightsAll(c.readonly, content, middle), data, middle,
              After(c, content, data));
    }
  }

  lemma {:induction false} BytesKeptExactlyAll(cs: seq<Consumer>, content: Content, data: Option<Data>)
    ensures AllSaw(SightsAll(cs, content, data), data) && AfterAll(cs, content, data) == data
            <==> QuietAll(cs, content, data)
    decreases cs
  {
    if cs != [] {
      var next := After(cs[0], content, data);
      BytesKeptExactly(cs[0], content, data);
      BytesKeptExactlyAll(cs[1..], content, data);
      FirstSightAll(cs[1..], content, next);
      SawBoth(Sights(cs[0], content, data), SightsAll(cs[1..], content, next), data, next,
              AfterAll(cs, content, data));
    }
  }

  /** A fan-out that does not mutate its input by its own account: one leaf writes to the bytes of its clone, the other
      one sees that in the input, and it is there on return. */
  lemma WriteToCloneSeen() returns (c: Consumer)
    ensures WellFormed(c) && !Mutates(c)
    ensures |Sights(c, 0, Some(0))| == 2 && Sights(c, 0, Some(0))[1].data == Some(1) && After(c, 0, Some(0)) == Some(1)
  {
    var writer := Leaf(0, true, (content, data) => content, (content, data) => 1, (content, data) => false);
    var reader := Leaf(1, false, (content, data) => content, (content, data) => data, (content, data) => false);
    c := Fanout([writer], [reader]);
    assert AfterAll([writer], 0, Some(0)) == AfterAll([], 0, Some(1));
    assert SightsAll([writer], 0, Some(0)) == [Sight(0, Some(0), false)] + [];
    assert SightsAll([reader], 0, Some(1)) == [Sight(1, Some(1), false)] + [];
    assert AfterAll([reader], 0, Some(1)) == AfterAll([], 0, Some(1));
  }

  // ----- who gets what

  /** Every leaf saw the given content; a leaf that mutates got a mutable object. */
  ghost predicate SawContent(trace: seq<Delivery>, content: Content) {
    forall i :: 0 <= i < |trace| ==> trace[i].content == content && (trace[i].mutatesData ==> !trace[i].readOnly)
  }

  /** An object that went to more than one leaf was read-only when it did. */
  ghost predicate SharedReadOnly(trace: seq<Delivery>) {
    forall i, j :: 0 <= i < |trace| && 0 <= j < |trace| && i != j && trace[i].obj == trace[j].obj ==> trace[i].readOnly
  }

  /** So a leaf that mutates never shares its object. */
  lemma MutatingIsExclusive(trace: seq<Delivery>, content: Content, i: nat, j: nat)
    requires SawContent(trace, content) && SharedReadOnly(trace)
    requires i < |trace| && j < |trace| && i != j && trace[i].mutatesData
    ensures trace[i].obj != trace[j].obj
  {
  }

  /** Whoever got the object found it read-only. */
  ghost predicate ReadOnlyOn(trace: seq<Delivery>, ld: Logs) {
    forall i :: 0 <= i < |trace| && trace[i].obj == ld ==> trace[i].readOnly
  }

  ghost function Objects(trace: seq<Delivery>): set<Logs> {
    set i | 0 <= i < |trace| :: trace[i].obj
  }

  /** The objects that leaves may have changed. */
  ghost function Mutated(trace: seq<Delivery>): set<Logs> {
    set i | 0 <= i < |trace| && trace[i].mutatesData :: trace[i].obj
  }

  lemma ObjectsConcat(a: seq<Delivery>, b: seq<Delivery>)
    ensures Objects(a + b) == Objects(a) + Objects(b)
    ensures Mutated(a + b) == Mutated(a) + Mutated(b)
  {
    var t := a + b;
    assert forall i :: 0 <= i < |a| ==> a[i] == t[i];
    assert forall i :: 0 <= i < |b| ==> b[i] == t[|a| + i];
  }

  /** Two traces have at most ld in common, and nothing if it was not read-only in both. */
  ghost predicate Compatible(a: seq<Delivery>, b: seq<Delivery>, ld: Logs) {
    Objects(a) !! Objects(b) || (Objects(a) * Objects(b) <= {ld} && ReadOnlyOn(a, ld) && ReadOnlyOn(b, ld))
  }

  lemma SharedConcat(a: seq<Delivery>, b: seq<Delivery>, ld: Logs)
    requires SharedReadOnly(a) && SharedReadOnly(b) && Compatible(a, b, ld)
    ensures SharedReadOnly(a + b)
  {
    var t := a + b;
    forall i, j | 0 <= i < |t| && 0 <= j < |t| && i != j && t[i].obj == t[j].obj ensures t[i].readOnly {
      if i < |a| && j >= |a| {
        assert t[i] == a[i] && t[j] == b[j - |a|];
        assert a[i].obj in Objects(a) && b[j - |a|].obj in Objects(b);
        assert a[i].obj in Objects(a) * Objects(b);
      } else if i >= |a| && j < |a| {
        assert t[i] == b[i - |a|] && t[j] == a[j];
        assert a[j].obj in Objects(a) && b[i - |a|].obj in Objects(b);
        assert b[i - |a|].obj in Objects(a) * Objects(b);
      } else if i < |a| {
        assert t[i] == a[i] && t[j] == a[j];
      } else {
        assert t[i] == b[i - |a|] && t[j] == b[j - |a|];
      }
    }
  }

  /** The calls of a trace were as given and each saw the content; those that failed are reported; sharing was
      read-only. */
  ghost predicate Traced(sights: seq<Sight>, content: Content, trace: seq<Delivery>, errs: seq<nat>) {
    SightsIn(trace) == sights && errs == Failed(sights) && SawContent(trace, content) && SharedReadOnly(trace)
  }

  lemma SightsInConcat(a: seq<Delivery>, b: seq<Delivery>)
    ensures SightsIn(a + b) == SightsIn(a) + SightsIn(b)
  {
  }

  lemma SawConcat(a: seq<Delivery>, b: seq<Delivery>, content: Content)
    requires SawContent(a, content) && SawContent(b, content)
    ensures SawContent(a + b, content)
  {
  }

  lemma TracedConcat(sa: seq<Sight>, sb: seq<Sight>, content: Content, ld: Logs,
                     a: seq<Delivery>, ea: seq<nat>, b: seq<Delivery>, eb: seq<nat>)
    requires Traced(sa, content, a, ea) && Traced(sb, content, b, eb) && Compatible(a, b, ld)
    ensures Traced(sa + sb, content, a + b, ea + eb)
    ensures Objects(a + b) == Objects(a) + Objects(b) && Mutated(a + b) == Mutated(a) + Mutated(b)
  {
    SightsInConcat(a, b);
    FailedConcat(sa, sb);
    SawConcat(a, b, content);
    SharedConcat(a, b, ld);
    ObjectsConcat(a, b);
  }

  /** Every leaf of c was called, in order, and saw what was written to the byte arrays before it. */
  ghost predicate Delivered(c: Consumer, content: Content, data: Option<Data>, trace: seq<Delivery>, errs: seq<nat>) {
    Traced(Sights(c, content, data), content, trace, errs)
  }

  ghost predicate DeliveredAll(
    cs: seq<Consumer>, content: Content, data: Option<Data>, trace: seq<Delivery>, errs: seq<nat>)
  {
    Traced(SightsAll(cs, content, data), content, trace, errs)
  }

  lemma DeliveredMore(cs: seq<Consumer>, c: Consumer, content: Content, data: Option<Data>, ld: Logs,
                      a: seq<Delivery>, ea: seq<nat>, b: seq<Delivery>, eb: seq<nat>)
    requires DeliveredAll(cs, content, data, a, ea) && Compatible(a, b, ld)
    requires Delivered(c, content, AfterAll(cs, content, data), b, eb)
    ensures DeliveredAll(cs + [c], content, data, a + b, ea + eb)
    ensures AfterAll(cs + [c], content, data) == After(c, content, AfterAll(cs, content, data))
    ensures Objects(a + b) == Objects(a) + Objects(b) && Mutated(a + b) == Mutated(a) + Mutated(b)
  {
    SightsAppend(cs, c, content, data);
    var before := AfterAll(cs, content, data);
    TracedConcat(SightsAll(cs, content, data), Sights(c, content, before), content, ld, a, ea, b, eb);
  }

  /** A leaf consumes an object: if it mutates, it may leave anything in it. */
  method ConsumeLeaf(c: Consumer, ld: Logs) returns (trace: seq<Delivery>, errs: seq<nat>)
    requires c.Leaf? && (c.mutatesData ==> !ld.readOnly)
    modifies ld, ld.bytes
    ensures Delivered(c, old(ld.content), old(ld.Data()), trace, errs)
    ensures ld.Data() == After(c, old(ld.content), old(ld.Data()))
    ensures Objects(trace) == {ld} && Mutated(trace) == if c.mutatesData then {ld} else {}
    ensures ld.readOnly == old(ld.readOnly) && (!c.mutatesData ==> ld.content == old(ld.content))
    ensures ld.readOnly ==> ReadOnlyOn(trace, ld)
  {
    var content, data := ld.content, if ld.bytes == null then None else Some(ld.bytes.data);
    var failed := c.fails(content, data);
    trace := [Delivery(c.id, c.mutatesData, ld, content, data, ld.readOnly, failed)];
    errs := if failed then [c.id] else [];
    assert SightsIn(trace) == [Sight(c.id, data, failed)];
    assert Failed([]) + errs == errs;
    assert trace[0].obj in Objects(trace);
    assert c.mutatesData ==> trace[0].obj in Mutated(trace);
    if c.mutatesData {
      ld.content := c.effect(content, data);
      if data.Some? {
        ld.bytes.data := c.writes(content, data.value);
      }
    }
  }

  /** The clone is a new object that uses the byte arrays of the original. */
  method CloneLogs(ld: Logs) returns (clone: Logs)
    ensures fresh(clone) && clone.content == ld.content && clone.bytes == ld.bytes && !clone.readOnly
  {
    clone := new Logs(ld.content, ld.bytes);
  }

  /** Consuming, by a consumer of any kind. */
  method Consume(c: Consumer, ld: Logs) returns (trace: seq<Delivery>, errs: seq<nat>)
    requires WellFormed(c) && (c.Leaf? && c.mutatesData ==> !ld.readOnly)
    modifies ld, ld.bytes
    ensures Delivered(c, old(ld.content), old(ld.Data()), trace, errs)
    ensures ld.Data() == After(c, old(ld.content), old(ld.Data()))
    ensures fresh(Objects(trace) - {ld})
    ensures old(ld.readOnly) || !Mutates(c) ==> ld !in Mutated(trace) && ld.content == old(ld.content)
    ensures old(ld.readOnly) ==> ld.readOnly && ReadOnlyOn(trace, ld)
    decreases c, 1
  {
    if c.Leaf? {
      trace, errs := ConsumeLeaf(c, ld);
    } else {
      trace, errs := ConsumeLogs(c, ld);
    }
  }

  /** The consumers that mutate: each gets a clone, except that the last gets the object itself if nobody else will. */
  method ConsumeMutable(c: Consumer, ld: Logs) returns (trace: seq<Delivery>, errs: seq<nat>)
    requires c.Fanout? && WellFormed(c)
    modifies ld, ld.bytes
    ensures DeliveredAll(c.mutable, old(ld.content), old(ld.Data()), trace, errs)
    ensures ld.Data() == AfterAll(c.mutable, old(ld.content), old(ld.Data()))
    ensures fresh(Objects(trace) - {ld})
    ensures old(ld.readOnly) || !Mutates(c) ==>
      ld !in Objects(trace) && ld !in Mutated(trace) && ReadOnlyOn(trace, ld) && unchanged(ld)
    decreases c, 0, 1
  {
    trace, errs := [], [];
    if |c.mutable| > 0 {
      var n := |c.mutable| - 1;
      trace, errs := ConsumeClones(c, ld, n);
      var target := ld;
      if |c.readonly| > 0 || ld.readOnly {
        target := CloneLogs(ld);
      }
      var t, e := Consume(c.mutable[n], target);
      assert c.mutable == c.mutable[..n] + [c.mutable[n]];
      DeliveredMore(c.mutable[..n], c.mutable[n], old(ld.content), old(ld.Data()), ld, trace, errs, t, e);
      trace, errs := trace + t, errs + e;
    }
    MutatedAreObjects(trace, ld);
  }

  /** The first n of them, each with a clone. */
  method ConsumeClones(c: Consumer, ld: Logs, n: nat) returns (trace: seq<Delivery>, errs: seq<nat>)
    requires c.Fanout? && WellFormed(c) && n < |c.mutable|
    modifies ld.bytes
    ensures DeliveredAll(c.mutable[..n], old(ld.content), old(ld.Data()), trace, errs)
    ensures ld.Data() == AfterAll(c.mutable[..n], old(ld.content), old(ld.Data()))
    ensures fresh(Objects(trace)) && ld !in Objects(trace)
    decreases c, 0, 0
  {
    ghost var content, data := ld.content, ld.Data();
    trace, errs := [], [];
    for i := 0 to n
      invariant DeliveredAll(c.mutable[..i], content, data, trace, errs)
      invariant ld.Data() == AfterAll(c.mutable[..i], content, data)
      invariant fresh(Objects(trace)) && ld !in Objects(trace)
    {
      var clone := CloneLogs(ld);
      var t, e := Consume(c.mutable[i], clone);
      assert c.mutable[..i + 1] == c.mutable[..i] + [c.mutable[i]];
      DeliveredMore(c.mutable[..i], c.mutable[i], content, data, ld, trace, errs, t, e);
      trace, errs := trace + t, errs + e;
    }
  }

  /** The consumers that do not mutate: all of them get the object itself. */
  method ConsumeReadonly(c: Consumer, ld: Logs) returns (trace: seq<Delivery>, errs: seq<nat>)
    requires c.Fanout? && WellFormed(c) && (|c.readonly| > 1 ==> ld.readOnly)
    modifies ld, ld.bytes
    ensures DeliveredAll(c.readonly, old(ld.content), old(ld.Data()), trace, errs)
    ensures ld.Data() == AfterAll(c.readonly, old(ld.content), old(ld.Data()))
    ensures fresh(Objects(trace) - {ld}) && ld !in Mutated(trace)
    ensures ld.content == old(ld.content) && (old(ld.readOnly) ==> ld.readOnly && ReadOnlyOn(trace, ld))
    decreases c, 0, 0
  {
    ghost var content, data := ld.content, ld.Data();
    trace, errs := [], [];
    for i := 0 to |c.readonly|
      invariant ld.content == content && (old(ld.readOnly) ==> ld.readOnly && ReadOnlyOn(trace, ld))
      invariant DeliveredAll(c.readonly[..i], content, data, trace, errs)
      invariant ld.Data() == AfterAll(c.readonly[..i], content, data)
      invariant fresh(Objects(trace) - {ld}) && ld !in Mutated(trace)
    {
      ghost var others := Objects(trace) - {ld};
      var t, e := Consume(c.readonly[i], ld);
      assert others !! Objects(t) - {ld};
      assert Objects(trace) * Objects(t) <= {ld};
      assert c.readonly[..i + 1] == c.readonly[..i] + [c.readonly[i]];
      assert i == 0 ==> |SightsIn(trace)| == |trace| == 0;
      DeliveredMore(c.readonly[..i], c.readonly[i], content, data, ld, trace, errs, t, e);
      trace, errs := trace + t, errs + e;
    }
    assert c.readonly[..|c.readonly|] == c.readonly;
  }

  lemma FanoutDelivered(c: Consumer, content: Content, data: Option<Data>, ld: Logs,
                        a: seq<Delivery>, ea: seq<nat>, b: seq<Delivery>, eb: seq<nat>)
    requires c.Fanout? && DeliveredAll(c.mutable, content, data, a, ea) && Compatible(a, b, ld)
    requires DeliveredAll(c.readonly, content, AfterAll(c.mutable, content, data), b, eb)
    ensures Delivered(c, content, data, a + b, ea + eb)
    ensures Objects(a + b) == Objects(a) + Objects(b) && Mutated(a + b) == Mutated(a) + Mutated(b)
    ensures ReadOnlyOn(a, ld) && ReadOnlyOn(b, ld) ==> ReadOnlyOn(a + b, ld)
  {
    var middle := AfterAll(c.mutable, content, data);
    TracedConcat(SightsAll(c.mutable, content, data), SightsAll(c.readonly, content, middle), content, ld,
                 a, ea, b, eb);
  }

  method ConsumeLogs(c: Consumer, ld: Logs) returns (trace: seq<Delivery>, errs: seq<nat>)
    requires c.Fanout? && WellFormed(c)
    modifies ld, ld.bytes
    ensures Delivered(c, old(ld.content), old(ld.Data()), trace, errs)
    ensures ld.Data() == After(c, old(ld.content), old(ld.Data()))
    ensures fresh(Objects(trace) - {ld})
    ensures old(ld.readOnly) || !Mutates(c) ==> ld !in Mutated(trace) && ld.content == old(ld.content)
    ensures old(ld.readOnly) ==> ld.readOnly && ReadOnlyOn(trace, ld)
    decreases c, 0, 2
  {
    trace, errs := ConsumeMutable(c, ld);
    if |c.readonly| > 1 && !ld.readOnly {
      ld.readOnly := true;
    }
    if |c.readonly| > 0 {
      var t, e := ConsumeReadonly(c, ld);
      FanoutDelivered(c, old(ld.content), old(ld.Data()), ld, trace, errs, t, e);
      trace, errs := trace + t, errs + e;
    } else {
      FanoutDelivered(c, old(ld.content), old(ld.Data()), ld, trace, errs, [], []);
      assert trace + [] == trace && errs + [] == errs;
    }
  }

  lemma MutatedAreObjects(trace: seq<Delivery>, ld: Logs)
    ensures Mutated(trace) <= Objects(trace) && (ld !in Objects(trace) ==> ReadOnlyOn(trace, ld))
  {
    assert forall i :: 0 <= i < |trace| ==> trace[i].obj in Objects(trace);
  }
}
