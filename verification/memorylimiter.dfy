/**
 The memory limiter: the validation of its configuration, the two thresholds computed from
 it, and the check that runs on every tick, with its forced garbage collections and the two
 backoff intervals that advance in lockstep.

 Time is an integer number of nanoseconds.  The fraction 0.95 of the check interval, a
 floating-point product in the code, is any duration; the closed forms need it not to be negative.
 */
module MemoryLimiters {
  import opened Common

  /** Go's time.Duration. */
  type Duration = I64

  const MIB := 1024 * 1024

  function Max(a: int, b: int): int {
    if a < b then b else a
  }

  function Min(a: int, b: int): int {
    if a < b then a else b
  }

  // ----- configuration

  datatype Config = Config(
    checkInterval: Duration,
    minSoft: Duration,
    minHard: Duration,
    maxSoft: Duration,
    maxHard: Duration,
    limitMiB: U32,
    spikeMiB: U32,
    limitPercentage: U32,
    spikePercentage: U32)

  datatype Verdict =
    | Valid
    | CheckIntervalOutOfRange
    | InconsistentGCMinInterval
    | NegativeGCMaxSoftInterval
    | NegativeGCMaxHardInterval
    | InconsistentGCMaxSoftInterval
    | InconsistentGCMaxHardInterval
    | InconsistentGCMaxInterval
    | LimitOutOfRange
    | LimitPercentageOutOfRange
    | SpikeLimitOutOfRange
    | SpikeLimitPercentageOutOfRange

  function Validate(c: Config): Verdict {
    if c.checkInterval <= 0 then CheckIntervalOutOfRange
    else if c.minSoft < c.minHard then InconsistentGCMinInterval
    else if c.maxSoft < 0 then NegativeGCMaxSoftInterval
    else if c.maxHard < 0 then NegativeGCMaxHardInterval
    else if c.maxSoft > 0 && c.maxSoft < c.minSoft then InconsistentGCMaxSoftInterval
    else if c.maxHard > 0 && c.maxHard < c.minHard then InconsistentGCMaxHardInterval
    else if c.maxSoft > 0 && c.maxHard > 0 && c.maxSoft < c.maxHard then InconsistentGCMaxInterval
    else if c.limitMiB == 0 && c.limitPercentage == 0 then LimitOutOfRange
    else if c.limitPercentage > 100 || c.spikePercentage > 100 then LimitPercentageOutOfRange
    else if c.limitMiB > 0 && c.limitMiB <= c.spikeMiB then SpikeLimitOutOfRange
    else if c.limitPercentage > 0 && c.limitPercentage <= c.spikePercentage then SpikeLimitPercentageOutOfRange
    else Valid
  }

  // ----- thresholds

  datatype Checker = Checker(allocLimit: U64, spikeLimit: U64) {
    /** The subtraction of two uint64. */
    function SoftLimit(): U64 {
      (allocLimit - spikeLimit) % TWO_64
    }

    predicate AboveSoft(alloc: U64) {
      alloc >= SoftLimit()
    }

    predicate AboveHard(alloc: U64) {
      alloc >= allocLimit
    }
  }

  function NewFixed(alloc: U64, spike: U64): Checker {
    Checker(alloc, if spike == 0 then alloc / 5 else spike)
  }

  /** A percentage of the memory, as 64 bits hold the product. */
  function Percent(percentage: U64, total: U64): U64 {
    (percentage * total) % TWO_64 / 100
  }

  function NewPercentage(total: U64, limit: U64, spike: U64): Checker {
    NewFixed(Percent(limit, total), Percent(spike, total))
  }

  function GetChecker(c: Config, total: U64): Checker {
    if c.limitMiB != 0 then NewFixed((c.limitMiB * MIB) % TWO_64, (c.spikeMiB * MIB) % TWO_64)
    else NewPercentage(total, c.limitPercentage, c.spikePercentage)
  }

  /** A limit given in MiB: the hard limit in bytes, and the soft limit below it by the spike limit, or by a fifth. */
  lemma FixedLimits(c: Config, total: U64)
    requires Validate(c).Valid? && c.limitMiB != 0
    ensures GetChecker(c, total).allocLimit == c.limitMiB * 1_048_576
    ensures c.spikeMiB != 0 ==> GetChecker(c, total).SoftLimit() == (c.limitMiB - c.spikeMiB) * 1_048_576
    ensures c.spikeMiB == 0 ==>
              GetChecker(c, total).SoftLimit() == c.limitMiB * 1_048_576 - c.limitMiB * 1_048_576 / 5
  {
    assert c.limitMiB * MIB < TWO_64 && c.spikeMiB * MIB < TWO_64;
    SoftLimitBelow(GetChecker(c, total));
  }

  /** A limit given in percent of memory, where the products fit in 64 bits. */
  lemma PercentageLimits(c: Config, total: U64)
    requires Validate(c).Valid? && c.limitMiB == 0 && c.limitPercentage * total < TWO_64
    ensures GetChecker(c, total).allocLimit == c.limitPercentage * total / 100
    ensures var hard, spike := c.limitPercentage * total / 100, c.spikePercentage * total / 100;
            GetChecker(c, total).SoftLimit() == hard - if spike == 0 then hard / 5 else spike
  {
    ProductOrdered(c.spikePercentage, c.limitPercentage, total);
    PercentFits(c.limitPercentage, total);
    PercentFits(c.spikePercentage, total);
    SpikeBelowLimit(c, total);
    SoftLimitBelow(GetChecker(c, total));
  }

  lemma PercentFits(percentage: U64, total: U64)
    requires percentage * total < TWO_64
    ensures Percent(percentage, total) == percentage * total / 100
  {
    ProductOrdered(0, percentage, total);
  }

  lemma PercentageOrdered(total: U64, spike: U64, limit: U64)
    requires spike <= limit && limit * total < TWO_64
    ensures Percent(spike, total) <= Percent(limit, total)
  {
    ProductOrdered(spike, limit, total);
    WrappedOrdered(spike * total, limit * total);
  }

  lemma ProductOrdered(a: nat, b: nat, c: nat)
    requires a <= b
    ensures 0 <= a * c <= b * c
  {
  }

  lemma WrappedOrdered(a: nat, b: nat)
    requires a <= b < TWO_64
    ensures a % TWO_64 / 100 <= b % TWO_64 / 100
  {
  }

  lemma SpikeBelowLimit(c: Config, total: U64)
    requires Validate(c).Valid?
    requires c.limitMiB == 0 ==> c.limitPercentage * total < TWO_64
    ensures GetChecker(c, total).spikeLimit <= GetChecker(c, total).allocLimit
  {
    if c.limitMiB == 0 {
      PercentageOrdered(total, c.spikePercentage, c.limitPercentage);
    }
  }

  /** For a valid configuration whose percentage product fits in 64 bits the soft limit does not wrap: it lies
      at or below the hard limit, so whatever is above the hard limit is above the soft one. */
  lemma SafeThresholds(c: Config, total: U64, alloc: U64)
    requires Validate(c).Valid?
    requires c.limitMiB == 0 ==> c.limitPercentage * total < TWO_64
    ensures GetChecker(c, total).SoftLimit() == GetChecker(c, total).allocLimit - GetChecker(c, total).spikeLimit
    ensures GetChecker(c, total).AboveHard(alloc) ==> GetChecker(c, total).AboveSoft(alloc)
  {
    SpikeBelowLimit(c, total);
    SoftLimitBelow(GetChecker(c, total));
  }

  lemma SoftLimitBelow(ch: Checker)
    requires ch.spikeLimit <= ch.allocLimit
    ensures ch.SoftLimit() == ch.allocLimit - ch.spikeLimit
  {
  }

  lemma OrderedExactly(ch: Checker)
    ensures (forall alloc: U64 :: ch.AboveHard(alloc) ==> ch.AboveSoft(alloc)) <==> ch.spikeLimit <= ch.allocLimit
  {
    if ch.spikeLimit <= ch.allocLimit {
      SoftLimitBelow(ch);
    } else {
      assert ch.AboveHard(ch.allocLimit) && !ch.AboveSoft(ch.allocLimit);
    }
  }

  /** The wrap-around does not put the spike limit above the limit; a fixed limit is never affected. */
  predicate PercentagesOrdered(c: Config, total: U64) {
    c.limitMiB == 0 ==> Percent(c.spikePercentage, total) <= Percent(c.limitPercentage, total)
  }

  /** For a valid configuration and any amount of memory: whatever is above the hard limit is above the soft one if and
      only if the percentages are in order after the wrap-around. */
  lemma ThresholdsOrderedExactly(c: Config, total: U64)
    requires Validate(c).Valid?
    ensures (forall alloc: U64 :: GetChecker(c, total).AboveHard(alloc) ==> GetChecker(c, total).AboveSoft(alloc))
            <==> PercentagesOrdered(c, total)
  {
    OrderedExactly(GetChecker(c, total));
    if c.limitMiB == 0 {
      assert GetChecker(c, total).allocLimit == Percent(c.limitPercentage, total);
    } else {
      assert c.limitMiB * MIB < TWO_64;
    }
  }

  /** A product that does not fit: a valid configuration with memory above its hard limit and below its soft one. */
  lemma ThresholdsWrap()
    ensures var c := Config(1, 0, 0, 0, 0, 0, 0, 100, 50);
            var ch := GetChecker(c, 184467440737095517);
            Validate(c).Valid? && ch.AboveHard(0) && !ch.AboveSoft(0)
  {
    assert 100 * 184467440737095517 == TWO_64 + 84;
    assert 50 * 184467440737095517 == 9223372036854775850;
  }

  // ----- backoff of one path

  /** Go's int64 arithmetic: the low 64 bits, as a signed number. */
  function Wrap(x: int): Duration {
    (x + TWO_63) % TWO_64 - TWO_63
  }

  /** The next interval after a forced collection that reclaimed too little. */
  function NextBackoff(current: Duration, configMin: Duration, configMax: Duration, wait: Duration): Duration {
    if configMax == 0 then configMin
    else
      var floor := Max(configMin, wait);
      var cap := Max(configMax, configMin);
      Min(Wrap(Max(current, floor) * 2), cap)
  }

  /** The interval after k such collections in a row, starting from none. */
  function Interval(k: nat, configMin: Duration, configMax: Duration, wait: Duration): Duration {
    if k == 0 then 0 else NextBackoff(Interval(k - 1, configMin, configMax, wait), configMin, configMax, wait)
  }

  /** min(2^k * floor, cap) */
  function ClosedForm(k: nat, floor: int, cap: int): int {
    Min(Pow2(k) * floor, cap)
  }

  /** Doubling never leaves 64 bits. */
  predicate NoOverflow(floor: int, cap: int) {
    floor < TWO_62 && (floor == 0 || cap < TWO_62)
  }

  lemma Pow2Grows(k: nat, floor: nat)
    ensures Pow2(k) * floor >= floor && Pow2(k + 1) * floor == 2 * (Pow2(k) * floor)
  {
    assert (2 * Pow2(k)) * floor == 2 * (Pow2(k) * floor);
  }

  lemma WrapDoubled(x: int)
    requires TWO_62 <= x < TWO_63
    ensures Wrap(x * 2) < 0
  {
  }

  lemma ClosedFormStep(k: nat, floor: nat, cap: nat)
    ensures Min(2 * Max(if k == 0 then 0 else ClosedForm(k, floor, cap), floor), cap) == ClosedForm(k + 1, floor, cap)
  {
    Pow2Grows(k, floor);
  }

  lemma ClosedFormRange(k: nat, floor: nat, cap: nat)
    ensures 0 <= ClosedForm(k, floor, cap) <= cap && (floor == 0 ==> ClosedForm(k, floor, cap) == 0)
  {
    Pow2Grows(k, floor);
  }

  lemma DoublingFits(last: int, floor: int, cap: int)
    requires 0 <= last <= cap < TWO_63 && 0 <= floor && NoOverflow(floor, cap) && (floor == 0 ==> last == 0)
    ensures Wrap(Max(last, floor) * 2) == Max(last, floor) * 2
  {
  }

  lemma {:induction false} IntervalClosedForm(k: nat, configMin: Duration, configMax: Duration, wait: Duration)
    requires configMax > 0 && wait >= 0 && k >= 1
    requires NoOverflow(Max(configMin, wait), Max(configMax, configMin))
    ensures Interval(k, configMin, configMax, wait) == ClosedForm(k, Max(configMin, wait), Max(configMax, configMin))
  {
    var floor, cap := Max(configMin, wait), Max(configMax, configMin);
    var last := Interval(k - 1, configMin, configMax, wait);
    if k > 1 {
      IntervalClosedForm(k - 1, configMin, configMax, wait);
      ClosedFormRange(k - 1, floor, cap);
    }
    assert last == if k == 1 then 0 else ClosedForm(k - 1, floor, cap);
    DoublingFits(last, floor, cap);
    ClosedFormStep(k - 1, floor, cap);
  }

  /** How far to double a positive floor to pass 2^62. */
  lemma {:induction false} ReachesTwo62(floor: int, k: nat) returns (n: nat)
    requires 0 < floor < TWO_62 && Pow2(k) * floor < TWO_62
    ensures n > k && TWO_62 <= Pow2(n) * floor < TWO_63
    decreases TWO_62 - Pow2(k) * floor
  {
    Pow2Grows(k, floor);
    if 2 * (Pow2(k) * floor) >= TWO_62 {
      n := k + 1;
    } else {
      n := ReachesTwo62(floor, k + 1);
    }
  }

  /** With its cap enabled, the interval of a path follows min(2^k * floor, cap) through any number of ineffective
      collections if and only if the doubling cannot overflow. */
  lemma BackoffExactly(configMin: Duration, configMax: Duration, wait: Duration)
    requires configMax > 0 && wait >= 0
    ensures (forall k: nat :: k >= 1 ==> FollowsClosedForm(k, configMin, configMax, wait))
            <==> NoOverflow(Max(configMin, wait), Max(configMax, configMin))
  {
    if NoOverflow(Max(configMin, wait), Max(configMax, configMin)) {
      forall k: nat | k >= 1 ensures FollowsClosedForm(k, configMin, configMax, wait) {
        IntervalClosedForm(k, configMin, configMax, wait);
      }
    } else {
      var k := OverflowShows(configMin, configMax, wait);
    }
  }

  predicate FollowsClosedForm(k: nat, configMin: Duration, configMax: Duration, wait: Duration) {
    Interval(k, configMin, configMax, wait) == ClosedForm(k, Max(configMin, wait), Max(configMax, configMin))
  }

  lemma OverflowShows(configMin: Duration, configMax: Duration, wait: Duration) returns (k: nat)
    requires configMax > 0 && wait >= 0
    requires !NoOverflow(Max(configMin, wait), Max(configMax, configMin))
    ensures k >= 1 && !FollowsClosedForm(k, configMin, configMax, wait)
  {
    var floor, cap := Max(configMin, wait), Max(configMax, configMin);
    if floor >= TWO_62 {
      k := 1;
      WrapDoubled(floor);
      assert Interval(0, configMin, configMax, wait) == 0;
    } else {
      var n := ReachesTwo62(floor, 0);
      k := n;
      if FollowsClosedForm(n, configMin, configMax, wait) {
        k := n + 1;
        WrapDoubled(ClosedForm(n, floor, cap));
      }
    }
    ClosedFormRange(k, floor, cap);
  }

  /** A valid configuration with caps of 2^62 nanoseconds and a second between checks: the closed form fails. */
  lemma BackoffOverflows() returns (k: nat)
    ensures var c := Config(1_000_000_000, 0, 0, TWO_62, TWO_62, 1, 0, 0, 0);
            Validate(c).Valid? && k >= 1 && !FollowsClosedForm(k, c.minSoft, c.maxSoft, 950_000_000)
  {
    k := OverflowShows(0, TWO_62, 950_000_000);
  }

  // ----- the check as a state machine

  /** What a limiter is built with; wait is the fraction of the check interval that the floors use. */
  datatype Setup = Setup(
    checker: Checker,
    wait: Duration,
    minSoft: Duration,
    minHard: Duration,
    maxSoft: Duration,
    maxHard: Duration)

  datatype State = State(softInterval: Duration, hardInterval: Duration, lastGC: int, lastAlloc: U64, refuse: bool)

  datatype Path = SoftPath | HardPath

  /** What a check reads: memory in use, the time, and, if it forces a collection, the time and memory after it. */
  datatype Tick = Tick(alloc: U64, now: int, gcDone: int, after: U64)

  const EFFECTIVENESS_PERCENT := 5

  /** Memory is below the soft limit, or shrank by the effectiveness threshold; the product is one of uint64. */
  predicate Effective(su: Setup, lastAlloc: U64, alloc: U64) {
    !su.checker.AboveSoft(alloc) || alloc <= (lastAlloc * (100 - EFFECTIVENESS_PERCENT)) % TWO_64 / 100
  }

  /** As long as the product fits, a collection is effective if memory is below the soft limit afterwards or shrank by
      5 percent. */
  lemma EffectiveExactly(su: Setup, lastAlloc: U64, alloc: U64)
    requires lastAlloc * 95 < TWO_64
    ensures Effective(su, lastAlloc, alloc) <==> alloc < su.checker.SoftLimit() || 100 * alloc <= 95 * lastAlloc
  {
    assert (lastAlloc * 95) % TWO_64 == lastAlloc * 95;
  }

  function Observe(su: Setup, s: State, alloc: U64, didGC: bool): State {
    var seen := s.(lastAlloc := alloc);
    if Effective(su, s.lastAlloc, alloc) then seen.(softInterval := 0, hardInterval := 0)
    else if !didGC then seen
    else seen.(softInterval := NextBackoff(s.softInterval, su.minSoft, su.maxSoft, su.wait),
               hardInterval := NextBackoff(s.hardInterval, su.minHard, su.maxHard, su.wait))
  }

  function PathOf(su: Setup, t: Tick): Path {
    if su.checker.AboveHard(t.alloc) then HardPath else SoftPath
  }

  function ConfigMin(su: Setup, p: Path): Duration {
    if p.HardPath? then su.minHard else su.minSoft
  }

  function ConfigMax(su: Setup, p: Path): Duration {
    if p.HardPath? then su.maxHard else su.maxSoft
  }

  function Gate(su: Setup, s: State, p: Path): Duration {
    Max(ConfigMin(su, p), if p.HardPath? then s.hardInterval else s.softInterval)
  }

  /** Whether a check that starts in s forces a collection. */
  predicate Forces(su: Setup, s: State, t: Tick) {
    var seen := Observe(su, s, t.alloc, false);
    su.checker.AboveSoft(t.alloc) && t.now - s.lastGC > Gate(su, seen, PathOf(su, t))
  }

  function Check(su: Setup, s: State, t: Tick): State {
    var seen := Observe(su, s, t.alloc, false);
    if Forces(su, s, t) then
      Observe(su, seen.(lastGC := t.gcDone), t.after, true).(refuse := su.checker.AboveSoft(t.after))
    else seen.(refuse := su.checker.AboveSoft(t.alloc))
  }

  // ----- runs

  function Run(su: Setup, s: State, ticks: seq<Tick>): State
    decreases ticks
  {
    if ticks == [] then s else Run(su, Check(su, s, ticks[0]), ticks[1..])
  }

  /** The number of ineffective forced collections since memory last came down, after a check. */
  function NextStreak(su: Setup, s: State, streak: nat, t: Tick): nat {
    var kept := if Effective(su, s.lastAlloc, t.alloc) then 0 else streak;
    if !Forces(su, s, t) then kept
    else if Effective(su, t.alloc, t.after) then 0
    else kept + 1
  }

  /** The same over a run. */
  function StreakAfter(su: Setup, s: State, streak: nat, ticks: seq<Tick>): nat
    decreases ticks
  {
    if ticks == [] then streak
    else StreakAfter(su, Check(su, s, ticks[0]), NextStreak(su, s, streak, ticks[0]), ticks[1..])
  }

  /** A forced collection: the memory reading it was forced for, when it started and ended, the gate it had to pass, and
      the streak before it. */
  datatype GC = GC(alloc: U64, start: int, done: int, gate: Duration, streak: nat)

  function Collections(su: Setup, s: State, streak: nat, ticks: seq<Tick>): seq<GC>
    decreases ticks
  {
    if ticks == [] then []
    else
      var t := ticks[0];
      var here :=
        if !Forces(su, s, t) then []
        else
          var seen := Observe(su, s, t.alloc, false);
          var kept := if Effective(su, s.lastAlloc, t.alloc) then 0 else streak;
          [GC(t.alloc, t.now, t.gcDone, Gate(su, seen, PathOf(su, t)), kept)];
      here + Collections(su, Check(su, s, t), NextStreak(su, s, streak, t), ticks[1..])
  }

  /** Both intervals are what as many ineffective collections make of them. */
  predicate InStep(su: Setup, s: State, streak: nat) {
    && s.softInterval == Interval(streak, su.minSoft, su.maxSoft, su.wait)
    && s.hardInterval == Interval(streak, su.minHard, su.maxHard, su.wait)
  }

  lemma CheckKeepsStep(su: Setup, s: State, streak: nat, t: Tick)
    requires InStep(su, s, streak)
    ensures InStep(su, Check(su, s, t), NextStreak(su, s, streak, t))
    ensures InStep(su, Observe(su, s, t.alloc, false), if Effective(su, s.lastAlloc, t.alloc) then 0 else streak)
  {
  }

  /** How long after the end of the last collection the next one may start: at or above the hard limit by the settings
      of that limit, below it by those of the soft one, the larger of the minimum and the backoff of the streak. */
  function DueAfter(su: Setup, alloc: U64, streak: nat): Duration {
    if alloc >= su.checker.allocLimit then Max(su.minHard, Interval(streak, su.minHard, su.maxHard, su.wait))
    else Max(su.minSoft, Interval(streak, su.minSoft, su.maxSoft, su.wait))
  }

  /** The streak a check starts with, once it has seen the memory in use. */
  function StreakSeen(su: Setup, s: State, streak: nat, t: Tick): nat {
    if Effective(su, s.lastAlloc, t.alloc) then 0 else streak
  }

  /** A check forces a collection if and only if memory is at or above the soft limit and the last one ended long enough
      ago for the side of the hard limit that memory is on. */
  lemma ForcesExactly(su: Setup, s: State, streak: nat, t: Tick)
    requires InStep(su, s, streak)
    ensures Forces(su, s, t) <==>
            t.alloc >= su.checker.SoftLimit() && t.now - s.lastGC > DueAfter(su, t.alloc, StreakSeen(su, s, streak, t))
    ensures Check(su, s, t).lastGC == if Forces(su, s, t) then t.gcDone else s.lastGC
    ensures Check(su, s, t).lastAlloc == if Forces(su, s, t) then t.after else t.alloc
  {
  }

  /** Every tick after every run: it adds a collection if and only if that is due on its reading, with the gate of its
      side of the hard limit. */
  lemma {:induction false} NextTick(su: Setup, s: State, streak: nat, ticks: seq<Tick>, t: Tick)
    requires InStep(su, s, streak)
    ensures InStep(su, Run(su, s, ticks), StreakAfter(su, s, streak, ticks))
    ensures var s', k := Run(su, s, ticks), StreakAfter(su, s, streak, ticks);
            var gate := DueAfter(su, t.alloc, StreakSeen(su, s', k, t));
            Collections(su, s, streak, ticks + [t]) == Collections(su, s, streak, ticks) +
              if t.alloc >= su.checker.SoftLimit() && t.now - s'.lastGC > gate
              then [GC(t.alloc, t.now, t.gcDone, gate, StreakSeen(su, s', k, t))] else []
    decreases ticks
  {
    if ticks == [] {
      OneTick(su, s, streak, t);
      assert ticks + [t] == [t];
    } else {
      var first := ticks[0];
      assert (ticks + [t])[0] == first && (ticks + [t])[1..] == ticks[1..] + [t];
      CheckKeepsStep(su, s, streak, first);
      NextTick(su, Check(su, s, first), NextStreak(su, s, streak, first), ticks[1..], t);
    }
  }

  lemma OneTick(su: Setup, s: State, streak: nat, t: Tick)
    requires InStep(su, s, streak)
    ensures var gate := DueAfter(su, t.alloc, StreakSeen(su, s, streak, t));
            Collections(su, s, streak, [t]) ==
              if t.alloc >= su.checker.SoftLimit() && t.now - s.lastGC > gate
              then [GC(t.alloc, t.now, t.gcDone, gate, StreakSeen(su, s, streak, t))] else []
  {
    ForcesExactly(su, s, streak, t);
    CheckKeepsStep(su, s, streak, t);
    assert Collections(su, Check(su, s, t), NextStreak(su, s, streak, t), [t][1..]) == [];
  }

  /** A run remembers when its last collection ended. */
  lemma {:induction false} LastCollection(su: Setup, s: State, streak: nat, ticks: seq<Tick>)
    ensures var gcs := Collections(su, s, streak, ticks);
            Run(su, s, ticks).lastGC == if gcs == [] then s.lastGC else gcs[|gcs| - 1].done
    decreases ticks
  {
    if ticks != [] {
      LastCollection(su, Check(su, s, ticks[0]), NextStreak(su, s, streak, ticks[0]), ticks[1..]);
    }
  }

  /** Every forced collection of a run starts later than its gate after the previous one ended, that gate is the one of
      the side of the hard limit its reading is on, and a streak is broken or grows by one. */
  ghost predicate Spaced(su: Setup, lastDone: int, streak: nat, gcs: seq<GC>)
    decreases gcs
  {
    gcs == [] ||
    var g := gcs[0];
    && g.start - lastDone > g.gate
    && g.alloc >= su.checker.SoftLimit() && g.gate == DueAfter(su, g.alloc, g.streak)
    && (g.streak == 0 || g.streak == streak)
    && Spaced(su, g.done, g.streak + 1, gcs[1..])
  }

  lemma SpacedWeakens(su: Setup, lastDone: int, streak: nat, gcs: seq<GC>)
    requires Spaced(su, lastDone, 0, gcs)
    ensures Spaced(su, lastDone, streak, gcs)
  {
  }

  lemma {:induction false} RunSpaced(su: Setup, s: State, streak: nat, ticks: seq<Tick>)
    requires InStep(su, s, streak)
    ensures Spaced(su, s.lastGC, streak, Collections(su, s, streak, ticks))
    decreases ticks
  {
    if ticks != [] {
      var t := ticks[0];
      var s', streak' := Check(su, s, t), NextStreak(su, s, streak, t);
      CheckKeepsStep(su, s, streak, t);
      RunSpaced(su, s', streak', ticks[1..]);
      var rest := Collections(su, s', streak', ticks[1..]);
      if Forces(su, s, t) {
        var gcs := Collections(su, s, streak, ticks);
        assert gcs[1..] == rest;
        if streak' == 0 {
          SpacedWeakens(su, t.gcDone, gcs[0].streak + 1, rest);
        }
      } else {
        assert [] + rest == rest;
        if streak' == 0 {
          SpacedWeakens(su, s.lastGC, streak, rest);
        }
      }
    }
  }

  /** The gate of a path never exceeds the larger of its configured bounds. */
  lemma GateBound(k: nat, configMin: Duration, configMax: Duration, wait: Duration)
    requires configMax >= 0
    ensures Max(configMin, Interval(k, configMin, configMax, wait)) <= Max(configMin, configMax)
  {
  }

  /** With the cap disabled the interval of a streak is the configured minimum; with the cap enabled and no overflow it
      is the closed form of the streak. */
  lemma GateClosedForm(streak: nat, configMin: Duration, configMax: Duration, wait: Duration)
    requires configMax > 0 ==> wait >= 0 && NoOverflow(Max(configMin, wait), Max(configMax, configMin))
    requires configMax >= 0
    ensures Interval(streak, configMin, configMax, wait) ==
            if streak == 0 then 0
            else if configMax == 0 then configMin
            else Min(Pow2(streak) * Max(configMin, wait), Max(configMax, configMin))
  {
    if streak > 0 && configMax > 0 {
      IntervalClosedForm(streak, configMin, configMax, wait);
    }
  }

  /** After every check of every run data is refused exactly when the last memory reading is at or above the soft
      limit. */
  lemma {:induction false} RefusesExactly(su: Setup, s: State, ticks: seq<Tick>)
    requires ticks != []
    ensures Run(su, s, ticks).refuse <==> su.checker.AboveSoft(Run(su, s, ticks).lastAlloc)
    decreases ticks
  {
    if |ticks| > 1 {
      RefusesExactly(su, Check(su, s, ticks[0]), ticks[1..]);
    } else {
      assert Run(su, s, ticks) == Check(su, s, ticks[0]);
    }
  }

  /** A limiter starts with both intervals at zero; in every run from there collections are spaced as above. */
  lemma EveryRunSpaced(su: Setup, start: int, ticks: seq<Tick>)
    ensures Spaced(su, start, 0, Collections(su, State(0, 0, start, 0, false), 0, ticks))
  {
    RunSpaced(su, State(0, 0, start, 0, false), 0, ticks);
  }

  // ----- the limiter

  class MemoryLimiter {
    const setup: Setup

    var mustRefuse: bool
    var currentSoftGCInterval: Duration
    var currentHardGCInterval: Duration
    var lastGCDone: int
    var lastAlloc: U64

    constructor (c: Config, total: U64, wait: Duration, now: int)
      ensures setup == Setup(GetChecker(c, total), wait, c.minSoft, c.minHard, c.maxSoft, c.maxHard)
      ensures Now() == State(0, 0, now, 0, false)
    {
      setup := Setup(GetChecker(c, total), wait, c.minSoft, c.minHard, c.maxSoft, c.maxHard);
      mustRefuse := false;
      currentSoftGCInterval, currentHardGCInterval := 0, 0;
      lastGCDone, lastAlloc := now, 0;
    }

    function Now(): State
      reads this
    {
      State(currentSoftGCInterval, currentHardGCInterval, lastGCDone, lastAlloc, mustRefuse)
    }

    method CheckLimitAndBackoff(alloc: U64, didGC: bool) returns (aboveSoftLimit: bool)
      modifies this
      ensures aboveSoftLimit == setup.checker.AboveSoft(alloc)
      ensures Now() == Observe(setup, old(Now()), alloc, didGC)
    {
      aboveSoftLimit := setup.checker.AboveSoft(alloc);
      var gcWasEffective := !aboveSoftLimit || alloc <= (lastAlloc * (100 - EFFECTIVENESS_PERCENT)) % TWO_64 / 100;
      lastAlloc := alloc;
      if gcWasEffective {
        currentSoftGCInterval := 0;
        currentHardGCInterval := 0;
        return;
      }
      if !didGC {
        return;
      }
      currentSoftGCInterval := NextBackoff(currentSoftGCInterval, setup.minSoft, setup.maxSoft, setup.wait);
      currentHardGCInterval := NextBackoff(currentHardGCInterval, setup.minHard, setup.maxHard, setup.wait);
    }

    method CheckMemLimits(t: Tick)
      modifies this
      ensures Now() == Check(setup, old(Now()), t)
      ensures forall streak {:trigger InStep(setup, old(Now()), streak)} :: InStep(setup, old(Now()), streak) ==>
                var gate := DueAfter(setup, t.alloc, StreakSeen(setup, old(Now()), streak, t));
                var due := t.alloc >= setup.checker.SoftLimit() && t.now - old(lastGCDone) > gate;
                && lastGCDone == (if due then t.gcDone else old(lastGCDone))
                && lastAlloc == if due then t.after else t.alloc
      ensures mustRefuse <==> lastAlloc >= setup.checker.SoftLimit()
    {
      forall streak | InStep(setup, Now(), streak)
        ensures var gate := DueAfter(setup, t.alloc, StreakSeen(setup, Now(), streak, t));
                Forces(setup, Now(), t) <==> t.alloc >= setup.checker.SoftLimit() && t.now - lastGCDone > gate
      {
        ForcesExactly(setup, Now(), streak, t);
      }
      var aboveSoftLimit := CheckLimitAndBackoff(t.alloc, false);
      if !aboveSoftLimit {
        mustRefuse := false;
        return;
      }
      if setup.checker.AboveHard(t.alloc) {
        var gateInterval := Max(setup.minHard, currentHardGCInterval);
        if t.now - lastGCDone > gateInterval {
          lastGCDone := t.gcDone;
          aboveSoftLimit := CheckLimitAndBackoff(t.after, true);
        }
      } else {
        var gateInterval := Max(setup.minSoft, currentSoftGCInterval);
        if t.now - lastGCDone > gateInterval {
          lastGCDone := t.gcDone;
          aboveSoftLimit := CheckLimitAndBackoff(t.after, true);
        }
      }
      mustRefuse := aboveSoftLimit;
    }

    /** Any number of ticks. */
    method Loop(ticks: seq<Tick>)
      modifies this
      ensures Now() == Run(setup, old(Now()), ticks)
      ensures ticks != [] ==> (mustRefuse <==> setup.checker.AboveSoft(lastAlloc))
    {
      for i := 0 to |ticks|
        invariant Run(setup, old(Now()), ticks) == Run(setup, Now(), ticks[i..])
      {
        assert ticks[i..][1..] == ticks[i + 1..];
        CheckMemLimits(ticks[i]);
      }
      if ticks != [] {
        RefusesExactly(setup, old(Now()), ticks);
      }
    }
  }
}
