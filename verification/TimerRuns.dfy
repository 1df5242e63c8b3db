/**
 * Whole runs of the controller: any interleaving of `tmrReset` calls and 5 ms ticks.
 * Each critical section runs under the controller's mutex, so a run is a sequence.
 */
module TimerRuns {
  import opened CInt
  import opened Deadlines
  import opened ExactExpiry
  import opened WheelModel
  import opened WheelInvariant
  import opened DeadlineStore

  /** The controller: the wheel and the divider from ticks to periods. */
  datatype Ctrl = Ctrl(wheel: Wheel, resolution: int, maxTicks: int, ticks: int)

  datatype Op = Arm(handle: int, mseconds: int, fp: int, param: int) | Tick

  ghost predicate ValidCtrl(c: Ctrl) {
    Inv(c.wheel, {}) && 0 < c.resolution && 0 < c.maxTicks && 0 <= c.ticks
  }

  const MSECONDS_PER_TICK := 5

  /** The resolution and the wheel size `tmrInit` settles on. */
  function InitResolution(resolution: int): (r: int)
    ensures MSECONDS_PER_TICK <= r
  {
    if resolution < MSECONDS_PER_TICK then MSECONDS_PER_TICK else resolution
  }

  function InitPeriods(resolution: int, longest: int): (n: int)
    ensures 10 <= n
  {
    var q := TruncDiv(longest, InitResolution(resolution));
    if q < 10 then 10 else q
  }

  /** `tmrInit`; `ticks` is the random initial phase. */
  function Init(maxNumOfTmrs: int, resolution: int, longest: int, ticks: nat): Ctrl
    requires -8 <= maxNumOfTmrs
  {
    var r := InitResolution(resolution);
    var n := InitPeriods(resolution, longest);
    var size := maxNumOfTmrs + 10;
    Ctrl(Wheel(n, size, 0, 0, seq(n, _ => []), seq(size, b => b)), r, r / MSECONDS_PER_TICK, ticks)
  }

  /** What `tmrInit` settles on, from its arguments: the numbers of the C code. */
  lemma InitSettles(maxNumOfTmrs: int, resolution: int, longest: int, ticks: nat)
    requires -8 <= maxNumOfTmrs
    ensures var c := Init(maxNumOfTmrs, resolution, longest, ticks);
            && c.resolution == (if resolution < 5 then 5 else resolution)
            && c.resolution - 5 < 5 * c.maxTicks <= c.resolution
            && c.ticks == ticks && c.wheel.now == 0 && c.wheel.size == maxNumOfTmrs + 10
            && |c.wheel.slots| == c.wheel.n
            && (longest < 10 * c.resolution ==> c.wheel.n == 10)
            && (10 * c.resolution <= longest ==>
                  10 <= c.wheel.n && c.wheel.n * c.resolution <= longest < (c.wheel.n + 1) * c.resolution)
  {
    var r := InitResolution(resolution);
    DivMod(r, MSECONDS_PER_TICK);
    PeriodsSettle(longest, r);
  }

  lemma PeriodsSettle(longest: int, r: int)
    requires 0 < r
    ensures longest < 10 * r ==> TruncDiv(longest, r) < 10
    ensures 10 * r <= longest ==> 10 <= TruncDiv(longest, r) && TruncDiv(longest, r) * r <= longest < (TruncDiv(longest, r) + 1) * r
  {
    if 0 <= longest {
      DivMod(longest, r);
      DivModUnique(10 * r, r, 10, 0);
      if 10 * r <= longest {
        DivMonotone(10 * r, longest, r);
      } else {
        DivModUnique(9 * r + (r - 1), r, 9, r - 1);
        DivMonotone(longest, 9 * r + (r - 1), r);
      }
    }
  }

  /** One `tmrReset` call or one `timerLoopFunc` call, with what it reports. */
  ghost function Step(c: Ctrl, op: Op): (Ctrl, seq<Firing>)
    requires ValidCtrl(c)
  {
    match op
    case Arm(handle, mseconds, fp, param) =>
      (c.(wheel := Reset(c.wheel, handle, TruncDiv(mseconds, c.resolution), fp, param).0), [])
    case Tick =>
      if c.maxTicks <= c.ticks + 1
      then (c.(wheel := Process(c.wheel), ticks := 0), Fired(c.wheel))
      else (c.(ticks := c.ticks + 1), [])
  }

  lemma StepKeepsValid(c: Ctrl, op: Op)
    requires ValidCtrl(c)
    ensures ValidCtrl(Step(c, op).0)
  {
    match op
    case Arm(handle, mseconds, fp, param) =>
      ResetKeepsInv(c.wheel, handle, TruncDiv(mseconds, c.resolution), fp, param);
    case Tick =>
      if c.maxTicks <= c.ticks + 1 { ProcessKeepsInv(c.wheel); }
  }

  ghost function Run(c: Ctrl, ops: seq<Op>): (r: (Ctrl, seq<Firing>))
    requires ValidCtrl(c)
    ensures ValidCtrl(r.0)
    ensures r.0.wheel.n == c.wheel.n && r.0.wheel.size == c.wheel.size
    ensures r.0.resolution == c.resolution && r.0.maxTicks == c.maxTicks
    decreases |ops|
  {
    if ops == [] then (c, [])
    else
      StepKeepsValid(c, ops[0]);
      var (c', log) := Step(c, ops[0]);
      var (c'', rest) := Run(c', ops[1..]);
      (c'', log + rest)
  }

  lemma {:induction false} TotalOfEmpty(slots: seq<seq<Timer>>)
    requires forall i :: 0 <= i < |slots| ==> slots[i] == []
    ensures Total(slots) == 0
  {
    if slots != [] { TotalOfEmpty(slots[1..]); }
  }

  lemma InitIsValid(maxNumOfTmrs: int, resolution: int, longest: int, ticks: nat)
    requires -8 <= maxNumOfTmrs
    requires InitPeriods(resolution, longest) <= 0x7FFF_FFFF
    ensures ValidCtrl(Init(maxNumOfTmrs, resolution, longest, ticks))
    ensures Store(Init(maxNumOfTmrs, resolution, longest, ticks).wheel) == {}
  {
    var w := Init(maxNumOfTmrs, resolution, longest, ticks).wheel;
    TotalOfEmpty(w.slots);
    forall b: nat
      ensures b < w.size <==> b in w.free
    {
      if b < w.size { assert w.free[b] == b; }
    }
  }

  /**
   * Conservation over whole runs: the pool and the lists share the blocks, none is lost,
   * none is in both.
   */
  lemma BlocksAreConserved(maxNumOfTmrs: int, resolution: int, longest: int, ticks: nat, ops: seq<Op>)
    requires -8 <= maxNumOfTmrs
    requires InitPeriods(resolution, longest) <= 0x7FFF_FFFF
    ensures ValidCtrl(Init(maxNumOfTmrs, resolution, longest, ticks))
    ensures var w := Run(Init(maxNumOfTmrs, resolution, longest, ticks), ops).0.wheel;
            Total(w.slots) + |w.free| == maxNumOfTmrs + 10
            && Partition(w, {})
            && w.size == maxNumOfTmrs + 10
  {
    InitIsValid(maxNumOfTmrs, resolution, longest, ticks);
    assert Inv(Run(Init(maxNumOfTmrs, resolution, longest, ticks), ops).0.wheel, {});
  }

  /** How many ticks a sequence of operations contains. */
  function Ticks(ops: seq<Op>): nat {
    if ops == [] then 0 else (if ops[0].Tick? then 1 else 0) + Ticks(ops[1..])
  }

  /** Ticks up to and including the one that processes the next period. */
  function FirstTick(maxTicks: int, ticks: int): (k: nat)
    requires 0 < maxTicks && 0 <= ticks
    ensures 1 <= k <= maxTicks
  {
    if maxTicks <= ticks + 1 then 1 else maxTicks - ticks
  }

  /** Ticks up to and including the one that processes the period `periods` from now. */
  function TicksUntil(maxTicks: int, ticks: int, periods: nat): (k: nat)
    requires 0 < maxTicks && 0 <= ticks
    ensures 1 <= k
  {
    if periods == 0 then FirstTick(maxTicks, ticks)
    else maxTicks + TicksUntil(maxTicks, ticks, periods - 1)
  }

  lemma {:induction false} TicksUntilClosedForm(maxTicks: int, ticks: int, periods: nat)
    requires 0 < maxTicks && 0 <= ticks
    ensures TicksUntil(maxTicks, ticks, periods) == FirstTick(maxTicks, ticks) + periods * maxTicks
  {
    if periods != 0 {
      TicksUntilClosedForm(maxTicks, ticks, periods - 1);
      assert periods * maxTicks == maxTicks + (periods - 1) * maxTicks;
    }
  }

  lemma {:induction false} TicksCountDown(maxTicks: int, ticks: int, periods: nat)
    requires 0 < maxTicks && 0 <= ticks
    ensures if maxTicks <= ticks + 1
            then 0 < periods ==> TicksUntil(maxTicks, 0, periods - 1) == TicksUntil(maxTicks, ticks, periods) - 1
            else TicksUntil(maxTicks, ticks + 1, periods) == TicksUntil(maxTicks, ticks, periods) - 1
  {
    if periods != 0 {
      TicksCountDown(maxTicks, ticks, periods - 1);
    }
  }

  /**
   * The clock over any run, with or without pending timers: the divider counts every
   * tick, the first period ends when it is full, every later one after `maxTicks` more.
   */
  lemma {:induction false} ClockAfterRun(c: Ctrl, ops: seq<Op>)
    requires ValidCtrl(c)
    ensures var r, t := Run(c, ops).0, Ticks(ops);
            var first := if c.maxTicks <= c.ticks + 1 then 1 else c.maxTicks - c.ticks;
            if t < first
            then r.wheel.now == c.wheel.now && r.ticks == c.ticks + t
            else r.wheel.now == c.wheel.now + 1 + (t - first) / c.maxTicks && r.ticks == (t - first) % c.maxTicks
    decreases |ops|
  {
    hide ValidCtrl, Reset, Process, Fired;
    if ops != [] {
      StepKeepsValid(c, ops[0]);
      StepOfClock(c, ops[0]);
      var c1, t := Step(c, ops[0]).0, Ticks(ops[1..]);
      ClockAfterRun(c1, ops[1..]);
      assert Run(c, ops).0 == Run(c1, ops[1..]).0;
      if ops[0].Tick? && c.maxTicks <= c.ticks + 1 { PeriodsAfterFirst(t, c.maxTicks); }
    }
  }

  /** What one step does to the clock. */
  lemma StepOfClock(c: Ctrl, op: Op)
    requires ValidCtrl(c)
    ensures 0 < c.maxTicks && 0 <= c.ticks
    ensures var r := Step(c, op).0;
            && r.maxTicks == c.maxTicks && r.resolution == c.resolution
            && (op.Arm? ==> r.wheel.now == c.wheel.now && r.ticks == c.ticks)
            && (op.Tick? && c.ticks + 1 < c.maxTicks ==> r.wheel == c.wheel && r.ticks == c.ticks + 1 && Step(c, op).1 == [])
            && (op.Tick? && c.maxTicks <= c.ticks + 1 ==> r.wheel.now == c.wheel.now + 1 && r.ticks == 0)
  {
    hide Inv;
  }

  lemma PeriodsAfterFirst(t: nat, maxTicks: int)
    requires 0 < maxTicks
    ensures t < maxTicks ==> t / maxTicks == 0 && t % maxTicks == t
    ensures maxTicks <= t ==> t / maxTicks == 1 + (t - maxTicks) / maxTicks && t % maxTicks == (t - maxTicks) % maxTicks
  {
    if t < maxTicks { DivModUnique(t, maxTicks, 0, t); } else { ModShift(t - maxTicks, 1, maxTicks); }
  }

  /** When the report of `e` is due, in ticks from the state `c`. */
  function ReportTick(c: Ctrl, e: Armed): (k: nat)
    requires 0 < c.maxTicks && 0 <= c.ticks && c.wheel.now <= e.due
    ensures 1 <= k
  {
    TicksUntil(c.maxTicks, c.ticks, e.due - c.wheel.now)
  }

  /** No operation of the run re-arms `e` while it is pending. */
  ghost predicate Undisturbed(c: Ctrl, ops: seq<Op>, e: Armed)
    requires ValidCtrl(c)
    decreases |ops|
  {
    ops == [] ||
    (StepKeepsValid(c, ops[0]);
     && !(ops[0].Arm? && ops[0].handle == e.block && e in Store(c.wheel))
     && Undisturbed(Step(c, ops[0]).0, ops[1..], e))
  }

  /** The stamp belongs to the past: no pending entry carries it. */
  ghost predicate Gone(c: Ctrl, stamp: nat)
    requires ValidCtrl(c)
  {
    stamp < c.wheel.stamp && forall e :: e in Store(c.wheel) ==> e.stamp != stamp
  }

  lemma ProcessKeepsGone(w: Wheel, stamp: nat)
    requires Inv(w, {}) && forall e :: e in Store(w) ==> e.stamp != stamp
    ensures Inv(Process(w), {})
    ensures forall e :: e in Store(Process(w)) ==> e.stamp != stamp
    ensures forall f :: f in Fired(w) ==> f.stamp != stamp
  {
    ProcessRefinesStore(w);
    forall f | f in Fired(w)
      ensures f.stamp != stamp
    {
      FiredAreTheDue(w, f);
    }
  }

  lemma StepKeepsGone(c: Ctrl, op: Op, stamp: nat)
    requires ValidCtrl(c) && Gone(c, stamp)
    ensures ValidCtrl(Step(c, op).0) && Gone(Step(c, op).0, stamp)
    ensures forall f :: f in Step(c, op).1 ==> f.stamp != stamp
  {
    match op
    case Arm(handle, mseconds, fp, param) =>
      StepKeepsValid(c, op);
      ResetRefinesStore(c.wheel, handle, TruncDiv(mseconds, c.resolution), fp, param);
    case Tick =>
      if c.maxTicks <= c.ticks + 1 {
        ProcessKeepsGone(c.wheel, stamp);
      }
  }

  /** A timer that fired or was re-armed is never reported again. */
  lemma {:induction false} GoneForGood(c: Ctrl, ops: seq<Op>, stamp: nat)
    requires ValidCtrl(c) && Gone(c, stamp)
    ensures Gone(Run(c, ops).0, stamp)
    ensures forall f :: f in Run(c, ops).1 ==> f.stamp != stamp
    decreases |ops|
  {
    if ops != [] {
      StepKeepsGone(c, ops[0], stamp);
      GoneForGood(Step(c, ops[0]).0, ops[1..], stamp);
    }
  }

  /** Arming another timer leaves `e` pending with its deadline. */
  lemma ArmKeepsOthers(c: Ctrl, op: Op, e: Armed)
    requires ValidCtrl(c) && e in Store(c.wheel)
    requires op.Arm? && op.handle != e.block
    ensures e in Store(Step(c, op).0.wheel)
    ensures Step(c, op).0.wheel.now == c.wheel.now
  {
    var p := TruncDiv(op.mseconds, c.resolution);
    if Pending(c.wheel, op.handle) {
      RearmRefinesStore(c.wheel, op.handle, p, op.fp, op.param);
    } else if c.wheel.free == [] {
      ExhaustedResetChangesNothing(c.wheel, op.handle, p, op.fp, op.param);
    } else {
      NewTimerRefinesStore(c.wheel, op.handle, p, op.fp, op.param);
    }
  }

  lemma FiredReportsOnce(w: Wheel, e: Armed)
    requires Inv(w, {}) && e in Store(w) && e.due == w.now
    ensures ReportedOnce(Fired(w), e)
  {
    var log := Fired(w);
    FiredAreTheDue(w, FiringOf(e));
    var j :| 0 <= j < |log| && log[j] == FiringOf(e);
    forall k | 0 <= k < |log| && log[k].stamp == e.stamp
      ensures k == j
    {
      FiredOnce(w, j, k);
    }
  }

  lemma PendingStampsArePast(w: Wheel, e: Armed)
    requires Inv(w, {}) && e in Store(w)
    ensures e.stamp < w.stamp
  {
    var i, x :| 0 <= i < w.n && x in w.slots[i] && e == EntryOf(w, i, x);
    var m :| 0 <= m < |w.slots[i]| && w.slots[i][m] == x;
    assert At(w.slots, i, m);
  }

  /** In the period it is due, an entry is reported once and leaves the store for good. */
  lemma FiresWhenDue(c: Ctrl, e: Armed)
    requires ValidCtrl(c) && e in Store(c.wheel)
    requires c.maxTicks <= c.ticks + 1 && e.due == c.wheel.now
    ensures var (c', log) := Step(c, Tick);
            ValidCtrl(c') && Gone(c', e.stamp) && ReportedOnce(log, e)
  {
    var w := c.wheel;
    ProcessRefinesStore(w);
    FiredReportsOnce(w, e);
    PendingStampsArePast(w, e);
    forall e' | e' in Store(Process(w))
      ensures e'.stamp != e.stamp
    {
      if e'.stamp == e.stamp { StoreKeys(w, e, e'); }
    }
  }

  /** The log reports `e`, in its due period, at exactly one place, and its stamp nowhere else. */
  ghost predicate ReportedOnce(log: seq<Firing>, e: Armed) {
    exists j :: 0 <= j < |log| && log[j] == FiringOf(e)
      && forall k :: 0 <= k < |log| && log[k].stamp == e.stamp ==> k == j
  }

  ghost predicate NotReported(log: seq<Firing>, e: Armed) {
    forall f :: f in log ==> f.stamp != e.stamp
  }

  lemma ReportedOnceInConcat(a: seq<Firing>, b: seq<Firing>, e: Armed)
    ensures ReportedOnce(a, e) && NotReported(b, e) ==> ReportedOnce(a + b, e)
    ensures NotReported(a, e) && ReportedOnce(b, e) ==> ReportedOnce(a + b, e)
  {
    if ReportedOnce(a, e) && NotReported(b, e) {
      var j :| 0 <= j < |a| && a[j] == FiringOf(e)
        && forall k :: 0 <= k < |a| && a[k].stamp == e.stamp ==> k == j;
      assert (a + b)[j] == FiringOf(e);
    }
    if NotReported(a, e) && ReportedOnce(b, e) {
      var j :| 0 <= j < |b| && b[j] == FiringOf(e)
        && forall k :: 0 <= k < |b| && b[k].stamp == e.stamp ==> k == j;
      assert (a + b)[|a| + j] == FiringOf(e);
      assert forall k :: 0 <= k < |a| ==> (a + b)[k] in a;
    }
  }

  /** A period in which `e` is not due neither drops nor reports it. */
  lemma ProcessKeepsOthers(w: Wheel, e: Armed)
    requires Inv(w, {}) && e in Store(w) && e.due != w.now
    ensures Inv(Process(w), {}) && e in Store(Process(w)) && NotReported(Fired(w), e)
  {
    ProcessRefinesStore(w);
    forall f | f in Fired(w)
      ensures f.stamp != e.stamp
    {
      FiredAreTheDue(w, f);
      var e' :| e' in Store(w) && e'.due == w.now && f == FiringOf(e');
      if f.stamp == e.stamp {
        StoreKeys(w, e, e');
      }
    }
  }

  lemma ReportTickCountsDown(c: Ctrl, c': Ctrl, e: Armed)
    requires 0 < c.maxTicks == c'.maxTicks && 0 <= c.ticks && 0 <= c'.ticks && c.wheel.now <= e.due
    requires if c.maxTicks <= c.ticks + 1
             then e.due != c.wheel.now && c'.wheel.now == c.wheel.now + 1 && c'.ticks == 0
             else c'.wheel.now == c.wheel.now && c'.ticks == c.ticks + 1
    ensures ReportTick(c', e) == ReportTick(c, e) - 1
  {
    TicksCountDown(c.maxTicks, c.ticks, e.due - c.wheel.now);
  }

  /** Nothing happens to a pending timer before its tick. */
  lemma TickBeforeDue(c: Ctrl, e: Armed)
    requires ValidCtrl(c) && e in Store(c.wheel)
    requires c.maxTicks <= c.ticks + 1 ==> e.due != c.wheel.now
    ensures var (c', log) := Step(c, Tick);
            ValidCtrl(c') && e in Store(c'.wheel) && NotReported(log, e)
            && ReportTick(c', e) == ReportTick(c, e) - 1
  {
    if c.maxTicks <= c.ticks + 1 {
      ProcessKeepsOthers(c.wheel, e);
    }
    ReportTickCountsDown(c, Step(c, Tick).0, e);
  }

  /**
   * The life of a pending timer over a run with outcome `r` that took `ticks` ticks, the
   * report of `e` being due on tick `due`: before that tick it is pending and
   * unreported; from it on it was reported exactly once, in its due period, and it is gone.
   */
  ghost predicate Lives(r: (Ctrl, seq<Firing>), ticks: nat, due: nat, e: Armed)
    requires ValidCtrl(r.0)
  {
    if ticks < due
    then e in Store(r.0.wheel) && NotReported(r.1, e)
    else Gone(r.0, e.stamp) && ReportedOnce(r.1, e)
  }

  lemma LivesNow(c: Ctrl, e: Armed)
    requires ValidCtrl(c) && e in Store(c.wheel)
    ensures Lives(Run(c, []), 0, ReportTick(c, e), e)
  {}

  lemma RunAfterArm(c: Ctrl, ops: seq<Op>)
    requires ValidCtrl(c) && ops != [] && ops[0].Arm?
    ensures ValidCtrl(Step(c, ops[0]).0)
    ensures Run(c, ops) == Run(Step(c, ops[0]).0, ops[1..])
    ensures Ticks(ops) == Ticks(ops[1..])
    ensures Step(c, ops[0]).0.maxTicks == c.maxTicks && Step(c, ops[0]).0.ticks == c.ticks
  {
    StepKeepsValid(c, ops[0]);
    var log := Run(Step(c, ops[0]).0, ops[1..]).1;
    assert [] + log == log;
  }

  lemma LivesThroughTick(r: (Ctrl, seq<Firing>), ticks: nat, due: nat, log: seq<Firing>, e: Armed)
    requires ValidCtrl(r.0) && NotReported(log, e)
    requires Lives(r, ticks, due, e)
    ensures Lives((r.0, log + r.1), ticks + 1, due + 1, e)
  {
    ReportedOnceInConcat(log, r.1, e);
  }

  lemma LivesToItsTick(c: Ctrl, ops: seq<Op>, e: Armed)
    requires ValidCtrl(c) && e in Store(c.wheel)
    requires ops != [] && ops[0].Tick?
    requires c.maxTicks <= c.ticks + 1 && e.due == c.wheel.now
    ensures Lives(Run(c, ops), Ticks(ops), ReportTick(c, e), e)
  {
    var (c1, log) := Step(c, Tick);
    assert ops[0] == Tick;
    FiresWhenDue(c, e);
    GoneForGood(c1, ops[1..], e.stamp);
    ReportedOnceInConcat(log, Run(c1, ops[1..]).1, e);
  }

  /** Exact expiry over whole runs, for every pending timer that is not re-armed. */
  lemma {:induction false} FiresExactlyOnce(c: Ctrl, ops: seq<Op>, e: Armed)
    requires ValidCtrl(c) && e in Store(c.wheel)
    requires Undisturbed(c, ops, e)
    ensures Lives(Run(c, ops), Ticks(ops), ReportTick(c, e), e)
    decreases |ops|, 1
  {
    if ops == [] {
      LivesNow(c, e);
    } else if ops[0].Arm? {
      StepKeepsValid(c, ops[0]);
      FiresAfterArm(c, ops, e);
    } else if c.maxTicks <= c.ticks + 1 && e.due == c.wheel.now {
      LivesToItsTick(c, ops, e);
    } else {
      FiresAfterTick(c, ops, e);
    }
  }

  lemma {:induction false} FiresAfterArm(c: Ctrl, ops: seq<Op>, e: Armed)
    requires ValidCtrl(c) && e in Store(c.wheel)
    requires ops != [] && ops[0].Arm? && ops[0].handle != e.block
    requires ValidCtrl(Step(c, ops[0]).0) && Undisturbed(Step(c, ops[0]).0, ops[1..], e)
    ensures Lives(Run(c, ops), Ticks(ops), ReportTick(c, e), e)
    decreases |ops|, 0
  {
    hide Reset, Process;
    RunAfterArm(c, ops);
    ArmKeepsOthers(c, ops[0], e);
    var c1, rest := Step(c, ops[0]).0, ops[1..];
    FiresExactlyOnce(c1, rest, e);
    assert ReportTick(c1, e) == ReportTick(c, e);
  }

  lemma {:induction false} FiresAfterTick(c: Ctrl, ops: seq<Op>, e: Armed)
    requires ValidCtrl(c) && e in Store(c.wheel)
    requires ops != [] && ops[0].Tick? && Undisturbed(c, ops, e)
    requires c.maxTicks <= c.ticks + 1 ==> e.due != c.wheel.now
    ensures Lives(Run(c, ops), Ticks(ops), ReportTick(c, e), e)
    decreases |ops|, 0
  {
    TickBeforeDue(c, e);
    assert ops[0] == Tick;
    var (c1, log) := Step(c, Tick);
    FiresExactlyOnce(c1, ops[1..], e);
    LivesThroughTick(Run(c1, ops[1..]), Ticks(ops[1..]), ReportTick(c1, e), log, e);
  }

  /** The entry a successful `tmrReset` creates. */
  ghost function ArmedEntry(c: Ctrl, op: Op): (e: Armed)
    requires ValidCtrl(c) && op.Arm?
    requires Reset(c.wheel, op.handle, TruncDiv(op.mseconds, c.resolution), op.fp, op.param).1 >= 0
  {
    var period := TruncDiv(op.mseconds, c.resolution);
    var h := Reset(c.wheel, op.handle, period, op.fp, op.param).1;
    Armed(h, ExpiryOf(c.wheel.now, period, c.wheel.n), c.wheel.stamp, op.fp, op.param)
  }

  lemma ArmCreatesEntry(c: Ctrl, op: Op)
    requires ValidCtrl(c) && op.Arm?
    requires Pending(c.wheel, op.handle) || c.wheel.free != []
    ensures ValidCtrl(Step(c, op).0)
    ensures Reset(c.wheel, op.handle, TruncDiv(op.mseconds, c.resolution), op.fp, op.param).1 >= 0
    ensures ArmedEntry(c, op) in Store(Step(c, op).0.wheel)
    ensures Step(c, op).0.wheel.now == c.wheel.now
  {
    StepKeepsValid(c, op);
    ResetRefinesStore(c.wheel, op.handle, TruncDiv(op.mseconds, c.resolution), op.fp, op.param);
  }

  /**
   * The guarantee a caller of `tmrReset` gets: the timer of a successful call, unless
   * re-armed while pending, is reported exactly once, with the callback and argument
   * passed in.
   */
  lemma ArmedTimerFiresExactlyOnce(c: Ctrl, op: Op, ops: seq<Op>)
    requires ValidCtrl(c) && op.Arm?
    requires Pending(c.wheel, op.handle) || c.wheel.free != []
    ensures ValidCtrl(Step(c, op).0)
    ensures Reset(c.wheel, op.handle, TruncDiv(op.mseconds, c.resolution), op.fp, op.param).1 >= 0
    ensures var e, c1 := ArmedEntry(c, op), Step(c, op).0;
            c1.wheel.now <= e.due && e.fp == op.fp && e.param == op.param
            && (Undisturbed(c1, ops, e) ==> Lives(Run(c1, ops), Ticks(ops), ReportTick(c1, e), e))
  {
    ArmCreatesEntry(c, op);
    if Undisturbed(Step(c, op).0, ops, ArmedEntry(c, op)) {
      FiresExactlyOnce(Step(c, op).0, ops, ArmedEntry(c, op));
    }
  }

  /**
   * Punctuality of that report: it comes `period` periods after the call if and only if
   * `ArmsExactly` holds at the call, and then on the tick that processes that period.
   */
  lemma ArmedTimerIsOnTime(c: Ctrl, op: Op)
    requires ValidCtrl(c) && op.Arm?
    requires -0x8000_0000 <= op.mseconds < 0x8000_0000
    requires Reset(c.wheel, op.handle, TruncDiv(op.mseconds, c.resolution), op.fp, op.param).1 >= 0
    ensures var period := TruncDiv(op.mseconds, c.resolution);
            var e, c1 := ArmedEntry(c, op), Step(c, op).0;
            (e.due == c.wheel.now + period <==> ArmsExactly(c.wheel.now % U32, period, c.wheel.n))
            && (e.due == c.wheel.now + period ==>
                  ReportTick(c1, e) == TicksUntil(c.maxTicks, c.ticks, period))
  {
    QuotientIsInt(op.mseconds, c.resolution);
    ExactIffArmsExactly(c.wheel.now, TruncDiv(op.mseconds, c.resolution), c.wheel.n);
  }

  /** Where a report can come from: an entry pending at the start, or an arming during the run. */
  ghost predicate Accounted(c: Ctrl, ops: seq<Op>, f: Firing)
    requires ValidCtrl(c)
  {
    || (exists e :: e in Store(c.wheel) && f == FiringOf(e))
    || (exists m :: 0 <= m < |ops| && ArmedBy(c, ops, m, f))
  }

  /** Operation `m` armed a timer whose report is `f`. */
  ghost predicate ArmedBy(c: Ctrl, ops: seq<Op>, m: nat, f: Firing)
    requires ValidCtrl(c) && m < |ops|
  {
    var c' := Run(c, ops[..m]).0;
    && ops[m].Arm?
    && Reset(c'.wheel, ops[m].handle, TruncDiv(ops[m].mseconds, c'.resolution), ops[m].fp, ops[m].param).1 >= 0
    && f == FiringOf(ArmedEntry(c', ops[m]))
  }

  lemma StepAccounts(c: Ctrl, op: Op, f: Firing)
    requires ValidCtrl(c) && ValidCtrl(Step(c, op).0)
    ensures f in Step(c, op).1 ==> exists e :: e in Store(c.wheel) && f == FiringOf(e)
    ensures forall e :: e in Store(Step(c, op).0.wheel) ==>
              e in Store(c.wheel)
              || (op.Arm?
                  && Reset(c.wheel, op.handle, TruncDiv(op.mseconds, c.resolution), op.fp, op.param).1 >= 0
                  && e == ArmedEntry(c, op))
  {
    match op
    case Arm(handle, mseconds, fp, param) =>
      ResetRefinesStore(c.wheel, handle, TruncDiv(mseconds, c.resolution), fp, param);
    case Tick =>
      if c.maxTicks <= c.ticks + 1 {
        ProcessRefinesStore(c.wheel);
        FiredAreTheDue(c.wheel, f);
      }
  }

  lemma ArmedByShifts(c: Ctrl, ops: seq<Op>, m: nat, f: Firing)
    requires ValidCtrl(c) && ops != [] && m < |ops| - 1
    requires ValidCtrl(Step(c, ops[0]).0)
    requires ArmedBy(Step(c, ops[0]).0, ops[1..], m, f)
    ensures ArmedBy(c, ops, m + 1, f)
  {
    assert ops[..m + 1][1..] == ops[1..][..m];
    assert ops[..m + 1][0] == ops[0];
  }

  /**
   * No spurious report: every report of a run is that of a timer pending at its start
   * or armed during it, in the period that arming fixed.
   */
  lemma {:induction false} EveryReportIsAccounted(c: Ctrl, ops: seq<Op>, f: Firing)
    requires ValidCtrl(c) && f in Run(c, ops).1
    ensures Accounted(c, ops, f)
    decreases |ops|
  {
    StepKeepsValid(c, ops[0]);
    var (c1, log) := Step(c, ops[0]);
    StepAccounts(c, ops[0], f);
    if f !in log {
      EveryReportIsAccounted(c1, ops[1..], f);
      if e :| e in Store(c1.wheel) && f == FiringOf(e) {
        if e !in Store(c.wheel) {
          assert ops[..0] == [];
          assert ArmedBy(c, ops, 0, f);
        }
      } else {
        var m :| 0 <= m < |ops[1..]| && ArmedBy(c1, ops[1..], m, f);
        ArmedByShifts(c, ops, m, f);
      }
    }
  }

  // ----- firing order -----

  /** Every delay of the run leads to a cycle count that is not negative in a `short`. */
  predicate ArmsFit(ops: seq<Op>, resolution: int, n: nat)
    requires 0 < resolution && 0 < n
  {
    forall m :: 0 <= m < |ops| && ops[m].Arm? ==> 0 <= ArmedCycle(TruncDiv(ops[m].mseconds, resolution), n)
  }

  lemma StepKeepsCycles(c: Ctrl, op: Op)
    requires ValidCtrl(c) && CyclesNatural(c.wheel) && ArmsFit([op], c.resolution, c.wheel.n)
    ensures CyclesNatural(Step(c, op).0.wheel)
  {
    match op
    case Arm(handle, mseconds, fp, param) =>
      assert [op][0].Arm?;
      ResetKeepsCycles(c.wheel, handle, TruncDiv(mseconds, c.resolution), fp, param);
    case Tick =>
      if c.maxTicks <= c.ticks + 1 { ProcessKeepsCycles(c.wheel); }
  }

  /** No cycle count is ever negative in a run whose delays fit. */
  lemma {:induction false} RunKeepsCycles(c: Ctrl, ops: seq<Op>)
    requires ValidCtrl(c) && CyclesNatural(c.wheel) && ArmsFit(ops, c.resolution, c.wheel.n)
    ensures CyclesNatural(Run(c, ops).0.wheel)
    decreases |ops|
  {
    if ops != [] {
      StepKeepsValid(c, ops[0]);
      StepKeepsCycles(c, ops[0]);
      var c1 := Step(c, ops[0]).0;
      assert c1.wheel.n == c.wheel.n by { assert Run(c, [ops[0]]).0 == c1; }
      RunKeepsCycles(c1, ops[1..]);
    }
  }

  /** The next tick reports its timers in reverse order of their latest arming. */
  ghost predicate LatestFirst(c: Ctrl)
    requires ValidCtrl(c)
  {
    var log := Step(c, Tick).1;
    forall j, k :: 0 <= j < k < |log| ==> log[k].stamp < log[j].stamp
  }

  predicate DelaysWithin(ops: seq<Op>, longest: nat) {
    forall m :: 0 <= m < |ops| && ops[m].Arm? ==> 0 <= ops[m].mseconds <= longest
  }

  /** Firing order over every run from `tmrInit` whose delays fit. */
  lemma RunsReportLatestFirst(maxNumOfTmrs: int, resolution: int, longest: int, ticks: nat, ops: seq<Op>)
    requires -8 <= maxNumOfTmrs && InitPeriods(resolution, longest) <= 0x7FFF_FFFF
    requires ArmsFit(ops, InitResolution(resolution), InitPeriods(resolution, longest))
    ensures ValidCtrl(Init(maxNumOfTmrs, resolution, longest, ticks))
    ensures LatestFirst(Run(Init(maxNumOfTmrs, resolution, longest, ticks), ops).0)
  {
    InitIsValid(maxNumOfTmrs, resolution, longest, ticks);
    RunKeepsCycles(Init(maxNumOfTmrs, resolution, longest, ticks), ops);
    var c := Run(Init(maxNumOfTmrs, resolution, longest, ticks), ops).0;
    forall j: nat, k: nat | j < k < |Step(c, Tick).1|
      ensures Step(c, Tick).1[k].stamp < Step(c, Tick).1[j].stamp
    {
      FiredLatestArmedFirst(c.wheel, j, k);
    }
  }

  /** A delay up to the given number of turns of the wheel has its cycle count. */
  lemma ShortDelaysFit(mseconds: nat, most: nat, resolution: int, n: nat)
    requires 0 < resolution && 0 < n && mseconds <= most && most / resolution / n <= 0x7FFF
    ensures 0 <= ArmedCycle(TruncDiv(mseconds, resolution), n)
  {
    DivMonotone(mseconds, most, resolution);
    DivMonotone(mseconds / resolution, most / resolution, n);
    DivMod(mseconds, resolution);
    DivMod(mseconds / resolution, n);
  }

  lemma LongDelayFields(n: nat, resolution: int, period: nat)
    requires 0 < n && 0 < resolution && period == 0x8000 * n < U32
    ensures TruncDiv(period * resolution, resolution) == period && TruncDiv(0, resolution) == 0
    ensures ArmedCycle(period, n) == -0x8000 && ArmedSlot(0, period, n) == 0
    ensures ArmedCycle(0, n) == 0 && ArmedSlot(0, 0, n) == 0 && SlotAt(0, n) == 0
  {
    DivModUnique(period * resolution, resolution, period, 0);
    DivModUnique(period, n, 0x8000, 0);
    DivModUnique(period, U32, 0, period);
    DivModUnique(0, n, 0, 0);
    DivModUnique(0, resolution, 0, 0);
  }

  lemma WheelShape(c: Ctrl)
    requires ValidCtrl(c)
    ensures 0 < c.wheel.n <= U32 && |c.wheel.slots| == c.wheel.n
  {}

  lemma RunOfTwo(c: Ctrl, a: Op, b: Op)
    requires ValidCtrl(c)
    ensures ValidCtrl(Step(c, a).0) && Run(c, [a, b]).0 == Step(Step(c, a).0, b).0
  {
    StepKeepsValid(c, a);
    StepKeepsValid(Step(c, a).0, b);
    assert [a, b][1..] == [b] && [b][1..] == [];
    assert Run(Step(c, a).0, [b]).0 == Step(Step(c, a).0, b).0;
  }

  /** Arming in an empty slot, and behind a timer with fewer cycles. */
  lemma TwoArmings(w: Wheel, p: int, q: int)
    requires Inv(w, {}) && w.slots == seq(w.n, _ => []) && |w.free| >= 2
    requires ArmedSlot(w.now, p, w.n) == ArmedSlot(w.now, q, w.n) == 0 && ArmedCycle(p, w.n) < ArmedCycle(q, w.n)
    ensures var r := Reset(w, NULL, p, 0, 0).0;
            var v := Reset(r, NULL, q, 0, 0).0;
            0 < |r.slots| == r.n == |v.slots| == v.n && v.now == w.now
            && v.slots[0] == [Timer(w.free[0], ArmedCycle(p, w.n), w.stamp, 0, 0),
                              Timer(w.free[1], ArmedCycle(q, w.n), w.stamp + 1, 0, 0)]
  {
    hide ArmedSlot, ArmedCycle, Inv;
  }

  /**
   * The delay of 32768 turns, whose count is read as -32768, followed by no delay at all:
   * both are due at once, and the first to be armed is reported first.
   */
  lemma LongDelayFiresOutOfOrder(c: Ctrl, period: nat)
    requires ValidCtrl(c) && c.wheel.slots == seq(c.wheel.n, _ => []) && c.wheel.now == 0
    requires |c.wheel.free| >= 2 && c.maxTicks <= c.ticks + 1
    requires period == 0x8000 * c.wheel.n < U32
    ensures var ops := [Op.Arm(NULL, period * c.resolution, 0, 0), Op.Arm(NULL, 0, 0, 0)];
            !LatestFirst(Run(c, ops).0)
  {
    hide ArmedCycle, ArmedSlot, TruncDiv, Reset, Inv, Run, SlotAt;
    WheelShape(c);
    LongDelayFields(c.wheel.n, c.resolution, period);
    TwoArmings(c.wheel, period, 0);
    var a, b := Op.Arm(NULL, period * c.resolution, 0, 0), Op.Arm(NULL, 0, 0, 0);
    RunOfTwo(c, a, b);
    FiresBoth(Run(c, [a, b]).0);
  }

  /** A tick that reports two timers in the order of their arming. */
  lemma FiresBoth(c: Ctrl)
    requires ValidCtrl(c) && c.maxTicks <= c.ticks + 1 && SlotAt(c.wheel.now, c.wheel.n) == 0
    requires var L := c.wheel.slots[0];
             |L| == 2 && L[0].cycle <= 0 && L[1].cycle <= 0 && L[0].stamp < L[1].stamp
    ensures !LatestFirst(c)
  {
    hide Inv;
    WheelShape(c);
    var L := c.wheel.slots[0];
    assert DueLen(L) == 2;
    assert Step(c, Tick).1[0].stamp < Step(c, Tick).1[1].stamp;
  }

  /** Every run from `tmrInit`, whatever the phase, with delays up to `most` reports the latest armed first. */
  ghost predicate AlwaysLatestFirst(maxNumOfTmrs: int, resolution: int, longest: int, most: nat)
    requires -8 <= maxNumOfTmrs
  {
    forall ticks: nat, ops: seq<Op> :: DelaysWithin(ops, most) ==>
      var c := Init(maxNumOfTmrs, resolution, longest, ticks);
      ValidCtrl(c) && LatestFirst(Run(c, ops).0)
  }

  /** The product of two quotients does not exceed the dividend. */
  lemma NestedQuotient(a: nat, b: nat, c: nat, q: nat)
    requires 0 < b && 0 < c && q <= a / b / c
    ensures q * c * b <= a
  {
    var d := a / b;
    DivMod(a, b);
    DivMod(d, c);
    MultipleIsFar(d / c - q, c);
    assert (d / c - q) * c == d / c * c - q * c;
    MultipleIsFar(d - q * c, b);
    assert (d - q * c) * b == d * b - q * c * b;
  }

  /**
   * Firing order, exactly: with non-negative delays up to `most` milliseconds every run
   * reports the latest armed timers first if and only if the greatest cycle count fits a `short`.
   */
  lemma FiringOrderExactly(maxNumOfTmrs: int, resolution: int, longest: int, most: nat)
    requires -8 <= maxNumOfTmrs && InitPeriods(resolution, longest) <= 0x7FFF_FFFF && most <= 0x7FFF_FFFF
    ensures AlwaysLatestFirst(maxNumOfTmrs, resolution, longest, most) <==>
            most / InitResolution(resolution) / InitPeriods(resolution, longest) <= 0x7FFF
  {
    var r, n := InitResolution(resolution), InitPeriods(resolution, longest);
    if most / r / n <= 0x7FFF {
      forall ticks: nat, ops: seq<Op> | DelaysWithin(ops, most)
        ensures ValidCtrl(Init(maxNumOfTmrs, resolution, longest, ticks))
                && LatestFirst(Run(Init(maxNumOfTmrs, resolution, longest, ticks), ops).0)
      {
        forall m | 0 <= m < |ops| && ops[m].Arm?
          ensures 0 <= ArmedCycle(TruncDiv(ops[m].mseconds, r), n)
        {
          ShortDelaysFit(ops[m].mseconds, most, r, n);
        }
        RunsReportLatestFirst(maxNumOfTmrs, resolution, longest, ticks, ops);
      }
    } else {
      NestedQuotient(most, r, n, 0x8000);
      var c := Init(maxNumOfTmrs, resolution, longest, r);
      InitIsValid(maxNumOfTmrs, resolution, longest, r);
      DivByPositive(r, MSECONDS_PER_TICK);
      var period := 0x8000 * n;
      ProductAtLeast(period, r);
      LongDelayFiresOutOfOrder(c, period);
      var ops := [Op.Arm(NULL, period * r, 0, 0), Op.Arm(NULL, 0, 0, 0)];
      assert DelaysWithin(ops, most);
      assert !LatestFirst(Run(Init(maxNumOfTmrs, resolution, longest, r), ops).0);
    }
  }
}
