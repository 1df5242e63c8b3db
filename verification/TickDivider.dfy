/**
 * Milliseconds against ticks. A tick lasts 5 ms and a period `resolution / 5` ticks, so
 * a resolution that is not a multiple of 5 makes periods too short.
 */
module TickDivider {
  import opened CInt
  import opened ExactExpiry
  import opened WheelModel
  import opened DeadlineStore
  import opened TimerRuns

  /** Ticks from arming to the report, `first` being the ticks to the next processed period. */
  function TicksToReport(mseconds: nat, resolution: int, first: nat): (k: nat)
    requires MSECONDS_PER_TICK <= resolution
  {
    assert 0 <= (mseconds / resolution) * (resolution / MSECONDS_PER_TICK);
    first + (mseconds / resolution) * (resolution / MSECONDS_PER_TICK)
  }

  /**
   * From any phase of the divider, a punctual timer is never later than one resolution,
   * and with a resolution that is a multiple of 5 it is early by less than one.
   */
  lemma ReportWithinOneResolution(mseconds: nat, resolution: int, first: nat)
    requires MSECONDS_PER_TICK <= resolution
    requires 1 <= first <= resolution / MSECONDS_PER_TICK
    ensures var k := TicksToReport(mseconds, resolution, first);
            var period, maxTicks := mseconds / resolution, resolution / MSECONDS_PER_TICK;
            period * maxTicks + 1 <= k <= (period + 1) * maxTicks
            && MSECONDS_PER_TICK * k <= mseconds + resolution
            && (resolution % MSECONDS_PER_TICK == 0 ==>
                  mseconds - resolution < MSECONDS_PER_TICK * k)
  {
    var period, maxTicks := mseconds / resolution, resolution / MSECONDS_PER_TICK;
    var lost := resolution % MSECONDS_PER_TICK;
    DivMod(mseconds, resolution);
    assert (period + 1) * maxTicks == period * maxTicks + maxTicks;
    assert period * resolution == 5 * (period * maxTicks) + period * lost by {
      assert resolution == 5 * maxTicks + lost;
      assert period * (5 * maxTicks + lost) == 5 * (period * maxTicks) + period * lost;
    }
    assert 0 <= period * lost;
    if lost == 0 { assert period * lost == 0; }
  }

  /** The least number of periods that loses more than a tick, `lost` being the milliseconds one loses. */
  function DriftingPeriods(lost: nat): (p: nat)
    requires 1 <= lost <= 4
    ensures (p - 1) * lost <= 5 < p * lost <= 8
  {
    if lost == 1 then 6 else if lost == 2 then 3 else 2
  }

  /** The least delay that can be early by a whole resolution. */
  function FirstEarlyDelay(resolution: int): (mseconds: nat)
    requires MSECONDS_PER_TICK <= resolution && resolution % MSECONDS_PER_TICK != 0
  {
    var lost := resolution % MSECONDS_PER_TICK;
    var p := DriftingPeriods(lost);
    p * resolution + (resolution + MSECONDS_PER_TICK - p * lost)
  }

  /** How far a report precedes its delay, split into what the periods lose and the rest. */
  lemma Earliness(mseconds: nat, resolution: int, first: nat)
    requires MSECONDS_PER_TICK <= resolution
    ensures mseconds - MSECONDS_PER_TICK * TicksToReport(mseconds, resolution, first)
            == mseconds % resolution + (mseconds / resolution) * (resolution % MSECONDS_PER_TICK) - MSECONDS_PER_TICK * first
  {
    var period, maxTicks := mseconds / resolution, resolution / MSECONDS_PER_TICK;
    var lost := resolution % MSECONDS_PER_TICK;
    DivMod(mseconds, resolution);
    assert period * resolution == 5 * (period * maxTicks) + period * lost by {
      assert resolution == 5 * maxTicks + lost;
      assert period * (5 * maxTicks + lost) == 5 * (period * maxTicks) + period * lost;
    }
  }

  lemma NotEarlyBelow(mseconds: nat, resolution: int, first: nat)
    requires MSECONDS_PER_TICK <= resolution && resolution % MSECONDS_PER_TICK != 0 && 1 <= first
    requires mseconds < FirstEarlyDelay(resolution)
    ensures mseconds - resolution < MSECONDS_PER_TICK * TicksToReport(mseconds, resolution, first)
  {
    var lost := resolution % MSECONDS_PER_TICK;
    var p, period := DriftingPeriods(lost), mseconds / resolution;
    Earliness(mseconds, resolution, first);
    DivMod(mseconds, resolution);
    DivMonotone(mseconds, p * resolution + (resolution - 1), resolution);
    DivModUnique(p * resolution + (resolution - 1), resolution, p, resolution - 1);
    assert period <= p;
    if period < p { LessDrift(period, p - 1, lost); }
  }

  lemma LessDrift(x: int, y: int, lost: nat)
    requires x <= y
    ensures x * lost <= y * lost
  {}

  lemma EarlyAtFirstDelay(resolution: int)
    requires MSECONDS_PER_TICK <= resolution && resolution % MSECONDS_PER_TICK != 0
    ensures var mseconds := FirstEarlyDelay(resolution);
            mseconds - resolution == MSECONDS_PER_TICK * TicksToReport(mseconds, resolution, 1)
  {
    var lost := resolution % MSECONDS_PER_TICK;
    var p, mseconds := DriftingPeriods(lost), FirstEarlyDelay(resolution);
    DivModUnique(mseconds, resolution, p, resolution + 5 - p * lost);
    Earliness(mseconds, resolution, 1);
  }

  // ----- the controller -----

  /** The report of a punctual timer, in ticks from its arming, from whatever phase the controller is in. */
  lemma PunctualReportTick(c: Ctrl, op: Op)
    requires ValidCtrl(c) && MSECONDS_PER_TICK <= c.resolution && c.maxTicks == c.resolution / MSECONDS_PER_TICK
    requires op.Arm? && 0 <= op.mseconds <= 0x7FFF_FFFF
    requires Pending(c.wheel, op.handle) || c.wheel.free != []
    requires ArmsExactly(c.wheel.now % U32, op.mseconds / c.resolution, c.wheel.n)
    ensures ValidCtrl(Step(c, op).0)
    ensures Reset(c.wheel, op.handle, TruncDiv(op.mseconds, c.resolution), op.fp, op.param).1 >= 0
    ensures ReportTick(Step(c, op).0, ArmedEntry(c, op))
            == TicksToReport(op.mseconds, c.resolution, FirstTick(c.maxTicks, c.ticks))
  {
    ArmCreatesEntry(c, op);
    ArmedTimerIsOnTime(c, op);
    DivMod(op.mseconds, c.resolution);
    TicksUntilClosedForm(c.maxTicks, c.ticks, op.mseconds / c.resolution);
  }

  /**
   * Real time over whole runs: in any state a run from `tmrInit` reaches, a timer armed
   * with a delay that `ArmsExactly` allows and not re-armed is reported exactly once, on
   * a tick at most one resolution late, and early by less than one if the resolution is
   * a multiple of the tick or the delay too short to drift.
   */
  lemma RunsReportWithinOneResolution(maxNumOfTmrs: int, resolution: int, longest: int, ticks: nat,
                                      before: seq<Op>, op: Op, after: seq<Op>)
    requires -8 <= maxNumOfTmrs && InitPeriods(resolution, longest) <= 0x7FFF_FFFF
    requires op.Arm? && 0 <= op.mseconds <= 0x7FFF_FFFF
    ensures ValidCtrl(Init(maxNumOfTmrs, resolution, longest, ticks))
    ensures var c := Run(Init(maxNumOfTmrs, resolution, longest, ticks), before).0;
            var res := InitResolution(resolution);
            var maxTicks, period := res / MSECONDS_PER_TICK, op.mseconds / res;
            c.resolution == res && 0 < c.wheel.n <= U32
            && ((Pending(c.wheel, op.handle) || c.wheel.free != []) && ArmsExactly(c.wheel.now % U32, period, c.wheel.n) ==>
                  ValidCtrl(Step(c, op).0)
                  && Reset(c.wheel, op.handle, TruncDiv(op.mseconds, c.resolution), op.fp, op.param).1 >= 0
                  && var c1, e := Step(c, op).0, ArmedEntry(c, op);
                     var k := ReportTick(c1, e);
                     && period * maxTicks + 1 <= k <= (period + 1) * maxTicks
                     && MSECONDS_PER_TICK * k <= op.mseconds + res
                     && (res % MSECONDS_PER_TICK == 0 || op.mseconds < FirstEarlyDelay(res) ==> op.mseconds - res < MSECONDS_PER_TICK * k)
                     && (Undisturbed(c1, after, e) ==> Lives(Run(c1, after), Ticks(after), k, e)))
  {
    InitIsValid(maxNumOfTmrs, resolution, longest, ticks);
    var c := Run(Init(maxNumOfTmrs, resolution, longest, ticks), before).0;
    var res := InitResolution(resolution);
    WheelShape(c);
    if (Pending(c.wheel, op.handle) || c.wheel.free != []) && ArmsExactly(c.wheel.now % U32, op.mseconds / res, c.wheel.n) {
      PunctualReportTick(c, op);
      ReportWithinOneResolution(op.mseconds, res, FirstTick(c.maxTicks, c.ticks));
      if res % MSECONDS_PER_TICK != 0 && op.mseconds < FirstEarlyDelay(res) {
        NotEarlyBelow(op.mseconds, res, FirstTick(c.maxTicks, c.ticks));
      }
      ArmedTimerFiresExactlyOnce(c, op, after);
    }
  }

  /** A punctual timer armed in state `c` by `op` is early by less than one resolution. */
  ghost predicate EarlyByLess(c: Ctrl, op: Op)
    requires ValidCtrl(c) && op.Arm?
  {
    (Pending(c.wheel, op.handle) || c.wheel.free != []) && 0 < c.wheel.n <= U32
    && ArmsExactly(c.wheel.now % U32, TruncDiv(op.mseconds, c.resolution), c.wheel.n) ==>
      ValidCtrl(Step(c, op).0)
      && Reset(c.wheel, op.handle, TruncDiv(op.mseconds, c.resolution), op.fp, op.param).1 >= 0
      && op.mseconds - c.resolution < MSECONDS_PER_TICK * ReportTick(Step(c, op).0, ArmedEntry(c, op))
  }

  /** So are all punctual timers with delays up to `most`, in all states that runs from `tmrInit` reach. */
  ghost predicate AlwaysEarlyByLess(maxNumOfTmrs: int, resolution: int, longest: int, most: nat)
    requires -8 <= maxNumOfTmrs
  {
    forall ticks: nat, before: seq<Op>, op: Op :: op.Arm? && 0 <= op.mseconds <= most ==>
      EarlyByLessAfter(Init(maxNumOfTmrs, resolution, longest, ticks), before, op)
  }

  ghost predicate EarlyByLessAfter(c: Ctrl, before: seq<Op>, op: Op)
    requires op.Arm?
  {
    ValidCtrl(c) && EarlyByLess(Run(c, before).0, op)
  }

  /** A run in which a punctual timer is early by a whole resolution: the least drifting delay, armed first of all. */
  lemma FirstEarlyDelayIsEarly(maxNumOfTmrs: int, resolution: int, longest: int)
    requires -8 <= maxNumOfTmrs && InitPeriods(resolution, longest) <= 0x7FFF_FFFF
    requires var res := InitResolution(resolution);
             res % MSECONDS_PER_TICK != 0 && FirstEarlyDelay(res) <= 0x7FFF_FFFF
    ensures var res := InitResolution(resolution);
            var c, op := Init(maxNumOfTmrs, resolution, longest, res), Op.Arm(NULL, FirstEarlyDelay(res), 0, 0);
            ValidCtrl(c) && ArmsExactly(c.wheel.now % U32, TruncDiv(op.mseconds, res), c.wheel.n)
            && ValidCtrl(Step(c, op).0)
            && Reset(c.wheel, op.handle, TruncDiv(op.mseconds, c.resolution), op.fp, op.param).1 >= 0
            && op.mseconds - res == MSECONDS_PER_TICK * ReportTick(Step(c, op).0, ArmedEntry(c, op))
            && !EarlyByLess(c, op)
  {
    var res := InitResolution(resolution);
    var c, op := Init(maxNumOfTmrs, resolution, longest, res), Op.Arm(NULL, FirstEarlyDelay(res), 0, 0);
    InitIsValid(maxNumOfTmrs, resolution, longest, res);
    FewPeriods(res, c.wheel.n);
    DivByPositive(res, MSECONDS_PER_TICK);
    PunctualReportTick(c, op);
    EarlyAtFirstDelay(res);
  }

  lemma FewPeriods(res: int, n: nat)
    requires MSECONDS_PER_TICK <= res && res % MSECONDS_PER_TICK != 0 && 10 <= n <= U32
    ensures ArmsExactly(0, FirstEarlyDelay(res) / res, n)
  {
    var lost := res % MSECONDS_PER_TICK;
    var p := DriftingPeriods(lost);
    DivModUnique(FirstEarlyDelay(res), res, p, res + 5 - p * lost);
    DivModUnique(p, n, 0, p);
  }

  /**
   * Earliness, exactly: over all runs, punctual timers with delays up to `most` are early
   * by less than one resolution if and only if the resolution is a multiple of the tick
   * or the least drifting delay is longer than `most`.
   */
  lemma EarlinessExactly(maxNumOfTmrs: int, resolution: int, longest: int, most: nat)
    requires -8 <= maxNumOfTmrs && InitPeriods(resolution, longest) <= 0x7FFF_FFFF && most <= 0x7FFF_FFFF
    ensures var res := InitResolution(resolution);
            AlwaysEarlyByLess(maxNumOfTmrs, resolution, longest, most) <==>
              res % MSECONDS_PER_TICK == 0 || most < FirstEarlyDelay(res)
  {
    hide TicksToReport, FirstEarlyDelay, EarlyByLess, EarlyByLessAfter, Init;
    var res := InitResolution(resolution);
    if res % MSECONDS_PER_TICK == 0 || most < FirstEarlyDelay(res) {
      forall ticks: nat, before: seq<Op>, op: Op | op.Arm? && 0 <= op.mseconds <= most
        ensures EarlyByLessAfter(Init(maxNumOfTmrs, resolution, longest, ticks), before, op)
      {
        PunctualIsEarlyByLess(maxNumOfTmrs, resolution, longest, ticks, before, op);
      }
    } else {
      var c, op := Init(maxNumOfTmrs, resolution, longest, res), Op.Arm(NULL, FirstEarlyDelay(res), 0, 0);
      FirstEarlyDelayIsEarly(maxNumOfTmrs, resolution, longest);
      EmptyRun(c, op);
    }
  }

  lemma EmptyRun(c: Ctrl, op: Op)
    requires ValidCtrl(c) && op.Arm?
    ensures EarlyByLessAfter(c, [], op) == EarlyByLess(c, op)
  {
    assert Run(c, []).0 == c;
    hide EarlyByLess;
  }

  lemma PunctualIsEarlyByLess(maxNumOfTmrs: int, resolution: int, longest: int, ticks: nat, before: seq<Op>, op: Op)
    requires -8 <= maxNumOfTmrs && InitPeriods(resolution, longest) <= 0x7FFF_FFFF
    requires op.Arm? && 0 <= op.mseconds <= 0x7FFF_FFFF
    requires var res := InitResolution(resolution);
             res % MSECONDS_PER_TICK == 0 || op.mseconds < FirstEarlyDelay(res)
    ensures EarlyByLessAfter(Init(maxNumOfTmrs, resolution, longest, ticks), before, op)
  {
    RunsReportWithinOneResolution(maxNumOfTmrs, resolution, longest, ticks, before, op, []);
  }
}
