// What one tick of the PPS estimator does to its lock, in numbers, and where the drift integrator
// takes a steady crystal (components/gps_clock/gps_clock_pps.c).
module PpsDrift {
  import opened Arith
  import opened Pps

  // ---- which edges are accepted, and what happens to the lock

  // A tick that shows a new capture and a moved edge count.
  predicate NewEdge(e: Estimator, input: Input) {
    e.haveCap && input.cap != e.lastCap && input.pcnt != e.lastPcnt
  }

  // The interval from the last capture, as a 64-bit counter measures it.
  predicate Interval(e: Estimator, input: Input, ticks: int) {
    (ticks - (input.cap - e.lastCap)) % 0x1_0000_0000_0000_0000 == 0
    && -0x8000_0000_0000_0000 <= ticks < 0x8000_0000_0000_0000
  }

  // One pulse, under a valid fix, within 200 us of a second of 25 ns ticks while locked and within
  // 2 ms of it otherwise.
  predicate Acceptable(e: Estimator, input: Input, ticks: int) {
    && NewEdge(e, input) && input.fixValid && input.pcnt == e.lastPcnt + 1
    && (if e.locked then 39992000 <= ticks <= 40008000 else 39920000 <= ticks <= 40080000)
  }

  lemma IntervalIs(e: Estimator, input: Input, ticks: int)
    requires Interval(e, input, ticks)
    ensures Offset(e.lastCap, input.cap) == ticks - 40000000
  {
    var d := (input.cap - e.lastCap) % 0x1_0000_0000_0000_0000;
    var wrapped := if d < 0x8000_0000_0000_0000 then d else d - 0x1_0000_0000_0000_0000;
    CongruentClose(ticks, wrapped, input.cap - e.lastCap);
  }

  lemma CongruentClose(a: int, b: int, c: int)
    requires (a - c) % 0x1_0000_0000_0000_0000 == 0 && (b - c) % 0x1_0000_0000_0000_0000 == 0
    requires -0x8000_0000_0000_0000 <= a < 0x8000_0000_0000_0000
    requires -0x8000_0000_0000_0000 <= b < 0x8000_0000_0000_0000
    ensures a == b
  {
  }

  // A usable edge is reported exactly for those; every readable tick moves the references on, an
  // edge rejected or refused included, so that the next interval is measured from the last capture.
  lemma AcceptedExactly(e: Estimator, input: Input, ticks: int)
    requires Interval(e, input, ticks)
    ensures
      var (t, sig) := Next(e, input);
      && (sig.present <==> Acceptable(e, input, ticks))
      && t.haveCap && t.lastPcnt == input.pcnt
      && t.lastCap == (if e.haveCap && input.pcnt == e.lastPcnt then e.lastCap else input.cap)
  {
    hide Tracked, Offset;
    IntervalIs(e, input, ticks);
    TrackedKeeps(e.(lastPcnt := input.pcnt, rejectRun := 0), input.nowUs, input.rmcSecond);
  }

  // What else the ladder is told: convergence is a lock on this tick's edge, and the edge count is
  // what the counter saw since the last tick, once there is an interval and a fix to judge it by.
  lemma SignalsAfter(e: Estimator, input: Input, ticks: int)
    requires Pps.Inv(e) && Interval(e, input, ticks)
    ensures
      var (t, sig) := Next(e, input);
      && (sig.converged <==> Acceptable(e, input, ticks) && t.locked)
      && sig.edgeCountDelta == (if !e.haveCap || (NewEdge(e, input) && !input.fixValid) then 0
                                else input.pcnt - e.lastPcnt)
      && (!sig.present ==> sig.phaseErrNs == 0)
  {
    hide Tracked, Offset, Followed;
    IntervalIs(e, input, ticks);
    TrackedIs(e.(lastPcnt := input.pcnt, rejectRun := 0), input.nowUs, input.rmcSecond);
  }

  lemma TrackedKeeps(e: Estimator, nowUs: int, second: int)
    ensures
      var t := Tracked(e, nowUs, second).0;
      t.haveCap == e.haveCap && t.lastCap == e.lastCap && t.lastPcnt == e.lastPcnt && t.rejectRun == e.rejectRun
  {
  }

  // The lock and its credit after every kind of tick. A lock is lost exactly on a new edge without
  // a valid fix, on the third rejection in a row, and on an accepted edge whose second does not
  // follow; it is gained exactly on the eighth following edge with two corroborated seconds.
  lemma LockAfter(e: Estimator, input: Input, ticks: int)
    requires Pps.Inv(e) && Interval(e, input, ticks)
    ensures
      var t, follows := Next(e, input).0, e.prevSecond != NO_SECOND && input.rmcSecond == e.prevSecond + 1;
      if !NewEdge(e, input) then
        t.locked == e.locked && t.goodEdges == e.goodEdges && t.rejectRun == e.rejectRun && t.secondAgrees == e.secondAgrees
      else if !input.fixValid then
        !t.locked && t.goodEdges == 0 && t.rejectRun == e.rejectRun && t.secondAgrees == e.secondAgrees
      else if !Acceptable(e, input, ticks) then
        && t.rejectRun == e.rejectRun + 1 && t.secondAgrees == e.secondAgrees
        && t.locked == (e.locked && e.rejectRun < 2)
        && t.goodEdges == (if e.rejectRun < 2 then e.goodEdges else 0)
      else
        && t.rejectRun == 0
        && t.secondAgrees == (if !follows then 0 else if e.secondAgrees < 2 then e.secondAgrees + 1 else 2)
        && t.locked == (follows && (e.locked || (e.goodEdges >= 7 && e.secondAgrees >= 1)))
        && t.goodEdges == (if !follows then 1 else if e.goodEdges < 8 then e.goodEdges + 1 else 8)
  {
    hide Tracked, Offset, Followed;
    IntervalIs(e, input, ticks);
    TrackedIs(e.(lastPcnt := input.pcnt, rejectRun := 0), input.nowUs, input.rmcSecond);
  }

  // ---- the drift

  // How far the second of an edge is from what the edge before it predicts: the time between their
  // ticks on the local clock, corrected by the drift.
  function ErrorNs(last: Edge, edge: Edge, driftPpb: int): int {
    var dt := (edge.nowUs - last.nowUs) * 1000;
    (edge.second - last.second) * 1000000000 - dt - TruncDiv(dt * driftPpb, 1000000000)
  }

  // The drift steps toward cancelling the error, by a two-hundredth of it truncated, or as far as
  // the clamp allows; an error of 5000 ns or more does not move it.
  predicate StepsToward(driftPpb: int, after: int, errNs: int) {
    var step := after - driftPpb;
    && (Magnitude(errNs) >= 5000 ==> step == 0)
    && (0 <= errNs < 5000 ==> step >= 0 && 200 * step <= errNs && (errNs < 200 * (step + 1) || after == 100000))
    && (-5000 < errNs <= 0 ==> step <= 0 && errNs <= 200 * step && (200 * (step - 1) < errNs || after == -100000))
  }

  // On an accepted edge of the following second while locked; on any other accepted edge, as on
  // every tick without one, the drift stays.
  lemma DriftLaw(e: Estimator, input: Input)
    requires Pps.Inv(e) && Next(e, input).1.present
    ensures
      var (t, sig) := Next(e, input);
      var n := |e.accepted|;
      && t.accepted[..n] == e.accepted && |t.accepted| == n + 1
      && t.accepted[n].second == input.rmcSecond && t.accepted[n].nowUs == input.nowUs
      && (if n > 0 && input.rmcSecond == e.accepted[n - 1].second + 1 && e.prevSecond != NO_SECOND then
            var err := ErrorNs(e.accepted[n - 1], t.accepted[n], e.driftPpb);
            && sig.phaseErrNs == Magnitude(err)
            && (if e.locked then StepsToward(e.driftPpb, t.driftPpb, err) else t.driftPpb == e.driftPpb)
          else t.driftPpb == e.driftPpb && sig.phaseErrNs == 0)
  {
    hide Tracked, Offset, InBand;
    TrackedDrift(e.(lastPcnt := input.pcnt, rejectRun := 0), input.nowUs, input.rmcSecond);
  }

  lemma TrackedDrift(e: Estimator, nowUs: int, second: int)
    requires -DRIFT_CLAMP_PPB <= e.driftPpb <= DRIFT_CLAMP_PPB
    requires e.seeded ==> e.anchorUtcNs == e.prevSecond * NS_PER_SEC
    ensures
      var (t, phase) := Tracked(e, nowUs, second);
      var dt := (nowUs - e.anchorNowUs) * 1000;
      var err := (second - e.prevSecond) * 1000000000 - dt - TruncDiv(dt * e.driftPpb, 1000000000);
      if e.seeded && Sequential(e, second) then
        && phase == Magnitude(err)
        && (if e.locked then StepsToward(e.driftPpb, t.driftPpb, err) else t.driftPpb == e.driftPpb)
      else t.driftPpb == e.driftPpb && phase == 0
  {
    hide TruncDiv;
    var labelled := Labelled(e, second);
    var err := Residual(labelled, nowUs, second);
    IntegratorStep(labelled, err);
  }

  lemma IntegratorStep(e: Estimator, errNs: int)
    requires -DRIFT_CLAMP_PPB <= e.driftPpb <= DRIFT_CLAMP_PPB
    ensures
      var t := Integrated(e, errNs);
      if e.locked then StepsToward(e.driftPpb, t.driftPpb, errNs) else t == e
  {
  }

  // ---- a steady crystal

  // A clean edge on the following second, noticed dUs on the local clock after the last one.
  predicate Steady(e: Estimator, input: Input, dUs: int) {
    && Next(e, input).1.present && input.rmcSecond == e.prevSecond + 1
    && e.prevSecond != NO_SECOND && input.nowUs == e.anchorNowUs + dUs
  }

  predicate SteadyRun(e: Estimator, inputs: seq<Input>, dUs: int) {
    forall k :: 0 <= k < |inputs| ==> Steady(Pps.Run(e, inputs[..k]), inputs[k], dUs)
  }

  // What a second of dUs microseconds misses under a drift, in units of 10^-9 ns: it vanishes for
  // the drift that makes the corrected interval exactly one second.
  function Mismatch(dUs: int, driftPpb: int): int {
    1000000000000000000 - dUs * 1000 * (1000000000 + driftPpb)
  }

  // One edge: the mismatch never grows; unless its error is out of the integrator's reach it falls
  // by at least one part per billion while it exceeds 201 ns, for a crystal within the clamp.
  lemma SteadyStep(e: Estimator, input: Input, dUs: int)
    requires Pps.Inv(e) && e.locked && Steady(e, input, dUs)
    ensures
      var t := Next(e, input).0;
      var m, after := Magnitude(Mismatch(dUs, e.driftPpb)), Magnitude(Mismatch(dUs, t.driftPpb));
      && t.locked && t.prevSecond == input.rmcSecond && t.anchorNowUs == input.nowUs
      && after <= m
      && (m >= 5001000000000 ==> t.driftPpb == e.driftPpb)
      && (201000000000 <= m < 4999000000000 && WithinClamp(dUs) ==> after <= m - 999000000)
  {
    hide Pps.Inv, Next, StepsToward, Mismatch;
    SteadyKeepsLock(e, input, dUs);
    SteadyError(e, input, dUs);
    var dt := dUs * 1000;
    var t := Next(e, input).0;
    var err := 1000000000 - dt - TruncDiv(dt * e.driftPpb, 1000000000);
    ErrorIsMismatch(dUs, e.driftPpb, err);
    DriftRange(e);
    DriftRange(t);
    MismatchFalls(dUs, e.driftPpb, t.driftPpb, err);
  }

  // Some drift within the clamp makes the interval a second.
  predicate WithinClamp(dUs: int) {
    Mismatch(dUs, 100000) <= 0 <= Mismatch(dUs, -100000)
  }

  lemma DriftRange(e: Estimator)
    requires Pps.Inv(e)
    ensures -100000 <= e.driftPpb <= 100000
  {
  }

  lemma SteadyKeepsLock(e: Estimator, input: Input, dUs: int)
    requires Pps.Inv(e) && e.locked && Steady(e, input, dUs)
    ensures Pps.Inv(Next(e, input).0)
    ensures
      var t := Next(e, input).0;
      t.locked && t.prevSecond == input.rmcSecond && t.anchorNowUs == input.nowUs
  {
    hide Tracked, Offset, InBand, Followed;
    TickInv(e, input);
    TrackedIs(e.(lastPcnt := input.pcnt, rejectRun := 0), input.nowUs, input.rmcSecond);
  }

  lemma SteadyError(e: Estimator, input: Input, dUs: int)
    requires Pps.Inv(e) && e.locked && Steady(e, input, dUs)
    ensures
      var dt := dUs * 1000;
      StepsToward(e.driftPpb, Next(e, input).0.driftPpb, 1000000000 - dt - TruncDiv(dt * e.driftPpb, 1000000000))
  {
    hide Next, StepsToward, TruncDiv;
    DriftLaw(e, input);
  }

  lemma ErrorIsMismatch(dUs: int, driftPpb: int, err: int)
    requires err == 1000000000 - dUs * 1000 - TruncDiv(dUs * 1000 * driftPpb, 1000000000)
    ensures -1000000000 < 1000000000 * err - Mismatch(dUs, driftPpb) < 1000000000
  {
    var p := dUs * 1000 * driftPpb;
    Remainder(p);
    assert dUs * 1000 * (1000000000 + driftPpb) == dUs * 1000 * 1000000000 + p;
  }

  lemma Remainder(p: int)
    ensures -1000000000 < p - 1000000000 * TruncDiv(p, 1000000000) < 1000000000
  {
  }

  lemma MismatchFalls(dUs: int, driftPpb: int, after: int, err: int)
    requires -100000 <= driftPpb <= 100000 && -100000 <= after <= 100000
    requires StepsToward(driftPpb, after, err)
    requires -1000000000 < 1000000000 * err - Mismatch(dUs, driftPpb) < 1000000000
    ensures
      var m, left := Magnitude(Mismatch(dUs, driftPpb)), Magnitude(Mismatch(dUs, after));
      && left <= m
      && (m >= 5001000000000 ==> after == driftPpb)
      && (201000000000 <= m < 4999000000000 && WithinClamp(dUs) ==> left <= m - 999000000)
  {
    hide Mismatch;
    var m := Mismatch(dUs, driftPpb);
    if Magnitude(err) < 5000 {
      IntervalNearSecond(dUs, driftPpb);
      MismatchMoves(dUs, driftPpb, after);
      MismatchMoves(dUs, after, 100000);
      MismatchMoves(dUs, after, -100000);
      var dt, step := dUs * 1000, after - driftPpb;
      if err >= 0 {
        StepInside(dt, step, err, m);
      } else {
        StepInside(dt, -step, -err, -m);
        assert dt * -step == -(dt * step);
      }
    }
  }

  lemma MismatchMoves(dUs: int, driftPpb: int, after: int)
    ensures Mismatch(dUs, after) == Mismatch(dUs, driftPpb) - dUs * 1000 * (after - driftPpb)
  {
    assert dUs * 1000 * (1000000000 + after) == dUs * 1000 * (1000000000 + driftPpb) + dUs * 1000 * (after - driftPpb);
  }

  // Within the integrator's reach the interval is a second, give or take 106 us.
  lemma IntervalNearSecond(dUs: int, driftPpb: int)
    requires -100000 <= driftPpb <= 100000 && -5001000000000 < Mismatch(dUs, driftPpb) < 5001000000000
    ensures 999000000 <= dUs * 1000 <= 1001000000
  {
    var dt, r := dUs * 1000, 1000000000 + driftPpb;
    if dt < 999000000 {
      ProductAtMost(dt, r, 998999999, 1000100000);
    } else if dt > 1001000000 {
      ProductAtLeast(dt, r, 1001000001, 999900000);
    }
  }

  lemma ProductAtMost(x: int, y: int, a: int, b: int)
    requires x <= a && 0 < y <= b && a >= 0
    ensures x * y <= a * b
  {
    assert x * y <= a * y;
    assert a * y <= a * b;
  }

  lemma ProductAtLeast(x: int, y: int, a: int, b: int)
    requires x >= a >= 0 && y >= b >= 0
    ensures x * y >= a * b
  {
    assert x * y >= a * y;
    assert a * y >= a * b;
  }

  // A step of at most err / 200 never passes the mismatch that err measures.
  lemma StepInside(dt: int, step: int, err: int, m: int)
    requires 999000000 <= dt <= 1001000000 && 0 <= step && 200 * step <= err < 5000
    requires -1000000000 < 1000000000 * err - m < 1000000000
    ensures 0 <= dt * step && (step > 0 ==> dt * step <= m) && (step == 0 ==> dt * step == 0)
    ensures step > 0 ==> dt * step >= 999000000
  {
    if step > 0 {
      ProductAtMost(dt, step, 1001000000, step);
      ProductAtLeast(dt, step, 999000000, step);
    }
  }

  // Over every run of a steady crystal, whatever its error, the mismatch never grows; beyond the
  // integrator's reach the drift never moves; and within it the mismatch falls by a part per
  // billion an edge until the error is about 200 ns.
  lemma {:induction false} SteadyCrystal(e: Estimator, inputs: seq<Input>, dUs: int)
    requires Pps.Inv(e) && e.locked && SteadyRun(e, inputs, dUs)
    ensures
      var t := Pps.Run(e, inputs);
      var m, after := Magnitude(Mismatch(dUs, e.driftPpb)), Magnitude(Mismatch(dUs, t.driftPpb));
      && t.locked && after <= m
      && (m >= 5001000000000 ==> t.driftPpb == e.driftPpb)
      && (m < 4999000000000 && WithinClamp(dUs) ==> after < 201000000000 || after <= m - 999000000 * |inputs|)
  {
    hide Pps.Inv, Next, Steady, Mismatch;
    if |inputs| != 0 {
      var n := |inputs| - 1;
      forall k | 0 <= k < n
        ensures Steady(Pps.Run(e, inputs[..n][..k]), inputs[..n][k], dUs)
      {
        assert inputs[..n][..k] == inputs[..k];
      }
      SteadyCrystal(e, inputs[..n], dUs);
      Pps.RunInv(e, inputs[..n]);
      SteadyStep(Pps.Run(e, inputs[..n]), inputs[n], dUs);
    }
  }

  // The clamp allows 100 ppm, but a crystal 6 ppm fast is never learned from a drift of zero.
  lemma FastCrystalNotLearned(e: Estimator, inputs: seq<Input>)
    requires Pps.Inv(e) && e.locked && e.driftPpb == 0 && SteadyRun(e, inputs, 1000006)
    ensures Pps.Run(e, inputs).driftPpb == 0 && WithinClamp(1000006)
  {
    SteadyCrystal(e, inputs, 1000006);
  }
}
