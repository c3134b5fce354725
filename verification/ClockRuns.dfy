// The PPS estimator and the quality ladder together, as the supervisor runs them: what the clock
// may be trusted for over every joint run.
module ClockRuns {
  import opened Arith
  import opened Calendar
  import opened Geo
  import opened Nmea
  import opened Ladder
  import opened LadderRuns
  import LadderClock
  import Pps

  // One tick of the capture timer.
  const NS_PER_TICK := 25

  // What one turn of the supervisor reads: the NMEA signals, whether the capture could be read, the
  // latched count and the edge count, and the clock at the tick that reads them and at the
  // publication. The capture timer's own count at that tick, which the code does not read, says
  // how long ago the edge was latched.
  datatype Reading = Reading(nmea: Signals, readable: bool, cap: nat, pcnt: int, counter: nat,
                             tickUs: int, nowUs: int)

  // pulseNs is the instant of the last accepted edge itself, on the supervisor's clock.
  datatype System = System(estimator: Pps.Estimator, ladder: State, pulseNs: int)

  // The time from the latch to the tick that notices it.
  function LagNs(r: Reading): nat {
    (r.counter - r.cap) % Pps.TWO64 * NS_PER_TICK
  }

  function PulseNs(r: Reading): int {
    r.tickUs * 1000 - LagNs(r)
  }

  function EdgeOf(r: Reading): Pps.Input {
    Pps.Input(r.cap, r.pcnt, r.nmea.fixValid, r.nmea.rmcSecond, r.tickUs)
  }

  function Sensed(e: Pps.Estimator, r: Reading): (Pps.Estimator, Pps.Signals) {
    if r.readable then Pps.Next(e, EdgeOf(r)) else (e, Pps.Silent())
  }

  function InputOf(e: Pps.Estimator, r: Reading): Input {
    Input(r.nmea, Sensed(e, r).1, r.nowUs)
  }

  function Turn(sys: System, r: Reading): System {
    var (estimator, edge) := Sensed(sys.estimator, r);
    System(estimator, Tick(sys.ladder, InputOf(sys.estimator, r)), if edge.present then PulseNs(r) else sys.pulseNs)
  }

  // No anchor is earlier than its edge.
  predicate Inv(sys: System) {
    && Pps.Inv(sys.estimator) && LadderRuns.Inv(sys.ladder)
    && (sys.estimator.seeded ==> sys.pulseNs <= sys.estimator.anchorNowUs * 1000)
  }

  lemma TurnInv(sys: System, r: Reading)
    requires Inv(sys) && Usable(r.nmea)
    ensures Inv(Turn(sys, r))
  {
    hide Pps.Inv, Pps.Next, LadderRuns.Inv, Tick;
    Pps.TickInv(sys.estimator, EdgeOf(r));
    LadderRuns.TickInv(sys.ladder, InputOf(sys.estimator, r));
    AnchorMoves(sys.estimator, r);
  }

  // The anchor moves exactly on an accepted edge, to the clock of the tick that noticed it.
  lemma AnchorMoves(e: Pps.Estimator, r: Reading)
    requires Pps.Inv(e)
    ensures
      var (t, edge) := Sensed(e, r);
      if edge.present then t.seeded && t.anchorNowUs == r.tickUs && t.prevSecond == r.nmea.rmcSecond
      else t.seeded == e.seeded && t.anchorNowUs == e.anchorNowUs && t.prevSecond == e.prevSecond
  {
    hide Pps.Tracked, Pps.Offset, Pps.InBand, Pps.Followed;
    Pps.TrackedIs(e.(lastPcnt := r.pcnt, rejectRun := 0), r.tickUs, r.nmea.rmcSecond);
  }

  function Run(sys: System, readings: seq<Reading>): System {
    if |readings| == 0 then sys else Turn(Run(sys, readings[..|readings| - 1]), readings[|readings| - 1])
  }

  predicate AllUsable(readings: seq<Reading>) {
    forall i :: 0 <= i < |readings| ==> Usable(readings[i].nmea)
  }

  lemma {:induction false} RunInv(sys: System, readings: seq<Reading>)
    requires Inv(sys) && AllUsable(readings)
    ensures Inv(Run(sys, readings))
  {
    hide Inv, Turn, Usable;
    if |readings| != 0 {
      RunInv(sys, readings[..|readings| - 1]);
      TurnInv(Run(sys, readings[..|readings| - 1]), readings[|readings| - 1]);
    }
  }

  // Whatever the history, DISCIPLINED is entered only on an edge that completes eight single,
  // in-tolerance pulses labelled with consecutive UTC seconds.
  lemma DisciplinedMeansEightEdges(sys: System, r: Reading)
    requires Inv(sys)
    requires sys.ladder.quality != DISCIPLINED && Turn(sys, r).ladder.quality == DISCIPLINED
    ensures r.readable && Pps.EightCleanEdges(Turn(sys, r).estimator, r.nmea.rmcSecond)
    ensures sys.ladder.quality >= NMEA_FIX
  {
    hide Tick, LadderRuns.Inv, Pps.Inv, Pps.Next;
    RungEntry(sys.ladder, InputOf(sys.estimator, r));
    Pps.ConvergenceMeans(sys.estimator, EdgeOf(r));
  }

  // ---- the time published on the upper rungs

  // The estimator holds an anchor with a second other than 0, the code's mark of no anchor.
  predicate Anchored(e: Pps.Estimator) {
    e.seeded && e.prevSecond != 0
  }

  // The turn publishes from the anchor: the capture is readable and not the first, and either no
  // new edge came, or one came under a valid fix and leaves an anchor.
  predicate Anchors(e: Pps.Estimator, r: Reading) {
    && r.readable && e.haveCap
    && if r.cap == e.lastCap || r.pcnt == e.lastPcnt then Anchored(e)
       else r.nmea.fixValid && (if Accepts(e, r) then r.nmea.rmcSecond != 0 else Anchored(e))
  }

  predicate Accepts(e: Pps.Estimator, r: Reading) {
    r.pcnt - e.lastPcnt == 1 && Pps.InBand(Pps.Offset(e.lastCap, r.cap), e.locked)
  }

  // UTC by the last accepted edge: its second, plus the local time since the edge itself.
  function EdgeTimeNs(sys: System, nowUs: int): int {
    sys.estimator.prevSecond * Pps.NS_PER_SEC + nowUs * 1000 - sys.pulseNs
  }

  // How late the anchor is: the edge was noticed this long after it came.
  function LateNs(sys: System): int {
    sys.estimator.anchorNowUs * 1000 - sys.pulseNs
  }

  function SinceAnchorNs(sys: System, nowUs: int): int {
    (nowUs - sys.estimator.anchorNowUs) * 1000
  }

  // 100 ppm of the time since the anchor, and a microsecond of rounding.
  function BudgetNs(sys: System, nowUs: int): nat {
    Magnitude(SinceAnchorNs(sys, nowUs)) / 10000 + 1000
  }

  predicate Within(sys: System, nowUs: int, timeNs: int) {
    Magnitude(sys.ladder.clock.utcEstimateUs * 1000 - timeNs) <= BudgetNs(sys, nowUs)
  }

  // The published time is the last accepted edge's.
  predicate Tracks(sys: System, nowUs: int) {
    Within(sys, nowUs, EdgeTimeNs(sys, nowUs))
  }

  // The published time is behind the last accepted edge's by the lateness of the anchor.
  predicate Trails(sys: System, nowUs: int) {
    var e := sys.estimator;
    && e.seeded && |e.accepted| > 0 && e.accepted[|e.accepted| - 1].second == e.prevSecond
    && LateNs(sys) >= 0 && Within(sys, nowUs, EdgeTimeNs(sys, nowUs) - LateNs(sys))
  }

  lemma DriftBounded(dtNs: int, driftPpb: int)
    requires -Pps.DRIFT_CLAMP_PPB <= driftPpb <= Pps.DRIFT_CLAMP_PPB
    ensures Magnitude(TruncDiv(dtNs * driftPpb, 1000000000)) <= Magnitude(dtNs) / 10000
  {
    ProductBound(dtNs, driftPpb, Pps.DRIFT_CLAMP_PPB);
    Truncated(dtNs * driftPpb, Magnitude(dtNs));
  }

  lemma ProductBound(x: int, y: int, bound: int)
    requires 0 <= bound && -bound <= y <= bound
    ensures Magnitude(x * y) <= Magnitude(x) * bound
  {
  }

  lemma Truncated(product: int, dt: nat)
    requires Magnitude(product) <= dt * 100000
    ensures Magnitude(TruncDiv(product, 1000000000)) <= dt / 10000
  {
  }

  // What the drift and the rounding to microseconds add to the anchor's time.
  function MapNs(utcNs: int, sinceNs: int, driftPpb: int): int {
    TruncDiv(utcNs + sinceNs + TruncDiv(sinceNs * driftPpb, 1000000000), 1000) * 1000 - (utcNs + sinceNs)
  }

  lemma MapBounded(utcNs: int, sinceNs: int, driftPpb: int)
    requires -Pps.DRIFT_CLAMP_PPB <= driftPpb <= Pps.DRIFT_CLAMP_PPB
    ensures Magnitude(MapNs(utcNs, sinceNs, driftPpb)) <= Magnitude(sinceNs) / 10000 + 1000
  {
    DriftBounded(sinceNs, driftPpb);
    Thousandths(utcNs + sinceNs + TruncDiv(sinceNs * driftPpb, 1000000000));
    hide TruncDiv;
  }

  lemma Thousandths(x: int)
    ensures Magnitude(TruncDiv(x, 1000) * 1000 - x) < 1000
  {
  }

  lemma SignalsAnchored(e: Pps.Estimator, r: Reading)
    requires Pps.Inv(e)
    ensures Sensed(e, r).1.lastEdgeUtcNs != 0 <==> Anchors(e, r)
    ensures
      var (t, sig) := Sensed(e, r);
      sig.lastEdgeUtcNs != 0 ==>
        t.seeded && sig.lastEdgeUtcNs == t.prevSecond * Pps.NS_PER_SEC
        && sig.lastEdgeNowUs == t.anchorNowUs && sig.driftPpb == t.driftPpb
  {
    hide Pps.Tracked, Pps.Offset, Pps.InBand, Pps.Followed;
    Pps.TrackedIs(e.(lastPcnt := r.pcnt, rejectRun := 0), r.tickUs, r.nmea.rmcSecond);
  }

  // A tick that ends above NMEA_FIX publishes this tick's estimate.
  lemma PublishedNow(s: State, input: Input)
    requires LadderRuns.Inv(s) && Tick(s, input).quality > NMEA_FIX
    ensures Tick(s, input).clock.utcEstimateUs == UtcEstimate(Tick(s, input).quality, input)
  {
  }

  // The drift and rounding part of what a turn publishes from its anchor.
  function MapOffsetNs(sys: System, nowUs: int): int {
    var e := sys.estimator;
    MapNs(e.prevSecond * Pps.NS_PER_SEC, SinceAnchorNs(sys, nowUs), e.driftPpb)
  }

  lemma PublishedExactly(sys: System, r: Reading)
    requires Inv(sys) && Usable(r.nmea) && Turn(sys, r).ladder.clock.quality > NMEA_FIX
    ensures
      var t := Turn(sys, r);
      t.ladder.clock.utcEstimateUs * 1000 ==
        if Anchors(sys.estimator, r) then EdgeTimeNs(t, r.nowUs) - LateNs(t) + MapOffsetNs(t, r.nowUs)
        else r.nmea.utcUs * 1000
    ensures Anchors(sys.estimator, r) ==> Turn(sys, r).estimator.seeded
  {
    hide Tick, LadderRuns.Inv, Pps.Inv, Pps.Next, Anchors, TruncDiv;
    TurnInv(sys, r);
    AnnouncedQuality(Turn(sys, r).ladder);
    PublishedNow(sys.ladder, InputOf(sys.estimator, r));
    SignalsAnchored(sys.estimator, r);
  }

  // What the upper rungs publish, on every turn: the last accepted edge's time less the lateness
  // of its anchor where the turn publishes from the anchor, and otherwise the plain NMEA label,
  // under the same quality and uncertainty.
  lemma PublishedTime(sys: System, r: Reading)
    requires Inv(sys) && Usable(r.nmea) && Turn(sys, r).ladder.clock.quality > NMEA_FIX
    ensures
      var t := Turn(sys, r);
      if Anchors(sys.estimator, r) then Trails(t, r.nowUs)
      else t.ladder.clock.utcEstimateUs == r.nmea.utcUs
    ensures Sensed(sys.estimator, r).1.present ==> LateNs(Turn(sys, r)) == LagNs(r)
  {
    hide Tick, LadderRuns.Inv, Pps.Next, Anchors, TruncDiv;
    var t := Turn(sys, r);
    TurnInv(sys, r);
    AnchorMoves(sys.estimator, r);
    PublishedExactly(sys, r);
    MapBounded(t.estimator.prevSecond * Pps.NS_PER_SEC, SinceAnchorNs(t, r.nowUs), t.estimator.driftPpb);
  }

  lemma AnnouncedQuality(s: State)
    requires LadderRuns.Inv(s)
    ensures s.clock.quality == s.quality
  {
  }

  // Over every joint run: the time published by its last turn.
  lemma PublishedOverRuns(sys: System, readings: seq<Reading>)
    requires Inv(sys) && AllUsable(readings) && |readings| > 0
    requires Run(sys, readings).ladder.clock.quality > NMEA_FIX
    ensures
      var t, r := Run(sys, readings), readings[|readings| - 1];
      if Anchors(Run(sys, readings[..|readings| - 1]).estimator, r) then Trails(t, r.nowUs)
      else t.ladder.clock.utcEstimateUs == r.nmea.utcUs
  {
    hide Inv, Turn, Usable, Anchors, Trails;
    RunInv(sys, readings[..|readings| - 1]);
    PublishedTime(Run(sys, readings[..|readings| - 1]), readings[|readings| - 1]);
  }

  // On every rung: at NMEA_FIX the reading's own label to 30 ms, below it the monotonic clock of
  // the turn that changed the rung, above it the rung's own uncertainty.
  lemma EveryRungOverRuns(sys: System, readings: seq<Reading>)
    requires Inv(sys) && AllUsable(readings) && |readings| > 0
    ensures
      var before, r := Run(sys, readings[..|readings| - 1]), readings[|readings| - 1];
      var t := Run(sys, readings).ladder;
      && (t.quality == NMEA_FIX ==> t.clock == Snapshot(NMEA_FIX, r.nmea.utcUs, 30000000, true))
      && (t.quality <= FREE_RUNNING ==>
            t.clock == if t.quality == before.ladder.quality then before.ladder.clock
                       else Snapshot(t.quality, r.nowUs, 0xFFFF_FFFF, false))
      && (t.quality == HOLDOVER ==> t.clock.uncertaintyNs == t.holdoverUnc)
      && (t.quality == DISCIPLINED ==> t.clock.uncertaintyNs == 100)
      && t.quality <= DISCIPLINED
  {
    hide LadderRuns.Inv, Pps.Inv, Tick, Usable;
    var n := |readings| - 1;
    RunInv(sys, readings[..n]);
    RunInv(sys, readings);
    var before := Run(sys, readings[..n]);
    LadderClock.TickPublishes(before.ladder, InputOf(before.estimator, readings[n]));
    QualityRange(Run(sys, readings).ladder);
  }

  lemma QualityRange(s: State)
    requires LadderRuns.Inv(s)
    ensures s.quality <= DISCIPLINED
  {
  }

  // ---- exactly when the published time can be trusted

  // A turn that publishes from its anchor publishes the edge's time if and only if the anchor is
  // no later than the budget, drift and rounding allowed for.
  predicate Prompt(sys: System, nowUs: int) {
    LateNs(sys) <= BudgetNs(sys, nowUs) + MapOffsetNs(sys, nowUs)
  }

  lemma LagCondition(sys: System, r: Reading)
    requires Inv(sys) && Usable(r.nmea) && Turn(sys, r).ladder.clock.quality > NMEA_FIX
    requires Anchors(sys.estimator, r)
    ensures Tracks(Turn(sys, r), r.nowUs) <==> Prompt(Turn(sys, r), r.nowUs)
    ensures
      Sensed(sys.estimator, r).1.present && r.nowUs == r.tickUs ==>
        (Tracks(Turn(sys, r), r.nowUs) <==> LagNs(r) <= 1000)
  {
    hide Tick, LadderRuns.Inv, Pps.Next, Anchors, TruncDiv;
    var t := Turn(sys, r);
    TurnInv(sys, r);
    AnchorMoves(sys.estimator, r);
    PublishedExactly(sys, r);
    MapBounded(t.estimator.prevSecond * Pps.NS_PER_SEC, SinceAnchorNs(t, r.nowUs), t.estimator.driftPpb);
    MapAtAnchor(t.estimator.prevSecond, t.estimator.driftPpb);
  }

  lemma MapAtAnchor(second: int, driftPpb: int)
    ensures MapNs(second * Pps.NS_PER_SEC, 0, driftPpb) == 0
  {
    NoDrift(driftPpb);
    Thousands(second * 1000000);
    hide TruncDiv;
  }

  lemma NoDrift(driftPpb: int)
    ensures TruncDiv(0 * driftPpb, 1000000000) == 0
  {
  }

  lemma Thousands(x: int)
    ensures TruncDiv(x * 1000, 1000) == x
  {
  }

  // The labels of the RMC sentence's two-digit years, 2000 to 2099.
  const FIRST_LABEL_US := UtcSecond(Date(2000, 1, 1), 0) * 1000000
  const LABELS_END_US := UtcSecond(Date(2100, 1, 1), 0) * 1000000

  predicate Receivable(utcUs: int) {
    FIRST_LABEL_US <= utcUs < LABELS_END_US
  }

  // A hundred years, in microseconds.
  lemma LabelRange()
    ensures FIRST_LABEL_US == 946684800000000 && LABELS_END_US == 4102444800000000
  {
  }

  // The same reading with another time in its RMC sentence.
  function WithLabel(r: Reading, utcUs: int): Reading {
    r.(nmea := r.nmea.(utcUs := utcUs, rmcSecond := TruncDiv(utcUs, 1000000)))
  }

  // The capture is readable and not the first, a new edge comes only under a valid fix, and there
  // is an anchor unless this edge sets one.
  predicate Trustworthy(e: Pps.Estimator, r: Reading) {
    && r.readable && e.haveCap
    && if r.cap == e.lastCap || r.pcnt == e.lastPcnt then Anchored(e)
       else r.nmea.fixValid && (Accepts(e, r) || Anchored(e))
  }

  // Another RMC label, from which the estimator learns the same.
  predicate SameEdge(e: Pps.Estimator, r: Reading, utcUs: int) {
    Receivable(utcUs) && Sensed(e, WithLabel(r, utcUs)) == Sensed(e, r)
  }

  predicate TracksUnder(sys: System, r: Reading, utcUs: int) {
    SameEdge(sys.estimator, r, utcUs) ==> Tracks(Turn(sys, WithLabel(r, utcUs)), r.nowUs)
  }

  // The reading carries such a label, and the time since the anchor fits its 64 bits.
  predicate Receives(sys: System, r: Reading) {
    && Receivable(r.nmea.utcUs) && r.nmea.rmcSecond == TruncDiv(r.nmea.utcUs, 1000000)
    && -Pps.TWO63 <= r.nowUs - Turn(sys, r).estimator.anchorNowUs < Pps.TWO63
  }

  // A turn that publishes an upper rung publishes the last accepted edge's time, whatever label
  // comes with it, if and only if it is trustworthy and its anchor is prompt.
  lemma AccuracyCondition(sys: System, r: Reading)
    requires Inv(sys) && Usable(r.nmea) && Turn(sys, r).ladder.clock.quality > NMEA_FIX
    requires Receives(sys, r)
    ensures (forall u: int :: TracksUnder(sys, r, u))
            <==> Trustworthy(sys.estimator, r) && Prompt(Turn(sys, r), r.nowUs)
  {
    hide Inv, Turn, Tracks, Trustworthy, Prompt, Sensed, Receivable, TruncDiv;
    if Trustworthy(sys.estimator, r) {
      forall u: int
        ensures Prompt(Turn(sys, r), r.nowUs) ==> TracksUnder(sys, r, u)
      {
        if SameEdge(sys.estimator, r, u) {
          PromptUnder(sys, r, u);
        }
      }
      assert WithLabel(r, r.nmea.utcUs) == r;
      PromptUnder(sys, r, r.nmea.utcUs);
      assert TracksUnder(sys, r, r.nmea.utcUs) <==> Prompt(Turn(sys, r), r.nowUs);
    } else {
      var u := UntrackedLabel(sys, r);
      assert !TracksUnder(sys, r, u);
    }
  }

  lemma PromptUnder(sys: System, r: Reading, u: int)
    requires Inv(sys) && Usable(r.nmea) && Turn(sys, r).ladder.clock.quality > NMEA_FIX
    requires Trustworthy(sys.estimator, r) && SameEdge(sys.estimator, r, u)
    ensures Tracks(Turn(sys, WithLabel(r, u)), r.nowUs) <==> Prompt(Turn(sys, r), r.nowUs)
  {
    hide Inv, Tracks, Trustworthy, Sensed, Tick, Anchors, Receivable, MapNs, Magnitude;
    TrustworthyAnchors(sys.estimator, r, u);
    SameQuality(sys, r, u);
    LagCondition(sys, WithLabel(r, u));
  }

  lemma TrustworthyAnchors(e: Pps.Estimator, r: Reading, utcUs: int)
    requires Trustworthy(e, r) && Receivable(utcUs)
    ensures Anchors(e, WithLabel(r, utcUs))
  {
    hide Pps.InBand, Pps.Offset;
    LabelRange();
  }

  // The first and the last whole second a label can name are too far apart for one time to be
  // near both, so on a turn that publishes labels one of them is not tracked.
  lemma UntrackedLabel(sys: System, r: Reading) returns (u: int)
    requires Inv(sys) && Usable(r.nmea) && Turn(sys, r).ladder.clock.quality > NMEA_FIX
    requires !Trustworthy(sys.estimator, r) && Receives(sys, r)
    ensures !TracksUnder(sys, r, u)
  {
    hide Inv, Trustworthy, Sensed, Tick, TruncDiv, Anchors;
    var first, last := FIRST_LABEL_US, LABELS_END_US - 1000000;
    LabelRange();
    LabelIgnored(sys, r, first);
    LabelIgnored(sys, r, last);
    PublishedTime(sys, WithLabel(r, first));
    PublishedTime(sys, WithLabel(r, last));
    FarApart(Turn(sys, WithLabel(r, first)), Turn(sys, WithLabel(r, last)), r.nowUs);
    u := if Tracks(Turn(sys, WithLabel(r, first)), r.nowUs) then last else first;
  }

  lemma FarApart(s: System, t: System, nowUs: int)
    requires s.estimator == t.estimator && s.pulseNs == t.pulseNs
    requires -Pps.TWO63 <= nowUs - s.estimator.anchorNowUs < Pps.TWO63
    requires t.ladder.clock.utcEstimateUs - s.ladder.clock.utcEstimateUs >= 3155759999000000
    ensures !Tracks(s, nowUs) || !Tracks(t, nowUs)
  {
  }

  lemma LabelIgnored(sys: System, r: Reading, u: int)
    requires Inv(sys) && Usable(r.nmea) && Turn(sys, r).ladder.clock.quality > NMEA_FIX
    requires !Trustworthy(sys.estimator, r)
    ensures !Anchors(sys.estimator, WithLabel(r, u)) && Usable(WithLabel(r, u).nmea)
    ensures Sensed(sys.estimator, WithLabel(r, u)) == Sensed(sys.estimator, r)
    ensures Turn(sys, WithLabel(r, u)).ladder.clock.quality > NMEA_FIX
  {
    hide Tick, LadderRuns.Inv, Pps.Inv, Pps.Offset, Pps.InBand;
    assert Sensed(sys.estimator, WithLabel(r, u)) == Sensed(sys.estimator, r);
    SameQuality(sys, r, u);
  }

  lemma SameQuality(sys: System, r: Reading, u: int)
    requires Inv(sys) && Usable(r.nmea) && Turn(sys, r).ladder.clock.quality > NMEA_FIX
    requires Sensed(sys.estimator, WithLabel(r, u)) == Sensed(sys.estimator, r)
    ensures Turn(sys, WithLabel(r, u)).ladder.clock.quality > NMEA_FIX && Usable(WithLabel(r, u).nmea)
  {
    hide Tick, LadderRuns.Inv, Pps.Inv, Sensed, TruncDiv;
    var e := sys.estimator;
    TurnInv(sys, r);
    TurnInv(sys, WithLabel(r, u));
    AnnouncedQuality(Turn(sys, r).ladder);
    AnnouncedQuality(Turn(sys, WithLabel(r, u)).ladder);
    QualityWithoutLabel(sys.ladder, InputOf(e, r), InputOf(e, WithLabel(r, u)));
  }

  // The rung does not depend on the label.
  lemma QualityWithoutLabel(s: State, a: Input, b: Input)
    requires LadderRuns.Inv(s) && a.pps == b.pps
    requires b.nmea == a.nmea.(utcUs := b.nmea.utcUs, rmcSecond := b.nmea.rmcSecond)
    requires Tick(s, a).quality > NMEA_FIX
    ensures Tick(s, b).quality == Tick(s, a).quality
  {
    hide Step, AllSafe, Announces, OwnsReference, Settled, ByteDelta;
    var byteDelta := ByteDelta(s, a);
    SameDelta(s, a, b);
    var c := s.(lastByteCount := a.nmea.byteCount);
    TotalKeptInv(s, a.nmea.byteCount);
    if s.quality == NONE || Lost(c, byteDelta) {
      IdleStep(c, byteDelta, a);
    } else {
      LiveStep(c, byteDelta, a);
      LiveStep(c, byteDelta, b);
    }
  }

  lemma SameDelta(s: State, a: Input, b: Input)
    requires a.nmea.byteCount == b.nmea.byteCount
    ensures ByteDelta(s, a) == ByteDelta(s, b)
  {
  }

  // ---- runs from boot that publish the wrong time as disciplined

  const FIRST_EDGE := 1767225600

  // Turn k of a healthy start, whose tick comes lagUs after its edge: a fresh fix for second
  // FIRST_EDGE + k and its clean edge.
  function Healthy(k: nat, lagUs: nat): Reading {
    Reading(Signals(100 * (k + 1), true, k, (FIRST_EDGE + k) * 1000000, FIRST_EDGE + k, Finite(10.0), Finite(10.0)),
            true, Pps.TICKS_PER_SEC * (k + 1), k + 1, Pps.TICKS_PER_SEC * (k + 1) + 40 * lagUs,
            1000000 * k + lagUs, 1000000 * k + lagUs)
  }

  // The next edge arrives while the latest fix, of the previous second, is not valid.
  function Stale(lagUs: nat): Reading {
    Reading(Signals(1000, false, 9, (FIRST_EDGE + 8) * 1000000, FIRST_EDGE + 8, Finite(10.0), Finite(10.0)),
            true, Pps.TICKS_PER_SEC * 10, 10, Pps.TICKS_PER_SEC * 10 + 40 * lagUs, 9000000 + lagUs, 9000000 + lagUs)
  }

  function Start(): System {
    System(Pps.Reset(), Ladder.Boot(0, Ref(false, Finite(0.0), Finite(0.0), NoSource)), 0)
  }

  // After turn k of the start, 1 <= k <= 8.
  predicate Started(sys: System, k: nat, lagUs: nat) {
    var e, s := sys.estimator, sys.ladder;
    && e.locked == (k == 8) && e.seeded && e.goodEdges == k && e.rejectRun == 0
    && e.secondAgrees == (if k == 1 then 0 else if k == 2 then 1 else 2)
    && e.driftPpb == 0 && e.prevSecond == FIRST_EDGE + k && sys.pulseNs == 1000000000 * k
    && e.anchorNowUs == 1000000 * k + lagUs && e.anchorUtcNs == (FIRST_EDGE + k) * Pps.NS_PER_SEC
    && e.haveCap && e.lastCap == Pps.TICKS_PER_SEC * (k + 1) && e.lastPcnt == k + 1
    && s.lastByteCount == 100 * (k + 1) && s.lastFixSeq == k && s.noByteTicks == 0
    && s.fixGood == (if k < 3 then k else 3) && s.fixMiss == 0 && s.ppsMiss == 0
    && s.quality == (if k < 3 then FREE_RUNNING else if k < 8 then NMEA_FIX else DISCIPLINED)
    && (k == 8 ==> s.clock == Snapshot(DISCIPLINED, (FIRST_EDGE + 8) * 1000000, DISCIPLINED_UNC_NS, true))
  }

  function HealthyStart(n: nat, lagUs: nat): (readings: seq<Reading>)
    ensures |readings| == n && forall k :: 0 <= k < n ==> readings[k] == Healthy(k, lagUs)
  {
    if n == 0 then [] else HealthyStart(n - 1, lagUs) + [Healthy(n - 1, lagUs)]
  }

  // After the first turn.
  predicate Primed(sys: System) {
    var e, s := sys.estimator, sys.ladder;
    && e == Pps.Reset().(haveCap := true, lastCap := Pps.TICKS_PER_SEC, lastPcnt := 1)
    && s.quality == FREE_RUNNING && s.lastByteCount == 100 && s.lastFixSeq == 0 && s.noByteTicks == 0
    && s.fixGood == 0 && s.fixMiss == 0 && s.ppsMiss == 0
  }

  lemma FirstTurn(lagUs: nat)
    ensures Primed(Turn(Start(), Healthy(0, lagUs)))
  {
  }

  lemma SecondTurn(sys: System, lagUs: nat)
    requires lagUs < 1000000 && Primed(sys)
    ensures Started(Turn(sys, Healthy(1, lagUs)), 1, lagUs)
  {
  }

  lemma FirstTurns(lagUs: nat)
    requires lagUs < 1000000
    ensures Started(Run(Start(), HealthyStart(2, lagUs)), 1, lagUs)
  {
    StartNext(0, lagUs);
    StartNext(1, lagUs);
    hide Run, HealthyStart;
    FirstTurn(lagUs);
    SecondTurn(Turn(Start(), Healthy(0, lagUs)), lagUs);
  }

  lemma NextTurn(sys: System, k: nat, lagUs: nat)
    requires 1 <= k < 8 && lagUs < 1000000 && Started(sys, k, lagUs)
    ensures Started(Turn(sys, Healthy(k + 1, lagUs)), k + 1, lagUs)
  {
  }

  lemma StartNext(k: nat, lagUs: nat)
    ensures Run(Start(), HealthyStart(k + 1, lagUs)) == Turn(Run(Start(), HealthyStart(k, lagUs)), Healthy(k, lagUs))
  {
    hide Turn, Healthy, Start;
    assert (HealthyStart(k, lagUs) + [Healthy(k, lagUs)])[..k] == HealthyStart(k, lagUs);
  }

  lemma {:induction false} StartedAfter(k: nat, lagUs: nat)
    requires 1 <= k <= 8 && lagUs < 1000000
    ensures Started(Run(Start(), HealthyStart(k + 1, lagUs)), k, lagUs)
  {
    hide Turn, Started, Healthy, Run, HealthyStart, Start;
    if k == 1 {
      FirstTurns(lagUs);
    } else {
      StartedAfter(k - 1, lagUs);
      StartNext(k, lagUs);
      NextTurn(Run(Start(), HealthyStart(k, lagUs)), k - 1, lagUs);
    }
  }

  // Booted and locked on eight clean edges, each noticed lagUs after it came, the clock is
  // DISCIPLINED to 100 ns and behind its own edge by that lag, on a turn otherwise trustworthy.
  lemma LateTicksFromBoot(lagUs: nat)
    requires lagUs < 1000000
    ensures
      var readings, last := HealthyStart(9, lagUs), Healthy(8, lagUs);
      var t := Run(Start(), readings);
      && AllUsable(readings) && readings[8] == last
      && t.ladder.clock == Snapshot(DISCIPLINED, (FIRST_EDGE + 8) * 1000000, DISCIPLINED_UNC_NS, true)
      && EdgeTimeNs(t, last.nowUs) == t.ladder.clock.utcEstimateUs * 1000 + lagUs * 1000
      && Trustworthy(Run(Start(), HealthyStart(8, lagUs)).estimator, last)
      && (Tracks(t, last.nowUs) <==> lagUs <= 1)
  {
    hide Turn, Run;
    StartedAfter(7, lagUs);
    StartedAfter(8, lagUs);
  }

  lemma StaleTurn(sys: System, lagUs: nat)
    requires lagUs < 1000000 && Started(sys, 8, lagUs)
    ensures
      var t := Turn(sys, Stale(lagUs));
      && t.ladder.clock == Snapshot(DISCIPLINED, (FIRST_EDGE + 8) * 1000000, DISCIPLINED_UNC_NS, true)
      && t.estimator.prevSecond == FIRST_EDGE + 8 && t.pulseNs == 8000000000
      && t.estimator.anchorNowUs == 8000000 + lagUs
  {
  }

  // Started the same way, the clock then publishes the previous second's label, a second and the
  // lag behind its own edge, however prompt its ticks, still as DISCIPLINED to 100 ns.
  lemma StaleLabelWhileDisciplined(lagUs: nat)
    requires lagUs < 1000000
    ensures
      var readings, last := HealthyStart(9, lagUs) + [Stale(lagUs)], Stale(lagUs);
      var t := Run(Start(), readings);
      && AllUsable(readings)
      && t.ladder.clock == Snapshot(DISCIPLINED, (FIRST_EDGE + 8) * 1000000, DISCIPLINED_UNC_NS, true)
      && EdgeTimeNs(t, last.nowUs) == t.ladder.clock.utcEstimateUs * 1000 + 1000000000 + lagUs * 1000
      && !Tracks(t, last.nowUs)
  {
    hide Turn;
    var readings := HealthyStart(9, lagUs) + [Stale(lagUs)];
    StartedAfter(8, lagUs);
    assert readings[..9] == HealthyStart(9, lagUs);
    StaleTurn(Run(Start(), HealthyStart(9, lagUs)), lagUs);
  }
}
