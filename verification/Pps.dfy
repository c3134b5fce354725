// The 1PPS lock estimator (components/gps_clock/gps_clock_pps.c). The latched capture count, the
// edge counter, the NMEA fix and the clock reading are inputs.
module Pps {
  import opened Arith

  const TICKS_PER_SEC := 40000000
  const TOL_ACQUIRE_TICKS := 80000
  const TOL_LOCKED_TICKS := 8000
  const LOCK_EDGES := 8
  const RELOCK_EDGES := 5
  const K_REJECT := 3
  const SECOND_CORROB := 2
  const KI_TAU_S := 200
  const DRIFT_CLAMP_PPB := 100000
  const WINDUP_FREEZE_NS := 5000
  const NS_PER_SEC := 1000000000
  const NO_SECOND := -0x8000_0000_0000_0000
  const TWO64 := 0x1_0000_0000_0000_0000
  const TWO63 := 0x8000_0000_0000_0000

  datatype Input = Input(cap: nat, pcnt: int, fixValid: bool, rmcSecond: int, nowUs: int)

  datatype Signals = Signals(present: bool, edgeCountDelta: int, phaseErrNs: int, converged: bool,
                             lastEdgeNowUs: int, lastEdgeUtcNs: int, driftPpb: int)

  // An accepted edge: how many pulses the counter saw, the interval's error in capture ticks,
  // whether the estimator was locked, the second it was labelled with and the clock of its tick.
  datatype Edge = Edge(count: int, off: int, locked: bool, second: int, nowUs: int)

  datatype Estimator = Estimator(
    locked: bool, seeded: bool, goodEdges: nat, rejectRun: nat, secondAgrees: nat,
    anchorNowUs: int, anchorUtcNs: int, driftPpb: int, prevSecond: int,
    lastCap: nat, haveCap: bool, lastPcnt: int, accepted: seq<Edge>)

  // ---- one tick, as a function of the estimator before it

  function Silent(): Signals {
    Signals(false, 0, 0, false, 0, 0, 0)
  }

  function Held(e: Estimator, edgeDelta: int): Signals {
    Signals(false, edgeDelta, 0, false, e.anchorNowUs, e.anchorUtcNs, e.driftPpb)
  }

  // The interval since the last capture less one second, with the counter's 64-bit wrap.
  function Offset(lastCap: nat, cap: nat): int {
    var dticks := (cap - lastCap) % TWO64;
    (if dticks < TWO63 then dticks else dticks - TWO64) - TICKS_PER_SEC
  }

  function Tolerance(locked: bool): int {
    if locked then TOL_LOCKED_TICKS else TOL_ACQUIRE_TICKS
  }

  predicate InBand(off: int, locked: bool) {
    -Tolerance(locked) <= off <= Tolerance(locked)
  }

  function Rejected(e: Estimator, cap: nat): Estimator {
    var run := e.rejectRun + 1;
    e.(lastCap := cap, rejectRun := run,
       locked := if run >= K_REJECT then false else e.locked,
       goodEdges := if run >= K_REJECT then 0 else e.goodEdges)
  }

  predicate Sequential(e: Estimator, second: int) {
    e.prevSecond != NO_SECOND && second == e.prevSecond + 1
  }

  function Labelled(e: Estimator, second: int): Estimator {
    if Sequential(e, second) then
      e.(prevSecond := second,
         secondAgrees := if e.secondAgrees < SECOND_CORROB then e.secondAgrees + 1 else e.secondAgrees)
    else e.(prevSecond := second, secondAgrees := 0, locked := false, goodEdges := 0)
  }

  function Residual(e: Estimator, nowUs: int, second: int): int {
    var dtNs := (nowUs - e.anchorNowUs) * 1000;
    var driftCorr := TruncDiv(dtNs * e.driftPpb, NS_PER_SEC);
    second * NS_PER_SEC - (e.anchorUtcNs + dtNs + driftCorr)
  }

  function Clamp(x: int): int {
    if x > DRIFT_CLAMP_PPB then DRIFT_CLAMP_PPB
    else if x < -DRIFT_CLAMP_PPB then -DRIFT_CLAMP_PPB
    else x
  }

  function Integrated(e: Estimator, errNs: int): Estimator {
    if e.locked && -WINDUP_FREEZE_NS < errNs < WINDUP_FREEZE_NS then
      e.(driftPpb := Clamp(e.driftPpb + TruncDiv(errNs, KI_TAU_S)))
    else e
  }

  function Pinned(e: Estimator, nowUs: int, second: int): Estimator {
    e.(anchorNowUs := nowUs, anchorUtcNs := second * NS_PER_SEC, seeded := true)
  }

  function Need(e: Estimator): nat {
    if e.locked then RELOCK_EDGES else LOCK_EDGES
  }

  predicate Converged(e: Estimator) {
    e.goodEdges >= Need(e) && e.secondAgrees >= SECOND_CORROB
  }

  function EdgeCounted(e: Estimator): Estimator {
    e.(goodEdges := if e.goodEdges < Need(e) then e.goodEdges + 1 else e.goodEdges)
  }

  // An accepted edge: corroborate its label, update the drift, pin the phase, book the lock.
  function Tracked(e: Estimator, nowUs: int, second: int): (Estimator, int) {
    var labelled := Labelled(e, second);
    if !labelled.seeded || !Sequential(e, second) then (Pinned(labelled, nowUs, second), 0)
    else
      var errNs := Residual(labelled, nowUs, second);
      (Pinned(Integrated(labelled, errNs), nowUs, second), Magnitude(errNs))
  }

  function Accepted(e: Estimator, input: Input, edgeDelta: int): (Estimator, Signals) {
    var tracked := Tracked(e.(rejectRun := 0), input.nowUs, input.rmcSecond);
    var counted := EdgeCounted(tracked.0);
    var converged := Converged(counted);
    var edge := Edge(edgeDelta, Offset(e.lastCap, input.cap), e.locked, input.rmcSecond, input.nowUs);
    var after := counted.(locked := counted.locked || converged, lastCap := input.cap,
                          accepted := e.accepted + [edge]);
    (after, Signals(true, edgeDelta, tracked.1, converged, after.anchorNowUs, after.anchorUtcNs, after.driftPpb))
  }

  function Next(before: Estimator, input: Input): (Estimator, Signals) {
    var edgeDelta := input.pcnt - before.lastPcnt;
    var e := before.(lastPcnt := input.pcnt);
    if !e.haveCap then (e.(lastCap := input.cap, haveCap := true), Silent())
    else if input.cap == e.lastCap || edgeDelta == 0 then (e, Held(e, edgeDelta))
    else if !input.fixValid then
      (e.(lastCap := input.cap, goodEdges := 0, locked := false), Silent())
    else if edgeDelta != 1 || !InBand(Offset(e.lastCap, input.cap), e.locked) then
      var rejected := Rejected(e, input.cap);
      (rejected, Held(rejected, edgeDelta))
    else Accepted(e, input, edgeDelta)
  }

  function Reset(): Estimator {
    Estimator(false, false, 0, 0, 0, 0, 0, 0, NO_SECOND, 0, false, 0, [])
  }

  // ---- the capture layer's state, updated in place

  class Capture {
    var active: bool
    var locked: bool
    var seeded: bool
    var goodEdges: nat
    var rejectRun: nat
    var secondAgrees: nat
    var anchorNowUs: int
    var anchorUtcNs: int
    var driftPpb: int
    var prevSecond: int
    var lastCap: nat
    var haveCap: bool
    var lastPcnt: int
    ghost var accepted: seq<Edge>

    ghost function Value(): Estimator
      reads this
    {
      Estimator(locked, seeded, goodEdges, rejectRun, secondAgrees, anchorNowUs, anchorUtcNs,
                driftPpb, prevSecond, lastCap, haveCap, lastPcnt, accepted)
    }

    constructor (wired: bool)
      ensures Value() == Reset() && active == wired
    {
      active := wired;
      locked, seeded, goodEdges, rejectRun, secondAgrees := false, false, 0, 0, 0;
      anchorNowUs, anchorUtcNs, driftPpb, prevSecond := 0, 0, 0, NO_SECOND;
      lastCap, haveCap, lastPcnt, accepted := 0, false, 0, [];
    }

    method PinPhase(nowUs: int, utcSecond: int)
      modifies this`anchorNowUs, this`anchorUtcNs, this`seeded
      ensures Value() == Pinned(old(Value()), nowUs, utcSecond)
    {
      anchorNowUs := nowUs;
      anchorUtcNs := utcSecond * NS_PER_SEC;
      seeded := true;
    }

    // The anti-windup integrator: only while locked and truly tracking.
    method Integrate(errNs: int)
      modifies this`driftPpb
      ensures Value() == Integrated(old(Value()), errNs)
    {
      hide TruncDiv;
      if locked && errNs < WINDUP_FREEZE_NS && errNs > -WINDUP_FREEZE_NS {
        var dd := TruncDiv(errNs, KI_TAU_S);
        var nd := driftPpb + dd;
        if nd > DRIFT_CLAMP_PPB {
          nd := DRIFT_CLAMP_PPB;
        }
        if nd < -DRIFT_CLAMP_PPB {
          nd := -DRIFT_CLAMP_PPB;
        }
        driftPpb := nd;
      }
    }

    method BookEdge() returns (converged: bool)
      modifies this`goodEdges, this`locked
      ensures converged == Converged(EdgeCounted(old(Value())))
      ensures Value() == EdgeCounted(old(Value())).(locked := old(locked) || converged)
    {
      if goodEdges < (if locked then RELOCK_EDGES else LOCK_EDGES) {
        goodEdges := goodEdges + 1;
      }
      var need := if locked then RELOCK_EDGES else LOCK_EDGES;
      converged := goodEdges >= need && secondAgrees >= SECOND_CORROB;
      if converged {
        locked := true;
      }
    }

    // One supervisor tick; captureOk is false when the latched count cannot be read.
    method Tick(captureOk: bool, input: Input) returns (sig: Signals)
      modifies this
      ensures active == old(active)
      ensures !active || !captureOk ==> Value() == old(Value()) && sig == Silent()
      ensures active && captureOk ==> (Value(), sig) == Next(old(Value()), input)
    {
      hide Accepted;
      sig := Silent();
      if !active || !captureOk {
        return;
      }
      var edgeDelta := input.pcnt - lastPcnt;
      lastPcnt := input.pcnt;
      if !haveCap {
        lastCap := input.cap;
        haveCap := true;
        return;
      }
      if input.cap == lastCap || edgeDelta == 0 {
        sig := Signals(false, edgeDelta, 0, false, anchorNowUs, anchorUtcNs, driftPpb);
        return;
      }
      if !input.fixValid {
        lastCap := input.cap;
        goodEdges := 0;
        locked := false;
        return;
      }
      var off := Offset(lastCap, input.cap);
      var tol := if locked then TOL_LOCKED_TICKS else TOL_ACQUIRE_TICKS;
      var single, inBand := edgeDelta == 1, off <= tol && off >= -tol;
      if !single || !inBand {
        lastCap := input.cap;
        rejectRun := rejectRun + 1;
        if rejectRun >= K_REJECT {
          locked := false;
          goodEdges := 0;
        }
        sig := Signals(false, edgeDelta, 0, false, anchorNowUs, anchorUtcNs, driftPpb);
        return;
      }
      sig := AcceptEdge(input, edgeDelta);
    }

    method AcceptEdge(input: Input, edgeDelta: int) returns (sig: Signals)
      modifies this`locked, this`seeded, this`goodEdges, this`rejectRun, this`secondAgrees, this`anchorNowUs,
               this`anchorUtcNs, this`driftPpb, this`prevSecond, this`lastCap, this`accepted
      ensures (Value(), sig) == Accepted(old(Value()), input, edgeDelta)
    {
      hide Tracked;
      ghost var edge := Edge(edgeDelta, Offset(lastCap, input.cap), locked, input.rmcSecond, input.nowUs);
      rejectRun := 0;
      var phaseErrNs := Track(input.nowUs, input.rmcSecond);
      var converged := BookEdge();
      lastCap := input.cap;
      accepted := accepted + [edge];
      sig := Signals(true, edgeDelta, phaseErrNs, converged, anchorNowUs, anchorUtcNs, driftPpb);
    }

    method Track(nowUs: int, edgeSecond: int) returns (phaseErrNs: int)
      modifies this`locked, this`seeded, this`goodEdges, this`secondAgrees, this`anchorNowUs,
               this`anchorUtcNs, this`driftPpb, this`prevSecond
      ensures (Value(), phaseErrNs) == Tracked(old(Value()), nowUs, edgeSecond)
    {
      hide TruncDiv, Integrated;
      var sequential := prevSecond != NO_SECOND && edgeSecond == prevSecond + 1;
      if sequential {
        if secondAgrees < SECOND_CORROB {
          secondAgrees := secondAgrees + 1;
        }
      } else {
        secondAgrees := 0;
        locked := false;
        goodEdges := 0;
      }
      prevSecond := edgeSecond;
      phaseErrNs := 0;
      if !seeded || !sequential {
        PinPhase(nowUs, edgeSecond);
      } else {
        var dtNs := (nowUs - anchorNowUs) * 1000;
        var driftCorr := TruncDiv(dtNs * driftPpb, NS_PER_SEC);
        var predicted := anchorUtcNs + dtNs + driftCorr;
        var errNs := edgeSecond * NS_PER_SEC - predicted;
        Integrate(errNs);
        PinPhase(nowUs, edgeSecond);
        phaseErrNs := if errNs < 0 then -errNs else errNs;
      }
    }
  }

  // ---- what every tick keeps

  predicate Followed(e: Estimator) {
    && |e.accepted| >= e.goodEdges
    && (e.prevSecond != NO_SECOND ==> |e.accepted| > 0)
    && (|e.accepted| > 0 ==> e.accepted[|e.accepted| - 1].second == e.prevSecond
                             && e.accepted[|e.accepted| - 1].nowUs == e.anchorNowUs)
    // The edges counted as good are the most recent, on consecutive seconds.
    && (forall i :: |e.accepted| - e.goodEdges <= i < |e.accepted| ==>
          e.accepted[i].second == e.prevSecond - (|e.accepted| - 1 - i))
    // Every accepted edge was a single pulse, in the tolerance of its time.
    && (forall i :: 0 <= i < |e.accepted| ==> Clean(e.accepted[i]))
  }

  predicate Clean(edge: Edge) {
    edge.count == 1 && InBand(edge.off, edge.locked)
  }

  predicate Inv(e: Estimator) {
    && (e.locked ==> e.seeded && e.secondAgrees == SECOND_CORROB && e.goodEdges == LOCK_EDGES)
    && e.goodEdges <= LOCK_EDGES && e.secondAgrees <= SECOND_CORROB
    && (e.rejectRun >= K_REJECT ==> !e.locked && e.goodEdges == 0)
    && e.anchorUtcNs == (if e.seeded then e.prevSecond * NS_PER_SEC else 0)
    && -DRIFT_CLAMP_PPB <= e.driftPpb <= DRIFT_CLAMP_PPB
    && (e.seeded <==> |e.accepted| > 0)
    && Followed(e)
  }

  lemma ResetInv()
    ensures Inv(Reset())
  {
  }

  lemma TrackedIs(e: Estimator, nowUs: int, second: int)
    requires -DRIFT_CLAMP_PPB <= e.driftPpb <= DRIFT_CLAMP_PPB
    ensures
      var t := Tracked(e, nowUs, second).0;
      var run := Sequential(e, second);
      && t == e.(seeded := true, anchorNowUs := nowUs, anchorUtcNs := second * NS_PER_SEC, prevSecond := second,
                 locked := run && e.locked, goodEdges := if run then e.goodEdges else 0,
                 secondAgrees := t.secondAgrees, driftPpb := t.driftPpb)
      && t.secondAgrees == (if !run then 0 else if e.secondAgrees < 2 then e.secondAgrees + 1 else e.secondAgrees)
      && -DRIFT_CLAMP_PPB <= t.driftPpb <= DRIFT_CLAMP_PPB
      && Magnitude(t.driftPpb - e.driftPpb) <= 24
      && (!e.locked ==> t.driftPpb == e.driftPpb)
  {
  }

  lemma AcceptedInv(e: Estimator, input: Input)
    requires Inv(e) && InBand(Offset(e.lastCap, input.cap), e.locked)
    ensures Inv(Accepted(e, input, 1).0)
  {
    hide Tracked, Offset;
    var cleared := e.(rejectRun := 0);
    TrackedIs(cleared, input.nowUs, input.rmcSecond);
    AcceptedFollowed(e, input);
  }

  lemma AcceptedFollowed(e: Estimator, input: Input)
    requires Inv(e) && InBand(Offset(e.lastCap, input.cap), e.locked)
    ensures Followed(Accepted(e, input, 1).0)
  {
    hide Tracked, Offset;
    var cleared := e.(rejectRun := 0);
    TrackedIs(cleared, input.nowUs, input.rmcSecond);
    var t := Accepted(e, input, 1).0;
    var n := |e.accepted|;
    forall i | |t.accepted| - t.goodEdges <= i < |t.accepted|
      ensures t.accepted[i].second == t.prevSecond - (|t.accepted| - 1 - i)
    {
      if i < n {
        assert e.accepted[i].second == e.prevSecond - (n - 1 - i);
      }
    }
  }

  lemma TickInv(e: Estimator, input: Input)
    requires Inv(e)
    ensures Inv(Next(e, input).0)
  {
    hide Accepted, Offset, InBand;
    var f := e.(lastPcnt := input.pcnt);
    if f.haveCap && input.cap != f.lastCap && input.fixValid && input.pcnt - e.lastPcnt == 1
       && InBand(Offset(f.lastCap, input.cap), f.locked) {
      AcceptedInv(f, input);
    }
  }

  // ---- what one tick may do

  predicate Rejects(e: Estimator, input: Input) {
    && e.haveCap && input.cap != e.lastCap && input.fixValid
    && input.pcnt != e.lastPcnt
    && (input.pcnt - e.lastPcnt != 1 || !InBand(Offset(e.lastCap, input.cap), e.locked))
  }

  // A usable edge is reported exactly when one is accepted; the drift moves only on an accepted
  // edge while locked, by at most 24 ppb; losing the lock leaves at most this edge to its credit.
  lemma TickEffects(e: Estimator, input: Input)
    requires Inv(e)
    ensures
      var (t, sig) := Next(e, input);
      && (if sig.present then |t.accepted| == |e.accepted| + 1 && t.accepted[..|e.accepted|] == e.accepted
          else t.accepted == e.accepted && t.driftPpb == e.driftPpb && !sig.converged)
      && Magnitude(t.driftPpb - e.driftPpb) <= 24 && (!e.locked ==> t.driftPpb == e.driftPpb)
      && (e.locked && !t.locked ==> t.goodEdges <= 1)
      && t.goodEdges <= e.goodEdges + (|t.accepted| - |e.accepted|)
      && (t.accepted == e.accepted ==>
            t.rejectRun == e.rejectRun + (if Rejects(e, input) then 1 else 0) && (t.locked ==> e.locked))
  {
    hide Tracked, Offset, InBand, Followed;
    TrackedIs(e.(lastPcnt := input.pcnt, rejectRun := 0), input.nowUs, input.rmcSecond);
  }

  // A reported convergence: the last eight accepted edges were single pulses, in tolerance, and
  // labelled with consecutive seconds ending in this one, where the phase is pinned.
  predicate EightCleanEdges(e: Estimator, second: int) {
    var n := |e.accepted|;
    && n >= LOCK_EDGES
    && forall i :: n - LOCK_EDGES <= i < n ==>
         Clean(e.accepted[i]) && e.accepted[i].second == second - (n - 1 - i)
  }

  lemma ConvergenceMeans(e: Estimator, input: Input)
    requires Inv(e) && Next(e, input).1.converged
    ensures
      var (t, sig) := Next(e, input);
      && t.locked && sig.present && EightCleanEdges(t, input.rmcSecond)
      && sig.lastEdgeUtcNs == input.rmcSecond * NS_PER_SEC && sig.lastEdgeNowUs == input.nowUs
  {
    hide Followed;
    TickInv(e, input);
    ConvergedTick(e, input);
    GoodEdgesClean(Next(e, input).0);
  }

  lemma ConvergedTick(e: Estimator, input: Input)
    requires Inv(e) && Next(e, input).1.converged
    ensures
      var (t, sig) := Next(e, input);
      && t.locked && sig.present && t.prevSecond == input.rmcSecond && t.goodEdges == LOCK_EDGES
      && sig.lastEdgeUtcNs == input.rmcSecond * NS_PER_SEC && sig.lastEdgeNowUs == input.nowUs
  {
  }

  lemma GoodEdgesClean(e: Estimator)
    requires Followed(e) && e.goodEdges == LOCK_EDGES
    ensures EightCleanEdges(e, e.prevSecond)
  {
  }

  // ---- whole runs

  function Run(e: Estimator, inputs: seq<Input>): Estimator {
    if |inputs| == 0 then e else Next(Run(e, inputs[..|inputs| - 1]), inputs[|inputs| - 1]).0
  }

  lemma {:induction false} RunInv(e: Estimator, inputs: seq<Input>)
    requires Inv(e)
    ensures Inv(Run(e, inputs))
  {
    hide Inv, Next;
    if |inputs| != 0 {
      RunInv(e, inputs[..|inputs| - 1]);
      TickInv(Run(e, inputs[..|inputs| - 1]), inputs[|inputs| - 1]);
    }
  }

  lemma {:induction false} CreditNeedsEdges(e: Estimator, inputs: seq<Input>)
    requires Inv(e)
    ensures |Run(e, inputs).accepted| >= |e.accepted|
    ensures Run(e, inputs).goodEdges <= e.goodEdges + (|Run(e, inputs).accepted| - |e.accepted|)
  {
    hide Inv, Next;
    if |inputs| != 0 {
      var most := inputs[..|inputs| - 1];
      CreditNeedsEdges(e, most);
      RunInv(e, most);
      TickEffects(Run(e, most), inputs[|inputs| - 1]);
    }
  }

  // The shorter relock threshold is never the one that decides: every unlock clears the credit,
  // so a lock regained takes eight fresh accepted edges, as the first lock did.
  lemma RelockTakesEight(e: Estimator, inputs: seq<Input>)
    requires Inv(e) && !e.locked && Run(e, inputs).locked
    ensures |Run(e, inputs).accepted| - |e.accepted| >= LOCK_EDGES - e.goodEdges
  {
    hide Run;
    CreditNeedsEdges(e, inputs);
    RunInv(e, inputs);
  }

  function Rejections(e: Estimator, inputs: seq<Input>): nat {
    if |inputs| == 0 then 0
    else
      var most := inputs[..|inputs| - 1];
      Rejections(e, most) + (if Rejects(Run(e, most), inputs[|inputs| - 1]) then 1 else 0)
  }

  lemma {:induction false} RejectsCounted(e: Estimator, inputs: seq<Input>)
    requires Inv(e) && |Run(e, inputs).accepted| == |e.accepted|
    ensures Run(e, inputs).rejectRun == e.rejectRun + Rejections(e, inputs)
  {
    hide Inv, Next, Rejects;
    if |inputs| != 0 {
      var most := inputs[..|inputs| - 1];
      CreditNeedsEdges(e, most);
      RunInv(e, most);
      TickEffects(Run(e, most), inputs[|inputs| - 1]);
      RejectsCounted(e, most);
    }
  }

  // Three rejected edges with none accepted between them: the lock is gone.
  lemma ThreeRejectsUnlock(e: Estimator, inputs: seq<Input>)
    requires Inv(e) && |Run(e, inputs).accepted| == |e.accepted| && Rejections(e, inputs) >= K_REJECT
    ensures !Run(e, inputs).locked && Run(e, inputs).goodEdges == 0
  {
    hide Run, Rejections;
    RejectsCounted(e, inputs);
    RunInv(e, inputs);
  }
}
