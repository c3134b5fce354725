// What the quality ladder keeps on every tick and over every run.
module LadderRuns {
  import opened Geo
  import opened Nmea
  import opened Ladder
  import Pps

  // ---- the invariant

  // With the GPS as the only writer during the run, it owns the reference exactly on the rungs
  // that hold a fix.
  predicate OwnsReference(ref: Ref) {
    ref.valid && ref.source == Gps
  }

  predicate Counters(s: State) {
    && s.quality <= DISCIPLINED
    && s.fixGood <= FIX_GOOD_TICKS && s.fixMiss <= FIX_MISS_TICKS
    && s.noByteTicks <= BYTES_LOST_TICKS && s.ppsMiss <= PPS_MISS_TICKS
    && (s.quality == NONE ==> s.fixGood == 0)
    && (s.quality == FREE_RUNNING ==> s.fixGood < FIX_GOOD_TICKS)
    && (s.quality >= NMEA_FIX ==> s.fixMiss < FIX_MISS_TICKS)
    && (s.noByteTicks == BYTES_LOST_TICKS ==> s.quality == NONE)
    && (s.quality == HOLDOVER ==> DISCIPLINED_UNC_NS <= s.holdoverUnc < HOLDOVER_CEIL_NS)
  }

  // What is published is the current rung, with that rung's uncertainty and fix flag.
  predicate Announced(s: State) {
    s.clock.quality == s.quality && Announces(s.clock)
  }

  predicate Announces(c: Snapshot) {
    && (c.hasOwnshipFix <==> c.quality >= NMEA_FIX)
    && (c.uncertaintyNs == UINT32_MAX <==> c.quality < NMEA_FIX)
    && (c.quality == HOLDOVER ==> DISCIPLINED_UNC_NS <= c.uncertaintyNs < HOLDOVER_CEIL_NS)
    && (c.quality == DISCIPLINED ==> c.uncertaintyNs == DISCIPLINED_UNC_NS)
  }

  predicate Settled(s: State) {
    s.quality >= NMEA_FIX <==> OwnsReference(s.ownship)
  }

  // The safety property: whoever sees a fix-bearing quality sees a valid reference.
  predicate Safe(m: Moment) {
    (m.clock.quality >= NMEA_FIX ==> m.ownship.valid) && Announces(m.clock)
  }

  predicate AllSafe(s: State) {
    forall i :: 0 <= i < |s.seen| ==> Safe(s.seen[i])
  }

  predicate Inv(s: State) {
    Counters(s) && Announced(s) && Settled(s) && AllSafe(s)
  }

  lemma BootInv(nowUs: int, ownship: Ref)
    requires ownship.source != Gps
    ensures Inv(Boot(nowUs, ownship))
  {
  }

  // ---- one tick

  lemma RepublishedInv(s: State, input: Input)
    requires Counters(s) && Settled(s) && AllSafe(s)
    ensures Inv(Republished(s, input))
  {
  }

  // A refreshed position keeps the reference; a refused one leaves the previous fix.
  lemma PushedKeeps(s: State, input: Input)
    requires Announces(s.clock) && AllSafe(s)
    ensures
      var t := Pushed(s, input);
      AllSafe(t) && t == s.(ownship := t.ownship, seen := t.seen)
      && (OwnsReference(s.ownship) || InBounds(input.nmea.lat, input.nmea.lon) ==> OwnsReference(t.ownship))
  {
  }

  lemma DemotedInv(s: State, to: nat, input: Input)
    requires Settled(s) && AllSafe(s) && Counters(s.(quality := to))
    requires to < NMEA_FIX && s.quality >= NMEA_FIX
    ensures Inv(Cleared(Republished(s.(quality := to), input)))
  {
  }

  // Every change of rung, in the order its side effects are given, keeps the invariant: into the
  // fix rungs only with a usable position.
  lemma QualitySetInv(s: State, to: nat, input: Input)
    requires Announced(s) && Settled(s) && AllSafe(s) && Counters(s.(quality := to))
    requires to >= NMEA_FIX && s.quality < NMEA_FIX ==> InBounds(input.nmea.lat, input.nmea.lon)
    ensures Inv(QualitySet(s, to, input))
  {
    hide Republished, Announces, Counters;
    if to == s.quality {
      assert s.(quality := to) == s;
    } else if to >= NMEA_FIX && s.quality < NMEA_FIX {
      PushedKeeps(s, input);
      PushedCounters(s, to, input);
      RepublishedInv(Pushed(s, input).(quality := to), input);
    } else if to < NMEA_FIX && s.quality >= NMEA_FIX {
      DemotedInv(s, to, input);
    } else {
      RepublishedInv(s.(quality := to), input);
    }
  }

  lemma PushedCounters(s: State, to: nat, input: Input)
    requires Counters(s.(quality := to))
    ensures Counters(Pushed(s, input).(quality := to))
  {
  }

  // What a change of rung leaves alone.
  lemma QualitySetFrame(s: State, to: nat, input: Input)
    ensures
      var t := QualitySet(s, to, input);
      t == s.(quality := to, clock := t.clock, ownship := t.ownship, seen := t.seen)
  {
  }

  // Both counters, after this tick's evidence and before the rung is chosen.
  predicate Counted(s: State) {
    && FREE_RUNNING <= s.quality <= DISCIPLINED
    && s.fixGood <= FIX_GOOD_TICKS && s.fixMiss <= FIX_MISS_TICKS
    && s.noByteTicks < BYTES_LOST_TICKS && s.ppsMiss <= PPS_MISS_TICKS
    && (s.fixMiss >= FIX_MISS_TICKS ==> s.fixGood == 0)
    && (s.quality == HOLDOVER ==> DISCIPLINED_UNC_NS <= s.holdoverUnc < HOLDOVER_CEIL_NS)
  }

  lemma UpperRungsInv(s: State, input: Input)
    requires Counted(s) && s.quality >= NMEA_FIX && s.fixMiss < FIX_MISS_TICKS
    requires Announced(s) && Settled(s) && AllSafe(s)
    ensures Inv(UpperRungs(s, input))
  {
    hide QualitySet, Republished, AllSafe, Announces, OwnsReference;
    var settled := s.(holdoverUnc := DISCIPLINED_UNC_NS);
    if (s.quality == NMEA_FIX || s.quality == HOLDOVER) && input.pps.converged {
      SameMoments(s, settled);
      QualitySetInv(settled, DISCIPLINED, input);
    } else if s.quality == DISCIPLINED && s.ppsMiss >= PPS_MISS_TICKS {
      SameMoments(s, settled);
      QualitySetInv(settled, HOLDOVER, input);
    } else if s.quality == HOLDOVER {
      var grown := s.(holdoverUnc := Grown(s.holdoverUnc));
      SameMoments(s, grown);
      if grown.holdoverUnc >= HOLDOVER_CEIL_NS {
        QualitySetInv(grown, NMEA_FIX, input);
      } else {
        RepublishedInv(grown, input);
      }
    } else {
      RepublishedInv(s, input);
    }
  }

  lemma SameMoments(s: State, t: State)
    requires s.seen == t.seen
    ensures AllSafe(s) <==> AllSafe(t)
  {
  }

  // Promotion happens only on a tick whose own fix is valid: the third good fix is the fresh one.
  lemma FreshAtPromotion(s: State, input: Input)
    requires s.fixGood < FIX_GOOD_TICKS && Usable(input.nmea)
    requires FixCounted(s, input).fixGood >= FIX_GOOD_TICKS
    ensures Fresh(s, input) && InBounds(input.nmea.lat, input.nmea.lon)
  {
  }

  lemma CountedAfter(s: State, input: Input)
    requires Counters(s) && s.quality >= FREE_RUNNING && s.noByteTicks < BYTES_LOST_TICKS
    ensures Counted(PpsCounted(FixCounted(s, input), input))
    ensures
      var t := PpsCounted(FixCounted(s, input), input);
      t == s.(fixGood := t.fixGood, fixMiss := t.fixMiss, lastFixSeq := t.lastFixSeq, ppsMiss := t.ppsMiss)
      && t.fixGood == FixCounted(s, input).fixGood
  {
  }

  lemma RungSelectedInv(s: State, input: Input)
    requires Counted(s) && Announced(s) && Settled(s) && AllSafe(s)
    requires s.quality == FREE_RUNNING && s.fixGood >= FIX_GOOD_TICKS ==>
               InBounds(input.nmea.lat, input.nmea.lon)
    ensures Inv(RungSelected(s, input))
  {
    hide QualitySet, UpperRungs, AllSafe, Announces;
    if s.quality >= NMEA_FIX {
      if s.fixMiss >= FIX_MISS_TICKS {
        var dropped := s.(ppsMiss := PPS_MISS_TICKS, holdoverUnc := 0);
        SameMoments(s, dropped);
        QualitySetInv(dropped, FREE_RUNNING, input);
      } else {
        PushedKeeps(s, input);
        UpperRungsInv(Pushed(s, input), input);
      }
    } else if s.fixGood >= FIX_GOOD_TICKS {
      SameMoments(s, s.(ppsMiss := 0));
      QualitySetInv(s.(ppsMiss := 0), NMEA_FIX, input);
    }
  }

  lemma StepInv(before: State, byteDelta: nat, input: Input)
    requires Inv(before) && Usable(input.nmea)
    ensures Inv(Step(before, byteDelta, input))
  {
    hide QualitySet, RungSelected, FixCounted, PpsCounted, AllSafe, Announces, OwnsReference, Usable, InBounds;
    var s := ByteCounted(before, byteDelta);
    SameMoments(before, s);
    if s.noByteTicks >= BYTES_LOST_TICKS {
      var lost := s.(presenceTicks := 0, fixGood := 0, fixMiss := 0);
      SameMoments(s, lost);
      QualitySetInv(lost, NONE, input);
    } else if s.quality == NONE {
      NoneInv(s, input);
    } else {
      CountedAfter(s, input);
      var t := PpsCounted(FixCounted(s, input), input);
      SameMoments(s, t);
      if t.quality == FREE_RUNNING && t.fixGood >= FIX_GOOD_TICKS {
        FreshAtPromotion(s, input);
      }
      RungSelectedInv(t, input);
    }
  }

  lemma NoneInv(s: State, input: Input)
    requires Inv(s) && s.quality == NONE && s.noByteTicks < BYTES_LOST_TICKS
    ensures Inv(Awaited(s, input))
  {
  }

  lemma TickInv(s: State, input: Input)
    requires Inv(s) && Usable(input.nmea)
    ensures Inv(Tick(s, input))
  {
    hide Step, Announces, OwnsReference, Usable;
    StepInv(s.(lastByteCount := input.nmea.byteCount), ByteDelta(s, input), input);
  }

  // ---- whole runs

  function Run(s: State, inputs: seq<Input>): State {
    if |inputs| == 0 then s else Tick(Run(s, inputs[..|inputs| - 1]), inputs[|inputs| - 1])
  }

  predicate AllUsable(inputs: seq<Input>) {
    forall i :: 0 <= i < |inputs| ==> Usable(inputs[i].nmea)
  }

  // Whatever the receiver does: at every moment of every run, a published fix-bearing quality
  // comes with a valid reference, and at the end of every tick the GPS owns the reference
  // exactly when the published quality bears a fix.
  lemma {:induction false} LadderSafety(s: State, inputs: seq<Input>)
    requires Inv(s) && AllUsable(inputs)
    ensures Inv(Run(s, inputs))
  {
    hide Inv, Tick, Usable;
    if |inputs| != 0 {
      LadderSafety(s, inputs[..|inputs| - 1]);
      TickInv(Run(s, inputs[..|inputs| - 1]), inputs[|inputs| - 1]);
    }
  }

  // ---- how the rungs are entered and left

  // The rung, the miss counters and the holdover uncertainty after a tick's selection.
  datatype Choice = Choice(quality: nat, unc: nat)

  function UpperChoice(s: State, converged: bool): Choice {
    if s.quality == DISCIPLINED then
      if s.ppsMiss >= PPS_MISS_TICKS then Choice(HOLDOVER, DISCIPLINED_UNC_NS)
      else Choice(DISCIPLINED, s.holdoverUnc)
    else if converged then Choice(DISCIPLINED, DISCIPLINED_UNC_NS)
    else if s.quality == NMEA_FIX then Choice(NMEA_FIX, s.holdoverUnc)
    else
      var grown := Grown(s.holdoverUnc);
      Choice(if grown >= HOLDOVER_CEIL_NS then NMEA_FIX else HOLDOVER, grown)
  }

  lemma UpperRungsChoice(s: State, input: Input)
    requires NMEA_FIX <= s.quality <= DISCIPLINED
    ensures
      var t, c := UpperRungs(s, input), UpperChoice(s, input.pps.converged);
      t == s.(quality := c.quality, holdoverUnc := c.unc, clock := t.clock, ownship := t.ownship, seen := t.seen)
  {
  }

  lemma PushedFrame(s: State, input: Input)
    ensures var t := Pushed(s, input); t == s.(ownship := t.ownship, seen := t.seen)
  {
  }

  function SelectedChoice(s: State, converged: bool): Choice {
    if s.quality >= NMEA_FIX then
      if s.fixMiss >= FIX_MISS_TICKS then Choice(FREE_RUNNING, 0) else UpperChoice(s, converged)
    else if s.fixGood >= FIX_GOOD_TICKS then Choice(NMEA_FIX, s.holdoverUnc)
    else Choice(s.quality, s.holdoverUnc)
  }

  lemma RungSelectedChoice(s: State, input: Input)
    requires s.quality <= DISCIPLINED
    ensures
      var t, c := RungSelected(s, input), SelectedChoice(s, input.pps.converged);
      t == s.(quality := c.quality, holdoverUnc := c.unc, ppsMiss := t.ppsMiss,
              clock := t.clock, ownship := t.ownship, seen := t.seen)
      && (t.quality == HOLDOVER ==> t.ppsMiss == s.ppsMiss)
  {
    hide QualitySet, UpperRungs, UpperChoice, Pushed;
    if s.quality >= NMEA_FIX {
      if s.fixMiss >= FIX_MISS_TICKS {
        QualitySetFrame(s.(ppsMiss := PPS_MISS_TICKS, holdoverUnc := 0), FREE_RUNNING, input);
      } else {
        PushedFrame(s, input);
        UpperRungsChoice(Pushed(s, input), input);
        SameChoice(s, Pushed(s, input), input.pps.converged);
      }
    } else if s.fixGood >= FIX_GOOD_TICKS {
      QualitySetFrame(s.(ppsMiss := 0), NMEA_FIX, input);
    }
  }

  lemma SameChoice(s: State, t: State, converged: bool)
    requires t == s.(ownship := t.ownship, seen := t.seen)
    ensures UpperChoice(s, converged) == UpperChoice(t, converged)
  {
  }

  predicate Lost(s: State, byteDelta: nat) {
    ByteCounted(s, byteDelta).noByteTicks >= BYTES_LOST_TICKS
  }

  // A tick on which the module is present and not starting up.
  lemma LiveStep(s: State, byteDelta: nat, input: Input)
    requires Inv(s) && s.quality >= FREE_RUNNING && !Lost(s, byteDelta)
    ensures
      var counted := PpsCounted(FixCounted(s, input), input);
      var t, c := Step(s, byteDelta, input), SelectedChoice(counted, input.pps.converged);
      t.quality == c.quality && t.holdoverUnc == c.unc
      && t.fixGood == counted.fixGood && t.fixMiss == counted.fixMiss
      && (t.quality == HOLDOVER ==> t.ppsMiss == counted.ppsMiss)
      && t.noByteTicks == ByteCounted(s, byteDelta).noByteTicks
  {
    hide SelectedChoice, RungSelected, QualitySet, AllSafe, Announces, OwnsReference, Settled;
    var b := ByteCounted(s, byteDelta);
    var t := PpsCounted(FixCounted(b, input), input);
    var u := PpsCounted(FixCounted(s, input), input);
    RungSelectedChoice(t, input);
    ChoiceOfCounters(t, u, input.pps.converged);
  }

  lemma ChoiceOfCounters(s: State, t: State, converged: bool)
    requires s.quality == t.quality && s.fixGood == t.fixGood && s.fixMiss == t.fixMiss
    requires s.ppsMiss == t.ppsMiss && s.holdoverUnc == t.holdoverUnc
    ensures SelectedChoice(s, converged) == SelectedChoice(t, converged)
  {
  }

  // Otherwise only NONE and FREE_RUNNING can follow.
  lemma IdleStep(s: State, byteDelta: nat, input: Input)
    requires Inv(s) && (s.quality == NONE || Lost(s, byteDelta))
    ensures
      var t := Step(s, byteDelta, input);
      t.quality <= FREE_RUNNING && t.fixMiss <= s.fixMiss
      && t.noByteTicks == ByteCounted(s, byteDelta).noByteTicks
      && (Lost(s, byteDelta) ==> t.quality == NONE)
  {
  }

  lemma TotalKeptInv(s: State, total: nat)
    requires Inv(s)
    ensures Inv(s.(lastByteCount := total))
  {
  }

  // HOLDOVER is entered only from DISCIPLINED, after PPS_MISS_TICKS ticks without an edge, and
  // DISCIPLINED only on convergence; a fix rung is entered from below only as NMEA_FIX, from
  // FREE_RUNNING, on a fresh fix.
  lemma RungEntry(s: State, input: Input)
    requires Inv(s)
    ensures
      var t := Tick(s, input);
      && (t.quality == HOLDOVER && s.quality != HOLDOVER ==>
            s.quality == DISCIPLINED && t.ppsMiss == PPS_MISS_TICKS && t.holdoverUnc == DISCIPLINED_UNC_NS)
      && (t.quality == DISCIPLINED && s.quality != DISCIPLINED ==>
            input.pps.converged && s.quality >= NMEA_FIX)
      && (t.quality >= NMEA_FIX && s.quality < NMEA_FIX ==>
            t.quality == NMEA_FIX && s.quality == FREE_RUNNING && Fresh(s, input))
  {
    hide Step, AllSafe, Announces, OwnsReference, Settled, Grown, ByteDelta;
    var byteDelta := ByteDelta(s, input);
    var b := s.(lastByteCount := input.nmea.byteCount);
    TotalKeptInv(s, input.nmea.byteCount);
    if s.quality == NONE || Lost(b, byteDelta) {
      IdleStep(b, byteDelta, input);
    } else {
      LiveStep(b, byteDelta, input);
    }
  }

  // What one tick does to the three timers.
  lemma TickTimers(s: State, input: Input)
    requires Inv(s)
    ensures
      var t := Tick(s, input);
      && (ByteDelta(s, input) == 0 ==> t.noByteTicks >= BYTES_LOST_TICKS || t.noByteTicks == s.noByteTicks + 1)
      && (!Fresh(s, input) && t.quality >= NMEA_FIX ==> s.quality >= NMEA_FIX && t.fixMiss == s.fixMiss + 1)
      && (!input.pps.converged && s.quality <= HOLDOVER ==> t.quality <= HOLDOVER)
      && (!input.pps.converged && s.quality <= HOLDOVER && t.quality == HOLDOVER ==>
            s.quality == HOLDOVER && t.holdoverUnc == s.holdoverUnc + HOLDOVER_GROWTH_NS)
  {
    hide Step, AllSafe, Announces, OwnsReference, Settled, ByteDelta;
    var byteDelta := ByteDelta(s, input);
    var b := s.(lastByteCount := input.nmea.byteCount);
    TotalKeptInv(s, input.nmea.byteCount);
    if s.quality == NONE || Lost(b, byteDelta) {
      IdleStep(b, byteDelta, input);
    } else {
      LiveStep(b, byteDelta, input);
    }
  }

  // ---- bounds over runs

  predicate EachTick(s: State, inputs: seq<Input>, holds: (State, Input) -> bool) {
    forall k :: 0 <= k < |inputs| ==> holds(Run(s, inputs[..k]), inputs[k])
  }

  lemma EachTickPrefix(s: State, inputs: seq<Input>, holds: (State, Input) -> bool)
    requires |inputs| > 0 && EachTick(s, inputs, holds)
    ensures EachTick(s, inputs[..|inputs| - 1], holds)
    ensures holds(Run(s, inputs[..|inputs| - 1]), inputs[|inputs| - 1])
  {
    hide Run;
    var most := inputs[..|inputs| - 1];
    forall k | 0 <= k < |most|
      ensures holds(Run(s, most[..k]), most[k])
    {
      assert most[..k] == inputs[..k];
    }
  }

  function NoFreshFix(): (State, Input) -> bool {
    (s: State, input: Input) => !Fresh(s, input)
  }

  function Byteless(): (State, Input) -> bool {
    (s: State, input: Input) => ByteDelta(s, input) == 0
  }

  function Unconverged(): (State, Input) -> bool {
    (s: State, input: Input) => !input.pps.converged
  }

  lemma {:induction false} MissesCounted(s: State, inputs: seq<Input>)
    requires Inv(s) && AllUsable(inputs) && EachTick(s, inputs, NoFreshFix())
    ensures Run(s, inputs).quality >= NMEA_FIX ==> Run(s, inputs).fixMiss >= |inputs|
  {
    hide Tick, Inv, Usable, Fresh;
    if |inputs| != 0 {
      var most := inputs[..|inputs| - 1];
      EachTickPrefix(s, inputs, NoFreshFix());
      MissesCounted(s, most);
      LadderSafety(s, most);
      TickTimers(Run(s, most), inputs[|inputs| - 1]);
    }
  }

  // Five ticks without a fresh fix: no fix-bearing quality.
  lemma FiveMissesDemote(s: State, inputs: seq<Input>)
    requires Inv(s) && AllUsable(inputs) && EachTick(s, inputs, NoFreshFix())
    requires |inputs| >= FIX_MISS_TICKS
    ensures Run(s, inputs).clock.quality < NMEA_FIX && !OwnsReference(Run(s, inputs).ownship)
  {
    hide Run;
    MissesCounted(s, inputs);
    LadderSafety(s, inputs);
  }

  lemma {:induction false} SilenceCounted(s: State, inputs: seq<Input>)
    requires Inv(s) && AllUsable(inputs) && EachTick(s, inputs, Byteless())
    ensures Run(s, inputs).noByteTicks >= BYTES_LOST_TICKS || Run(s, inputs).noByteTicks >= |inputs|
  {
    hide Tick, Inv, Usable, ByteDelta;
    if |inputs| != 0 {
      var most := inputs[..|inputs| - 1];
      EachTickPrefix(s, inputs, Byteless());
      SilenceCounted(s, most);
      LadderSafety(s, most);
      LadderSafety(s, inputs);
      TickTimers(Run(s, most), inputs[|inputs| - 1]);
      SilenceSaturates(Run(s, most));
    }
  }

  lemma SilenceSaturates(s: State)
    requires Inv(s)
    ensures s.noByteTicks <= BYTES_LOST_TICKS
  {
  }

  // Ten seconds of silence: the module is gone, from whatever rung.
  lemma SilenceMeansNone(s: State, inputs: seq<Input>)
    requires Inv(s) && AllUsable(inputs) && EachTick(s, inputs, Byteless())
    requires |inputs| >= BYTES_LOST_TICKS
    ensures Run(s, inputs).clock.quality == NONE
  {
    hide Run;
    SilenceCounted(s, inputs);
    LadderSafety(s, inputs);
  }

  lemma {:induction false} HoldoverGrows(s: State, inputs: seq<Input>)
    requires Inv(s) && AllUsable(inputs) && s.quality <= HOLDOVER && EachTick(s, inputs, Unconverged())
    ensures Run(s, inputs).quality <= HOLDOVER
    ensures Run(s, inputs).quality == HOLDOVER ==>
              s.quality == HOLDOVER
              && Run(s, inputs).holdoverUnc == s.holdoverUnc + HOLDOVER_GROWTH_NS * |inputs|
  {
    hide Tick, Inv, Usable;
    if |inputs| != 0 {
      var most := inputs[..|inputs| - 1];
      EachTickPrefix(s, inputs, Unconverged());
      HoldoverGrows(s, most);
      LadderSafety(s, most);
      TickTimers(Run(s, most), inputs[|inputs| - 1]);
    }
  }

  // HOLDOVER outlives at most 24 unconverged ticks: the 25th has left it.
  lemma HoldoverBudget(s: State, inputs: seq<Input>)
    requires Inv(s) && AllUsable(inputs) && s.quality == HOLDOVER && EachTick(s, inputs, Unconverged())
    requires |inputs| >= 25
    ensures Run(s, inputs).clock.quality <= NMEA_FIX
  {
    hide Run;
    HoldoverGrows(s, inputs);
    LadderSafety(s, inputs);
  }

  // ---- the converse of the safety property

  // A reader would see the GPS reference beside a quality that bears no fix.
  predicate Exposed(m: Moment) {
    OwnsReference(m.ownship) && m.clock.quality < NMEA_FIX
  }

  // Among the moments t adds to those of s.
  predicate ExposedSince(s: State, t: State) {
    exists j :: |s.seen| <= j < |t.seen| && Exposed(t.seen[j])
  }

  predicate Continues(s: State, t: State) {
    s.seen <= t.seen
  }

  lemma ExposedChain(s: State, t: State, u: State)
    requires Continues(s, t) && Continues(t, u)
    ensures Continues(s, u) && (ExposedSince(s, u) <==> ExposedSince(s, t) || ExposedSince(t, u))
  {
    hide Exposed;
    if ExposedSince(s, t) {
      var j :| |s.seen| <= j < |t.seen| && Exposed(t.seen[j]);
      assert Exposed(u.seen[j]);
    }
    if ExposedSince(s, u) {
      var j :| |s.seen| <= j < |u.seen| && Exposed(u.seen[j]);
      assert j < |t.seen| ==> u.seen[j] == t.seen[j];
    }
  }

  // A change of rung exposes the reference exactly when it crosses into or out of the fix rungs:
  // on the way up before the quality is published, on the way down before the reference is
  // cleared.
  lemma QualitySetExposes(s: State, to: nat, input: Input)
    requires Announced(s) && Settled(s)
    requires to >= NMEA_FIX && s.quality < NMEA_FIX ==> InBounds(input.nmea.lat, input.nmea.lon)
    ensures
      var t := QualitySet(s, to, input);
      Continues(s, t) && (ExposedSince(s, t) <==> (s.quality < NMEA_FIX) != (to < NMEA_FIX))
  {
    hide UtcEstimate, InBounds, Announces;
    var t := QualitySet(s, to, input);
    if (s.quality < NMEA_FIX) != (to < NMEA_FIX) {
      assert Exposed(t.seen[|s.seen|]);
    }
  }

  lemma RepublishedHides(s: State, input: Input)
    requires s.quality >= NMEA_FIX
    ensures Continues(s, Republished(s, input)) && !ExposedSince(s, Republished(s, input))
  {
    hide UtcEstimate;
  }

  lemma PushedHides(s: State, input: Input)
    requires s.clock.quality >= NMEA_FIX
    ensures Continues(s, Pushed(s, input)) && !ExposedSince(s, Pushed(s, input))
  {
  }

  lemma UpperRungsHide(s: State, input: Input)
    requires NMEA_FIX <= s.quality <= DISCIPLINED && Announced(s) && Settled(s)
    ensures Continues(s, UpperRungs(s, input)) && !ExposedSince(s, UpperRungs(s, input))
  {
    hide QualitySet, Republished, Exposed, Announces, OwnsReference, Grown;
    var c := UpperChoice(s, input.pps.converged);
    var moved := s.(holdoverUnc := c.unc);
    RepublishedHides(s, input);
    RepublishedHides(moved, input);
    QualitySetExposes(moved, c.quality, input);
  }

  // The guards of the two crossings.
  predicate Promotes(s: State, input: Input) {
    && s.quality == FREE_RUNNING && !Lost(s, ByteDelta(s, input))
    && FixCounted(s, input).fixGood >= FIX_GOOD_TICKS
  }

  predicate Demotes(s: State, input: Input) {
    && s.quality >= NMEA_FIX
    && (Lost(s, ByteDelta(s, input)) || FixCounted(s, input).fixMiss >= FIX_MISS_TICKS)
  }

  lemma RungSelectedExposes(s: State, input: Input)
    requires Counted(s) && Announced(s) && Settled(s)
    requires s.quality == FREE_RUNNING && s.fixGood >= FIX_GOOD_TICKS ==>
               InBounds(input.nmea.lat, input.nmea.lon)
    ensures
      var t := RungSelected(s, input);
      Continues(s, t)
      && (ExposedSince(s, t) <==>
            if s.quality >= NMEA_FIX then s.fixMiss >= FIX_MISS_TICKS else s.fixGood >= FIX_GOOD_TICKS)
  {
    hide QualitySet, UpperRungs, Exposed, Announces, InBounds;
    if s.quality >= NMEA_FIX {
      if s.fixMiss >= FIX_MISS_TICKS {
        QualitySetExposes(s.(ppsMiss := PPS_MISS_TICKS, holdoverUnc := 0), FREE_RUNNING, input);
      } else {
        PushedHides(s, input);
        PushedOwns(s, input);
        UpperRungsHide(Pushed(s, input), input);
        ExposedChain(s, Pushed(s, input), UpperRungs(Pushed(s, input), input));
      }
    } else if s.fixGood >= FIX_GOOD_TICKS {
      QualitySetExposes(s.(ppsMiss := 0), NMEA_FIX, input);
    }
  }

  lemma PushedOwns(s: State, input: Input)
    requires s.quality >= NMEA_FIX && Announced(s) && Settled(s)
    ensures
      var t := Pushed(s, input);
      Announced(t) && Settled(t) && t.quality == s.quality
  {
  }

  // One tick exposes the reference if and only if it promotes or demotes.
  lemma TickExposes(s: State, input: Input)
    requires Inv(s) && Usable(input.nmea)
    ensures
      var t := Tick(s, input);
      Continues(s, t) && (ExposedSince(s, t) <==> Promotes(s, input) || Demotes(s, input))
  {
    hide QualitySet, RungSelected, Exposed, AllSafe, Announces, OwnsReference, Usable, InBounds, ByteDelta;
    var byteDelta := ByteDelta(s, input);
    var b := ByteCounted(s.(lastByteCount := input.nmea.byteCount), byteDelta);
    if Lost(s, byteDelta) {
      QualitySetExposes(b.(presenceTicks := 0, fixGood := 0, fixMiss := 0), NONE, input);
    } else if s.quality == NONE {
      AwaitedHides(b, input);
    } else {
      CountedAfter(b, input);
      var t := PpsCounted(FixCounted(b, input), input);
      if t.quality == FREE_RUNNING && t.fixGood >= FIX_GOOD_TICKS {
        FreshAtPromotion(b, input);
      }
      RungSelectedExposes(t, input);
    }
  }

  lemma AwaitedHides(s: State, input: Input)
    requires s.quality == NONE && Announced(s) && Settled(s)
    ensures Continues(s, Awaited(s, input)) && !ExposedSince(s, Awaited(s, input))
  {
    hide QualitySet, Exposed, Announces;
    var t := s.(presenceTicks := if s.presenceTicks < PRESENCE_WINDOW_TICKS then s.presenceTicks + 1
                                 else s.presenceTicks);
    QualitySetExposes(t, FREE_RUNNING, input);
  }

  predicate Crosses(s: State, inputs: seq<Input>, k: nat)
    requires k < |inputs|
  {
    Promotes(Run(s, inputs[..k]), inputs[k]) || Demotes(Run(s, inputs[..k]), inputs[k])
  }

  // Over every run: the reference is seen beside a quality that bears no fix if and only if some
  // tick promotes or demotes.
  lemma {:induction false} RunExposes(s: State, inputs: seq<Input>)
    requires Inv(s) && AllUsable(inputs)
    ensures Continues(s, Run(s, inputs))
    ensures ExposedSince(s, Run(s, inputs)) <==> exists k :: 0 <= k < |inputs| && Crosses(s, inputs, k)
  {
    hide Inv, Tick, Usable, Exposed, Promotes, Demotes, Continues, ExposedSince;
    if |inputs| == 0 {
      NothingExposed(s);
    } else {
      var n := |inputs| - 1;
      var most := inputs[..n];
      RunExposes(s, most);
      LadderSafety(s, most);
      TickExposes(Run(s, most), inputs[n]);
      ExposedChain(s, Run(s, most), Run(s, inputs));
      CrossingsOfPrefix(s, inputs);
    }
  }

  lemma NothingExposed(s: State)
    ensures Continues(s, s) && !ExposedSince(s, s)
  {
  }

  lemma CrossingsOfPrefix(s: State, inputs: seq<Input>)
    requires |inputs| > 0
    ensures
      var n := |inputs| - 1;
      (exists k :: 0 <= k < |inputs| && Crosses(s, inputs, k))
      <==> (exists k :: 0 <= k < n && Crosses(s, inputs[..n], k)) || Crosses(s, inputs, n)
  {
    hide Run, Promotes, Demotes;
    var n := |inputs| - 1;
    forall k | 0 <= k < n
      ensures Crosses(s, inputs, k) == Crosses(s, inputs[..n], k)
    {
      assert inputs[..n][..k] == inputs[..k];
    }
  }

  // A fresh fix on every tick.
  function FreshFix(k: nat): Input {
    Input(Signals(100 * (k + 1), true, k + 1, 0, 0, Finite(10.0), Finite(10.0)), Pps.Silent(), 200000 * k)
  }

  function FreshStart(n: nat): (inputs: seq<Input>)
    ensures |inputs| == n && forall k :: 0 <= k < n ==> inputs[k] == FreshFix(k)
  {
    if n == 0 then [] else FreshStart(n - 1) + [FreshFix(n - 1)]
  }

  // After k of them, 1 <= k <= 4: the first only proves that a module is there.
  predicate Climbing(s: State, k: nat) {
    && s.quality == (if k < 4 then FREE_RUNNING else NMEA_FIX) && s.fixGood == k - 1 && s.fixMiss == 0
    && s.noByteTicks == 0 && s.lastByteCount == 100 * k && (if k == 1 then s.lastFixSeq == 0 else s.lastFixSeq == k)
    && (k == 4 ==> s.ownship == Ref(true, Finite(10.0), Finite(10.0), Gps))
  }

  function Unplaced(): State {
    Boot(0, Ref(false, Finite(0.0), Finite(0.0), NoSource))
  }

  lemma {:induction false} ClimbsFromBoot(k: nat)
    requires 1 <= k <= 4
    ensures Climbing(Run(Unplaced(), FreshStart(k)), k)
  {
    hide Run, Climbing, Tick, Unplaced;
    StartNext(k - 1);
    if k == 1 {
      FirstClimb();
    } else {
      ClimbsFromBoot(k - 1);
      NextClimb(Run(Unplaced(), FreshStart(k - 1)), k - 1);
    }
  }

  lemma StartNext(k: nat)
    ensures Run(Unplaced(), FreshStart(k + 1)) == Tick(Run(Unplaced(), FreshStart(k)), FreshFix(k))
    ensures Run(Unplaced(), FreshStart(0)) == Unplaced()
  {
    hide Tick, FreshFix, Unplaced;
    assert (FreshStart(k) + [FreshFix(k)])[..k] == FreshStart(k);
  }

  lemma FirstClimb()
    ensures Climbing(Tick(Unplaced(), FreshFix(0)), 1)
  {
  }

  lemma NextClimb(s: State, k: nat)
    requires 1 <= k <= 3 && Climbing(s, k)
    ensures Climbing(Tick(s, FreshFix(k)), k + 1)
  {
  }

  // The shortest such run: four fresh fixes from boot, the fourth of which promotes.
  lemma ExposedFromBoot()
    ensures Inv(Unplaced()) && AllUsable(FreshStart(4))
    ensures ExposedSince(Unplaced(), Run(Unplaced(), FreshStart(4)))
  {
    hide Run, Inv, ExposedSince, Continues, Tick, Demotes;
    var inputs := FreshStart(4);
    BootInv(0, Unplaced().ownship);
    ClimbsFromBoot(3);
    assert inputs[..3] == FreshStart(3);
    assert Crosses(Unplaced(), inputs, 3);
    RunExposes(Unplaced(), inputs);
  }
}
