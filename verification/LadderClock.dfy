// What every rung of the quality ladder publishes, exactly when each is entered and left, and how
// the clock coasts on without pulses (components/gps_clock/gps_clock_supervisor.c).
module LadderClock {
  import opened Geo
  import opened Nmea
  import opened Ladder
  import opened LadderRuns
  import Pps

  // ---- the rung after a tick, from the counters before it

  // The byte count did not move since the last tick, modulo 2^32.
  predicate Silent(s: State, input: Input) {
    (input.nmea.byteCount - s.lastByteCount) % 0x1_0000_0000 == 0
  }

  // The fiftieth silent tick in a row.
  predicate Unplugged(s: State, input: Input) {
    Silent(s, input) && s.noByteTicks >= 49
  }

  predicate FreshFixed(s: State, input: Input) {
    input.nmea.fixValid && input.nmea.fixSeq != s.lastFixSeq
  }

  // The fifth tick in a row without a fresh fix.
  predicate Starved(s: State, input: Input) {
    !FreshFixed(s, input) && s.fixMiss >= 4
  }

  // The second tick in a row without a usable edge.
  predicate Edgeless(s: State, input: Input) {
    !input.pps.present && s.ppsMiss >= 1
  }

  // Every rung, both ways.
  lemma RungAfter(s: State, input: Input)
    requires LadderRuns.Inv(s)
    ensures
      var q, t := s.quality, Tick(s, input).quality;
      var lost, starved := Unplugged(s, input), Starved(s, input);
      && (t == NONE <==> lost || (q == NONE && input.nmea.byteCount < 10))
      && (t == FREE_RUNNING <==>
            !lost && ((q == NONE && input.nmea.byteCount >= 10) || (q >= NMEA_FIX && starved)
                      || (q == FREE_RUNNING && !(FreshFixed(s, input) && s.fixGood == 2))))
      && (t == NMEA_FIX <==>
            !lost && ((q == FREE_RUNNING && FreshFixed(s, input) && s.fixGood == 2)
                      || (q == NMEA_FIX && !starved && !input.pps.converged)
                      || (q == HOLDOVER && !starved && !input.pps.converged && s.holdoverUnc >= 48000)))
      && (t == HOLDOVER <==>
            !lost && !starved && ((q == DISCIPLINED && Edgeless(s, input))
                                  || (q == HOLDOVER && !input.pps.converged && s.holdoverUnc < 48000)))
      && (t == DISCIPLINED <==>
            !lost && !starved && ((q == DISCIPLINED && !Edgeless(s, input))
                                  || ((q == NMEA_FIX || q == HOLDOVER) && input.pps.converged)))
  {
    hide Step, AllSafe, Announces, OwnsReference, Settled;
    var delta := ByteDelta(s, input);
    var b := s.(lastByteCount := input.nmea.byteCount);
    TotalKeptInv(s, input.nmea.byteCount);
    if s.quality == NONE {
      NoneStep(b, delta, input);
    } else if Lost(b, delta) {
      IdleStep(b, delta, input);
    } else {
      LiveStep(b, delta, input);
    }
  }

  lemma NoneStep(s: State, byteDelta: nat, input: Input)
    requires s.quality == NONE && s.noByteTicks <= 50
    ensures
      var t := Step(s, byteDelta, input);
      && (t.quality == NONE <==> (byteDelta == 0 && s.noByteTicks >= 49) || input.nmea.byteCount < 10)
      && (t.quality == NONE || t.quality == FREE_RUNNING)
  {
    hide UtcEstimate;
  }

  // The counters those guards read: consecutive silent ticks, consecutive ticks without a fresh
  // fix or a usable edge, and good fixes since the last such run of misses.
  lemma CountersAfter(s: State, input: Input)
    requires LadderRuns.Inv(s) && s.quality >= FREE_RUNNING && !Unplugged(s, input)
    ensures
      var t, newFix := Tick(s, input), FreshFixed(s, input);
      && t.lastByteCount == input.nmea.byteCount
      && t.noByteTicks == (if Silent(s, input) then s.noByteTicks + 1 else 0)
      && t.lastFixSeq == (if newFix then input.nmea.fixSeq else s.lastFixSeq)
      && t.fixMiss == (if newFix then 0 else if s.fixMiss < 5 then s.fixMiss + 1 else 5)
      && t.fixGood == (if newFix then (if s.fixGood < 3 then s.fixGood + 1 else 3)
                       else if s.fixMiss >= 4 then 0 else s.fixGood)
      && (s.quality >= NMEA_FIX && !Starved(s, input) ==>
            t.ppsMiss == (if input.pps.present then 0 else if s.ppsMiss < 2 then s.ppsMiss + 1 else 2))
      && (s.quality == FREE_RUNNING && t.quality == NMEA_FIX ==> t.ppsMiss == 0)
      && (t.quality == HOLDOVER ==>
            t.holdoverUnc == (if s.quality == HOLDOVER then s.holdoverUnc + 2000 else 100))
  {
    hide RungSelected, QualitySet, AllSafe, Announces, OwnsReference, Settled;
    var b := ByteCounted(s.(lastByteCount := input.nmea.byteCount), ByteDelta(s, input));
    var c := PpsCounted(FixCounted(b, input), input);
    RungSelectedChoice(c, input);
    SelectedMisses(c, input);
  }

  // Without a module, or as it goes, the fix counters are cleared or kept and only silence counts.
  lemma IdleCounters(s: State, input: Input)
    requires LadderRuns.Inv(s) && (s.quality == NONE || Unplugged(s, input))
    ensures
      var t := Tick(s, input);
      && t.lastByteCount == input.nmea.byteCount && t.lastFixSeq == s.lastFixSeq && t.ppsMiss == s.ppsMiss
      && t.noByteTicks == (if !Silent(s, input) then 0 else if s.noByteTicks < 50 then s.noByteTicks + 1 else 50)
      && t.fixGood == 0
      && t.fixMiss == (if Unplugged(s, input) then 0 else s.fixMiss)
  {
    hide QualitySet, AllSafe, Announces, OwnsReference, Settled;
    var b := ByteCounted(s.(lastByteCount := input.nmea.byteCount), ByteDelta(s, input));
    QualitySetFrame(b.(presenceTicks := 0, fixGood := 0, fixMiss := 0), NONE, input);
    var waiting := b.(presenceTicks := if b.presenceTicks < PRESENCE_WINDOW_TICKS then b.presenceTicks + 1
                                       else b.presenceTicks);
    QualitySetFrame(waiting, FREE_RUNNING, input);
  }

  // Choosing the rung leaves the counters, but for the pulse misses that a lost fix or a promotion
  // sets.
  lemma SelectedMisses(s: State, input: Input)
    requires s.quality <= DISCIPLINED
    ensures
      var t := RungSelected(s, input);
      && (s.quality >= NMEA_FIX && s.fixMiss < FIX_MISS_TICKS ==> t.ppsMiss == s.ppsMiss)
      && (s.quality < NMEA_FIX && s.fixGood >= FIX_GOOD_TICKS ==> t.ppsMiss == 0)
  {
    hide UtcEstimate, Pushed, QualitySet, UpperRungs;
    if s.quality >= NMEA_FIX {
      PushedFrame(s, input);
      UpperRungsChoice(Pushed(s, input), input);
    } else {
      QualitySetFrame(s.(ppsMiss := 0), NMEA_FIX, input);
    }
  }

  // ---- what each rung publishes

  // At NMEA_FIX the label the parser published, to 30 ms; on the way into a rung without a fix the
  // monotonic clock, flagged as no time at all, which then stays until the rung changes; in
  // HOLDOVER and DISCIPLINED the rung's own uncertainty.
  predicate Publishes(s: State, t: State, input: Input) {
    if t.quality == NMEA_FIX then t.clock == Snapshot(NMEA_FIX, input.nmea.utcUs, 30000000, true)
    else if t.quality < NMEA_FIX then
      t.clock == if t.quality == s.quality then s.clock else Snapshot(t.quality, input.nowUs, 0xFFFF_FFFF, false)
    else
      && t.clock.quality == t.quality && t.clock.hasOwnshipFix
      && t.clock.uncertaintyNs == if t.quality == DISCIPLINED then 100 else t.holdoverUnc
  }

  lemma TickPublishes(s: State, input: Input)
    requires LadderRuns.Inv(s) && Usable(input.nmea)
    ensures Publishes(s, Tick(s, input), input)
  {
    hide RungSelected, QualitySet, Awaited, AllSafe, OwnsReference, ByteDelta, Settled, Announces, InBounds, Publishes;
    var b := ByteCounted(s.(lastByteCount := input.nmea.byteCount), ByteDelta(s, input));
    if b.noByteTicks >= BYTES_LOST_TICKS {
      QualitySetPublishes(b.(presenceTicks := 0, fixGood := 0, fixMiss := 0), NONE, input);
      SamePublication(s, b.(presenceTicks := 0, fixGood := 0, fixMiss := 0), Tick(s, input), input);
    } else if s.quality == NONE {
      AwaitedPublishes(b, input);
      SamePublication(s, b, Tick(s, input), input);
    } else {
      var t := PpsCounted(FixCounted(b, input), input);
      RungSelectedPublishes(t, input);
      SamePublication(s, t, Tick(s, input), input);
    }
  }

  lemma SamePublication(s: State, u: State, t: State, input: Input)
    requires u.quality == s.quality && u.clock == s.clock && Publishes(u, t, input)
    ensures Publishes(s, t, input)
  {
  }

  // A rung change publishes; without one below NMEA_FIX nothing does.
  lemma QualitySetPublishes(s: State, to: nat, input: Input)
    requires to <= DISCIPLINED && (to == s.quality ==> to < NMEA_FIX)
    ensures Publishes(s, QualitySet(s, to, input), input)
  {
    hide InBounds;
  }

  lemma RepublishedPublishes(s: State, input: Input)
    requires NMEA_FIX <= s.quality <= DISCIPLINED
    ensures Publishes(s, Republished(s, input), input)
  {
  }

  lemma AwaitedPublishes(s: State, input: Input)
    requires s.quality == NONE
    ensures Publishes(s, Awaited(s, input), input)
  {
    hide QualitySet;
    var t := s.(presenceTicks := if s.presenceTicks < PRESENCE_WINDOW_TICKS then s.presenceTicks + 1
                                 else s.presenceTicks);
    QualitySetPublishes(t, FREE_RUNNING, input);
  }

  lemma UpperRungsPublish(s: State, input: Input)
    requires NMEA_FIX <= s.quality <= DISCIPLINED
    ensures UpperRungs(s, input).quality >= NMEA_FIX && Publishes(s, UpperRungs(s, input), input)
  {
    hide QualitySet, Republished, Publishes, Grown;
    var c := UpperChoice(s, input.pps.converged);
    var moved := s.(holdoverUnc := c.unc);
    UpperRungsChoice(s, input);
    if c.quality == s.quality {
      RepublishedPublishes(s, input);
      RepublishedPublishes(moved, input);
      AboveIgnoresBefore(moved, s, Republished(moved, input), input);
    } else {
      QualitySetPublishes(moved, c.quality, input);
      QualitySetFrame(moved, c.quality, input);
      AboveIgnoresBefore(moved, s, QualitySet(moved, c.quality, input), input);
    }
  }

  lemma AboveIgnoresBefore(u: State, s: State, t: State, input: Input)
    requires t.quality >= NMEA_FIX && Publishes(u, t, input)
    ensures Publishes(s, t, input)
  {
  }

  lemma RungSelectedPublishes(s: State, input: Input)
    requires FREE_RUNNING <= s.quality <= DISCIPLINED
    ensures Publishes(s, RungSelected(s, input), input)
  {
    hide QualitySet, UpperRungs, Publishes, Pushed;
    if s.quality >= NMEA_FIX {
      if s.fixMiss >= FIX_MISS_TICKS {
        var dropped := s.(ppsMiss := PPS_MISS_TICKS, holdoverUnc := 0);
        QualitySetPublishes(dropped, FREE_RUNNING, input);
        QualitySetFrame(dropped, FREE_RUNNING, input);
        SamePublication(s, dropped, QualitySet(dropped, FREE_RUNNING, input), input);
      } else {
        PushedFrame(s, input);
        UpperRungsPublish(Pushed(s, input), input);
        AboveIgnoresBefore(Pushed(s, input), s, UpperRungs(Pushed(s, input), input), input);
      }
    } else if s.fixGood >= FIX_GOOD_TICKS {
      QualitySetPublishes(s.(ppsMiss := 0), NMEA_FIX, input);
      SamePublication(s, s.(ppsMiss := 0), QualitySet(s.(ppsMiss := 0), NMEA_FIX, input), input);
    } else {
      NothingPublished(s, input);
    }
  }

  lemma NothingPublished(s: State, input: Input)
    requires s.quality < NMEA_FIX
    ensures Publishes(s, s, input)
  {
  }

  // ---- whole runs

  // At the end of a run below NMEA_FIX the clock is the one at its start, when the rung never
  // changed, or the monotonic clock of the last tick that changed it.
  lemma {:induction false} IdleClock(s: State, inputs: seq<Input>)
    requires LadderRuns.Inv(s) && AllUsable(inputs) && Run(s, inputs).quality < NMEA_FIX
    ensures
      var q := Run(s, inputs).quality;
      || (Run(s, inputs).clock == s.clock && StaysAt(s, inputs, q, 0))
      || (exists k :: 0 <= k < |inputs| && Run(s, inputs).clock == Snapshot(q, inputs[k].nowUs, 0xFFFF_FFFF, false)
                      && StaysAt(s, inputs, q, k + 1) && Run(s, inputs[..k]).quality != q)
  {
    hide LadderRuns.Inv, Tick, Usable;
    var q := Run(s, inputs).quality;
    assert inputs[..|inputs|] == inputs;
    if |inputs| != 0 {
      var n := |inputs| - 1;
      LadderSafety(s, inputs[..n]);
      TickPublishes(Run(s, inputs[..n]), inputs[n]);
      if Run(s, inputs[..n]).quality == q {
        IdleClock(s, inputs[..n]);
        StaysOn(s, inputs, q);
      } else {
        assert StaysAt(s, inputs, q, n + 1);
      }
    }
  }

  // From after n ticks on, the rung is q.
  predicate StaysAt(s: State, inputs: seq<Input>, q: nat, n: nat) {
    forall k :: n <= k <= |inputs| ==> Run(s, inputs[..k]).quality == q
  }

  lemma StaysOn(s: State, inputs: seq<Input>, q: nat)
    requires |inputs| > 0 && Run(s, inputs).quality == q
    ensures
      var n := |inputs| - 1;
      forall m: nat :: m <= n && StaysAt(s, inputs[..n], q, m) ==> StaysAt(s, inputs, q, m)
    ensures forall k :: 0 <= k < |inputs| - 1 ==> inputs[..|inputs| - 1][..k] == inputs[..k]
  {
    hide Run;
    var n := |inputs| - 1;
    assert inputs[..|inputs|] == inputs;
    forall m: nat | m <= n && StaysAt(s, inputs[..n], q, m)
      ensures StaysAt(s, inputs, q, m)
    {
      forall k | m <= k <= |inputs|
        ensures Run(s, inputs[..k]).quality == q
      {
        if k <= n {
          assert inputs[..n][..k] == inputs[..k];
        }
      }
    }
  }

  // ---- coasting without pulses

  // A tick that brings no edge, while the module is heard and its fixes last.
  predicate Coasts(s: State, input: Input) {
    !input.pps.present && !input.pps.converged && !Unplugged(s, input) && !Starved(s, input)
  }

  function Coasting(): (State, Input) -> bool {
    (s: State, input: Input) => Coasts(s, input)
  }

  // From DISCIPLINED on an edge: one tick without is forgiven, the second enters HOLDOVER at
  // 100 ns, every further one adds 2000 ns to what is published, and the twenty-seventh gives up
  // for NMEA_FIX, which then stays.
  predicate CoastedTo(s: State, n: nat) {
    if n <= 1 then s.quality == DISCIPLINED && s.ppsMiss == n && (n == 1 ==> s.clock.uncertaintyNs == 100)
    else if n <= 26 then
      && s.quality == HOLDOVER && s.holdoverUnc == 100 + 2000 * (n - 2)
      && s.clock.quality == HOLDOVER && s.clock.uncertaintyNs == 100 + 2000 * (n - 2)
    else s.quality == NMEA_FIX && s.clock.quality == NMEA_FIX && s.clock.uncertaintyNs == 30000000
  }

  lemma {:induction false} HoldoverTimeline(s: State, inputs: seq<Input>)
    requires LadderRuns.Inv(s) && AllUsable(inputs) && EachTick(s, inputs, Coasting())
    requires s.quality == DISCIPLINED && s.ppsMiss == 0
    ensures CoastedTo(Run(s, inputs), |inputs|)
  {
    hide LadderRuns.Inv, Tick, Usable, Unplugged, Starved, CoastedTo;
    if |inputs| == 0 {
      assert CoastedTo(s, 0) by {
        NotYetCoasted(s);
      }
    } else {
      var n := |inputs| - 1;
      EachTickPrefix(s, inputs, Coasting());
      HoldoverTimeline(s, inputs[..n]);
      LadderSafety(s, inputs[..n]);
      CoastTick(Run(s, inputs[..n]), inputs[n], n);
    }
  }

  lemma NotYetCoasted(s: State)
    requires s.quality == DISCIPLINED && s.ppsMiss == 0
    ensures CoastedTo(s, 0)
  {
  }

  lemma CoastTick(s: State, input: Input, n: nat)
    requires LadderRuns.Inv(s) && Usable(input.nmea) && Coasts(s, input) && CoastedTo(s, n)
    ensures CoastedTo(Tick(s, input), n + 1)
  {
    hide LadderRuns.Inv, Tick, Usable, Unplugged, Starved, FreshFixed, Silent;
    RungAfter(s, input);
    CountersAfter(s, input);
    TickPublishes(s, input);
  }
}
