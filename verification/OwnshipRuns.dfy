// Which position the GPS reference holds over whole runs: on the rungs that bear a fix every tick
// pushes the parser's latest coordinates, whether or not they are those of a valid fix
// (components/gps_clock/gps_clock_supervisor.c).
module OwnshipRuns {
  import opened Geo
  import opened Nmea
  import opened Ladder
  import opened LadderRuns
  import Pps

  function Placed(n: Signals): Ref {
    Ref(true, n.lat, n.lon, Gps)
  }

  lemma UpperRungsKeepReference(s: State, input: Input)
    requires NMEA_FIX <= s.quality <= DISCIPLINED
    ensures UpperRungs(s, input).ownship == s.ownship
  {
    hide UtcEstimate, Grown;
  }

  lemma SelectedReference(s: State, input: Input)
    requires s.quality <= DISCIPLINED && RungSelected(s, input).quality >= NMEA_FIX
    requires s.quality < NMEA_FIX ==> InBounds(input.nmea.lat, input.nmea.lon)
    ensures
      RungSelected(s, input).ownship ==
        if InBounds(input.nmea.lat, input.nmea.lon) then Placed(input.nmea) else s.ownship
  {
    hide UtcEstimate, UpperRungs, InBounds;
    if s.quality >= NMEA_FIX {
      UpperRungsKeepReference(Pushed(s, input), input);
    }
  }

  // A tick that ends on a fix rung leaves the latest coordinates as the reference when they are in
  // range, valid or not, and the previous reference otherwise.
  lemma TickReference(s: State, input: Input)
    requires LadderRuns.Inv(s) && Usable(input.nmea) && Tick(s, input).quality >= NMEA_FIX
    ensures
      if InBounds(input.nmea.lat, input.nmea.lon) then Tick(s, input).ownship == Placed(input.nmea)
      else Tick(s, input).ownship == s.ownship && s.quality >= NMEA_FIX
  {
    hide RungSelected, QualitySet, InBounds, AllSafe, Announces, OwnsReference, ByteDelta, Settled;
    var b := ByteCounted(s.(lastByteCount := input.nmea.byteCount), ByteDelta(s, input));
    if s.quality == NONE || b.noByteTicks >= BYTES_LOST_TICKS {
      TotalKeptInv(s, input.nmea.byteCount);
      IdleStep(s.(lastByteCount := input.nmea.byteCount), ByteDelta(s, input), input);
      assert false;
    } else {
      var t := PpsCounted(FixCounted(b, input), input);
      RungSelectedChoice(t, input);
      if s.quality < NMEA_FIX {
        FreshAtPromotion(b, input);
      }
      SelectedReference(t, input);
    }
  }

  // ---- whole runs

  // The position of the latest valid fix among the inputs, or else the given one.
  function LatestFix(before: Ref, inputs: seq<Input>): Ref {
    if |inputs| == 0 then before
    else
      var last := inputs[|inputs| - 1].nmea;
      if last.fixValid then Placed(last) else LatestFix(before, inputs[..|inputs| - 1])
  }

  // After n ticks: a fix rung comes with the position of the latest valid fix.
  predicate FollowsFix(s: State, inputs: seq<Input>, n: nat)
    requires n <= |inputs|
  {
    var t := Run(s, inputs[..n]);
    t.quality >= NMEA_FIX ==> t.ownship == LatestFix(s.ownship, inputs[..n])
  }

  // Tick k ends on a fix rung with coordinates that are in range but not of a valid fix, and
  // elsewhere than the latest valid fix.
  predicate Strays(s: State, inputs: seq<Input>, k: nat)
    requires k < |inputs|
  {
    var n := inputs[k].nmea;
    && Run(s, inputs[..k + 1]).quality >= NMEA_FIX
    && !n.fixValid && InBounds(n.lat, n.lon) && Placed(n) != LatestFix(s.ownship, inputs[..k])
  }

  // Over every run, the reference is at every tick that of the latest valid fix if and only if no
  // tick strays.
  lemma ReferenceFollowsFix(s: State, inputs: seq<Input>)
    requires LadderRuns.Inv(s) && AllUsable(inputs)
    ensures (forall n :: 0 <= n <= |inputs| ==> FollowsFix(s, inputs, n))
            <==> (forall k :: 0 <= k < |inputs| ==> !Strays(s, inputs, k))
  {
    hide LadderRuns.Inv, Strays, FollowsFix;
    if forall k :: 0 <= k < |inputs| ==> !Strays(s, inputs, k) {
      forall n | 0 <= n <= |inputs|
        ensures FollowsFix(s, inputs, n)
      {
        Followed(s, inputs, n);
      }
    }
    forall k | 0 <= k < |inputs| && Strays(s, inputs, k)
      ensures !FollowsFix(s, inputs, k + 1)
    {
      StrayTick(s, inputs, k);
    }
  }

  lemma LastTick(s: State, inputs: seq<Input>, n: nat)
    requires n < |inputs|
    requires LadderRuns.Inv(s) && AllUsable(inputs)
    ensures Run(s, inputs[..n + 1]) == Tick(Run(s, inputs[..n]), inputs[n])
    ensures
      LatestFix(s.ownship, inputs[..n + 1]) ==
        if inputs[n].nmea.fixValid then Placed(inputs[n].nmea) else LatestFix(s.ownship, inputs[..n])
    ensures LadderRuns.Inv(Run(s, inputs[..n])) && Usable(inputs[n].nmea)
  {
    hide LadderRuns.Inv, Tick, Usable;
    assert inputs[..n + 1][..n] == inputs[..n];
    LadderSafety(s, inputs[..n]);
  }

  lemma {:induction false} Followed(s: State, inputs: seq<Input>, n: nat)
    requires LadderRuns.Inv(s) && AllUsable(inputs) && n <= |inputs|
    requires forall k :: 0 <= k < |inputs| ==> !Strays(s, inputs, k)
    ensures FollowsFix(s, inputs, n)
  {
    hide LadderRuns.Inv, Tick, InBounds;
    if n != 0 {
      Followed(s, inputs, n - 1);
      LastTick(s, inputs, n - 1);
      assert !Strays(s, inputs, n - 1);
      hide Run, LatestFix;
      if Run(s, inputs[..n]).quality >= NMEA_FIX {
        TickReference(Run(s, inputs[..n - 1]), inputs[n - 1]);
      }
    }
  }

  lemma StrayTick(s: State, inputs: seq<Input>, k: nat)
    requires LadderRuns.Inv(s) && AllUsable(inputs) && k < |inputs| && Strays(s, inputs, k)
    ensures !FollowsFix(s, inputs, k + 1)
  {
    hide LadderRuns.Inv, Tick, InBounds, Run, LatestFix;
    LastTick(s, inputs, k);
    TickReference(Run(s, inputs[..k]), inputs[k]);
  }

  // A void sentence at (0, 0), on the tick after the promotion.
  function VoidAtOrigin(): Input {
    Input(Signals(500, false, 5, 0, 0, Finite(0.0), Finite(0.0)), Pps.Silent(), 800000)
  }

  // Four fresh fixes at (10, 10) from boot, then that sentence: still NMEA_FIX, at (0, 0).
  lemma VoidReplacesFix()
    ensures
      var inputs := FreshStart(4) + [VoidAtOrigin()];
      var t := Run(Unplaced(), inputs);
      && AllUsable(inputs) && t.clock.quality == NMEA_FIX
      && t.ownship == Ref(true, Finite(0.0), Finite(0.0), Gps)
      && LatestFix(Unplaced().ownship, inputs) == Ref(true, Finite(10.0), Finite(10.0), Gps)
  {
    hide Tick, Climbing, Unplaced;
    var inputs := FreshStart(4) + [VoidAtOrigin()];
    assert inputs[..4] == FreshStart(4);
    ClimbsFromBoot(4);
    VoidTick(Run(Unplaced(), FreshStart(4)));
    hide Run;
  }

  lemma VoidTick(s: State)
    requires Climbing(s, 4)
    ensures
      var t := Tick(s, VoidAtOrigin());
      t.clock.quality == NMEA_FIX && t.ownship == Ref(true, Finite(0.0), Finite(0.0), Gps)
  {
  }
}
