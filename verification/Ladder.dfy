// The GPS clock's five-rung quality ladder (components/gps_clock/gps_clock_supervisor.c) and the
// ownship reference it feeds (components/ownship/ownship.c).
module Ladder {
  import opened Arith
  import opened Geo
  import opened Nmea
  import Pps

  const NONE := 0
  const FREE_RUNNING := 1
  const NMEA_FIX := 2
  const HOLDOVER := 3
  const DISCIPLINED := 4

  const PRESENCE_MIN_BYTES := 10
  const PRESENCE_WINDOW_TICKS := 25
  const BYTES_LOST_TICKS := 50
  const FIX_GOOD_TICKS := 3
  const FIX_MISS_TICKS := 5
  const PPS_MISS_TICKS := 2
  const HOLDOVER_CEIL_NS := 50000
  const HOLDOVER_GROWTH_NS := 2000
  const DISCIPLINED_UNC_NS := 100
  const NMEA_UNC_NS := 30000000
  const UINT32_MAX := 0xFFFF_FFFF

  datatype Input = Input(nmea: Signals, pps: Pps.Signals, nowUs: int)

  datatype Snapshot = Snapshot(quality: nat, utcEstimateUs: int, uncertaintyNs: nat, hasOwnshipFix: bool)

  // What another task can observe between two side effects of the supervisor.
  datatype Moment = Moment(clock: Snapshot, ownship: Ref)

  datatype State = State(
    quality: nat, presenceTicks: nat, noByteTicks: nat, lastByteCount: nat,
    fixGood: nat, fixMiss: nat, lastFixSeq: int, ppsMiss: nat, holdoverUnc: nat,
    clock: Snapshot, ownship: Ref, seen: seq<Moment>)

  // ---- one tick, as a function of the state before it

  function UtcEstimate(quality: nat, input: Input): int {
    if quality <= FREE_RUNNING then input.nowUs
    else if quality == NMEA_FIX || input.pps.lastEdgeUtcNs == 0 then input.nmea.utcUs
    else
      var dtNs := (input.nowUs - input.pps.lastEdgeNowUs) * 1000;
      var drift := TruncDiv(dtNs * input.pps.driftPpb, 1000000000);
      TruncDiv(input.pps.lastEdgeUtcNs + dtNs + drift, 1000)
  }

  function SnapshotOf(quality: nat, unc: nat, input: Input): Snapshot {
    Snapshot(quality, UtcEstimate(quality, input),
             if quality <= FREE_RUNNING then UINT32_MAX
             else if quality == NMEA_FIX then NMEA_UNC_NS
             else if quality == DISCIPLINED then DISCIPLINED_UNC_NS
             else unc,
             quality >= NMEA_FIX)
  }

  function Republished(s: State, input: Input): State {
    var clock := SnapshotOf(s.quality, s.holdoverUnc, input);
    s.(clock := clock, seen := s.seen + [Moment(clock, s.ownship)])
  }

  function WithOwnship(s: State, ref: Ref): State {
    s.(ownship := ref, seen := s.seen + [Moment(s.clock, ref)])
  }

  function Pushed(s: State, input: Input): State {
    if InBounds(input.nmea.lat, input.nmea.lon) then
      WithOwnship(s, Ref(true, input.nmea.lat, input.nmea.lon, Gps))
    else s
  }

  function Cleared(s: State): State {
    if s.ownship.source == Gps && s.ownship.valid then
      WithOwnship(s, Ref(false, Finite(0.0), Finite(0.0), NoSource))
    else s
  }

  function QualitySet(s: State, to: nat, input: Input): State {
    if to == s.quality then s
    else if to >= NMEA_FIX && s.quality < NMEA_FIX then
      Republished(Pushed(s, input).(quality := to), input)
    else if to < NMEA_FIX && s.quality >= NMEA_FIX then
      Cleared(Republished(s.(quality := to), input))
    else Republished(s.(quality := to), input)
  }

  function ByteCounted(s: State, byteDelta: nat): State {
    s.(noByteTicks := if byteDelta != 0 then 0
                      else if s.noByteTicks < BYTES_LOST_TICKS then s.noByteTicks + 1
                      else s.noByteTicks)
  }

  predicate Fresh(s: State, input: Input) {
    input.nmea.fixValid && input.nmea.fixSeq != s.lastFixSeq
  }

  function FixCounted(s: State, input: Input): State {
    if Fresh(s, input) then
      s.(lastFixSeq := input.nmea.fixSeq, fixMiss := 0,
         fixGood := if s.fixGood < FIX_GOOD_TICKS then s.fixGood + 1 else s.fixGood)
    else
      var miss := if s.fixMiss < FIX_MISS_TICKS then s.fixMiss + 1 else s.fixMiss;
      s.(fixMiss := miss, fixGood := if miss >= FIX_MISS_TICKS then 0 else s.fixGood)
  }

  function PpsCounted(s: State, input: Input): State {
    s.(ppsMiss := if input.pps.present then 0
                  else if s.ppsMiss < PPS_MISS_TICKS then s.ppsMiss + 1
                  else s.ppsMiss)
  }

  // The rungs above NMEA_FIX, on a tick that still holds a fix.
  function UpperRungs(s: State, input: Input): State {
    if s.quality == NMEA_FIX then
      if input.pps.converged then QualitySet(s.(holdoverUnc := DISCIPLINED_UNC_NS), DISCIPLINED, input)
      else Republished(s, input)
    else if s.quality == DISCIPLINED then
      if s.ppsMiss >= PPS_MISS_TICKS then
        QualitySet(s.(holdoverUnc := DISCIPLINED_UNC_NS), HOLDOVER, input)
      else Republished(s, input)
    else if s.quality == HOLDOVER then
      if input.pps.converged then QualitySet(s.(holdoverUnc := DISCIPLINED_UNC_NS), DISCIPLINED, input)
      else
        var grown := Grown(s.holdoverUnc);
        if grown >= HOLDOVER_CEIL_NS then QualitySet(s.(holdoverUnc := grown), NMEA_FIX, input)
        else Republished(s.(holdoverUnc := grown), input)
    else Republished(s, input)
  }

  function Grown(unc: nat): nat {
    if unc < UINT32_MAX - HOLDOVER_GROWTH_NS then unc + HOLDOVER_GROWTH_NS else unc
  }

  function RungSelected(s: State, input: Input): State {
    if s.quality >= NMEA_FIX then
      if s.fixMiss >= FIX_MISS_TICKS then
        QualitySet(s.(ppsMiss := PPS_MISS_TICKS, holdoverUnc := 0), FREE_RUNNING, input)
      else UpperRungs(Pushed(s, input), input)
    else if s.fixGood >= FIX_GOOD_TICKS then QualitySet(s.(ppsMiss := 0), NMEA_FIX, input)
    else s
  }

  function Awaited(s: State, input: Input): State {
    var t := s.(presenceTicks := if s.presenceTicks < PRESENCE_WINDOW_TICKS then s.presenceTicks + 1
                                 else s.presenceTicks);
    if input.nmea.byteCount >= PRESENCE_MIN_BYTES then QualitySet(t, FREE_RUNNING, input) else t
  }

  function Step(before: State, byteDelta: nat, input: Input): State {
    var s := ByteCounted(before, byteDelta);
    if s.noByteTicks >= BYTES_LOST_TICKS then
      QualitySet(s.(presenceTicks := 0, fixGood := 0, fixMiss := 0), NONE, input)
    else if s.quality == NONE then Awaited(s, input)
    else RungSelected(PpsCounted(FixCounted(s, input), input), input)
  }

  function ByteDelta(s: State, input: Input): nat {
    (input.nmea.byteCount - s.lastByteCount) % 0x1_0000_0000
  }

  function Tick(s: State, input: Input): State {
    Step(s.(lastByteCount := input.nmea.byteCount), ByteDelta(s, input), input)
  }

  function Boot(nowUs: int, ownship: Ref): State {
    var clock := Snapshot(NONE, nowUs, UINT32_MAX, false);
    State(NONE, 0, 0, 0, 0, 0, 0, 0, 0, clock, ownship, [Moment(clock, ownship)])
  }

  // ---- the supervisor

  class Supervisor {
    var nmea: Signals
    var pps: Pps.Signals
    var nowUs: int
    var quality: nat
    var presenceTicks: nat
    var noByteTicks: nat
    var lastByteCount: nat
    var fixGood: nat
    var fixMiss: nat
    var lastFixSeq: int
    var ppsMiss: nat
    var holdoverUnc: nat
    var clock: Snapshot
    var ownship: Ref
    ghost var seen: seq<Moment>

    ghost function Value(): State
      reads this
    {
      State(quality, presenceTicks, noByteTicks, lastByteCount, fixGood, fixMiss, lastFixSeq,
            ppsMiss, holdoverUnc, clock, ownship, seen)
    }

    function In(): Input
      reads this
    {
      Input(nmea, pps, nowUs)
    }

    constructor (now: int, reference: Ref, signals: Signals)
      ensures Value() == Boot(now, reference)
    {
      nmea, pps, nowUs := signals, Pps.Silent(), now;
      quality, presenceTicks, noByteTicks, lastByteCount := NONE, 0, 0, 0;
      fixGood, fixMiss, lastFixSeq, ppsMiss, holdoverUnc := 0, 0, 0, 0, 0;
      ownship := reference;
      clock := Snapshot(NONE, now, UINT32_MAX, false);
      seen := [Moment(Snapshot(NONE, now, UINT32_MAX, false), reference)];
    }

    method Republish()
      modifies this`clock, this`seen
      ensures Value() == Republished(old(Value()), In())
    {
      clock := SnapshotOf(quality, holdoverUnc, In());
      seen := seen + [Moment(clock, ownship)];
    }

    method PushOwnship()
      modifies this`ownship, this`seen
      ensures Value() == Pushed(old(Value()), In())
    {
      UpdateOwnship(Ref(true, nmea.lat, nmea.lon, Gps));
    }

    // ownship_update: a valid reference with unusable coordinates is refused.
    method UpdateOwnship(ref: Ref)
      modifies this`ownship, this`seen
      ensures
        var usable := ref.lat.Finite? && ref.lon.Finite?
                      && -90.0 <= ref.lat.num <= 90.0 && -180.0 <= ref.lon.num <= 180.0;
        Value() == if ref.valid && !usable then old(Value())
                   else WithOwnship(old(Value()), if ref.valid then ref else ref.(source := NoSource))
    {
      if ref.valid && !InBounds(ref.lat, ref.lon) {
        return;
      }
      ownship := if ref.valid then ref else ref.(source := NoSource);
      seen := seen + [Moment(clock, ownship)];
    }

    // ownship_clear_if_source(GPS): another source's reference is left alone.
    method ClearOwnship()
      modifies this`ownship, this`seen
      ensures Value() == Cleared(old(Value()))
      ensures ownship == if old(ownship.valid && ownship.source == Gps) then Ref(false, Finite(0.0), Finite(0.0), NoSource)
                         else old(ownship)
      ensures clock == old(clock) && quality == old(quality)
    {
      if ownship.source == Gps && ownship.valid {
        ownship := Ref(false, Finite(0.0), Finite(0.0), NoSource);
        seen := seen + [Moment(clock, ownship)];
      }
    }

    method SetQuality(to: nat)
      modifies this`quality, this`clock, this`ownship, this`seen
      ensures Value() == QualitySet(old(Value()), to, In())
    {
      if to == quality {
        return;
      }
      var wasFix, nowFix := quality >= NMEA_FIX, to >= NMEA_FIX;
      if nowFix && !wasFix {
        PushOwnship();
        quality := to;
        Republish();
      } else if !nowFix && wasFix {
        quality := to;
        Republish();
        ClearOwnship();
      } else {
        quality := to;
        Republish();
      }
    }

    method LadderStep(byteDelta: nat)
      modifies this`quality, this`clock, this`ownship, this`seen, this`presenceTicks, this`noByteTicks,
               this`fixGood, this`fixMiss, this`lastFixSeq, this`ppsMiss, this`holdoverUnc
      ensures Value() == Step(old(Value()), byteDelta, In())
    {
      hide QualitySet, Republished, Pushed, Awaited, RungSelected, FixCounted, PpsCounted;
      if byteDelta == 0 {
        if noByteTicks < BYTES_LOST_TICKS {
          noByteTicks := noByteTicks + 1;
        }
      } else {
        noByteTicks := 0;
      }
      if noByteTicks >= BYTES_LOST_TICKS {
        presenceTicks, fixGood, fixMiss := 0, 0, 0;
        SetQuality(NONE);
        return;
      }
      if quality == NONE {
        AwaitPresence();
        return;
      }
      CountFixAndPps();
      SelectRung();
    }

    // NONE: leave only on enough bytes to prove a module is there.
    method AwaitPresence()
      modifies this`quality, this`clock, this`ownship, this`seen, this`presenceTicks
      ensures Value() == Awaited(old(Value()), In())
    {
      hide QualitySet;
      if presenceTicks < PRESENCE_WINDOW_TICKS {
        presenceTicks := presenceTicks + 1;
      }
      if nmea.byteCount >= PRESENCE_MIN_BYTES {
        SetQuality(FREE_RUNNING);
      }
    }

    method CountFixAndPps()
      modifies this`fixGood, this`fixMiss, this`lastFixSeq, this`ppsMiss
      ensures Value() == PpsCounted(FixCounted(old(Value()), In()), In())
    {
      if nmea.fixValid && nmea.fixSeq != lastFixSeq {
        lastFixSeq := nmea.fixSeq;
        fixGood := if fixGood < FIX_GOOD_TICKS then fixGood + 1 else fixGood;
        fixMiss := 0;
      } else {
        fixMiss := if fixMiss < FIX_MISS_TICKS then fixMiss + 1 else fixMiss;
        if fixMiss >= FIX_MISS_TICKS {
          fixGood := 0;
        }
      }
      if pps.present {
        ppsMiss := 0;
      } else if ppsMiss < PPS_MISS_TICKS {
        ppsMiss := ppsMiss + 1;
      }
    }

    method SelectRung()
      modifies this`quality, this`clock, this`ownship, this`seen, this`ppsMiss, this`holdoverUnc
      ensures Value() == RungSelected(old(Value()), In())
    {
      hide QualitySet, Republished, Pushed;
      if quality >= NMEA_FIX {
        if fixMiss >= FIX_MISS_TICKS {
          ppsMiss := PPS_MISS_TICKS;
          holdoverUnc := 0;
          SetQuality(FREE_RUNNING);
          return;
        }
        PushOwnship();
        ClimbUpperRungs();
      } else if fixGood >= FIX_GOOD_TICKS {
        ppsMiss := 0;
        SetQuality(NMEA_FIX);
      }
    }

    method ClimbUpperRungs()
      modifies this`quality, this`clock, this`ownship, this`seen, this`holdoverUnc
      ensures Value() == UpperRungs(old(Value()), In())
    {
      hide QualitySet, Republished;
      if quality == NMEA_FIX {
        if pps.converged {
          holdoverUnc := DISCIPLINED_UNC_NS;
          SetQuality(DISCIPLINED);
        } else {
          Republish();
        }
      } else if quality == DISCIPLINED {
        if ppsMiss >= PPS_MISS_TICKS {
          holdoverUnc := DISCIPLINED_UNC_NS;
          SetQuality(HOLDOVER);
        } else {
          Republish();
        }
      } else if quality == HOLDOVER {
        if pps.converged {
          holdoverUnc := DISCIPLINED_UNC_NS;
          SetQuality(DISCIPLINED);
        } else {
          if holdoverUnc < UINT32_MAX - HOLDOVER_GROWTH_NS {
            holdoverUnc := holdoverUnc + HOLDOVER_GROWTH_NS;
          }
          if holdoverUnc >= HOLDOVER_CEIL_NS {
            SetQuality(NMEA_FIX);
          } else {
            Republish();
          }
        }
      } else {
        Republish();
      }
    }

    // One turn of the supervisor task, after the producers have run.
    method TaskTick(signals: Signals, edges: Pps.Signals, now: int)
      modifies this
      ensures Value() == Tick(old(Value()), Input(signals, edges, now))
    {
      hide Step;
      nmea, pps, nowUs := signals, edges, now;
      var nowBytes := nmea.byteCount;
      var byteDelta := (nowBytes - lastByteCount) % 0x1_0000_0000;
      lastByteCount := nowBytes;
      LadderStep(byteDelta);
    }
  }
}
