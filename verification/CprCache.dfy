// The per-aircraft pairing cache of components/modes_decode/modes_decode.c, which feeds the
// global decoder.
module CprCache {
  import opened Cpr
  import opened Wrappers

  datatype Stamped = Stamped(frame: Frame, rxTime: int)

  // icao 0 marks an empty slot.
  datatype Slot = Slot(icao: nat, validEven: bool, validOdd: bool, even: Stamped, odd: Stamped, lastUsed: int)

  datatype Report = Report(icao: nat, stamped: Stamped)

  datatype Outcome = Ok(fix: Position) | NoPosition | CprReject | StalePair

  // ---- specification

  // The most recent report of a format from an aircraft.
  function Latest(log: seq<Report>, icao: nat, odd: bool): Option<Stamped> {
    if |log| == 0 then None
    else
      var last := log[|log| - 1];
      if last.icao == icao && last.stamped.frame.odd == odd then Some(last.stamped)
      else Latest(log[..|log| - 1], icao, odd)
  }

  // When an aircraft was last heard.
  function Heard(log: seq<Report>, icao: nat): Option<int> {
    if |log| == 0 then None
    else
      var last := log[|log| - 1];
      if last.icao == icao then Some(last.stamped.rxTime) else Heard(log[..|log| - 1], icao)
  }

  lemma HeardAfter(log: seq<Report>, r: Report)
    ensures forall icao: nat :: Heard(log + [r], icao) == if r.icao == icao then Some(r.stamped.rxTime) else Heard(log, icao)
  {
  }

  // Occupied slots are a prefix, with distinct keys.
  predicate PrefixDistinct(slots: seq<Slot>, used: nat) {
    && used <= |slots|
    && (forall i :: 0 <= i < |slots| ==> (slots[i].icao != 0 <==> i < used))
    && (forall i, j :: 0 <= i < j < used ==> slots[i].icao != slots[j].icao)
  }

  // A half marked valid is the latest report of that format from the slot's own aircraft.
  predicate HalvesFrom(s: Slot, log: seq<Report>) {
    && (s.validEven ==> Latest(log, s.icao, false) == Some(s.even))
    && (s.validOdd ==> Latest(log, s.icao, true) == Some(s.odd))
  }

  predicate TimeHeard(s: Slot, log: seq<Report>) {
    Heard(log, s.icao) == Some(s.lastUsed)
  }

  function Claimed(s: Slot, icao: nat, now: int): Slot {
    s.(icao := icao, validEven := false, validOdd := false, lastUsed := now)
  }

  predicate LeastRecentlyUsed(slots: seq<Slot>, i: nat) {
    i < |slots| && forall j :: 0 <= j < |slots| ==> slots[i].lastUsed <= slots[j].lastUsed
  }

  predicate Holds(slots: seq<Slot>, icao: nat) {
    exists i :: 0 <= i < |slots| && slots[i].icao == icao
  }

  // The slot table after asking for an aircraft's slot, which is slot i: the aircraft's own, else
  // the first empty one, else a least recently used one.
  predicate SlotFor(before: seq<Slot>, used: nat, icao: nat, now: int, i: nat, after: seq<Slot>) {
    && i < |before|
    && (if Holds(before, icao) then before[i].icao == icao && after == before[i := before[i].(lastUsed := now)]
        else if used < |before| then i == used && after == before[i := Claimed(before[i], icao, now)]
        else LeastRecentlyUsed(before, i) && after == before[i := Claimed(before[i], icao, now)])
  }

  function Stored(s: Slot, f: Stamped): Slot {
    if f.frame.odd then s.(odd := f, validOdd := true) else s.(even := f, validEven := true)
  }

  function Age(s: Slot): int {
    if s.even.rxTime > s.odd.rxTime then s.even.rxTime - s.odd.rxTime else s.odd.rxTime - s.even.rxTime
  }

  function PairFix(s: Slot): Fix {
    GlobalDecode(s.even.frame, s.odd.frame, s.odd.rxTime >= s.even.rxTime)
  }

  // A usable pair: both halves, close enough in time, and accepted by the decoder.
  predicate Pairs(s: Slot, maxAge: nat) {
    s.validEven && s.validOdd && Age(s) <= maxAge && PairFix(s).Resolved?
  }

  class Cache {
    const slots: array<Slot>
    const maxPairAge: nat
    const enableLocal: bool
    var positionsGlobal: nat
    var positionsLocal: nat
    var cprRejects: nat
    ghost var used: nat
    ghost var log: seq<Report>

    ghost predicate Valid()
      reads this, slots
    {
      Core() && forall i :: 0 <= i < used ==> TimeHeard(slots[i], log)
    }

    ghost predicate Core()
      reads this, slots
    {
      && slots.Length > 0
      && PrefixDistinct(slots[..], used)
      && forall i :: 0 <= i < slots.Length ==> HalvesFrom(slots[i], log)
    }

    // The least recently used slot is the aircraft heard longest ago.
    lemma OldestHeard(i: nat, j: nat)
      requires Valid() && LeastRecentlyUsed(slots[..], i) && i < used && j < used
      ensures Heard(log, slots[i].icao).Some? && Heard(log, slots[j].icao).Some?
      ensures Heard(log, slots[i].icao).value <= Heard(log, slots[j].icao).value
    {
      hide Heard;
    }

    constructor (size: nat, maxPairAge: nat, enableLocal: bool)
      requires size > 0
      ensures Valid() && used == 0 && log == [] && slots.Length == size && fresh(slots)
      ensures this.maxPairAge == maxPairAge && this.enableLocal == enableLocal
      ensures positionsGlobal == 0 && positionsLocal == 0 && cprRejects == 0
    {
      var zero := Stamped(Frame(false, 0, 0), 0);
      slots := new Slot[size](_ => Slot(0, false, false, zero, zero, 0));
      this.maxPairAge := maxPairAge;
      this.enableLocal := enableLocal;
      positionsGlobal, positionsLocal, cprRejects := 0, 0, 0;
      used, log := 0, [];
    }

    method GetSlot(icao: nat, now: int) returns (index: nat)
      requires Valid() && icao != 0
      modifies slots, this`used
      ensures Core() && index < used && slots[index].icao == icao && slots[index].lastUsed == now
      ensures forall i :: 0 <= i < used && i != index ==> TimeHeard(slots[i], log)
      ensures SlotFor(old(slots[..]), old(used), icao, now, index, slots[..])
    {
      hide Heard, Latest;
      ghost var before := slots[..];
      var lru: nat := 0;
      for i := 0 to slots.Length
        invariant slots[..] == before
        invariant i <= used
        invariant if i == 0 then lru == 0 else lru < i
        invariant forall j :: 0 <= j < i ==> slots[j].icao != icao && slots[lru].lastUsed <= slots[j].lastUsed
      {
        if slots[i].icao == icao {
          slots[i] := slots[i].(lastUsed := now);
          return i;
        }
        if slots[i].icao == 0 {
          assert !Holds(before, icao);
          slots[i] := Claimed(slots[i], icao, now);
          used := used + 1;
          return i;
        }
        if slots[i].lastUsed < slots[lru].lastUsed {
          lru := i;
        }
      }
      assert !Holds(before, icao);
      slots[lru] := Claimed(slots[lru], icao, now);
      return lru;
    }

    // Put a frame in its half of the aircraft's slot.
    method Store(icao: nat, f: Stamped) returns (i: nat, ghost claimed: seq<Slot>)
      requires Valid() && icao != 0
      modifies slots, this`used, this`log
      ensures Valid() && log == old(log) + [Report(icao, f)]
      ensures i < slots.Length && slots[i].icao == icao
      ensures SlotFor(old(slots[..]), old(used), icao, f.rxTime, i, claimed)
      ensures slots[..] == claimed[i := Stored(claimed[i], f)]
    {
      hide Heard, Latest;
      i := GetSlot(icao, f.rxTime);
      claimed := slots[..];
      LatestAfter(log, Report(icao, f));
      HeardAfter(log, Report(icao, f));
      slots[i] := Stored(slots[i], f);
      log := log + [Report(icao, f)];
    }

    // Store a frame, then resolve a position from the pair or from the reference. Slot i is the
    // aircraft's, `claimed` the table between finding and filling it.
    method PositionCpr(icao: nat, frame: Frame, rxTime: int, reference: Option<Position>)
        returns (r: Outcome, ghost i: nat, ghost claimed: seq<Slot>)
      requires Valid() && icao != 0
      modifies slots, this
      ensures Valid() && log == old(log) + [Report(icao, Stamped(frame, rxTime))]
      ensures SlotFor(old(slots[..]), old(used), icao, rxTime, i, claimed)
      ensures slots[..] == claimed[i := Stored(claimed[i], Stamped(frame, rxTime))]
      ensures i < slots.Length && slots[i].icao == icao
      ensures Resolved(slots[i], r, frame, reference)
      ensures Counted(slots[i], r, old(positionsGlobal), old(positionsLocal), old(cprRejects))
      ensures positionsGlobal > old(positionsGlobal) ==> GlobalFix(log, icao, maxPairAge, r)
    {
      hide GlobalDecode, LocalDecode, SlotFor, PrefixDistinct, Stored;
      var index;
      index, claimed := Store(icao, Stamped(frame, rxTime));
      i := index;
      var slot := slots[index];
      if slot.validEven && slot.validOdd {
        if Age(slot) <= maxPairAge {
          var fix := PairFix(slot);
          if fix.Resolved? {
            positionsGlobal := positionsGlobal + 1;
            r := Ok(Position(fix.lat, fix.lon));
            return;
          }
          cprRejects := cprRejects + 1;
        } else if !(enableLocal && reference.Some?) {
          r := StalePair;
          return;
        }
      }
      if enableLocal && reference.Some? {
        var fix := LocalDecode(frame, reference.value.lat, reference.value.lon);
        if fix.Resolved? {
          positionsLocal := positionsLocal + 1;
          r := Ok(Position(fix.lat, fix.lon));
          return;
        }
        cprRejects := cprRejects + 1;
        r := CprReject;
        return;
      }
      r := NoPosition;
    }

    // An aircraft's even frame from p and odd frame from q, in either order and no further apart
    // in time than the configured age, resolve to the position of the later of them when its two
    // positions are close enough and their encoded latitudes have equal zone counts.
    method PositionFromPair(icao: nat, first: Frame, firstTime: int, second: Frame, secondTime: int,
                            reference: Option<Position>, ghost p: Position, ghost q: Position, ghost turns: int)
        returns (r: Outcome)
      requires Valid() && icao != 0 && FramesOf(p, q, turns, first, second)
      requires firstTime - secondTime <= maxPairAge && secondTime - firstTime <= maxPairAge
      modifies slots, this
      ensures Valid() && r.Ok?
      ensures
        var odd := LatestIsOdd(first.odd, firstTime, secondTime);
        Recovers(r.fix.lat, r.fix.lon, Newer(p, q, odd), odd)
    {
      hide GlobalFix, FramesOf, Recovers, PrefixDistinct, HalvesFrom, Counted, Resolved;
      var ignored, i, claimed := PositionCpr(icao, first, firstTime, reference);
      StoredHolds(claimed[i], Stamped(first, firstTime));
      r := PositionFromSecond(i, icao, first, firstTime, second, secondTime, reference, p, q, turns);
    }

    // The second frame, whatever was received from other aircraft since the first.
    method PositionFromSecond(ghost index: nat, icao: nat, ghost first: Frame, ghost firstTime: int, second: Frame,
                              secondTime: int, reference: Option<Position>, ghost p: Position, ghost q: Position,
                              ghost turns: int)
        returns (r: Outcome)
      requires Valid() && icao != 0 && index < slots.Length && slots[index].icao == icao
      requires HoldsHalf(slots[index], Stamped(first, firstTime)) && FramesOf(p, q, turns, first, second)
      requires firstTime - secondTime <= maxPairAge && secondTime - firstTime <= maxPairAge
      modifies slots, this
      ensures Valid() && r.Ok?
      ensures
        var odd := LatestIsOdd(first.odd, firstTime, secondTime);
        Recovers(r.fix.lat, r.fix.lon, Newer(p, q, odd), odd)
    {
      hide GlobalFix, FramesOf, Recovers, SlotFor, PrefixDistinct, HalvesFrom, Counted, Resolved, Stored, HoldsHalf;
      ghost var before, keys := slots[..], used;
      ghost var i, claimed;
      r, i, claimed := PositionCpr(icao, second, secondTime, reference);
      SameSlot(before, keys, icao, secondTime, i, claimed, index);
      HeldOn(before[i], Stamped(first, firstTime), secondTime);
      PairResolves(claimed[i], first, firstTime, second, secondTime, maxPairAge, p, q, turns);
      PairIsFixed(slots[i], second, reference, r);
    }

    lemma PairIsFixed(s: Slot, frame: Frame, reference: Option<Position>, r: Outcome)
      requires Pairs(s, maxPairAge) && Resolved(s, r, frame, reference)
      ensures r == Ok(Position(PairFix(s).lat, PairFix(s).lon))
    {
    }

    // One frame and a reference within half a zone of its position: unless a pair settles it, the
    // call gives that position back.
    method PositionFromReference(icao: nat, frame: Frame, rxTime: int, reference: Position, ghost p: Position,
                                 ghost turns: int)
        returns (r: Outcome)
      requires Valid() && icao != 0 && enableLocal && frame == Encode(p, frame.odd)
      requires -90.0 <= p.lat <= 90.0 && -180.0 <= reference.lon <= 180.0
      requires InWindow(EncodedLat(p, frame.odd), reference.lat, LatZones(frame.odd))
      requires InWindow(EncodedLon(p, frame.odd) + 360.0 * turns as real, reference.lon, EncodedLonZones(p, frame.odd))
      modifies slots, this
      ensures Valid() && r.Ok?
      ensures positionsGlobal == old(positionsGlobal) ==>
                Recovers(r.fix.lat, r.fix.lon, p, frame.odd) && positionsLocal == old(positionsLocal) + 1
    {
      hide Recovers, SlotFor, PrefixDistinct, HalvesFrom, Stored, GlobalDecode, LocalDecode, InWindow, GlobalFix,
           Encode, EncodedLat, EncodedLon, EncodedLonZones;
      ghost var i, claimed;
      r, i, claimed := PositionCpr(icao, frame, rxTime, Some(reference));
      LocalRecovers(p, frame.odd, reference.lat, reference.lon, turns);
    }

    // A usable pair gives its global fix. Failing that, a reference gives the local fix of the
    // frame, or CprReject where that is off the globe; without one the pair was too far apart in
    // time, or there was no usable pair.
    ghost predicate Resolved(s: Slot, r: Outcome, frame: Frame, reference: Option<Position>) {
      && (Pairs(s, maxPairAge) ==>
            var fix := GlobalDecode(s.even.frame, s.odd.frame, s.odd.rxTime >= s.even.rxTime);
            r == Ok(Position(fix.lat, fix.lon)))
      && (!Pairs(s, maxPairAge) && enableLocal && reference.Some? ==>
            var fix := LocalDecode(frame, reference.value.lat, reference.value.lon);
            if fix.Resolved? then r == Ok(Position(fix.lat, fix.lon)) else r == CprReject)
      && (!Pairs(s, maxPairAge) && !(enableLocal && reference.Some?) ==> r == StalePair || r == NoPosition)
      && (r == StalePair ==> s.validEven && s.validOdd && !(enableLocal && reference.Some?)
                             && (s.even.rxTime - s.odd.rxTime > maxPairAge || s.odd.rxTime - s.even.rxTime > maxPairAge))
      && (r == NoPosition ==> !(enableLocal && reference.Some?)
                              && (!s.validEven || !s.validOdd
                                  || (s.even.rxTime - s.odd.rxTime <= maxPairAge
                                      && s.odd.rxTime - s.even.rxTime <= maxPairAge)))
    }

    // What one call adds to the statistics.
    ghost predicate Counted(s: Slot, r: Outcome, global: nat, local: nat, rejects: nat)
      reads this
    {
      var paired := Pairs(s, maxPairAge);
      var refused := s.validEven && s.validOdd && Age(s) <= maxPairAge && !paired;
      && positionsGlobal == global + (if paired then 1 else 0)
      && positionsLocal == local + (if r.Ok? && !paired then 1 else 0)
      && cprRejects == rejects + (if refused then 1 else 0) + (if r.CprReject? then 1 else 0)
    }
  }

  lemma LatestAfter(log: seq<Report>, r: Report)
    ensures forall icao: nat, odd: bool ::
      Latest(log + [r], icao, odd)
      == (if r.icao == icao && r.stamped.frame.odd == odd then Some(r.stamped) else Latest(log, icao, odd))
  {
  }

  predicate HoldsHalf(s: Slot, f: Stamped) {
    if f.frame.odd then s.validOdd && s.odd == f else s.validEven && s.even == f
  }

  lemma StoredHolds(s: Slot, f: Stamped)
    ensures HoldsHalf(Stored(s, f), f)
  {
  }

  lemma HeldOn(s: Slot, f: Stamped, now: int)
    requires HoldsHalf(s, f)
    ensures HoldsHalf(s.(lastUsed := now), f)
  {
  }

  // The even frame of p and the odd frame of q, close enough together, whose encoded latitudes
  // have equal zone counts.
  ghost predicate FramesOf(p: Position, q: Position, turns: int, first: Frame, second: Frame) {
    && -90.0 <= p.lat <= 90.0 && -90.0 <= q.lat <= 90.0
    && first == Encode(Newer(p, q, first.odd), first.odd) && second == Encode(Newer(p, q, !first.odd), !first.odd)
    && Nl(EncodedLat(p, false)) == Nl(EncodedLat(q, true))
    && LatTogether(p, q) && LonTogether(p, q, Nl(EncodedLat(p, false)), turns)
  }

  predicate LatestIsOdd(firstIsOdd: bool, firstTime: int, secondTime: int) {
    if firstIsOdd then firstTime >= secondTime else secondTime >= firstTime
  }

  // The second half completes the pair.
  lemma PairResolves(s: Slot, first: Frame, firstTime: int, second: Frame, secondTime: int, maxAge: nat,
                     p: Position, q: Position, turns: int)
    requires FramesOf(p, q, turns, first, second) && HoldsHalf(s, Stamped(first, firstTime))
    requires firstTime - secondTime <= maxAge && secondTime - firstTime <= maxAge
    ensures
      var t, odd := Stored(s, Stamped(second, secondTime)), LatestIsOdd(first.odd, firstTime, secondTime);
      Pairs(t, maxAge) && Recovers(PairFix(t).lat, PairFix(t).lon, Newer(p, q, odd), odd)
  {
    hide GlobalDecode, Recovers, Nl, Field, EncodedLat, EncodedLonZones, LatTogether, LonTogether;
    GlobalRecovers(p, q, LatestIsOdd(first.odd, firstTime, secondTime), turns);
  }

  lemma SameSlot(before: seq<Slot>, used: nat, icao: nat, now: int, i: nat, after: seq<Slot>, index: nat)
    requires PrefixDistinct(before, used) && index < |before| && before[index].icao == icao && icao != 0
    requires SlotFor(before, used, icao, now, i, after)
    ensures i == index && after == before[i := before[i].(lastUsed := now)]
  {
    assert Holds(before, icao);
  }

  // The result is the global fix of the latest even and odd frames of the aircraft, no further
  // apart in time than the configured age.
  ghost predicate GlobalFix(log: seq<Report>, icao: nat, maxAge: nat, r: Outcome) {
    && Latest(log, icao, false).Some? && Latest(log, icao, true).Some?
    && var e, o := Latest(log, icao, false).value, Latest(log, icao, true).value;
    && var fix := GlobalDecode(e.frame, o.frame, o.rxTime >= e.rxTime);
    && e.rxTime - o.rxTime <= maxAge && o.rxTime - e.rxTime <= maxAge
    && fix.Resolved? && r == Ok(Position(fix.lat, fix.lon))
  }
}
