// The live traffic table (components/traffic/traffic.c): a fixed slot array that behaves as a
// map bounded by its capacity, with ageing, eviction and conserved counters. The mutex is left
// out: every public call runs alone.
module Traffic {
  import opened Geo
  import opened TrafficTable
  import opened Wrappers

  const US_PER_MS := 1000

  class Table {
    const cfg: Config
    const geometry: Geometry
    const slots: array<Slot>
    var liveCount: nat
    var ownship: Ref
    // Statistics.
    var totalIngested: nat
    var totalNew: nat
    var totalUpdated: nat
    var totalPositionFixes: nat
    var filteredRange: nat
    var filteredAltitude: nat
    var filteredSanity: nat
    var totalExpired: nat
    var peakLiveCount: nat
    var currentLiveCount: nat
    // Targets that left by eviction and by Clear; the code does not count these.
    ghost var evicted: nat
    ghost var cleared: nat

    ghost predicate Valid()
      reads this, slots
    {
      Core() && Conserved() && Screened(cfg, Contents())
    }

    ghost predicate Core()
      reads this`liveCount, this`ownship, slots
    {
      && slots.Length > 0 && Distinct(slots[..]) && liveCount == Count(slots[..])
      && AllLocated(geometry, ownship, slots[..])
    }

    // Every message is accounted for once, and every target ever created is live or gone one way.
    ghost predicate Conserved()
      reads this
    {
      && totalIngested == filteredRange + filteredAltitude + filteredSanity + totalUpdated + totalNew
      && totalNew == liveCount + totalExpired + evicted + cleared
      && currentLiveCount == liveCount <= peakLiveCount
    }

    ghost function Contents(): map<nat, Target>
      reads slots
    {
      Live(slots[..])
    }

    constructor (config: Config, g: Geometry)
      ensures Valid() && fresh(slots) && Contents() == map[] && cfg == config && geometry == g
      ensures slots.Length == (if config.maxTargets == 0 then 1 else config.maxTargets)
      ensures !ownship.valid && totalIngested == 0
    {
      cfg, geometry := config, g;
      var capacity := if config.maxTargets == 0 then 1 else config.maxTargets;
      var empty := Slot(false, Blank(0, Msg(0, 0, 0, None, None, None, None, None, None)));
      slots := new Slot[capacity](_ => empty);
      liveCount, ownship := 0, Ref(false, Finite(0.0), Finite(0.0), NoSource);
      totalIngested, totalNew, totalUpdated, totalPositionFixes := 0, 0, 0, 0;
      filteredRange, filteredAltitude, filteredSanity, totalExpired := 0, 0, 0, 0;
      peakLiveCount, currentLiveCount, evicted, cleared := 0, 0, 0, 0;
      new;
      NothingLive(slots[..]);
    }

    // Every live target's geometry is there exactly when ownship and its position are valid.
    lemma GeometryCurrent(k: nat)
      requires Valid() && k in Contents()
      ensures Geometric(geometry, ownship, Contents()[k])
    {
      hide Live;
      var i := LiveSlot(slots[..], k);
      LiveHas(slots[..], i);
    }

    // The table never outgrows its slots, and the tally is the size of the map.
    lemma Bounded()
      requires Valid()
      ensures |Contents()| == liveCount <= slots.Length
    {
      LiveSize(slots[..]);
    }

    // The slot of an address, or -1.
    method FindSlot(icao: nat) returns (k: int)
      ensures -1 <= k < slots.Length
      ensures k >= 0 ==> slots[k].occupied && slots[k].target.icao == icao
      ensures k < 0 ==> Absent(slots[..], icao)
    {
      for i := 0 to slots.Length
        invariant Absent(slots[..i], icao)
      {
        if slots[i].occupied && slots[i].target.icao == icao {
          return i;
        }
      }
      assert slots[..slots.Length] == slots[..];
      k := -1;
    }

    method FindFree() returns (k: int)
      ensures -1 <= k < slots.Length
      ensures k >= 0 ==> !slots[k].occupied
      ensures k < 0 ==> forall i :: 0 <= i < slots.Length ==> slots[i].occupied
    {
      for i := 0 to slots.Length
        invariant forall j :: 0 <= j < i ==> slots[j].occupied
      {
        if !slots[i].occupied {
          return i;
        }
      }
      k := -1;
    }

    // The occupied slot heard least recently; -1 only on an empty table.
    method FindOldest() returns (k: int)
      ensures -1 <= k < slots.Length
      ensures k < 0 ==> forall i :: 0 <= i < slots.Length ==> !slots[i].occupied
      ensures k >= 0 ==> slots[k].occupied
      ensures k >= 0 ==> forall i :: 0 <= i < slots.Length && slots[i].occupied ==>
                slots[k].target.lastSeenUs <= slots[i].target.lastSeenUs
    {
      k := -1;
      for i := 0 to slots.Length
        invariant -1 <= k < i
        invariant k < 0 ==> forall j :: 0 <= j < i ==> !slots[j].occupied
        invariant k >= 0 ==> slots[k].occupied
        invariant k >= 0 ==> forall j :: 0 <= j < i && slots[j].occupied ==>
                    slots[k].target.lastSeenUs <= slots[j].target.lastSeenUs
      {
        if !slots[i].occupied {
          continue;
        }
        if k < 0 || slots[i].target.lastSeenUs < slots[k].target.lastSeenUs {
          k := i;
        }
      }
    }

    method MergeMsg(k: nat, msg: Msg) returns (producedFix: bool)
      requires k < slots.Length
      modifies slots
      ensures producedFix == (msg.position.Some? && !old(slots[k].target.positionValid))
      ensures slots[..] == old(slots[..])[k := Slot(old(slots[k].occupied), Merged(geometry, ownship, old(slots[k].target), msg))]
    {
      hide Located;
      var t := slots[k].target;
      producedFix := false;
      t := t.(lastSeenUs := msg.rxTimeUs);
      if t.msgCount < MSG_COUNT_MAX {
        t := t.(msgCount := t.msgCount + 1);
      }
      if msg.signalLevel >= 0 {
        t := t.(signalLevel := msg.signalLevel);
      }
      if msg.callsign.Some? {
        t := t.(callsign := msg.callsign);
      }
      if msg.category.Some? {
        t := t.(category := msg.category);
      }
      if msg.position.Some? {
        producedFix := !t.positionValid;
        t := t.(position := msg.position.value, positionUs := msg.rxTimeUs, positionValid := true);
      }
      if msg.altitude.Some? {
        t := t.(altitude := msg.altitude);
      }
      if msg.velocity.Some? {
        t := t.(velocity := msg.velocity);
      }
      if msg.verticalRate.Some? {
        t := t.(verticalRate := msg.verticalRate);
      }
      slots[k] := Slot(slots[k].occupied, Located(geometry, ownship, t));
    }

    // An existing target: merge in place.
    method UpdateAt(k: nat, msg: Msg) returns (producedFix: bool)
      requires Core() && k < slots.Length && slots[k].occupied
      modifies slots
      ensures Core()
      ensures
        var icao := old(slots[k].target.icao);
        icao in old(Contents()) && producedFix == (msg.position.Some? && !old(Contents())[icao].positionValid)
        && Contents() == old(Contents())[icao := Merged(geometry, ownship, old(Contents())[icao], msg)]
    {
      hide Merged, Live, Count, RelativeOf;
      ghost var before, t := slots[..], Merged(geometry, ownship, slots[k].target, msg);
      MergedIcao(geometry, ownship, slots[k].target, msg);
      LiveHas(before, k);
      KeptElsewhere(before, k);
      LiveUpdate(before, k, t);
      DistinctUpdate(before, k, t);
      CountUpdate(before, k, Slot(true, t));
      producedFix := MergeMsg(k, msg);
      Readd(Live(before), t.icao, t);
    }

    // A new target in slot k, whatever the slot held.
    method InsertAt(k: nat, msg: Msg) returns (producedFix: bool)
      requires Core() && k < slots.Length && Absent(slots[..], Key(msg.icao))
      modifies slots, this`liveCount
      ensures Core() && producedFix == msg.position.Some?
      ensures liveCount == old(liveCount) - One(old(slots[k])) + 1
      ensures
        var icao := Key(msg.icao);
        Contents() == (old(Contents()) - Vacated(old(slots[..]), k))
                      [icao := Merged(geometry, ownship, Blank(icao, msg), msg)]
    {
      hide Merged, Live, Count, RelativeOf, Key;
      ghost var before := slots[..];
      ghost var icao := Key(msg.icao);
      ghost var t := Merged(geometry, ownship, Blank(icao, msg), msg);
      MergedIcao(geometry, ownship, Blank(icao, msg), msg);
      LiveUpdate(before, k, t);
      DistinctUpdate(before, k, t);
      CountUpdate(before, k, Slot(true, t));
      if slots[k].occupied {
        OccupiedCounts(before, k);
        liveCount := liveCount - 1;
      }
      slots[k] := Slot(true, Blank(Key(msg.icao), msg));
      liveCount := liveCount + 1;
      producedFix := MergeMsg(k, msg);
      assert slots[..] == before[k := Slot(true, t)];
    }

    method TrackPeak()
      modifies this`currentLiveCount, this`peakLiveCount
      ensures currentLiveCount == liveCount
      ensures peakLiveCount == if liveCount > old(peakLiveCount) then liveCount else old(peakLiveCount)
    {
      currentLiveCount := liveCount;
      if liveCount > peakLiveCount {
        peakLiveCount := liveCount;
      }
    }

    // Merge one message: filtered and only counted, or folded into the table.
    method Ingest(msg: Msg) returns (result: Outcome, ghost victim: nat)
      requires Valid()
      modifies this, slots
      ensures Valid() && ownship == old(ownship) && totalIngested == old(totalIngested) + 1
      ensures
        var k, m := msg.icao % 0x100_0000, old(Contents());
        if Implausible(cfg, msg) || TooHigh(cfg, msg) || TooFar(cfg, geometry, ownship, msg) then
          && result == (if Implausible(cfg, msg) then FilteredSanity
                        else if TooHigh(cfg, msg) then FilteredAltitude else FilteredRange)
          && Contents() == m && FilteredOnce(result)
          && totalNew == old(totalNew) && totalUpdated == old(totalUpdated)
          && totalPositionFixes == old(totalPositionFixes)
        else
          && Folded(m, Contents(), slots.Length, geometry, ownship, msg, victim)
          && FilteredOnce(result)
          && totalNew == old(totalNew) + (if k in m then 0 else 1)
          && totalUpdated == old(totalUpdated) + (if k in m then 1 else 0)
          && Results(m, Contents(), slots.Length, msg, result, totalPositionFixes > old(totalPositionFixes))
          && old(totalPositionFixes) <= totalPositionFixes <= old(totalPositionFixes) + 1
      ensures result == FullEvicted ==> Oldest(old(Contents()), victim)
      ensures evicted == old(evicted) + (if result == FullEvicted then 1 else 0)
      ensures cleared == old(cleared) && totalExpired == old(totalExpired)
      ensures peakLiveCount == if liveCount > old(peakLiveCount) then liveCount else old(peakLiveCount)
    {
      hide Verdict, Results, Oldest, Core, Live, Implausible, TooHigh, TooFar, Folded, Screened;
      totalIngested := totalIngested + 1;
      victim := 0;
      Dropped(cfg, geometry, ownship, msg);
      var dropped := Screen(msg);
      if dropped.Some? {
        return dropped.value, 0;
      }
      var producedFix;
      result, producedFix, victim := Fold(msg);
      if producedFix {
        totalPositionFixes := totalPositionFixes + 1;
      }
      TrackPeak();
    }

    // The three filters, in order; the range filter needs a valid ownship.
    method Screen(msg: Msg) returns (dropped: Option<Outcome>)
      modifies this`filteredSanity, this`filteredAltitude, this`filteredRange
      ensures dropped == Verdict(cfg, geometry, ownship, msg)
      ensures dropped.Some? ==> FilteredOnce(dropped.value)
      ensures dropped.None? ==>
                filteredSanity == old(filteredSanity) && filteredAltitude == old(filteredAltitude)
                && filteredRange == old(filteredRange)
      ensures filteredRange + filteredAltitude + filteredSanity
           == old(filteredRange) + old(filteredAltitude) + old(filteredSanity) + (if dropped.Some? then 1 else 0)
    {
      if cfg.sanityFilter && msg.position.Some? && !Sane(msg.position.value) {
        filteredSanity := filteredSanity + 1;
        return Some(FilteredSanity);
      }
      if cfg.altitudeFilter && msg.altitude.Some? && msg.altitude.value.feet > cfg.maxAltitudeFt {
        filteredAltitude := filteredAltitude + 1;
        return Some(FilteredAltitude);
      }
      if cfg.rangeFilter && ownship.valid && msg.position.Some? {
        var range := geometry.range(ownship, msg.position.value);
        if Exceeds(range, cfg.maxRangeNm) {
          filteredRange := filteredRange + 1;
          return Some(FilteredRange);
        }
      }
      return None;
    }

    twostate predicate FilteredOnce(result: Outcome)
      reads this
    {
      && filteredSanity == old(filteredSanity) + (if result == FilteredSanity then 1 else 0)
      && filteredAltitude == old(filteredAltitude) + (if result == FilteredAltitude then 1 else 0)
      && filteredRange == old(filteredRange) + (if result == FilteredRange then 1 else 0)
    }

    // A free slot, or in a full table the slot of the least recently heard target.
    method TakeSlot() returns (slot: nat, wasFull: bool, ghost victim: nat)
      requires Core()
      ensures slot < slots.Length && wasFull == (|Contents()| >= slots.Length)
      ensures wasFull == slots[slot].occupied
      ensures wasFull ==> Oldest(Contents(), victim)
      ensures (Contents() - Vacated(slots[..], slot)) == if wasFull then Contents() - {victim} else Contents()
    {
      hide Count, AllLocated, Live, Key, Distinct, Oldest;
      LiveSize(slots[..]);
      var free := FindFree();
      victim := 0;
      if free >= 0 {
        FreeSlot(slots[..], free);
        NothingVacated(Contents());
        return free, false, 0;
      }
      CountFull(slots[..]);
      var oldest := FindOldest();
      assert slots[0].occupied;
      OldestSlot(slots[..], oldest);
      return oldest, true, slots[oldest].target.icao;
    }

    // What locating or creating the target of an unfiltered message means for the table.
    method Fold(msg: Msg) returns (result: Outcome, producedFix: bool, ghost victim: nat)
      requires Core() && totalNew == liveCount + totalExpired + evicted + cleared
      modifies slots, this`liveCount, this`totalUpdated, this`totalNew, this`evicted
      ensures Core() && totalNew == liveCount + totalExpired + evicted + cleared
      ensures Folded(old(Contents()), Contents(), slots.Length, geometry, ownship, msg, victim)
      ensures Results(old(Contents()), Contents(), slots.Length, msg, result, producedFix)
      ensures Screened(cfg, old(Contents())) && Verdict(cfg, geometry, ownship, msg).None? ==> Screened(cfg, Contents())
      ensures result != FilteredSanity && result != FilteredAltitude && result != FilteredRange
      ensures result == FullEvicted ==> Oldest(old(Contents()), victim)
      ensures evicted == old(evicted) + (if result == FullEvicted then 1 else 0)
      ensures totalNew == old(totalNew) + (if msg.icao % 0x100_0000 in old(Contents()) then 0 else 1)
      ensures totalUpdated == old(totalUpdated) + (if msg.icao % 0x100_0000 in old(Contents()) then 1 else 0)
    {
      hide Ingested, GivesFix, Oldest, Core, Live, Folded, Results, Screened, Verdict;
      ghost var m := Contents();
      result, producedFix, victim := Place(msg);
      IngestedFolds(m, slots.Length, geometry, ownship, msg, victim);
      ResultIs(m, slots.Length, geometry, ownship, msg, victim);
      if Screened(cfg, m) && Verdict(cfg, geometry, ownship, msg).None? {
        IngestedScreened(cfg, m, slots.Length, geometry, ownship, msg, victim);
      }
    }

    // Locate or create the target of an unfiltered message.
    method Place(msg: Msg) returns (result: Outcome, producedFix: bool, ghost victim: nat)
      requires Core() && totalNew == liveCount + totalExpired + evicted + cleared
      modifies slots, this`liveCount, this`totalUpdated, this`totalNew, this`evicted
      ensures Core() && totalNew == liveCount + totalExpired + evicted + cleared
      ensures result == OutcomeOf(old(Contents()), slots.Length, msg)
      ensures Contents() == Ingested(old(Contents()), slots.Length, geometry, ownship, msg, victim)
      ensures producedFix == GivesFix(old(Contents()), msg)
      ensures result == FullEvicted ==> Oldest(old(Contents()), victim)
      ensures evicted == old(evicted) + (if result == FullEvicted then 1 else 0)
      ensures totalNew + totalUpdated == old(totalNew) + old(totalUpdated) + 1
      ensures old(Key(msg.icao) in Contents()) ==> totalNew == old(totalNew)
      ensures old(Key(msg.icao) !in Contents()) ==> totalUpdated == old(totalUpdated)
    {
      hide Merged, Count, AllLocated, Live, Key, Distinct, Oldest;
      victim := 0;
      var icao := Key(msg.icao);
      ghost var before := slots[..];
      var slot := FindSlot(icao);
      LiveSize(before);
      if slot >= 0 {
        LiveHas(before, slot);
        producedFix := UpdateAt(slot, msg);
        result := if producedFix then PositionFix else Updated;
        totalUpdated := totalUpdated + 1;
        return;
      }
      AbsentNotLive(before, icao);
      var wasFull;
      slot, wasFull, victim := TakeSlot();
      if wasFull {
        evicted := evicted + 1;
      }
      producedFix := InsertAt(slot, msg);
      totalNew := totalNew + 1;
      result := if wasFull then FullEvicted else if producedFix then PositionFix else New;
    }

    // Install a reference, or none, and recompute every target's geometry.
    method SetOwnship(ref: Option<Ref>)
      requires Valid()
      modifies this`ownship, slots
      ensures Valid()
      ensures ownship == if ref.Some? && ref.value.valid then ref.value
                         else Ref(false, Finite(0.0), Finite(0.0), NoSource)
      ensures RelocatedTo(old(Contents()), Contents(), geometry, ownship)
    {
      hide Live, Count, Located, Distinct, Screened, RelocatedTo;
      ghost var before := slots[..];
      ownship := if ref.Some? && ref.value.valid then ref.value
                 else Ref(false, Finite(0.0), Finite(0.0), NoSource);
      ghost var own := ownship;
      for i := 0 to slots.Length
        invariant ownship == own
        invariant forall j :: 0 <= j < i ==> slots[j] == RelocatedSlot(geometry, ownship, before[j])
        invariant forall j :: i <= j < slots.Length ==> slots[j] == before[j]
      {
        if slots[i].occupied {
          slots[i] := Slot(true, Located(geometry, ownship, slots[i].target));
        }
      }
      LiveRelocated(before, slots[..], geometry, ownship);
      SameOccupancy(before, slots[..]);
      AllRelocated(before, slots[..], geometry, ownship);
      RelocatedIs(geometry, ownship, Live(before));
      RelocatedScreened(cfg, geometry, ownship, Live(before));
    }

    // Drop the targets unheard for expiryMs and the positions older than positionStaleMs.
    method Age(nowUs: int) returns (expired: nat)
      requires Valid()
      modifies this`liveCount, this`totalExpired, this`currentLiveCount, this`peakLiveCount, slots
      ensures Valid()
      ensures AgedTo(old(Contents()), Contents(), nowUs, cfg.expiryMs * 1000, cfg.positionStaleMs * 1000)
      ensures forall k :: k in Contents() ==>
                Current(Contents()[k], nowUs, cfg.expiryMs * US_PER_MS, cfg.positionStaleMs * US_PER_MS)
      ensures expired == |old(Contents())| - |Contents()| && totalExpired == old(totalExpired) + expired
      ensures peakLiveCount == old(peakLiveCount)
    {
      hide Live, Count, AllLocated, Demoted, Distinct, Current, Aged, Screened, AgedTo;
      ghost var before := slots[..];
      var expiryUs, staleUs := cfg.expiryMs * US_PER_MS, cfg.positionStaleMs * US_PER_MS;
      expired := 0;
      for i := 0 to slots.Length
        invariant forall j :: 0 <= j < i ==> slots[j] == AgedSlot(before[j], nowUs, expiryUs, staleUs)
        invariant forall j :: i <= j < slots.Length ==> slots[j] == before[j]
        invariant liveCount == Count(slots[..]) && liveCount + expired == old(liveCount)
        invariant totalExpired == old(totalExpired) + expired
        invariant peakLiveCount == old(peakLiveCount)
      {
        ghost var now := slots[..];
        CountUpdate(now, i, AgedSlot(before[i], nowUs, expiryUs, staleUs));
        if !slots[i].occupied {
          assert now[i := now[i]] == now;
          continue;
        }
        if nowUs - slots[i].target.lastSeenUs >= expiryUs {
          OccupiedCounts(now, i);
          slots[i] := slots[i].(occupied := false);
          liveCount := liveCount - 1;
          totalExpired := totalExpired + 1;
          expired := expired + 1;
        } else {
          DemoteAt(i, nowUs, staleUs);
        }
        assert slots[..] == now[i := slots[i]];
      }
      LiveAged(before, slots[..], nowUs, expiryUs, staleUs);
      AgedCurrent(Live(before), nowUs, expiryUs, staleUs);
      AgedIs(Live(before), nowUs, expiryUs, staleUs);
      AgedScreened(cfg, Live(before), nowUs, expiryUs, staleUs);
      LiveSize(before);
      LiveSize(slots[..]);
      AllAged(before, slots[..], geometry, ownship, nowUs, expiryUs, staleUs);
      TrackPeak();
    }

    method DemoteAt(i: nat, nowUs: int, staleUs: int)
      requires i < slots.Length && slots[i].occupied
      modifies slots
      ensures slots[..] == old(slots[..])[i := Slot(true, Demoted(old(slots[i].target), nowUs, staleUs))]
    {
      var t := slots[i].target;
      if t.positionValid {
        if nowUs - t.positionUs >= staleUs {
          t := t.(positionValid := false);
          t := Located(geometry, ownship, t);
        }
      }
      slots[i] := Slot(true, t);
    }

    method Clear()
      requires Valid()
      modifies this`liveCount, this`currentLiveCount, this`cleared, slots
      ensures Valid() && Contents() == map[] && currentLiveCount == 0
      ensures cleared == old(cleared) + |old(Contents())|
    {
      hide Live, Count;
      LiveSize(slots[..]);
      for i := 0 to slots.Length
        invariant liveCount == old(liveCount) && cleared == old(cleared)
        invariant forall j :: 0 <= j < i ==> !slots[j].occupied
      {
        slots[i] := slots[i].(occupied := false);
      }
      NothingLive(slots[..]);
      cleared := cleared + liveCount;
      liveCount := 0;
      currentLiveCount := 0;
    }

    // The record of an address; the top byte of the key is ignored.
    method Get(icao: nat) returns (found: Option<Target>)
      requires Valid()
      ensures var k := icao % 0x100_0000;
        found == if k in Contents() then Some(Contents()[k]) else None
    {
      hide Live;
      var slot := FindSlot(Key(icao));
      if slot < 0 {
        AbsentNotLive(slots[..], Key(icao));
        return None;
      }
      LiveHas(slots[..], slot);
      return Some(slots[slot].target);
    }

    // Copy live targets in slot order into out, up to its capacity.
    method Snapshot(out: array<Target>, capacity: nat) returns (copied: nat)
      requires Valid() && capacity <= out.Length && out as object != slots as object
      modifies out
      ensures copied == if |Contents()| <= capacity then |Contents()| else capacity
      ensures copied <= |Listed(slots[..])|
      ensures out[..copied] == Listed(slots[..])[..copied] && out[copied..] == old(out[copied..])
    {
      hide Live, Count;
      copied := 0;
      LiveSize(slots[..]);
      ListedCount(slots[..]);
      var i := 0;
      while i < slots.Length && copied < capacity
        invariant i <= slots.Length && copied <= capacity && copied == |Listed(slots[..i])|
        invariant out[..copied] == Listed(slots[..i]) && out[copied..] == old(out[copied..])
      {
        ListedNext(slots[..], i);
        if slots[i].occupied {
          out[copied] := slots[i].target;
          copied := copied + 1;
        }
        i := i + 1;
      }
      ListedPrefix(slots[..], i);
      assert slots[..slots.Length] == slots[..];
    }
  }

  // Relative geometry is present exactly when ownship and the position are both valid, and then
  // it is the geometry of the two.
  predicate AllLocated(g: Geometry, own: Ref, slots: seq<Slot>) {
    forall i :: 0 <= i < |slots| && slots[i].occupied ==> slots[i].target.relative == RelativeOf(g, own, slots[i].target)
  }

  predicate Absent(slots: seq<Slot>, icao: nat) {
    forall i :: 0 <= i < |slots| && slots[i].occupied ==> slots[i].target.icao != icao
  }

  lemma {:induction false} NothingLive(slots: seq<Slot>)
    requires forall i :: 0 <= i < |slots| ==> !slots[i].occupied
    ensures Live(slots) == map[] && Count(slots) == 0
  {
    if |slots| != 0 {
      NothingLive(slots[..|slots| - 1]);
    }
  }

  lemma MergedIcao(g: Geometry, own: Ref, t: Target, msg: Msg)
    ensures Merged(g, own, t, msg).icao == t.icao
    ensures Merged(g, own, t, msg).relative == RelativeOf(g, own, Merged(g, own, t, msg))
  {
  }

  lemma KeptElsewhere(slots: seq<Slot>, k: nat)
    requires k < |slots| && slots[k].occupied && Distinct(slots)
    ensures NowhereElse(slots, k, slots[k].target.icao)
  {
  }

  lemma Readd(m: map<nat, Target>, k: nat, t: Target)
    ensures (m - {k})[k := t] == m[k := t]
  {
  }

  lemma {:induction false} OccupiedCounts(slots: seq<Slot>, k: nat)
    requires k < |slots| && slots[k].occupied
    ensures Count(slots) >= 1
  {
    if k < |slots| - 1 {
      OccupiedCounts(slots[..|slots| - 1], k);
    }
  }

  lemma AbsentNotLive(slots: seq<Slot>, icao: nat)
    requires Absent(slots, icao)
    ensures icao !in Live(slots)
  {
  }

  lemma OldestSlot(slots: seq<Slot>, k: nat)
    requires k < |slots| && slots[k].occupied && Distinct(slots)
    requires forall i :: 0 <= i < |slots| && slots[i].occupied ==>
               slots[k].target.lastSeenUs <= slots[i].target.lastSeenUs
    ensures Oldest(Live(slots), slots[k].target.icao)
  {
    hide Live, Distinct;
    LiveHas(slots, k);
    forall j | j in Live(slots)
      ensures Live(slots)[slots[k].target.icao].lastSeenUs <= Live(slots)[j].lastSeenUs
    {
      var i := LiveSlot(slots, j);
      LiveHas(slots, i);
    }
  }

  lemma {:induction false} FreeSlot(slots: seq<Slot>, k: nat)
    requires k < |slots| && !slots[k].occupied
    ensures Count(slots) < |slots|
  {
    if k < |slots| - 1 {
      FreeSlot(slots[..|slots| - 1], k);
    }
  }

  lemma NothingVacated(m: map<nat, Target>)
    ensures m - {} == m
  {
  }

  lemma SameOccupancy(a: seq<Slot>, b: seq<Slot>)
    requires |a| == |b| && forall i :: 0 <= i < |a| ==> a[i].occupied == b[i].occupied
    ensures Count(a) == Count(b)
  {
  }

  lemma AllRelocated(before: seq<Slot>, after: seq<Slot>, g: Geometry, own: Ref)
    requires |after| == |before|
    requires forall i :: 0 <= i < |before| ==> after[i] == RelocatedSlot(g, own, before[i])
    ensures AllLocated(g, own, after)
  {
  }

  lemma AllAged(before: seq<Slot>, after: seq<Slot>, g: Geometry, own: Ref, nowUs: int, expiryUs: int, staleUs: int)
    requires |after| == |before| && AllLocated(g, own, before)
    requires forall i :: 0 <= i < |before| ==> after[i] == AgedSlot(before[i], nowUs, expiryUs, staleUs)
    ensures AllLocated(g, own, after)
  {
  }

  // The live targets in slot order.
  function Listed(slots: seq<Slot>): seq<Target> {
    if |slots| == 0 then []
    else
      var last := slots[|slots| - 1];
      Listed(slots[..|slots| - 1]) + (if last.occupied then [last.target] else [])
  }

  lemma ListedNext(slots: seq<Slot>, i: nat)
    requires i < |slots|
    ensures Listed(slots[..i + 1]) == Listed(slots[..i]) + (if slots[i].occupied then [slots[i].target] else [])
  {
    assert slots[..i + 1][..i] == slots[..i];
  }

  lemma {:induction false} ListedCount(slots: seq<Slot>)
    ensures |Listed(slots)| == Count(slots)
  {
    if |slots| != 0 {
      ListedCount(slots[..|slots| - 1]);
    }
  }

  lemma {:induction false} ListedPrefix(slots: seq<Slot>, i: nat)
    requires i <= |slots|
    ensures Listed(slots[..i]) <= Listed(slots)
    decreases |slots| - i
  {
    if i == |slots| {
      assert slots[..i] == slots;
    } else {
      ListedPrefix(slots, i + 1);
      ListedNext(slots, i);
    }
  }

  // What a snapshot lists: every live target once, as the map holds it.
  lemma {:induction false} ListedIsLive(slots: seq<Slot>, j: nat)
    requires Distinct(slots) && j < |Listed(slots)|
    ensures Listed(slots)[j].icao in Live(slots) && Live(slots)[Listed(slots)[j].icao] == Listed(slots)[j]
  {
    var n := |slots| - 1;
    if j < |Listed(slots[..n])| {
      ListedIsLive(slots[..n], j);
      var i := LiveSlot(slots[..n], Listed(slots)[j].icao);
    }
  }

  lemma {:induction false} ListedOnce(slots: seq<Slot>, i: nat, j: nat)
    requires Distinct(slots) && i < j < |Listed(slots)|
    ensures Listed(slots)[i].icao != Listed(slots)[j].icao
  {
    var n := |slots| - 1;
    if j < |Listed(slots[..n])| {
      ListedOnce(slots[..n], i, j);
    } else {
      ListedIsLive(slots[..n], i);
      var k := LiveSlot(slots[..n], Listed(slots)[i].icao);
    }
  }
}
