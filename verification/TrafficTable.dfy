// The traffic table as a value (components/traffic/traffic.c): its records, what a message does
// to one, and the slots read as a map from ICAO address to target.
module TrafficTable {
  import opened Geo
  import opened Wrappers

  const MSG_COUNT_MAX := 65535
  const ICAO_MASK := 0x100_0000

  datatype Altitude = Altitude(feet: int, geometric: bool)
  datatype Velocity = Velocity(groundSpeedKt: int, trackDeg: int)
  datatype Position = Position(lat: Float, lon: Float, onGround: bool)

  // A decoded message: a field group it does not carry is None.
  datatype Msg = Msg(
    icao: nat, rxTimeUs: int, signalLevel: int, callsign: Option<string>, category: Option<int>,
    position: Option<Position>, altitude: Option<Altitude>, velocity: Option<Velocity>,
    verticalRate: Option<int>)

  datatype Target = Target(
    icao: nat, firstSeenUs: int, lastSeenUs: int, msgCount: nat, signalLevel: int,
    callsign: Option<string>, category: Option<int>,
    position: Position, positionUs: int, positionValid: bool,
    altitude: Option<Altitude>, velocity: Option<Velocity>, verticalRate: Option<int>,
    relative: Option<Relative>)

  // Range and bearing from ownship; None is has_relative == false.
  datatype Relative = Relative(rangeNm: Float, bearingDeg: Float)

  // The great-circle formulas are parameters.
  datatype Geometry = Geometry(range: (Ref, Position) -> Float, bearing: (Ref, Position) -> Float)

  datatype Slot = Slot(occupied: bool, target: Target)

  function Key(icao: nat): nat {
    icao % ICAO_MASK
  }

  // ---- one record

  function RelativeOf(g: Geometry, own: Ref, t: Target): Option<Relative> {
    if own.valid && t.positionValid then Some(Relative(g.range(own, t.position), g.bearing(own, t.position)))
    else None
  }

  function Located(g: Geometry, own: Ref, t: Target): Target {
    t.(relative := RelativeOf(g, own, t))
  }

  function Or<T>(newer: Option<T>, known: Option<T>): Option<T> {
    if newer.Some? then newer else known
  }

  function Merged(g: Geometry, own: Ref, t: Target, msg: Msg): Target {
    Located(g, own, t.(
      lastSeenUs := msg.rxTimeUs,
      msgCount := if t.msgCount < MSG_COUNT_MAX then t.msgCount + 1 else t.msgCount,
      signalLevel := if msg.signalLevel >= 0 then msg.signalLevel else t.signalLevel,
      callsign := Or(msg.callsign, t.callsign),
      category := Or(msg.category, t.category),
      position := if msg.position.Some? then msg.position.value else t.position,
      positionUs := if msg.position.Some? then msg.rxTimeUs else t.positionUs,
      positionValid := msg.position.Some? || t.positionValid,
      altitude := Or(msg.altitude, t.altitude),
      velocity := Or(msg.velocity, t.velocity),
      verticalRate := Or(msg.verticalRate, t.verticalRate)))
  }

  const ZERO_POSITION := Position(Finite(0.0), Finite(0.0), false)

  function Blank(icao: nat, msg: Msg): Target {
    Target(icao, msg.rxTimeUs, 0, 0, -1, None, None, ZERO_POSITION, 0, false, None, None, None, None)
  }

  // ---- ageing one record

  predicate Expired(t: Target, nowUs: int, expiryUs: int) {
    nowUs - t.lastSeenUs >= expiryUs
  }

  predicate Stale(t: Target, nowUs: int, staleUs: int) {
    t.positionValid && nowUs - t.positionUs >= staleUs
  }

  function Demoted(t: Target, nowUs: int, staleUs: int): Target {
    if Stale(t, nowUs, staleUs) then t.(positionValid := false, relative := None) else t
  }

  function AgedSlot(s: Slot, nowUs: int, expiryUs: int, staleUs: int): Slot {
    if !s.occupied then s
    else if Expired(s.target, nowUs, expiryUs) then s.(occupied := false)
    else s.(target := Demoted(s.target, nowUs, staleUs))
  }

  // ---- the slots as a map

  predicate Distinct(slots: seq<Slot>) {
    forall i, j :: 0 <= i < j < |slots| && slots[i].occupied && slots[j].occupied ==>
      slots[i].target.icao != slots[j].target.icao
  }

  function Live(slots: seq<Slot>): map<nat, Target> {
    if |slots| == 0 then map[]
    else
      var m, last := Live(slots[..|slots| - 1]), slots[|slots| - 1];
      if last.occupied then m[last.target.icao := last.target] else m
  }

  // Both ways: an occupied slot is the map's entry for its address, and every entry is a slot.
  lemma {:induction false} LiveHas(slots: seq<Slot>, i: nat)
    requires i < |slots| && slots[i].occupied && Distinct(slots)
    ensures slots[i].target.icao in Live(slots) && Live(slots)[slots[i].target.icao] == slots[i].target
  {
    if i < |slots| - 1 {
      LiveHas(slots[..|slots| - 1], i);
    }
  }

  lemma {:induction false} LiveSlot(slots: seq<Slot>, k: nat) returns (i: nat)
    requires k in Live(slots)
    ensures i < |slots| && slots[i].occupied && slots[i].target.icao == k
  {
    var n := |slots| - 1;
    if slots[n].occupied && slots[n].target.icao == k {
      i := n;
    } else {
      i := LiveSlot(slots[..n], k);
    }
  }

  function Count(slots: seq<Slot>): (n: nat)
    ensures n <= |slots|
  {
    if |slots| == 0 then 0
    else Count(slots[..|slots| - 1]) + (if slots[|slots| - 1].occupied then 1 else 0)
  }

  function One(s: Slot): nat {
    if s.occupied then 1 else 0
  }

  lemma {:induction false} CountUpdate(slots: seq<Slot>, i: nat, s: Slot)
    requires i < |slots|
    ensures Count(slots[i := s]) == Count(slots) - One(slots[i]) + One(s)
    decreases |slots|
  {
    var n := |slots| - 1;
    if i < n {
      CountUpdate(slots[..n], i, s);
      assert slots[i := s][..n] == slots[..n][i := s];
    } else {
      assert slots[i := s][..n] == slots[..n];
    }
  }

  lemma {:induction false} CountFull(slots: seq<Slot>)
    requires forall i :: 0 <= i < |slots| ==> slots[i].occupied
    ensures Count(slots) == |slots|
  {
    if |slots| != 0 {
      CountFull(slots[..|slots| - 1]);
    }
  }

  // The map has one entry per occupied slot.
  lemma {:induction false} LiveSize(slots: seq<Slot>)
    requires Distinct(slots)
    ensures |Live(slots)| == Count(slots)
  {
    if |slots| != 0 {
      var most, last := slots[..|slots| - 1], slots[|slots| - 1];
      LiveSize(most);
      if last.occupied && last.target.icao in Live(most) {
        var i := LiveSlot(most, last.target.icao);
      }
    }
  }

  // Writing one slot: its old target goes, its new one is added.
  function Vacated(slots: seq<Slot>, i: nat): set<nat>
    requires i < |slots|
  {
    if slots[i].occupied then {slots[i].target.icao} else {}
  }

  predicate NowhereElse(slots: seq<Slot>, i: nat, icao: nat) {
    forall j :: 0 <= j < |slots| && j != i && slots[j].occupied ==> slots[j].target.icao != icao
  }

  lemma DistinctUpdate(slots: seq<Slot>, i: nat, t: Target)
    requires i < |slots| && Distinct(slots) && NowhereElse(slots, i, t.icao)
    ensures Distinct(slots[i := Slot(true, t)])
  {
  }

  lemma LiveUpdate(slots: seq<Slot>, i: nat, t: Target)
    requires i < |slots| && Distinct(slots) && NowhereElse(slots, i, t.icao)
    ensures Live(slots[i := Slot(true, t)]) == (Live(slots) - Vacated(slots, i))[t.icao := t]
  {
    hide Live;
    var after, m := slots[i := Slot(true, t)], (Live(slots) - Vacated(slots, i))[t.icao := t];
    DistinctUpdate(slots, i, t);
    forall k | k in Live(after)
      ensures k in m && m[k] == Live(after)[k]
    {
      var j := LiveSlot(after, k);
      LiveHas(after, j);
      if j != i {
        LiveHas(slots, j);
      }
    }
    forall k | k in m
      ensures k in Live(after)
    {
      if k == t.icao {
        LiveHas(after, i);
      } else {
        var j := LiveSlot(slots, k);
        LiveHas(slots, j);
        LiveHas(after, j);
      }
    }
  }

  // Rewriting every slot keeps the addresses of those it keeps.
  predicate Rewritten(before: seq<Slot>, after: seq<Slot>) {
    && |after| == |before|
    && forall i :: 0 <= i < |before| && after[i].occupied ==>
         before[i].occupied && after[i].target.icao == before[i].target.icao
  }

  lemma DistinctRewritten(before: seq<Slot>, after: seq<Slot>)
    requires Distinct(before) && Rewritten(before, after)
    ensures Distinct(after)
  {
  }

  // Ageing: exactly the expired targets go, the rest lose a stale position.
  function Aged(m: map<nat, Target>, nowUs: int, expiryUs: int, staleUs: int): map<nat, Target> {
    map k | k in m && !Expired(m[k], nowUs, expiryUs) :: Demoted(m[k], nowUs, staleUs)
  }

  // Heard within the expiry time, and not holding a stale position.
  predicate Current(t: Target, nowUs: int, expiryUs: int, staleUs: int) {
    nowUs - t.lastSeenUs < expiryUs && (t.positionValid ==> nowUs - t.positionUs < staleUs)
  }

  // A target that stays keeps everything but a position that has grown stale.
  predicate Survives(before: Target, after: Target, nowUs: int, staleUs: int) {
    if before.positionValid && nowUs - before.positionUs >= staleUs then
      after == before.(positionValid := false, relative := None)
    else after == before
  }

  // Exactly the targets unheard for the expiry time go.
  ghost predicate AgedTo(before: map<nat, Target>, after: map<nat, Target>, nowUs: int, expiryUs: int, staleUs: int) {
    && (forall k :: k in after <==> k in before && nowUs - before[k].lastSeenUs < expiryUs)
    && (forall k :: k in after ==> Survives(before[k], after[k], nowUs, staleUs))
  }

  lemma AgedIs(m: map<nat, Target>, nowUs: int, expiryUs: int, staleUs: int)
    ensures AgedTo(m, Aged(m, nowUs, expiryUs, staleUs), nowUs, expiryUs, staleUs)
  {
  }

  lemma AgedCurrent(m: map<nat, Target>, nowUs: int, expiryUs: int, staleUs: int)
    ensures forall k :: k in Aged(m, nowUs, expiryUs, staleUs) ==>
              Current(Aged(m, nowUs, expiryUs, staleUs)[k], nowUs, expiryUs, staleUs)
  {
  }

  lemma LiveAged(before: seq<Slot>, after: seq<Slot>, nowUs: int, expiryUs: int, staleUs: int)
    requires Distinct(before) && |after| == |before|
    requires forall i :: 0 <= i < |before| ==> after[i] == AgedSlot(before[i], nowUs, expiryUs, staleUs)
    ensures Distinct(after) && Live(after) == Aged(Live(before), nowUs, expiryUs, staleUs)
  {
    hide Live, Distinct;
    var aged := Aged(Live(before), nowUs, expiryUs, staleUs);
    assert Rewritten(before, after);
    DistinctRewritten(before, after);
    forall k | k in Live(after)
      ensures k in aged && aged[k] == Live(after)[k]
    {
      var j := LiveSlot(after, k);
      LiveHas(after, j);
      LiveHas(before, j);
    }
    forall k | k in aged
      ensures k in Live(after)
    {
      var j := LiveSlot(before, k);
      LiveHas(before, j);
      LiveHas(after, j);
    }
  }

  function Relocated(g: Geometry, own: Ref, m: map<nat, Target>): map<nat, Target> {
    map k | k in m :: Located(g, own, m[k])
  }

  function RelocatedSlot(g: Geometry, own: Ref, s: Slot): Slot {
    if s.occupied then s.(target := Located(g, own, s.target)) else s
  }

  // Every target keeps all but its geometry, which is there exactly when both ends are valid and
  // is then that of the two.
  ghost predicate RelocatedTo(before: map<nat, Target>, after: map<nat, Target>, g: Geometry, own: Ref) {
    && after.Keys == before.Keys
    && (forall k :: k in after ==> after[k].(relative := before[k].relative) == before[k] && Geometric(g, own, after[k]))
  }

  predicate Geometric(g: Geometry, own: Ref, t: Target) {
    && (t.relative.Some? <==> own.valid && t.positionValid)
    && (t.relative.Some? ==> t.relative.value.rangeNm == g.range(own, t.position)
                             && t.relative.value.bearingDeg == g.bearing(own, t.position))
  }

  lemma RelocatedIs(g: Geometry, own: Ref, m: map<nat, Target>)
    ensures RelocatedTo(m, Relocated(g, own, m), g, own)
  {
  }

  lemma LiveRelocated(before: seq<Slot>, after: seq<Slot>, g: Geometry, own: Ref)
    requires Distinct(before) && |after| == |before|
    requires forall i :: 0 <= i < |before| ==> after[i] == RelocatedSlot(g, own, before[i])
    ensures Distinct(after) && Live(after) == Relocated(g, own, Live(before))
  {
    hide Live, Distinct;
    var m := Relocated(g, own, Live(before));
    assert Rewritten(before, after);
    DistinctRewritten(before, after);
    forall k | k in Live(after)
      ensures k in m && m[k] == Live(after)[k]
    {
      var j := LiveSlot(after, k);
      LiveHas(after, j);
      LiveHas(before, j);
    }
    forall k | k in m
      ensures k in Live(after)
    {
      var j := LiveSlot(before, k);
      LiveHas(before, j);
      LiveHas(after, j);
    }
  }

  // ---- ingest, on the map

  datatype Config = Config(
    maxTargets: nat, expiryMs: nat, positionStaleMs: nat,
    rangeFilter: bool, maxRangeNm: real, altitudeFilter: bool, maxAltitudeFt: int, sanityFilter: bool)

  datatype Outcome =
    | New | Updated | PositionFix | FilteredRange | FilteredAltitude | FilteredSanity | FullEvicted

  predicate Sane(p: Position) {
    InBounds(p.lat, p.lon) && !(p.lat.num == 0.0 && p.lon.num == 0.0)
  }

  predicate Exceeds(range: Float, limit: real) {
    range.Finite? && range.num > limit
  }

  // The first filter that drops the message, if any.
  function Verdict(cfg: Config, g: Geometry, own: Ref, msg: Msg): Option<Outcome> {
    if cfg.sanityFilter && msg.position.Some? && !Sane(msg.position.value) then Some(FilteredSanity)
    else if cfg.altitudeFilter && msg.altitude.Some? && msg.altitude.value.feet > cfg.maxAltitudeFt then
      Some(FilteredAltitude)
    else if cfg.rangeFilter && own.valid && msg.position.Some?
            && Exceeds(g.range(own, msg.position.value), cfg.maxRangeNm) then
      Some(FilteredRange)
    else None
  }

  // A position on the globe that is not the origin of an uninitialised decode.
  predicate Plausible(p: Position) {
    && p.lat.Finite? && p.lon.Finite?
    && -90.0 <= p.lat.num <= 90.0 && -180.0 <= p.lon.num <= 180.0
    && (p.lat.num != 0.0 || p.lon.num != 0.0)
  }

  // Which filters stop a message, said of each alone.
  predicate Implausible(cfg: Config, msg: Msg) {
    cfg.sanityFilter && msg.position.Some? && !Plausible(msg.position.value)
  }

  predicate TooHigh(cfg: Config, msg: Msg) {
    cfg.altitudeFilter && msg.altitude.Some? && msg.altitude.value.feet > cfg.maxAltitudeFt
  }

  predicate TooFar(cfg: Config, g: Geometry, own: Ref, msg: Msg) {
    && cfg.rangeFilter && own.valid && msg.position.Some?
    && g.range(own, msg.position.value).Finite? && g.range(own, msg.position.value).num > cfg.maxRangeNm
  }

  // A message is dropped exactly when a filter stops it, by the first that does: sanity, altitude,
  // range.
  lemma Dropped(cfg: Config, g: Geometry, own: Ref, msg: Msg)
    ensures
      var v := Verdict(cfg, g, own, msg);
      && (v.None? <==> !Implausible(cfg, msg) && !TooHigh(cfg, msg) && !TooFar(cfg, g, own, msg))
      && (v == Some(FilteredSanity) <==> Implausible(cfg, msg))
      && (v == Some(FilteredAltitude) <==> !Implausible(cfg, msg) && TooHigh(cfg, msg))
      && (v == Some(FilteredRange) <==> !Implausible(cfg, msg) && !TooHigh(cfg, msg) && TooFar(cfg, g, own, msg))
  {
  }

  // What the filters leave in the table.
  ghost predicate Screened(cfg: Config, m: map<nat, Target>) {
    && (cfg.sanityFilter ==> forall k :: k in m && m[k].positionValid ==> Plausible(m[k].position))
    && (cfg.altitudeFilter ==> forall k :: k in m && m[k].altitude.Some? ==> m[k].altitude.value.feet <= cfg.maxAltitudeFt)
  }

  lemma IngestedScreened(cfg: Config, m: map<nat, Target>, capacity: nat, g: Geometry, own: Ref, msg: Msg, victim: nat)
    requires Screened(cfg, m) && Verdict(cfg, g, own, msg).None?
    ensures Screened(cfg, Ingested(m, capacity, g, own, msg, victim))
  {
    hide Key, RelativeOf;
    Dropped(cfg, g, own, msg);
  }

  lemma AgedScreened(cfg: Config, m: map<nat, Target>, nowUs: int, expiryUs: int, staleUs: int)
    requires Screened(cfg, m)
    ensures Screened(cfg, Aged(m, nowUs, expiryUs, staleUs))
  {
  }

  lemma RelocatedScreened(cfg: Config, g: Geometry, own: Ref, m: map<nat, Target>)
    requires Screened(cfg, m)
    ensures Screened(cfg, Relocated(g, own, m))
  {
  }

  // The least recently heard target.
  predicate Oldest(m: map<nat, Target>, k: nat) {
    k in m && forall j :: j in m ==> m[k].lastSeenUs <= m[j].lastSeenUs
  }

  // What ingesting an unfiltered message does to the table; victim is the evicted address.
  function Ingested(m: map<nat, Target>, capacity: nat, g: Geometry, own: Ref, msg: Msg, victim: nat): map<nat, Target> {
    var k := Key(msg.icao);
    if k in m then m[k := Merged(g, own, m[k], msg)]
    else
      var room := if |m| < capacity then m else m - {victim};
      room[k := Merged(g, own, Blank(k, msg), msg)]
  }

  // The message gives its target a valid position it did not have.
  predicate GivesFix(m: map<nat, Target>, msg: Msg) {
    msg.position.Some? && (Key(msg.icao) in m ==> !m[Key(msg.icao)].positionValid)
  }

  function OutcomeOf(m: map<nat, Target>, capacity: nat, msg: Msg): Outcome {
    var k := Key(msg.icao);
    if k !in m && |m| >= capacity then FullEvicted
    else if GivesFix(m, msg) then PositionFix
    else if k in m then Updated
    else New
  }

  // What an unfiltered message does: its own target is merged into, or made from the blank one; in
  // a full table the victim goes; nothing else changes.
  ghost predicate Folded(before: map<nat, Target>, after: map<nat, Target>, capacity: nat, g: Geometry, own: Ref, msg: Msg,
                   victim: nat)
  {
    var k := msg.icao % 0x100_0000;
    && after.Keys == before.Keys + {k} - (if k !in before && |before| >= capacity then {victim} - {k} else {})
    && after[k] == Merged(g, own, if k in before then before[k] else Blank(k, msg), msg)
    && forall j :: j in after && j != k ==> j in before && after[j] == before[j]
  }

  lemma IngestedFolds(m: map<nat, Target>, capacity: nat, g: Geometry, own: Ref, msg: Msg, victim: nat)
    ensures Folded(m, Ingested(m, capacity, g, own, msg, victim), capacity, g, own, msg, victim)
  {
    hide Merged, Blank;
  }

  // The result of an unfiltered message, from the table before and after it. A fix is given
  // exactly when the target holds a valid position after the message and did not before.
  ghost predicate Results(before: map<nat, Target>, after: map<nat, Target>, capacity: nat, msg: Msg, result: Outcome,
                          fixGiven: bool)
  {
    var k := msg.icao % 0x100_0000;
    && k in after && (fixGiven <==> after[k].positionValid && !(k in before && before[k].positionValid))
    && (result == FullEvicted <==> k !in before && |before| >= capacity)
    && (result == PositionFix <==> fixGiven && (k in before || |before| < capacity))
    && (result == Updated <==> k in before && !fixGiven)
    && (result == New <==> k !in before && |before| < capacity && !fixGiven)
  }

  lemma ResultIs(m: map<nat, Target>, capacity: nat, g: Geometry, own: Ref, msg: Msg, victim: nat)
    ensures Results(m, Ingested(m, capacity, g, own, msg, victim), capacity, msg, OutcomeOf(m, capacity, msg), GivesFix(m, msg))
  {
    hide RelativeOf;
  }

  // ---- the record a run of messages builds

  function MergedAll(g: Geometry, own: Ref, t: Target, msgs: seq<Msg>): Target {
    if |msgs| == 0 then t
    else Merged(g, own, MergedAll(g, own, t, msgs[..|msgs| - 1]), msgs[|msgs| - 1])
  }

  // The last message that carries a group decides it.
  function Latest<T>(msgs: seq<Msg>, group: Msg -> Option<T>): Option<T> {
    if |msgs| == 0 then None
    else if group(msgs[|msgs| - 1]).Some? then group(msgs[|msgs| - 1])
    else Latest(msgs[..|msgs| - 1], group)
  }

  function CallsignOf(m: Msg): Option<string> { m.callsign }

  function CategoryOf(m: Msg): Option<int> { m.category }

  function AltitudeOf(m: Msg): Option<Altitude> { m.altitude }

  function VelocityOf(m: Msg): Option<Velocity> { m.velocity }

  function VerticalRateOf(m: Msg): Option<int> { m.verticalRate }

  function PositionOf(m: Msg): Option<Position> { m.position }

  function PositionTimeOf(m: Msg): Option<int> { if m.position.Some? then Some(m.rxTimeUs) else None }

  function LevelOf(m: Msg): Option<int> { if m.signalLevel >= 0 then Some(m.signalLevel) else None }

  // A partial frame never erases what earlier frames taught: every field group is the one from
  // the last message that carried it, and the counter saturates instead of wrapping.
  lemma {:induction false} MergeKeepsLatest(g: Geometry, own: Ref, first: Msg, msgs: seq<Msg>)
    ensures
      var t := MergedAll(g, own, Blank(Key(first.icao), first), msgs);
      && t.callsign == Latest(msgs, CallsignOf)
      && t.category == Latest(msgs, CategoryOf)
      && t.altitude == Latest(msgs, AltitudeOf)
      && t.velocity == Latest(msgs, VelocityOf)
      && t.verticalRate == Latest(msgs, VerticalRateOf)
      && t.positionValid == Latest(msgs, PositionOf).Some?
      && (t.positionValid ==>
            t.position == Latest(msgs, PositionOf).value && Latest(msgs, PositionTimeOf) == Some(t.positionUs))
      && t.signalLevel == (if Latest(msgs, LevelOf).Some? then Latest(msgs, LevelOf).value else -1)
      && t.msgCount == (if |msgs| <= 65535 then |msgs| else 65535)
      && t.icao == Key(first.icao) && t.firstSeenUs == first.rxTimeUs
      && (|msgs| > 0 ==> t.lastSeenUs == msgs[|msgs| - 1].rxTimeUs && t.relative == RelativeOf(g, own, t))
  {
    if |msgs| != 0 {
      MergeKeepsLatest(g, own, first, msgs[..|msgs| - 1]);
    }
  }
}
