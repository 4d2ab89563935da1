/**
 * The radar proximity engine of `onLocationChanged`: which stored radar is
 * the nearest one within 300 m, which radars are announced (at most once every
 * 30 seconds each), when the continuous beep runs (from entering the zone of
 * the nearest radar until 100 m past its closest point) and how fast it beeps.
 */
module Radar {
  import opened Wrappers

  /** Radars farther than this (m) are ignored. */
  const ZoneRadius: real := 300.0
  /** A radar is announced again only after this many milliseconds. */
  const CooldownMs: int := 30000
  /** The beep stops once the driver is this far (m) beyond the closest point reached. */
  const PassMargin: real := 100.0

  /** A stored radar with its distance from the current fix, in metres. */
  datatype RadarReading = RadarReading(id: int, distance: real, speedLimit: int)

  predicate InZone(r: RadarReading) { r.distance < ZoneRadius }

  // ---------- The nearest radar ----------

  /**
   * The position of the nearest radar within the zone: the scan keeps a
   * radar only when it is strictly closer than the best so far, so the
   * earliest of equally near radars wins.
   */
  function NearestIndex(rs: seq<RadarReading>): (r: Option<nat>)
    ensures r.Some? <==> exists i | 0 <= i < |rs| :: InZone(rs[i])
    ensures r.Some? ==> r.value < |rs| && InZone(rs[r.value])
    ensures r.Some? ==> forall i | 0 <= i < |rs| && InZone(rs[i]) :: rs[r.value].distance <= rs[i].distance
    ensures r.Some? ==> forall i | 0 <= i < r.value && InZone(rs[i]) :: rs[r.value].distance < rs[i].distance
  {
    if rs == [] then None
    else
      var prior := rs[..|rs| - 1];
      var p := NearestIndex(prior);
      var last := rs[|rs| - 1];
      assert forall i | 0 <= i < |prior| :: prior[i] == rs[i];
      if InZone(last) && (p.None? || last.distance < rs[p.value].distance) then Some(|rs| - 1)
      else p
  }

  /** The scan over one more reading keeps that reading only when it is strictly nearer. */
  lemma NearestIndexStep(rs: seq<RadarReading>, i: nat)
    requires i < |rs|
    ensures var p := NearestIndex(rs[..i]);
      NearestIndex(rs[..i + 1])
      == if InZone(rs[i]) && (p.None? || rs[i].distance < rs[p.value].distance) then Some(i) else p
  {
    assert rs[..i + 1][..i] == rs[..i];
  }

  /** The nearest radar in the zone, the one that wins the ties to its left. */
  predicate IsNearest(rs: seq<RadarReading>, k: nat) {
    && k < |rs| && InZone(rs[k])
    && (forall i | 0 <= i < |rs| && InZone(rs[i]) :: rs[k].distance <= rs[i].distance)
    && (forall i | 0 <= i < k && InZone(rs[i]) :: rs[k].distance < rs[i].distance)
  }

  /** There is at most one such radar, and the scan finds it. */
  lemma NearestIsUnique(rs: seq<RadarReading>, k: nat)
    requires IsNearest(rs, k)
    ensures NearestIndex(rs) == Some(k)
  {
    assert InZone(rs[k]);
  }

  // ---------- Announcements and their cooldown ----------

  /** When a radar was last announced; never announced counts as time 0. */
  function LastTime(times: map<int, int>, id: int): int {
    if id in times then times[id] else 0
  }

  /** A radar in the zone is announced when more than 30 s have passed since its last announcement. */
  predicate CooledDown(times: map<int, int>, id: int, now: int) {
    now - LastTime(times, id) > CooldownMs
  }

  /** The announcement times after a scan, and the radars announced (ding, voice and toast), in order. */
  datatype Notification = Notification(times: map<int, int>, dings: seq<RadarReading>)

  predicate SeenInZone(rs: seq<RadarReading>, id: int) {
    exists i | 0 <= i < |rs| :: rs[i].id == id && InZone(rs[i])
  }

  function DingIds(dings: seq<RadarReading>): set<int> {
    set i | 0 <= i < |dings| :: dings[i].id
  }

  /**
   * What a scan promises about its announcements: a radar is announced
   * exactly when it is met in the zone with its cooldown passed, at most
   * once, and announcing stamps its time with `now`; nothing else in the
   * map changes.
   */
  ghost predicate Announces(times: map<int, int>, rs: seq<RadarReading>, now: int, r: Notification) {
    && (forall id :: id in DingIds(r.dings) <==> SeenInZone(rs, id) && CooledDown(times, id, now))
    && (forall i, j | 0 <= i < j < |r.dings| :: r.dings[i].id != r.dings[j].id)
    && (forall i | 0 <= i < |r.dings| :: InZone(r.dings[i]) && r.dings[i] in rs)
    && r.times.Keys == times.Keys + DingIds(r.dings)
    && (forall id | id in r.times :: r.times[id] == if id in DingIds(r.dings) then now else times[id])
  }

  /** One reading of the scan: announced if in the zone and cooled down against the times so far. */
  function Announce(before: Notification, radar: RadarReading, now: int): Notification {
    if InZone(radar) && CooledDown(before.times, radar.id, now) then
      Notification(before.times[radar.id := now], before.dings + [radar])
    else before
  }

  /**
   * The announcement part of the scan, reading by reading in order (a
   * second reading with the same id finds its time just set to `now`).
   */
  function Notify(times: map<int, int>, rs: seq<RadarReading>, now: int): (r: Notification)
    ensures forall id :: id in DingIds(r.dings) <==> SeenInZone(rs, id) && CooledDown(times, id, now)
    ensures forall i, j | 0 <= i < j < |r.dings| :: r.dings[i].id != r.dings[j].id
    ensures forall i | 0 <= i < |r.dings| :: InZone(r.dings[i]) && r.dings[i] in rs
    ensures r.times.Keys == times.Keys + DingIds(r.dings)
    ensures forall id | id in r.times :: r.times[id] == if id in DingIds(r.dings) then now else times[id]
  {
    if rs == [] then Notification(times, [])
    else
      var prior := rs[..|rs| - 1];
      var before := Notify(times, prior, now);
      AnnounceKeeps(times, prior, rs[|rs| - 1], now, before);
      assert prior + [rs[|rs| - 1]] == rs;
      Announce(before, rs[|rs| - 1], now)
  }

  /** The announcements over one more reading are those so far followed by that reading's. */
  lemma NotifyStep(times: map<int, int>, rs: seq<RadarReading>, i: nat, now: int)
    requires i < |rs|
    ensures Notify(times, rs[..i + 1], now) == Announce(Notify(times, rs[..i], now), rs[i], now)
  {
    assert rs[..i + 1][..i] == rs[..i];
  }

  /** Announcing one more reading keeps the promise, for the readings extended by it. */
  lemma AnnounceKeeps(times: map<int, int>, prior: seq<RadarReading>, radar: RadarReading, now: int, before: Notification)
    requires Announces(times, prior, now, before)
    ensures Announces(times, prior + [radar], now, Announce(before, radar, now))
  {
    var rs := prior + [radar];
    assert forall i | 0 <= i < |prior| :: prior[i] == rs[i];
    assert rs[|prior|] == radar;
    assert forall id :: SeenInZone(rs, id) <==> SeenInZone(prior, id) || (radar.id == id && InZone(radar));
    if InZone(radar) && CooledDown(before.times, radar.id, now) {
      DingIdsAppend(before.dings, radar);
    }
  }

  lemma DingIdsAppend(dings: seq<RadarReading>, radar: RadarReading)
    ensures DingIds(dings + [radar]) == DingIds(dings) + {radar.id}
  {
    var all := dings + [radar];
    forall id | id in DingIds(all) ensures id in DingIds(dings) + {radar.id} {
      var i :| 0 <= i < |all| && all[i].id == id;
      if i < |dings| { assert dings[i].id == id; }
    }
    forall id | id in DingIds(dings) ensures id in DingIds(all) {
      var i :| 0 <= i < |dings| && dings[i].id == id;
      assert all[i].id == id;
    }
    assert all[|dings|].id == radar.id;
  }

  // ---------- Cooldown over time ----------

  /** One scan: the readings of a fix and the time it was processed. */
  datatype Scan = Scan(readings: seq<RadarReading>, now: int)

  /** The announcement times after a series of scans. */
  function TimesAfter(times: map<int, int>, scans: seq<Scan>): map<int, int>
  {
    if scans == [] then times
    else
      var last := scans[|scans| - 1];
      Notify(TimesAfter(times, scans[..|scans| - 1]), last.readings, last.now).times
  }

  /** The announcements of one scan, each with the time it was made. */
  function Stamped(dings: seq<RadarReading>, now: int): (log: seq<(int, int)>)
    ensures |log| == |dings|
    ensures forall i | 0 <= i < |log| :: log[i] == (dings[i].id, now)
  {
    seq(|dings|, i requires 0 <= i < |dings| => (dings[i].id, now))
  }

  /** Every announcement made during a series of scans, with the time it was made. */
  function DingLog(times: map<int, int>, scans: seq<Scan>): seq<(int, int)>
  {
    if scans == [] then []
    else
      var last := scans[|scans| - 1];
      var n := Notify(TimesAfter(times, scans[..|scans| - 1]), last.readings, last.now);
      DingLog(times, scans[..|scans| - 1]) + Stamped(n.dings, last.now)
  }

  /** The clock never goes back, and the stored times are not in the future. */
  predicate Chronological(times: map<int, int>, scans: seq<Scan>) {
    && (forall i, j | 0 <= i < j < |scans| :: scans[i].now <= scans[j].now)
    && (scans != [] ==> forall id | id in times :: times[id] <= scans[0].now)
  }

  /** Announcements of the same radar are more than 30 s apart. */
  predicate Spaced(log: seq<(int, int)>) {
    forall i, j | 0 <= i < j < |log| && log[i].0 == log[j].0 :: log[j].1 - log[i].1 > CooldownMs
  }

  /**
   * What holds at time `now` of an announcement log and the stored times:
   * the log is spaced, nothing is in the future and each radar's stored
   * time is no older than any of its logged announcements.
   */
  predicate LogAgrees(log: seq<(int, int)>, times: map<int, int>, now: int) {
    && Spaced(log)
    && (forall i | 0 <= i < |log| :: log[i].1 <= now && LastTime(times, log[i].0) >= log[i].1)
    && (forall id | id in times :: times[id] <= now)
  }

  /** One more scan, made no earlier than `now`, keeps the log and the stored times in agreement. */
  lemma ScanKeepsLog(log: seq<(int, int)>, times: map<int, int>, now: int, rs: seq<RadarReading>, later: int)
    requires LogAgrees(log, times, now) && now <= later
    ensures var n := Notify(times, rs, later);
      LogAgrees(log + Stamped(n.dings, later), n.times, later)
  {
    ScanKeepsSpacing(log, times, now, rs, later);
    ScanKeepsTimes(log, times, now, rs, later);
  }

  lemma ScanKeepsSpacing(log: seq<(int, int)>, times: map<int, int>, now: int, rs: seq<RadarReading>, later: int)
    requires LogAgrees(log, times, now) && now <= later
    ensures Spaced(log + Stamped(Notify(times, rs, later).dings, later))
  {
    var n := Notify(times, rs, later);
    var added := Stamped(n.dings, later);
    var all := log + added;
    assert forall a, b | 0 <= a < b < |added| :: added[a].0 != added[b].0;
    forall i | 0 <= i < |added| ensures added[i].0 in DingIds(n.dings) {
      assert n.dings[i].id == added[i].0;
    }
    forall i, j | 0 <= i < j < |all| && all[i].0 == all[j].0
      ensures all[j].1 - all[i].1 > CooldownMs
    {
      if i < |log| && j >= |log| {
        assert added[j - |log|].0 in DingIds(n.dings);
        assert CooledDown(times, log[i].0, later);
      } else if i < |log| {
        assert all[i] == log[i] && all[j] == log[j];
      }
    }
  }

  lemma ScanKeepsTimes(log: seq<(int, int)>, times: map<int, int>, now: int, rs: seq<RadarReading>, later: int)
    requires LogAgrees(log, times, now) && now <= later
    ensures var n := Notify(times, rs, later);
      var all := log + Stamped(n.dings, later);
      && (forall i | 0 <= i < |all| :: all[i].1 <= later && LastTime(n.times, all[i].0) >= all[i].1)
      && (forall id | id in n.times :: n.times[id] <= later)
  {
    var n := Notify(times, rs, later);
    var added := Stamped(n.dings, later);
    var all := log + added;
    forall i | 0 <= i < |added| ensures LastTime(n.times, added[i].0) == later {
      assert n.dings[i].id == added[i].0;
      assert added[i].0 in DingIds(n.dings);
    }
    forall i | 0 <= i < |log| ensures LastTime(n.times, log[i].0) >= log[i].1 {
      if log[i].0 !in DingIds(n.dings) {
        assert LastTime(n.times, log[i].0) == LastTime(times, log[i].0);
      }
    }
    forall i | 0 <= i < |all| ensures all[i].1 <= later && LastTime(n.times, all[i].0) >= all[i].1 {
      if i < |log| { assert all[i] == log[i]; } else { assert all[i] == added[i - |log|]; }
    }
  }

  lemma {:induction false} LogAgreesAfterScans(times: map<int, int>, scans: seq<Scan>)
    requires Chronological(times, scans) && scans != []
    ensures LogAgrees(DingLog(times, scans), TimesAfter(times, scans), scans[|scans| - 1].now)
  {
    var prior := scans[..|scans| - 1];
    var last := scans[|scans| - 1];
    if prior == [] {
      assert LogAgrees([], times, last.now);
      ScanKeepsLog([], times, last.now, last.readings, last.now);
      assert DingLog(times, scans) == [] + Stamped(Notify(times, last.readings, last.now).dings, last.now);
    } else {
      assert prior[0] == scans[0];
      assert Chronological(times, prior);
      LogAgreesAfterScans(times, prior);
      ScanKeepsLog(DingLog(times, prior), TimesAfter(times, prior), prior[|prior| - 1].now, last.readings, last.now);
    }
  }

  /**
   * With a clock that never goes back and no stored time in the future,
   * two announcements of the same radar are more than 30 s apart.
   */
  lemma CooldownHolds(times: map<int, int>, scans: seq<Scan>)
    requires Chronological(times, scans)
    ensures forall i, j | 0 <= i < j < |DingLog(times, scans)| && DingLog(times, scans)[i].0 == DingLog(times, scans)[j].0
      :: DingLog(times, scans)[j].1 - DingLog(times, scans)[i].1 > CooldownMs
  {
    if scans != [] {
      LogAgreesAfterScans(times, scans);
    }
  }

  // ---------- The continuous beep ----------

  /** The beep state fields: the nearest radar being tracked, its last and smallest distance, the stop point and the beep switch. */
  datatype BeepState = BeepState(
    nearestId: Option<int>,
    lastDistance: real,
    minDistance: real,
    passStop: Option<real>,
    active: bool)

  const InitialBeep: BeepState := BeepState(None, 0.0, 0.0, None, false)

  /**
   * The enhanced beep logic, given the nearest radar in the zone (if any)
   * as its id and distance: a new nearest radar restarts tracking with the
   * beep on; approaching keeps it on and forgets the stop point; receding
   * sets the stop point 100 m beyond the closest distance once and beeps
   * until it is reached; an unchanged distance changes nothing; leaving
   * the zone forgets the radar and stops the beep.
   */
  function BeepStep(b: BeepState, nearest: Option<(int, real)>): (t: BeepState)
    ensures nearest.None? ==> t.nearestId.None? && !t.active
    ensures nearest.Some? ==> t.nearestId == Some(nearest.value.0) && t.lastDistance == nearest.value.1
  {
    match nearest
    case None => b.(nearestId := None, active := false)
    case Some((id, d)) =>
      if b.nearestId != Some(id) then BeepState(Some(id), d, d, None, true)
      else if d < b.lastDistance then
        BeepState(Some(id), d, if d < b.minDistance then d else b.minDistance, None, true)
      else if d > b.lastDistance then
        var stop := if b.passStop.None? then b.minDistance + PassMargin else b.passStop.value;
        BeepState(Some(id), d, b.minDistance, Some(stop), d < stop)
      else b.(lastDistance := d)
  }

  /** The hysteresis invariant. */
  predicate BeepInv(b: BeepState) {
    && (b.active ==> b.nearestId.Some?)
    && (b.nearestId.Some? ==> b.minDistance <= b.lastDistance)
    && (b.passStop.Some? ==> b.passStop.value == b.minDistance + PassMargin)
    && (b.nearestId.Some? && b.passStop.None? ==> b.active)
    && (b.nearestId.Some? && b.passStop.Some? ==> (b.active <==> b.lastDistance < b.passStop.value))
  }

  lemma InitialBeepInv()
    ensures BeepInv(InitialBeep)
  {
  }

  lemma BeepStepKeepsInv(b: BeepState, nearest: Option<(int, real)>)
    requires BeepInv(b)
    ensures BeepInv(BeepStep(b, nearest))
  {
  }

  /** Outside every zone the beep is off; a new nearest radar turns it on and restarts tracking at its distance. */
  lemma BeepOnEntry(b: BeepState, id: int, d: real)
    ensures !BeepStep(b, None).active && BeepStep(b, None).nearestId.None?
    ensures b.nearestId != Some(id) ==> BeepStep(b, Some((id, d))) == BeepState(Some(id), d, d, None, true)
  {
  }

  /**
   * The same radar again: closer keeps the beep on; farther keeps it on
   * exactly while the distance is under 100 m beyond the closest one;
   * an unchanged distance changes nothing.
   */
  lemma SameRadarTransitions(b: BeepState, id: int, d: real)
    requires BeepInv(b) && b.nearestId == Some(id)
    ensures var t := BeepStep(b, Some((id, d)));
      && (d < b.lastDistance ==>
            && t.active && t.passStop.None? && t.lastDistance == d
            && t.minDistance <= d && t.minDistance <= b.minDistance
            && (t.minDistance == d || t.minDistance == b.minDistance))
      && (d > b.lastDistance ==>
            && t.lastDistance == d && t.minDistance == b.minDistance
            && t.passStop == Some(b.minDistance + PassMargin)
            && (t.active <==> d < b.minDistance + PassMargin))
      && (d == b.lastDistance ==> t == b)
  {
  }

  /** Once silenced while moving away, the beep stays off until the driver approaches again or the radar changes. */
  lemma SilencedStaysSilent(b: BeepState, id: int, d: real)
    requires BeepInv(b) && b.nearestId == Some(id) && !b.active && d >= b.lastDistance
    ensures !BeepStep(b, Some((id, d))).active
  {
  }

  /** The state after a series of nearest-radar readings. */
  function BeepRun(b: BeepState, nearests: seq<Option<(int, real)>>): BeepState
  {
    if nearests == [] then b else BeepStep(BeepRun(b, nearests[..|nearests| - 1]), nearests[|nearests| - 1])
  }

  lemma {:induction false} BeepRunKeepsInv(b: BeepState, nearests: seq<Option<(int, real)>>)
    requires BeepInv(b)
    ensures BeepInv(BeepRun(b, nearests))
  {
    if nearests != [] {
      BeepRunKeepsInv(b, nearests[..|nearests| - 1]);
      BeepStepKeepsInv(BeepRun(b, nearests[..|nearests| - 1]), nearests[|nearests| - 1]);
    }
  }

  /**
   * Driving past radar 7: approaching from 280 m to 50 m beeps all along;
   * moving away, it beeps at 80 m and 120 m and stops at 160 m, past the
   * closest 50 m plus 100 m.
   */
  lemma DrivePast()
    ensures var approach := [Some((7, 280.0)), Some((7, 200.0)), Some((7, 100.0)), Some((7, 50.0))];
      && BeepRun(InitialBeep, approach[..1]).active
      && BeepRun(InitialBeep, approach[..2]).active
      && BeepRun(InitialBeep, approach[..3]).active
      && BeepRun(InitialBeep, approach).active
      && BeepRun(InitialBeep, approach + [Some((7, 80.0))]).active
      && BeepRun(InitialBeep, approach + [Some((7, 80.0)), Some((7, 120.0))]).active
      && BeepRun(InitialBeep, approach).minDistance == 50.0
      && var away := BeepRun(InitialBeep, approach + [Some((7, 80.0)), Some((7, 120.0)), Some((7, 160.0))]);
         !away.active && away.minDistance == 50.0 && away.passStop == Some(150.0) && away.lastDistance == 160.0
  {
    var approach: seq<Option<(int, real)>> := [Some((7, 280.0)), Some((7, 200.0)), Some((7, 100.0)), Some((7, 50.0))];
    var s1 := BeepStep(InitialBeep, Some((7, 280.0)));
    var s2 := BeepStep(s1, Some((7, 200.0)));
    var s3 := BeepStep(s2, Some((7, 100.0)));
    var s4 := BeepStep(s3, Some((7, 50.0)));
    var s5 := BeepStep(s4, Some((7, 80.0)));
    var s6 := BeepStep(s5, Some((7, 120.0)));
    var s7 := BeepStep(s6, Some((7, 160.0)));
    assert |approach[..1][..0]| == 0;
    assert BeepRun(InitialBeep, approach[..1]) == s1;
    assert approach[..2][..1] == approach[..1];
    assert BeepRun(InitialBeep, approach[..2]) == s2;
    assert approach[..3][..2] == approach[..2];
    assert BeepRun(InitialBeep, approach[..3]) == s3;
    assert approach[..3] == approach[..|approach| - 1];
    assert BeepRun(InitialBeep, approach) == s4;
    var p5 := approach + [Some((7, 80.0))];
    assert p5[..|p5| - 1] == approach;
    assert BeepRun(InitialBeep, p5) == s5;
    var p6 := approach + [Some((7, 80.0)), Some((7, 120.0))];
    assert p6[..|p6| - 1] == p5;
    assert BeepRun(InitialBeep, p6) == s6;
    var p7 := approach + [Some((7, 80.0)), Some((7, 120.0)), Some((7, 160.0))];
    assert p7[..|p7| - 1] == p6;
    assert BeepRun(InitialBeep, p7) == s7;
  }

  /**
   * The pause between beeps, in milliseconds: 500 ms at the radar, 2000 ms
   * at 300 m and beyond, linear in between, truncated to a whole number.
   */
  function BeepDelay(distance: real): (ms: int)
    ensures 500 <= ms <= 2000
    ensures distance <= 0.0 ==> ms == 500
    ensures distance >= ZoneRadius ==> ms == 2000
  {
    var clamped := if distance < 0.0 then 0.0 else if distance > ZoneRadius then ZoneRadius else distance;
    (500.0 + clamped / 300.0 * 1500.0).Floor
  }

  /** The closer the radar, the faster the beep. */
  lemma BeepDelayMonotone(d1: real, d2: real)
    requires d1 <= d2
    ensures BeepDelay(d1) <= BeepDelay(d2)
  {
    var c1 := if d1 < 0.0 then 0.0 else if d1 > ZoneRadius then ZoneRadius else d1;
    var c2 := if d2 < 0.0 then 0.0 else if d2 > ZoneRadius then ZoneRadius else d2;
    assert c1 <= c2;
    assert 500.0 + c1 / 300.0 * 1500.0 <= 500.0 + c2 / 300.0 * 1500.0;
  }
}
