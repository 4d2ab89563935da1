/**
 * The trip tracker of `onLocationChanged`: a trip starts once 300 m have been
 * covered at more than 5 km/h; from then on every fix adds its distance to the
 * trip and to the odometer alike, keeps the highest speed seen, and refreshes
 * the average speed each time the trip passes a whole kilometre.
 */
module Trip {
  import opened Wrappers

  /** 5 km/h in metres per second: the speed a fix needs to count towards starting a trip. */
  const MinSpeedThreshold: real := 5.0 / 3.6
  /** The distance, in metres, that starts a trip. */
  const MinDistanceThreshold: real := 300.0
  /** Once started, a fix counts when faster than this (m/s) ... */
  const MinSpeedMps: real := 0.5
  /** ... or when it moved further than this (m). */
  const MinDistanceMeters: real := 5.0

  /**
   * One location fix as the tracker sees it: the reported speed in m/s, the
   * distance in metres from the previous fix (`None` when there was none)
   * and the wall-clock time in milliseconds.
   */
  datatype Fix = Fix(rawSpeed: real, distance: Option<real>, now: int)

  /** What the platform guarantees of a fix: speeds and distances are not negative. */
  predicate Plausible(f: Fix) {
    f.rawSpeed >= 0.0 && (f.distance.Some? ==> f.distance.value >= 0.0)
  }

  /** The activity's trip fields; speeds in km/h, distances in km except `pendingDistance` (m). */
  datatype TripState = TripState(
    tripStarted: bool,
    pendingDistance: real,
    tripDistance: real,
    totalDistance: real,
    currentSpeed: real,
    maxSpeed: real,
    averageSpeed: real,
    tripStartTime: int,
    lastIntegerKm: int)

  /** The state at launch: no trip, the stored odometer and the trip distance restored from a saved instance. */
  function Initial(totalDistance: real, savedTripDistance: real): TripState {
    TripState(false, 0.0, savedTripDistance, totalDistance, 0.0, 0.0, 0.0, 0, 0)
  }

  /** Kotlin's `Float.toInt()`: rounds toward zero. */
  function TruncateToInt(x: real): (n: int)
    ensures x >= 0.0 ==> n as real <= x < n as real + 1.0
    ensures x < 0.0 ==> n as real - 1.0 < x <= n as real
  {
    if x >= 0.0 then x.Floor else -((-x).Floor)
  }

  /** Once started, a fix adds its distance when it is faster than 0.5 m/s or moved more than 5 m. */
  predicate Accumulates(f: Fix) {
    f.distance.Some? && (f.rawSpeed > MinSpeedMps || f.distance.value > MinDistanceMeters)
  }

  /** Before the start, a fix adds to the pending distance when it is faster than 5 km/h and moved at all. */
  predicate CountsTowardStart(f: Fix) {
    f.rawSpeed > MinSpeedThreshold && f.distance.Some? && f.distance.value > 0.0
  }

  /** The trip part of `onLocationChanged` for one fix. */
  function TripStep(s: TripState, f: Fix): (t: TripState)
    ensures s.tripStarted ==> t.tripStarted
    ensures t.currentSpeed == f.rawSpeed * 3.6
  {
    if !s.tripStarted then BeforeStart(s, f) else AfterStart(s, f)
  }

  /** A fix before the trip has started: the distance is pooled until it reaches the threshold. */
  function BeforeStart(s: TripState, f: Fix): (t: TripState)
    ensures t.totalDistance == s.totalDistance && t.lastIntegerKm == s.lastIntegerKm
    ensures t.tripStarted != s.tripStarted ==> CountsTowardStart(f) && t.pendingDistance == 0.0
  {
    var speed := f.rawSpeed * 3.6;
    if CountsTowardStart(f) then
      var pending := s.pendingDistance + f.distance.value;
      if pending >= MinDistanceThreshold then
        s.(tripStarted := true, tripDistance := pending / 1000.0, tripStartTime := f.now,
           pendingDistance := 0.0, maxSpeed := speed, currentSpeed := speed)
      else s.(pendingDistance := pending, currentSpeed := speed)
    else s.(currentSpeed := speed)
  }

  /** A fix during the trip: the speeds are updated and a real movement is added to the distances. */
  function AfterStart(s: TripState, f: Fix): (t: TripState)
    ensures t.tripStarted == s.tripStarted && t.tripStartTime == s.tripStartTime
    ensures t.tripDistance - s.tripDistance == t.totalDistance - s.totalDistance
  {
    var speed := f.rawSpeed * 3.6;
    var maxSpeed := if speed > s.maxSpeed then speed else s.maxSpeed;
    if Accumulates(f) then
      var delta := f.distance.value / 1000.0;
      UpdateAverage(s.(currentSpeed := speed, maxSpeed := maxSpeed, tripDistance := s.tripDistance + delta,
                       totalDistance := s.totalDistance + delta), f.now)
    else s.(currentSpeed := speed, maxSpeed := maxSpeed)
  }

  /**
   * After the distance grew: when a new whole kilometre is reached, the
   * average speed is recomputed over the time since the trip started (if any
   * time has passed).
   */
  function UpdateAverage(s: TripState, now: int): (t: TripState)
    ensures t.(lastIntegerKm := s.lastIntegerKm, averageSpeed := s.averageSpeed) == s
    ensures t.lastIntegerKm >= s.lastIntegerKm
  {
    var intKm := TruncateToInt(s.tripDistance);
    var elapsedHours := (now - s.tripStartTime) as real / 1000.0 / 3600.0;
    s.(lastIntegerKm := if intKm > s.lastIntegerKm then intKm else s.lastIntegerKm,
       averageSpeed := if intKm > s.lastIntegerKm && elapsedHours > 0.0 then s.tripDistance / elapsedHours
                       else s.averageSpeed)
  }

  /** The state after a series of fixes. */
  function Run(s: TripState, fixes: seq<Fix>): TripState
  {
    if fixes == [] then s else TripStep(Run(s, fixes[..|fixes| - 1]), fixes[|fixes| - 1])
  }

  /** What every reachable state satisfies. */
  predicate TripInv(s: TripState) {
    && s.pendingDistance >= 0.0
    && s.totalDistance >= 0.0
    && s.averageSpeed >= 0.0
    && (!s.tripStarted ==> s.pendingDistance < MinDistanceThreshold && s.lastIntegerKm == 0)
    && (s.tripStarted ==>
          && s.pendingDistance == 0.0
          && s.tripDistance >= 0.0
          && s.maxSpeed >= s.currentSpeed
          && 0 <= s.lastIntegerKm <= TruncateToInt(s.tripDistance))
  }

  lemma InitialInv(totalDistance: real, savedTripDistance: real)
    requires totalDistance >= 0.0
    ensures TripInv(Initial(totalDistance, savedTripDistance))
  {
  }

  // ---------- One fix ----------

  /**
   * Before the start: the trip starts exactly when this fix counts and brings
   * the pending distance to 300 m; it then holds the pending distance in km,
   * starts at this fix's time with this fix's speed as maximum, and the
   * odometer is not touched.
   */
  lemma StartExact(s: TripState, f: Fix)
    requires !s.tripStarted
    ensures var t := TripStep(s, f);
      && (t.tripStarted <==> CountsTowardStart(f) && s.pendingDistance + f.distance.value >= MinDistanceThreshold)
      && t.currentSpeed == f.rawSpeed * 3.6
      && t.totalDistance == s.totalDistance
      && t.averageSpeed == s.averageSpeed
      && t.lastIntegerKm == s.lastIntegerKm
      && (t.tripStarted ==>
            && t.tripDistance == (s.pendingDistance + f.distance.value) / 1000.0
            && t.pendingDistance == 0.0
            && t.tripStartTime == f.now
            && t.maxSpeed == t.currentSpeed)
      && (!t.tripStarted ==>
            && t.tripDistance == s.tripDistance
            && t.tripStartTime == s.tripStartTime
            && t.maxSpeed == s.maxSpeed
            && t.pendingDistance == s.pendingDistance + (if CountsTowardStart(f) then f.distance.value else 0.0))
  {
  }

  /**
   * After the start: the trip stays started, the trip and the odometer grow
   * by the same amount (the fix's distance in km when it counts, nothing
   * otherwise), and the maximum speed is the larger of the old one and this
   * fix's.
   */
  lemma AccumulateExact(s: TripState, f: Fix)
    requires s.tripStarted
    ensures var t := TripStep(s, f);
      && t.tripStarted
      && t.pendingDistance == s.pendingDistance
      && t.tripStartTime == s.tripStartTime
      && t.tripDistance - s.tripDistance == t.totalDistance - s.totalDistance
           == (if Accumulates(f) then f.distance.value / 1000.0 else 0.0)
      && t.currentSpeed == f.rawSpeed * 3.6
      && t.maxSpeed >= s.maxSpeed && t.maxSpeed >= t.currentSpeed
      && (t.maxSpeed == s.maxSpeed || t.maxSpeed == t.currentSpeed)
  {
  }

  /**
   * The average speed changes only when the trip passes a new whole
   * kilometre after some time has elapsed, and is then the trip distance
   * over the elapsed hours.
   */
  lemma AverageOnNewKilometre(s: TripState, f: Fix)
    requires s.tripStarted
    ensures var t := TripStep(s, f);
      t.averageSpeed != s.averageSpeed ==>
        && Accumulates(f)
        && t.lastIntegerKm == TruncateToInt(t.tripDistance) > s.lastIntegerKm
        && f.now > s.tripStartTime
        && t.averageSpeed == t.tripDistance / ((f.now - s.tripStartTime) as real / 1000.0 / 3600.0)
    ensures var t := TripStep(s, f);
      Accumulates(f) && TruncateToInt(t.tripDistance) > s.lastIntegerKm ==>
        && t.lastIntegerKm == TruncateToInt(t.tripDistance)
        && (f.now > s.tripStartTime ==>
              t.averageSpeed == t.tripDistance / ((f.now - s.tripStartTime) as real / 1000.0 / 3600.0))
    ensures var t := TripStep(s, f);
      !(Accumulates(f) && TruncateToInt(t.tripDistance) > s.lastIntegerKm) ==>
        t.lastIntegerKm == s.lastIntegerKm && t.averageSpeed == s.averageSpeed
  {
  }

  /** Every plausible fix keeps the invariant. */
  lemma StepKeepsInv(s: TripState, f: Fix)
    requires TripInv(s) && Plausible(f)
    ensures TripInv(TripStep(s, f))
  {
    var t := TripStep(s, f);
    if s.tripStarted && Accumulates(f) {
      assert t.tripDistance >= s.tripDistance;
      assert TruncateToInt(t.tripDistance) >= TruncateToInt(s.tripDistance);
    }
  }

  // ---------- A series of fixes ----------

  predicate AllPlausible(fixes: seq<Fix>) {
    forall i | 0 <= i < |fixes| :: Plausible(fixes[i])
  }

  lemma {:induction false} RunKeepsInv(s: TripState, fixes: seq<Fix>)
    requires TripInv(s) && AllPlausible(fixes)
    ensures TripInv(Run(s, fixes))
  {
    if fixes != [] {
      RunKeepsInv(s, fixes[..|fixes| - 1]);
      StepKeepsInv(Run(s, fixes[..|fixes| - 1]), fixes[|fixes| - 1]);
    }
  }

  /** A started trip is never reset, and the odometer runs ahead of the trip by a fixed amount. */
  lemma {:induction false} StartedStays(s: TripState, fixes: seq<Fix>)
    requires s.tripStarted
    ensures Run(s, fixes).tripStarted
    ensures Run(s, fixes).totalDistance - Run(s, fixes).tripDistance == s.totalDistance - s.tripDistance
  {
    if fixes != [] {
      StartedStays(s, fixes[..|fixes| - 1]);
      AccumulateExact(Run(s, fixes[..|fixes| - 1]), fixes[|fixes| - 1]);
    }
  }

  /** With plausible fixes the odometer never goes back. */
  lemma {:induction false} TotalNeverDecreases(s: TripState, fixes: seq<Fix>)
    requires AllPlausible(fixes)
    ensures Run(s, fixes).totalDistance >= s.totalDistance
  {
    if fixes != [] {
      TotalNeverDecreases(s, fixes[..|fixes| - 1]);
    }
  }

  /** With plausible fixes, the distance of a started trip never goes back. */
  lemma TripNeverShrinks(s: TripState, fixes: seq<Fix>)
    requires s.tripStarted && AllPlausible(fixes)
    ensures Run(s, fixes).tripDistance >= s.tripDistance
  {
    StartedStays(s, fixes);
    TotalNeverDecreases(s, fixes);
  }

  /** The highest speed of the fixes in a run: a lower bound on the maximum the trip keeps. */
  function MaxSpeedOf(fixes: seq<Fix>, floor: real): (m: real)
    ensures m >= floor
    ensures forall i | 0 <= i < |fixes| :: m >= fixes[i].rawSpeed * 3.6
    ensures m == floor || exists i | 0 <= i < |fixes| :: m == fixes[i].rawSpeed * 3.6
  {
    if fixes == [] then floor
    else
      var rest := MaxSpeedOf(fixes[..|fixes| - 1], floor);
      var last := fixes[|fixes| - 1].rawSpeed * 3.6;
      assert forall i | 0 <= i < |fixes| - 1 :: fixes[..|fixes| - 1][i] == fixes[i];
      if last > rest then last else rest
  }

  /** After the start, the maximum speed is the running maximum of the fixes' speeds. */
  lemma {:induction false} MaxIsRunningMax(s: TripState, fixes: seq<Fix>)
    requires s.tripStarted
    ensures Run(s, fixes).maxSpeed == MaxSpeedOf(fixes, s.maxSpeed)
  {
    if fixes != [] {
      MaxIsRunningMax(s, fixes[..|fixes| - 1]);
      StartedStays(s, fixes[..|fixes| - 1]);
    }
  }

  /** The distance the fixes of a run contribute toward starting a trip. */
  function FastDistance(fixes: seq<Fix>): (d: real)
    ensures d >= 0.0
  {
    if fixes == [] then 0.0
    else
      var f := fixes[|fixes| - 1];
      FastDistance(fixes[..|fixes| - 1]) + (if CountsTowardStart(f) then f.distance.value else 0.0)
  }

  /** A run that has not started a trip has added exactly its fast distance to the pending distance. */
  lemma {:induction false} PendingIsFastDistance(s: TripState, fixes: seq<Fix>)
    requires !Run(s, fixes).tripStarted
    ensures !s.tripStarted
    ensures Run(s, fixes).pendingDistance == s.pendingDistance + FastDistance(fixes)
    ensures Run(s, fixes).tripDistance == s.tripDistance && Run(s, fixes).totalDistance == s.totalDistance
  {
    if fixes != [] {
      var prior := Run(s, fixes[..|fixes| - 1]);
      assert !prior.tripStarted;
      PendingIsFastDistance(s, fixes[..|fixes| - 1]);
      StartExact(prior, fixes[|fixes| - 1]);
    }
  }

  /** A trip starts only after at least 300 m covered at more than 5 km/h. */
  lemma {:induction false} StartNeedsDistance(s: TripState, fixes: seq<Fix>)
    requires !s.tripStarted && Run(s, fixes).tripStarted
    ensures s.pendingDistance + FastDistance(fixes) >= MinDistanceThreshold
  {
    var prefix := fixes[..|fixes| - 1];
    var f := fixes[|fixes| - 1];
    var prior := Run(s, prefix);
    if prior.tripStarted {
      StartNeedsDistance(s, prefix);
      FastDistanceGrows(fixes);
    } else {
      PendingIsFastDistance(s, prefix);
      StartExact(prior, f);
    }
  }

  lemma FastDistanceGrows(fixes: seq<Fix>)
    requires fixes != []
    ensures FastDistance(fixes) >= FastDistance(fixes[..|fixes| - 1])
  {
  }

  /** Fixes at 5 km/h or less never start a trip and leave the trip state as it was, but for the current speed. */
  lemma {:induction false} SlowNeverStarts(s: TripState, fixes: seq<Fix>)
    requires !s.tripStarted
    requires forall i | 0 <= i < |fixes| :: fixes[i].rawSpeed <= MinSpeedThreshold
    ensures Run(s, fixes).(currentSpeed := s.currentSpeed) == s
  {
    if fixes != [] {
      SlowNeverStarts(s, fixes[..|fixes| - 1]);
    }
  }
}
