/**
 * The activity's state and the handlers that change it: a location fix, the
 * radar scan that follows it, the GPS watchdog tick, the odometer and the
 * maintenance file. The wall clock, the distance between two fixes and the
 * radars' distances arrive as parameters; sounds, speech and toasts are the
 * announcements the handlers return.
 */
module Controller {
  import opened Wrappers
  import opened Text
  import opened Trip
  import opened Radar
  import opened Maintenance
  import Watchdog

  /** `Float.MAX_VALUE`, the scan's starting "nearest so far" distance. */
  const MaxFloat: real := 340282346638528859811704183484516925440.0

  /** The nearest radar in the zone as the beep logic receives it: its id and distance. */
  function NearestPair(rs: seq<RadarReading>): Option<(int, real)>
  {
    match NearestIndex(rs)
    case Some(k) => Some((rs[k].id, rs[k].distance))
    case None => None
  }

  /** The speed limit of the nearest radar in the zone, if there is one. */
  function NearestLimit(rs: seq<RadarReading>): Option<int>
  {
    match NearestIndex(rs)
    case Some(k) => Some(rs[k].speedLimit)
    case None => None
  }

  /**
   * The scan over the stored radars: the nearest one in the zone (strictly
   * closer than `Float.MAX_VALUE` or the best so far) and the announcements,
   * each radar in the zone looked up in the cooldown map with 0 for a
   * radar never announced.
   */
  method ScanRadars(radars: seq<RadarReading>, times0: map<int, int>, now: int)
    returns (currentlyWithin: bool, nearestId: Option<int>, nearestDist: real, nearestLimit: Option<int>,
             times: map<int, int>, dings: seq<RadarReading>)
    ensures currentlyWithin <==> NearestIndex(radars).Some?
    ensures nearestId.Some? <==> currentlyWithin
    ensures NearestPair(radars) == if currentlyWithin then Some((nearestId.value, nearestDist)) else None
    ensures nearestLimit == NearestLimit(radars)
    ensures Notification(times, dings) == Notify(times0, radars, now)
  {
    nearestLimit := None;
    var minDistance := MaxFloat;
    currentlyWithin := false;
    nearestId := None;
    nearestDist := MaxFloat;
    times := times0;
    dings := [];
    ghost var nearest: Option<nat> := None;
    var i := 0;
    while i < |radars|
      invariant 0 <= i <= |radars|
      invariant nearest == NearestIndex(radars[..i])
      invariant currentlyWithin == nearest.Some?
      invariant nearest.Some? ==> && nearest.value < i
                                  && minDistance == nearestDist == radars[nearest.value].distance
                                  && nearestId == Some(radars[nearest.value].id)
                                  && nearestLimit == Some(radars[nearest.value].speedLimit)
      invariant nearest.None? ==> minDistance == MaxFloat && nearestId.None? && nearestLimit.None?
      invariant Notification(times, dings) == Notify(times0, radars[..i], now)
    {
      var radar := radars[i];
      var distance := radar.distance;
      NearestIndexStep(radars, i);
      NotifyStep(times0, radars, i, now);
      ghost var before := Notification(times, dings);
      if distance < 300.0 {
        currentlyWithin := true;
        if distance < minDistance {
          minDistance := distance;
          nearestLimit := Some(radar.speedLimit);
          nearestId := Some(radar.id);
          nearestDist := distance;
          nearest := Some(i);
        }
        var last := if radar.id in times then times[radar.id] else 0;
        if now - last > 30000 {
          dings := dings + [radar];
          times := times[radar.id := now];
        }
      }
      assert Notification(times, dings) == Announce(before, radar, now);
      i := i + 1;
    }
    assert radars[..i] == radars;
  }

  class SpeedometerController {
    // Trip fields; speeds in km/h, distances in km except `pendingDistance` (m).
    var tripStarted: bool
    var pendingDistance: real
    var tripDistance: real
    var totalDistance: real
    var currentSpeed: real
    var maxSpeed: real
    var averageSpeed: real
    var tripStartTime: int
    var lastIntegerKm: int

    // GPS fields: whether a fix was ever received, when the latest arrived, the signal shown.
    var hasLastLocation: bool
    var lastLocationTime: int
    var gpsSignal: bool

    // Radar fields.
    var lastNotificationTime: map<int, int>
    var withinRadarZone: bool
    var approachingRadarLimit: Option<int>
    var currentNearestRadarId: Option<int>
    var lastNearestDistance: real
    var minNearestDistance: real
    var passStopDistance: Option<real>
    var beepActive: bool

    // Maintenance: the file's text, the tasks read from it and the fired flags kept in the preferences.
    var maintenanceFile: string
    var maintenanceTasks: seq<MaintenanceTask>
    var shown: set<MaintenanceTask>

    function TripFields(): TripState
      reads this`tripStarted, this`pendingDistance, this`tripDistance, this`totalDistance, this`currentSpeed,
            this`maxSpeed, this`averageSpeed, this`tripStartTime, this`lastIntegerKm
    {
      TripState(tripStarted, pendingDistance, tripDistance, totalDistance, currentSpeed,
                maxSpeed, averageSpeed, tripStartTime, lastIntegerKm)
    }

    function GpsFields(): (bool, int, bool)
      reads this`hasLastLocation, this`lastLocationTime, this`gpsSignal
    {
      (hasLastLocation, lastLocationTime, gpsSignal)
    }

    function BeepFields(): BeepState
      reads this`currentNearestRadarId, this`lastNearestDistance, this`minNearestDistance,
            this`passStopDistance, this`beepActive
    {
      BeepState(currentNearestRadarId, lastNearestDistance, minNearestDistance, passStopDistance, beepActive)
    }

    function RadarFields(): (map<int, int>, bool, Option<int>, BeepState)
      reads this`lastNotificationTime, this`withinRadarZone, this`approachingRadarLimit,
            this`currentNearestRadarId, this`lastNearestDistance, this`minNearestDistance,
            this`passStopDistance, this`beepActive
    {
      (lastNotificationTime, withinRadarZone, approachingRadarLimit, BeepFields())
    }

    /** The trip invariant holds of the trip fields. */
    predicate TripValid()
      reads this`tripStarted, this`pendingDistance, this`tripDistance, this`totalDistance, this`currentSpeed,
            this`maxSpeed, this`averageSpeed, this`tripStartTime, this`lastIntegerKm
    {
      TripInv(TripFields())
    }

    /** The hysteresis invariant holds of the beep fields. */
    predicate BeepValid()
      reads this`currentNearestRadarId, this`lastNearestDistance, this`minNearestDistance,
            this`passStopDistance, this`beepActive
    {
      BeepInv(BeepFields())
    }

    /** The task list is what the file reads as. */
    predicate TasksLoaded()
      reads this`maintenanceFile, this`maintenanceTasks
    {
      maintenanceTasks == ParseFile(maintenanceFile)
    }

    /** Every invariant of the activity's state; the handlers keep the part they touch. */
    predicate Valid()
      reads this
    {
      TripValid() && BeepValid() && TasksLoaded()
    }

    /**
     * Start-up: the stored odometer, the trip distance of a saved instance,
     * the maintenance file if one exists (otherwise the default one is
     * created), its tasks loaded, and the fired flags of the preferences.
     */
    constructor (storedTotal: real, savedTripDistance: real, storedFile: Option<string>, flags: set<MaintenanceTask>)
      requires storedTotal >= 0.0
      ensures Valid()
      ensures TripFields() == Initial(storedTotal, savedTripDistance)
      ensures GpsFields() == (false, 0, false)
      ensures RadarFields() == (map[], false, None, InitialBeep)
      ensures maintenanceFile == (if storedFile.Some? then storedFile.value else DefaultContent)
      ensures shown == flags
    {
      tripStarted, pendingDistance, tripDistance, totalDistance := false, 0.0, savedTripDistance, storedTotal;
      currentSpeed, maxSpeed, averageSpeed, tripStartTime, lastIntegerKm := 0.0, 0.0, 0.0, 0, 0;
      hasLastLocation, lastLocationTime, gpsSignal := false, 0, false;
      lastNotificationTime, withinRadarZone, approachingRadarLimit := map[], false, None;
      currentNearestRadarId, lastNearestDistance, minNearestDistance := None, 0.0, 0.0;
      passStopDistance, beepActive := None, false;
      var file := if storedFile.Some? then storedFile.value else DefaultContent;
      maintenanceFile := file;
      maintenanceTasks := ParseFile(file);
      shown := flags;
      new;
      InitialInv(storedTotal, savedTripDistance);
    }

    /**
     * `checkMaintenanceThresholds`: walks the task list, flags and announces
     * every due task not flagged yet.
     */
    method CheckMaintenanceThresholds(currentKm: real) returns (alerts: seq<MaintenanceTask>)
      modifies this`shown
      ensures CheckResult(shown, alerts) == CheckThresholds(maintenanceTasks, old(shown), currentKm)
    {
      var tasks := maintenanceTasks;
      var flags := shown;
      alerts := [];
      var i := 0;
      while i < |tasks|
        invariant 0 <= i <= |tasks|
        invariant CheckResult(flags, alerts) == CheckThresholds(tasks[..i], old(shown), currentKm)
      {
        var task := tasks[i];
        CheckThresholdsStep(tasks, i, old(shown), currentKm);
        ghost var before := CheckResult(flags, alerts);
        if currentKm >= task.odometerAtCreation + task.offsetKm as real {
          if task !in flags {
            flags := flags + {task};
            alerts := alerts + [task];
          }
        }
        assert CheckResult(flags, alerts) == CheckOne(before, task, currentKm);
        i := i + 1;
      }
      assert tasks[..i] == tasks;
      shown := flags;
    }

    /**
     * The trip part of `onLocationChanged`: records the fix, shows the
     * signal, runs the trip logic and, when the fix adds distance to a
     * started trip, checks the maintenance thresholds at the new odometer.
     */
    method OnLocationChanged(rawSpeed: real, distanceToPrevious: real, now: int) returns (alerts: seq<MaintenanceTask>)
      requires TripValid() && rawSpeed >= 0.0 && distanceToPrevious >= 0.0
      modifies this`tripStarted, this`pendingDistance, this`tripDistance, this`totalDistance, this`currentSpeed,
              this`maxSpeed, this`averageSpeed, this`tripStartTime, this`lastIntegerKm,
              this`hasLastLocation, this`lastLocationTime, this`gpsSignal, this`shown
      ensures TripValid()
      ensures var f := Fix(rawSpeed, if old(hasLastLocation) then Some(distanceToPrevious) else None, now);
        && TripFields() == TripStep(old(TripFields()), f)
        && (old(tripStarted) && Accumulates(f) ==>
              CheckResult(shown, alerts) == CheckThresholds(maintenanceTasks, old(shown), totalDistance))
        && (!(old(tripStarted) && Accumulates(f)) ==> shown == old(shown) && alerts == [])
      ensures GpsFields() == (true, now, true)
    {
      var f := Fix(rawSpeed, if hasLastLocation then Some(distanceToPrevious) else None, now);
      StepKeepsInv(TripFields(), f);
      hasLastLocation := true;
      lastLocationTime := now;
      if !gpsSignal {
        gpsSignal := true;
      }
      if !tripStarted {
        TripBeforeStart(f);
        alerts := [];
      } else {
        alerts := TripAfterStart(f);
      }
    }

    /** The trip logic before the start: a fix that counts adds to the pending distance, which starts the trip at 300 m. */
    method TripBeforeStart(f: Fix)
      requires !tripStarted
      modifies this`tripStarted, this`pendingDistance, this`tripDistance, this`currentSpeed,
              this`maxSpeed, this`tripStartTime
      ensures TripFields() == BeforeStart(old(TripFields()), f)
    {
      currentSpeed := f.rawSpeed * 3.6;
      if f.rawSpeed > MinSpeedThreshold && f.distance.Some? {
        var distance := f.distance.value;
        if distance > 0.0 {
          pendingDistance := pendingDistance + distance;
          if pendingDistance >= MinDistanceThreshold {
            tripStarted := true;
            tripDistance := pendingDistance / 1000.0;
            tripStartTime := f.now;
            pendingDistance := 0.0;
            maxSpeed := currentSpeed;
          }
        }
      }
    }

    /**
     * The trip logic once started: the maximum speed, then, for a fix that
     * counts, the trip and the odometer, the threshold check and the average
     * speed at each new whole kilometre.
     */
    method TripAfterStart(f: Fix) returns (alerts: seq<MaintenanceTask>)
      requires tripStarted
      modifies this`currentSpeed, this`maxSpeed, this`tripDistance, this`totalDistance,
              this`lastIntegerKm, this`averageSpeed, this`shown
      ensures TripFields() == AfterStart(old(TripFields()), f)
      ensures Accumulates(f) ==> CheckResult(shown, alerts) == CheckThresholds(maintenanceTasks, old(shown), totalDistance)
      ensures !Accumulates(f) ==> shown == old(shown) && alerts == []
    {
      currentSpeed := f.rawSpeed * 3.6;
      if currentSpeed > maxSpeed {
        maxSpeed := currentSpeed;
      }
      alerts := [];
      if f.distance.Some? {
        var speedMps := f.rawSpeed;
        var distanceMeters := f.distance.value;
        if speedMps > MinSpeedMps || distanceMeters > MinDistanceMeters {
          alerts := AddDistance(distanceMeters / 1000.0, f.now);
        }
      }
    }

    /**
     * A movement that counts: it is added to the trip and the odometer, the
     * thresholds are checked against the new odometer, and the average speed
     * is updated at a new whole kilometre.
     */
    method AddDistance(distanceDelta: real, now: int) returns (alerts: seq<MaintenanceTask>)
      modifies this`tripDistance, this`totalDistance, this`lastIntegerKm, this`averageSpeed, this`shown
      ensures TripFields() == Trip.UpdateAverage(old(TripFields()).(tripDistance := old(tripDistance) + distanceDelta,
                                                                   totalDistance := old(totalDistance) + distanceDelta), now)
      ensures CheckResult(shown, alerts) == CheckThresholds(maintenanceTasks, old(shown), totalDistance)
    {
      tripDistance := tripDistance + distanceDelta;
      totalDistance := totalDistance + distanceDelta;
      alerts := CheckMaintenanceThresholds(totalDistance);
      UpdateAverage(now);
    }

    method UpdateAverage(now: int)
      modifies this`lastIntegerKm, this`averageSpeed
      ensures TripFields() == Trip.UpdateAverage(old(TripFields()), now)
    {
      var currentIntKm := TruncateToInt(tripDistance);
      if currentIntKm > lastIntegerKm {
        lastIntegerKm := currentIntKm;
        var elapsedHours := (now - tripStartTime) as real / 1000.0 / 3600.0;
        if elapsedHours > 0.0 {
          averageSpeed := tripDistance / elapsedHours;
        }
      }
    }

    /**
     * The radar part of `onLocationChanged`, given every stored radar with
     * its distance from the fix: finds the nearest radar in the zone,
     * announces the radars whose cooldown has passed, and runs the beep logic.
     */
    method ProcessRadars(radars: seq<RadarReading>, now: int) returns (dings: seq<RadarReading>)
      requires BeepValid()
      modifies this`lastNotificationTime, this`withinRadarZone, this`approachingRadarLimit,
              this`currentNearestRadarId, this`lastNearestDistance, this`minNearestDistance,
              this`passStopDistance, this`beepActive
      ensures BeepValid()
      ensures Notification(lastNotificationTime, dings) == Notify(old(lastNotificationTime), radars, now)
      ensures withinRadarZone <==> exists i | 0 <= i < |radars| :: InZone(radars[i])
      ensures BeepFields() == BeepStep(old(BeepFields()), NearestPair(radars))
      ensures approachingRadarLimit == NearestLimit(radars)
    {
      ghost var beepBefore := BeepFields();
      var currentlyWithin, nearestId, nearestDist, nearestLimit, times;
      currentlyWithin, nearestId, nearestDist, nearestLimit, times, dings := ScanRadars(radars, lastNotificationTime, now);
      lastNotificationTime := times;
      if currentlyWithin != withinRadarZone {
        withinRadarZone := currentlyWithin;
      }
      UpdateBeep(currentlyWithin, nearestId, nearestDist, nearestLimit);
      BeepStepKeepsInv(beepBefore, NearestPair(radars));
    }

    /** The enhanced beep logic, on the outcome of the scan. */
    method UpdateBeep(currentlyWithin: bool, nearestId: Option<int>, nearestDist: real, nearestLimit: Option<int>)
      modifies this`approachingRadarLimit, this`currentNearestRadarId, this`lastNearestDistance, this`minNearestDistance,
              this`passStopDistance, this`beepActive
      ensures var nearest := if currentlyWithin && nearestId.Some? then Some((nearestId.value, nearestDist)) else None;
        BeepFields() == BeepStep(old(BeepFields()), nearest)
      ensures approachingRadarLimit == if currentlyWithin && nearestId.Some? then nearestLimit else None
    {
      if currentlyWithin && nearestId.Some? {
        if currentNearestRadarId != nearestId {
          currentNearestRadarId := nearestId;
          lastNearestDistance := nearestDist;
          minNearestDistance := nearestDist;
          passStopDistance := None;
          beepActive := true;
        } else {
          var prevDist := lastNearestDistance;
          lastNearestDistance := nearestDist;
          if nearestDist < prevDist {
            minNearestDistance := if minNearestDistance <= nearestDist then minNearestDistance else nearestDist;
            passStopDistance := None;
            beepActive := true;
          } else if nearestDist > prevDist {
            if passStopDistance.None? {
              passStopDistance := Some(minNearestDistance + 100.0);
            }
            beepActive := nearestDist < passStopDistance.value;
          }
        }
        approachingRadarLimit := nearestLimit;
      } else {
        currentNearestRadarId := None;
        beepActive := false;
        approachingRadarLimit := None;
      }
    }

    /** `gpsCheckRunnable`: decides the signal and writes it, and refreshes the screen, only when it changed. */
    method GpsCheck(now: int) returns (refreshed: bool)
      modifies this`gpsSignal
      ensures (gpsSignal, refreshed) == Watchdog.Check(old(gpsSignal), hasLastLocation, lastLocationTime, now)
    {
      var signal := hasLastLocation && now - lastLocationTime < Watchdog.GpsTimeoutMs;
      refreshed := false;
      if signal != gpsSignal {
        gpsSignal := signal;
        refreshed := true;
      }
    }

    /** `setOdometer`: a value that is not negative replaces the odometer and the thresholds are checked at it. */
    method SetOdometer(newValue: real) returns (accepted: bool, alerts: seq<MaintenanceTask>)
      requires TripValid()
      modifies this`totalDistance, this`shown
      ensures TripValid()
      ensures accepted <==> newValue >= 0.0
      ensures accepted ==> (TripFields() == old(TripFields()).(totalDistance := newValue)
                        && CheckResult(shown, alerts) == CheckThresholds(maintenanceTasks, old(shown), newValue))
      ensures !accepted ==> TripFields() == old(TripFields()) && shown == old(shown) && alerts == []
    {
      if newValue >= 0.0 {
        totalDistance := newValue;
        alerts := CheckMaintenanceThresholds(totalDistance);
        accepted := true;
      } else {
        alerts := [];
        accepted := false;
      }
    }

    /** The "Set Odometer" dialog's confirm button: a valid entry goes to `setOdometer`. */
    method ConfirmOdometerDialog(input: string) returns (accepted: bool, alerts: seq<MaintenanceTask>)
      requires TripValid()
      modifies this`totalDistance, this`shown
      ensures TripValid()
      ensures accepted <==> ValidateOdometerInput(input).Some?
      ensures accepted ==> (totalDistance == ValidateOdometerInput(input).value
                        && CheckResult(shown, alerts) == CheckThresholds(maintenanceTasks, old(shown), totalDistance))
      ensures !accepted ==> TripFields() == old(TripFields()) && shown == old(shown) && alerts == []
    {
      var value := ValidateOdometerInput(input);
      match value {
        case Some(v) =>
          accepted, alerts := SetOdometer(v);
        case None =>
          accepted, alerts := false, [];
      }
    }

    /** `loadMaintenanceTasks`: the task list becomes what the file reads as. */
    method LoadMaintenanceTasks()
      modifies this`maintenanceTasks
      ensures maintenanceTasks == ParseFile(maintenanceFile)
    {
      maintenanceTasks := ParseFile(maintenanceFile);
    }

    /**
     * `appendMaintenanceTask`: writes the task's line at the end of the file
     * and reloads. When the file ended with a line feed, a storable message
     * adds exactly this task and an empty or comma-holding one adds nothing.
     */
    method AppendMaintenanceTask(offsetKm: int, message: string, odometer: Decimal)
      requires TasksLoaded() && odometer.Valid()
      modifies this`maintenanceFile, this`maintenanceTasks
      ensures TasksLoaded()
      ensures maintenanceFile == old(maintenanceFile) + FormatLine(offsetKm, message, odometer)
      ensures Terminated(maintenanceFile)
      ensures Terminated(old(maintenanceFile)) && InInt32(offsetKm) && Storable(message) ==>
                maintenanceTasks == old(maintenanceTasks) + [MaintenanceTask(offsetKm, message, odometer.Value())]
      ensures Terminated(old(maintenanceFile)) && NoLineBreak(message) && (Trim(message) == [] || ',' in message) ==>
                maintenanceTasks == old(maintenanceTasks)
    {
      AppendEffect(maintenanceFile, offsetKm, message, odometer);
      maintenanceFile := maintenanceFile + FormatLine(offsetKm, message, odometer);
      LoadMaintenanceTasks();
    }

    /**
     * The "Add Maintenance Task" dialog's confirm button followed by
     * `addMaintenanceTask`: a valid entry is appended with the odometer as
     * the platform prints it.
     */
    method ConfirmMaintenanceDialog(input: string, odometerText: Decimal) returns (r: Result<(int, string), DialogError>)
      requires TasksLoaded() && odometerText.Valid()
      modifies this`maintenanceFile, this`maintenanceTasks
      ensures TasksLoaded()
      ensures r == ValidateMaintenanceInput(input)
      ensures r.Failure? ==> maintenanceFile == old(maintenanceFile) && maintenanceTasks == old(maintenanceTasks)
      ensures r.Success? ==> maintenanceFile == old(maintenanceFile) + FormatLine(r.value.0, r.value.1, odometerText)
      ensures r.Success? && Terminated(old(maintenanceFile)) && Storable(r.value.1) ==>
                maintenanceTasks == old(maintenanceTasks) + [MaintenanceTask(r.value.0, r.value.1, odometerText.Value())]
    {
      r := ValidateMaintenanceInput(input);
      if r.Success? {
        AppendMaintenanceTask(r.value.0, r.value.1, odometerText);
      }
    }
  }
}
