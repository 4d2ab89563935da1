# GPS Speedometer core, modelled in Dafny

This project models the logic at the heart of the GPS Speedometer Android
app's main activity (`MainActivity.kt`):

- **Trip tracker** (`Trip`). A trip starts once 300 m have been covered at
  more than 5 km/h. From then on, every fix that moved adds its distance to
  both the trip and the odometer. The tracker also keeps the top speed and
  refreshes the average speed at each new whole kilometre.
- **Radar proximity engine** (`Radar`). It finds the strictly nearest stored
  radar within 300 m. It announces each radar in the zone at most once every
  30 s, keyed by radar id. The continuous beep starts when a new nearest radar
  is met, keeps going while the driver approaches, and stops once the driver
  is 100 m beyond the closest point reached. The pause between beeps goes
  from 500 ms at the radar to 2000 ms at 300 m.
- **Maintenance monitor** (`Maintenance`). It covers:
  - the `maintenance.csv` line format and its reader;
  - the default file;
  - the fire-once threshold check (a due task is announced once, then its
    flag is kept);
  - the validation done by the "Add Maintenance Task" and "Set Odometer"
    dialogs.
- **GPS watchdog** (`Watchdog`). The signal is present while the latest fix is
  under 10 s old. The shown signal, and the screen, change only when that
  verdict changes.
- **Activity state** (`Controller.SpeedometerController`). This is one class
  whose fields are the activity's fields. Its methods are the handlers:
  `OnLocationChanged`, `ProcessRadars`, `GpsCheck`, `SetOdometer`, the
  maintenance file operations and the two dialogs. Each method is proved
  against the pure functions above.
- **Kotlin library helpers** (`Text`). The library functions the core relies
  on are modelled here:
  - `trim`;
  - `split` and `split(limit = 2)`;
  - `toIntOrNull`;
  - the plain-decimal part of `toFloatOrNull`;
  - `Int.toString` and `Float.toString` (for plain decimals);
  - the line splitting of `BufferedReader`.

These inputs are parameters of the handlers:

- the wall clock (`now`, in milliseconds);
- the distance between two fixes;
- each radar's distance from the fix;
- the stored odometer;
- the contents of the maintenance file;
- the preference flags.

Sounds, speech and toasts are modelled as the announcements the handlers
return.

## Model

| member | source | states |
|---|---|---|
| Text.Split | app/src/main/java/com/example/gps_speedometer/MainActivity.kt:428 | `split(",")` yields at least one piece, and no piece holds the separator |
| Text.Trim | app/src/main/java/com/example/gps_speedometer/MainActivity.kt:432 | `trim()` returns a slice of the input with only blanks cut before and after it, and no blank at either end of the result |
| Text.Lines | app/src/main/java/com/example/gps_speedometer/MainActivity.kt:425-426 | the lines `BufferedReader` yields hold no line break, and a non-empty text has at least one line |
| Text.ParseFloat | app/src/main/java/com/example/gps_speedometer/MainActivity.kt:440 | `toFloatOrNull` yields a negative number only for a text whose first non-blank character is a minus sign |
| Text.FormatInt | app/src/main/java/com/example/gps_speedometer/MainActivity.kt:457 | `Int.toString` prints at least one character, digits and a minus sign only, starting with a digit exactly for a non-negative value |
| Text.Utf16Length | app/src/main/java/com/example/gps_speedometer/MainActivity.kt:1323 | Kotlin's `length` lies between the number of characters and twice it, and equals it when no character lies beyond the Basic Multilingual Plane |
| Text.JoinSplit | app/src/main/java/com/example/gps_speedometer/MainActivity.kt:428 | joining the pieces with the separator gives the original text back |
| Text.SplitJoin | app/src/main/java/com/example/gps_speedometer/MainActivity.kt:428 | splitting pieces joined by a separator they lack gives the same pieces back |
| Text.SplitOnce | app/src/main/java/com/example/gps_speedometer/MainActivity.kt:1318 | `split(",", limit = 2)` gives one piece exactly when there is no comma; otherwise the text is first piece + comma + rest, and the first piece has no comma |
| Text.TrimTwice | app/src/main/java/com/example/gps_speedometer/MainActivity.kt:1317-1321 | trimming an already trimmed text changes nothing |
| Text.ParseInt | app/src/main/java/com/example/gps_speedometer/MainActivity.kt:431 | `toIntOrNull` yields only values within 32 bits |
| Text.IntRoundTrip | app/src/main/java/com/example/gps_speedometer/MainActivity.kt:431 | every 32-bit Int, printed, is read back as itself |
| Text.FormatIntSixChars | app/src/main/java/com/example/gps_speedometer/MainActivity.kt:1323 | an Int prints in at most 6 characters exactly when it lies in -99999..999999 |
| Text.DecimalRoundTrip | app/src/main/java/com/example/gps_speedometer/MainActivity.kt:440 | a non-negative Float printed in plain notation is read back as its value |
| Text.LinesAppend | app/src/main/java/com/example/gps_speedometer/MainActivity.kt:426 | the lines of a text that ends with a line feed, followed by more text, are the lines of the first part followed by the lines of the second |
| Maintenance.ParseLine | app/src/main/java/com/example/gps_speedometer/MainActivity.kt:428-450 | a parsed task comes from a line of 2 or 3 fields: its offset is the Int read from the first field, its message the trimmed second field (non-empty), its odometer the number read from a third field or 0 for a 2-field line; a line whose first field is not an Int, or whose third field is not a number, is dropped; conversely a 2- or 3-field line whose offset is an Int, whose trimmed message is not blank and whose third field (if any) is a number is always read |
| Maintenance.ParseLines | app/src/main/java/com/example/gps_speedometer/MainActivity.kt:427-447 | `mapNotNull` gives at most one task per line, each with a 32-bit offset and a non-empty message |
| Maintenance.ParseFile | app/src/main/java/com/example/gps_speedometer/MainActivity.kt:422-453 | a file reads as at most one task per line, each with a 32-bit offset and a non-empty message |
| Maintenance.FormatLine | app/src/main/java/com/example/gps_speedometer/MainActivity.kt:457 | the written line ends with a line feed, so the file stays terminated |
| Maintenance.ParseLinesAppend | app/src/main/java/com/example/gps_speedometer/MainActivity.kt:427-451 | reading two runs of lines gives the tasks of the first, then those of the second (`mapNotNull` keeps order) |
| Maintenance.ParseFileAppend | app/src/main/java/com/example/gps_speedometer/MainActivity.kt:426-451 | reading a text that ends with a line feed, followed by more text, gives the tasks of both parts in order |
| Maintenance.ParseOneLine | app/src/main/java/com/example/gps_speedometer/MainActivity.kt:422-453 | a file of one terminated line holds exactly that line's task, or none |
| Maintenance.ParseUnterminatedLine | app/src/main/java/com/example/gps_speedometer/MainActivity.kt:422-453 | a non-empty last line without a line feed is read like a terminated one |
| Maintenance.ManyFieldsUnread | app/src/main/java/com/example/gps_speedometer/MainActivity.kt:445 | a line of four or more fields is dropped |
| Maintenance.BlankMessageUnread | app/src/main/java/com/example/gps_speedometer/MainActivity.kt:440-442 | a three-field line with a blank message is dropped |
| Maintenance.WrittenFields | app/src/main/java/com/example/gps_speedometer/MainActivity.kt:457 | a written line is one line, and its fields are the offset, the message's own pieces and the odometer |
| Maintenance.LineRoundTrip | app/src/main/java/com/example/gps_speedometer/MainActivity.kt:455-457 | a line written for a storable message (non-empty, trimmed, no comma, no line break) reads back as the same task |
| Maintenance.LineDropped | app/src/main/java/com/example/gps_speedometer/MainActivity.kt:457 | a line written for a blank message, or for one with a comma, is dropped by the reader |
| Maintenance.AppendRoundTrip | app/src/main/java/com/example/gps_speedometer/MainActivity.kt:455-458 | appending a storable task to a file that ends with a line feed adds exactly that task after the file's tasks |
| Maintenance.AppendDropped | app/src/main/java/com/example/gps_speedometer/MainActivity.kt:455-458 | appending a blank or comma-holding message to such a file leaves its tasks as they were |
| Maintenance.AppendEffect | app/src/main/java/com/example/gps_speedometer/MainActivity.kt:455-458 | appending any line keeps the file terminated; to a terminated file, a storable task is added at the end of its tasks, and a blank or comma-holding one adds none |
| Maintenance.DefaultContentShape | app/src/main/java/com/example/gps_speedometer/MainActivity.kt:406-414 | the default file as written is the first five lines, each terminated, followed by the spark-plug line with no line feed; the corrected one terminates that line too |
| Maintenance.ShortLineReads | app/src/main/java/com/example/gps_speedometer/MainActivity.kt:429-435 | a default-style `offset,message` line of a storable message reads as that task at odometer 0 |
| Maintenance.SparkPlugLine | app/src/main/java/com/example/gps_speedometer/MainActivity.kt:413 | the last default line reads as the 20000 km spark-plug task |
| Maintenance.DefaultContentAsWrittenReads | app/src/main/java/com/example/gps_speedometer/MainActivity.kt:404-420 | read alone, the default file as written gives the first five tasks followed by the spark-plug task |
| Maintenance.AppendToDefaultAsWrittenLosesTasks | app/src/main/java/com/example/gps_speedometer/MainActivity.kt:406-414 | as written, the first task appended to a fresh default file is glued to its last line, and both tasks are lost on reload |
| Maintenance.GluedLineUnread | app/src/main/java/com/example/gps_speedometer/MainActivity.kt:428-450 | a two-field line glued to a written three-field line has at least four fields and is dropped |
| Maintenance.DefaultContentReadsAlike | app/src/main/java/com/example/gps_speedometer/MainActivity.kt:406-414 | the corrected default file reads exactly like the one written |
| Maintenance.AppendToDefaultKeepsTasks | app/src/main/java/com/example/gps_speedometer/MainActivity.kt:455-458 | a storable task appended to the corrected default file is read back after the six defaults |
| Maintenance.CheckThresholds | app/src/main/java/com/example/gps_speedometer/MainActivity.kt:473-491 | the new flags are the old flags plus every due task; a task is announced exactly when it is due and not yet flagged; no task is announced twice |
| Maintenance.AlertsInTaskOrder | app/src/main/java/com/example/gps_speedometer/MainActivity.kt:474-490 | the announcements come out in the order of the task list |
| Maintenance.FiresAtMostOnce | app/src/main/java/com/example/gps_speedometer/MainActivity.kt:473-491 | over any series of checks, each task is announced at most once, never if it was already flagged, and flags are never cleared |
| Maintenance.ThresholdExample | app/src/main/java/com/example/gps_speedometer/MainActivity.kt:475-477 | a 1000 km task created at 500 km is silent at 1499.9, announced at 1500, and silent once flagged |
| Maintenance.ValidateMaintenanceInput | app/src/main/java/com/example/gps_speedometer/MainActivity.kt:1317-1324 | the format error happens exactly when the trimmed input has no comma; an accepted entry is the Int read from the trimmed text before the first comma, in -99999..999999, and the trimmed rest, of at most 100 UTF-16 units (Kotlin's `length`); conversely every entry whose offset reads as an Int in that range and whose trimmed message fits is accepted |
| Maintenance.DialogAccepts | app/src/main/java/com/example/gps_speedometer/MainActivity.kt:1317-1324 | `offset,message` with an offset in range and a message of at most 100 UTF-16 units, with no blank at either end, is accepted as typed |
| Maintenance.DialogAcceptsUnstorableMessage | app/src/main/java/com/example/gps_speedometer/MainActivity.kt:1317-1324 | the dialog accepts a message with a comma, yet the line written for it is dropped by the reader |
| Maintenance.ValidateOdometerInput | app/src/main/java/com/example/gps_speedometer/MainActivity.kt:1374-1376 | an entry is accepted exactly when the trimmed text parses as a number that is not negative, and the accepted value is that number |
| Maintenance.OdometerInputRoundTrip | app/src/main/java/com/example/gps_speedometer/MainActivity.kt:1374-1376 | a printed non-negative decimal is accepted as its value |
| Trip.TruncateToInt | app/src/main/java/com/example/gps_speedometer/MainActivity.kt:592 | `Float.toInt` rounds toward zero: the result is within 1 of the value, on the side of zero |
| Trip.TripStep | app/src/main/java/com/example/gps_speedometer/MainActivity.kt:546-603 | a started trip stays started, and the current speed is the fix's speed in km/h |
| Trip.BeforeStart | app/src/main/java/com/example/gps_speedometer/MainActivity.kt:551-567 | before the start the odometer is untouched; the fix that starts the trip counts toward the start and clears the pending distance |
| Trip.AfterStart | app/src/main/java/com/example/gps_speedometer/MainActivity.kt:571-602 | after the start, the trip and the odometer grow by the same amount and the start time is kept |
| Trip.UpdateAverage | app/src/main/java/com/example/gps_speedometer/MainActivity.kt:592-599 | only the last whole kilometre and the average speed change, and the last whole kilometre never goes down |
| Trip.InitialInv | app/src/main/java/com/example/gps_speedometer/MainActivity.kt:198-203 | the launch state (stored odometer, saved trip distance, no trip) satisfies the trip invariant |
| Trip.StartExact | app/src/main/java/com/example/gps_speedometer/MainActivity.kt:551-566 | before the start, a trip starts exactly when a fix counts and brings the pending distance to 300 m. It then holds that distance in km, starts at the fix's time, and the fix's speed is its maximum. Otherwise only the pending distance grows. The odometer is untouched |
| Trip.AccumulateExact | app/src/main/java/com/example/gps_speedometer/MainActivity.kt:571-590 | once started, trip and odometer grow by the same amount: the fix's distance in km when it counts, else nothing. The maximum speed becomes the larger of the old maximum and this fix's speed |
| Trip.AverageOnNewKilometre | app/src/main/java/com/example/gps_speedometer/MainActivity.kt:592-599 | both directions: the average changes only at a new whole kilometre after elapsed time; a counted fix reaching a new whole kilometre records it and, once time has elapsed, sets the average to trip distance over elapsed hours; otherwise neither changes |
| Trip.StepKeepsInv | app/src/main/java/com/example/gps_speedometer/MainActivity.kt:546-603 | every plausible fix keeps the invariant: non-negative distances, pending under 300 m before the start, maximum at least the current speed, last kilometre at most the truncated trip distance |
| Trip.RunKeepsInv | app/src/main/java/com/example/gps_speedometer/MainActivity.kt:533-603 | the invariant holds after any series of plausible fixes |
| Trip.StartedStays | app/src/main/java/com/example/gps_speedometer/MainActivity.kt:571-603 | a started trip is never reset, and odometer minus trip distance stays constant |
| Trip.TotalNeverDecreases | app/src/main/java/com/example/gps_speedometer/MainActivity.kt:584-588 | with plausible fixes, the odometer never goes back |
| Trip.TripNeverShrinks | app/src/main/java/com/example/gps_speedometer/MainActivity.kt:571-590 | with plausible fixes, the distance of a started trip never goes back |
| Trip.MaxSpeedOf | app/src/main/java/com/example/gps_speedometer/MainActivity.kt:573-575 | the running maximum is at least every fix's speed and is one of them, or the starting value |
| Trip.MaxIsRunningMax | app/src/main/java/com/example/gps_speedometer/MainActivity.kt:572-575 | after the start, the maximum speed is the running maximum of the fixes' speeds |
| Trip.FastDistance | app/src/main/java/com/example/gps_speedometer/MainActivity.kt:552-556 | the distance counted toward the start is never negative |
| Trip.PendingIsFastDistance | app/src/main/java/com/example/gps_speedometer/MainActivity.kt:551-567 | while no trip has started, the pending distance is exactly the distance of the fixes faster than 5 km/h, and trip and odometer are untouched |
| Trip.StartNeedsDistance | app/src/main/java/com/example/gps_speedometer/MainActivity.kt:552-558 | a trip starts only after at least 300 m covered at more than 5 km/h |
| Trip.SlowNeverStarts | app/src/main/java/com/example/gps_speedometer/MainActivity.kt:552 | fixes at 5 km/h or less change nothing but the current speed |
| Radar.NearestIndex | app/src/main/java/com/example/gps_speedometer/MainActivity.kt:616-632 | there is a nearest radar exactly when some radar is within 300 m; it is within the zone, no farther than any other in the zone, and strictly nearer than every earlier one (the first of equals wins) |
| Radar.NearestIsUnique | app/src/main/java/com/example/gps_speedometer/MainActivity.kt:616-632 | any radar with those properties is the one the scan picks |
| Radar.Notify | app/src/main/java/com/example/gps_speedometer/MainActivity.kt:625-647 | a radar is announced exactly when it is seen in the zone and its last announcement (0 if never) is more than 30 s old. Each radar is announced at most once per scan. Announced radars get time `now`; every other entry is untouched |
| Radar.AnnounceKeeps | app/src/main/java/com/example/gps_speedometer/MainActivity.kt:634-639 | checking one more reading against the times so far keeps every promise of `Notify` for the readings extended by it |
| Radar.ScanKeepsLog | app/src/main/java/com/example/gps_speedometer/MainActivity.kt:634-639 | one scan keeps announcements of the same radar more than 30 s apart, and stored times no older than the logged ones |
| Radar.LogAgreesAfterScans | app/src/main/java/com/example/gps_speedometer/MainActivity.kt:634-639 | after any chronological series of scans, the announcement log and the stored times agree |
| Radar.CooldownHolds | app/src/main/java/com/example/gps_speedometer/MainActivity.kt:634-639 | with a clock that never goes back, two announcements of the same radar are more than 30 s apart |
| Radar.InitialBeepInv | app/src/main/java/com/example/gps_speedometer/MainActivity.kt:146-150 | the initial beep fields satisfy the hysteresis invariant |
| Radar.BeepStep | app/src/main/java/com/example/gps_speedometer/MainActivity.kt:656-690 | with no radar in the zone the beep is off and nothing is tracked; otherwise the nearest radar is tracked at its distance |
| Radar.BeepStepKeepsInv | app/src/main/java/com/example/gps_speedometer/MainActivity.kt:656-690 | every step keeps the invariant: the beep runs only with a tracked radar; the minimum is at most the last distance; the stop point is the minimum + 100 m; with no stop point the beep is on; with one, the beep is on exactly while the last distance is short of it |
| Radar.BeepOnEntry | app/src/main/java/com/example/gps_speedometer/MainActivity.kt:656-690 | outside every zone the beep is off and no radar is tracked; a new nearest radar restarts tracking at its distance with the beep on |
| Radar.SameRadarTransitions | app/src/main/java/com/example/gps_speedometer/MainActivity.kt:664-683 | same radar: approaching keeps the beep on, clears the stop point and makes the minimum the smaller of the old minimum and the distance; receding keeps the minimum, sets the stop point to the minimum + 100 m and beeps exactly while short of it; the last distance is the new one; an unchanged distance changes nothing |
| Radar.SilencedStaysSilent | app/src/main/java/com/example/gps_speedometer/MainActivity.kt:674-681 | once silenced while moving away, the beep stays off while the distance does not shrink |
| Radar.BeepRunKeepsInv | app/src/main/java/com/example/gps_speedometer/MainActivity.kt:656-690 | the invariant holds after any series of scans |
| Radar.DrivePast | app/src/main/java/com/example/gps_speedometer/MainActivity.kt:656-690 | approaching 280 → 50 m beeps throughout with minimum 50 m; receding beeps at 80 and 120 m and stops at 160 m, with minimum 50 m and stop point 150 m |
| Radar.BeepDelay | app/src/main/java/com/example/gps_speedometer/MainActivity.kt:746-748 | the pause is between 500 and 2000 ms, 500 at or below 0 m and 2000 at or beyond 300 m |
| Radar.BeepDelayMonotone | app/src/main/java/com/example/gps_speedometer/MainActivity.kt:746-748 | the closer the radar, the shorter the pause |
| Watchdog.SignalOnlyFades | app/src/main/java/com/example/gps_speedometer/MainActivity.kt:173 | without a new fix, a lost signal is not regained as time passes |
| Watchdog.Check | app/src/main/java/com/example/gps_speedometer/MainActivity.kt:172-177 | the shown signal becomes the verdict, and the screen is refreshed exactly when it changed |
| Watchdog.LostStaysQuiet | app/src/main/java/com/example/gps_speedometer/MainActivity.kt:170-179 | once lost, later checks make no refresh |
| Watchdog.AtMostOneLoss | app/src/main/java/com/example/gps_speedometer/MainActivity.kt:170-179 | between two fixes, with the clock going forward and a shown signal (or one the first check finds lost), checks refresh the screen at most once |
| Controller.ScanRadars | app/src/main/java/com/example/gps_speedometer/MainActivity.kt:608-648 | the scan loop's result is the nearest radar of `NearestIndex` (id, distance, limit) and the announcements and times of `Notify` |
| Controller.SpeedometerController.constructor | app/src/main/java/com/example/gps_speedometer/MainActivity.kt:195-203 | start-up: the stored odometer, the saved trip distance, no trip, no fix, the stored maintenance file or else the corrected default file, its tasks loaded |
| Controller.SpeedometerController.CheckMaintenanceThresholds | app/src/main/java/com/example/gps_speedometer/MainActivity.kt:473-491 | the flags and the announcements are those of `CheckThresholds`; nothing else changes |
| Controller.SpeedometerController.OnLocationChanged | app/src/main/java/com/example/gps_speedometer/MainActivity.kt:533-603 | records the fix, shows the signal and moves the trip fields by `TripStep`; when a started trip counts the fix, it checks thresholds at the new odometer; keeps the invariants |
| Controller.SpeedometerController.TripBeforeStart | app/src/main/java/com/example/gps_speedometer/MainActivity.kt:551-567 | the trip fields move by `BeforeStart`, the pre-start part of `TripStep` |
| Controller.SpeedometerController.TripAfterStart | app/src/main/java/com/example/gps_speedometer/MainActivity.kt:571-602 | the trip fields move by `AfterStart`, the started part of `TripStep`, and the threshold check runs exactly when the fix counts |
| Controller.SpeedometerController.AddDistance | app/src/main/java/com/example/gps_speedometer/MainActivity.kt:584-599 | trip and odometer grow by the same amount, the thresholds are checked at the new odometer as `CheckThresholds` says, and the average fields then move by `Trip.UpdateAverage` |
| Controller.SpeedometerController.UpdateAverage | app/src/main/java/com/example/gps_speedometer/MainActivity.kt:592-599 | the trip fields move by `Trip.UpdateAverage`, whose effect `Trip.AverageOnNewKilometre` states |
| Controller.SpeedometerController.ProcessRadars | app/src/main/java/com/example/gps_speedometer/MainActivity.kt:606-690 | announcements and times follow `Notify`; the zone flag says whether a radar is within 300 m; the beep fields move by `BeepStep` on the nearest radar; the shown limit is the nearest radar's |
| Controller.SpeedometerController.UpdateBeep | app/src/main/java/com/example/gps_speedometer/MainActivity.kt:656-690 | the beep fields move by `BeepStep`, and the shown limit is set in the zone and cleared outside it |
| Controller.SpeedometerController.GpsCheck | app/src/main/java/com/example/gps_speedometer/MainActivity.kt:170-177 | the signal and the refresh are those of `Watchdog.Check`; nothing else changes |
| Controller.SpeedometerController.SetOdometer | app/src/main/java/com/example/gps_speedometer/MainActivity.kt:840-849 | a value that is not negative becomes the odometer and the thresholds are checked at it; a negative one changes nothing |
| Controller.SpeedometerController.ConfirmOdometerDialog | app/src/main/java/com/example/gps_speedometer/MainActivity.kt:1374-1377 | an entry passes to `setOdometer` exactly when the dialog accepts it |
| Controller.SpeedometerController.LoadMaintenanceTasks | app/src/main/java/com/example/gps_speedometer/MainActivity.kt:422-453 | the task list becomes what the file reads as |
| Controller.SpeedometerController.AppendMaintenanceTask | app/src/main/java/com/example/gps_speedometer/MainActivity.kt:455-462 | the file grows by the written line and is reloaded. If the file ended with a line feed, a storable task is added at the end of the list, and a blank or comma-holding one adds nothing |
| Controller.SpeedometerController.ConfirmMaintenanceDialog | app/src/main/java/com/example/gps_speedometer/MainActivity.kt:1317-1324 | the result is the dialog's verdict; a rejected entry changes nothing; an accepted one is appended with the given odometer text |

## Left out

- Float32 arithmetic: speeds, distances and the odometer are exact reals, so Float rounding and overflow are not modelled.
- Text.ParseFloat: covers only plain decimals with an optional sign and point. Exponents, `NaN`, `Infinity`, hexadecimal forms and the `f`/`d` suffixes read as not a number here.
- Text.ParseInt: accepts ASCII digits only, while Kotlin's `toIntOrNull` also accepts other Unicode decimal digits.
- Text.Decimal: `Float.toString` is modelled only for the plain `whole.fraction` notation. The binary-to-decimal conversion and the `E` notation are not modelled. The odometer text written with a task is therefore a parameter of `ConfirmMaintenanceDialog`.
- Trip.TruncateToInt: does not model the saturation of `Float.toInt` at the 32-bit limits, since trip distances never come near them.
- The distance between fixes and to each radar (`distanceTo`, `distanceBetween`) is an input, not computed from coordinates.
- The radar database, the radar list and `addRadar` (which stores a radar at the last fix's position) are not part of this model; radars arrive as readings.
- The clock is a parameter. The 2-second rescheduling of the watchdog is not modelled; each tick is one call.
- The radar coroutine runs as a separate call (`ProcessRadars`) after `OnLocationChanged`, with its own time. Interleavings with other handlers are not modelled.
- The continuous beep loop, the ding, the speech and the toasts are not modelled. Their effect is the announcements returned, the beep switch, and Radar.BeepDelay for the pause.
- `onProviderDisabled` and `onStatusChanged` (the other writers of the signal) are not part of this model.
- Persistence of the odometer and trip distance (`DistancePrefs`, the saved instance) is not modelled. Their values are constructor parameters.
- Log files and the screenshot feature are not part of this model.
- File exceptions and the emptying of the list on a read error are not modelled. The maintenance file is a string that always exists once the activity has started.
- Maintenance.CheckThresholds: the preference key `shown_<offset>_<message>_<odometer>` is modelled as the task itself. Two tasks whose printed keys coincide but whose values differ are kept apart here.
- Maintenance.SparkPlugLine: only the last default line's contents are proved. The first five lines are used through the general lemmas.
- Controller.SpeedometerController.constructor: on a fresh install it writes the corrected default file (`Maintenance.DefaultContent`, every line terminated), not the one the source writes (`Maintenance.DefaultContentAsWritten`). The difference is the finding below, proved by `Maintenance.AppendToDefaultAsWrittenLosesTasks`.
- Controller.SpeedometerController.ConfirmMaintenanceDialog: the odometer text written with the task is a parameter, not tied to `totalDistance`, because an exact real odometer need not have a `Float.toString` rendering (see Text.Decimal).
- Controller.SpeedometerController.OnLocationChanged: requires a non-negative speed and distance, as the platform reports them.
- Controller.SpeedometerController.constructor: requires a non-negative stored odometer. Only `setOdometer` and the trip write it, and neither makes it negative.

## Findings

| source | as written | input that shows it | evidently intended | confidence | as-written member | corrected member |
|---|---|---|---|---|---|---|
| app/src/main/java/com/example/gps_speedometer/MainActivity.kt:406-414 | the default maintenance file is a `trimIndent()` block with no line feed after "20000,Replace spark plugs" | a fresh install, then adding "1000,Check tyres": the appended line is glued to the last default line, which then has four fields; both "Replace spark plugs" and the new task vanish on reload | every line of the default file ends with a line feed, so appended tasks start on their own line | high, not executed | Maintenance.AppendToDefaultAsWrittenLosesTasks | Maintenance.AppendToDefaultKeepsTasks |
