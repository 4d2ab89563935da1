/**
 * The GPS watchdog that runs every two seconds: the signal counts as present
 * while a fix has been received and the latest one is less than ten seconds
 * old, and the screen is refreshed only when that verdict changes.
 */
module Watchdog {
  /** A fix older than this many milliseconds means the signal is lost. */
  const GpsTimeoutMs: int := 10000

  /** The verdict of one check at time `now`. */
  predicate HasSignal(hasFix: bool, lastFixTime: int, now: int) {
    hasFix && now - lastFixTime < GpsTimeoutMs
  }

  /** As time passes without a new fix, a lost signal is never regained. */
  lemma SignalOnlyFades(hasFix: bool, lastFixTime: int, now: int, later: int)
    requires now <= later && !HasSignal(hasFix, lastFixTime, now)
    ensures !HasSignal(hasFix, lastFixTime, later)
  {
  }

  /** The signal shown and whether the screen is refreshed, after one check. */
  function Check(shown: bool, hasFix: bool, lastFixTime: int, now: int): (r: (bool, bool))
    ensures r.0 == HasSignal(hasFix, lastFixTime, now)
    ensures r.1 <==> r.0 != shown
  {
    var signal := HasSignal(hasFix, lastFixTime, now);
    if signal != shown then (signal, true) else (shown, false)
  }

  /** How many refreshes a series of checks makes, without a new fix in between. */
  function Refreshes(shown: bool, hasFix: bool, lastFixTime: int, nows: seq<int>): nat
    decreases |nows|
  {
    if nows == [] then 0
    else
      var r := Check(shown, hasFix, lastFixTime, nows[0]);
      (if r.1 then 1 else 0) + Refreshes(r.0, hasFix, lastFixTime, nows[1..])
  }

  predicate Nondecreasing(nows: seq<int>) {
    forall i, j | 0 <= i < j < |nows| :: nows[i] <= nows[j]
  }

  /** Once lost, and with the clock going forward, no check refreshes the screen again. */
  lemma {:induction false} LostStaysQuiet(hasFix: bool, lastFixTime: int, nows: seq<int>, before: int)
    requires Nondecreasing(nows) && !HasSignal(hasFix, lastFixTime, before)
    requires forall i | 0 <= i < |nows| :: before <= nows[i]
    ensures Refreshes(false, hasFix, lastFixTime, nows) == 0
  {
    if nows != [] {
      SignalOnlyFades(hasFix, lastFixTime, before, nows[0]);
      LostStaysQuiet(hasFix, lastFixTime, nows[1..], nows[0]);
    }
  }

  /**
   * Between two fixes, with the clock going forward, the screen is refreshed
   * at most once: when the signal is lost. A fix shows the signal, so the
   * checks after it start from a shown signal (or from a lost one that the
   * first check confirms).
   */
  lemma {:induction false} AtMostOneLoss(shown: bool, hasFix: bool, lastFixTime: int, nows: seq<int>)
    requires Nondecreasing(nows)
    requires shown || nows == [] || !HasSignal(hasFix, lastFixTime, nows[0])
    ensures Refreshes(shown, hasFix, lastFixTime, nows) <= 1
  {
    if nows != [] {
      var rest := nows[1..];
      if !HasSignal(hasFix, lastFixTime, nows[0]) {
        LostStaysQuiet(hasFix, lastFixTime, rest, nows[0]);
      } else {
        AtMostOneLoss(shown, hasFix, lastFixTime, rest);
      }
    }
  }
}
