/** The stand-alone fall detector (accelerometer.js): a total acceleration
    below 3 m/s² starts a fall and records its start time; a reading above
    25 m/s² during a fall ends it and reports a fall when it lasted at least
    200 ms; any other reading ends the fall quietly. The clock (`Date.now()`)
    and the magnitude (`Math.sqrt` of the squared axes) are inputs; the
    reports `fallDetected` logs are collected in `reports`. */
module FallCheck {
  import opened Js

  const FallThreshold: real := 3.0
  const ImpactThreshold: real := 25.0
  const MinFallTime: int := 200

  /** One `fallDetected(duration, impactForce)` call. */
  datatype Report = Report(duration: int, impact: real)

  /** One axis of `accelerationIncludingGravity`. */
  datatype Axis = Value(v: real) | NullAxis | UndefinedAxis

  /** `acc.x || 0`: an undefined axis counts as 0 (so does 0 itself). */
  function OrZero(a: Axis): (r: real)
    ensures a.Value? ==> r == a.v
    ensures !a.Value? ==> r == 0.0
  {
    match a
    case Value(v) => v
    case _ => 0.0
  }

  /** The guard of `handleMotionEvent`: an acceleration object whose three
      axes are not null. An undefined axis passes. */
  predicate Usable(acc: Option<(Axis, Axis, Axis)>) {
    acc.Some? && !acc.value.0.NullAxis? && !acc.value.1.NullAxis? && !acc.value.2.NullAxis?
  }

  /** The state after `checkFall` is the one `Next` computes, with the report
      it calls for appended. */
  predicate Stepped(startTime: Option<int>, reports: seq<Report>, totalAccel: real, now: int,
                    startTime': Option<int>, reports': seq<Report>)
  {
    var r := Next(startTime, totalAccel, now);
    startTime' == r.0
    && reports' == reports + (if r.1 then [Report(now - startTime.value, totalAccel)] else [])
  }

  class Monitor {
    var falling: bool
    var startTime: Option<int>
    var reports: seq<Report>

    /** `falling` holds exactly when a start time is recorded. */
    ghost predicate Valid()
      reads this
    {
      falling <==> startTime.Some?
    }

    constructor ()
      ensures Valid() && !falling && startTime == None && reports == []
    {
      falling, startTime, reports := false, None, [];
    }

    /** `checkFall` with the reading `totalAccel` at time `now`. */
    method CheckFall(totalAccel: real, now: int)
      requires Valid()
      modifies this
      ensures Valid()
      ensures totalAccel < FallThreshold ==>
                falling && startTime == (if old(falling) then old(startTime) else Some(now))
                && reports == old(reports)
      ensures totalAccel >= FallThreshold && totalAccel > ImpactThreshold && old(falling) ==>
                var duration := now - old(startTime).value;
                && !falling && startTime == None
                && reports == old(reports) + (if duration >= MinFallTime then [Report(duration, totalAccel)] else [])
      ensures totalAccel >= FallThreshold && !(totalAccel > ImpactThreshold && old(falling)) ==>
                !falling && startTime == None && reports == old(reports)
      ensures Stepped(old(startTime), old(reports), totalAccel, now, startTime, reports)
    {
      if totalAccel < FallThreshold {
        if !falling {
          falling := true;
          startTime := Some(now);
        }
      } else if totalAccel > ImpactThreshold && falling {
        var duration := now - startTime.value;
        if duration >= MinFallTime {
          reports := reports + [Report(duration, totalAccel)];
        }
        falling := false;
        startTime := None;
      } else {
        falling := false;
        startTime := None;
      }
    }

    /** `handleMotionEvent`: an event without usable axes changes nothing;
        otherwise the magnitude of the axes (nulls and undefined taken as 0)
        goes to `checkFall`. */
    method HandleMotionEvent(acc: Option<(Axis, Axis, Axis)>, now: int, magnitude: (real, real, real) -> real)
      requires Valid()
      modifies this
      ensures Valid()
      ensures !Usable(acc) ==> falling == old(falling) && startTime == old(startTime) && reports == old(reports)
      ensures Usable(acc) ==>
                Stepped(old(startTime), old(reports), magnitude(OrZero(acc.value.0), OrZero(acc.value.1), OrZero(acc.value.2)),
                        now, startTime, reports)
    {
      if Usable(acc) {
        var (x, y, z) := acc.value;
        CheckFall(magnitude(OrZero(x), OrZero(y), OrZero(z)), now);
      }
    }

    /** `stopFallDetection`: the state is reset. */
    method StopFallDetection()
      modifies this
      ensures Valid() && !falling && startTime == None && reports == old(reports)
    {
      falling := false;
      startTime := None;
    }
  }

  /** The detector as a function of its state, for reasoning about runs:
      the new `(falling, startTime)` and whether a report is made. */
  function Next(startTime: Option<int>, totalAccel: real, now: int): (r: (Option<int>, bool))
    ensures r.1 ==> startTime.Some? && totalAccel > ImpactThreshold && now - startTime.value >= MinFallTime
    ensures r.1 ==> r.0 == None
  {
    if totalAccel < FallThreshold then (if startTime.None? then Some(now) else startTime, false)
    else if totalAccel > ImpactThreshold && startTime.Some? then (None, now - startTime.value >= MinFallTime)
    else (None, false)
  }

  /** Reports made by a run of readings `(totalAccel, now)` from `startTime`. */
  function Reports(startTime: Option<int>, readings: seq<(real, int)>): nat
    decreases |readings|
  {
    if readings == [] then 0
    else
      var r := Next(startTime, readings[0].0, readings[0].1);
      (if r.1 then 1 else 0) + Reports(r.0, readings[1..])
  }

  /** The readings of a run that are below the fall threshold. */
  function FallStarts(readings: seq<(real, int)>): nat
    decreases |readings|
  {
    if readings == [] then 0
    else (if readings[0].0 < FallThreshold then 1 else 0) + FallStarts(readings[1..])
  }

  /** Each report needs a free-fall reading before it: a run reports no more
      falls than it has readings below the fall threshold, plus one for a
      fall already under way. */
  lemma {:induction false} ReportsNeedFalls(startTime: Option<int>, readings: seq<(real, int)>)
    ensures Reports(startTime, readings) <= FallStarts(readings) + (if startTime.Some? then 1 else 0)
    decreases |readings|
  {
    if readings != [] {
      var r := Next(startTime, readings[0].0, readings[0].1);
      ReportsNeedFalls(r.0, readings[1..]);
    }
  }

  /** A fall that lasted less than 200 ms is never reported, however hard
      the impact. */
  lemma ShortFallNotReported(start: int, totalAccel: real, now: int)
    requires now - start < MinFallTime
    ensures !Next(Some(start), totalAccel, now).1
  {
  }
}
