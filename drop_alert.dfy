/** The drop detector of the accelerometer demo
    (sandbox/Dom_stuff/accelerometer-demo/app.js, the `reading` listener):
    consecutive readings whose magnitude is below 0.5 m/s² are counted; at
    the tenth such reading the drop alert is triggered once and stays
    active until a normal reading resets the count and silences it. The
    magnitude of each reading is an input; the alerts `triggerDropAlert`
    raises are counted in `triggers`. */
module DropAlert {
  const FreeFallThreshold: real := 0.5
  const MinDropReadings: nat := 10

  /** `freeFallReadingCount` and `isAlertActive`. */
  datatype Counter = Counter(count: nat, alertActive: bool)

  /** The listener's effect on the state, and whether it triggers the alert. */
  function Step(c: Counter, magnitude: real): (r: (Counter, bool))
    ensures magnitude < FreeFallThreshold ==> r.0.count == c.count + 1
    ensures magnitude >= FreeFallThreshold ==> r.0.count == 0 && !r.0.alertActive && !r.1
    ensures r.1 <==> r.0.count >= MinDropReadings && (magnitude < FreeFallThreshold ==> !c.alertActive)
    ensures r.1 ==> r.0.alertActive
  {
    var counted := if magnitude < FreeFallThreshold then Counter(c.count + 1, c.alertActive) else Counter(0, false);
    if counted.count >= MinDropReadings && !counted.alertActive then (counted.(alertActive := true), true)
    else (counted, false)
  }

  /** An active alert is only ever the result of ten low readings in a row. */
  predicate Consistent(c: Counter) {
    c.alertActive ==> c.count >= MinDropReadings
  }

  lemma StepConsistent(c: Counter, magnitude: real)
    requires Consistent(c)
    ensures Consistent(Step(c, magnitude).0)
  {
  }

  /** The state after a run of readings and the number of alerts triggered. */
  function Run(c: Counter, magnitudes: seq<real>): (Counter, nat)
    decreases |magnitudes|
  {
    if magnitudes == [] then (c, 0)
    else
      var s := Step(c, magnitudes[0]);
      var rest := Run(s.0, magnitudes[1..]);
      (rest.0, rest.1 + (if s.1 then 1 else 0))
  }

  predicate AllLow(magnitudes: seq<real>) {
    forall i :: 0 <= i < |magnitudes| ==> magnitudes[i] < FreeFallThreshold
  }

  /** During an unbroken run of low readings the alert triggers at most once,
      and never again once it is active; the count grows by one per reading. */
  lemma {:induction false} OneTriggerPerRun(c: Counter, magnitudes: seq<real>)
    requires AllLow(magnitudes)
    ensures Run(c, magnitudes).0.count == c.count + |magnitudes|
    ensures Run(c, magnitudes).1 <= 1
    ensures c.alertActive ==> Run(c, magnitudes).1 == 0 && Run(c, magnitudes).0.alertActive
    ensures Run(c, magnitudes).1 == 1 ==> Run(c, magnitudes).0.alertActive
    decreases |magnitudes|
  {
    if magnitudes != [] {
      var s := Step(c, magnitudes[0]);
      OneTriggerPerRun(s.0, magnitudes[1..]);
    }
  }

  /** From rest, a run of `n` low readings triggers the alert exactly when
      `n` reaches ten. */
  lemma {:induction false} RunFromRest(magnitudes: seq<real>)
    requires AllLow(magnitudes)
    ensures Run(Counter(0, false), magnitudes).1 == (if |magnitudes| >= MinDropReadings then 1 else 0)
  {
    LowRunTriggers(Counter(0, false), magnitudes);
  }

  /** A run of low readings that starts with the alert silenced triggers once
      exactly when the count reaches ten during the run. */
  lemma {:induction false} LowRunTriggers(c: Counter, magnitudes: seq<real>)
    requires AllLow(magnitudes) && !c.alertActive && c.count < MinDropReadings
    ensures Run(c, magnitudes).1 == (if c.count + |magnitudes| >= MinDropReadings then 1 else 0)
    decreases |magnitudes|
  {
    if magnitudes != [] {
      var s := Step(c, magnitudes[0]);
      if s.1 {
        OneTriggerPerRun(s.0, magnitudes[1..]);
      } else {
        LowRunTriggers(s.0, magnitudes[1..]);
      }
    }
  }

  class DropDetector {
    var count: nat
    var alertActive: bool
    var triggers: nat

    function State(): Counter
      reads this
    {
      Counter(count, alertActive)
    }

    ghost predicate Valid()
      reads this
    {
      Consistent(State())
    }

    constructor ()
      ensures Valid() && State() == Counter(0, false) && triggers == 0
    {
      count, alertActive, triggers := 0, false, 0;
    }

    /** One `reading` event with the given magnitude. */
    method Reading(magnitude: real) returns (triggered: bool)
      requires Valid()
      modifies this
      ensures Valid()
      ensures (State(), triggered) == Step(old(State()), magnitude)
      ensures triggers == old(triggers) + (if triggered then 1 else 0)
    {
      if magnitude < FreeFallThreshold {
        count := count + 1;
      } else {
        count := 0;
        if alertActive {
          alertActive := false;
        }
      }
      triggered := false;
      if count >= MinDropReadings && !alertActive {
        triggers := triggers + 1;
        triggered := true;
        alertActive := true;
      }
    }
  }
}
