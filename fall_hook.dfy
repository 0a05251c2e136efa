/** The fall detector of the client hook
    (client/src/hooks/useAccelerometer.js): a reading below 0.5 g starts a
    free fall and arms a 2-second window timer; a reading above 6 g during a
    free fall is a detected fall; a reading between 0.8 g and 1.2 g during a
    free fall ends it quietly; the timer ends the free fall when it fires.
    Each reading is the total acceleration in g (the sensor event's
    magnitude divided by standard gravity), or `None` when the event has no
    acceleration object. Timer handles are numbered from 1, as browsers
    number them; `live` holds the handles whose callback is still pending. */
module FallHook {
  import opened Js

  const FreefallThresholdG: real := 0.5
  const ImpactThresholdG: real := 6.0
  const FreefallWindowMs: nat := 2000
  const SettledLowG: real := 0.8
  const SettledHighG: real := 1.2

  /** What `handleMotion` does with one reading. */
  datatype Action = Ignore | StartFall | Detect | Settle

  function Classify(falling: bool, totalG: Option<real>): (a: Action)
    ensures a == StartFall <==> !falling && totalG.Some? && totalG.value < FreefallThresholdG
    ensures a == Detect <==> falling && totalG.Some? && totalG.value > ImpactThresholdG
    ensures a == Settle <==> falling && totalG.Some? && SettledLowG <= totalG.value <= SettledHighG
  {
    match totalG
    case None => Ignore
    case Some(g) =>
      if g < FreefallThresholdG then (if !falling then StartFall else Ignore)
      else if falling && g > ImpactThresholdG then Detect
      else if falling && SettledLowG <= g <= SettledHighG then Settle
      else Ignore
  }

  /** A fall is only ever detected during a free fall, and a free fall is only
      ever started from rest. */
  lemma DetectOnlyWhileFalling(totalG: Option<real>)
    ensures Classify(false, totalG) != Detect && Classify(false, totalG) != Settle
    ensures Classify(true, totalG) != StartFall
  {
  }

  class Detector {
    /** isFallingRef.current */
    var falling: bool
    /** fallTimerRef.current; `None` is null */
    var armed: Option<nat>
    var live: set<nat>
    var nextHandle: nat
    /** How many times onFallDetected has been called. */
    var detections: nat

    /** A free fall has exactly one pending window timer, the armed one; at
        rest no timer is pending. */
    ghost predicate Valid()
      reads this
    {
      && (falling ==> armed.Some? && live == {armed.value})
      && (!falling ==> live == {})
      && nextHandle >= 1
      && (armed.Some? ==> 1 <= armed.value < nextHandle)
    }

    constructor ()
      ensures Valid()
      ensures !falling && armed == None && live == {} && detections == 0
    {
      falling, armed, live, nextHandle, detections := false, None, {}, 1, 0;
    }

    /** At most one window timer is ever pending, and one is exactly while
        a free fall lasts. */
    lemma AtMostOneTimer()
      requires Valid()
      ensures |live| <= 1
      ensures falling <==> |live| == 1
    {
    }

    /** `resetState`: at rest, and the armed timer (if any) cleared. */
    method ResetState()
      requires Valid()
      modifies this
      ensures Valid()
      ensures !falling && armed == None && live == {}
      ensures detections == old(detections) && nextHandle == old(nextHandle)
    {
      falling := false;
      if armed.Some? {
        live := live - {armed.value};
        armed := None;
      }
    }

    /** `handleMotion` for one reading. */
    method HandleMotion(totalG: Option<real>) returns (detected: bool)
      requires Valid()
      modifies this
      ensures Valid()
      ensures var a := Classify(old(falling), totalG);
              && (detected <==> a == Detect)
              && detections == old(detections) + (if detected then 1 else 0)
              && (a == StartFall ==>
                    falling && armed == Some(old(nextHandle)) && live == {old(nextHandle)}
                    && nextHandle == old(nextHandle) + 1)
              && (a == Detect || a == Settle ==>
                    !falling && armed == None && live == {} && nextHandle == old(nextHandle))
              && (a == Ignore ==>
                    falling == old(falling) && armed == old(armed) && live == old(live)
                    && nextHandle == old(nextHandle))
    {
      detected := false;
      if totalG.None? {
        return;
      }
      var g := totalG.value;
      if g < FreefallThresholdG {
        if !falling {
          falling := true;
          armed := Some(nextHandle);
          live := {nextHandle};
          nextHandle := nextHandle + 1;
        }
        return;
      }
      if falling && g > ImpactThresholdG {
        ResetState();
        detections := detections + 1;
        detected := true;
        return;
      }
      if falling && SettledLowG <= g <= SettledHighG {
        ResetState();
      }
    }

    /** The window timer's callback: the free fall is over. The handle stays
        in fallTimerRef, as the callback does not clear it. */
    method FireTimer(handle: nat)
      requires Valid() && handle in live
      modifies this
      ensures Valid()
      ensures !falling && live == {} && armed == old(armed)
      ensures detections == old(detections) && nextHandle == old(nextHandle)
    {
      falling := false;
      live := live - {handle};
    }

    /** The effect's cleanup: the listener goes away and the state is reset. */
    method Cleanup()
      requires Valid()
      modifies this
      ensures Valid()
      ensures !falling && armed == None && live == {}
      ensures detections == old(detections)
    {
      ResetState();
    }
  }
}
