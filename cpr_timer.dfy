/** The CPR phase timer of the action guide
    (client/src/components/app/ActionGuideDrawer.jsx, `CprTimer`): two
    phases of 20 and 6 seconds, a one-second tick that counts the current
    phase down and moves to the next phase at the end, a cycle counter that
    grows each time the phases wrap around, the progress bar value and the
    reset button. Each interval callback is a call of `Tick`. */
module CprTimer {
  datatype Phase = Phase(title: string, duration: nat)

  /** CPR_PHASES */
  const Phases: seq<Phase> := [Phase("30 Compressions", 20), Phase("2 Rescue Breaths", 6)]

  function Duration(i: nat): (d: nat)
    requires i < |Phases|
    ensures d == 20 || d == 6
    ensures d >= 1
  {
    Phases[i].duration
  }

  /** The timer's `{phaseIndex, remaining}` state together with `cycleCount`. */
  datatype Clock = Clock(phaseIndex: nat, remaining: nat, cycleCount: nat)

  /** The states the timer can reach: a phase of the table, and between one
      second and the phase's whole duration left. */
  predicate Reachable(c: Clock) {
    c.phaseIndex < |Phases| && 1 <= c.remaining <= Duration(c.phaseIndex)
  }

  /** The state updater run by one interval callback. */
  function Step(c: Clock): (r: Clock)
    ensures Reachable(c) ==> Reachable(r)
    ensures c.remaining > 1 ==> r == c.(remaining := c.remaining - 1)
    ensures c.remaining <= 1 ==> r.phaseIndex == (c.phaseIndex + 1) % |Phases|
                                 && r.remaining == Duration(r.phaseIndex)
    ensures r.cycleCount == if c.remaining <= 1 && r.phaseIndex == 0 then c.cycleCount + 1 else c.cycleCount
  {
    if c.remaining > 1 then c.(remaining := c.remaining - 1)
    else
      var next := (c.phaseIndex + 1) % |Phases|;
      Clock(next, Duration(next), if next == 0 then c.cycleCount + 1 else c.cycleCount)
  }

  /** `n` ticks in a row. */
  function Ticks(c: Clock, n: nat): Clock
    decreases n
  {
    if n == 0 then c else Ticks(Step(c), n - 1)
  }

  lemma {:induction false} TicksAdd(c: Clock, a: nat, b: nat)
    ensures Ticks(c, a + b) == Ticks(Ticks(c, a), b)
    decreases a
  {
    if a > 0 {
      TicksAdd(Step(c), a - 1, b);
    }
  }

  /** While more than `k` seconds are left, `k` ticks only count down. */
  lemma {:induction false} Countdown(c: Clock, k: nat)
    requires k < c.remaining
    ensures Ticks(c, k) == c.(remaining := c.remaining - k)
    decreases k
  {
    if k > 0 {
      Countdown(Step(c), k - 1);
    }
  }

  /** Reachable states stay reachable however many ticks pass. */
  lemma {:induction false} TicksReachable(c: Clock, n: nat)
    requires Reachable(c)
    ensures Reachable(Ticks(c, n))
    decreases n
  {
    if n > 0 {
      TicksReachable(Step(c), n - 1);
    }
  }

  /** The cycle count never goes down and grows by at most one per tick. */
  lemma {:induction false} CycleCountGrows(c: Clock, n: nat)
    ensures c.cycleCount <= Ticks(c, n).cycleCount <= c.cycleCount + n
    decreases n
  {
    if n > 0 {
      CycleCountGrows(Step(c), n - 1);
    }
  }

  lemma OneTick(c: Clock)
    ensures Ticks(c, 1) == Step(c)
  {
  }

  /** A phase runs for exactly as many ticks as it has seconds left, and
      its last tick is the phase change. */
  lemma PhaseEnd(c: Clock)
    requires c.remaining >= 1
    ensures Ticks(c, c.remaining) == Step(c.(remaining := 1))
  {
    var k := c.remaining - 1;
    Countdown(c, k);
    TicksAdd(c, k, 1);
    OneTick(c.(remaining := 1));
  }

  /** The last second of the compressions starts the 6 seconds of breaths. */
  lemma CompressionsToBreaths(cycle: nat)
    ensures Step(Clock(0, 1, cycle)) == Clock(1, 6, cycle)
  {
  }

  /** The last second of the breaths starts a new cycle of compressions. */
  lemma BreathsToCompressions(cycle: nat)
    ensures Step(Clock(1, 1, cycle)) == Clock(0, 20, cycle + 1)
  {
  }

  /** A full cycle: 26 ticks from the start of the compressions phase come
      back to it with the cycle count one higher. */
  lemma FullCycle(c: Clock)
    requires c.phaseIndex == 0 && c.remaining == Duration(0)
    ensures Ticks(c, 26) == c.(cycleCount := c.cycleCount + 1)
  {
    assert c == Clock(0, 20, c.cycleCount);
    PhaseEnd(c);
    CompressionsToBreaths(c.cycleCount);
    var breaths := Clock(1, 6, c.cycleCount);
    assert Ticks(c, 20) == breaths;
    PhaseEnd(breaths);
    BreathsToCompressions(c.cycleCount);
    assert Ticks(breaths, 6) == Clock(0, 20, c.cycleCount + 1);
    TicksAdd(c, 20, 6);
  }

  /** `progressValue` for a phase: the share of it that has elapsed, in percent. */
  function Progress(c: Clock): (p: real)
    requires Reachable(c)
    ensures 0.0 <= p < 100.0
    ensures c.remaining == Duration(c.phaseIndex) <==> p == 0.0
  {
    var d := Duration(c.phaseIndex) as real;
    ((d - c.remaining as real) / d) * 100.0
  }

  class Timer {
    var phaseIndex: nat
    var remaining: nat
    var cycleCount: nat
    var running: bool

    function State(): Clock
      reads this
    {
      Clock(phaseIndex, remaining, cycleCount)
    }

    ghost predicate Valid()
      reads this
    {
      Reachable(State())
    }

    /** The initial state: compressions, 20 seconds left, cycle 1, stopped. */
    constructor ()
      ensures Valid()
      ensures State() == Clock(0, Duration(0), 1) && !running
    {
      phaseIndex, remaining, cycleCount, running := 0, Phases[0].duration, 1, false;
    }

    /** One interval callback. The interval only exists while the timer runs,
        so a stopped timer does not move. */
    method Tick()
      requires Valid()
      modifies this
      ensures Valid()
      ensures running == old(running)
      ensures old(running) ==> State() == Step(old(State()))
      ensures !old(running) ==> State() == old(State())
    {
      if !running {
        return;
      }
      if remaining > 1 {
        remaining := remaining - 1;
        return;
      }
      var next := (phaseIndex + 1) % |Phases|;
      if next == 0 {
        cycleCount := cycleCount + 1;
      }
      phaseIndex, remaining := next, Phases[next].duration;
    }

    /** `handleReset`: stopped, cycle 1, compressions with 20 seconds left. */
    method Reset()
      modifies this
      ensures Valid()
      ensures State() == Clock(0, Duration(0), 1) && !running
    {
      running := false;
      cycleCount := 1;
      phaseIndex, remaining := 0, Phases[0].duration;
    }

    function ProgressValue(): (p: real)
      requires Valid()
      reads this
      ensures 0.0 <= p < 100.0
    {
      Progress(State())
    }
  }
}
