/** One relay output under any interleaving of alarm runs and 10 ms ticks. */
module AlarmRelays {

  const IDLE: nat := 0xFF

  datatype Config = Config(delay: nat, mode: nat, duration: nat)

  predicate IsConfig(c: Config) {
    c.delay <= 0xFF && c.duration < 0x1_0000
  }

  /** Delay timer, pulse counter and output bit. */
  datatype Relay = Relay(delay: nat, pulse: nat, on: bool)

  const OFF: Relay := Relay(IDLE, 0, false)

  /** A run in which some selected trigger rose or fell, or a tick of the pulse timer. */
  datatype Step = Run(rising: bool, falling: bool) | Tick

  /** The edges of a run, before the outputs are set. */
  function Edges(r: Relay, s: Step, c: Config): Relay
    requires s.Run?
  {
    Relay(
      if s.rising && r.delay == IDLE then c.delay else r.delay,
      r.pulse,
      r.on && !(s.falling && c.mode == 0))
  }

  predicate Fires(r: Relay, s: Step, c: Config) {
    s.Run? && Edges(r, s, c).delay == 0
  }

  /** Setting the outputs: a timer at zero switches on, any other running timer counts down. */
  function SetOutput(r: Relay, c: Config): Relay {
    if r.delay == 0 then Relay(IDLE, if c.mode == 1 then c.duration / 10 else r.pulse, true)
    else if r.delay != IDLE then r.(delay := r.delay - 1)
    else r
  }

  function TickOne(r: Relay): Relay {
    if r.pulse > 1 then r.(pulse := r.pulse - 1)
    else if r.pulse == 1 then r.(pulse := 0, on := false)
    else r
  }

  function Do(r: Relay, s: Step, c: Config): Relay {
    if s.Tick? then TickOne(r) else SetOutput(Edges(r, s, c), c)
  }

  function Play(r: Relay, ss: seq<Step>, c: Config): Relay {
    if ss == [] then r else Do(Play(r, ss[..|ss| - 1], c), ss[|ss| - 1], c)
  }

  function Runs(ss: seq<Step>): nat {
    if ss == [] then 0 else Runs(ss[..|ss| - 1]) + if ss[|ss| - 1].Run? then 1 else 0
  }

  function Ticks(ss: seq<Step>): nat {
    if ss == [] then 0 else Ticks(ss[..|ss| - 1]) + if ss[|ss| - 1].Tick? then 1 else 0
  }

  /** How often the relay was switched on in a play. */
  function Firings(r: Relay, ss: seq<Step>, c: Config): nat {
    if ss == [] then 0
    else
      var init := ss[..|ss| - 1];
      Firings(r, init, c) + if Fires(Play(r, init, c), ss[|ss| - 1], c) then 1 else 0
  }

  // ---- the delay ----

  /** While a delay runs, n runs later it has come down by n, whatever the triggers and ticks do. */
  lemma {:induction false} DelayCounts(r: Relay, ss: seq<Step>, c: Config)
    requires r.delay < IDLE && Runs(ss) <= r.delay
    ensures Play(r, ss, c).delay == r.delay - Runs(ss) && Firings(r, ss, c) == 0
    decreases |ss|
  {
    if ss != [] { DelayCounts(r, ss[..|ss| - 1], c); }
  }

  /** A rising edge with an idle timer and a delay of d runs: no switching on in the run of the
      edge and the d - 1 runs after it if d > 0, and switching on in the d-th run after it; in the
      run of the edge itself if d is zero. */
  lemma DelayExact(r: Relay, falling: bool, ss: seq<Step>, c: Config)
    requires r.delay == IDLE && c.delay < IDLE
    ensures var start := Run(true, falling); var r1 := Do(r, start, c);
            (c.delay == 0 ==> Fires(r, start, c) && r1.on && r1.delay == IDLE) &&
            (c.delay > 0 ==> !Fires(r, start, c)) &&
            (c.delay > 0 && Runs(ss) < c.delay ==> Firings(r1, ss, c) == 0) &&
            (c.delay > 0 && Runs(ss) == c.delay - 1 ==> forall last :: SwitchesOn(Play(r1, ss, c), last, c))
  {
    hide Play, Firings;
    var r1 := Do(r, Run(true, falling), c);
    if c.delay > 0 && Runs(ss) < c.delay {
      DelayCounts(r1, ss, c);
      if Runs(ss) == c.delay - 1 {
        forall last ensures SwitchesOn(Play(r1, ss, c), last, c) {}
      }
    }
  }

  /** A run of any edges switches the relay on and leaves its timer idle. */
  ghost predicate SwitchesOn(r: Relay, s: Step, c: Config) {
    s.Run? ==> Fires(r, s, c) && Do(r, s, c).on && Do(r, s, c).delay == IDLE
  }

  /** A delay of 255 leaves the timer idle: the relay never switches on. */
  lemma {:induction false} NeverWith255(r: Relay, ss: seq<Step>, c: Config)
    requires c.delay == IDLE && r.delay == IDLE
    ensures Play(r, ss, c).delay == IDLE && Firings(r, ss, c) == 0
    decreases |ss|
  {
    if ss != [] { NeverWith255(r, ss[..|ss| - 1], c); }
  }

  lemma TwoSteps(r: Relay, a: Step, b: Step, c: Config)
    ensures Play(r, [a, b], c) == Do(Do(r, a, c), b, c)
  {
    assert [a, b][..1] == [a] && [a][..0] == [];
    assert Play(r, [a], c) == Do(r, a, c);
  }

  lemma {:induction false} PlayAppend(r: Relay, a: seq<Step>, b: seq<Step>, c: Config)
    ensures Play(r, a + b, c) == Play(Play(r, a, c), b, c)
    decreases |b|
  {
    if b == [] {
      assert a + b == a;
    } else {
      assert (a + b)[..|a + b| - 1] == a + b[..|b| - 1];
      PlayAppend(r, a, b[..|b| - 1], c);
    }
  }

  /** A trigger that falls during the delay does not cancel it: a permanent relay then switches on
      with no trigger active, and stays on until some trigger rises and falls again. */
  lemma FallingDoesNotCancel(c: Config, quiet: seq<Step>)
    requires c.mode == 0 && 0 < c.delay < IDLE && |quiet| >= c.delay
    requires forall i :: 0 <= i < |quiet| ==> quiet[i] == Run(false, false)
    ensures Play(OFF, [Run(true, false), Run(false, true)] + quiet, c).on
  {
    var r := Do(Do(OFF, Run(true, false), c), Run(false, true), c);
    TwoSteps(OFF, Run(true, false), Run(false, true), c);
    PlayAppend(OFF, [Run(true, false), Run(false, true)], quiet, c);
    QuietRuns(r, quiet, c);
  }

  lemma {:induction false} QuietRuns(r: Relay, quiet: seq<Step>, c: Config)
    requires c.mode == 0 && forall i :: 0 <= i < |quiet| ==> quiet[i] == Run(false, false)
    requires r.on || (r.delay < IDLE && |quiet| > r.delay)
    ensures Play(r, quiet, c).on
    decreases |quiet|
  {
    if quiet != [] {
      var init := quiet[..|quiet| - 1];
      if r.on || |init| > r.delay {
        QuietRuns(r, init, c);
      } else {
        AllRuns(init);
        DelayCounts(r, init, c);
      }
    }
  }

  lemma {:induction false} AllRuns(ss: seq<Step>)
    requires forall i :: 0 <= i < |ss| ==> ss[i].Run?
    ensures Runs(ss) == |ss|
  {
    if ss != [] {
      AllRuns(ss[..|ss| - 1]);
    }
  }

  // ---- the pulse ----

  /** What every run and tick keeps: the counter runs only for pulse relays, and with a duration of
      at least one tick the output bit of a pulse relay is set exactly while it runs. */
  ghost predicate PulseKept(r: Relay, c: Config) {
    (c.mode != 1 ==> r.pulse == 0) &&
    (c.mode == 1 && c.duration >= 10 ==> (r.on <==> r.pulse > 0))
  }

  lemma {:induction false} PulseAlways(r: Relay, ss: seq<Step>, c: Config)
    requires PulseKept(r, c)
    ensures PulseKept(Play(r, ss, c), c)
    decreases |ss|
  {
    if ss != [] { PulseAlways(r, ss[..|ss| - 1], c); }
  }

  /** A pulse that is not started again ends after exactly the ticks on its counter, whatever runs
      and edges come in between. */
  lemma {:induction false} PulseEnds(r: Relay, ss: seq<Step>, c: Config)
    requires c.mode == 1 && r.on && r.pulse > 0 && Firings(r, ss, c) == 0
    ensures var p := Play(r, ss, c);
            p.pulse == (if Ticks(ss) < r.pulse then r.pulse - Ticks(ss) else 0) &&
            (p.on <==> Ticks(ss) < r.pulse)
    decreases |ss|
  {
    if ss != [] { PulseEnds(r, ss[..|ss| - 1], c); }
  }

  /** The counter that a switching on leaves: the duration in ticks. */
  lemma PulseStarts(r: Relay, s: Step, c: Config)
    requires Fires(r, s, c) && c.mode == 1
    ensures Do(r, s, c) == Relay(IDLE, c.duration / 10, true)
  {
  }

  /** A pulse shorter than one tick never ends: the relay stays on for ever. */
  lemma {:induction false} ShortPulseStays(r: Relay, ss: seq<Step>, c: Config)
    requires c.mode == 1 && c.duration < 10 && r.on && r.pulse == 0
    ensures Play(r, ss, c).on && Play(r, ss, c).pulse == 0
    decreases |ss|
  {
    if ss != [] { ShortPulseStays(r, ss[..|ss| - 1], c); }
  }

  /** So a pulse relay that has been switched on can go off again if and only if the duration is at
      least one tick. */
  lemma PulseGoesOffIff(r: Relay, c: Config)
    requires c.mode == 1 && r == Relay(IDLE, c.duration / 10, true)
    ensures (exists ss :: !Play(r, ss, c).on) <==> c.duration >= 10
  {
    if c.duration >= 10 {
      var ss := seq(r.pulse, _ => Tick);
      OnlyTicks(ss, r, c);
      PulseEnds(r, ss, c);
      assert !Play(r, ss, c).on;
    } else {
      forall ss ensures Play(r, ss, c).on { ShortPulseStays(r, ss, c); }
    }
  }

  lemma {:induction false} OnlyTicks(ss: seq<Step>, r: Relay, c: Config)
    requires forall i :: 0 <= i < |ss| ==> ss[i] == Tick
    ensures Ticks(ss) == |ss| && Firings(r, ss, c) == 0
  {
    if ss != [] { OnlyTicks(ss[..|ss| - 1], r, c); }
  }
}
