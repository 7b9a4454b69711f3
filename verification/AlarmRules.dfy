/** The cyclic run of the alarm rules and the pulse timer: the global arrays and what every run
    and every tick keeps. */
module AlarmRules {
  import opened AlarmTriggers
  import opened AlarmRelays

  const OUTPUTS: nat := 6

  /** The settings of one output: its relay and the triggers that switch it. */
  datatype Output = Output(relay: Config, selected: set<nat>)

  ghost predicate IsSetUp(cfg: seq<Output>) {
    |cfg| == OUTPUTS && forall b :: 0 <= b < OUTPUTS ==> IsConfig(cfg[b].relay)
  }

  /** All pulses last at least one tick. */
  ghost predicate RealPulses(cfg: seq<Output>) {
    forall b :: 0 <= b < |cfg| ==> cfg[b].relay.mode == 1 ==> cfg[b].relay.duration >= 10
  }

  lemma {:induction false} SignalsAppend(t: Triggers, a: seq<Call>, b: seq<Call>)
    requires Shaped(t) && forall c :: c in a + b ==> IsCall(c)
    ensures (forall c :: c in a ==> IsCall(c)) && (forall c :: c in b ==> IsCall(c))
    ensures Signals(t, a + b) == Signals(Signals(t, a), b)
    decreases |b|
  {
    hide Signal;
    assert forall c :: c in a || c in b ==> c in a + b;
    if b == [] {
      assert a + b == a;
    } else {
      var n := |b| - 1;
      assert (a + b)[..|a + b| - 1] == a + b[..n];
      SignalsAppend(t, a, b[..n]);
    }
  }

  // ---- edges ----

  /** Some selected trigger below n went up, or down. */
  ghost predicate Rises(selected: set<nat>, was: seq<bool>, now: seq<bool>, n: nat) {
    exists i :: 0 <= i < n && i < |was| == |now| && i in selected && !was[i] && now[i]
  }

  ghost predicate Falls(selected: set<nat>, was: seq<bool>, now: seq<bool>, n: nat) {
    exists i :: 0 <= i < n && i < |was| == |now| && i in selected && was[i] && !now[i]
  }

  ghost function EdgeStep(selected: set<nat>, was: seq<bool>, now: seq<bool>, n: nat): (s: Step)
    ensures s.Run?
  {
    Run(Rises(selected, was, now, n), Falls(selected, was, now, n))
  }

  lemma EdgesTwice(r: Relay, s: Step, t: Step, c: Config)
    requires s.Run? && t.Run?
    ensures Edges(Edges(r, s, c), t, c) == Edges(r, Run(s.rising || t.rising, s.falling || t.falling), c)
  {
  }

  lemma NoEdges(r: Relay, c: Config, selected: set<nat>, was: seq<bool>, now: seq<bool>)
    ensures Edges(r, EdgeStep(selected, was, now, 0), c) == r
  {
  }

  /** Serving one more trigger. */
  lemma OneMoreEdge(r: Relay, c: Config, selected: set<nat>, was: seq<bool>, now: seq<bool>, n: nat)
    requires n < |was| == |now|
    ensures Edges(r, EdgeStep(selected, was, now, n + 1), c)
         == var r1 := Edges(r, EdgeStep(selected, was, now, n), c);
            if n in selected && was[n] != now[n] then Edges(r1, Run(now[n], !now[n]), c) else r1
  {
    RisesNext(selected, was, now, n);
    FallsNext(selected, was, now, n);
    EdgesTwice(r, EdgeStep(selected, was, now, n), Run(now[n], !now[n]), c);
  }

  lemma RisesNext(selected: set<nat>, was: seq<bool>, now: seq<bool>, n: nat)
    requires n < |was| == |now|
    ensures Rises(selected, was, now, n + 1) <==>
            Rises(selected, was, now, n) || (n in selected && !was[n] && now[n])
  {
  }

  lemma FallsNext(selected: set<nat>, was: seq<bool>, now: seq<bool>, n: nat)
    requires n < |was| == |now|
    ensures Falls(selected, was, now, n + 1) <==>
            Falls(selected, was, now, n) || (n in selected && was[n] && !now[n])
  {
  }

  // ---- the log of one run ----

  /** The cause words when the causes below c of trigger t, and all of the triggers before it, have
      been brought up to date. */
  ghost function Partly(last: seq<set<nat>>, now: seq<set<nat>>, t: nat, c: nat): (w: seq<set<nat>>)
    requires |last| == |now| == ALARMS
    ensures |w| == ALARMS
  {
    seq(ALARMS, i requires 0 <= i < ALARMS =>
      if i < t then now[i]
      else if i == t then (set x | x in now[i] && x < c) + (set x | x in last[i] && x >= c)
      else last[i])
  }

  ghost predicate SmallCauses(w: seq<set<nat>>) {
    forall i :: 0 <= i < |w| ==> forall x :: x in w[i] ==> x < CAUSES
  }

  /** The log after comparing one cause. */
  function LogOne(log: seq<Entry>, t: nat, c: nat, was: bool, now: bool): seq<Entry> {
    if !was && now then log + [Entry(t, c, true)]
    else if was && !now then log + [Entry(t, c, false)]
    else log
  }

  lemma PartlyNext(log: seq<Entry>, last: seq<set<nat>>, now: seq<set<nat>>, t: nat, c: nat)
    requires |last| == |now| == ALARMS && t < ALARMS && c < CAUSES
    requires Changes(log) && Replay(log) == Partly(last, now, t, c)
    ensures var more := LogOne(log, t, c, c in last[t], c in now[t]);
            Changes(more) && Replay(more) == Partly(last, now, t, c + 1)
  {
    hide Replay, Changes;
    var w := Partly(last, now, t, c);
    var next := Partly(last, now, t, c + 1);
    assert c in w[t] <==> c in last[t];
    if (c in last[t]) != (c in now[t]) {
      var e := Entry(t, c, c in now[t]);
      ChangesGrow(log, e);
      assert Logged(w, e) == next by {
        assert Logged(w, e)[t] == next[t];
      }
    } else {
      assert w[t] == next[t];
      assert w == next;
    }
  }

  lemma PartlyStarts(last: seq<set<nat>>, now: seq<set<nat>>)
    requires |last| == |now| == ALARMS
    ensures Partly(last, now, 0, 0) == last && Partly(last, now, ALARMS, 0) == now
  {
    assert Partly(last, now, 0, 0)[0] == last[0];
  }

  lemma PartlyTurns(last: seq<set<nat>>, now: seq<set<nat>>, t: nat)
    requires |last| == |now| == ALARMS && t < ALARMS && SmallCauses(last) && SmallCauses(now)
    ensures Partly(last, now, t, CAUSES) == Partly(last, now, t + 1, 0)
  {
    var a, b := Partly(last, now, t, CAUSES), Partly(last, now, t + 1, 0);
    forall i | 0 <= i < ALARMS ensures a[i] == b[i] {}
  }

  // ---- the object ----

  class Alarms {
    const alarm: array<bool>
    const alarmOld: array<bool>
    const activated: array<bool>
    const cause: array<set<nat>>
    const delay: array<nat>
    const pulse: array<nat>
    /** The output bits that are set. */
    var outputs: set<nat>
    var pulseTimerRunning: bool
    var log: seq<Entry>

    ghost predicate Valid() {
      alarm.Length == alarmOld.Length == activated.Length == cause.Length == ALARMS &&
      delay.Length == pulse.Length == OUTPUTS &&
      alarm != alarmOld && alarm != activated && alarmOld != activated && delay != pulse
    }

    ghost function Now(): (t: Triggers)
      reads alarm, activated, cause
      requires Valid()
      ensures Shaped(t)
    {
      Triggers(alarm[..], activated[..], cause[..])
    }

    ghost function RelayAt(b: nat): Relay
      reads this`outputs, delay, pulse
      requires Valid() && b < OUTPUTS
    {
      Relay(delay[b], pulse[b], b in outputs)
    }

    ghost function Relays(): (rs: seq<Relay>)
      reads this`outputs, delay, pulse
      requires Valid()
      ensures |rs| == OUTPUTS && forall b :: 0 <= b < OUTPUTS ==> rs[b] == RelayAt(b)
    {
      [RelayAt(0), RelayAt(1), RelayAt(2), RelayAt(3), RelayAt(4), RelayAt(5)]
    }

    /** What every run keeps: the triggers have been served, a trigger is on exactly when it has a
        cause, and the log accounts for every cause. */
    ghost predicate Sound()
      reads this`log, alarm, alarmOld, cause
      requires Valid()
    {
      alarm[..] == alarmOld[..] && SmallCauses(cause[..]) &&
      (forall i :: 0 <= i < ALARMS ==> (alarm[i] <==> cause[i] != {})) &&
      Changes(log) && Replay(log) == cause[..]
    }

    /** What every run and every tick keeps of the outputs. */
    ghost predicate PulsesSound(cfg: seq<Output>)
      reads this`outputs, this`pulseTimerRunning, delay, pulse
      requires Valid() && IsSetUp(cfg)
    {
      PulsesKept(Relays(), pulseTimerRunning, cfg)
    }

    constructor ()
      ensures Valid() && fresh(alarm) && fresh(alarmOld) && fresh(activated) && fresh(cause)
      ensures fresh(delay) && fresh(pulse)
      ensures Sound() && alarm[..] == AllOff() && forall b :: 0 <= b < OUTPUTS ==> RelayAt(b) == OFF
      ensures forall cfg :: IsSetUp(cfg) ==> PulsesSound(cfg)
    {
      hide Changes, Replay;
      alarm := new bool[ALARMS](_ => false);
      alarmOld := new bool[ALARMS](_ => false);
      activated := new bool[ALARMS](_ => false);
      cause := new set<nat>[ALARMS](_ => {});
      delay := new nat[OUTPUTS](_ => IDLE);
      pulse := new nat[OUTPUTS](_ => 0);
      outputs, pulseTimerRunning, log := {}, false, [];
      new;
      EmptyLog();
      assert cause[..] == NoCauses();
      assert alarm[..] == alarmOld[..];
    }

    method SetAlarm(c: Call)
      requires Valid() && IsCall(c)
      modifies alarm, activated, cause
      ensures Now() == Signal(old(Now()), c)
    {
      if c.nr == 0 { return; }
      var i := c.nr - 1;
      if c.on {
        alarm[i] := true;
        cause[i] := cause[i] + {c.cause};
        activated[i] := true;
      } else if !activated[i] {
        alarm[i] := false;
      }
    }

    method StartRun()
      requires Valid()
      modifies activated, cause
      ensures Now() == RunStart(old(alarm[..]))
    {
      for i := 0 to ALARMS
        invariant forall k :: 0 <= k < i ==> cause[k] == {} && !activated[k]
      {
        cause[i] := {};
        activated[i] := false;
      }
      assert Now().cause == RunStart(old(alarm[..])).cause;
    }

    method RunRules(cs: seq<Call>)
      requires Valid() && forall c :: c in cs ==> IsCall(c)
      modifies alarm, activated, cause
      ensures Now() == Signals(old(Now()), cs)
    {
      hide Signal;
      for i := 0 to |cs|
        invariant Now() == Signals(old(Now()), cs[..i])
      {
        assert cs[..i + 1][..i] == cs[..i];
        SetAlarm(cs[i]);
      }
      assert cs[..|cs|] == cs;
    }

    method VirtualTriggers(v: set<nat>)
      requires Valid()
      modifies alarm, activated, cause
      ensures Now() == Signals(old(Now()), VirtualCalls(v, ALARMS))
    {
      hide Signal;
      for i := 0 to ALARMS
        invariant Now() == Signals(old(Now()), VirtualCalls(v, i))
      {
        assert VirtualCalls(v, i + 1)[..i] == VirtualCalls(v, i);
        SetAlarm(Call(i + 1, i in v, VIRTUAL_CAUSE));
      }
    }

    /** The rule phase of a run: nothing but the calls of this run decides. */
    method RulePhase(cs: seq<Call>, v: set<nat>)
      requires Valid() && forall c :: c in cs ==> IsCall(c)
      modifies alarm, activated, cause
      ensures forall i :: 0 <= i < ALARMS ==>
                cause[i] == CausesOf(cs + VirtualCalls(v, ALARMS), i) &&
                (alarm[i] <==> Asserted(cs + VirtualCalls(v, ALARMS), i)) &&
                (alarm[i] <==> cause[i] != {})
    {
      hide Signals, Asserted, CausesOf, Signal;
      ghost var was := alarm[..];
      StartRun();
      RunRules(cs);
      VirtualTriggers(v);
      SignalsAppend(RunStart(was), cs, VirtualCalls(v, ALARMS));
      forall i | 0 <= i < ALARMS
        ensures cause[i] == CausesOf(cs + VirtualCalls(v, ALARMS), i) &&
                (alarm[i] <==> Asserted(cs + VirtualCalls(v, ALARMS), i)) && (alarm[i] <==> cause[i] != {})
      {
        RunOutcome(was, cs, v, i);
        assert cause[i] == Now().cause[i] && alarm[i] == Now().alarm[i];
      }
    }

    /** A trigger has changed: the outputs it is selected for. */
    method ServeOutputs(i: nat, on: bool, cfg: seq<Output>)
      requires Valid() && IsSetUp(cfg)
      modifies this`outputs, delay
      ensures forall b :: 0 <= b < OUTPUTS ==>
                RelayAt(b) == if i in cfg[b].selected then Edges(old(RelayAt(b)), Run(on, !on), cfg[b].relay)
                              else old(RelayAt(b))
    {
      for b := 0 to OUTPUTS
        invariant forall k :: 0 <= k < b ==>
          RelayAt(k) == if i in cfg[k].selected then Edges(old(RelayAt(k)), Run(on, !on), cfg[k].relay)
                        else old(RelayAt(k))
        invariant forall k :: b <= k < OUTPUTS ==> RelayAt(k) == old(RelayAt(k))
      {
        if i in cfg[b].selected {
          if on {
            if delay[b] == IDLE { delay[b] := cfg[b].relay.delay; }
          } else {
            if cfg[b].relay.mode == 0 { outputs := outputs - {b}; }
          }
        }
      }
    }

    method SetOutputs(cfg: seq<Output>)
      requires Valid() && IsSetUp(cfg)
      modifies this`outputs, this`pulseTimerRunning, delay, pulse
      ensures forall b :: 0 <= b < OUTPUTS ==> RelayAt(b) == SetOutput(old(RelayAt(b)), cfg[b].relay)
      ensures pulseTimerRunning <==>
                (old(pulseTimerRunning) || exists b :: 0 <= b < OUTPUTS && StartsPulse(old(RelayAt(b)), cfg[b]))
    {
      for b := 0 to OUTPUTS
        invariant forall k :: 0 <= k < b ==> RelayAt(k) == SetOutput(old(RelayAt(k)), cfg[k].relay)
        invariant forall k :: b <= k < OUTPUTS ==> RelayAt(k) == old(RelayAt(k))
        invariant pulseTimerRunning <==>
                    (old(pulseTimerRunning) || exists k :: 0 <= k < b && StartsPulse(old(RelayAt(k)), cfg[k]))
      {
        if delay[b] == 0 {
          delay[b] := IDLE;
          outputs := outputs + {b};
          if cfg[b].relay.mode == 1 {
            pulse[b] := cfg[b].relay.duration / 10;
            pulseTimerRunning := true;
          }
        } else {
          if delay[b] != IDLE { delay[b] := delay[b] - 1; }
        }
      }
    }

    /** The pulse timer's callback, every 10 ms while it runs. */
    method DoOffPulse()
      requires Valid()
      modifies this`outputs, this`pulseTimerRunning, pulse
      ensures forall b :: 0 <= b < OUTPUTS ==> RelayAt(b) == TickOne(old(RelayAt(b)))
      ensures pulseTimerRunning <==> (old(pulseTimerRunning) && exists b :: 0 <= b < OUTPUTS && RelayAt(b).pulse > 0)
    {
      var restartTimer := false;
      ghost var left := 0;
      for b := 0 to OUTPUTS
        invariant forall k :: 0 <= k < b ==> RelayAt(k) == TickOne(old(RelayAt(k)))
        invariant forall k :: b <= k < OUTPUTS ==> RelayAt(k) == old(RelayAt(k))
        invariant pulseTimerRunning == old(pulseTimerRunning)
        invariant if restartTimer then left < b && RelayAt(left).pulse > 0
                  else forall k :: 0 <= k < b ==> RelayAt(k).pulse == 0
      {
        if pulse[b] > 1 {
          pulse[b] := pulse[b] - 1;
          restartTimer := true;
          left := b;
        } else if pulse[b] == 1 {
          pulse[b] := 0;
          outputs := outputs - {b};
        }
      }
      if !restartTimer { pulseTimerRunning := false; }
    }

    /** The tick keeps what holds of the pulses. */
    method Tick(ghost cfg: seq<Output>)
      requires Valid() && IsSetUp(cfg) && PulsesSound(cfg)
      modifies this`outputs, this`pulseTimerRunning, pulse
      ensures PulsesSound(cfg)
      ensures forall b :: 0 <= b < OUTPUTS ==> RelayAt(b) == Do(old(RelayAt(b)), Step.Tick, cfg[b].relay)
    {
      ghost var before, running := Relays(), pulseTimerRunning;
      DoOffPulse();
      TickKeeps(before, Relays(), running, pulseTimerRunning, cfg);
    }

    /** Logs every cause that has come or gone since the words in last. */
    method HandleLog(last: seq<set<nat>>)
      requires Valid() && |last| == ALARMS && SmallCauses(last) && SmallCauses(cause[..])
      requires Changes(log) && Replay(log) == last
      modifies this`log, cause
      ensures old(log) <= log && Changes(log) && Replay(log) == cause[..] == old(cause[..])
    {
      hide Changes, Replay, Partly;
      ghost var now := cause[..];
      PartlyStarts(last, now);
      for t := 0 to ALARMS
        invariant cause[..] == now && old(log) <= log
        invariant Changes(log) && Replay(log) == Partly(last, now, t, 0)
      {
        for c := 0 to CAUSES
          invariant cause[..] == now && old(log) <= log
          invariant Changes(log) && Replay(log) == Partly(last, now, t, c)
        {
          PartlyNext(log, last, now, t, c);
          assert cause[t] == now[t];
          if c !in last[t] && c in cause[t] {
            log := log + [Entry(t, c, true)];
          } else if c in last[t] && c !in cause[t] {
            log := log + [Entry(t, c, false)];
            cause[t] := cause[t] - {c};
            assert cause[t] == now[t];
          }
        }
        PartlyTurns(last, now, t);
      }
    }

    /** Serves the edges of all triggers; changed settings first switch every trigger off and make
        it look as if it had been on. */
    method ServeEdges(change: bool, cfg: seq<Output>)
      requires Valid() && IsSetUp(cfg)
      modifies this`outputs, alarm, alarmOld, cause, delay
      ensures alarm[..] == alarmOld[..] == if change then AllOff() else old(alarm[..])
      ensures cause[..] == if change then NoCauses() else old(cause[..])
      ensures forall b :: 0 <= b < OUTPUTS ==>
                RelayAt(b) == Edges(old(RelayAt(b)), EdgeStep(cfg[b].selected,
                                if change then AllOn() else old(alarmOld[..]), alarm[..], ALARMS), cfg[b].relay)
    {
      hide EdgeStep, Edges;
      ghost var was := if change then AllOn() else alarmOld[..];
      ghost var now := if change then AllOff() else alarm[..];
      ghost var causes := if change then NoCauses() else cause[..];
      forall b | 0 <= b < OUTPUTS
        ensures Edges(RelayAt(b), EdgeStep(cfg[b].selected, was, now, 0), cfg[b].relay) == RelayAt(b)
      {
        NoEdges(RelayAt(b), cfg[b].relay, cfg[b].selected, was, now);
      }
      for i := 0 to ALARMS
        invariant forall k :: 0 <= k < i ==> alarm[k] == alarmOld[k] == now[k] && cause[k] == causes[k]
        invariant forall k :: i <= k < ALARMS ==>
          alarm[k] == old(alarm[k]) && alarmOld[k] == old(alarmOld[k]) && cause[k] == old(cause[k])
        invariant forall b :: 0 <= b < OUTPUTS ==>
          RelayAt(b) == Edges(old(RelayAt(b)), EdgeStep(cfg[b].selected, was, now, i), cfg[b].relay)
      {
        if change {
          alarm[i] := false;
          alarmOld[i] := true;
          cause[i] := {};
        }
        assert alarm[i] == now[i] && alarmOld[i] == was[i];
        forall b | 0 <= b < OUTPUTS
          ensures Edges(old(RelayAt(b)), EdgeStep(cfg[b].selected, was, now, i + 1), cfg[b].relay)
               == if i in cfg[b].selected && was[i] != now[i] then Edges(RelayAt(b), Run(now[i], !now[i]), cfg[b].relay)
                  else RelayAt(b)
        {
          OneMoreEdge(old(RelayAt(b)), cfg[b].relay, cfg[b].selected, was, now, i);
        }
        if alarm[i] != alarmOld[i] {
          alarmOld[i] := alarm[i];
          ServeOutputs(i, alarm[i], cfg);
        }
      }
      assert alarm[..] == now && alarmOld[..] == now && cause[..] == causes;
    }

    /** The second half of a run: edges, then outputs. */
    method OutputPhase(change: bool, cfg: seq<Output>)
      requires Valid() && IsSetUp(cfg) && PulsesSound(cfg)
      modifies this`outputs, this`pulseTimerRunning, alarm, alarmOld, cause, delay, pulse
      ensures PulsesSound(cfg)
      ensures alarm[..] == alarmOld[..] == if change then AllOff() else old(alarm[..])
      ensures cause[..] == if change then NoCauses() else old(cause[..])
      ensures forall b :: 0 <= b < OUTPUTS ==>
                RelayAt(b) == Do(old(RelayAt(b)), EdgeStep(cfg[b].selected,
                                if change then AllOn() else old(alarmOld[..]), alarm[..], ALARMS), cfg[b].relay)
    {
      hide EdgeStep, Edges, SetOutput, PulsesKept;
      ghost var before, running := Relays(), pulseTimerRunning;
      ServeEdges(change, cfg);
      ghost var between := Relays();
      SetOutputs(cfg);
      RunKeeps(before, between, Relays(), running, pulseTimerRunning, cfg);
    }

    /** One cyclic run. */
    method RunAlarmRules(cs: seq<Call>, v: set<nat>, change: bool, cfg: seq<Output>)
      requires Valid() && Sound() && IsSetUp(cfg) && PulsesSound(cfg)
      requires forall c :: c in cs ==> IsCall(c)
      modifies this`outputs, this`pulseTimerRunning, this`log, alarm, alarmOld, activated, cause, delay, pulse
      ensures Sound() && PulsesSound(cfg) && old(log) <= log
      ensures forall i :: 0 <= i < ALARMS ==>
                (alarm[i] <==> !change && Asserted(cs + VirtualCalls(v, ALARMS), i)) &&
                cause[i] == if change then {} else CausesOf(cs + VirtualCalls(v, ALARMS), i)
      ensures forall b :: 0 <= b < OUTPUTS ==>
                RelayAt(b) == Do(old(RelayAt(b)), EdgeStep(cfg[b].selected,
                                if change then AllOn() else old(alarm[..]), alarm[..], ALARMS), cfg[b].relay)
    {
      hide Asserted, CausesOf, EdgeStep, Do, Changes, Replay, PulsesKept;
      var last := cause[..];
      ghost var were := alarm[..];
      RulePhase(cs, v);
      CausesAreSmall(cs, v, cause[..]);
      ghost var alarms, causes := alarm[..], cause[..];
      OutputPhase(change, cfg);
      assert SmallCauses(cause[..]);
      HandleLog(last);
      assert forall i :: 0 <= i < ALARMS ==>
        alarm[i] == alarm[..][i] && cause[i] == cause[..][i];
    }
  }

  // ---- whole runs ----

  /** A cyclic run with the calls of its rules, its virtual triggers and whether settings have
      changed; or a tick. */
  datatype Event = RulesRun(calls: seq<Call>, virtual: set<nat>, change: bool) | PulseTick

  ghost predicate IsEvent(e: Event) {
    e.RulesRun? ==> forall c :: c in e.calls ==> IsCall(c)
  }

  /** The triggers after an event: those asserted in the run, none if settings have changed. */
  ghost function AlarmsAfter(alarm: seq<bool>, e: Event): (after: seq<bool>)
    ensures |alarm| == ALARMS ==> |after| == ALARMS
  {
    if e.PulseTick? then
      alarm
    else
      var all := e.calls + VirtualCalls(e.virtual, ALARMS);
      seq(ALARMS, i requires 0 <= i < ALARMS => !e.change && Asserted(all, i))
  }

  /** What an event is for an output with these selected triggers. */
  ghost function StepOf(selected: set<nat>, alarm: seq<bool>, e: Event): Step {
    if e.PulseTick? then Step.Tick
    else EdgeStep(selected, if e.change then AllOn() else alarm, AlarmsAfter(alarm, e), ALARMS)
  }

  ghost function AlarmsAt(alarm: seq<bool>, es: seq<Event>): (after: seq<bool>)
    ensures |alarm| == ALARMS ==> |after| == ALARMS
  {
    if es == [] then alarm else AlarmsAfter(AlarmsAt(alarm, es[..|es| - 1]), es[|es| - 1])
  }

  /** What a history of events is for one output. */
  ghost function Trace(selected: set<nat>, alarm: seq<bool>, es: seq<Event>): (ss: seq<Step>)
    ensures |ss| == |es|
  {
    if es == [] then []
    else
      var init := es[..|es| - 1];
      Trace(selected, alarm, init) + [StepOf(selected, AlarmsAt(alarm, init), es[|es| - 1])]
  }

  lemma PlayNext(r: Relay, selected: set<nat>, alarm: seq<bool>, es: seq<Event>, n: nat, c: Config)
    requires n < |es|
    ensures Play(r, Trace(selected, alarm, es[..n + 1]), c)
         == Do(Play(r, Trace(selected, alarm, es[..n]), c), StepOf(selected, AlarmsAt(alarm, es[..n]), es[n]), c)
  {
    hide StepOf, AlarmsAt, Do;
    assert es[..n + 1][..n] == es[..n];
    var ss := Trace(selected, alarm, es[..n + 1]);
    assert ss[..|ss| - 1] == Trace(selected, alarm, es[..n]);
  }

  /** Any interleaving of runs and ticks: the triggers are those of the last run, every output does
      what its own trace of steps says, and everything that single runs and ticks keep still holds. */
  method Control(a: Alarms, es: seq<Event>, cfg: seq<Output>)
    requires a.Valid() && a.Sound() && IsSetUp(cfg) && a.PulsesSound(cfg)
    requires forall i :: 0 <= i < |es| ==> IsEvent(es[i])
    modifies a, a.alarm, a.alarmOld, a.activated, a.cause, a.delay, a.pulse
    ensures a.Sound() && a.PulsesSound(cfg) && old(a.log) <= a.log
    ensures a.alarm[..] == AlarmsAt(old(a.alarm[..]), es)
    ensures forall b :: 0 <= b < OUTPUTS ==>
              a.RelayAt(b) == Play(old(a.RelayAt(b)), Trace(cfg[b].selected, old(a.alarm[..]), es), cfg[b].relay)
  {
    hide Do, Play, Trace, StepOf, AlarmsAt, AlarmsAfter, Alarms.Sound, PulsesKept;
    ghost var alarm := a.alarm[..];
    StartOfTrace(alarm);
    for n := 0 to |es|
      invariant a.Sound() && a.PulsesSound(cfg) && old(a.log) <= a.log
      invariant a.alarm[..] == AlarmsAt(alarm, es[..n])
      invariant forall b :: 0 <= b < OUTPUTS ==>
        a.RelayAt(b) == Play(old(a.RelayAt(b)), Trace(cfg[b].selected, alarm, es[..n]), cfg[b].relay)
    {
      forall b | 0 <= b < OUTPUTS
        ensures Play(old(a.RelayAt(b)), Trace(cfg[b].selected, alarm, es[..n + 1]), cfg[b].relay)
             == Do(a.RelayAt(b), StepOf(cfg[b].selected, a.alarm[..], es[n]), cfg[b].relay)
      {
        PlayNext(old(a.RelayAt(b)), cfg[b].selected, alarm, es, n, cfg[b].relay);
      }
      AlarmsNext(alarm, es, n);
      Perform(a, es[n], cfg);
    }
    assert es[..|es|] == es;
  }

  lemma StartOfTrace(alarm: seq<bool>)
    ensures forall es: seq<Event> :: AlarmsAt(alarm, es[..0]) == alarm
    ensures forall r: Relay, selected: set<nat>, es: seq<Event>, c: Config ::
              Play(r, Trace(selected, alarm, es[..0]), c) == r
  {
  }

  lemma AlarmsNext(alarm: seq<bool>, es: seq<Event>, n: nat)
    requires n < |es|
    ensures AlarmsAt(alarm, es[..n + 1]) == AlarmsAfter(AlarmsAt(alarm, es[..n]), es[n])
  {
    hide AlarmsAfter;
    assert es[..n + 1][..n] == es[..n];
  }

  /** One event of a history. */
  method Perform(a: Alarms, e: Event, cfg: seq<Output>)
    requires a.Valid() && a.Sound() && IsSetUp(cfg) && a.PulsesSound(cfg) && IsEvent(e)
    modifies a, a.alarm, a.alarmOld, a.activated, a.cause, a.delay, a.pulse
    ensures a.Sound() && a.PulsesSound(cfg) && old(a.log) <= a.log
    ensures a.alarm[..] == AlarmsAfter(old(a.alarm[..]), e)
    ensures forall b :: 0 <= b < OUTPUTS ==>
              a.RelayAt(b) == Do(old(a.RelayAt(b)), StepOf(cfg[b].selected, old(a.alarm[..]), e), cfg[b].relay)
  {
    hide Do, EdgeStep, Asserted, CausesOf, Changes, Replay, PulsesKept;
    ghost var alarm := a.alarm[..];
    match e {
      case RulesRun(cs, v, change) =>
        a.RunAlarmRules(cs, v, change, cfg);
        assert a.alarm[..] == AlarmsAfter(alarm, e);
      case PulseTick =>
        a.Tick(cfg);
    }
  }

  lemma EmptyLog()
    ensures Changes([]) && Replay([]) == NoCauses()
  {
  }

  function AllOff(): seq<bool> {
    seq(ALARMS, _ => false)
  }

  function AllOn(): seq<bool> {
    seq(ALARMS, _ => true)
  }

  function NoCauses(): seq<set<nat>> {
    seq(ALARMS, _ => {})
  }

  lemma CausesAreSmall(cs: seq<Call>, v: set<nat>, w: seq<set<nat>>)
    requires forall c :: c in cs ==> IsCall(c)
    requires |w| == ALARMS && forall i :: 0 <= i < ALARMS ==> w[i] == CausesOf(cs + VirtualCalls(v, ALARMS), i)
    ensures SmallCauses(w)
  {
    forall i, x | 0 <= i < |w| && x in w[i] ensures x < CAUSES {
      var c :| c in cs + VirtualCalls(v, ALARMS) && c.on && c.nr == i + 1 && c.cause == x;
    }
  }

  // ---- what the outputs keep ----

  ghost predicate StartsPulse(r: Relay, o: Output) {
    r.delay == 0 && o.relay.mode == 1
  }

  /** Every relay keeps its own invariant, and the timer is flagged as running exactly while some
      counter runs. */
  ghost predicate PulsesKept(rs: seq<Relay>, running: bool, cfg: seq<Output>)
    requires |rs| == |cfg| == OUTPUTS
  {
    (forall b :: 0 <= b < OUTPUTS ==> PulseKept(rs[b], cfg[b].relay)) &&
    (RealPulses(cfg) ==> (running <==> exists b :: 0 <= b < OUTPUTS && rs[b].pulse > 0))
  }

  lemma TickKeeps(before: seq<Relay>, after: seq<Relay>, was: bool, running: bool, cfg: seq<Output>)
    requires |before| == |after| == |cfg| == OUTPUTS && PulsesKept(before, was, cfg)
    requires forall b :: 0 <= b < OUTPUTS ==> after[b] == TickOne(before[b])
    requires running <==> (was && exists b :: 0 <= b < OUTPUTS && after[b].pulse > 0)
    ensures PulsesKept(after, running, cfg)
  {
    forall b | 0 <= b < OUTPUTS ensures PulseKept(after[b], cfg[b].relay) {}
    if b :| 0 <= b < OUTPUTS && after[b].pulse > 0 {
      assert before[b].pulse > 0;
    }
  }

  lemma RunKeeps(before: seq<Relay>, between: seq<Relay>, after: seq<Relay>, was: bool, running: bool,
                 cfg: seq<Output>)
    requires |before| == |between| == |after| == |cfg| == OUTPUTS && PulsesKept(before, was, cfg)
    requires forall b :: 0 <= b < OUTPUTS ==>
               exists s: Step :: s.Run? && between[b] == Edges(before[b], s, cfg[b].relay)
    requires forall b :: 0 <= b < OUTPUTS ==> after[b] == SetOutput(between[b], cfg[b].relay)
    requires running <==> (was || exists b :: 0 <= b < OUTPUTS && StartsPulse(between[b], cfg[b]))
    ensures PulsesKept(after, running, cfg)
  {
    forall b | 0 <= b < OUTPUTS
      ensures PulseKept(after[b], cfg[b].relay) && between[b].pulse == before[b].pulse
      ensures after[b].pulse == if StartsPulse(between[b], cfg[b]) then cfg[b].relay.duration / 10 else before[b].pulse
    {
      var s: Step :| s.Run? && between[b] == Edges(before[b], s, cfg[b].relay);
    }
    if RealPulses(cfg) {
      if running {
        if was {
          var b :| 0 <= b < OUTPUTS && before[b].pulse > 0;
          assert after[b].pulse > 0;
        } else {
          var b :| 0 <= b < OUTPUTS && StartsPulse(between[b], cfg[b]);
          assert after[b].pulse > 0;
        }
      }
      if b :| 0 <= b < OUTPUTS && after[b].pulse > 0 {
        assert StartsPulse(between[b], cfg[b]) || before[b].pulse > 0;
      }
    }
  }
}
