/** When an output is on, read off the history of events alone: which runs start its delay, which
    switch it, and what keeps it on. */
module AlarmOutputs {
  import opened AlarmTriggers
  import opened AlarmRelays
  import opened AlarmRules
  import opened AlarmHistories

  /** Run k turns a selected trigger on. */
  ghost predicate RisesIn(o: Output, es: seq<Event>, k: nat) {
    k < |es| && es[k].RulesRun? &&
    exists i :: 0 <= i < ALARMS && i in o.selected && !AlarmsOf(es[..k])[i] && AlarmsOf(es[..k + 1])[i]
  }

  /** Run k turns a selected trigger off; changed settings count as turning off all of them. */
  ghost predicate FallsIn(o: Output, es: seq<Event>, k: nat) {
    k < |es| && es[k].RulesRun? &&
    exists i :: 0 <= i < ALARMS && i in o.selected &&
      (es[k].change || (AlarmsOf(es[..k])[i] && !AlarmsOf(es[..k + 1])[i]))
  }

  /** Run n starts the delay: a selected trigger comes on, and every delay started before has ended,
      the run that ends it included. A delay of 255 cannot be started. */
  ghost predicate StartAt(o: Output, es: seq<Event>, n: nat)
    decreases n
  {
    RisesIn(o, es, n) && o.relay.delay < 255 &&
    forall k :: 0 <= k < n && StartAt(o, es, k) ==> RunsBetween(es, k, n) > o.relay.delay
  }

  /** Run m switches the output on: it is as many runs behind a start as the delay says. */
  ghost predicate SwitchAt(o: Output, es: seq<Event>, m: nat) {
    m < |es| && es[m].RulesRun? &&
    exists n :: 0 <= n <= m && StartAt(o, es, n) && RunsBetween(es, n, m) == o.relay.delay
  }

  function TicksBetween(es: seq<Event>, a: nat, b: nat): nat
    requires a <= b <= |es|
  {
    if a == b then 0 else TicksBetween(es, a, b - 1) + if es[b - 1].PulseTick? then 1 else 0
  }

  /** What keeps an output on from the switching in run m to before event n: for a permanent relay
      that no selected trigger has gone off since, for a pulse relay that its duration has not run out,
      a duration below one tick never does, and for any other nothing can switch it off. */
  ghost predicate KeptOn(o: Output, es: seq<Event>, m: nat, n: nat)
    requires m < n <= |es|
  {
    if o.relay.mode == 0 then forall j :: m < j < n ==> !FallsIn(o, es, j)
    else if o.relay.mode == 1 then o.relay.duration < 10 || TicksBetween(es, m + 1, n) < o.relay.duration / 10
    else true
  }

  ghost predicate IsOn(o: Output, es: seq<Event>, n: nat)
    requires n <= |es|
  {
    exists m :: 0 <= m < n && SwitchAt(o, es, m) && KeptOn(o, es, m, n)
  }

  // ---- the machine's steps by the events ----

  lemma StepMeans(o: Output, es: seq<Event>, k: nat)
    requires k < |es| && es[k].RulesRun?
    ensures StepOf(o.selected, AlarmsOf(es[..k]), es[k]) == Run(RisesIn(o, es, k), FallsIn(o, es, k))
  {
    hide AlarmsOf;
    var was, now := AlarmsOf(es[..k]), AlarmsOf(es[..k + 1]);
    AlarmsNow(es, k);
    if es[k].change {
      assert now == AllOff() by { AllOffAfterChange(was, es[k]); }
      assert forall i :: 0 <= i < ALARMS ==> AllOn()[i] && !now[i];
    }
  }

  lemma AlarmsNow(es: seq<Event>, k: nat)
    requires k < |es|
    ensures AlarmsOf(es[..k + 1]) == AlarmsAfter(AlarmsOf(es[..k]), es[k])
  {
    hide AlarmsAfter;
    AlarmsNext(AllOff(), es, k);
  }

  lemma AllOffAfterChange(was: seq<bool>, e: Event)
    requires e.RulesRun? && e.change
    ensures AlarmsAfter(was, e) == AllOff()
  {
  }

  // ---- the delay ----

  ghost predicate Pending(o: Output, es: seq<Event>, k: nat, n: nat)
    requires n <= |es|
  {
    k < n && StartAt(o, es, k) && RunsBetween(es, k, n) <= o.relay.delay
  }

  /** The timer before event n: idle exactly when no start is pending, and otherwise the runs left. */
  ghost predicate TimerRight(o: Output, es: seq<Event>, n: nat, delay: nat)
    requires n <= |es|
  {
    (forall k :: Pending(o, es, k, n) ==> delay == o.relay.delay - RunsBetween(es, k, n)) &&
    ((forall k :: !Pending(o, es, k, n)) ==> delay == IDLE)
  }

  lemma {:induction false} TimerMeans(o: Output, es: seq<Event>, n: nat)
    requires IsConfig(o.relay) && n <= |es|
    ensures TimerRight(o, es, n, RelayAfter(o, es[..n]).delay)
    decreases n
  {
    hide RelayAfter, StepOf, AlarmsOf, StartAt, RunsBetween, TimerRight;
    if n == 0 {
      assert es[..0] == [];
      TimerAtStart(o, es);
    } else {
      TimerMeans(o, es, n - 1);
      RelayNext(o, es, n - 1);
      if es[n - 1].RulesRun? {
        StepMeans(o, es, n - 1);
        TimerRun(o, es, n - 1, RelayAfter(o, es[..n - 1]));
      } else {
        TickStep(o, es, n - 1);
        TimerTick(o, es, n - 1, RelayAfter(o, es[..n - 1]).delay);
      }
    }
  }

  lemma TimerAtStart(o: Output, es: seq<Event>)
    ensures TimerRight(o, es, 0, RelayAfter(o, []).delay)
  {
    hide StartAt;
    AtStart(o);
  }

  lemma TickStep(o: Output, es: seq<Event>, k: nat)
    requires k < |es| && es[k].PulseTick?
    ensures StepOf(o.selected, AlarmsOf(es[..k]), es[k]) == Step.Tick && !FallsIn(o, es, k)
  {
  }

  lemma TimerTick(o: Output, es: seq<Event>, n: nat, delay: nat)
    requires n < |es| && es[n].PulseTick? && TimerRight(o, es, n, delay)
    ensures TimerRight(o, es, n + 1, delay)
  {
    hide StartAt;
    StartIsRun(o, es, n);
    var next := n + 1;
    forall k: nat ensures Pending(o, es, k, next) <==> Pending(o, es, k, n) {}
  }

  lemma StartIsRun(o: Output, es: seq<Event>, n: nat)
    ensures StartAt(o, es, n) ==> n < |es| && es[n].RulesRun? && o.relay.delay < 255
  {
  }

  lemma TimerRun(o: Output, es: seq<Event>, n: nat, r: Relay)
    requires IsConfig(o.relay) && n < |es| && es[n].RulesRun? && TimerRight(o, es, n, r.delay)
    ensures TimerRight(o, es, n + 1, Do(r, Run(RisesIn(o, es, n), FallsIn(o, es, n)), o.relay).delay)
  {
    hide RisesIn, FallsIn, StartAt;
    var after, next := Do(r, Run(RisesIn(o, es, n), FallsIn(o, es, n)), o.relay), n + 1;
    forall k: nat | k < n ensures RunsBetween(es, k, n + 1) == RunsBetween(es, k, n) + 1 {}
    assert RunsBetween(es, n, n + 1) == 1;
    if k :| Pending(o, es, k, n) {
      StartIsRun(o, es, k);
      assert !StartAt(o, es, n) by { NotWhilePending(o, es, k, n); }
      forall j: nat | Pending(o, es, j, next)
        ensures after.delay == o.relay.delay - RunsBetween(es, j, n + 1)
      {
        assert Pending(o, es, j, n);
      }
      if r.delay > 0 { assert Pending(o, es, k, next); }
    } else {
      IdleStart(o, es, n);
      forall j: nat ensures Pending(o, es, j, next) <==> j == n && StartAt(o, es, n) && o.relay.delay > 0 {
        if j < n { assert !Pending(o, es, j, n); }
      }
      if StartAt(o, es, n) && o.relay.delay > 0 { assert Pending(o, es, n, next); }
    }
  }

  lemma NotWhilePending(o: Output, es: seq<Event>, k: nat, n: nat)
    requires n <= |es| && Pending(o, es, k, n)
    ensures !StartAt(o, es, n)
  {
  }

  lemma IdleStart(o: Output, es: seq<Event>, n: nat)
    requires n <= |es| && forall k :: !Pending(o, es, k, n)
    ensures StartAt(o, es, n) <==> RisesIn(o, es, n) && o.relay.delay < 255
  {
    hide RisesIn;
    forall k: nat | k < n && StartAt(o, es, k) ensures RunsBetween(es, k, n) > o.relay.delay {
      assert !Pending(o, es, k, n);
    }
  }

  /** The runs that switch the relay are those as many runs behind a start as the delay says. */
  lemma SwitchMeans(o: Output, es: seq<Event>, m: nat)
    requires IsConfig(o.relay) && m < |es|
    ensures SwitchedAt(o, es, m) <==> SwitchAt(o, es, m)
  {
    hide RelayAfter, StepOf, AlarmsOf, RisesIn, FallsIn, StartAt;
    TimerMeans(o, es, m);
    if es[m].RulesRun? {
      StepMeans(o, es, m);
      SwitchRun(o, es, m, RelayAfter(o, es[..m]));
    } else {
      TickStep(o, es, m);
    }
  }

  lemma SwitchRun(o: Output, es: seq<Event>, m: nat, r: Relay)
    requires IsConfig(o.relay) && m < |es| && es[m].RulesRun? && TimerRight(o, es, m, r.delay)
    ensures Fires(r, Run(RisesIn(o, es, m), FallsIn(o, es, m)), o.relay) <==> SwitchAt(o, es, m)
  {
    hide RisesIn, FallsIn, StartAt;
    if k :| Pending(o, es, k, m) {
      assert !StartAt(o, es, m) by { NotWhilePending(o, es, k, m); }
      if r.delay == 0 {
        assert StartAt(o, es, k) && RunsBetween(es, k, m) == o.relay.delay;
      }
      if SwitchAt(o, es, m) {
        var n :| 0 <= n <= m && StartAt(o, es, n) && RunsBetween(es, n, m) == o.relay.delay;
        assert Pending(o, es, n, m);
      }
    } else {
      IdleStart(o, es, m);
      forall n: nat | n < m && StartAt(o, es, n) ensures RunsBetween(es, n, m) > o.relay.delay {
        assert !Pending(o, es, n, m);
      }
      if StartAt(o, es, m) && o.relay.delay == 0 {
        assert RunsBetween(es, m, m) == o.relay.delay;
      }
    }
  }

  // ---- the output ----

  /** An output is on exactly when some run has switched it on and its mode has kept it on since. */
  lemma OutputMeans(o: Output, es: seq<Event>)
    requires IsConfig(o.relay)
    ensures RelayAfter(o, es).on <==> IsOn(o, es, |es|)
  {
    hide RelayAfter, IsOn;
    assert es[..|es|] == es;
    if o.relay.mode == 1 && o.relay.duration >= 10 {
      PulseMeans(o, es, |es|);
    } else {
      PlainMeans(o, es, |es|);
    }
  }

  lemma {:induction false} PlainMeans(o: Output, es: seq<Event>, n: nat)
    requires IsConfig(o.relay) && n <= |es| && (o.relay.mode == 1 ==> o.relay.duration < 10)
    ensures var r := RelayAfter(o, es[..n]); (r.on <==> IsOn(o, es, n)) && r.pulse == 0
    decreases n
  {
    hide RelayAfter, StepOf, AlarmsOf, SwitchAt, FallsIn, RisesIn, IsOn;
    if n == 0 {
      assert es[..0] == [];
      AtStart(o);
      NeverOnYet(o, es);
    } else {
      PlainMeans(o, es, n - 1);
      RelayNext(o, es, n - 1);
      SwitchMeans(o, es, n - 1);
      PlainNext(o, es, n - 1);
      if es[n - 1].RulesRun? { StepMeans(o, es, n - 1); } else { TickStep(o, es, n - 1); }
    }
  }

  lemma NeverOnYet(o: Output, es: seq<Event>)
    ensures !IsOn(o, es, 0)
  {
  }

  /** One more event: switching on wins over a fall in the same run. */
  lemma PlainNext(o: Output, es: seq<Event>, n: nat)
    requires n < |es| && (o.relay.mode == 1 ==> o.relay.duration < 10)
    ensures IsOn(o, es, n + 1) <==>
            SwitchAt(o, es, n) || (IsOn(o, es, n) && !(o.relay.mode == 0 && FallsIn(o, es, n)))
  {
    hide SwitchAt, FallsIn, TicksBetween;
    if SwitchAt(o, es, n) { assert KeptOn(o, es, n, n + 1); }
    if IsOn(o, es, n) && !(o.relay.mode == 0 && FallsIn(o, es, n)) {
      var m :| 0 <= m < n && SwitchAt(o, es, m) && KeptOn(o, es, m, n);
      assert KeptOn(o, es, m, n + 1);
    }
    if IsOn(o, es, n + 1) {
      var m :| 0 <= m < n + 1 && SwitchAt(o, es, m) && KeptOn(o, es, m, n + 1);
      if m < n { assert KeptOn(o, es, m, n); }
    }
  }

  /** The pulse counter covers every switching so far, and is the rest of one of them. */
  ghost predicate PulseRight(o: Output, es: seq<Event>, n: nat, r: Relay)
    requires n <= |es|
  {
    (r.on <==> r.pulse > 0) &&
    (forall m :: 0 <= m < n && SwitchAt(o, es, m) ==> r.pulse >= Left(o, es, m, n)) &&
    (r.pulse > 0 ==> exists m :: 0 <= m < n && SwitchAt(o, es, m) && r.pulse == Left(o, es, m, n))
  }

  /** The ticks left of a pulse that run m started. */
  function Left(o: Output, es: seq<Event>, m: nat, n: nat): int
    requires m < n <= |es|
  {
    o.relay.duration / 10 - TicksBetween(es, m + 1, n)
  }

  lemma {:induction false} PulseCounts(o: Output, es: seq<Event>, n: nat)
    requires IsConfig(o.relay) && n <= |es| && o.relay.mode == 1 && o.relay.duration >= 10
    ensures PulseRight(o, es, n, RelayAfter(o, es[..n]))
    decreases n
  {
    hide RelayAfter, StepOf, AlarmsOf, SwitchAt, FallsIn, RisesIn, PulseRight;
    if n == 0 {
      assert es[..0] == [];
      AtStart(o);
      PulseAtStart(o, es);
    } else {
      PulseCounts(o, es, n - 1);
      RelayNext(o, es, n - 1);
      SwitchMeans(o, es, n - 1);
      if es[n - 1].RulesRun? { StepMeans(o, es, n - 1); } else { TickStep(o, es, n - 1); }
      var s := StepOf(o.selected, AlarmsOf(es[..n - 1]), es[n - 1]);
      PulseNext(o, es, n - 1, RelayAfter(o, es[..n - 1]), s);
    }
  }

  lemma PulseAtStart(o: Output, es: seq<Event>)
    ensures PulseRight(o, es, 0, OFF)
  {
  }

  lemma PulseNext(o: Output, es: seq<Event>, n: nat, r: Relay, s: Step)
    requires n < |es| && o.relay.mode == 1 && o.relay.duration >= 10 && PulseRight(o, es, n, r)
    requires s.Run? <==> es[n].RulesRun?
    requires Fires(r, s, o.relay) <==> SwitchAt(o, es, n)
    ensures PulseRight(o, es, n + 1, Do(r, s, o.relay))
  {
    hide SwitchAt;
    var after := Do(r, s, o.relay);
    forall m: nat | m < n
      ensures Left(o, es, m, n + 1) == Left(o, es, m, n) - if es[n].PulseTick? then 1 else 0
    {}
    assert Left(o, es, n, n + 1) == o.relay.duration / 10;
    if SwitchAt(o, es, n) {
      assert after.pulse == Left(o, es, n, n + 1);
    } else if r.pulse > 0 {
      var m :| 0 <= m < n && SwitchAt(o, es, m) && r.pulse == Left(o, es, m, n);
      assert after.pulse == Left(o, es, m, n + 1);
    }
  }

  lemma PulseMeans(o: Output, es: seq<Event>, n: nat)
    requires IsConfig(o.relay) && n <= |es| && o.relay.mode == 1 && o.relay.duration >= 10
    ensures RelayAfter(o, es[..n]).on <==> IsOn(o, es, n)
  {
    hide RelayAfter, SwitchAt, TicksBetween;
    PulseCounts(o, es, n);
    var r := RelayAfter(o, es[..n]);
    if r.on {
      var m :| 0 <= m < n && SwitchAt(o, es, m) && r.pulse == Left(o, es, m, n);
      assert KeptOn(o, es, m, n);
    }
    if IsOn(o, es, n) {
      var m :| 0 <= m < n && SwitchAt(o, es, m) && KeptOn(o, es, m, n);
      assert r.pulse >= Left(o, es, m, n);
    }
  }

  /** The object itself, run from its start over any history: every output bit is what the history says. */
  method FromStart(es: seq<Event>, cfg: seq<Output>) returns (a: Alarms)
    requires IsSetUp(cfg) && forall i :: 0 <= i < |es| ==> IsEvent(es[i])
    ensures fresh(a) && a.Valid() && a.alarm[..] == AlarmsOf(es)
    ensures forall b :: 0 <= b < OUTPUTS ==> (b in a.outputs <==> IsOn(cfg[b], es, |es|))
  {
    hide Play, Trace, IsOn, AlarmsAt, Alarms.Sound, PulsesKept;
    a := new Alarms();
    Control(a, es, cfg);
    forall b | 0 <= b < OUTPUTS ensures b in a.outputs <==> IsOn(cfg[b], es, |es|) {
      OutputMeans(cfg[b], es);
      assert a.RelayAt(b).on == RelayAfter(cfg[b], es).on;
    }
  }
}
