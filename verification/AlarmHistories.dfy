/** Relay outputs over whole histories of alarm runs and ticks: when a relay follows its triggers,
    and when it switches on and off. */
module AlarmHistories {
  import opened AlarmTriggers
  import opened AlarmRelays
  import opened AlarmRules

  /** Some selected trigger is on. */
  ghost predicate Active(selected: set<nat>, alarm: seq<bool>) {
    exists i :: 0 <= i < |alarm| && i in selected && alarm[i]
  }

  /** The relay after a history of events, from the start. */
  ghost function RelayAfter(o: Output, es: seq<Event>): Relay {
    Play(OFF, Trace(o.selected, AllOff(), es), o.relay)
  }

  ghost function AlarmsOf(es: seq<Event>): (alarm: seq<bool>)
    ensures |alarm| == ALARMS
  {
    AlarmsAt(AllOff(), es)
  }

  /** After every history the output is set exactly when a selected trigger is on. */
  ghost predicate Follows(o: Output) {
    forall es :: RelayAfter(o, es).on <==> Active(o.selected, AlarmsOf(es))
  }

  lemma OneMore(o: Output, es: seq<Event>)
    requires es != []
    ensures var init := es[..|es| - 1]; var e := es[|es| - 1];
            RelayAfter(o, es) == Do(RelayAfter(o, init), StepOf(o.selected, AlarmsOf(init), e), o.relay) &&
            AlarmsOf(es) == AlarmsAfter(AlarmsOf(init), e)
  {
    hide AlarmsAfter, StepOf, Do;
    assert es[..|es|] == es;
    PlayNext(OFF, o.selected, AllOff(), es, |es| - 1, o.relay);
  }

  lemma AtStart(o: Output)
    ensures RelayAfter(o, []) == OFF && AlarmsOf([]) == AllOff()
  {
  }

  // ---- following the triggers ----

  /** The selected triggers there are. */
  ghost function Selected(o: Output): set<nat> {
    set i | i in o.selected && i < ALARMS
  }

  lemma {:induction false} NoneSelected(o: Output, es: seq<Event>)
    requires Selected(o) == {}
    ensures !RelayAfter(o, es).on && RelayAfter(o, es).delay == IDLE
    decreases |es|
  {
    if es == [] {
      AtStart(o);
    } else {
      hide Play, Trace, AlarmsAt;
      NoneSelected(o, es[..|es| - 1]);
      OneMore(o, es);
      NoEdgeWithout(o, AlarmsOf(es[..|es| - 1]), es[|es| - 1]);
    }
  }

  lemma NoEdgeWithout(o: Output, alarm: seq<bool>, e: Event)
    requires Selected(o) == {}
    ensures var s := StepOf(o.selected, alarm, e); s == Step.Tick || s == Run(false, false)
  {
    forall i: nat | i < ALARMS ensures i !in o.selected {
      assert i in o.selected <==> i in Selected(o);
    }
  }

  /** The relay's timer is idle, its counter zero, and its bit says whether trigger k is on. */
  ghost predicate Mirrors(r: Relay, k: nat, alarm: seq<bool>)
    requires k < |alarm|
  {
    r.delay == IDLE && r.pulse == 0 && r.on == alarm[k]
  }

  lemma {:induction false} OneSelected(o: Output, k: nat, es: seq<Event>)
    requires Selected(o) == {k} && o.relay.mode == 0 && o.relay.delay == 0
    ensures k < ALARMS && Mirrors(RelayAfter(o, es), k, AlarmsOf(es))
    decreases |es|
  {
    assert k in Selected(o);
    if es == [] {
      AtStart(o);
    } else {
      hide Play, Trace, AlarmsAt;
      OneSelected(o, k, es[..|es| - 1]);
      OneMore(o, es);
      MirrorStep(o, k, RelayAfter(o, es[..|es| - 1]), AlarmsOf(es[..|es| - 1]), es[|es| - 1]);
    }
  }

  lemma MirrorStep(o: Output, k: nat, r: Relay, alarm: seq<bool>, e: Event)
    requires Selected(o) == {k} && o.relay.mode == 0 && o.relay.delay == 0
    requires k < ALARMS == |alarm| && Mirrors(r, k, alarm)
    ensures Mirrors(Do(r, StepOf(o.selected, alarm, e), o.relay), k, AlarmsAfter(alarm, e))
  {
    if e.RulesRun? {
      var was, now := if e.change then AllOn() else alarm, AlarmsAfter(alarm, e);
      OnlyEdgeOf(o, k, was, now);
    }
  }

  lemma OnlyEdgeOf(o: Output, k: nat, was: seq<bool>, now: seq<bool>)
    requires Selected(o) == {k} && k < ALARMS == |was| == |now|
    ensures Rises(o.selected, was, now, ALARMS) <==> !was[k] && now[k]
    ensures Falls(o.selected, was, now, ALARMS) <==> was[k] && !now[k]
  {
    assert k in Selected(o);
    forall i: nat | i < ALARMS && i in o.selected ensures i == k {
      assert i in Selected(o);
    }
  }

  /** A run in which only virtual triggers speak. */
  function VirtualRun(v: set<nat>): Event {
    RulesRun([], v, false)
  }

  lemma VirtualAlarms(alarm: seq<bool>, v: set<nat>, i: nat)
    requires i < ALARMS
    ensures AlarmsAfter(alarm, VirtualRun(v))[i] == (i in v)
  {
    var all := [] + VirtualCalls(v, ALARMS);
    assert all == VirtualCalls(v, ALARMS);
    assert all[i] == Call(i + 1, i in v, VIRTUAL_CAUSE);
    if Asserted(all, i) {
      var c :| c in all && c.on && c.nr == i + 1;
      var j :| 0 <= j < |all| && all[j] == c;
      assert j == i;
    }
  }

  lemma OneEvent(o: Output, e: Event)
    ensures RelayAfter(o, [e]) == Do(OFF, StepOf(o.selected, AllOff(), e), o.relay)
    ensures AlarmsOf([e]) == AlarmsAfter(AllOff(), e)
  {
    hide StepOf, Do, AlarmsAfter;
    assert [e][..0] == [];
    OneMore(o, [e]);
    AtStart(o);
  }

  /** With a delay, a relay is not on in the run in which its trigger comes on. */
  lemma DelayedDoesNotFollow(o: Output, k: nat)
    requires k in Selected(o) && o.relay.delay > 0
    ensures !RelayAfter(o, [VirtualRun({k})]).on && Active(o.selected, AlarmsOf([VirtualRun({k})]))
  {
    hide RelayAfter, AlarmsOf, AlarmsAfter;
    var e := VirtualRun({k});
    OneEvent(o, e);
    VirtualAlarms(AllOff(), {k}, k);
    assert AlarmsOf([e])[k];
  }

  /** A permanent relay shared by two triggers is off as soon as one of them falls, though the other
      is still on. */
  lemma SharedRelayCleared(o: Output, a: nat, b: nat)
    requires a != b && a in Selected(o) && b in Selected(o) && o.relay.mode == 0 && o.relay.delay == 0
    ensures RelayAfter(o, [VirtualRun({a, b})]).on
    ensures var es := [VirtualRun({a, b}), VirtualRun({a})];
            !RelayAfter(o, es).on && AlarmsOf(es)[a] && Active(o.selected, AlarmsOf(es))
  {
    hide AlarmsAfter, RelayAfter, AlarmsOf;
    var e, f := VirtualRun({a, b}), VirtualRun({a});
    OneEvent(o, e);
    BothRise(o, a, b);
    assert [e, f][..1] == [e];
    OneMore(o, [e, f]);
    VirtualAlarms(AlarmsOf([e]), {a}, a);
    OneFalls(o, a, b, AlarmsOf([e]));
    assert AlarmsOf([e, f])[a];
  }

  lemma BothRise(o: Output, a: nat, b: nat)
    requires a != b && a in Selected(o) && b in Selected(o) && o.relay.mode == 0 && o.relay.delay == 0
    ensures var r := Do(OFF, StepOf(o.selected, AllOff(), VirtualRun({a, b})), o.relay);
            r.on && r.delay == IDLE
    ensures AlarmsAfter(AllOff(), VirtualRun({a, b}))[b]
  {
    hide AlarmsAfter;
    VirtualAlarms(AllOff(), {a, b}, b);
    var now := AlarmsAfter(AllOff(), VirtualRun({a, b}));
    assert !AllOff()[b] && now[b];
    assert Rises(o.selected, AllOff(), now, ALARMS);
  }

  lemma OneFalls(o: Output, a: nat, b: nat, alarm: seq<bool>)
    requires a != b && a in Selected(o) && b in Selected(o)
    requires |alarm| == ALARMS && alarm == AlarmsAfter(AllOff(), VirtualRun({a, b}))
    ensures StepOf(o.selected, alarm, VirtualRun({a})) == Run(false, true)
  {
    hide AlarmsAfter;
    var now := AlarmsAfter(alarm, VirtualRun({a}));
    forall i | 0 <= i < ALARMS ensures alarm[i] == (i in {a, b}) && now[i] == (i in {a}) {
      VirtualAlarms(AllOff(), {a, b}, i);
      VirtualAlarms(alarm, {a}, i);
    }
    assert alarm[b] && !now[b];
    assert Falls(o.selected, alarm, now, ALARMS);
  }

  /** A permanent relay is on after every run and tick exactly when some selected trigger is on, if
      and only if no trigger is selected, or a single one and no delay is set. */
  lemma FollowsIff(o: Output)
    requires o.relay.mode == 0
    ensures Follows(o) <==> Selected(o) == {} || (|Selected(o)| == 1 && o.relay.delay == 0)
  {
    hide RelayAfter, AlarmsOf, Follows;
    if Selected(o) == {} {
      FollowsWithout(o);
    } else {
      var k :| k in Selected(o);
      if o.relay.delay > 0 {
        DelayedDoesNotFollow(o, k);
        FollowsNot(o, [VirtualRun({k})]);
      } else if |Selected(o)| == 1 {
        Singleton(Selected(o), k);
        FollowsOne(o, k);
      } else {
        var b := Another(Selected(o), k);
        SharedRelayCleared(o, k, b);
        FollowsNot(o, [VirtualRun({k, b}), VirtualRun({k})]);
      }
    }
  }

  lemma FollowsNot(o: Output, es: seq<Event>)
    requires RelayAfter(o, es).on != Active(o.selected, AlarmsOf(es))
    ensures !Follows(o)
  {
  }

  lemma FollowsWithout(o: Output)
    requires Selected(o) == {}
    ensures Follows(o)
  {
    hide RelayAfter;
    forall es ensures RelayAfter(o, es).on <==> Active(o.selected, AlarmsOf(es)) {
      NoneSelected(o, es);
      assert forall i: nat :: i < ALARMS ==> (i in o.selected <==> i in Selected(o));
    }
  }

  lemma FollowsOne(o: Output, k: nat)
    requires Selected(o) == {k} && o.relay.mode == 0 && o.relay.delay == 0
    ensures Follows(o)
  {
    hide RelayAfter;
    forall es ensures RelayAfter(o, es).on <==> Active(o.selected, AlarmsOf(es)) {
      OneSelected(o, k, es);
      assert k in Selected(o);
      if i :| 0 <= i < ALARMS && i in o.selected && AlarmsOf(es)[i] {
        assert i in Selected(o);
      }
    }
  }

  lemma Singleton(s: set<nat>, k: nat)
    requires k in s && |s| == 1
    ensures s == {k}
  {
    assert |s - {k}| == 0;
  }

  lemma Another(s: set<nat>, k: nat) returns (b: nat)
    requires k in s && |s| != 1
    ensures b in s && b != k
  {
    assert |s - {k}| == |s| - 1;
    b :| b in s - {k};
  }

  // ---- switching on and off ----

  /** The number of runs among the events from a on and before b. */
  function RunsBetween(es: seq<Event>, a: nat, b: nat): nat
    requires a <= b <= |es|
  {
    if a == b then 0 else RunsBetween(es, a, b - 1) + if es[b - 1].RulesRun? then 1 else 0
  }

  lemma {:induction false} TracePrefix(selected: set<nat>, alarm: seq<bool>, es: seq<Event>, n: nat)
    requires n <= |es|
    ensures Trace(selected, alarm, es)[..n] == Trace(selected, alarm, es[..n])
    decreases |es|
  {
    hide StepOf, AlarmsAt;
    if n == |es| {
      assert es[..n] == es;
    } else {
      var init := es[..|es| - 1];
      TracePrefix(selected, alarm, init, n);
      assert init[..n] == es[..n];
    }
  }

  lemma TraceAt(selected: set<nat>, alarm: seq<bool>, es: seq<Event>, n: nat)
    requires n < |es|
    ensures Trace(selected, alarm, es)[n] == StepOf(selected, AlarmsAt(alarm, es[..n]), es[n])
  {
    hide StepOf, AlarmsAt;
    TracePrefix(selected, alarm, es, n + 1);
    assert es[..n + 1][..n] == es[..n];
    assert Trace(selected, alarm, es)[n] == Trace(selected, alarm, es[..n + 1])[n];
  }

  lemma {:induction false} TraceRuns(selected: set<nat>, alarm: seq<bool>, es: seq<Event>, a: nat, b: nat)
    requires a <= b <= |es|
    ensures Runs(Trace(selected, alarm, es)[a..b]) == RunsBetween(es, a, b)
    ensures Ticks(Trace(selected, alarm, es)[a..b]) == b - a - RunsBetween(es, a, b)
    decreases b
  {
    hide Trace;
    if a < b {
      var ss := Trace(selected, alarm, es);
      TraceRuns(selected, alarm, es, a, b - 1);
      TraceAt(selected, alarm, es, b - 1);
      assert ss[a..b][..b - a - 1] == ss[a..b - 1];
    }
  }

  /** In run n a selected trigger comes on while the relay's timer is idle. */
  ghost predicate Starts(o: Output, es: seq<Event>, n: nat) {
    n < |es| && es[n].RulesRun? && RelayAfter(o, es[..n]).delay == IDLE &&
    exists i :: 0 <= i < ALARMS && i in o.selected && !AlarmsOf(es[..n])[i] && AlarmsOf(es[..n + 1])[i]
  }

  /** Event m switches the relay on. */
  ghost predicate SwitchedAt(o: Output, es: seq<Event>, m: nat) {
    m < |es| && Fires(RelayAfter(o, es[..m]), StepOf(o.selected, AlarmsOf(es[..m]), es[m]), o.relay)
  }

  lemma StartsWithEdge(o: Output, es: seq<Event>, n: nat)
    requires Starts(o, es, n)
    ensures var s := StepOf(o.selected, AlarmsOf(es[..n]), es[n]); s.Run? && s.rising
  {
    hide RelayAfter, AlarmsAfter;
    assert es[..n + 1][..n] == es[..n];
    OneMore(o, es[..n + 1]);
    var was, now := AlarmsOf(es[..n]), AlarmsOf(es[..n + 1]);
    var i :| 0 <= i < ALARMS && i in o.selected && !was[i] && now[i];
    assert now == AlarmsAfter(was, es[n]);
    NoAlarmOnChange(was, es[n], i);
    assert Rises(o.selected, was, now, ALARMS);
  }

  lemma NoAlarmOnChange(was: seq<bool>, e: Event, i: nat)
    requires i < ALARMS && e.RulesRun? && AlarmsAfter(was, e)[i]
    ensures !e.change
  {
  }

  /** The relay after m events is the relay after n events put through the steps between. */
  lemma RelayBetween(o: Output, es: seq<Event>, n: nat, m: nat)
    requires n <= m <= |es|
    ensures |Trace(o.selected, AllOff(), es)| == |es|
    ensures RelayAfter(o, es[..m]) == Play(RelayAfter(o, es[..n]), Trace(o.selected, AllOff(), es)[n..m], o.relay)
  {
    hide Trace, Play;
    var ss := Trace(o.selected, AllOff(), es);
    TracePrefix(o.selected, AllOff(), es, n);
    TracePrefix(o.selected, AllOff(), es, m);
    assert ss[..m] == ss[..n] + ss[n..m];
    PlayAppend(OFF, ss[..n], ss[n..m], o.relay);
  }

  lemma RelayNext(o: Output, es: seq<Event>, n: nat)
    requires n < |es|
    ensures RelayAfter(o, es[..n + 1])
         == Do(RelayAfter(o, es[..n]), StepOf(o.selected, AlarmsOf(es[..n]), es[n]), o.relay)
  {
    hide RelayAfter, StepOf, Do, AlarmsOf;
    assert es[..n + 1][..n] == es[..n];
    OneMore(o, es[..n + 1]);
  }

  /** While the delay of a start in run n runs, the timer tells how many runs are left. */
  lemma DelayLeft(o: Output, es: seq<Event>, n: nat, m: nat)
    requires Starts(o, es, n) && n < m <= |es| && 0 < o.relay.delay < IDLE
    requires RunsBetween(es, n + 1, m) < o.relay.delay
    ensures RelayAfter(o, es[..m]).delay == o.relay.delay - 1 - RunsBetween(es, n + 1, m)
  {
    hide RelayAfter, StepOf, Play, Trace;
    StartsWithEdge(o, es, n);
    RelayNext(o, es, n);
    RelayBetween(o, es, n + 1, m);
    TraceRuns(o.selected, AllOff(), es, n + 1, m);
    DelayCounts(RelayAfter(o, es[..n + 1]), Trace(o.selected, AllOff(), es)[n + 1..m], o.relay);
  }

  /** A selected trigger that comes on in run n sets the output bit in the d-th run after it, d the
      delay, and no event between the two switches the relay on, whatever happens in between. */
  lemma EdgeSetsOutput(o: Output, es: seq<Event>, n: nat, m: nat)
    requires Starts(o, es, n) && n <= m < |es| && o.relay.delay < IDLE && es[m].RulesRun?
    requires m == n || RunsBetween(es, n + 1, m) < o.relay.delay
    ensures SwitchedAt(o, es, m) <==> RunsBetween(es, n, m) == o.relay.delay
    ensures SwitchedAt(o, es, m) ==> RelayAfter(o, es[..m + 1]).on
  {
    hide RelayAfter, StepOf, AlarmsOf;
    RelayNext(o, es, m);
    StartsWithEdge(o, es, n);
    if m > n {
      RunsFrom(es, n, m);
      DelayLeft(o, es, n, m);
      assert StepOf(o.selected, AlarmsOf(es[..m]), es[m]).Run? by { StepIsRun(o, es, m); }
    }
  }

  lemma StepIsRun(o: Output, es: seq<Event>, m: nat)
    requires m < |es|
    ensures StepOf(o.selected, AlarmsOf(es[..m]), es[m]).Run? <==> es[m].RulesRun?
  {
  }

  lemma {:induction false} RunsFrom(es: seq<Event>, n: nat, m: nat)
    requires n < m <= |es| && es[n].RulesRun?
    ensures RunsBetween(es, n, m) == 1 + RunsBetween(es, n + 1, m)
    decreases m
  {
    if n + 1 < m { RunsFrom(es, n, m - 1); }
  }

  /** A pulse that event m starts and no later event starts again lasts exactly its duration in ticks. */
  lemma PulseLasts(o: Output, es: seq<Event>, m: nat, k: nat)
    requires SwitchedAt(o, es, m) && m < k <= |es| && o.relay.mode == 1 && o.relay.duration >= 10
    requires forall j :: m < j < k ==> !SwitchedAt(o, es, j)
    ensures RelayAfter(o, es[..k]).on <==> k - (m + 1) - RunsBetween(es, m + 1, k) < o.relay.duration / 10
  {
    hide RelayAfter, StepOf, AlarmsOf, Play, Trace, Firings;
    RelayNext(o, es, m);
    PulseStarts(RelayAfter(o, es[..m]), StepOf(o.selected, AlarmsOf(es[..m]), es[m]), o.relay);
    RelayBetween(o, es, m + 1, k);
    TraceRuns(o.selected, AllOff(), es, m + 1, k);
    NotSwitched(o, es, m + 1, k);
    PulseEnds(RelayAfter(o, es[..m + 1]), Trace(o.selected, AllOff(), es)[m + 1..k], o.relay);
  }

  lemma {:induction false} NotSwitched(o: Output, es: seq<Event>, n: nat, k: nat)
    requires n <= k <= |es| && forall j :: n <= j < k ==> !SwitchedAt(o, es, j)
    ensures Firings(RelayAfter(o, es[..n]), Trace(o.selected, AllOff(), es)[n..k], o.relay) == 0
    decreases k
  {
    hide RelayAfter, StepOf, AlarmsOf, Play, Trace, Fires;
    if n < k {
      var ss := Trace(o.selected, AllOff(), es);
      NotSwitched(o, es, n, k - 1);
      RelayBetween(o, es, n, k - 1);
      TraceAt(o.selected, AllOff(), es, k - 1);
      assert ss[n..k][..k - n - 1] == ss[n..k - 1];
      assert !SwitchedAt(o, es, k - 1);
      assert AlarmsOf(es[..k - 1]) == AlarmsAt(AllOff(), es[..k - 1]) by { AlarmsAre(es[..k - 1]); }
    }
  }

  lemma AlarmsAre(es: seq<Event>)
    ensures AlarmsOf(es) == AlarmsAt(AllOff(), es)
  {
  }
}
