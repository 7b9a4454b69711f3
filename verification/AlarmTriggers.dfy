/** Triggers and their causes: what one run of the rules makes of the calls to setAlarm, and the
    log of the causes that come and go. */
module AlarmTriggers {

  const ALARMS: nat := 10
  const CAUSES: nat := 16
  const VIRTUAL_CAUSE: nat := 10

  /** A call of setAlarm: triggers are numbered from one, and zero selects none. */
  datatype Call = Call(nr: nat, on: bool, cause: nat)

  predicate IsCall(c: Call) {
    c.nr <= ALARMS && c.cause < CAUSES
  }

  datatype Triggers = Triggers(alarm: seq<bool>, activated: seq<bool>, cause: seq<set<nat>>)

  predicate Shaped(t: Triggers) {
    |t.alarm| == |t.activated| == |t.cause| == ALARMS
  }

  /** The effect of one call. */
  function Signal(t: Triggers, c: Call): (u: Triggers)
    requires Shaped(t) && IsCall(c)
    ensures Shaped(u)
  {
    if c.nr == 0 then t
    else
      var i := c.nr - 1;
      if c.on then
        Triggers(t.alarm[i := true], t.activated[i := true], t.cause[i := t.cause[i] + {c.cause}])
      else if !t.activated[i] then t.(alarm := t.alarm[i := false])
      else t
  }

  function Signals(t: Triggers, cs: seq<Call>): (u: Triggers)
    requires Shaped(t) && forall c :: c in cs ==> IsCall(c)
    ensures Shaped(u)
  {
    if cs == [] then t else Signal(Signals(t, cs[..|cs| - 1]), cs[|cs| - 1])
  }

  /** A run starts with no trigger activated and no cause, but with the alarms of the last run. */
  function RunStart(alarm: seq<bool>): Triggers {
    Triggers(alarm, seq(ALARMS, _ => false), seq(ALARMS, _ => {}))
  }

  /** The calls made for the virtual triggers, one for every trigger. */
  function VirtualCalls(v: set<nat>, n: nat): (cs: seq<Call>)
    ensures |cs| == n
    ensures forall i :: 0 <= i < n ==> cs[i] == Call(i + 1, i in v, VIRTUAL_CAUSE)
  {
    seq(n, i requires 0 <= i < n => Call(i + 1, i in v, VIRTUAL_CAUSE))
  }

  ghost predicate Asserted(cs: seq<Call>, i: nat) {
    exists c :: c in cs && c.on && c.nr == i + 1
  }

  ghost function CausesOf(cs: seq<Call>, i: nat): set<nat> {
    set c | c in cs && c.on && c.nr == i + 1 :: c.cause
  }

  ghost predicate Mentioned(cs: seq<Call>, i: nat) {
    exists c :: c in cs && c.nr == i + 1
  }

  /** What a list of calls leaves for trigger i. */
  ghost predicate Outcome(alarm: seq<bool>, cs: seq<Call>, i: nat, u: Triggers)
    requires Shaped(u) && |alarm| == ALARMS && i < ALARMS
  {
    u.activated[i] == Asserted(cs, i) &&
    u.cause[i] == CausesOf(cs, i) &&
    u.alarm[i] == (Asserted(cs, i) || (!Mentioned(cs, i) && alarm[i]))
  }

  lemma CallsSplit(cs: seq<Call>, i: nat)
    requires cs != []
    ensures var last := cs[|cs| - 1]; var init := cs[..|cs| - 1];
            (Asserted(cs, i) <==> Asserted(init, i) || (last.on && last.nr == i + 1)) &&
            (Mentioned(cs, i) <==> Mentioned(init, i) || last.nr == i + 1) &&
            CausesOf(cs, i) == CausesOf(init, i) + if last.on && last.nr == i + 1 then {last.cause} else {}
  {
    var last, init := cs[|cs| - 1], cs[..|cs| - 1];
    assert cs == init + [last];
    assert forall c :: c in cs <==> c in init || c == last;
  }

  lemma {:induction false} SignalsOutcome(alarm: seq<bool>, cs: seq<Call>, i: nat)
    requires |alarm| == ALARMS && i < ALARMS && forall c :: c in cs ==> IsCall(c)
    ensures Outcome(alarm, cs, i, Signals(RunStart(alarm), cs))
    decreases |cs|
  {
    hide Asserted, Mentioned, CausesOf;
    if cs == [] {
      NoCalls(i);
    } else {
      SignalsOutcome(alarm, cs[..|cs| - 1], i);
      CallsSplit(cs, i);
    }
  }

  lemma NoCalls(i: nat)
    ensures !Asserted([], i) && !Mentioned([], i) && CausesOf([], i) == {}
  {
  }

  /** Since the virtual triggers touch every trigger, a trigger is on after the rules exactly when
      some rule asserted it in this run, whatever it was before and in whatever order the rules
      spoke; and that is so exactly when it has a cause. */
  lemma RunOutcome(alarm: seq<bool>, cs: seq<Call>, v: set<nat>, i: nat)
    requires |alarm| == ALARMS && i < ALARMS && forall c :: c in cs ==> IsCall(c)
    ensures var all := cs + VirtualCalls(v, ALARMS);
            var u := Signals(RunStart(alarm), all);
            u.cause[i] == CausesOf(all, i) && (u.alarm[i] <==> Asserted(all, i)) &&
            (u.alarm[i] <==> u.cause[i] != {})
  {
    hide Signals;
    var all := cs + VirtualCalls(v, ALARMS);
    assert VirtualCalls(v, ALARMS)[i] in all;
    SignalsOutcome(alarm, all, i);
    CausesIffAsserted(all, i);
  }

  lemma CausesIffAsserted(cs: seq<Call>, i: nat)
    ensures CausesOf(cs, i) != {} <==> Asserted(cs, i)
  {
    if c :| c in cs && c.on && c.nr == i + 1 {
      assert c.cause in CausesOf(cs, i);
    }
  }

  /** The order of the calls does not matter. */
  lemma OrderIrrelevant(alarm: seq<bool>, cs: seq<Call>, ds: seq<Call>, v: set<nat>)
    requires |alarm| == ALARMS && multiset(cs) == multiset(ds) && forall c :: c in cs ==> IsCall(c)
    ensures forall c :: c in ds ==> IsCall(c)
    ensures Signals(RunStart(alarm), cs + VirtualCalls(v, ALARMS))
         == Signals(RunStart(alarm), ds + VirtualCalls(v, ALARMS))
  {
    hide Signals, CausesOf, Asserted, Outcome;
    assert forall c :: c in cs <==> c in multiset(cs);
    assert forall c :: c in ds <==> c in multiset(ds);
    var xs, ys := cs + VirtualCalls(v, ALARMS), ds + VirtualCalls(v, ALARMS);
    var t, u := Signals(RunStart(alarm), xs), Signals(RunStart(alarm), ys);
    assert forall c :: c in xs <==> c in ys;
    forall i | 0 <= i < ALARMS
      ensures t.alarm[i] == u.alarm[i] && t.cause[i] == u.cause[i] && t.activated[i] == u.activated[i]
    {
      SameCalls(xs, ys, i);
      RunOutcome(alarm, cs, v, i);
      RunOutcome(alarm, ds, v, i);
      ActivatedOutcome(alarm, xs, i);
      ActivatedOutcome(alarm, ys, i);
    }
    assert t.alarm == u.alarm && t.cause == u.cause && t.activated == u.activated;
  }

  lemma ActivatedOutcome(alarm: seq<bool>, cs: seq<Call>, i: nat)
    requires |alarm| == ALARMS && i < ALARMS && forall c :: c in cs ==> IsCall(c)
    ensures Signals(RunStart(alarm), cs).activated[i] == Asserted(cs, i)
  {
    SignalsOutcome(alarm, cs, i);
  }

  lemma SameCalls(xs: seq<Call>, ys: seq<Call>, i: nat)
    requires forall c :: c in xs <==> c in ys
    ensures CausesOf(xs, i) == CausesOf(ys, i) && Asserted(xs, i) == Asserted(ys, i)
  {
  }

  // ---- the log ----

  datatype Entry = Entry(trigger: nat, cause: nat, high: bool)

  predicate IsEntry(e: Entry) {
    e.trigger < ALARMS && e.cause < CAUSES
  }

  function Logged(w: seq<set<nat>>, e: Entry): seq<set<nat>>
    requires |w| == ALARMS
  {
    if e.trigger >= ALARMS then w
    else w[e.trigger := if e.high then w[e.trigger] + {e.cause} else w[e.trigger] - {e.cause}]
  }

  /** The cause words that reading the log from its start gives. */
  function Replay(log: seq<Entry>): (w: seq<set<nat>>)
    ensures |w| == ALARMS
  {
    if log == [] then seq(ALARMS, _ => {}) else Logged(Replay(log[..|log| - 1]), log[|log| - 1])
  }

  /** Every entry tells of a change: high where the cause was absent, low where it was present. */
  ghost predicate Changes(log: seq<Entry>) {
    forall k :: 0 <= k < |log| ==>
      IsEntry(log[k]) && (log[k].high <==> log[k].cause !in Replay(log[..k])[log[k].trigger])
  }

  ghost predicate SameSubject(a: Entry, b: Entry) {
    a.trigger == b.trigger && a.cause == b.cause
  }

  /** The cause of entry i stays as the entry left it until the next entry on the same subject. */
  lemma {:induction false} Holds(log: seq<Entry>, i: nat, j: nat)
    requires i < j <= |log| && Changes(log)
    requires forall k :: i < k < j ==> !SameSubject(log[k], log[i])
    ensures log[i].cause in Replay(log[..j])[log[i].trigger] <==> log[i].high
    decreases j
  {
    assert log[..j][..j - 1] == log[..j - 1];
    if j - 1 > i {
      Holds(log, i, j - 1);
    }
  }

  /** For each trigger and cause, high and low entries alternate, beginning with high. */
  lemma Alternate(log: seq<Entry>, i: nat, j: nat)
    requires i < j < |log| && Changes(log) && SameSubject(log[i], log[j])
    requires forall k :: i < k < j ==> !SameSubject(log[k], log[i])
    ensures log[i].high != log[j].high
  {
    Holds(log, i, j);
  }

  lemma {:induction false} AbsentBefore(log: seq<Entry>, j: nat, t: nat, c: nat)
    requires j <= |log| && t < ALARMS && Changes(log)
    requires forall k :: 0 <= k < j ==> !(log[k].trigger == t && log[k].cause == c)
    ensures c !in Replay(log[..j])[t]
    decreases j
  {
    if j > 0 {
      assert log[..j][..j - 1] == log[..j - 1];
      AbsentBefore(log, j - 1, t, c);
    }
  }

  lemma FirstIsHigh(log: seq<Entry>, j: nat)
    requires j < |log| && Changes(log)
    requires forall k :: 0 <= k < j ==> !SameSubject(log[k], log[j])
    ensures log[j].high
  {
    AbsentBefore(log, j, log[j].trigger, log[j].cause);
  }

  lemma ChangesGrow(log: seq<Entry>, e: Entry)
    requires Changes(log) && IsEntry(e)
    requires e.high <==> e.cause !in Replay(log)[e.trigger]
    ensures Changes(log + [e]) && Replay(log + [e]) == Logged(Replay(log), e)
  {
    var more := log + [e];
    assert more[..|log|] == log;
    forall k | 0 <= k < |log| ensures more[..k] == log[..k] {}
  }
}
