/** The rules that set a trigger by the state of charge, with a hysteresis kept in one bit per rule. */
module AlarmSoc {
  import opened AlarmTriggers

  const SOC_CAUSE: nat := 8

  /** Trigger zero switches a rule off. With on above off the rule acts at high values, with on
      below off at low ones, and with both equal never. */
  datatype Rule = Rule(trigger: nat, on: nat, off: nat)

  datatype Reading = Reading(online: bool, soc: nat)

  predicate Reached(r: Rule, soc: nat) {
    (r.on > r.off && soc >= r.on) || (r.off > r.on && soc <= r.on)
  }

  predicate Beyond(r: Rule, soc: nat) {
    (r.on > r.off && soc > r.off) || (r.off > r.on && soc < r.off)
  }

  /** The hysteresis bit of a rule after a reading. */
  function Mark(marked: bool, x: Reading, r: Rule): bool {
    x.online && Beyond(r, x.soc) && (Reached(r, x.soc) || marked)
  }

  function MarkAfter(h: seq<Reading>, r: Rule): bool {
    if h == [] then false else Mark(MarkAfter(h[..|h| - 1], r), h[|h| - 1], r)
  }

  /** Reading s reached the switching-on value, and since then a pack has been online and the
      value has stayed beyond the switching-off value. */
  ghost predicate Since(h: seq<Reading>, s: nat, r: Rule) {
    s < |h| &&
    (if r.on > r.off then
       h[s].soc >= r.on && forall i :: s <= i < |h| ==> h[i].online && h[i].soc > r.off
     else
       r.on < r.off && h[s].soc <= r.on && forall i :: s <= i < |h| ==> h[i].online && h[i].soc < r.off)
  }

  /** A rule holds its trigger exactly from reaching the one value to leaving the other. */
  lemma {:induction false} MarkedIff(h: seq<Reading>, r: Rule)
    ensures MarkAfter(h, r) <==> exists s :: Since(h, s, r)
    decreases |h|
  {
    if h != [] {
      var n := |h| - 1;
      var init := h[..n];
      MarkedIff(init, r);
      if MarkAfter(h, r) {
        if Reached(r, h[n].soc) {
          assert Since(h, n, r);
        } else {
          var s: nat :| Since(init, s, r);
          assert Since(h, s, r);
        }
      }
      if s: nat :| Since(h, s, r) {
        if s < n { assert Since(init, s, r); }
      }
    }
  }

  /** What a list of calls says of the rules worked off so far: exactly the triggers of marked rules
      are asserted. */
  ghost predicate Speaks(calls: seq<Call>, rules: seq<Rule>, marker: set<nat>, n: nat) {
    (forall c :: c in calls ==> IsCall(c) && c.cause == SOC_CAUSE) &&
    forall i: nat :: Asserted(calls, i) <==> Holding(rules, marker, i, n)
  }

  /** A rule below n for trigger i (counted from zero) holds it. */
  ghost predicate Holding(rules: seq<Rule>, marker: set<nat>, i: nat, n: nat) {
    exists k :: 0 <= k < n && k < |rules| && rules[k].trigger == i + 1 && k in marker
  }

  /** Some rule for trigger i has reached its value and not left it since. */
  ghost predicate Held(rules: seq<Rule>, h: seq<Reading>, i: nat) {
    exists k: nat, s: nat :: k < |rules| && rules[k].trigger == i + 1 && Since(h, s, rules[k])
  }

  lemma SpeaksNext(calls: seq<Call>, rules: seq<Rule>, marker: set<nat>, marker': set<nat>, n: nat, more: seq<Call>)
    requires n < |rules| && Speaks(calls, rules, marker, n)
    requires rules[n].trigger <= ALARMS && forall k :: 0 <= k < n ==> (k in marker' <==> k in marker)
    requires rules[n].trigger == 0 ==> more == []
    requires rules[n].trigger > 0 ==>
               if n in marker' then more == [Call(rules[n].trigger, true, SOC_CAUSE)]
               else more == [] || more == [Call(rules[n].trigger, false, SOC_CAUSE)]
    ensures Speaks(calls + more, rules, marker', n + 1)
  {
    forall i: nat ensures Asserted(calls + more, i) <==> Holding(rules, marker', i, n + 1) {
      HoldingNext(rules, marker, marker', i, n);
      AssertedMore(calls, more, i);
    }
  }

  lemma HoldingNext(rules: seq<Rule>, marker: set<nat>, marker': set<nat>, i: nat, n: nat)
    requires n < |rules| && forall k :: 0 <= k < n ==> (k in marker' <==> k in marker)
    ensures Holding(rules, marker', i, n + 1) <==>
            Holding(rules, marker, i, n) || (rules[n].trigger == i + 1 && n in marker')
  {
  }

  lemma AssertedMore(calls: seq<Call>, more: seq<Call>, i: nat)
    ensures Asserted(calls + more, i) <==> Asserted(calls, i) || Asserted(more, i)
  {
  }

  class SocRules {
    /** The rules whose hysteresis bit is set. */
    var marker: set<nat>
    /** All readings so far, with the rules fixed. */
    ghost var history: seq<Reading>

    ghost predicate Valid(rules: seq<Rule>)
      reads this
    {
      (forall k :: 0 <= k < |rules| ==> rules[k].trigger <= ALARMS) &&
      forall k :: 0 <= k < |rules| && rules[k].trigger > 0 ==> (k in marker <==> MarkAfter(history, rules[k]))
    }

    constructor (rules: seq<Rule>)
      requires forall k :: 0 <= k < |rules| ==> rules[k].trigger <= ALARMS
      ensures Valid(rules) && history == []
    {
      marker, history := {}, [];
    }

    /** One run of the rules: the triggers asserted are exactly those of rules that hold them. */
    method Run(x: Reading, rules: seq<Rule>) returns (calls: seq<Call>)
      requires Valid(rules)
      modifies this
      ensures Valid(rules) && history == old(history) + [x]
      ensures forall c :: c in calls ==> IsCall(c) && c.cause == SOC_CAUSE
      ensures forall i: nat :: Asserted(calls, i) <==> Held(rules, history, i)
    {
      hide Since, Asserted;
      ghost var before := history;
      forall k | 0 <= k < |rules| && rules[k].on == rules[k].off ensures !MarkAfter(before, rules[k]) {
        EqualNeverMarks(before, rules[k]);
      }
      history := history + [x];
      assert history[..|before|] == before;
      if !x.online {
        marker := {};
        calls := [];
        SpeaksNone(rules, marker);
      } else {
        calls := Apply(x.soc, rules);
      }
      Conclude(calls, rules);
    }

    method Apply(soc: nat, rules: seq<Rule>) returns (calls: seq<Call>)
      requires forall k :: 0 <= k < |rules| ==> rules[k].trigger <= ALARMS
      requires forall k :: 0 <= k < |rules| && rules[k].trigger > 0 && rules[k].on == rules[k].off ==> k !in marker
      modifies this`marker
      ensures Speaks(calls, rules, marker, |rules|)
      ensures forall k :: 0 <= k < |rules| && rules[k].trigger > 0 ==>
                (k in marker <==> Mark(k in old(marker), Reading(true, soc), rules[k]))
    {
      hide Speaks;
      calls := [];
      SpeaksStart(rules, marker);
      for n := 0 to |rules|
        invariant Speaks(calls, rules, marker, n)
        invariant forall k :: 0 <= k < n && rules[k].trigger > 0 ==>
                    (k in marker <==> Mark(k in old(marker), Reading(true, soc), rules[k]))
        invariant forall k :: n <= k ==> (k in marker <==> k in old(marker))
      {
        var r, was, more := rules[n], marker, [];
        if r.trigger > 0 {
          if r.on > r.off {
            if (soc >= r.on || n in marker) && soc > r.off {
              marker := marker + {n};
              more := [Call(r.trigger, true, SOC_CAUSE)];
            } else if soc <= r.off && n in marker {
              marker := marker - {n};
              more := [Call(r.trigger, false, SOC_CAUSE)];
            }
          } else if r.off > r.on {
            if (soc <= r.on || n in marker) && soc < r.off {
              marker := marker + {n};
              more := [Call(r.trigger, true, SOC_CAUSE)];
            } else if soc >= r.off && n in marker {
              marker := marker - {n};
              more := [Call(r.trigger, false, SOC_CAUSE)];
            }
          }
        }
        SpeaksNext(calls, rules, was, marker, n, more);
        calls := calls + more;
      }
    }

    lemma Conclude(calls: seq<Call>, rules: seq<Rule>)
      requires Valid(rules) && Speaks(calls, rules, marker, |rules|)
      ensures forall i: nat :: Asserted(calls, i) <==> Held(rules, history, i)
    {
      hide Since, Asserted;
      forall i: nat ensures Holding(rules, marker, i, |rules|) <==> Held(rules, history, i) {
        forall k: nat | k < |rules| && rules[k].trigger == i + 1
          ensures k in marker <==> exists s :: Since(history, s, rules[k])
        {
          MarkedIff(history, rules[k]);
        }
      }
    }
  }

  /** A rule with both values equal never holds anything. */
  lemma EqualNeverMarks(h: seq<Reading>, r: Rule)
    requires r.on == r.off
    ensures !MarkAfter(h, r)
  {
  }

  lemma SpeaksStart(rules: seq<Rule>, marker: set<nat>)
    ensures Speaks([], rules, marker, 0)
  {
  }

  lemma SpeaksNone(rules: seq<Rule>, marker: set<nat>)
    requires marker == {}
    ensures Speaks([], rules, marker, |rules|)
  {
  }
}
