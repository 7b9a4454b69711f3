/** The forced recharge: below a minimum cell voltage another state of charge is sent until the
    cells have recovered, then the function is locked for a while. */
module Recharge {

  datatype State = WaitOfMin | BelowMin | LockTimer

  /** The settings, unchanged over a run: voltages in millivolts, the lock time in calls. */
  datatype Settings = Settings(min: nat, end: nat, time: nat, soc: nat)

  /** The voltage that ends an episode. */
  function EndVoltage(c: Settings): nat {
    if c.end == 0 then c.min else c.end
  }

  /** The length of the lock: a 16-bit timer set to zero runs through all its values. */
  function LockTime(c: Settings): nat {
    if c.time == 0 then 0x1_0000 else c.time
  }

  datatype Machine = Machine(state: State, timer: nat)

  function Step(m: Machine, v: nat, c: Settings): Machine {
    match m.state
    case WaitOfMin => if v <= c.min then m.(state := BelowMin) else m
    case BelowMin => if v > EndVoltage(c) then Machine(LockTimer, c.time) else m
    case LockTimer =>
      var timer := if m.timer == 0 then 0xFFFF else m.timer - 1;
      Machine(if timer == 0 then WaitOfMin else LockTimer, timer)
  }

  const START: Machine := Machine(WaitOfMin, 0)

  /** The machine after a history of minimum cell voltages. */
  function After(vs: seq<nat>, c: Settings): Machine {
    if vs == [] then START else Step(After(vs[..|vs| - 1], c), vs[|vs| - 1], c)
  }

  /** Call k of a history sends the other state of charge. */
  predicate Override(vs: seq<nat>, k: nat, c: Settings)
    requires k < |vs|
  {
    After(vs[..k], c).state == BelowMin
  }

  lemma AfterNext(vs: seq<nat>, k: nat, c: Settings)
    requires k < |vs|
    ensures After(vs[..k + 1], c) == Step(After(vs[..k], c), vs[k], c)
  {
    assert vs[..k + 1][..k] == vs[..k];
  }

  lemma {:induction false} TimerFits(vs: seq<nat>, c: Settings)
    requires c.time < 0x1_0000
    ensures After(vs, c).timer < 0x1_0000
    decreases |vs|
  {
    if vs != [] { TimerFits(vs[..|vs| - 1], c); }
  }

  /** An episode goes on exactly while the cells have not recovered. */
  lemma OverrideGoesOnIff(vs: seq<nat>, k: nat, c: Settings)
    requires k + 1 < |vs| && Override(vs, k, c)
    ensures Override(vs, k + 1, c) <==> vs[k] <= EndVoltage(c)
  {
    AfterNext(vs, k, c);
  }

  /** After j calls of the lock the timer has come down by j. */
  lemma {:induction false} LockRuns(vs: seq<nat>, k: nat, j: nat, c: Settings)
    requires c.time < 0x1_0000 && k + 1 + j <= |vs| && j <= LockTime(c)
    requires Override(vs, k, c) && vs[k] > EndVoltage(c)
    ensures After(vs[..k + 1 + j], c)
         == if j == 0 then Machine(LockTimer, c.time)
            else Machine(if j == LockTime(c) then WaitOfMin else LockTimer, LockTime(c) - j)
    decreases j
  {
    if j == 0 {
      AfterNext(vs, k, c);
    } else {
      LockRuns(vs, k, j - 1, c);
      AfterNext(vs, k + j, c);
    }
  }

  /** When an episode ends, the next LockTime + 1 calls send the true state of charge, and the one
      after them sends the other one exactly if the cells are below the minimum again. */
  lemma LockSeparates(vs: seq<nat>, k: nat, j: nat, c: Settings)
    requires c.time < 0x1_0000 && k + j < |vs| && 0 < j <= LockTime(c) + 2
    requires Override(vs, k, c) && vs[k] > EndVoltage(c)
    ensures j <= LockTime(c) + 1 ==> !Override(vs, k + j, c)
    ensures j == LockTime(c) + 2 ==> (Override(vs, k + j, c) <==> vs[k + j - 1] <= c.min)
  {
    if j <= LockTime(c) + 1 {
      LockRuns(vs, k, j - 1, c);
    } else {
      LockRuns(vs, k, LockTime(c), c);
      AfterNext(vs, k + j - 1, c);
    }
  }

  /** Any two override calls with a call without override between them are at least
      LockTime + 2 calls apart. */
  lemma {:induction false} EpisodesApart(vs: seq<nat>, i: nat, k: nat, j: nat, c: Settings)
    requires c.time < 0x1_0000 && i < k < j < |vs|
    requires Override(vs, i, c) && !Override(vs, k, c) && Override(vs, j, c)
    ensures j - i >= LockTime(c) + 2
    decreases k - i
  {
    if Override(vs, i + 1, c) {
      EpisodesApart(vs, i + 1, k, j, c);
    } else {
      OverrideGoesOnIff(vs, i, c);
      if j - i < LockTime(c) + 2 {
        LockSeparates(vs, i, j - i, c);
      }
    }
  }

  /** A waiting call saw the minimum undershot, and since then the cells have not recovered. */
  ghost predicate Running(vs: seq<nat>, a: nat, k: nat, c: Settings) {
    a < k <= |vs| && After(vs[..a], c).state == WaitOfMin && vs[a] <= c.min &&
    forall i :: a < i < k ==> vs[i] <= EndVoltage(c)
  }

  lemma {:induction false} RunningOverrides(vs: seq<nat>, a: nat, k: nat, c: Settings)
    requires k < |vs| && Running(vs, a, k, c)
    ensures Override(vs, k, c)
    decreases k
  {
    AfterNext(vs, k - 1, c);
    if a < k - 1 { RunningOverrides(vs, a, k - 1, c); }
  }

  // ---- the episodes, read off the voltages alone ----

  /** The first call from a position on that sees the minimum undershot. */
  function FirstLow(vs: seq<nat>, from: nat, c: Settings): (a: nat)
    requires from <= |vs|
    ensures from <= a <= |vs| && forall i :: from <= i < a ==> vs[i] > c.min
    ensures a < |vs| ==> vs[a] <= c.min
    decreases |vs| - from
  {
    if from == |vs| || vs[from] <= c.min then from else FirstLow(vs, from + 1, c)
  }

  /** The first call from a position on that sees the cells recovered. */
  function FirstRecovered(vs: seq<nat>, from: nat, c: Settings): (r: nat)
    requires from <= |vs|
    ensures from <= r <= |vs|
    ensures c.end > 0 ==> (forall i :: from <= i < r ==> vs[i] <= c.end) && (r < |vs| ==> vs[r] > c.end)
    ensures c.end == 0 ==> (forall i :: from <= i < r ==> vs[i] <= c.min) && (r < |vs| ==> vs[r] > c.min)
    decreases |vs| - from
  {
    if from == |vs| || (if c.end > 0 then vs[from] > c.end else vs[from] > c.min) then from
    else FirstRecovered(vs, from + 1, c)
  }

  /** An episode: the call that undershoots the minimum and the one that ends it, if there is one. */
  datatype Episode = Episode(low: nat, recovered: nat)

  /** The episodes from a position on: each begins with the first undershot minimum, ends with the
      first recovery after it, and the next can begin when the lock time is over; a lock time of zero
      lasts for all the values of the timer. */
  function Episodes(vs: seq<nat>, from: nat, c: Settings): (es: seq<Episode>)
    ensures forall e :: e in es ==> from <= e.low < e.recovered
    decreases |vs| - from
  {
    if from >= |vs| || FirstLow(vs, from, c) == |vs| then []
    else
      var a := FirstLow(vs, from, c);
      var r := FirstRecovered(vs, a + 1, c);
      [Episode(a, r)] + Episodes(vs, r + 1 + (if c.time == 0 then 0x1_0000 else c.time), c)
  }

  ghost predicate InEpisode(es: seq<Episode>, k: nat) {
    exists e :: e in es && e.low < k <= e.recovered
  }

  /** A call sends the other state of charge if and only if it lies in an episode, behind the
      undershot minimum and no later than the recovery. */
  lemma OverrideIffEpisode(vs: seq<nat>, k: nat, c: Settings)
    requires c.time < 0x1_0000 && k < |vs|
    ensures Override(vs, k, c) <==> InEpisode(Episodes(vs, 0, c), k)
  {
    OverrideFrom(vs, 0, k, c);
  }

  lemma {:induction false} OverrideFrom(vs: seq<nat>, from: nat, k: nat, c: Settings)
    requires c.time < 0x1_0000 && from <= k < |vs| && After(vs[..from], c).state == WaitOfMin
    ensures Override(vs, k, c) <==> InEpisode(Episodes(vs, from, c), k)
    decreases |vs| - from
  {
    hide After, LockTime;
    var a := FirstLow(vs, from, c);
    if k <= a {
      Waits(vs, from, k, c);
    } else {
      var r := FirstRecovered(vs, a + 1, c);
      Waits(vs, from, a, c);
      if k <= r {
        RunningOverrides(vs, a, k, c);
        assert Episodes(vs, from, c)[0] == Episode(a, r);
      } else {
        RunningOverrides(vs, a, r, c);
        AfterEpisode(vs, a, r, from, k, c);
      }
    }
  }

  /** Until the first undershot minimum the machine waits. */
  lemma {:induction false} Waits(vs: seq<nat>, from: nat, k: nat, c: Settings)
    requires from <= k <= |vs| && k <= FirstLow(vs, from, c) && After(vs[..from], c).state == WaitOfMin
    ensures After(vs[..k], c).state == WaitOfMin
    decreases k
  {
    if from < k {
      Waits(vs, from, k - 1, c);
      AfterNext(vs, k - 1, c);
    }
  }

  /** Behind the first episode: the lock, and then the episodes that follow. */
  lemma {:induction false} AfterEpisode(vs: seq<nat>, a: nat, r: nat, from: nat, k: nat, c: Settings)
    requires c.time < 0x1_0000 && from <= a && a + 1 <= r < k < |vs|
    requires a == FirstLow(vs, from, c) && r == FirstRecovered(vs, a + 1, c) && Override(vs, r, c)
    ensures Override(vs, k, c) <==> InEpisode(Episodes(vs, from, c), k)
    decreases |vs| - from, 0
  {
    hide After, LockTime, Override, Episodes, FirstLow, FirstRecovered, InEpisode;
    var next := r + 1 + LockTime(c);
    FirstEpisode(vs, from, a, r, c);
    OthersOnly(Episode(a, r), Episodes(vs, next, c), k);
    if k <= next {
      LaterOnly(vs, next, k, c);
      LockSeparates(vs, r, k - r, c);
    } else {
      LockEnds(vs, r, c);
      OverrideFrom(vs, next, k, c);
    }
  }

  lemma FirstEpisode(vs: seq<nat>, from: nat, a: nat, r: nat, c: Settings)
    requires from <= a < |vs| && a == FirstLow(vs, from, c) && r == FirstRecovered(vs, a + 1, c)
    ensures Episodes(vs, from, c) == [Episode(a, r)] + Episodes(vs, r + 1 + LockTime(c), c)
  {
    hide FirstLow, FirstRecovered;
  }

  lemma LaterOnly(vs: seq<nat>, from: nat, k: nat, c: Settings)
    requires k <= from
    ensures !InEpisode(Episodes(vs, from, c), k)
  {
    hide Episodes;
  }

  lemma LockEnds(vs: seq<nat>, r: nat, c: Settings)
    requires c.time < 0x1_0000 && r + 1 + LockTime(c) <= |vs| && Override(vs, r, c) && vs[r] > EndVoltage(c)
    ensures After(vs[..r + 1 + LockTime(c)], c).state == WaitOfMin
  {
    LockRuns(vs, r, LockTime(c), c);
  }

  lemma OthersOnly(e: Episode, es: seq<Episode>, k: nat)
    requires e.recovered < k
    ensures InEpisode([e] + es, k) <==> InEpisode(es, k)
  {
    if InEpisode(es, k) {
      var x :| x in es && x.low < k <= x.recovered;
      assert x in [e] + es;
    }
  }

  /** An end voltage of zero stands for the minimum, for every history and call. */
  lemma ZeroEndIsMinimum(vs: seq<nat>, k: nat, c: Settings)
    requires k < |vs|
    ensures Override(vs, k, c.(end := 0)) <==> Override(vs, k, c.(end := c.min))
  {
    SameMachine(vs[..k], c);
  }

  lemma {:induction false} SameMachine(vs: seq<nat>, c: Settings)
    ensures After(vs, c.(end := 0)) == After(vs, c.(end := c.min))
    decreases |vs|
  {
    if vs != [] { SameMachine(vs[..|vs| - 1], c); }
  }

  /** A lock time of zero keeps the next 65537 calls after an episode from sending the other state of
      charge, and the one after them sends it if the minimum is undershot at once. */
  lemma ZeroTimeLocks(vs: seq<nat>, k: nat, j: nat, c: Settings)
    requires c.time == 0 && k + j < |vs| && 0 < j <= 0x1_0002
    requires Override(vs, k, c) && (if c.end > 0 then vs[k] > c.end else vs[k] > c.min)
    ensures j <= 0x1_0001 ==> !Override(vs, k + j, c)
    ensures j == 0x1_0002 ==> (Override(vs, k + j, c) <==> vs[k + j - 1] <= c.min)
  {
    LockSeparates(vs, k, j, c);
  }

  class SocOverride {
    var state: State
    var timer: nat
    /** The minimum cell voltages of all calls so far, with the settings fixed. */
    ghost var history: seq<nat>

    ghost predicate Valid(c: Settings)
      reads this
    {
      Machine(state, timer) == After(history, c) && timer < 0x1_0000 && c.time < 0x1_0000
    }

    constructor (c: Settings)
      requires c.time < 0x1_0000
      ensures Valid(c) && history == []
    {
      state, timer, history := WaitOfMin, 0, [];
    }

    /** The other state of charge is returned exactly on the override calls. */
    method Call(v: nat, soc: nat, c: Settings) returns (r: nat)
      requires Valid(c)
      modifies this
      ensures Valid(c) && history == old(history) + [v]
      ensures r == if Override(history, |history| - 1, c) then c.soc else soc
      ensures r == if InEpisode(Episodes(history, 0, c), |history| - 1) then c.soc else soc
    {
      hide InEpisode, Episodes, After;
      r := soc;
      ghost var before := history;
      history := history + [v];
      assert history[..|before|] == before;
      assert history[..|history|] == history;
      OverrideIffEpisode(history, |before|, c);
      AfterNext(history, |before|, c);
      match state {
        case WaitOfMin =>
          if v <= c.min { state := BelowMin; }
        case BelowMin =>
          var end := c.end;
          if end == 0 { end := c.min; }
          if v > end {
            timer := c.time;
            state := LockTimer;
          }
          r := c.soc;
        case LockTimer =>
          timer := (timer + 0xFFFF) % 0x1_0000;
          if timer == 0 { state := WaitOfMin; }
      }
    }
  }
}
