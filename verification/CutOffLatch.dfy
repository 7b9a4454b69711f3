/** The charge cut-off: after a time of charging with little current the charge current is set to
    zero until the state of charge drops below the release value. */
module CutOffLatch {

  /** What one call sees: the inverter current in tenths of an ampere and the state of charge, the
      latter already cut to a byte. */
  datatype Sample = Sample(current: int, soc: nat)

  /** The settings, unchanged over a run. */
  datatype Settings = Settings(time: nat, current: real, soc: nat)

  /** Integer division as the code does it, towards zero. */
  function Tenth(a: int): int {
    if a >= 0 then a / 10 else -(-a / 10)
  }

  predicate Low(s: Sample, c: Settings) {
    Tenth(s.current) as real < c.current
  }

  /** The whole amperes of a current in tenths, rounded towards zero. */
  ghost predicate WholeAmperes(q: int, tenths: int) {
    if tenths >= 0 then 10 * q <= tenths < 10 * q + 10 else 10 * q - 10 < tenths <= 10 * q
  }

  /** A current is low when its whole amperes are below the limit. */
  lemma LowMeans(s: Sample, c: Settings, q: int)
    requires WholeAmperes(q, s.current)
    ensures Low(s, c) <==> q as real < c.current
  {
    assert Tenth(s.current) == q;
  }

  predicate High(s: Sample, c: Settings) {
    s.soc >= c.soc
  }

  /** The timer after a call. */
  function Tick(timer: nat, s: Sample, c: Settings): nat {
    if c.time == 0 then timer
    else if timer >= c.time then (if High(s, c) then timer else 0)
    else if Low(s, c) && High(s, c) then timer + 1
    else 0
  }

  /** The timer after a history of calls. */
  function Timer(h: seq<Sample>, c: Settings): nat {
    if h == [] then 0 else Tick(Timer(h[..|h| - 1], c), h[|h| - 1], c)
  }

  /** From call a on, n calls in a row had a low current and a state of charge that was not below the
      release value. */
  ghost predicate Block(h: seq<Sample>, c: Settings, a: nat, n: nat) {
    a + n <= |h| && forall i :: a <= i < a + n ==> Low(h[i], c) && h[i].soc >= c.soc
  }

  ghost predicate HighFrom(h: seq<Sample>, c: Settings, a: nat) {
    forall i :: a <= i < |h| ==> h[i].soc >= c.soc
  }

  ghost predicate Latched(h: seq<Sample>, c: Settings) {
    exists a: nat :: Block(h, c, a, c.time) && HighFrom(h, c, a)
  }

  lemma {:induction false} TimerBound(h: seq<Sample>, c: Settings)
    ensures Timer(h, c) <= c.time
    decreases |h|
  {
    if h != [] { TimerBound(h[..|h| - 1], c); }
  }

  /** While it counts, the timer is the length of a run of low calls that ends now. */
  lemma {:induction false} CountsTheLast(h: seq<Sample>, c: Settings)
    requires Timer(h, c) < c.time
    ensures Timer(h, c) <= |h| && Block(h, c, |h| - Timer(h, c), Timer(h, c))
    decreases |h|
  {
    if h != [] && Timer(h, c) > 0 {
      CountsTheLast(h[..|h| - 1], c);
    }
  }

  lemma {:induction false} LastAreCounted(h: seq<Sample>, c: Settings, n: nat)
    requires n <= |h| && n <= c.time && Block(h, c, |h| - n, n)
    ensures Timer(h, c) >= n
    decreases |h|
  {
    if n > 0 {
      var init := h[..|h| - 1];
      assert Block(init, c, |init| - (n - 1), n - 1);
      LastAreCounted(init, c, n - 1);
    }
  }

  /** The timer has run out exactly when there is a block of the set time since which the state of
      charge has been high on every call. */
  lemma {:induction false} RunOutIffLatched(h: seq<Sample>, c: Settings)
    requires c.time > 0
    ensures Timer(h, c) >= c.time <==> Latched(h, c)
    decreases |h|
  {
    if h != [] {
      var init := h[..|h| - 1];
      RunOutIffLatched(init, c);
      TimerBound(init, c);
      if Timer(h, c) >= c.time {
        LatchGrows(h, c);
      }
      if Latched(h, c) {
        LatchedTimer(h, c);
      }
    }
  }

  lemma LatchGrows(h: seq<Sample>, c: Settings)
    requires c.time > 0 && h != [] && Timer(h, c) >= c.time
    requires Timer(h[..|h| - 1], c) >= c.time ==> Latched(h[..|h| - 1], c)
    ensures Latched(h, c)
  {
    hide Low, HighFrom, Block;
    var init := h[..|h| - 1];
    if Timer(init, c) >= c.time {
      var a: nat :| Block(init, c, a, c.time) && HighFrom(init, c, a);
      assert High(h[|h| - 1], c);
      LatchExtends(h, c, a);
    } else {
      assert Timer(init, c) == c.time - 1;
      CountsTheLast(init, c);
      BlockEnds(h, c);
    }
  }

  lemma LatchExtends(h: seq<Sample>, c: Settings, a: nat)
    requires h != [] && High(h[|h| - 1], c)
    requires Block(h[..|h| - 1], c, a, c.time) && HighFrom(h[..|h| - 1], c, a)
    ensures Latched(h, c)
  {
    hide Low;
    var init := h[..|h| - 1];
    assert forall i :: 0 <= i < |init| ==> init[i] == h[i];
    assert Block(h, c, a, c.time) && HighFrom(h, c, a);
  }

  lemma BlockEnds(h: seq<Sample>, c: Settings)
    requires 0 < c.time <= |h| && Low(h[|h| - 1], c) && High(h[|h| - 1], c)
    requires Block(h[..|h| - 1], c, |h| - c.time, c.time - 1)
    ensures Latched(h, c)
  {
    hide Low;
    var init, a := h[..|h| - 1], |h| - c.time;
    assert forall i :: 0 <= i < |init| ==> init[i] == h[i];
    assert Block(h, c, a, c.time) && HighFrom(h, c, a);
  }

  lemma LatchedTimer(h: seq<Sample>, c: Settings)
    requires c.time > 0 && h != [] && Latched(h, c)
    requires Latched(h[..|h| - 1], c) ==> Timer(h[..|h| - 1], c) >= c.time
    ensures Timer(h, c) >= c.time
  {
    var init := h[..|h| - 1];
    var a: nat :| Block(h, c, a, c.time) && HighFrom(h, c, a);
    if a + c.time <= |init| {
      assert Block(init, c, a, c.time) && HighFrom(init, c, a);
    } else {
      LastAreCounted(h, c, c.time);
    }
  }

  /** Call number |h|, after the calls in h, is forced to zero. */
  ghost predicate Forced(h: seq<Sample>, s: Sample, c: Settings) {
    c.time > 0 && Latched(h, c) && s.soc >= c.soc
  }

  class CutOff {
    var timer: nat
    /** All calls so far, with the settings fixed. */
    ghost var history: seq<Sample>

    ghost predicate Valid(c: Settings)
      reads this
    {
      timer == Timer(history, c)
    }

    constructor (c: Settings)
      ensures Valid(c) && history == []
    {
      timer, history := 0, [];
    }

    /** The current is zero exactly on the calls that are forced, and untouched on all others. */
    method Call(s: Sample, c: Settings, charge: int) returns (r: int)
      requires Valid(c)
      modifies this
      ensures Valid(c) && history == old(history) + [s]
      ensures r == if Forced(old(history), s, c) then 0 else charge
    {
      r := charge;
      assert (history + [s])[..|history|] == history;
      if c.time == 0 {
        history := history + [s];
        return;
      }
      RunOutIffLatched(history, c);
      if timer >= c.time {
        if s.soc < c.soc {
          timer := 0;
        } else {
          r := 0;
        }
      } else {
        if Tenth(s.current) as real < c.current && s.soc >= c.soc {
          timer := timer + 1;
        } else {
          timer := 0;
        }
      }
      history := history + [s];
    }
  }
}
