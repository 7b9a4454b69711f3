/** The charge current setpoint sent to the inverter: the smallest of all limits, approached in
    bounded steps. */
module ChargeRamp {

  function Max(a: int, b: int): int {
    if a < b then b else a
  }

  /** How far the current falls in one step. */
  function Drop(c: nat): (d: nat)
    ensures 1 <= d <= 10
  {
    if c >= 50 then 10 else if c >= 25 then 5 else if c >= 10 then 3 else 1
  }

  /** The current after one step towards the setpoint t. */
  function Next(c: nat, t: int): nat {
    if t < c then Max(c - Drop(c), 0)
    else if t - c > 10 then c + 10
    else t
  }

  /** The current after a step for each setpoint of a list. */
  function Run(c: nat, ts: seq<int>): nat {
    if ts == [] then c else Next(Run(c, ts[..|ts| - 1]), ts[|ts| - 1])
  }

  /** What one step does: it moves by at most ten amperes, never away from the setpoint, falls by
      at least one while above it, never exceeds both the old value and the setpoint, and falls
      at most nine amperes below the setpoint. */
  lemma StepBounds(c: nat, t: int)
    ensures var n := Next(c, t);
            -10 <= n - c <= 10 && n <= Max(c, t) &&
            (t >= c ==> c <= n <= t && (n == c <==> t == c)) &&
            (t < c ==> (c > 0 ==> n < c) && n >= Max(t, 0) - 9)
  {
  }

  /** Over any run of setpoints the current stays between zero and the largest of the starting
      current and the setpoints. */
  lemma {:induction false} RunBounded(c: nat, ts: seq<int>, top: int)
    requires c <= top && forall i :: 0 <= i < |ts| ==> ts[i] <= top
    ensures 0 <= Run(c, ts) <= top
    decreases |ts|
  {
    if ts != [] {
      RunBounded(c, ts[..|ts| - 1], top);
      StepBounds(Run(c, ts[..|ts| - 1]), ts[|ts| - 1]);
    }
  }

  // ---- a constant setpoint ----

  /** The current after n steps with the same setpoint. */
  function Steps(c: nat, t: int, n: nat): nat
    decreases n
  {
    if n == 0 then c else Next(Steps(c, t, n - 1), t)
  }

  lemma {:induction false} StepsFirst(c: nat, t: int, n: nat)
    ensures Steps(c, t, n + 1) == Steps(Next(c, t), t, n)
  {
    if n > 0 { StepsFirst(c, t, n - 1); }
  }

  /** The value a constant setpoint leads to. */
  function Goal(t: int): nat {
    Max(t, 0)
  }

  lemma {:induction false} GoalStays(t: int, n: nat)
    ensures Steps(Goal(t), t, n) == Goal(t)
  {
    if n > 0 { GoalStays(t, n - 1); }
  }

  /** Goes down by at least one with every falling step. */
  function Height(c: nat): nat {
    if c < 10 then c
    else if c < 25 then 10 + (c - 10) / 3
    else if c < 50 then 15 + (c - 25) / 5
    else 20 + (c - 50) / 10
  }

  lemma HeightFalls(c: nat)
    requires c > 0
    ensures Height(Max(c - Drop(c), 0)) + 1 <= Height(c)
  {
  }

  lemma HeightGrows(a: nat, b: nat)
    requires a <= b
    ensures Height(a) <= Height(b)
  {
  }

  /** The number of steps within which a constant setpoint is reached. */
  function Settling(c: nat, t: int): nat {
    var g := Goal(t);
    if c <= g then (g - c + 9) / 10
    else HeightGrows(g, c); Height(c) - Height(g) + 2
  }

  lemma {:induction false} RiseSettles(c: nat, t: int, n: nat)
    requires c <= Goal(t) && n >= (Goal(t) - c + 9) / 10
    ensures Steps(c, t, n) == Goal(t)
    decreases n
  {
    if c == Goal(t) {
      GoalStays(t, n);
    } else {
      StepsFirst(c, t, n - 1);
      RiseSettles(Next(c, t), t, n - 1);
    }
  }

  /** From any start the setpoint, or zero if it is negative, is reached within Settling steps
      and then kept. */
  lemma {:induction false} Settles(c: nat, t: int, n: nat)
    requires n >= Settling(c, t)
    ensures Steps(c, t, n) == Goal(t)
    decreases n
  {
    var g := Goal(t);
    if c <= g {
      RiseSettles(c, t, n);
    } else {
      HeightGrows(g, c);
      var d := Next(c, t);
      HeightFalls(c);
      StepsFirst(c, t, n - 1);
      if d <= g {
        RiseSettles(d, t, n - 1);
      } else {
        HeightGrows(g, d);
        Settles(d, t, n - 1);
      }
    }
  }

  /** The exact number of steps down to zero, range by range: tens, fives, threes and ones. */
  function FallTime(c: nat): nat {
    if c < 10 then c
    else if c < 25 then var n := (c - 7) / 3; n + (c - 3 * n)
    else if c < 50 then var n := (c - 20) / 5; n + FallTime(c - 5 * n)
    else var n := (c - 40) / 10; n + FallTime(c - 10 * n)
  }

  /** With the setpoint at zero or below, the current reaches zero after exactly that many steps. */
  lemma {:induction false} FallsExactly(c: nat, t: int, n: nat)
    requires t <= 0
    ensures Steps(c, t, n) == 0 <==> n >= FallTime(c)
    decreases n
  {
    if c == 0 {
      GoalStays(t, n);
    } else if n > 0 {
      OneStepLess(c);
      StepsFirst(c, t, n - 1);
      FallsExactly(Next(c, t), t, n - 1);
    } else {
      PositiveTime(c);
    }
  }

  lemma PositiveTime(c: nat)
    requires c > 0
    ensures FallTime(c) > 0
  {
  }

  lemma OneStepLess(c: nat)
    requires c > 0
    ensures FallTime(Max(c - Drop(c), 0)) + 1 == FallTime(c)
  {
    if c >= 60 {
      var n := (c - 40) / 10;
      assert (c - 10 - 40) / 10 == n - 1;
      assert FallTime(c) == n + FallTime(c - 10 * n);
      assert FallTime(c - 10) == (n - 1) + FallTime(c - 10 - 10 * (n - 1));
    } else if c >= 50 {
      assert (c - 40) / 10 == 1;
    } else if c >= 25 {
      FivesLess(c);
    }
  }

  lemma FivesLess(c: nat)
    requires 25 <= c < 50
    ensures FallTime(c - 5) + 1 == FallTime(c)
  {
    var n := (c - 20) / 5;
    if c >= 30 {
      assert (c - 5 - 20) / 5 == n - 1;
      assert FallTime(c - 5) == (n - 1) + FallTime(c - 5 - 5 * (n - 1));
    } else {
      assert n == 1;
    }
  }

  /** That is at most one step for every ten amperes and twenty more. */
  lemma SettlingIsShort(c: nat, t: int)
    ensures Settling(c, t) <= (if c <= Goal(t) then Goal(t) - c else c - Goal(t)) / 10 + 20
  {
    var g := Goal(t);
    if c > g { HeightGrows(g, c); }
  }

  /** A falling current can pass the setpoint, by nine amperes at most, and then returns in one step. */
  lemma {:induction false} UndershootBound(c: nat, t: int, n: nat)
    requires c >= Goal(t)
    ensures Steps(c, t, n) >= Goal(t) - 9
    ensures Steps(c, t, n) < Goal(t) ==> Steps(c, t, n + 1) == Goal(t)
  {
    if n > 0 {
      UndershootBound(c, t, n - 1);
      StepBounds(Steps(c, t, n - 1), t);
    }
  }

  // ---- the object ----

  class ChargeCurrent {
    /** The setpoint sent last, in amperes. */
    var current: int

    constructor ()
      ensures current == 0
    {
      current := 0;
    }

    method Step(setpoint: int)
      requires current >= 0
      modifies this
      ensures current == Next(old(current), setpoint)
      ensures setpoint > old(current) + 10 ==> current == old(current) + 10
      ensures old(current) <= setpoint <= old(current) + 10 ==> current == setpoint
      ensures setpoint < old(current) && old(current) >= 50 ==> current == old(current) - 10
      ensures setpoint < old(current) && 25 <= old(current) < 50 ==> current == old(current) - 5
      ensures setpoint < old(current) && 10 <= old(current) < 25 ==> current == old(current) - 3
      ensures setpoint < old(current) && 0 < old(current) < 10 ==> current == old(current) - 1
      ensures setpoint < 0 && old(current) == 0 ==> current == 0
    {
      var next := setpoint;
      if next < current {
        if current >= 50 {
          next := current - 10;
        } else if current >= 25 && current < 50 {
          next := current - 5;
        } else if current >= 10 && current < 25 {
          next := current - 3;
        } else if current < 10 {
          next := current - 1;
        }
        if next < 0 { next := 0; }
        current := next;
      } else {
        if next - current > 10 { next := current + 10; }
        current := next;
      }
    }

    /** One control cycle: the smallest of the configured maximum and the limits is the setpoint. */
    method Cycle(maximum: int, limits: seq<int>)
      requires current >= 0
      modifies this
      ensures exists t :: current == Next(old(current), t) && IsLeast(t, maximum, limits)
      ensures current >= 0 && -10 <= current - old(current) <= 10
      ensures forall x :: x == maximum || x in limits ==> current <= Max(old(current), x)
    {
      var setpoint := Least(maximum, limits);
      StepBounds(current, setpoint);
      Step(setpoint);
    }
  }

  ghost predicate IsLeast(t: int, maximum: int, limits: seq<int>) {
    (t == maximum || t in limits) && t <= maximum && forall x :: x in limits ==> t <= x
  }

  method Least(maximum: int, limits: seq<int>) returns (t: int)
    ensures IsLeast(t, maximum, limits)
  {
    t := maximum;
    for i := 0 to |limits|
      invariant IsLeast(t, maximum, limits[..i])
    {
      if limits[i] < t { t := limits[i]; }
      assert limits[..i + 1] == limits[..i] + [limits[i]];
    }
    assert limits[..|limits|] == limits;
  }
}
