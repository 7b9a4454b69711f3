/** The state of charge stored for a battery: a latch for the full battery and a linear value
    from the cell voltages in between. */
module StateOfCharge {

  const BT_DEVICES: nat := 7

  /** Integer division as the code does it, towards zero. */
  function Quotient(a: int, d: int): int
    requires d > 0
  {
    if a >= 0 then a / d else -(-a / d)
  }

  /** The weighted voltage: the higher the highest cell, the more it counts. */
  function Weighted(lo: int, hi: int, soc0: int, soc100: int): int {
    (hi - soc0) * hi + (soc100 - hi) * lo
  }

  /** The linear state of charge before it is cut to its range. */
  function Linear(lo: int, hi: int, soc0: int, soc100: int): int
    requires soc0 < soc100
  {
    var d := soc100 - soc0;
    Quotient((Quotient(Weighted(lo, hi, soc0, soc100), d) - soc0) * 100, d)
  }

  /** The linear state of charge of a single voltage, rounded down. */
  function Single(v: int, soc0: int, soc100: int): int
    requires soc0 < soc100
  {
    (v - soc0) * 100 / (soc100 - soc0)
  }

  datatype Reading = Reading(raw: nat, lo: nat, hi: nat)

  datatype Calibration = Calibration(soc0: nat, soc100: nat)

  predicate Full(r: Reading, c: Calibration) {
    c.soc100 > 0 && r.hi >= c.soc100
  }

  /** The latch after a reading: set by a full cell, cleared by a raw value below 100. */
  function Latch(latch: bool, r: Reading, c: Calibration): bool {
    Full(r, c) || (latch && r.raw >= 100)
  }

  function Stored(latched: bool, r: Reading, c: Calibration): nat {
    if latched && c.soc100 > 0 then 100
    else if c.soc0 > 0 && c.soc100 > c.soc0 then
      var l := Linear(r.lo, r.hi, c.soc0, c.soc100);
      if l < 0 || r.lo <= c.soc0 then 0
      else if l > 100 || r.hi >= c.soc100 then 100
      else l
    else if r.raw == 100 then 99
    else r.raw
  }

  // ---- the linear value ----

  lemma DivBounds(a: int, d: int)
    requires d > 0
    ensures a / d * d <= a < a / d * d + d
  {
  }

  lemma MulMono(a: int, b: int, c: int)
    requires a >= 0
    ensures b <= c ==> a * b <= a * c
  {
  }

  lemma QuotientAtLeast(a: int, d: int, q: int)
    requires d > 0 && q * d <= a
    ensures q <= a / d
  {
    DivBounds(a, d);
    MulMono(d, a / d + 1, q);
  }

  lemma QuotientBelow(a: int, d: int, q: int)
    requires d > 0 && a < q * d
    ensures a / d < q
  {
    DivBounds(a, d);
    MulMono(d, q, a / d);
  }

  lemma QuotientMono(a: int, b: int, d: int)
    requires d > 0 && a <= b
    ensures a / d <= b / d
  {
    DivBounds(a, d);
    QuotientAtLeast(b, d, a / d);
  }

  /** In the working range the weighted voltage lies between the two cells. */
  lemma WeightedBetween(lo: int, hi: int, soc0: int, soc100: int)
    requires soc0 <= hi <= soc100 && lo <= hi && soc0 < soc100
    ensures var d := soc100 - soc0;
            lo * d <= Weighted(lo, hi, soc0, soc100) <= hi * d
  {
    var up, down := hi - soc0, soc100 - hi;
    MulMono(up, lo, hi);
    MulMono(down, lo, hi);
    assert lo * (up + down) == up * lo + down * lo;
    assert hi * (up + down) == up * hi + down * hi;
  }

  /** Inside the working range the linear value lies between those of the lowest and the highest
      cell, below 100, and the code's rounding towards zero is rounding down. */
  lemma LinearBetween(lo: int, hi: int, soc0: int, soc100: int)
    requires 0 < soc0 < lo <= hi < soc100
    ensures 0 <= Single(lo, soc0, soc100) <= Linear(lo, hi, soc0, soc100) <= Single(hi, soc0, soc100) < 100
  {
    var d := soc100 - soc0;
    var w := Weighted(lo, hi, soc0, soc100);
    WeightedBetween(lo, hi, soc0, soc100);
    assert w >= 0 by { MulMono(d, 0, lo); }
    QuotientAtLeast(w, d, lo);
    assert w < (hi + 1) * d;
    QuotientBelow(w, d, hi + 1);
    var v := w / d;
    assert lo <= v <= hi;
    QuotientMono((lo - soc0) * 100, (v - soc0) * 100, d);
    QuotientMono((v - soc0) * 100, (hi - soc0) * 100, d);
    QuotientAtLeast((lo - soc0) * 100, d, 0);
    QuotientBelow((hi - soc0) * 100, d, 100);
  }

  lemma WeightedMonotone(lo: int, hi: int, lo': int, hi': int, soc0: int, soc100: int)
    requires soc0 < lo <= hi < soc100 && lo <= lo' <= hi' && hi <= hi' < soc100
    ensures Weighted(lo, hi, soc0, soc100) <= Weighted(lo', hi', soc0, soc100)
  {
    calc {
      Weighted(lo, hi', soc0, soc100) - Weighted(lo, hi, soc0, soc100);
      (hi' - hi) * (hi' + hi - soc0 - lo);
    }
    MulMono(hi' - hi, 0, hi' + hi - soc0 - lo);
    calc {
      Weighted(lo', hi', soc0, soc100) - Weighted(lo, hi', soc0, soc100);
      (soc100 - hi') * (lo' - lo);
    }
    MulMono(soc100 - hi', 0, lo' - lo);
  }

  /** Raising a cell never lowers the value. */
  lemma LinearMonotone(lo: int, hi: int, lo': int, hi': int, soc0: int, soc100: int)
    requires 0 < soc0 < lo <= hi < soc100 && lo <= lo' <= hi' && hi <= hi' < soc100
    ensures Linear(lo, hi, soc0, soc100) <= Linear(lo', hi', soc0, soc100)
  {
    var d := soc100 - soc0;
    var w, w' := Weighted(lo, hi, soc0, soc100), Weighted(lo', hi', soc0, soc100);
    WeightedMonotone(lo, hi, lo', hi', soc0, soc100);
    WeightedBetween(lo, hi, soc0, soc100);
    WeightedBetween(lo', hi', soc0, soc100);
    assert w >= 0 by { MulMono(d, 0, lo); }
    QuotientMono(w, w', d);
    QuotientAtLeast(w, d, lo);
    QuotientMono((w / d - soc0) * 100, (w' / d - soc0) * 100, d);
  }

  /** The quotient rounded towards zero, said without dividing. */
  ghost predicate Truncated(q: int, a: int, d: int) {
    if a >= 0 then q * d <= a < (q + 1) * d else (q - 1) * d < a <= q * d
  }

  lemma TruncatedIsQuotient(q: int, a: int, d: int)
    requires d > 0 && Truncated(q, a, d)
    ensures Quotient(a, d) == q
  {
    if a >= 0 {
      QuotientAtLeast(a, d, q);
      QuotientBelow(a, d, q + 1);
    } else {
      QuotientAtLeast(-a, d, -q);
      QuotientBelow(-a, d, -q + 1);
    }
  }

  /** The exact linear value of every reading that is not latched: with v the cells' voltage weighted
      by how high the highest one stands, and l its percentage of the span, both rounded towards zero,
      l cut to 0..100, and zero when the lowest cell is at or below the empty voltage. */
  lemma LinearExact(r: Reading, c: Calibration, v: int, l: int)
    requires 0 < c.soc0 < c.soc100 && r.hi < c.soc100
    requires Truncated(v, r.hi * (r.hi - c.soc0) + r.lo * (c.soc100 - r.hi), c.soc100 - c.soc0)
    requires Truncated(l, 100 * (v - c.soc0), c.soc100 - c.soc0)
    ensures Stored(false, r, c) == if l < 0 || r.lo <= c.soc0 then 0 else if l > 100 then 100 else l
  {
    var d := c.soc100 - c.soc0;
    assert Weighted(r.lo, r.hi, c.soc0, c.soc100) == r.hi * (r.hi - c.soc0) + r.lo * (c.soc100 - r.hi);
    TruncatedIsQuotient(v, Weighted(r.lo, r.hi, c.soc0, c.soc100), d);
    TruncatedIsQuotient(l, (v - c.soc0) * 100, d);
  }

  // ---- integer width ----

  predicate IsInt32(a: int) {
    -0x8000_0000 <= a < 0x8000_0000
  }

  /** Every intermediate value of the linear formula fits a signed 32-bit word. */
  predicate NoOverflow(lo: int, hi: int, soc0: int, soc100: int)
    requires soc0 < soc100
  {
    IsInt32((hi - soc0) * hi) && IsInt32((soc100 - hi) * lo) && IsInt32(Weighted(lo, hi, soc0, soc100)) &&
    IsInt32((Quotient(Weighted(lo, hi, soc0, soc100), soc100 - soc0) - soc0) * 100)
  }

  /** With the highest cell in the working range, a full-battery voltage up to 46341 mV keeps the
      formula in 32 bits. */
  lemma NoOverflowWorking(lo: nat, hi: nat, soc0: nat, soc100: nat)
    requires 0 < soc0 <= hi < soc100 <= 46341 && lo <= hi
    ensures NoOverflow(lo, hi, soc0, soc100)
  {
    var d := soc100 - soc0;
    WeightedBetween(lo, hi, soc0, soc100);
    MulMono(hi, d, 46340);
    MulMono(46340, hi, 46340);
    MulMono(hi - soc0, 0, hi);
    MulMono(soc100 - hi, 0, lo);
    var w := Weighted(lo, hi, soc0, soc100);
    QuotientAtLeast(w, d, lo);
    assert w < (hi + 1) * d;
    QuotientBelow(w, d, hi + 1);
  }

  /** One millivolt more and there are cell voltages that overflow. */
  lemma OverflowWorking(soc100: nat)
    requires 46342 <= soc100 < 0x1_0000
    ensures var v := soc100 - 1; !NoOverflow(v, v, 1, soc100)
  {
    var v := soc100 - 1;
    assert Weighted(v, v, 1, soc100) == v * v;
    MulMono(v, 46341, v);
    MulMono(46341, 46341, v);
  }

  /** With all cells below the working range the formula is evaluated too; there 9267 mV is the bound. */
  lemma NoOverflowBelow(lo: nat, hi: nat, soc0: nat, soc100: nat)
    requires 0 < soc0 < soc100 <= 9267 && lo <= hi <= soc0
    ensures NoOverflow(lo, hi, soc0, soc100)
  {
    hide Weighted, Quotient;
    Parabola(soc0, hi);
    SecondTerm(lo, hi, soc100);
    WeightedBelow(lo, hi, soc0, soc100);
    QuotientBounds(Weighted(lo, hi, soc0, soc100), soc100 - soc0, hi, 21464689);
  }

  lemma SecondTerm(lo: nat, hi: nat, soc100: nat)
    requires lo <= hi <= soc100 <= 9267
    ensures 0 <= (soc100 - hi) * lo <= 9267 * 9267
  {
    MulMono(soc100 - hi, 0, lo);
    MulMono(soc100 - hi, lo, 9267);
    MulMono(9267, soc100 - hi, 9267);
  }

  lemma WeightedBelow(lo: nat, hi: nat, soc0: nat, soc100: nat)
    requires soc0 < soc100 && lo <= hi <= soc0
    ensures Weighted(lo, hi, soc0, soc100) <= hi * (soc100 - soc0)
    ensures Weighted(lo, hi, soc0, soc100) == (soc100 - hi) * lo - (soc0 - hi) * hi
    ensures (hi - soc0) * hi == -((soc0 - hi) * hi)
  {
    MulMono(soc100 - hi, lo, hi);
    assert (soc100 - hi) * hi - (soc0 - hi) * hi == hi * (soc100 - soc0);
  }

  lemma QuotientBounds(w: int, d: nat, top: nat, bottom: int)
    requires d > 0 && bottom >= 0 && -bottom <= w <= top * d
    ensures -bottom <= Quotient(w, d) <= top
  {
    if w >= 0 {
      QuotientAtLeast(w, d, 0);
      assert w < (top + 1) * d;
      QuotientBelow(w, d, top + 1);
    } else {
      SmallerQuotient(-w, d);
    }
  }

  lemma SmallerQuotient(a: nat, d: nat)
    requires d > 0
    ensures 0 <= a / d <= a
  {
    QuotientAtLeast(a, d, 0);
    MulMono(a + 1, 1, d);
    QuotientBelow(a, d, a + 1);
  }

  lemma Parabola(s: nat, h: nat)
    requires h <= s <= 9266
    ensures 0 <= (s - h) * h <= 21464689
  {
    MulMono(h, 0, s - h);
    var t := s - 2 * h;
    MulSelf(t);
    assert 4 * ((s - h) * h) == s * s - t * t;
    MulMono(s, s, 9266);
    MulMono(9266, s, 9266);
  }

  lemma MulSelf(t: int)
    ensures t * t >= 0
  {
  }

  /** One millivolt more and a dead cell can overflow. */
  lemma OverflowBelow(soc100: nat)
    requires 9268 <= soc100 < 0x1_0000
    ensures var soc0 := soc100 - 1; !NoOverflow(0, soc0 / 2, soc0, soc100)
  {
    var soc0 := soc100 - 1;
    var hi := soc0 / 2;
    MulMono(soc0 - hi, 4633, hi);
    MulMono(4633, 4634, soc0 - hi);
    assert Weighted(0, hi, soc0, soc100) == -((soc0 - hi) * hi);
    WholeQuotient(Weighted(0, hi, soc0, soc100));
  }

  lemma WholeQuotient(a: int)
    ensures Quotient(a, 1) == a
  {
  }

  /** With all cells below the working range the formula fits for every calibration and reading if
      and only if the full-battery voltage is at most 9267 mV. */
  lemma FitsBelowIff(soc100: nat)
    requires soc100 < 0x1_0000
    ensures (forall soc0: nat, lo: nat, hi: nat :: 0 < soc0 < soc100 && lo <= hi <= soc0 ==>
               NoOverflow(lo, hi, soc0, soc100)) <==> soc100 <= 9267
  {
    hide NoOverflow;
    if soc100 <= 9267 {
      forall soc0: nat, lo: nat, hi: nat | 0 < soc0 < soc100 && lo <= hi <= soc0
        ensures NoOverflow(lo, hi, soc0, soc100)
      {
        NoOverflowBelow(lo, hi, soc0, soc100);
      }
    } else {
      OverflowBelow(soc100);
      var soc0: nat := soc100 - 1;
      assert !NoOverflow(0, soc0 / 2, soc0, soc100);
    }
  }

  /** So it does for every calibration and reading for which the formula is evaluated at all. */
  lemma FitsIff(soc100: nat)
    requires soc100 < 0x1_0000
    ensures (forall soc0: nat, lo: nat, hi: nat :: 0 < soc0 < soc100 && lo <= hi < soc100 ==>
               NoOverflow(lo, hi, soc0, soc100)) <==> soc100 <= 9267
  {
    hide NoOverflow;
    if soc100 <= 9267 {
      forall soc0: nat, lo: nat, hi: nat | 0 < soc0 < soc100 && lo <= hi < soc100
        ensures NoOverflow(lo, hi, soc0, soc100)
      {
        if hi <= soc0 { NoOverflowBelow(lo, hi, soc0, soc100); } else { NoOverflowWorking(lo, hi, soc0, soc100); }
      }
    } else {
      FitsBelowIff(soc100);
    }
  }

  /** With the highest cell in the working range it does if and only if that voltage is at most
      46341 mV. */
  lemma FitsWorkingIff(soc100: nat)
    requires soc100 < 0x1_0000
    ensures (forall soc0: nat, lo: nat, hi: nat :: 0 < soc0 <= hi < soc100 && lo <= hi ==>
               NoOverflow(lo, hi, soc0, soc100)) <==> soc100 <= 46341
  {
    hide NoOverflow;
    if soc100 <= 46341 {
      forall soc0: nat, lo: nat, hi: nat | 0 < soc0 <= hi < soc100 && lo <= hi
        ensures NoOverflow(lo, hi, soc0, soc100)
      {
        NoOverflowWorking(lo, hi, soc0, soc100);
      }
    } else {
      OverflowWorking(soc100);
      var v: nat := soc100 - 1;
      assert !NoOverflow(v, v, 1, soc100);
    }
  }

  // ---- the latch over a run ----

  /** The latch after a history of readings. */
  function LatchAfter(h: seq<Reading>, c: Calibration): bool {
    if h == [] then false else Latch(LatchAfter(h[..|h| - 1], c), h[|h| - 1], c)
  }

  /** Reading k was full and no raw value since was below 100. */
  ghost predicate FullSince(h: seq<Reading>, k: nat, c: Calibration) {
    k < |h| && c.soc100 > 0 && h[k].hi >= c.soc100 && forall i :: k < i < |h| ==> h[i].raw >= 100
  }

  lemma {:induction false} LatchedIff(h: seq<Reading>, c: Calibration)
    ensures LatchAfter(h, c) <==> exists k :: FullSince(h, k, c)
    decreases |h|
  {
    if h != [] {
      var n := |h| - 1;
      var init := h[..n];
      LatchedIff(init, c);
      if LatchAfter(h, c) {
        if Full(h[n], c) {
          assert FullSince(h, n, c);
        } else {
          var k: nat :| FullSince(init, k, c);
          assert FullSince(h, k, c);
        }
      }
      if k: nat :| FullSince(h, k, c) {
        if k < n { assert FullSince(init, k, c); }
      }
    }
  }

  /** A reading with consistent cells is stored as 100 exactly when the full voltage has been
      reached with no raw value below 100 since. */
  lemma HundredIff(h: seq<Reading>, r: Reading, c: Calibration)
    requires r.lo <= r.hi
    ensures Stored(LatchAfter(h + [r], c), r, c) == 100 <==> exists k :: FullSince(h + [r], k, c)
  {
    var g := h + [r];
    LatchedIff(g, c);
    if LatchAfter(g, c) {
      var k: nat :| FullSince(g, k, c);
    } else {
      assert !Full(r, c) by { assert g[|g| - 1] == r; }
      NotLatchedBelow(r, c);
    }
  }

  lemma NotLatchedBelow(r: Reading, c: Calibration)
    requires r.lo <= r.hi && !Full(r, c)
    ensures Stored(false, r, c) != 100
  {
    hide Linear, Single;
    if c.soc0 > 0 && c.soc100 > c.soc0 && r.lo > c.soc0 {
      LinearBetween(r.lo, r.hi, c.soc0, c.soc100);
    }
  }

  /** The stored value is a percentage, and without a latch it is the linear value in the working
      range and zero below it. */
  lemma StoredRange(latched: bool, r: Reading, c: Calibration)
    requires r.raw <= 100
    ensures 0 <= Stored(latched, r, c) <= 100
    ensures !latched && c.soc0 > 0 && c.soc0 < r.lo <= r.hi < c.soc100 ==>
              Single(r.lo, c.soc0, c.soc100) <= Stored(latched, r, c) <= Single(r.hi, c.soc0, c.soc100)
    ensures !latched && c.soc0 > 0 && c.soc0 < c.soc100 && r.lo <= c.soc0 ==> Stored(latched, r, c) == 0
  {
    hide Linear, Single;
    if c.soc0 > 0 && c.soc0 < r.lo <= r.hi < c.soc100 {
      LinearBetween(r.lo, r.hi, c.soc0, c.soc100);
    }
  }

  // ---- the object ----

  function Smaller(a: nat, b: nat): nat {
    if a < b then a else b
  }

  class BmsData {
    const devices: nat
    const maxCell: array<nat>
    const minCell: array<nat>
    const percentage: array<nat>
    const latch: array<bool>

    ghost predicate Valid()
      reads this
    {
      maxCell.Length == minCell.Length == percentage.Length == latch.Length == devices &&
      maxCell != minCell && maxCell != percentage && minCell != percentage
    }

    constructor (n: nat)
      ensures Valid() && devices == n
      ensures fresh(maxCell) && fresh(minCell) && fresh(percentage) && fresh(latch)
      ensures forall i :: 0 <= i < n ==> !latch[i]
    {
      devices := n;
      maxCell := new nat[n];
      minCell := new nat[n];
      percentage := new nat[n];
      latch := new bool[n](_ => false);
    }

    /** Stores the value of a device; nothing of another device changes, and the devices connected
        by Bluetooth are stored as they are. */
    method SetChargePercentage(dev: nat, raw: nat, c: Calibration)
      requires Valid() && dev < devices
      modifies percentage, latch
      ensures var r := Reading(raw, minCell[dev], maxCell[dev]);
              if dev < BT_DEVICES then latch[dev] == old(latch[dev]) && percentage[dev] == raw
              else latch[dev] == Latch(old(latch[dev]), r, c) && percentage[dev] == Stored(latch[dev], r, c)
      ensures dev >= BT_DEVICES && c.soc100 > 0 && (maxCell[dev] >= c.soc100 || (old(latch[dev]) && raw >= 100)) ==>
                latch[dev] && percentage[dev] == 100
      ensures dev >= BT_DEVICES && (c.soc0 == 0 || c.soc100 <= c.soc0) &&
              (c.soc100 == 0 || (maxCell[dev] < c.soc100 && !(old(latch[dev]) && raw >= 100))) ==>
                percentage[dev] == if raw <= 100 then Smaller(raw, 99) else raw
      ensures forall i :: 0 <= i < devices && i != dev ==>
                latch[i] == old(latch[i]) && percentage[i] == old(percentage[i])
    {
      var value := raw;
      if dev >= BT_DEVICES {
        if value < 100 { latch[dev] := false; }
        if c.soc100 > 0 && (maxCell[dev] >= c.soc100 || latch[dev]) {
          latch[dev] := true;
          value := 100;
        } else if c.soc0 > 0 && c.soc100 > c.soc0 {
          value := LinearValue(maxCell[dev], minCell[dev], c);
        } else {
          if value == 100 { value := 99; }
        }
      }
      percentage[dev] := value;
    }
  }

  method LinearValue(hi: nat, lo: nat, c: Calibration) returns (value: nat)
    requires 0 < c.soc0 < c.soc100 && hi < c.soc100
    ensures forall raw :: value == Stored(false, Reading(raw, lo, hi), c)
  {
    var sdiff := c.soc100 - c.soc0;
    var input := Quotient((hi - c.soc0) * hi + (c.soc100 - hi) * lo, sdiff);
    var result := Quotient((input - c.soc0) * 100, sdiff);
    if result < 0 || lo <= c.soc0 {
      value := 0;
    } else if result > 100 || hi >= c.soc100 {
      value := 100;
    } else {
      value := result;
    }
  }
}
