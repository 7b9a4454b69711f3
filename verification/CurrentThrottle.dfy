/** Charge and discharge limits from the extreme cell voltage, in the integer arithmetic of the code. */
module CurrentThrottle {

  datatype Limit = Ampere(value: int) | DivisionByZero

  /** The reduction of a limit when the voltage is x millivolts into a span of the given length. */
  function Reduce(x: nat, span: nat, maxI: int, minI: int): Limit
    requires minI < maxI
  {
    var perMv := span * 100 / (maxI - minI);
    if perMv == 0 then DivisionByZero
    else
      var reduction := x * 100 / perMv;
      if reduction > maxI - minI then Ampere(minI) else Ampere(maxI - reduction)
  }

  /** calcLadestromZellspanung: voltages in millivolts, currents in amperes. */
  function ChargeLimit(enabled: bool, start: nat, end: nat, minI: int, cell: nat, maxI: int): Limit {
    if !enabled || start > cell then Ampere(maxI)
    else if start > end || maxI <= minI then Ampere(maxI)
    else if cell > end then Ampere(minI)
    else Reduce(cell - start, end - start, maxI, minI)
  }

  /** calcEntladestromZellspanung: enabled by a start voltage other than zero. */
  function DischargeLimit(start: nat, end: nat, minI: int, cell: nat, maxI: int): Limit {
    if start == 0 || start < cell then Ampere(maxI)
    else if start <= end || maxI <= minI then Ampere(maxI)
    else if cell < end then Ampere(minI)
    else Reduce(start - cell, start - end, maxI, minI)
  }

  // ---- the reduction against the exact linear one ----

  lemma DivBelow(a: nat, d: nat)
    requires d > 0
    ensures a / d * d <= a < (a / d + 1) * d
  {
  }

  lemma DivAtLeast(a: nat, d: nat, q: int)
    requires d > 0 && q * d <= a
    ensures q <= a / d
  {
    DivBelow(a, d);
    MulMono(d, a / d + 1, q);
  }

  lemma DivAtMost(a: nat, d: nat, q: int)
    requires d > 0 && a < (q + 1) * d
    ensures a / d <= q
  {
    DivBelow(a, d);
    MulMono(d, q + 1, a / d);
  }

  /** The exact linear reduction, rounded down. */
  function Linear(x: nat, span: nat, range: nat): nat
    requires span > 0
  {
    x * range / span
  }

  lemma ReductionAtLeast(x: nat, span: nat, range: nat, per: nat)
    requires 0 < per && per * range <= span * 100 && 0 < span
    ensures Linear(x, span, range) <= x * 100 / per
  {
    var q := Linear(x, span, range);
    DivBelow(x * range, span);
    assert q * span <= x * range;
    calc <= {
      q * per * range;
      == q * (per * range);
      <= { MulMono(q, per * range, span * 100); } q * (span * 100);
      == q * span * 100;
      <= x * range * 100;
    }
    if range > 0 {
      CancelRight(q * per, x * 100, range);
      DivAtLeast(x * 100, per, q);
    } else {
      assert x * range == 0;
      assert q == 0;
    }
  }

  lemma MulMono(a: nat, b: int, c: int)
    ensures b <= c ==> a * b <= a * c
  {
  }

  lemma CancelRight(a: int, b: int, r: nat)
    requires r > 0 && a * r <= b * r
    ensures a <= b
  {
    MulMono(r, b + 1, a);
  }

  /** Where the limit is not division by zero it lies between the minimum and the maximum, at most
      the exact linear limit, and at least what twice the linear reduction would leave. */
  lemma ReduceBounds(x: nat, span: nat, maxI: int, minI: int)
    requires minI < maxI && x <= span && Reduce(x, span, maxI, minI).Ampere?
    ensures span > 0
    ensures var l := Reduce(x, span, maxI, minI).value;
            minI <= l <= maxI &&
            l <= maxI - Linear(x, span, maxI - minI) &&
            (l > minI ==> l >= maxI - Linear(2 * x, span, maxI - minI))
  {
    var range := maxI - minI;
    var per := span * 100 / range;
    DivBelow(span * 100, range);
    ReductionAtLeast(x, span, range, per);
    LinearWithin(x, span, range);
    ReductionAtMost(x, span, range, per);
  }

  lemma LinearWithin(x: nat, span: nat, range: nat)
    requires x <= span && span > 0
    ensures Linear(x, span, range) <= range
  {
    assert x * range <= span * range;
    DivAtMost(x * range, span, range);
  }

  lemma ReductionAtMost(x: nat, span: nat, range: nat, per: nat)
    requires 0 < per && 0 < range && span * 100 < (per + 1) * range && 0 < span
    ensures x * 100 / per <= Linear(2 * x, span, range)
  {
    var q := x * 100 / per;
    DivBelow(x * 100, per);
    MulMono(range, per + 1, 2 * per);
    ProductChain(q, span * 100, 2 * per, range, 2 * x * 100);
    DivAtLeast(2 * x * range, span, q);
  }

  lemma ProductChain(q: nat, s: nat, p: nat, r: nat, y: nat)
    requires s <= p * r && q * p <= y
    ensures q * s <= y * r
  {
    MulMono(q, s, p * r);
    assert q * (p * r) == (q * p) * r;
    MulMono(r, q * p, y);
  }

  lemma DivMono(a: nat, b: nat, d: nat)
    requires d > 0 && a <= b
    ensures a / d <= b / d
  {
    DivBelow(a, d);
    DivAtLeast(b, d, a / d);
  }

  lemma ReduceAntitone(x: nat, y: nat, span: nat, maxI: int, minI: int)
    requires minI < maxI && x <= y && Reduce(x, span, maxI, minI).Ampere?
    ensures Reduce(y, span, maxI, minI).Ampere?
    ensures Reduce(y, span, maxI, minI).value <= Reduce(x, span, maxI, minI).value
  {
    DivMono(x * 100, y * 100, span * 100 / (maxI - minI));
  }

  lemma ReduceAtEnd(span: nat, maxI: int, minI: int)
    requires minI < maxI && Reduce(span, span, maxI, minI).Ampere?
    ensures Reduce(span, span, maxI, minI) == Ampere(minI)
  {
    var per := span * 100 / (maxI - minI);
    DivBelow(span * 100, maxI - minI);
    DivAtLeast(span * 100, per, maxI - minI);
  }

  lemma DividesByZeroIff(x: nat, span: nat, maxI: int, minI: int)
    requires minI < maxI
    ensures Reduce(x, span, maxI, minI).DivisionByZero? <==> span * 100 < maxI - minI
  {
    if span * 100 < maxI - minI {
      DivAtMost(span * 100, maxI - minI, 0);
    } else {
      DivAtLeast(span * 100, maxI - minI, 1);
    }
  }

  /** The quotient rounded down, said without dividing. */
  ghost predicate Greatest(q: int, d: int, a: int) {
    q * d <= a < (q + 1) * d
  }

  lemma GreatestIsQuotient(q: nat, d: nat, a: nat)
    requires d > 0 && Greatest(q, d, a)
    ensures a / d == q
  {
    DivAtLeast(a, d, q);
    DivAtMost(a, d, q);
  }

  /** With per the hundredths of a millivolt for each ampere and q the amperes that the voltage has
      used up, both rounded down: the maximum less q, but not below the minimum. */
  lemma ReduceExact(x: nat, span: nat, maxI: int, minI: int, per: nat, q: nat)
    requires minI < maxI && per > 0
    requires Greatest(per, maxI - minI, 100 * span) && Greatest(q, per, 100 * x)
    ensures Reduce(x, span, maxI, minI) == Ampere(if maxI - q < minI then minI else maxI - q)
  {
    GreatestIsQuotient(per, maxI - minI, span * 100);
    GreatestIsQuotient(q, per, x * 100);
  }

  // ---- charging ----

  /** The code divides by zero exactly here. */
  lemma ChargeFailsIff(enabled: bool, start: nat, end: nat, minI: int, cell: nat, maxI: int)
    ensures ChargeLimit(enabled, start, end, minI, cell, maxI).DivisionByZero? <==>
            enabled && start <= cell <= end && minI < maxI && (end - start) * 100 < maxI - minI
  {
    if start <= cell <= end && minI < maxI { DividesByZeroIff(cell - start, end - start, maxI, minI); }
  }

  /** A voltage span that gives at least a hundredth of a millivolt for every ampere. */
  predicate ChargeSetUp(start: nat, end: nat, minI: int, maxI: int) {
    start <= end && 0 < maxI - minI <= (end - start) * 100
  }

  /** Between minimum and maximum, the minimum from the end voltage on, and at most the exact
      linear limit in between, and never more than twice as far below the maximum. */
  lemma ChargeLimitBounds(start: nat, end: nat, minI: int, cell: nat, maxI: int)
    requires ChargeSetUp(start, end, minI, maxI)
    ensures var l := ChargeLimit(true, start, end, minI, cell, maxI);
            l.Ampere? && minI <= l.value <= maxI &&
            (cell >= end ==> l.value == minI) &&
            (start <= cell <= end ==>
               l.value <= maxI - Linear(cell - start, end - start, maxI - minI) &&
               (l.value > minI ==> l.value >= maxI - Linear(2 * (cell - start), end - start, maxI - minI)))
  {
    hide Reduce, Linear;
    if start <= cell <= end {
      DividesByZeroIff(cell - start, end - start, maxI, minI);
      ReduceBounds(cell - start, end - start, maxI, minI);
      if cell == end { ReduceAtEnd(end - start, maxI, minI); }
    }
  }

  /** Over the whole range of voltages, a higher cell voltage never gets a higher limit. */
  lemma ChargeLimitAntitone(start: nat, end: nat, minI: int, low: nat, high: nat, maxI: int)
    requires ChargeSetUp(start, end, minI, maxI) && low <= high
    ensures ChargeLimit(true, start, end, minI, high, maxI).Ampere?
    ensures ChargeLimit(true, start, end, minI, low, maxI).Ampere?
    ensures ChargeLimit(true, start, end, minI, high, maxI).value
         <= ChargeLimit(true, start, end, minI, low, maxI).value
  {
    hide Reduce, Linear;
    ChargeLimitBounds(start, end, minI, low, maxI);
    ChargeLimitBounds(start, end, minI, high, maxI);
    if start <= low <= high <= end {
      ReduceAntitone(low - start, high - start, end - start, maxI, minI);
    }
  }

  /** The exact limit inside the span. */
  lemma ChargeLimitExact(start: nat, end: nat, minI: int, cell: nat, maxI: int, per: nat, q: nat)
    requires start <= cell <= end && minI < maxI && per > 0
    requires Greatest(per, maxI - minI, 100 * (end - start)) && Greatest(q, per, 100 * (cell - start))
    ensures ChargeLimit(true, start, end, minI, cell, maxI)
         == Ampere(if maxI - q < minI then minI else maxI - q)
    ensures cell == start ==> ChargeLimit(true, start, end, minI, cell, maxI) == Ampere(maxI)
  {
    ReduceExact(cell - start, end - start, maxI, minI, per, q);
    if cell == start { GreatestIsQuotient(q, per, 0); }
  }

  /** Outside the span the limit is one of its ends: the maximum when switched off, below the start
      voltage or wrongly configured, and otherwise the minimum. */
  lemma ChargeLimitOutside(enabled: bool, start: nat, end: nat, minI: int, cell: nat, maxI: int)
    ensures !enabled || cell < start || end < start || maxI <= minI ==>
              ChargeLimit(enabled, start, end, minI, cell, maxI) == Ampere(maxI)
    ensures enabled && start <= end < cell && minI < maxI ==>
              ChargeLimit(enabled, start, end, minI, cell, maxI) == Ampere(minI)
  {
  }

  // ---- discharging ----

  lemma DischargeFailsIff(start: nat, end: nat, minI: int, cell: nat, maxI: int)
    ensures DischargeLimit(start, end, minI, cell, maxI).DivisionByZero? <==>
            end < start && end <= cell <= start && minI < maxI && (start - end) * 100 < maxI - minI
  {
    if end < start && end <= cell <= start && minI < maxI {
      DividesByZeroIff(start - cell, start - end, maxI, minI);
    }
  }

  predicate DischargeSetUp(start: nat, end: nat, minI: int, maxI: int) {
    end < start && 0 < maxI - minI <= (start - end) * 100
  }

  /** The mirror image: the minimum up to the end voltage, and at most the exact linear limit above. */
  lemma DischargeLimitBounds(start: nat, end: nat, minI: int, cell: nat, maxI: int)
    requires DischargeSetUp(start, end, minI, maxI)
    ensures var l := DischargeLimit(start, end, minI, cell, maxI);
            l.Ampere? && minI <= l.value <= maxI &&
            (cell <= end ==> l.value == minI) &&
            (end <= cell <= start ==>
               l.value <= maxI - Linear(start - cell, start - end, maxI - minI) &&
               (l.value > minI ==> l.value >= maxI - Linear(2 * (start - cell), start - end, maxI - minI)))
  {
    hide Reduce, Linear;
    if end <= cell <= start {
      DividesByZeroIff(start - cell, start - end, maxI, minI);
      ReduceBounds(start - cell, start - end, maxI, minI);
      if cell == end { ReduceAtEnd(start - end, maxI, minI); }
    }
  }

  /** Over the whole range of voltages, a lower cell voltage never gets a higher limit. */
  lemma DischargeLimitMonotone(start: nat, end: nat, minI: int, low: nat, high: nat, maxI: int)
    requires DischargeSetUp(start, end, minI, maxI) && low <= high
    ensures DischargeLimit(start, end, minI, high, maxI).Ampere?
    ensures DischargeLimit(start, end, minI, low, maxI).Ampere?
    ensures DischargeLimit(start, end, minI, low, maxI).value
         <= DischargeLimit(start, end, minI, high, maxI).value
  {
    hide Reduce, Linear;
    DischargeLimitBounds(start, end, minI, low, maxI);
    DischargeLimitBounds(start, end, minI, high, maxI);
    if end <= low <= high <= start {
      ReduceAntitone(start - high, start - low, start - end, maxI, minI);
    }
  }

  /** The exact limit inside the span. */
  lemma DischargeLimitExact(start: nat, end: nat, minI: int, cell: nat, maxI: int, per: nat, q: nat)
    requires end < start && end <= cell <= start && minI < maxI && per > 0
    requires Greatest(per, maxI - minI, 100 * (start - end)) && Greatest(q, per, 100 * (start - cell))
    ensures DischargeLimit(start, end, minI, cell, maxI)
         == Ampere(if maxI - q < minI then minI else maxI - q)
    ensures cell == start ==> DischargeLimit(start, end, minI, cell, maxI) == Ampere(maxI)
  {
    ReduceExact(start - cell, start - end, maxI, minI, per, q);
    if cell == start { GreatestIsQuotient(q, per, 0); }
  }

  /** Outside the span the limit is one of its ends: the maximum when switched off, above the start
      voltage or wrongly configured, and otherwise the minimum. */
  lemma DischargeLimitOutside(start: nat, end: nat, minI: int, cell: nat, maxI: int)
    ensures start == 0 || start < cell || start <= end || maxI <= minI ==>
              DischargeLimit(start, end, minI, cell, maxI) == Ampere(maxI)
    ensures cell < end < start && minI < maxI ==>
              DischargeLimit(start, end, minI, cell, maxI) == Ampere(minI)
  {
  }
}
