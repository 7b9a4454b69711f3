/** Triangular probing on a table whose size is a power of two. */
module Probing {
  import opened Words

  /** 0 + 1 + ... + p: how far the p-th probe is from the first. */
  function Triangle(p: nat): nat {
    if p == 0 then 0 else Triangle(p - 1) + p
  }

  /** The bucket of the p-th probe for a hash. */
  function Probe(hash: nat, p: nat, n: nat): (b: nat)
    requires n > 0
    ensures b < n
  {
    (hash + Triangle(p)) % n
  }

  ghost predicate IsPow2(n: nat) {
    exists k: nat :: n == Pow2(k)
  }

  lemma ModAdd(x: nat, y: nat, n: nat)
    requires n > 0
    ensures (x % n + y) % n == (x + y) % n
  {
    var q, r := (x % n + y) / n, (x % n + y) % n;
    assert x + y == n * (x / n + q) + r by {
      assert x == n * (x / n) + x % n;
      assert x % n + y == n * q + r;
      Distribute(n, x / n, q);
    }
    ModUnique(x + y, n, x / n + q, r);
  }

  lemma Distribute(n: int, a: int, b: int)
    ensures n * (a + b) == n * a + n * b
  {
  }

  lemma FirstBucket(hash: nat, n: nat)
    requires IsPow2(n)
    ensures n > 0 && And(hash, n - 1) == Probe(hash, 0, n)
  {
    var k: nat :| n == Pow2(k);
    MaskIsMod(hash, k);
  }

  /** One step of the probing loop: add the probe count, mask. */
  lemma NextBucket(hash: nat, p: nat, n: nat)
    requires IsPow2(n)
    ensures n > 0 && And(Probe(hash, p, n) + (p + 1), n - 1) == Probe(hash, p + 1, n)
  {
    var k: nat :| n == Pow2(k);
    MaskIsMod(Probe(hash, p, n) + (p + 1), k);
    ModAdd(hash + Triangle(p), p + 1, n);
  }

  // ---- every bucket is probed exactly once ----

  lemma {:induction false} TriangleDouble(p: nat)
    ensures 2 * Triangle(p) == p * (p + 1)
  {
    if p > 0 {
      TriangleDouble(p - 1);
    }
  }

  /** A power of two that divides a * b with b odd divides a. */
  lemma {:induction false} OddFactor(k: nat, a: nat, b: nat, c: nat)
    requires a * b == Pow2(k) * c && b % 2 == 1
    ensures a % Pow2(k) == 0
    decreases k
  {
    if k > 0 {
      var p := Pow2(k - 1);
      assert a * b == 2 * (p * c);
      if a % 2 == 1 {
        OddTimesOdd(a, b);
        assert false;
      }
      var h := a / 2;
      assert h * b == p * c by {
        assert a == 2 * h;
        assert a * b == 2 * (h * b);
      }
      OddFactor(k - 1, h, b, c);
      assert h == p * (h / p);
      assert a == (2 * p) * (h / p);
      ModUnique(a, 2 * p, h / p, 0);
    }
  }

  lemma OddTimesOdd(a: nat, b: nat)
    requires a % 2 == 1 && b % 2 == 1
    ensures (a * b) % 2 == 1
  {
    var x, y := a / 2, b / 2;
    assert a * b == 2 * (2 * (x * y) + x + y) + 1 by {
      assert a == 2 * x + 1 && b == 2 * y + 1;
    }
  }

  lemma TriangleGap(p: nat, q: nat)
    requires p <= q
    ensures Triangle(p) <= Triangle(q)
    ensures 2 * (Triangle(q) - Triangle(p)) == (q - p) * (q + p + 1)
  {
    TriangleDouble(p);
    TriangleDouble(q);
    assert (q - p) * (q + p + 1) == q * (q + 1) - p * (p + 1);
    assert (q - p) * (q + p + 1) >= 0;
  }

  lemma SameRemainder(x: nat, y: nat, n: nat) returns (c: nat)
    requires n > 0 && x <= y && x % n == y % n
    ensures y - x == n * c
  {
    var d: int := y / n - x / n;
    assert y - x == n * d by {
      assert x == n * (x / n) + x % n && y == n * (y / n) + y % n;
      Distribute(n, d, x / n);
    }
    MultipleIsFar(n, d);
    c := d;
  }

  lemma SmallNotMultiple(a: nat, n: nat)
    requires 0 < a < n
    ensures a % n != 0
  {
    ModUnique(a, n, 0, a);
  }

  /** Two factors of different parity, both below 2^(k+1), have no multiple of it as product. */
  lemma NoMultiple(k: nat, a: nat, b: nat, c: nat)
    requires 0 < a < Pow2(k) && a < b < Pow2(k)
    requires (a + b) % 2 == 1
    ensures a * b != Pow2(k) * c
  {
    hide Pow2;
    if a * b == Pow2(k) * c {
      OneOdd(k, a, b, c);
      SmallNotMultiple(a, Pow2(k));
      SmallNotMultiple(b, Pow2(k));
      assert false;
    }
  }

  lemma OneOdd(k: nat, a: nat, b: nat, c: nat)
    requires a * b == Pow2(k) * c && (a + b) % 2 == 1
    ensures a % Pow2(k) == 0 || b % Pow2(k) == 0
  {
    hide Pow2;
    if b % 2 == 1 {
      OddFactor(k, a, b, c);
    } else {
      Commute(a, b);
      OddFactor(k, b, a, c);
    }
  }

  lemma Commute(a: int, b: int)
    ensures a * b == b * a
  {
  }

  /** No bucket is probed twice within one round. */
  lemma ProbesDiffer(hash: nat, p: nat, q: nat, n: nat)
    requires IsPow2(n) && p < q < n
    ensures Probe(hash, p, n) != Probe(hash, q, n)
  {
    if Probe(hash, p, n) == Probe(hash, q, n) {
      var k: nat :| n == Pow2(k);
      assert Pow2(k + 1) == 2 * n;
      TriangleGap(p, q);
      var c := SameRemainder(hash + Triangle(p), hash + Triangle(q), n);
      hide *;
      var a, b := q - p, q + p + 1;
      assert a + b == 2 * q + 1;
      assert a * b == 2 * (n * c);
      NoMultiple(k + 1, a, b, c);
      Associate(2, n, c);
      assert false;
    }
  }

  lemma Associate(a: int, b: int, c: int)
    ensures a * (b * c) == a * b * c
  {
  }

  /** The buckets of the first m probes. */
  ghost function Probed(hash: nat, m: nat, n: nat): set<nat>
    requires n > 0
  {
    set p | 0 <= p < m :: Probe(hash, p, n)
  }

  ghost function Below(n: nat): (s: set<nat>)
    ensures forall b: nat :: b in s <==> b < n
  {
    if n == 0 then {} else Below(n - 1) + {n - 1}
  }

  lemma {:induction false} BelowSize(n: nat)
    ensures |Below(n)| == n
  {
    if n > 0 {
      BelowSize(n - 1);
    }
  }

  lemma {:induction false} ProbedSize(hash: nat, m: nat, n: nat)
    requires IsPow2(n) && n > 0 && m <= n
    ensures |Probed(hash, m, n)| == m
  {
    if m > 0 {
      ProbedSize(hash, m - 1, n);
      forall p | 0 <= p < m - 1 ensures Probe(hash, p, n) != Probe(hash, m - 1, n) {
        ProbesDiffer(hash, p, m - 1, n);
      }
      assert Probed(hash, m, n) == Probed(hash, m - 1, n) + {Probe(hash, m - 1, n)};
    }
  }

  lemma SubsetSize<T>(a: set<T>, b: set<T>)
    requires a <= b && |a| == |b|
    ensures a == b
  {
    assert b == a + (b - a);
  }

  /** A round of n probes visits every bucket exactly once. */
  lemma ProbesCover(hash: nat, b: nat, n: nat) returns (p: nat)
    requires IsPow2(n) && b < n
    ensures p < n && Probe(hash, p, n) == b
    ensures forall q: nat :: q < n && Probe(hash, q, n) == b ==> q == p
  {
    ProbedSize(hash, n, n);
    BelowSize(n);
    SubsetSize(Probed(hash, n, n), Below(n));
    assert b in Probed(hash, n, n);
    p :| 0 <= p < n && Probe(hash, p, n) == b;
    forall q: nat | q < n && Probe(hash, q, n) == b
      ensures q == p
    {
      if q < p { ProbesDiffer(hash, q, p, n); } else if p < q { ProbesDiffer(hash, p, q, n); }
    }
  }
}
