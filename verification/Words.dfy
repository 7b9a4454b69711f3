/** Unsigned machine words as natural numbers, with the bit operations of C written out
    bit by bit, and the bit twiddling the sparse table builds from them. */
module Words {

  /** 1 << i */
  function Pow2(i: nat): (p: nat)
    ensures p > 0
  {
    if i == 0 then 1 else 2 * Pow2(i - 1)
  }

  /** Bit i of b, counted from the least significant one. */
  predicate Bit(b: nat, i: nat) {
    if i == 0 then b % 2 == 1 else Bit(b / 2, i - 1)
  }

  /** x & y */
  function And(x: nat, y: nat): nat {
    if x == 0 || y == 0 then 0 else 2 * And(x / 2, y / 2) + (x % 2) * (y % 2)
  }

  /** x | y */
  function Or(x: nat, y: nat): nat {
    if x == 0 then y else 2 * Or(x / 2, y / 2) + if x % 2 == 1 || y % 2 == 1 then 1 else 0
  }

  /** x & ~y */
  function AndNot(x: nat, y: nat): nat {
    if x == 0 then 0 else 2 * AndNot(x / 2, y / 2) + if x % 2 == 1 && y % 2 == 0 then 1 else 0
  }

  /** -x in a word of the given width. */
  function Negate(x: nat, width: nat): nat
    requires x < Pow2(width)
  {
    if x == 0 then 0 else Pow2(width) - x
  }

  function SetBit(b: nat, i: nat): nat {
    Or(b, Pow2(i))
  }

  function ClearBit(b: nat, i: nat): nat {
    AndNot(b, Pow2(i))
  }

  predicate Test(b: nat, i: nat) {
    And(b, Pow2(i)) != 0
  }

  /** How many bits are set. */
  function PopCount(b: nat): nat {
    if b == 0 then 0 else b % 2 + PopCount(b / 2)
  }

  /** How many bits are set strictly below position pos. */
  function Rank(b: nat, pos: nat): nat {
    if pos == 0 then 0 else b % 2 + Rank(b / 2, pos - 1)
  }

  /** The position of the set bit that has exactly k set bits below it. */
  function Select(b: nat, k: nat): nat
    requires k < PopCount(b)
  {
    if b % 2 == 1 && k == 0 then 0 else 1 + Select(b / 2, k - b % 2)
  }

  // ---- single bits ----

  lemma AndZero(x: nat)
    ensures And(x, 0) == 0
  {
  }

  lemma {:induction false} TestIsBit(b: nat, i: nat)
    ensures Test(b, i) == Bit(b, i)
  {
    if i == 0 {
      assert And(b, 1) == if b == 0 then 0 else 2 * And(b / 2, 0) + b % 2;
    } else {
      TestIsBit(b / 2, i - 1);
      if b == 0 { ZeroBits(i); }
    }
  }

  lemma {:induction false} ZeroBits(i: nat)
    ensures !Bit(0, i) && Rank(0, i) == 0
  {
    if i > 0 { ZeroBits(i - 1); }
  }

  lemma {:induction false} OrZero(x: nat)
    ensures Or(x, 0) == x
  {
    if x > 0 { OrZero(x / 2); }
  }

  lemma {:induction false} AndNotZero(x: nat)
    ensures AndNot(x, 0) == x
  {
    if x > 0 { AndNotZero(x / 2); }
  }

  lemma SetStep(b: nat, i: nat)
    ensures SetBit(b, i) / 2 == if i == 0 then b / 2 else SetBit(b / 2, i - 1)
    ensures SetBit(b, i) % 2 == if i == 0 then 1 else b % 2
  {
    if b == 0 {
    } else if i == 0 {
      OrZero(b / 2);
    }
  }

  lemma ClearStep(b: nat, i: nat)
    ensures ClearBit(b, i) / 2 == if i == 0 then b / 2 else ClearBit(b / 2, i - 1)
    ensures ClearBit(b, i) % 2 == if i == 0 then 0 else b % 2
  {
    if b == 0 {
    } else if i == 0 {
      AndNotZero(b / 2);
    }
  }

  lemma {:induction false} SetBitBits(b: nat, i: nat, j: nat)
    ensures Bit(SetBit(b, i), j) == (Bit(b, j) || j == i)
    ensures Rank(SetBit(b, i), j) == Rank(b, j) + if i < j && !Bit(b, i) then 1 else 0
    decreases i
  {
    hide SetBit;
    SetStep(b, i);
    if i > 0 && j > 0 { SetBitBits(b / 2, i - 1, j - 1); }
  }

  lemma {:induction false} ClearBitBits(b: nat, i: nat, j: nat)
    ensures Bit(ClearBit(b, i), j) == (Bit(b, j) && j != i)
    ensures Rank(ClearBit(b, i), j) == Rank(b, j) - if i < j && Bit(b, i) then 1 else 0
    decreases i
  {
    hide ClearBit;
    ClearStep(b, i);
    if i > 0 && j > 0 { ClearBitBits(b / 2, i - 1, j - 1); }
  }

  lemma ClearZero(i: nat)
    ensures ClearBit(0, i) == 0
  {
  }

  /** Setting and clearing bits below the width stays inside the word. */
  lemma {:induction false} BitsFit(b: nat, i: nat, width: nat)
    requires b < Pow2(width)
    ensures i < width ==> SetBit(b, i) < Pow2(width)
    ensures ClearBit(b, i) <= b
    decreases width
  {
    hide SetBit, ClearBit;
    SetStep(b, i);
    ClearStep(b, i);
    if width == 0 {
      assert ClearBit(0, i) == 0 by { ClearZero(i); }
    } else if i > 0 {
      BitsFit(b / 2, i - 1, width - 1);
    }
  }

  // ---- masks ----

  /** x & (2^k - 1) is the remainder modulo 2^k: how buckets are taken from hashes. */
  lemma {:induction false} MaskIsMod(x: nat, k: nat)
    ensures And(x, Pow2(k) - 1) == x % Pow2(k)
  {
    if k == 0 {
      AndZero(x);
    } else {
      var p := Pow2(k - 1);
      assert Pow2(k) == 2 * p;
      MaskIsMod(x / 2, k - 1);
      hide *;
      MaskModStep(x, p);
    }
  }

  lemma MaskModStep(x: nat, p: nat)
    requires p > 0 && And(x / 2, p - 1) == (x / 2) % p
    ensures And(x, 2 * p - 1) == x % (2 * p)
  {
    hide *;
    MaskStep(x, p);
    HalfMod(x, p);
  }

  lemma MaskStep(x: nat, p: nat)
    requires p > 0
    ensures And(x, 2 * p - 1) == 2 * And(x / 2, p - 1) + x % 2
  {
    assert (2 * p - 1) / 2 == p - 1 && (2 * p - 1) % 2 == 1;
  }

  lemma HalfMod(x: nat, p: nat)
    requires p > 0
    ensures x % (2 * p) == 2 * ((x / 2) % p) + x % 2
  {
    var q, r := (x / 2) / p, (x / 2) % p;
    assert x == (2 * p) * q + (2 * r + x % 2) by {
      assert x / 2 == p * q + r;
    }
    ModUnique(x, 2 * p, q, 2 * r + x % 2);
  }

  lemma MultipleIsFar(n: int, d: int)
    requires n > 0
    ensures d >= 1 ==> n * d >= n
    ensures d <= -1 ==> n * d <= -n
  {
  }

  lemma ModUnique(x: nat, n: nat, q: nat, r: nat)
    requires x == n * q + r && r < n
    ensures x % n == r && x / n == q
  {
    var d: int := x / n - q;
    assert n * d == r - x % n by {
      assert x == n * (x / n) + x % n;
    }
    MultipleIsFar(n, d);
  }

  // ---- positions and offsets ----

  /** The rank of a position is the population count of the masked word. */
  lemma {:induction false} MaskedCountIsRank(b: nat, pos: nat)
    ensures PopCount(And(b, Pow2(pos) - 1)) == Rank(b, pos)
  {
    if pos > 0 {
      MaskedCountIsRank(b / 2, pos - 1);
      assert (Pow2(pos) - 1) / 2 == Pow2(pos - 1) - 1 && (Pow2(pos) - 1) % 2 == 1;
      if b == 0 { ZeroBits(pos); }
    }
  }

  lemma {:induction false} RankAll(b: nat, width: nat)
    requires b < Pow2(width)
    ensures Rank(b, width) == PopCount(b)
  {
    if width > 0 {
      RankAll(b / 2, width - 1);
    }
  }

  lemma {:induction false} RankGrows(b: nat, i: nat, j: nat)
    requires i <= j
    ensures Rank(b, i) <= Rank(b, j)
    ensures i < j && Bit(b, i) ==> Rank(b, i) < Rank(b, j)
  {
    if j > 0 {
      if i > 0 { RankGrows(b / 2, i - 1, j - 1); }
    }
  }

  lemma {:induction false} RankNext(b: nat, pos: nat)
    ensures Rank(b, pos + 1) == Rank(b, pos) + if Bit(b, pos) then 1 else 0
  {
    if pos > 0 { RankNext(b / 2, pos - 1); }
  }

  /** Position to offset and back: the two are inverse on set bits. */
  lemma {:induction false} SelectRank(b: nat, pos: nat)
    requires Bit(b, pos)
    ensures Rank(b, pos) < PopCount(b)
    ensures Select(b, Rank(b, pos)) == pos
  {
    if pos == 0 {
    } else {
      SelectRank(b / 2, pos - 1);
    }
  }

  lemma {:induction false} RankSelect(b: nat, k: nat)
    requires k < PopCount(b)
    ensures Bit(b, Select(b, k)) && Rank(b, Select(b, k)) == k
  {
    if b % 2 == 1 && k == 0 {
    } else {
      RankSelect(b / 2, k - b % 2);
    }
  }

  lemma {:induction false} SelectFits(b: nat, k: nat, width: nat)
    requires b < Pow2(width) && k < PopCount(b)
    ensures Select(b, k) < width
  {
    if b % 2 == 1 && k == 0 {
    } else {
      SelectFits(b / 2, k - b % 2, width - 1);
    }
  }

  lemma {:induction false} AndSelf(x: nat)
    ensures And(x, x) == x
  {
    if x > 0 { AndSelf(x / 2); }
  }

  /** b & (b - 1): the word without its lowest set bit. */
  function WithoutLowest(b: nat): nat
    requires b > 0
  {
    And(b, b - 1)
  }

  lemma WithoutLowestStep(b: nat)
    requires b > 0
    ensures b % 2 == 1 ==> WithoutLowest(b) == b - 1
    ensures b % 2 == 0 ==> WithoutLowest(b) == 2 * WithoutLowest(b / 2)
  {
    if b % 2 == 1 { AndSelf(b / 2); }
  }

  lemma {:induction false} DropLowest(b: nat, k: nat)
    requires b > 0
    ensures WithoutLowest(b) < b
    ensures PopCount(WithoutLowest(b)) == PopCount(b) - 1
    ensures k < PopCount(b) - 1 ==> Select(WithoutLowest(b), k) == Select(b, k + 1)
  {
    WithoutLowestStep(b);
    hide WithoutLowest;
    if b % 2 == 0 {
      DropLowest(b / 2, k);
    }
  }

  lemma {:induction false} AndComplement(x: nat, k: nat)
    requires x < Pow2(k)
    ensures And(x, Pow2(k) - 1 - x) == 0
  {
    if k > 0 { AndComplement(x / 2, k - 1); }
  }

  /** b & -b isolates the lowest set bit, so (b & -b) - 1 has as many bits as zeros lie below it. */
  lemma {:induction false} IsolateLowest(b: nat, width: nat)
    requires 0 < b < Pow2(width)
    ensures And(b, Negate(b, width)) > 0
    ensures PopCount(b) > 0 && PopCount(And(b, Negate(b, width)) - 1) == Select(b, 0)
  {
    var n := Negate(b, width);
    if b % 2 == 1 {
      AndComplement(b / 2, width - 1);
      assert n / 2 == Pow2(width - 1) - 1 - b / 2;
    } else {
      IsolateLowest(b / 2, width - 1);
      assert n / 2 == Negate(b / 2, width - 1) && n % 2 == 0;
    }
  }
}
