/** The branch-free bit counter of the sparse table counts the set bits of a word. */
module PopCounting {
  import Words

  /** How many bits are set: the meaning of the counter. */
  function PopCount(b: bv32): nat
    decreases b
  {
    if b == 0 then 0 else Low(b) + PopCount(b >> 1)
  }

  function Low(b: bv32): nat {
    if b & 1 == 1 then 1 else 0
  }

  // ---- the counter, stage by stage ----

  function Pairs(b: bv32): bv32 {
    b - ((b >> 1) & 0x55555555)
  }

  function Nibbles(i: bv32): bv32 {
    (i & 0x33333333) + ((i >> 2) & 0x33333333)
  }

  function Bytes(j: bv32): bv32 {
    (j + (j >> 4)) & 0x0F0F0F0F
  }

  function ByteCounts(b: bv32): bv32 {
    Bytes(Nibbles(Pairs(b)))
  }

  /** The branch-free counter: no loop, four masked additions and one multiplication. */
  function PopCountSwar(b: bv32): bv32 {
    (ByteCounts(b) * 0x01010101) >> 24
  }

  /** A two-bit field counts its own two bits: sum bit and carry bit. */
  lemma PairsAreFields(b: bv32)
    ensures Pairs(b) == ((b ^ (b >> 1)) & 0x55555555) | ((b & (b >> 1) & 0x55555555) << 1)
  {
  }

  lemma PairsShift(b: bv32)
    ensures Pairs(b >> 8) == Pairs(b) >> 8
  {
    hide Pairs;
    PairsAreFields(b);
    PairsAreFields(b >> 8);
  }

  lemma NibblesShift(i: bv32)
    ensures Nibbles(i >> 8) == Nibbles(i) >> 8
    ensures Nibbles(i) & 0x88888888 == 0
  {
  }

  lemma BytesShift(j: bv32)
    requires j & 0x88888888 == 0
    ensures Bytes(j >> 8) == Bytes(j) >> 8
    ensures Bytes(j) & 0xF0F0F0F0 == 0
  {
  }

  lemma ByteCountsShift(b: bv32)
    ensures ByteCounts(b >> 8) == ByteCounts(b) >> 8
    ensures ByteCounts(b) & 0xF0F0F0F0 == 0
  {
    hide Pairs, Nibbles, Bytes;
    PairsShift(b);
    NibblesShift(Pairs(b));
    BytesShift(Nibbles(Pairs(b)));
  }

  lemma SumOfBytes(c: bv32)
    requires c & 0xF0F0F0F0 == 0
    ensures (c * 0x01010101) >> 24 == (c & 0xFF) + ((c >> 8) & 0xFF) + ((c >> 16) & 0xFF) + (c >> 24)
  {
  }

  /** The sum of the four lowest bits. */
  function LowNibble(b: bv32): bv32 {
    (b & 1) + (((b >> 1) & 1) + (((b >> 2) & 1) + ((b >> 3) & 1)))
  }

  lemma LowByteCount(b: bv32)
    ensures ByteCounts(b) & 0xFF == LowNibble(b) + LowNibble(b >> 4)
  {
  }

  lemma SwarByByte(b: bv32)
    ensures PopCountSwar(b) == (ByteCounts(b) & 0xFF) + PopCountSwar(b >> 8)
    ensures PopCountSwar(b >> 8) <= 63 && ByteCounts(b) & 0xFF <= 15
  {
    hide ByteCounts;
    ByteCountsShift(b);
    SplitSum(ByteCounts(b), ByteCounts(b >> 8));
  }

  lemma SplitSum(c: bv32, d: bv32)
    requires c & 0xF0F0F0F0 == 0 && d == c >> 8
    ensures (c * 0x01010101) >> 24 == (c & 0xFF) + ((d * 0x01010101) >> 24)
    ensures (d * 0x01010101) >> 24 <= 63 && c & 0xFF <= 15
  {
    SumOfBytes(c);
    SumOfBytes(d);
  }

  lemma Successor(x: bv32)
    requires x <= 127
    ensures (x + 1) as nat == x as nat + 1
  {
  }

  lemma {:induction false} AddSmall(x: bv32, y: bv32)
    requires x <= 15 && y <= 63
    ensures (x + y) as nat == x as nat + y as nat
    decreases x
  {
    if x != 0 {
      AddSmall(x - 1, y);
      var p, q := x - 1, x - 1 + y;
      assert p + 1 == x && q + 1 == x + y && q <= 127;
      Successor(p);
      Successor(q);
    }
  }

  lemma NibbleBits(x0: bv32, x1: bv32, x2: bv32, x3: bv32)
    requires x0 <= 1 && x1 <= 1 && x2 <= 1 && x3 <= 1
    ensures (x0 + (x1 + (x2 + x3))) as nat == x0 as nat + x1 as nat + x2 as nat + x3 as nat
    ensures x0 + (x1 + (x2 + x3)) <= 4
  {
  }

  lemma BitIsLow(b: bv32)
    ensures (b & 1) as nat == Low(b) && b & 1 <= 1
  {
  }

  lemma NibbleCount(b: bv32)
    ensures LowNibble(b) as nat == Low(b) + Low(b >> 1) + Low(b >> 2) + Low(b >> 3)
    ensures LowNibble(b) <= 4
  {
    BitIsLow(b);
    BitIsLow(b >> 1);
    BitIsLow(b >> 2);
    BitIsLow(b >> 3);
    NibbleBits(b & 1, (b >> 1) & 1, (b >> 2) & 1, (b >> 3) & 1) by { hide Low; }
  }

  lemma FourBits(b: bv32)
    ensures PopCount(b) == LowNibble(b) as nat + PopCount(b >> 4)
  {
    NibbleCount(b);
    hide LowNibble;
    assert (b >> 1) >> 1 == b >> 2 && (b >> 2) >> 1 == b >> 3 && (b >> 3) >> 1 == b >> 4;
    assert PopCount(b) == Low(b) + PopCount(b >> 1);
    assert PopCount(b >> 1) == Low(b >> 1) + PopCount(b >> 2);
    assert PopCount(b >> 2) == Low(b >> 2) + PopCount(b >> 3);
    assert PopCount(b >> 3) == Low(b >> 3) + PopCount(b >> 4);
  }

  /** The branch-free counter counts the set bits of every word. */
  lemma {:induction false} SwarIsPopCount(b: bv32)
    ensures PopCountSwar(b) as nat == PopCount(b)
    decreases b
  {
    if b == 0 {
      assert PopCountSwar(0) == 0;
    } else {
      SwarIsPopCount(b >> 8);
      SwarStep(b);
      FourBits(b);
      FourBits(b >> 4);
      assert (b >> 4) >> 4 == b >> 8;
      hide *;
    }
  }

  lemma AddThree(x: bv32, y: bv32, c: bv32, rest: bv32, total: bv32)
    requires x <= 4 && y <= 4 && c <= 15 && rest <= 63
    requires c == x + y && total == c + rest
    ensures total as nat == x as nat + y as nat + rest as nat
  {
    AddSmall(x, y);
    AddSmall(c, rest);
  }

  lemma SwarStep(b: bv32)
    ensures PopCountSwar(b) as nat
            == LowNibble(b) as nat + LowNibble(b >> 4) as nat + PopCountSwar(b >> 8) as nat
  {
    hide *;
    SwarByByte(b);
    LowByteCount(b);
    NibbleCount(b);
    NibbleCount(b >> 4);
    AddThree(LowNibble(b), LowNibble(b >> 4), ByteCounts(b) & 0xFF, PopCountSwar(b >> 8), PopCountSwar(b));
  }

  /** The number a machine word stands for. */
  function WordValue(b: bv32): nat
    decreases b
  {
    if b == 0 then 0 else Low(b) + 2 * WordValue(b >> 1)
  }

  /** The counter computes the population count the group bitmaps are specified with. */
  lemma SwarCountsWord(b: bv32)
    ensures PopCountSwar(b) as nat == Words.PopCount(WordValue(b))
  {
    SwarIsPopCount(b);
    CountOfValue(b);
  }

  lemma {:induction false} CountOfValue(b: bv32)
    ensures PopCount(b) == Words.PopCount(WordValue(b))
    decreases b
  {
    hide Words.PopCount;
    if b != 0 {
      CountOfValue(b >> 1);
      CountDoubled(Low(b), WordValue(b >> 1));
    } else {
      CountZero();
    }
  }

  lemma CountZero()
    ensures Words.PopCount(0) == 0
  {
  }

  lemma CountDoubled(low: nat, n: nat)
    requires low < 2
    ensures Words.PopCount(low + 2 * n) == low + Words.PopCount(n)
  {
  }
}
