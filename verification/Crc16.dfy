/** The table-driven CRC over serial telegrams and cell voltages, against the bit-by-bit
    generation of section 6.2.2 of the MODBUS over Serial Line Specification V1.02. */
module Crc16 {

  const CRC16_TABLE: seq<seq<bv16>> := [
    [0x0000, 0xC0C1, 0xC181, 0x0140, 0xC301, 0x03C0, 0x0280, 0xC241],
    [0xC601, 0x06C0, 0x0780, 0xC741, 0x0500, 0xC5C1, 0xC481, 0x0440],
    [0xCC01, 0x0CC0, 0x0D80, 0xCD41, 0x0F00, 0xCFC1, 0xCE81, 0x0E40],
    [0x0A00, 0xCAC1, 0xCB81, 0x0B40, 0xC901, 0x09C0, 0x0880, 0xC841],
    [0xD801, 0x18C0, 0x1980, 0xD941, 0x1B00, 0xDBC1, 0xDA81, 0x1A40],
    [0x1E00, 0xDEC1, 0xDF81, 0x1F40, 0xDD01, 0x1DC0, 0x1C80, 0xDC41],
    [0x1400, 0xD4C1, 0xD581, 0x1540, 0xD701, 0x17C0, 0x1680, 0xD641],
    [0xD201, 0x12C0, 0x1380, 0xD341, 0x1100, 0xD1C1, 0xD081, 0x1040],
    [0xF001, 0x30C0, 0x3180, 0xF141, 0x3300, 0xF3C1, 0xF281, 0x3240],
    [0x3600, 0xF6C1, 0xF781, 0x3740, 0xF501, 0x35C0, 0x3480, 0xF441],
    [0x3C00, 0xFCC1, 0xFD81, 0x3D40, 0xFF01, 0x3FC0, 0x3E80, 0xFE41],
    [0xFA01, 0x3AC0, 0x3B80, 0xFB41, 0x3900, 0xF9C1, 0xF881, 0x3840],
    [0x2800, 0xE8C1, 0xE981, 0x2940, 0xEB01, 0x2BC0, 0x2A80, 0xEA41],
    [0xEE01, 0x2EC0, 0x2F80, 0xEF41, 0x2D00, 0xEDC1, 0xEC81, 0x2C40],
    [0xE401, 0x24C0, 0x2580, 0xE541, 0x2700, 0xE7C1, 0xE681, 0x2640],
    [0x2200, 0xE2C1, 0xE381, 0x2340, 0xE101, 0x21C0, 0x2080, 0xE041],
    [0xA001, 0x60C0, 0x6180, 0xA141, 0x6300, 0xA3C1, 0xA281, 0x6240],
    [0x6600, 0xA6C1, 0xA781, 0x6740, 0xA501, 0x65C0, 0x6480, 0xA441],
    [0x6C00, 0xACC1, 0xAD81, 0x6D40, 0xAF01, 0x6FC0, 0x6E80, 0xAE41],
    [0xAA01, 0x6AC0, 0x6B80, 0xAB41, 0x6900, 0xA9C1, 0xA881, 0x6840],
    [0x7800, 0xB8C1, 0xB981, 0x7940, 0xBB01, 0x7BC0, 0x7A80, 0xBA41],
    [0xBE01, 0x7EC0, 0x7F80, 0xBF41, 0x7D00, 0xBDC1, 0xBC81, 0x7C40],
    [0xB401, 0x74C0, 0x7580, 0xB541, 0x7700, 0xB7C1, 0xB681, 0x7640],
    [0x7200, 0xB2C1, 0xB381, 0x7340, 0xB101, 0x71C0, 0x7080, 0xB041],
    [0x5000, 0x90C1, 0x9181, 0x5140, 0x9301, 0x53C0, 0x5280, 0x9241],
    [0x9601, 0x56C0, 0x5780, 0x9741, 0x5500, 0x95C1, 0x9481, 0x5440],
    [0x9C01, 0x5CC0, 0x5D80, 0x9D41, 0x5F00, 0x9FC1, 0x9E81, 0x5E40],
    [0x5A00, 0x9AC1, 0x9B81, 0x5B40, 0x9901, 0x59C0, 0x5880, 0x9841],
    [0x8801, 0x48C0, 0x4980, 0x8941, 0x4B00, 0x8BC1, 0x8A81, 0x4A40],
    [0x4E00, 0x8EC1, 0x8F81, 0x4F40, 0x8D01, 0x4DC0, 0x4C80, 0x8C41],
    [0x4400, 0x84C1, 0x8581, 0x4540, 0x8701, 0x47C0, 0x4680, 0x8641],
    [0x8201, 0x42C0, 0x4380, 0x8341, 0x4100, 0x81C1, 0x8081, 0x4040]
  ]

  lemma TableShape()
    ensures |CRC16_TABLE| == 32 && forall i :: 0 <= i < 32 ==> |CRC16_TABLE[i]| == 8
  {
  }

  /** Entry n of the table, eight to a row. */
  function TableEntry(n: bv8): bv16 {
    TableShape();
    CRC16_TABLE[n as int / 8][n as int % 8]
  }

  /** One shift of the register: right by one, with the polynomial if a one falls out. */
  function BitStep(c: bv16): bv16 {
    if c & 1 == 1 then (c >> 1) ^ 0xA001 else c >> 1
  }

  /** Eight shifts: what one byte, already combined with the register, does to it. */
  function ByteStep(c: bv16): bv16 {
    BitStep(BitStep(BitStep(BitStep(BitStep(BitStep(BitStep(BitStep(c))))))))
  }

  /** A byte in the low half of the register. */
  function Low(b: bv8): bv16 {
    b as bv16
  }

  /** The register after a message, bit by bit. */
  function Update(c: bv16, msg: seq<bv8>): bv16 {
    if msg == [] then c else ByteStep(Sum(Update(c, msg[..|msg| - 1]), Low(msg[|msg| - 1])))
  }

  function Crc(msg: seq<bv8>): bv16 {
    Update(0xFFFF, msg)
  }

  // ---- the table ----

  lemma Entry0(n: bv8)
    requires 0 <= n <= 15
    ensures TableEntry(n) == ByteStep(Low(n))
  {
    if {
      case n == 0 => case n == 1 => case n == 2 => case n == 3 =>
      case n == 4 => case n == 5 => case n == 6 => case n == 7 =>
      case n == 8 => case n == 9 => case n == 10 => case n == 11 =>
      case n == 12 => case n == 13 => case n == 14 => case n == 15 =>
    }
  }

  lemma Entry16(n: bv8)
    requires 16 <= n <= 31
    ensures TableEntry(n) == ByteStep(Low(n))
  {
    if {
      case n == 16 => case n == 17 => case n == 18 => case n == 19 =>
      case n == 20 => case n == 21 => case n == 22 => case n == 23 =>
      case n == 24 => case n == 25 => case n == 26 => case n == 27 =>
      case n == 28 => case n == 29 => case n == 30 => case n == 31 =>
    }
  }

  lemma Entry32(n: bv8)
    requires 32 <= n <= 47
    ensures TableEntry(n) == ByteStep(Low(n))
  {
    if {
      case n == 32 => case n == 33 => case n == 34 => case n == 35 =>
      case n == 36 => case n == 37 => case n == 38 => case n == 39 =>
      case n == 40 => case n == 41 => case n == 42 => case n == 43 =>
      case n == 44 => case n == 45 => case n == 46 => case n == 47 =>
    }
  }

  lemma Entry48(n: bv8)
    requires 48 <= n <= 63
    ensures TableEntry(n) == ByteStep(Low(n))
  {
    if {
      case n == 48 => case n == 49 => case n == 50 => case n == 51 =>
      case n == 52 => case n == 53 => case n == 54 => case n == 55 =>
      case n == 56 => case n == 57 => case n == 58 => case n == 59 =>
      case n == 60 => case n == 61 => case n == 62 => case n == 63 =>
    }
  }

  lemma Entry64(n: bv8)
    requires 64 <= n <= 79
    ensures TableEntry(n) == ByteStep(Low(n))
  {
    if {
      case n == 64 => case n == 65 => case n == 66 => case n == 67 =>
      case n == 68 => case n == 69 => case n == 70 => case n == 71 =>
      case n == 72 => case n == 73 => case n == 74 => case n == 75 =>
      case n == 76 => case n == 77 => case n == 78 => case n == 79 =>
    }
  }

  lemma Entry80(n: bv8)
    requires 80 <= n <= 95
    ensures TableEntry(n) == ByteStep(Low(n))
  {
    if {
      case n == 80 => case n == 81 => case n == 82 => case n == 83 =>
      case n == 84 => case n == 85 => case n == 86 => case n == 87 =>
      case n == 88 => case n == 89 => case n == 90 => case n == 91 =>
      case n == 92 => case n == 93 => case n == 94 => case n == 95 =>
    }
  }

  lemma Entry96(n: bv8)
    requires 96 <= n <= 111
    ensures TableEntry(n) == ByteStep(Low(n))
  {
    if {
      case n == 96 => case n == 97 => case n == 98 => case n == 99 =>
      case n == 100 => case n == 101 => case n == 102 => case n == 103 =>
      case n == 104 => case n == 105 => case n == 106 => case n == 107 =>
      case n == 108 => case n == 109 => case n == 110 => case n == 111 =>
    }
  }

  lemma Entry112(n: bv8)
    requires 112 <= n <= 127
    ensures TableEntry(n) == ByteStep(Low(n))
  {
    if {
      case n == 112 => case n == 113 => case n == 114 => case n == 115 =>
      case n == 116 => case n == 117 => case n == 118 => case n == 119 =>
      case n == 120 => case n == 121 => case n == 122 => case n == 123 =>
      case n == 124 => case n == 125 => case n == 126 => case n == 127 =>
    }
  }

  lemma Entry128(n: bv8)
    requires 128 <= n <= 143
    ensures TableEntry(n) == ByteStep(Low(n))
  {
    if {
      case n == 128 => case n == 129 => case n == 130 => case n == 131 =>
      case n == 132 => case n == 133 => case n == 134 => case n == 135 =>
      case n == 136 => case n == 137 => case n == 138 => case n == 139 =>
      case n == 140 => case n == 141 => case n == 142 => case n == 143 =>
    }
  }

  lemma Entry144(n: bv8)
    requires 144 <= n <= 159
    ensures TableEntry(n) == ByteStep(Low(n))
  {
    if {
      case n == 144 => case n == 145 => case n == 146 => case n == 147 =>
      case n == 148 => case n == 149 => case n == 150 => case n == 151 =>
      case n == 152 => case n == 153 => case n == 154 => case n == 155 =>
      case n == 156 => case n == 157 => case n == 158 => case n == 159 =>
    }
  }

  lemma Entry160(n: bv8)
    requires 160 <= n <= 175
    ensures TableEntry(n) == ByteStep(Low(n))
  {
    if {
      case n == 160 => case n == 161 => case n == 162 => case n == 163 =>
      case n == 164 => case n == 165 => case n == 166 => case n == 167 =>
      case n == 168 => case n == 169 => case n == 170 => case n == 171 =>
      case n == 172 => case n == 173 => case n == 174 => case n == 175 =>
    }
  }

  lemma Entry176(n: bv8)
    requires 176 <= n <= 191
    ensures TableEntry(n) == ByteStep(Low(n))
  {
    if {
      case n == 176 => case n == 177 => case n == 178 => case n == 179 =>
      case n == 180 => case n == 181 => case n == 182 => case n == 183 =>
      case n == 184 => case n == 185 => case n == 186 => case n == 187 =>
      case n == 188 => case n == 189 => case n == 190 => case n == 191 =>
    }
  }

  lemma Entry192(n: bv8)
    requires 192 <= n <= 207
    ensures TableEntry(n) == ByteStep(Low(n))
  {
    if {
      case n == 192 => case n == 193 => case n == 194 => case n == 195 =>
      case n == 196 => case n == 197 => case n == 198 => case n == 199 =>
      case n == 200 => case n == 201 => case n == 202 => case n == 203 =>
      case n == 204 => case n == 205 => case n == 206 => case n == 207 =>
    }
  }

  lemma Entry208(n: bv8)
    requires 208 <= n <= 223
    ensures TableEntry(n) == ByteStep(Low(n))
  {
    if {
      case n == 208 => case n == 209 => case n == 210 => case n == 211 =>
      case n == 212 => case n == 213 => case n == 214 => case n == 215 =>
      case n == 216 => case n == 217 => case n == 218 => case n == 219 =>
      case n == 220 => case n == 221 => case n == 222 => case n == 223 =>
    }
  }

  lemma Entry224(n: bv8)
    requires 224 <= n <= 239
    ensures TableEntry(n) == ByteStep(Low(n))
  {
    if {
      case n == 224 => case n == 225 => case n == 226 => case n == 227 =>
      case n == 228 => case n == 229 => case n == 230 => case n == 231 =>
      case n == 232 => case n == 233 => case n == 234 => case n == 235 =>
      case n == 236 => case n == 237 => case n == 238 => case n == 239 =>
    }
  }

  lemma Entry240(n: bv8)
    requires 240 <= n <= 255
    ensures TableEntry(n) == ByteStep(Low(n))
  {
    if {
      case n == 240 => case n == 241 => case n == 242 => case n == 243 =>
      case n == 244 => case n == 245 => case n == 246 => case n == 247 =>
      case n == 248 => case n == 249 => case n == 250 => case n == 251 =>
      case n == 252 => case n == 253 => case n == 254 => case n == 255 =>
    }
  }

  /** Every table entry is eight shifts of its index. */
  lemma TableIsByteStep(n: bv8)
    ensures TableEntry(n) == ByteStep(Low(n))
  {
    hide TableEntry, ByteStep, Low;
    if n <= 15 { Entry0(n); } else if n <= 31 { Entry16(n); } else
    if n <= 47 { Entry32(n); } else if n <= 63 { Entry48(n); } else
    if n <= 79 { Entry64(n); } else if n <= 95 { Entry80(n); } else
    if n <= 111 { Entry96(n); } else if n <= 127 { Entry112(n); } else
    if n <= 143 { Entry128(n); } else if n <= 159 { Entry144(n); } else
    if n <= 175 { Entry160(n); } else if n <= 191 { Entry176(n); } else
    if n <= 207 { Entry192(n); } else if n <= 223 { Entry208(n); } else
    if n <= 239 { Entry224(n); } else { Entry240(n); }
  }

  // ---- sums of registers ----

  /** Registers are added without carry. Proofs about sums hide this definition: as an
      uninterpreted operation it is cheap to reason about. */
  function Sum(x: bv16, y: bv16): bv16 {
    x ^ y
  }

  function Shift(c: bv16): bv16 {
    c >> 1
  }

  /** The bit that is shifted out and decides whether the polynomial is added. */
  predicate Outgoing(c: bv16) {
    c & 1 == 1
  }

  lemma ShiftOfSum(x: bv16, y: bv16)
    ensures Shift(Sum(x, y)) == Sum(Shift(x), Shift(y))
  {
  }

  lemma OutgoingOfSum(x: bv16, y: bv16)
    ensures Outgoing(Sum(x, y)) <==> Outgoing(x) != Outgoing(y)
  {
  }

  lemma StepCases(c: bv16)
    ensures BitStep(c) == if Outgoing(c) then Sum(Shift(c), 0xA001) else Shift(c)
  {
  }

  lemma SumAssociative(a: bv16, b: bv16, p: bv16)
    ensures Sum(Sum(a, b), p) == Sum(a, Sum(b, p))
  {
  }

  lemma SumCommutes(a: bv16, b: bv16)
    ensures Sum(a, b) == Sum(b, a)
  {
  }

  lemma SumCancels(a: bv16, p: bv16)
    ensures Sum(Sum(a, p), p) == a
  {
  }

  lemma OneAdded(a: bv16, b: bv16, p: bv16)
    ensures Sum(Sum(a, b), p) == Sum(Sum(a, p), b)
  {
    hide Sum;
    SumAssociative(a, b, p);
    SumCommutes(b, p);
    SumAssociative(a, p, b);
  }

  lemma BothAdded(a: bv16, b: bv16, p: bv16)
    ensures Sum(a, b) == Sum(Sum(a, p), Sum(b, p))
  {
    hide Sum;
    SumAssociative(Sum(a, p), b, p);
    OneAdded(a, p, b);
    SumCancels(Sum(a, b), p);
  }

  lemma BitStepOfSum(x: bv16, y: bv16)
    ensures BitStep(Sum(x, y)) == Sum(BitStep(x), BitStep(y))
  {
    hide BitStep, Outgoing, Sum, Shift;
    var a, b := Shift(x), Shift(y);
    ShiftOfSum(x, y);
    OutgoingOfSum(x, y);
    StepCases(x);
    StepCases(y);
    StepCases(Sum(x, y));
    BothAdded(a, b, 0xA001);
    OneAdded(a, b, 0xA001);
    SumAssociative(a, b, 0xA001);
  }

  /** Shifting is linear: a sum of registers shifts to the sum of the shifted ones. */
  lemma ByteStepOfSum(x: bv16, y: bv16)
    ensures ByteStep(Sum(x, y)) == Sum(ByteStep(x), ByteStep(y))
  {
    hide BitStep, Sum;
    BitStepOfSum(x, y);
    var x1, y1 := BitStep(x), BitStep(y);
    BitStepOfSum(x1, y1);
    var x2, y2 := BitStep(x1), BitStep(y1);
    BitStepOfSum(x2, y2);
    var x3, y3 := BitStep(x2), BitStep(y2);
    BitStepOfSum(x3, y3);
    var x4, y4 := BitStep(x3), BitStep(y3);
    BitStepOfSum(x4, y4);
    var x5, y5 := BitStep(x4), BitStep(y4);
    BitStepOfSum(x5, y5);
    var x6, y6 := BitStep(x5), BitStep(y5);
    BitStepOfSum(x6, y6);
    BitStepOfSum(BitStep(x6), BitStep(y6));
  }

  /** The halves of the register. */
  function LowPart(x: bv16): bv16 {
    x & 0xFF
  }

  function HighPart(x: bv16): bv16 {
    x & 0xFF00
  }

  lemma Parts(x: bv16)
    ensures x == Sum(HighPart(x), LowPart(x))
  {
  }

  lemma HighShifts(y: bv16)
    requires y & 0xFF == 0
    ensures ByteStep(y) == y >> 8
  {
  }

  lemma HighPartShifts(x: bv16)
    ensures ByteStep(HighPart(x)) == x >> 8
  {
    HighShifts(HighPart(x));
  }

  lemma SplitByte(x: bv16)
    ensures ByteStep(x) == Sum(x >> 8, ByteStep(LowPart(x)))
  {
    hide ByteStep, Sum, LowPart, HighPart;
    Parts(x);
    ByteStepOfSum(HighPart(x), LowPart(x));
    HighPartShifts(x);
  }

  // ---- the table-driven loop ----

  /** The table index: the byte combined with the low half of the register. */
  function Index(c: bv16, b: bv8): bv8 {
    b ^ ((c & 0xFF) as bv8)
  }

  lemma IndexIsLow(c: bv16, b: bv8)
    ensures Low(Index(c, b)) == LowPart(Sum(c, Low(b)))
  {
  }

  lemma HighByte(c: bv16, b: bv8)
    ensures c >> 8 == Sum(c, Low(b)) >> 8
  {
  }

  /** One table look-up does the work of eight shifts. */
  lemma TableStep(c: bv16, b: bv8)
    ensures Sum(c >> 8, TableEntry(Index(c, b))) == ByteStep(Sum(c, Low(b)))
  {
    hide TableEntry, ByteStep, Index, Low, LowPart, Sum;
    IndexIsLow(c, b);
    HighByte(c, b);
    TableIsByteStep(Index(c, b));
    SplitByte(Sum(c, Low(b)));
  }

  /** The table-driven loop computes the bit-by-bit CRC of every message. */
  method ComputeCrc16(data: seq<bv8>) returns (crc: bv16)
    requires |data| < 0x10000
    ensures crc == Crc(data)
  {
    hide TableEntry, ByteStep, Index, Low;
    crc := 0xFFFF;
    var i := 0;
    while i < |data|
      invariant 0 <= i <= |data|
      invariant crc == Update(0xFFFF, data[..i])
    {
      assert data[..i + 1][..i] == data[..i];
      TableStep(crc, data[i]);
      crc := NextRegister(crc, data[i]);
      i := i + 1;
    }
    assert data[..i] == data;
  }

  /** The body of the loop. */
  function NextRegister(crc: bv16, b: bv8): bv16 {
    var temp := Index(crc, b);
    (crc >> 8) ^ TableEntry(temp)
  }

  // ---- what the CRC detects ----

  /** Undoes one shift: the polynomial's top bit tells whether it was applied. */
  function UnBit(c: bv16): bv16 {
    if c & 0x8000 != 0 then ((c ^ 0xA001) << 1) | 1 else c << 1
  }

  lemma UnBitBit(c: bv16)
    ensures UnBit(BitStep(c)) == c
  {
  }

  lemma BitStepInjective(x: bv16, y: bv16)
    requires BitStep(x) == BitStep(y)
    ensures x == y
  {
    hide UnBit, BitStep;
    UnBitBit(x);
    UnBitBit(y);
  }

  lemma ByteStepInjective(x: bv16, y: bv16)
    requires ByteStep(x) == ByteStep(y)
    ensures x == y
  {
    hide BitStep;
    var x1, y1 := BitStep(x), BitStep(y);
    var x2, y2 := BitStep(x1), BitStep(y1);
    var x3, y3 := BitStep(x2), BitStep(y2);
    var x4, y4 := BitStep(x3), BitStep(y3);
    var x5, y5 := BitStep(x4), BitStep(y4);
    var x6, y6 := BitStep(x5), BitStep(y5);
    var x7, y7 := BitStep(x6), BitStep(y6);
    BitStepInjective(x7, y7);
    BitStepInjective(x6, y6);
    BitStepInjective(x5, y5);
    BitStepInjective(x4, y4);
    BitStepInjective(x3, y3);
    BitStepInjective(x2, y2);
    BitStepInjective(x1, y1);
    BitStepInjective(x, y);
  }

  lemma SumInjective(x: bv16, y: bv16, b: bv16)
    requires Sum(x, b) == Sum(y, b)
    ensures x == y
  {
    hide Sum;
    SumCancels(x, b);
    SumCancels(y, b);
  }

  lemma {:induction false} UpdateAppend(c: bv16, p: seq<bv8>, q: seq<bv8>)
    ensures Update(c, p + q) == Update(Update(c, p), q)
    decreases |q|
  {
    hide ByteStep, Sum, Low;
    if q == [] {
      assert p + q == p;
    } else {
      var n := |q| - 1;
      assert (p + q)[..|p + q| - 1] == p + q[..n];
      UpdateAppend(c, p, q[..n]);
    }
  }

  /** Different registers stay different under the same bytes. */
  lemma {:induction false} UpdateInjective(c: bv16, d: bv16, q: seq<bv8>)
    requires Update(c, q) == Update(d, q)
    ensures c == d
    decreases |q|
  {
    hide ByteStep, Sum, Low;
    if q != [] {
      var n := |q| - 1;
      var x, y := Update(c, q[..n]), Update(d, q[..n]);
      ByteStepInjective(Sum(x, Low(q[n])), Sum(y, Low(q[n])));
      SumInjective(x, y, Low(q[n]));
      UpdateInjective(c, d, q[..n]);
    }
  }

  /** A byte in the high half of the register. */
  function High(b: bv8): bv16 {
    (b as bv16) << 8
  }

  lemma HighIsShifted(b: bv8)
    ensures High(b) & 0xFF == 0 && High(b) >> 8 == Low(b)
  {
  }

  lemma HighBecomesLow(b: bv8)
    ensures ByteStep(High(b)) == Low(b)
  {
    HighIsShifted(b);
    HighShifts(High(b));
  }

  /** Combining a byte after eight shifts is combining it with the high half before them. */
  lemma ByteWaits(x: bv16, b: bv8)
    ensures Sum(ByteStep(x), Low(b)) == ByteStep(Sum(x, High(b)))
  {
    hide ByteStep, Sum, Low, High;
    HighBecomesLow(b);
    ByteStepOfSum(x, High(b));
  }

  /** Two bytes act on the register like the 16-bit value they form, low byte first. */
  function Pair(b0: bv8, b1: bv8): bv16 {
    Sum(Low(b0), High(b1))
  }

  lemma PairLow(b0: bv8, b1: bv8)
    ensures (Pair(b0, b1) & 0xFF) as bv8 == b0
  {
  }

  lemma PairHigh(b0: bv8, b1: bv8)
    ensures (Pair(b0, b1) >> 8) as bv8 == b1
  {
  }

  lemma PairInjective(b0: bv8, b1: bv8, d0: bv8, d1: bv8)
    requires Pair(b0, b1) == Pair(d0, d1)
    ensures b0 == d0 && b1 == d1
  {
    hide Pair;
    PairLow(b0, b1);
    PairLow(d0, d1);
    PairHigh(b0, b1);
    PairHigh(d0, d1);
  }

  lemma TwoBytes(c: bv16, b0: bv8, b1: bv8)
    ensures Update(c, [b0, b1]) == ByteStep(ByteStep(Sum(c, Pair(b0, b1))))
  {
    hide ByteStep, Sum, Low, High;
    assert [b0, b1][..1] == [b0] && [b0][..0] == [];
    assert Update(c, [b0]) == ByteStep(Sum(c, Low(b0)));
    ByteWaits(Sum(c, Low(b0)), b1);
    SumAssociative(c, Low(b0), High(b1));
  }

  /** Changing anything inside two adjacent bytes changes the CRC, whatever comes before and after. */
  lemma TwoByteChangeDetected(p: seq<bv8>, b0: bv8, b1: bv8, d0: bv8, d1: bv8, q: seq<bv8>)
    requires b0 != d0 || b1 != d1
    ensures Crc(p + [b0, b1] + q) != Crc(p + [d0, d1] + q)
  {
    hide ByteStep, Pair, Sum, Update;
    var c := Update(0xFFFF, p);
    UpdateAppend(0xFFFF, p + [b0, b1], q);
    UpdateAppend(0xFFFF, p + [d0, d1], q);
    UpdateAppend(0xFFFF, p, [b0, b1]);
    UpdateAppend(0xFFFF, p, [d0, d1]);
    if Crc(p + [b0, b1] + q) == Crc(p + [d0, d1] + q) {
      UpdateInjective(Update(c, [b0, b1]), Update(c, [d0, d1]), q);
      TwoBytes(c, b0, b1);
      TwoBytes(c, d0, d1);
      var x, y := Pair(b0, b1), Pair(d0, d1);
      ByteStepInjective(ByteStep(Sum(c, x)), ByteStep(Sum(c, y)));
      ByteStepInjective(Sum(c, x), Sum(c, y));
      SumCommutes(c, x);
      SumCommutes(c, y);
      SumInjective(x, y, c);
      PairInjective(b0, b1, d0, d1);
      assert false;
    }
  }
}
