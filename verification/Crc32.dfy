/** The table-driven CRC that guards the settings file, against the bit-by-bit CRC model of
    Annex A of ISO/IEC 13818-1. */
module Crc32 {

  const CRC32_TABLE: seq<seq<bv32>> := [
    [0x00000000, 0x04C11DB7, 0x09823B6E, 0x0D4326D9, 0x130476DC, 0x17C56B6B, 0x1A864DB2, 0x1E475005],
    [0x2608EDB8, 0x22C9F00F, 0x2F8AD6D6, 0x2B4BCB61, 0x350C9B64, 0x31CD86D3, 0x3C8EA00A, 0x384FBDBD],
    [0x4C11DB70, 0x48D0C6C7, 0x4593E01E, 0x4152FDA9, 0x5F15ADAC, 0x5BD4B01B, 0x569796C2, 0x52568B75],
    [0x6A1936C8, 0x6ED82B7F, 0x639B0DA6, 0x675A1011, 0x791D4014, 0x7DDC5DA3, 0x709F7B7A, 0x745E66CD],
    [0x9823B6E0, 0x9CE2AB57, 0x91A18D8E, 0x95609039, 0x8B27C03C, 0x8FE6DD8B, 0x82A5FB52, 0x8664E6E5],
    [0xBE2B5B58, 0xBAEA46EF, 0xB7A96036, 0xB3687D81, 0xAD2F2D84, 0xA9EE3033, 0xA4AD16EA, 0xA06C0B5D],
    [0xD4326D90, 0xD0F37027, 0xDDB056FE, 0xD9714B49, 0xC7361B4C, 0xC3F706FB, 0xCEB42022, 0xCA753D95],
    [0xF23A8028, 0xF6FB9D9F, 0xFBB8BB46, 0xFF79A6F1, 0xE13EF6F4, 0xE5FFEB43, 0xE8BCCD9A, 0xEC7DD02D],
    [0x34867077, 0x30476DC0, 0x3D044B19, 0x39C556AE, 0x278206AB, 0x23431B1C, 0x2E003DC5, 0x2AC12072],
    [0x128E9DCF, 0x164F8078, 0x1B0CA6A1, 0x1FCDBB16, 0x018AEB13, 0x054BF6A4, 0x0808D07D, 0x0CC9CDCA],
    [0x7897AB07, 0x7C56B6B0, 0x71159069, 0x75D48DDE, 0x6B93DDDB, 0x6F52C06C, 0x6211E6B5, 0x66D0FB02],
    [0x5E9F46BF, 0x5A5E5B08, 0x571D7DD1, 0x53DC6066, 0x4D9B3063, 0x495A2DD4, 0x44190B0D, 0x40D816BA],
    [0xACA5C697, 0xA864DB20, 0xA527FDF9, 0xA1E6E04E, 0xBFA1B04B, 0xBB60ADFC, 0xB6238B25, 0xB2E29692],
    [0x8AAD2B2F, 0x8E6C3698, 0x832F1041, 0x87EE0DF6, 0x99A95DF3, 0x9D684044, 0x902B669D, 0x94EA7B2A],
    [0xE0B41DE7, 0xE4750050, 0xE9362689, 0xEDF73B3E, 0xF3B06B3B, 0xF771768C, 0xFA325055, 0xFEF34DE2],
    [0xC6BCF05F, 0xC27DEDE8, 0xCF3ECB31, 0xCBFFD686, 0xD5B88683, 0xD1799B34, 0xDC3ABDED, 0xD8FBA05A],
    [0x690CE0EE, 0x6DCDFD59, 0x608EDB80, 0x644FC637, 0x7A089632, 0x7EC98B85, 0x738AAD5C, 0x774BB0EB],
    [0x4F040D56, 0x4BC510E1, 0x46863638, 0x42472B8F, 0x5C007B8A, 0x58C1663D, 0x558240E4, 0x51435D53],
    [0x251D3B9E, 0x21DC2629, 0x2C9F00F0, 0x285E1D47, 0x36194D42, 0x32D850F5, 0x3F9B762C, 0x3B5A6B9B],
    [0x0315D626, 0x07D4CB91, 0x0A97ED48, 0x0E56F0FF, 0x1011A0FA, 0x14D0BD4D, 0x19939B94, 0x1D528623],
    [0xF12F560E, 0xF5EE4BB9, 0xF8AD6D60, 0xFC6C70D7, 0xE22B20D2, 0xE6EA3D65, 0xEBA91BBC, 0xEF68060B],
    [0xD727BBB6, 0xD3E6A601, 0xDEA580D8, 0xDA649D6F, 0xC423CD6A, 0xC0E2D0DD, 0xCDA1F604, 0xC960EBB3],
    [0xBD3E8D7E, 0xB9FF90C9, 0xB4BCB610, 0xB07DABA7, 0xAE3AFBA2, 0xAAFBE615, 0xA7B8C0CC, 0xA379DD7B],
    [0x9B3660C6, 0x9FF77D71, 0x92B45BA8, 0x9675461F, 0x8832161A, 0x8CF30BAD, 0x81B02D74, 0x857130C3],
    [0x5D8A9099, 0x594B8D2E, 0x5408ABF7, 0x50C9B640, 0x4E8EE645, 0x4A4FFBF2, 0x470CDD2B, 0x43CDC09C],
    [0x7B827D21, 0x7F436096, 0x7200464F, 0x76C15BF8, 0x68860BFD, 0x6C47164A, 0x61043093, 0x65C52D24],
    [0x119B4BE9, 0x155A565E, 0x18197087, 0x1CD86D30, 0x029F3D35, 0x065E2082, 0x0B1D065B, 0x0FDC1BEC],
    [0x3793A651, 0x3352BBE6, 0x3E119D3F, 0x3AD08088, 0x2497D08D, 0x2056CD3A, 0x2D15EBE3, 0x29D4F654],
    [0xC5A92679, 0xC1683BCE, 0xCC2B1D17, 0xC8EA00A0, 0xD6AD50A5, 0xD26C4D12, 0xDF2F6BCB, 0xDBEE767C],
    [0xE3A1CBC1, 0xE760D676, 0xEA23F0AF, 0xEEE2ED18, 0xF0A5BD1D, 0xF464A0AA, 0xF9278673, 0xFDE69BC4],
    [0x89B8FD09, 0x8D79E0BE, 0x803AC667, 0x84FBDBD0, 0x9ABC8BD5, 0x9E7D9662, 0x933EB0BB, 0x97FFAD0C],
    [0xAFB010B1, 0xAB710D06, 0xA6322BDF, 0xA2F33668, 0xBCB4666D, 0xB8757BDA, 0xB5365D03, 0xB1F740B4]
  ]

  lemma TableShape()
    ensures |CRC32_TABLE| == 32 && forall i :: 0 <= i < 32 ==> |CRC32_TABLE[i]| == 8
  {
  }

  /** Entry n of the table, eight to a row. */
  function TableEntry(n: bv8): bv32 {
    TableShape();
    CRC32_TABLE[n as int / 8][n as int % 8]
  }

  /** One shift of the register: left by one, with the polynomial if a one falls out. */
  function BitStep(c: bv32): bv32 {
    if c & 0x80000000 != 0 then (c << 1) ^ 0x04C11DB7 else c << 1
  }

  /** Eight shifts: what one byte, already combined with the top of the register, does to it. */
  function ByteStep(c: bv32): bv32 {
    BitStep(BitStep(BitStep(BitStep(BitStep(BitStep(BitStep(BitStep(c))))))))
  }

  /** A byte at the top of the register. */
  function Top(b: bv8): bv32 {
    (b as bv32) << 24
  }

  /** The register after a message, bit by bit. */
  function Update(c: bv32, msg: seq<bv8>): bv32 {
    if msg == [] then c else ByteStep(Sum(Update(c, msg[..|msg| - 1]), Top(msg[|msg| - 1])))
  }

  function Crc(msg: seq<bv8>): bv32 {
    Update(0xFFFFFFFF, msg)
  }

  // ---- the table ----

  lemma Entry0(n: bv8)
    requires 0 <= n <= 15
    ensures TableEntry(n) == ByteStep(Top(n))
  {
    if {
      case n == 0 => case n == 1 => case n == 2 => case n == 3 =>
      case n == 4 => case n == 5 => case n == 6 => case n == 7 =>
      case n == 8 => case n == 9 => case n == 10 => case n == 11 =>
      case n == 12 => case n == 13 => case n == 14 => case n == 15 =>
    }
  }

  lemma Entry16(n: bv8)
    requires 16 <= n <= 31
    ensures TableEntry(n) == ByteStep(Top(n))
  {
    if {
      case n == 16 => case n == 17 => case n == 18 => case n == 19 =>
      case n == 20 => case n == 21 => case n == 22 => case n == 23 =>
      case n == 24 => case n == 25 => case n == 26 => case n == 27 =>
      case n == 28 => case n == 29 => case n == 30 => case n == 31 =>
    }
  }

  lemma Entry32(n: bv8)
    requires 32 <= n <= 47
    ensures TableEntry(n) == ByteStep(Top(n))
  {
    if {
      case n == 32 => case n == 33 => case n == 34 => case n == 35 =>
      case n == 36 => case n == 37 => case n == 38 => case n == 39 =>
      case n == 40 => case n == 41 => case n == 42 => case n == 43 =>
      case n == 44 => case n == 45 => case n == 46 => case n == 47 =>
    }
  }

  lemma Entry48(n: bv8)
    requires 48 <= n <= 63
    ensures TableEntry(n) == ByteStep(Top(n))
  {
    if {
      case n == 48 => case n == 49 => case n == 50 => case n == 51 =>
      case n == 52 => case n == 53 => case n == 54 => case n == 55 =>
      case n == 56 => case n == 57 => case n == 58 => case n == 59 =>
      case n == 60 => case n == 61 => case n == 62 => case n == 63 =>
    }
  }

  lemma Entry64(n: bv8)
    requires 64 <= n <= 79
    ensures TableEntry(n) == ByteStep(Top(n))
  {
    if {
      case n == 64 => case n == 65 => case n == 66 => case n == 67 =>
      case n == 68 => case n == 69 => case n == 70 => case n == 71 =>
      case n == 72 => case n == 73 => case n == 74 => case n == 75 =>
      case n == 76 => case n == 77 => case n == 78 => case n == 79 =>
    }
  }

  lemma Entry80(n: bv8)
    requires 80 <= n <= 95
    ensures TableEntry(n) == ByteStep(Top(n))
  {
    if {
      case n == 80 => case n == 81 => case n == 82 => case n == 83 =>
      case n == 84 => case n == 85 => case n == 86 => case n == 87 =>
      case n == 88 => case n == 89 => case n == 90 => case n == 91 =>
      case n == 92 => case n == 93 => case n == 94 => case n == 95 =>
    }
  }

  lemma Entry96(n: bv8)
    requires 96 <= n <= 111
    ensures TableEntry(n) == ByteStep(Top(n))
  {
    if {
      case n == 96 => case n == 97 => case n == 98 => case n == 99 =>
      case n == 100 => case n == 101 => case n == 102 => case n == 103 =>
      case n == 104 => case n == 105 => case n == 106 => case n == 107 =>
      case n == 108 => case n == 109 => case n == 110 => case n == 111 =>
    }
  }

  lemma Entry112(n: bv8)
    requires 112 <= n <= 127
    ensures TableEntry(n) == ByteStep(Top(n))
  {
    if {
      case n == 112 => case n == 113 => case n == 114 => case n == 115 =>
      case n == 116 => case n == 117 => case n == 118 => case n == 119 =>
      case n == 120 => case n == 121 => case n == 122 => case n == 123 =>
      case n == 124 => case n == 125 => case n == 126 => case n == 127 =>
    }
  }

  lemma Entry128(n: bv8)
    requires 128 <= n <= 143
    ensures TableEntry(n) == ByteStep(Top(n))
  {
    if {
      case n == 128 => case n == 129 => case n == 130 => case n == 131 =>
      case n == 132 => case n == 133 => case n == 134 => case n == 135 =>
      case n == 136 => case n == 137 => case n == 138 => case n == 139 =>
      case n == 140 => case n == 141 => case n == 142 => case n == 143 =>
    }
  }

  lemma Entry144(n: bv8)
    requires 144 <= n <= 159
    ensures TableEntry(n) == ByteStep(Top(n))
  {
    if {
      case n == 144 => case n == 145 => case n == 146 => case n == 147 =>
      case n == 148 => case n == 149 => case n == 150 => case n == 151 =>
      case n == 152 => case n == 153 => case n == 154 => case n == 155 =>
      case n == 156 => case n == 157 => case n == 158 => case n == 159 =>
    }
  }

  lemma Entry160(n: bv8)
    requires 160 <= n <= 175
    ensures TableEntry(n) == ByteStep(Top(n))
  {
    if {
      case n == 160 => case n == 161 => case n == 162 => case n == 163 =>
      case n == 164 => case n == 165 => case n == 166 => case n == 167 =>
      case n == 168 => case n == 169 => case n == 170 => case n == 171 =>
      case n == 172 => case n == 173 => case n == 174 => case n == 175 =>
    }
  }

  lemma Entry176(n: bv8)
    requires 176 <= n <= 191
    ensures TableEntry(n) == ByteStep(Top(n))
  {
    if {
      case n == 176 => case n == 177 => case n == 178 => case n == 179 =>
      case n == 180 => case n == 181 => case n == 182 => case n == 183 =>
      case n == 184 => case n == 185 => case n == 186 => case n == 187 =>
      case n == 188 => case n == 189 => case n == 190 => case n == 191 =>
    }
  }

  lemma Entry192(n: bv8)
    requires 192 <= n <= 207
    ensures TableEntry(n) == ByteStep(Top(n))
  {
    if {
      case n == 192 => case n == 193 => case n == 194 => case n == 195 =>
      case n == 196 => case n == 197 => case n == 198 => case n == 199 =>
      case n == 200 => case n == 201 => case n == 202 => case n == 203 =>
      case n == 204 => case n == 205 => case n == 206 => case n == 207 =>
    }
  }

  lemma Entry208(n: bv8)
    requires 208 <= n <= 223
    ensures TableEntry(n) == ByteStep(Top(n))
  {
    if {
      case n == 208 => case n == 209 => case n == 210 => case n == 211 =>
      case n == 212 => case n == 213 => case n == 214 => case n == 215 =>
      case n == 216 => case n == 217 => case n == 218 => case n == 219 =>
      case n == 220 => case n == 221 => case n == 222 => case n == 223 =>
    }
  }

  lemma Entry224(n: bv8)
    requires 224 <= n <= 239
    ensures TableEntry(n) == ByteStep(Top(n))
  {
    if {
      case n == 224 => case n == 225 => case n == 226 => case n == 227 =>
      case n == 228 => case n == 229 => case n == 230 => case n == 231 =>
      case n == 232 => case n == 233 => case n == 234 => case n == 235 =>
      case n == 236 => case n == 237 => case n == 238 => case n == 239 =>
    }
  }

  lemma Entry240(n: bv8)
    requires 240 <= n <= 255
    ensures TableEntry(n) == ByteStep(Top(n))
  {
    if {
      case n == 240 => case n == 241 => case n == 242 => case n == 243 =>
      case n == 244 => case n == 245 => case n == 246 => case n == 247 =>
      case n == 248 => case n == 249 => case n == 250 => case n == 251 =>
      case n == 252 => case n == 253 => case n == 254 => case n == 255 =>
    }
  }

  /** Every table entry is eight shifts of its index at the top of the register. */
  lemma TableIsByteStep(n: bv8)
    ensures TableEntry(n) == ByteStep(Top(n))
  {
    hide TableEntry, ByteStep, Top;
    if n <= 15 { Entry0(n); } else if n <= 31 { Entry16(n); } else
    if n <= 47 { Entry32(n); } else if n <= 63 { Entry48(n); } else
    if n <= 79 { Entry64(n); } else if n <= 95 { Entry80(n); } else
    if n <= 111 { Entry96(n); } else if n <= 127 { Entry112(n); } else
    if n <= 143 { Entry128(n); } else if n <= 159 { Entry144(n); } else
    if n <= 175 { Entry160(n); } else if n <= 191 { Entry176(n); } else
    if n <= 207 { Entry192(n); } else if n <= 223 { Entry208(n); } else
    if n <= 239 { Entry224(n); } else { Entry240(n); }
  }

  /** Registers are added without carry. Proofs about sums hide this definition: as an
      uninterpreted operation it is cheap to reason about. */
  function Sum(x: bv32, y: bv32): bv32 {
    x ^ y
  }

  function Shift(c: bv32): bv32 {
    c << 1
  }

  /** The bit that is shifted out and decides whether the polynomial is added. */
  predicate Outgoing(c: bv32) {
    c & 0x80000000 != 0
  }

  lemma ShiftOfSum(x: bv32, y: bv32)
    ensures Shift(Sum(x, y)) == Sum(Shift(x), Shift(y))
  {
  }

  lemma OutgoingOfSum(x: bv32, y: bv32)
    ensures Outgoing(Sum(x, y)) <==> Outgoing(x) != Outgoing(y)
  {
  }

  lemma StepCases(c: bv32)
    ensures BitStep(c) == if Outgoing(c) then Sum(Shift(c), 0x04C11DB7) else Shift(c)
  {
  }

  lemma SumAssociative(a: bv32, b: bv32, p: bv32)
    ensures Sum(Sum(a, b), p) == Sum(a, Sum(b, p))
  {
  }

  lemma SumCommutes(a: bv32, b: bv32)
    ensures Sum(a, b) == Sum(b, a)
  {
  }

  lemma SumCancels(a: bv32, p: bv32)
    ensures Sum(Sum(a, p), p) == a
  {
  }

  lemma OneAdded(a: bv32, b: bv32, p: bv32)
    ensures Sum(Sum(a, b), p) == Sum(Sum(a, p), b)
  {
    hide Sum;
    SumAssociative(a, b, p);
    SumCommutes(b, p);
    SumAssociative(a, p, b);
  }

  lemma BothAdded(a: bv32, b: bv32, p: bv32)
    ensures Sum(a, b) == Sum(Sum(a, p), Sum(b, p))
  {
    hide Sum;
    SumAssociative(Sum(a, p), b, p);
    OneAdded(a, p, b);
    SumCancels(Sum(a, b), p);
  }

  lemma BitStepOfSum(x: bv32, y: bv32)
    ensures BitStep(Sum(x, y)) == Sum(BitStep(x), BitStep(y))
  {
    hide BitStep, Outgoing, Sum, Shift;
    var a, b := Shift(x), Shift(y);
    ShiftOfSum(x, y);
    OutgoingOfSum(x, y);
    StepCases(x);
    StepCases(y);
    StepCases(Sum(x, y));
    BothAdded(a, b, 0x04C11DB7);
    OneAdded(a, b, 0x04C11DB7);
    SumAssociative(a, b, 0x04C11DB7);
  }

  /** Shifting is linear: a sum of registers shifts to the sum of the shifted ones. */
  lemma ByteStepOfSum(x: bv32, y: bv32)
    ensures ByteStep(Sum(x, y)) == Sum(ByteStep(x), ByteStep(y))
  {
    hide BitStep, Sum;
    BitStepOfSum(x, y);
    var x1, y1 := BitStep(x), BitStep(y);
    BitStepOfSum(x1, y1);
    var x2, y2 := BitStep(x1), BitStep(y1);
    BitStepOfSum(x2, y2);
    var x3, y3 := BitStep(x2), BitStep(y2);
    BitStepOfSum(x3, y3);
    var x4, y4 := BitStep(x3), BitStep(y3);
    BitStepOfSum(x4, y4);
    var x5, y5 := BitStep(x4), BitStep(y4);
    BitStepOfSum(x5, y5);
    var x6, y6 := BitStep(x5), BitStep(y5);
    BitStepOfSum(x6, y6);
    BitStepOfSum(BitStep(x6), BitStep(y6));
  }

  lemma LowShifts(y: bv32)
    requires y <= 0xFFFFFF
    ensures ByteStep(y) == y << 8
  {
  }

  /** The register without its top byte, and its top byte. */
  function LowPart(x: bv32): bv32 {
    x & 0xFFFFFF
  }

  function TopPart(x: bv32): bv32 {
    x & 0xFF000000
  }

  lemma Parts(x: bv32)
    ensures x == Sum(LowPart(x), TopPart(x))
  {
  }

  lemma LowPartShifts(x: bv32)
    ensures ByteStep(LowPart(x)) == x << 8
  {
    LowShifts(LowPart(x));
  }

  lemma SplitTop(x: bv32)
    ensures ByteStep(x) == Sum(x << 8, ByteStep(TopPart(x)))
  {
    hide ByteStep, Sum, LowPart, TopPart;
    Parts(x);
    ByteStepOfSum(LowPart(x), TopPart(x));
    LowPartShifts(x);
  }

  /** The table index: the byte combined with the top of the register. */
  function Index(c: bv32, b: bv8): bv8 {
    ((c >> 24) as bv8) ^ b
  }

  lemma IndexIsTop(c: bv32, b: bv8)
    ensures Top(Index(c, b)) == TopPart(Sum(c, Top(b)))
  {
  }

  lemma LowBytes(c: bv32, b: bv8)
    ensures c << 8 == Sum(c, Top(b)) << 8
  {
  }

  /** One table look-up does the work of eight shifts. */
  lemma TableStep(c: bv32, b: bv8)
    ensures Sum(c << 8, TableEntry(Index(c, b))) == ByteStep(Sum(c, Top(b)))
  {
    hide TableEntry, ByteStep, Index, Top, TopPart, Sum;
    IndexIsTop(c, b);
    LowBytes(c, b);
    TableIsByteStep(Index(c, b));
    SplitTop(Sum(c, Top(b)));
  }

  /** The loop both overloads share: continues a register over more bytes. */
  method Continue(start: bv32, data: seq<bv8>) returns (crc: bv32)
    ensures crc == Update(start, data)
  {
    hide TableEntry, ByteStep, Index, Top;
    crc := start;
    var i := 0;
    while i < |data|
      invariant 0 <= i <= |data|
      invariant crc == Update(start, data[..i])
    {
      assert data[..i + 1][..i] == data[..i];
      TableStep(crc, data[i]);
      crc := NextRegister(crc, data[i]);
      i := i + 1;
    }
    assert data[..i] == data;
  }

  /** The body of the loop. */
  function NextRegister(crc: bv32, b: bv8): bv32 {
    var top := Index(crc, b);
    (crc << 8) ^ TableEntry(top)
  }

  /** The one-shot overload. */
  method CalcCrc32(data: seq<bv8>) returns (crc: bv32)
    ensures crc == Crc(data)
  {
    crc := Continue(0xFFFFFFFF, data);
  }

  /** What a stored register means: zero stands for the start of a message. */
  function Resume(crcIn: bv32): bv32 {
    if crcIn != 0 then crcIn else 0xFFFFFFFF
  }

  /** The overload that carries the register from chunk to chunk. */
  method CalcCrc32From(crcIn: bv32, data: seq<bv8>) returns (crc: bv32)
    ensures crc == Update(Resume(crcIn), data)
  {
    crc := 0xFFFFFFFF;
    if crcIn != 0 {
      crc := crcIn;
    }
    crc := Continue(crc, data);
  }

  // ---- what the CRC detects ----

  /** Undoes one shift: the polynomial's low bit tells whether it was applied. */
  function UnBit(c: bv32): bv32 {
    if c & 1 == 1 then ((c ^ 0x04C11DB7) >> 1) | 0x80000000 else c >> 1
  }

  lemma UnBitAdded(c: bv32)
    requires c & 0x80000000 != 0
    ensures UnBit((c << 1) ^ 0x04C11DB7) == c
  {
  }

  lemma UnBitPlain(c: bv32)
    requires c & 0x80000000 == 0
    ensures UnBit(c << 1) == c
  {
  }

  lemma UnBitBit(c: bv32)
    ensures UnBit(BitStep(c)) == c
  {
    hide UnBit;
    if c & 0x80000000 != 0 { UnBitAdded(c); } else { UnBitPlain(c); }
  }

  lemma BitStepInjective(x: bv32, y: bv32)
    requires BitStep(x) == BitStep(y)
    ensures x == y
  {
    hide UnBit, BitStep;
    UnBitBit(x);
    UnBitBit(y);
  }

  lemma ByteStepInjective(x: bv32, y: bv32)
    requires ByteStep(x) == ByteStep(y)
    ensures x == y
  {
    hide BitStep;
    var x1, y1 := BitStep(x), BitStep(y);
    var x2, y2 := BitStep(x1), BitStep(y1);
    var x3, y3 := BitStep(x2), BitStep(y2);
    var x4, y4 := BitStep(x3), BitStep(y3);
    var x5, y5 := BitStep(x4), BitStep(y4);
    var x6, y6 := BitStep(x5), BitStep(y5);
    var x7, y7 := BitStep(x6), BitStep(y6);
    BitStepInjective(x7, y7);
    BitStepInjective(x6, y6);
    BitStepInjective(x5, y5);
    BitStepInjective(x4, y4);
    BitStepInjective(x3, y3);
    BitStepInjective(x2, y2);
    BitStepInjective(x1, y1);
    BitStepInjective(x, y);
  }

  lemma SumInjective(x: bv32, y: bv32, b: bv32)
    requires Sum(x, b) == Sum(y, b)
    ensures x == y
  {
    hide Sum;
    SumCancels(x, b);
    SumCancels(y, b);
  }

  lemma {:induction false} UpdateAppend(c: bv32, p: seq<bv8>, q: seq<bv8>)
    ensures Update(c, p + q) == Update(Update(c, p), q)
    decreases |q|
  {
    hide ByteStep, Sum, Top;
    if q == [] {
      assert p + q == p;
    } else {
      var n := |q| - 1;
      assert (p + q)[..|p + q| - 1] == p + q[..n];
      UpdateAppend(c, p, q[..n]);
    }
  }

  /** Different registers stay different under the same bytes. */
  lemma {:induction false} UpdateInjective(c: bv32, d: bv32, q: seq<bv8>)
    requires Update(c, q) == Update(d, q)
    ensures c == d
    decreases |q|
  {
    hide ByteStep, Sum, Top;
    if q != [] {
      var n := |q| - 1;
      var x, y := Update(c, q[..n]), Update(d, q[..n]);
      ByteStepInjective(Sum(x, Top(q[n])), Sum(y, Top(q[n])));
      SumInjective(x, y, Top(q[n]));
      UpdateInjective(c, d, q[..n]);
    }
  }

  /** A byte in the second, third and fourth place of the register. */
  function Second(b: bv8): bv32 {
    (b as bv32) << 16
  }

  function Third(b: bv8): bv32 {
    (b as bv32) << 8
  }

  function Fourth(b: bv8): bv32 {
    b as bv32
  }

  lemma SecondRises(b: bv8)
    ensures ByteStep(Second(b)) == Top(b)
  {
    assert Second(b) <= 0xFFFFFF && Second(b) << 8 == Top(b);
    hide Second, Top;
    LowShifts(Second(b));
  }

  lemma ThirdRises(b: bv8)
    ensures ByteStep(Third(b)) == Second(b)
  {
    assert Third(b) <= 0xFFFFFF && Third(b) << 8 == Second(b);
    hide Second, Third;
    LowShifts(Third(b));
  }

  lemma FourthRises(b: bv8)
    ensures ByteStep(Fourth(b)) == Third(b)
  {
    assert Fourth(b) <= 0xFFFFFF && Fourth(b) << 8 == Third(b);
    hide Third, Fourth;
    LowShifts(Fourth(b));
  }

  /** Four bytes act on the register like the word they form. */
  function Word(b0: bv8, b1: bv8, b2: bv8, b3: bv8): bv32 {
    Sum(Sum(Sum(Top(b0), Second(b1)), Third(b2)), Fourth(b3))
  }

  /** Adding after a step is adding the lower byte before it. */
  lemma Waits(x: bv32, low: bv32, high: bv32)
    requires ByteStep(low) == high
    ensures Sum(ByteStep(x), high) == ByteStep(Sum(x, low))
  {
    hide ByteStep, Sum;
    ByteStepOfSum(x, low);
  }

  lemma FourBytes(c: bv32, b0: bv8, b1: bv8, b2: bv8, b3: bv8)
    ensures Update(c, [b0, b1, b2, b3])
            == ByteStep(ByteStep(ByteStep(ByteStep(Sum(c, Word(b0, b1, b2, b3))))))
  {
    hide ByteStep, Sum, Top, Second, Third, Fourth;
    var x1 := Sum(c, Top(b0));
    assert [] + [b0] == [b0] && [b0] + [b1] == [b0, b1];
    assert [b0, b1] + [b2] == [b0, b1, b2] && [b0, b1, b2] + [b3] == [b0, b1, b2, b3];
    UpdateOne(c, [], b0);
    UpdateOne(c, [b0], b1);
    UpdateOne(c, [b0, b1], b2);
    UpdateOne(c, [b0, b1, b2], b3);
    SecondRises(b1);
    ThirdRises(b2);
    SecondRises(b2);
    FourthRises(b3);
    ThirdRises(b3);
    SecondRises(b3);
    var x2 := Sum(x1, Second(b1));
    Waits(x1, Second(b1), Top(b1));
    Waits(ByteStep(x2), Second(b2), Top(b2));
    Waits(x2, Third(b2), Second(b2));
    var x3 := Sum(x2, Third(b2));
    Waits(ByteStep(ByteStep(x3)), Second(b3), Top(b3));
    Waits(ByteStep(x3), Third(b3), Second(b3));
    Waits(x3, Fourth(b3), Third(b3));
    SumAssociative(c, Top(b0), Second(b1));
    SumAssociative(c, Sum(Top(b0), Second(b1)), Third(b2));
    SumAssociative(c, Sum(Sum(Top(b0), Second(b1)), Third(b2)), Fourth(b3));
  }

  lemma UpdateOne(c: bv32, p: seq<bv8>, b: bv8)
    ensures Update(c, p + [b]) == ByteStep(Sum(Update(c, p), Top(b)))
  {
    hide ByteStep, Sum, Top;
    assert (p + [b])[..|p|] == p;
  }

  lemma WordTop(b0: bv8, b1: bv8, b2: bv8, b3: bv8)
    ensures (Word(b0, b1, b2, b3) >> 24) as bv8 == b0
  {
  }

  lemma WordSecond(b0: bv8, b1: bv8, b2: bv8, b3: bv8)
    ensures ((Word(b0, b1, b2, b3) >> 16) & 0xFF) as bv8 == b1
  {
  }

  lemma WordThird(b0: bv8, b1: bv8, b2: bv8, b3: bv8)
    ensures ((Word(b0, b1, b2, b3) >> 8) & 0xFF) as bv8 == b2
  {
  }

  lemma WordFourth(b0: bv8, b1: bv8, b2: bv8, b3: bv8)
    ensures (Word(b0, b1, b2, b3) & 0xFF) as bv8 == b3
  {
  }

  lemma WordInjective(w: seq<bv8>, v: seq<bv8>)
    requires |w| == 4 == |v| && Word(w[0], w[1], w[2], w[3]) == Word(v[0], v[1], v[2], v[3])
    ensures w == v
  {
    hide Word;
    WordTop(w[0], w[1], w[2], w[3]);
    WordTop(v[0], v[1], v[2], v[3]);
    WordSecond(w[0], w[1], w[2], w[3]);
    WordSecond(v[0], v[1], v[2], v[3]);
    WordThird(w[0], w[1], w[2], w[3]);
    WordThird(v[0], v[1], v[2], v[3]);
    WordFourth(w[0], w[1], w[2], w[3]);
    WordFourth(v[0], v[1], v[2], v[3]);
  }

  /** From one register, different four-byte words lead to different registers. */
  lemma FourBytesInjective(c: bv32, w: seq<bv8>, v: seq<bv8>)
    requires |w| == 4 == |v| && Update(c, w) == Update(c, v)
    ensures w == v
  {
    hide ByteStep, Sum, Word, Update;
    assert w == [w[0], w[1], w[2], w[3]] && v == [v[0], v[1], v[2], v[3]];
    FourBytes(c, w[0], w[1], w[2], w[3]);
    FourBytes(c, v[0], v[1], v[2], v[3]);
    var x, y := Word(w[0], w[1], w[2], w[3]), Word(v[0], v[1], v[2], v[3]);
    var p, q := Sum(c, x), Sum(c, y);
    ByteStepInjective(ByteStep(ByteStep(ByteStep(p))), ByteStep(ByteStep(ByteStep(q))));
    ByteStepInjective(ByteStep(ByteStep(p)), ByteStep(ByteStep(q)));
    ByteStepInjective(ByteStep(p), ByteStep(q));
    ByteStepInjective(p, q);
    SumCommutes(c, x);
    SumCommutes(c, y);
    SumInjective(x, y, c);
    WordInjective(w, v);
  }

  /** The same for up to four bytes: pad both words alike. */
  lemma ShortInjective(c: bv32, w: seq<bv8>, v: seq<bv8>)
    requires |w| == |v| <= 4 && Update(c, w) == Update(c, v)
    ensures w == v
  {
    hide ByteStep, Sum, Update;
    var pad := seq(4 - |w|, _ => 0 as bv8);
    UpdateAppend(c, w, pad);
    UpdateAppend(c, v, pad);
    FourBytesInjective(c, w + pad, v + pad);
    assert w == (w + pad)[..|w|] && v == (v + pad)[..|v|];
  }

  /** Changing anything inside four adjacent bytes changes the CRC, whatever comes before and after. */
  lemma WindowChangeDetected(p: seq<bv8>, w: seq<bv8>, v: seq<bv8>, q: seq<bv8>)
    requires |w| == |v| <= 4 && w != v
    ensures Crc(p + w + q) != Crc(p + v + q)
  {
    hide ByteStep, Sum, Update;
    var c := Update(0xFFFFFFFF, p);
    UpdateAppend(0xFFFFFFFF, p + w, q);
    UpdateAppend(0xFFFFFFFF, p + v, q);
    UpdateAppend(0xFFFFFFFF, p, w);
    UpdateAppend(0xFFFFFFFF, p, v);
    if Crc(p + w + q) == Crc(p + v + q) {
      UpdateInjective(Update(c, w), Update(c, v), q);
      ShortInjective(c, w, v);
      assert false;
    }
  }
}
