/** Any text as settings file, not only a printed one: what numbers, values and lines mean. */
module SettingsLines {
  import opened SettingsText

  // ---- numbers ----

  predicate Spaces(s: string) {
    forall c :: c in s ==> c == ' ' || c == '\t' || c == '\n' || c == '\r' || c as int == 11 || c as int == 12
  }

  predicate NoDigitFirst(s: string) {
    s == "" || s[0] < '0' || s[0] > '9'
  }

  function Zeros(n: nat): string {
    if n == 0 then "" else "0" + Zeros(n - 1)
  }

  /** A number cut to the range of a signed 32-bit word. */
  function Saturated(x: int): int {
    if x > 2147483647 then 2147483647 else if x < -2147483648 then -2147483648 else x
  }

  lemma {:induction false} SkipsSpaces(sp: string, rest: string)
    requires Spaces(sp) && (rest == "" || !IsSpace(rest[0]))
    ensures SkipSpaces(sp + rest) == rest
  {
    if sp == "" {
      assert sp + rest == rest;
    } else {
      assert sp[0] in sp;
      assert (sp + rest)[1..] == sp[1..] + rest;
      assert forall c :: c in sp[1..] ==> c in sp;
      SkipsSpaces(sp[1..], rest);
    }
  }

  lemma {:induction false} LeadingThenJunk(digits: string, junk: string)
    requires (forall c :: c in digits ==> IsDigit(c)) && NoDigitFirst(junk)
    ensures LeadingDigits(digits + junk) == |digits|
  {
    if digits == "" {
      assert digits + junk == junk;
    } else {
      assert digits[0] in digits;
      assert (digits + junk)[1..] == digits[1..] + junk;
      LeadingThenJunk(digits[1..], junk);
    }
  }

  lemma {:induction false} ZerosAreDigits(z: nat)
    ensures forall c :: c in Zeros(z) ==> c == '0'
  {
    if z > 0 { ZerosAreDigits(z - 1); }
  }

  lemma {:induction false} ZerosValue(z: nat)
    requires forall c :: c in Zeros(z) ==> IsDigit(c)
    ensures ValueOf(Zeros(z)) == 0
  {
    if z > 0 {
      var s := Zeros(z);
      ZerosAreDigits(z);
      ZerosAreDigits(z - 1);
      ZerosValue(z - 1);
      ZerosEnd(z);
      assert s[..|s| - 1] == Zeros(z - 1);
    }
  }

  lemma {:induction false} ZerosEnd(z: nat)
    requires z > 0
    ensures Zeros(z) == Zeros(z - 1) + "0" && |Zeros(z)| == z
  {
    if z > 1 { ZerosEnd(z - 1); }
  }

  /** Leading zeros do not count. */
  lemma {:induction false} LeadingZeros(z: nat, digits: string)
    requires forall c :: c in digits ==> IsDigit(c)
    ensures forall c :: c in Zeros(z) + digits ==> IsDigit(c)
    ensures ValueOf(Zeros(z) + digits) == ValueOf(digits)
    decreases |digits|
  {
    ZerosAreDigits(z);
    var s := Zeros(z) + digits;
    if digits == "" {
      assert s == Zeros(z);
      ZerosValue(z);
    } else {
      var init := digits[..|digits| - 1];
      assert s[..|s| - 1] == Zeros(z) + init;
      assert forall c :: c in init ==> c in digits;
      LeadingZeros(z, init);
    }
  }

  /** A number is read behind any spaces, with or without a sign and leading zeros, up to the first
      character that is no digit, and saturates. */
  lemma NumberMeans(sp: string, sign: string, z: nat, n: nat, junk: string)
    requires Spaces(sp) && sign in {"", "+", "-"} && NoDigitFirst(junk)
    ensures ToInt(sp + (sign + (Zeros(z) + Decimal(n) + junk))) == Saturated(if sign == "-" then 0 - n else n)
  {
    hide Decimal, Zeros;
    var digits := Zeros(z) + Decimal(n);
    LeadingZeros(z, Decimal(n));
    DecimalReads(n);
    assert digits[0] in digits;
    var d := digits + junk;
    LeadingThenJunk(digits, junk);
    assert d[..|digits|] == digits;
    var t := sign + d;
    assert !IsSpace(t[0]);
    SkipsSpaces(sp, t);
    if sign == "" {
      assert t == d;
    } else {
      assert t[1..] == d;
    }
  }

  /** Without a digit behind the spaces and the sign the number is zero. */
  lemma NoNumberMeans(sp: string, sign: string, junk: string)
    requires Spaces(sp) && sign in {"", "+", "-"} && NoDigitFirst(junk)
    requires sign == "" ==> junk == "" || (junk[0] != '+' && junk[0] != '-' && !IsSpace(junk[0]))
    ensures ToInt(sp + (sign + junk)) == 0
  {
    LeadingThenJunk("", junk);
    assert "" + junk == junk;
    var t := sign + junk;
    SkipsSpaces(sp, t);
    if sign == "" {
      assert t == junk;
    } else {
      assert t[1..] == junk;
    }
  }

  /** Numbers are printed with a minus sign if negative, digits only, and no leading zero. */
  lemma ShownMeans(v: int)
    ensures var s := ShowInt(v); var d := if v < 0 then s[1..] else s;
      (v < 0 ==> s[0] == '-') && d != "" && (forall c :: c in d ==> '0' <= c <= '9') &&
      (d[0] == '0' <==> v == 0) && (v == 0 ==> d == "0")
  {
    NoLeadingZero(if v < 0 then 0 - v else v);
  }

  lemma {:induction false} NoLeadingZero(n: nat)
    ensures n > 0 ==> Decimal(n)[0] != '0'
  {
    if n >= 10 { NoLeadingZero(n / 10); }
  }

  // ---- values ----

  /** One entry is new or changed, all others are as before. */
  ghost predicate Stored<V>(m: map<nat, V>, w: map<nat, V>, name: nat, val: V) {
    name in w && w[name] == val && w.Keys == m.Keys + {name} && forall k :: k in m && k != name ==> w[k] == m[k]
  }

  /** The number of a signed word of the given size with the same remainder as x. */
  ghost predicate SameInWord(x: int, y: int, size: int) {
    -size <= 2 * y < size && exists k: int :: y == x + k * size
  }

  lemma NarrowMeans(x: int, size: nat)
    requires size > 0 && size % 2 == 0
    ensures SameInWord(x, Narrow(x, size), size)
  {
    var y := Narrow(x, size);
    var q := x / size;
    assert x == q * size + x % size;
    if y == x % size {
      assert y == x + (-q) * size;
    } else {
      assert y == x + (-q - 1) * size;
    }
  }

  /** The longest part of a text before a NUL. */
  ghost predicate UpToNul(s: string, t: string) {
    t <= s && '\0' !in t && (t == s || s[|t|] == '\0')
  }

  lemma {:induction false} CStringMeans(s: string)
    ensures UpToNul(s, CString(s))
  {
    if s != "" && s[0] != '\0' {
      CStringMeans(s[1..]);
      assert s == [s[0]] + s[1..];
    }
  }

  /** Storing a text under a key: the number it starts with, cut to the width of its type, or whether
      that is not zero, or the text itself, in one map, and nothing else changes. */
  lemma PutMeans(ft: FloatText, v: Values, name: nat, value: string, dt: DataType)
    ensures var w := Put(ft, v, name, value, dt); var x := ToInt(value);
      (dt.U8? || dt.I8? ==>
         w == v.(i8 := w.i8) && name in w.i8 &&
         Stored(v.i8, w.i8, name, w.i8[name]) && SameInWord(x, w.i8[name], 256)) &&
      (dt.U16? || dt.I16? ==>
         w == v.(i16 := w.i16) && name in w.i16 &&
         Stored(v.i16, w.i16, name, w.i16[name]) && SameInWord(x, w.i16[name], 65536)) &&
      (dt.U32? || dt.I32? ==> w == v.(i32 := w.i32) && Stored(v.i32, w.i32, name, x)) &&
      (dt.BO? ==> w == v.(bo := w.bo) && Stored(v.bo, w.bo, name, x != 0)) &&
      (dt.FL? ==> w == v.(fl := w.fl) && Stored(v.fl, w.fl, name, ft.parse(value))) &&
      (dt.ST? ==>
         w == v.(st := w.st) && name in w.st &&
         Stored(v.st, w.st, name, w.st[name]) && UpToNul(value, w.st[name]))
  {
    hide ToInt, Narrow, CString;
    NarrowMeans(ToInt(value), 256);
    NarrowMeans(ToInt(value), 65536);
    CStringMeans(value);
  }

  // ---- lines ----

  /** A line is split at its first equals sign and three characters behind it. */
  lemma LineMeans(ft: FloatText, v: Values, key: string, dt: DataType, value: string)
    requires '=' !in key && |key| < 256
    ensures ReadLine(ft, v, key + "=" + Tag(dt) + value)
         == Put(ft, v, ToInt(key) % 65536, Replace(CString(value), '~', '\n'), dt)
  {
    hide Put, ToInt, Replace, CString, Substring, IndexOf;
    var line := key + "=" + Tag(dt) + value;
    KeySplit(key, Tag(dt) + value);
    assert key + "=" + Tag(dt) + value == key + "=" + (Tag(dt) + value);
    ThreeParts(key, Tag(dt), value);
    CStringKeeps(Tag(dt));
  }

  lemma KeySplit(key: string, rest: string)
    requires '=' !in key
    ensures IndexOf(key + "=" + rest, '=') == |key|
  {
    var line := key + "=" + rest;
    assert line[..|key|] == key;
    IndexAt(line, '=', |key|);
  }

  lemma CStringKeeps(s: string)
    requires '\0' !in s
    ensures CString(s) == s
  {
  }

  /** The nine types as they stand in a file. */
  lemma TagsMean(r: Record)
    ensures Content(r) == Decimal(r.key) +
      (match r.dt
       case U8 => "=U8_"
       case I8 => "=I8_"
       case U16 => "=U16"
       case I16 => "=I16"
       case U32 => "=U32"
       case I32 => "=I32"
       case FL => "=FL_"
       case BO => "=BO_"
       case ST => "=STR") + r.shown
  {
    hide Decimal;
    assert "=" + Tag(r.dt) == ['='] + Tag(r.dt);
  }

  predicate IsTag(tag: string) {
    tag in {"U8_", "I8_", "U16", "I16", "U32", "I32", "FL_", "BO_", "STR"}
  }

  /** A line with an unknown type changes nothing. */
  lemma UnknownTypeIgnored(ft: FloatText, v: Values, key: string, tag: string, value: string)
    requires '=' !in key && |key| < 256 && |tag| == 3 && '\0' !in tag && !IsTag(tag)
    ensures ReadLine(ft, v, key + "=" + tag + value) == v
  {
    hide Put, ToInt, Replace, CString, Substring, IndexOf;
    KeySplit(key, tag + value);
    assert key + "=" + tag + value == key + "=" + (tag + value);
    ThreeParts(key, tag, value);
    CStringKeeps(tag);
  }

  /** A line without an equals sign changes nothing, up to the length at which the position is cut. */
  lemma NoKeyIgnored(ft: FloatText, v: Values, line: string)
    requires '=' !in line && |line| <= 256
    ensures ReadLine(ft, v, line) == v
  {
    hide Put, ToInt, Replace;
    assert IndexOf(line, '=') % 0x100 == 255;
    assert Substring(line, 256, 259) == "";
  }

  /** A file is read line by line, and the last line needs no newline. */
  lemma LinesMean(ft: FloatText, v: Values, line: string, rest: string)
    requires '\n' !in line
    ensures ReadText(ft, v, line + "\n" + rest) == ReadText(ft, ReadLine(ft, v, line), rest)
    ensures line != "" ==> ReadText(ft, v, line) == ReadLine(ft, v, line)
    ensures ReadText(ft, v, "") == v
  {
    hide ReadLine;
    var file := line + "\n" + rest;
    assert file[..|line|] == line && file[|line| + 1..] == rest;
    IndexAt(file, '\n', |line|);
    if line != "" {
      assert IndexOf(line, '\n') == -1;
      assert line[..|line|] == line && line[|line|..] == "";
    }
  }
}
