/** The settings file as text: how a line is printed, how it is read, and what survives the trip. */
module SettingsText {
  import opened HashLayout

  datatype DataType = U8 | I8 | U16 | I16 | U32 | I32 | FL | ST | BO

  /** A floating-point value by its bits, and how the platform prints and reads one. */
  type Float = bv32

  datatype FloatText = FloatText(show: Float -> string, parse: string -> Float)

  /** The settings maps, one per stored width. */
  datatype Values = Values(
    i8: map<nat, int>, i16: map<nat, int>, i32: map<nat, int>,
    bo: map<nat, bool>, fl: map<nat, Float>, st: map<nat, string>)

  const NOTHING: Values := Values(map[], map[], map[], map[], map[], map[])

  // ---- C strings ----

  function Replace(s: string, a: char, b: char): (r: string)
    ensures |r| == |s|
    ensures forall i :: 0 <= i < |s| ==> r[i] == if s[i] == a then b else s[i]
  {
    seq(|s|, i requires 0 <= i < |s| => if s[i] == a then b else s[i])
  }

  /** The part of a string that c_str() shows: up to the first NUL. */
  function CString(s: string): (r: string)
    ensures '\0' !in r && r <= s
    ensures r == s <==> '\0' !in s
  {
    if s == "" || s[0] == '\0' then ""
    else
      assert s == [s[0]] + s[1..];
      [s[0]] + CString(s[1..])
  }

  /** The first position of a character, or -1. */
  function IndexOf(s: string, c: char): (r: int)
    ensures -1 <= r < |s|
    ensures c !in s <==> r == -1
    ensures r >= 0 ==> s[r] == c && c !in s[..r]
  {
    if s == "" then -1
    else if s[0] == c then 0
    else
      var r := IndexOf(s[1..], c);
      assert s == [s[0]] + s[1..];
      assert r >= 0 ==> s[..r + 1] == [s[0]] + s[1..][..r];
      if r < 0 then -1 else r + 1
  }

  /** The substring between two positions in either order, cut to the string. */
  function Substring(s: string, left: nat, right: nat): string {
    var lo := if left < right then left else right;
    var hi := if left < right then right else left;
    if lo >= |s| then "" else s[lo..if hi < |s| then hi else |s|]
  }

  // ---- numbers ----

  predicate IsDigit(c: char) {
    '0' <= c <= '9'
  }

  predicate IsSpace(c: char) {
    c == ' ' || 9 <= c as int <= 13
  }

  function Decimal(n: nat): (s: string)
    ensures s != "" && forall c :: c in s ==> IsDigit(c)
  {
    if n < 10 then [(48 + n) as char] else Decimal(n / 10) + [(48 + n % 10) as char]
  }

  function ShowInt(v: int): string {
    if v < 0 then "-" + Decimal(-v) else Decimal(v)
  }

  function LeadingDigits(s: string): (n: nat)
    ensures n <= |s|
    ensures forall c :: c in s[..n] ==> IsDigit(c)
  {
    if s == "" || !IsDigit(s[0]) then 0
    else
      var n := LeadingDigits(s[1..]);
      assert s[..n + 1] == [s[0]] + s[1..][..n];
      n + 1
  }

  function ValueOf(digits: string): (v: nat)
    requires forall c :: c in digits ==> IsDigit(c)
  {
    if digits == "" then 0
    else
      assert IsDigit(digits[|digits| - 1]);
      ValueOf(digits[..|digits| - 1]) * 10 + (digits[|digits| - 1] as int - 48)
  }

  function SkipSpaces(s: string): string {
    if s != "" && IsSpace(s[0]) then SkipSpaces(s[1..]) else s
  }

  function Clamp(v: int): (r: int)
    ensures -0x8000_0000 <= r < 0x8000_0000
    ensures -0x8000_0000 <= v < 0x8000_0000 ==> r == v
  {
    if v < -0x8000_0000 then -0x8000_0000 else if v > 0x7FFF_FFFF then 0x7FFF_FFFF else v
  }

  /** The number at the start of a text, zero if there is none, saturating at 32 bits. */
  function ToInt(s: string): (r: int)
    ensures -0x8000_0000 <= r < 0x8000_0000
  {
    var t := SkipSpaces(s);
    var negative := t != "" && t[0] == '-';
    var d := if t != "" && (t[0] == '-' || t[0] == '+') then t[1..] else t;
    var v: int := ValueOf(d[..LeadingDigits(d)]);
    Clamp(if negative then -v else v)
  }

  /** The signed value that the low bits of v make. */
  function Narrow(v: int, size: nat): (r: int)
    requires size > 0 && size % 2 == 0
    ensures -(size / 2) <= r < size / 2
    ensures -(size / 2) <= v < size / 2 ==> r == v
  {
    var m := v % size;
    SmallMod(v, size);
    if m < size / 2 then m else m - size
  }

  lemma SmallMod(v: int, size: int)
    requires size > 0
    ensures -size <= v < size ==> v % size == if v < 0 then v + size else v
  {
    if -size <= v < 0 {
      var q := v / size;
      assert v == q * size + v % size;
      assert q >= 0 ==> q * size >= 0;
      assert q <= -2 ==> q * size <= -2 * size;
      assert q == -1;
    }
  }

  lemma {:induction false} DecimalReads(n: nat)
    ensures ValueOf(Decimal(n)) == n
  {
    var s := Decimal(n);
    if n >= 10 {
      DecimalReads(n / 10);
      assert s[..|s| - 1] == Decimal(n / 10);
    }
  }

  lemma {:induction false} AllLeading(s: string)
    requires forall c :: c in s ==> IsDigit(c)
    ensures LeadingDigits(s) == |s|
  {
    if s != "" { AllLeading(s[1..]); }
  }

  /** Every 32-bit number printed in decimal is read back. */
  lemma ShownIsRead(v: int)
    requires -0x8000_0000 <= v < 0x8000_0000
    ensures ToInt(ShowInt(v)) == v
  {
    var d := Decimal(if v < 0 then -v else v);
    DecimalReads(if v < 0 then -v else v);
    AllLeading(d);
    assert IsDigit(d[0]);
    assert d[..|d|] == d;
    if v < 0 {
      assert ("-" + d)[1..] == d;
    }
  }

  lemma {:induction false} DecimalFits(n: nat, digits: nat, limit: nat)
    requires digits > 0 && limit == Power10(digits) && n < limit
    ensures |Decimal(n)| <= digits
    decreases digits
  {
    if n >= 10 { DecimalFits(n / 10, digits - 1, limit / 10); }
  }

  function Power10(k: nat): nat {
    if k == 0 then 1 else 10 * Power10(k - 1)
  }

  // ---- a line ----

  function Tag(dt: DataType): (t: string)
    ensures |t| == 3 && '\n' !in t && '\0' !in t
  {
    match dt
    case U8 => "U8_"
    case I8 => "I8_"
    case U16 => "U16"
    case I16 => "I16"
    case U32 => "U32"
    case I32 => "I32"
    case FL => "FL_"
    case ST => "STR"
    case BO => "BO_"
  }

  /** What setString does with a key and a value in text form. */
  function Put(ft: FloatText, v: Values, name: nat, value: string, dt: DataType): Values {
    match dt
    case U8 | I8 => v.(i8 := v.i8[name := Narrow(ToInt(value), 0x100)])
    case U16 | I16 => v.(i16 := v.i16[name := Narrow(ToInt(value), 0x1_0000)])
    case U32 | I32 => v.(i32 := v.i32[name := Narrow(ToInt(value), 0x1_0000_0000)])
    case FL => v.(fl := v.fl[name := ft.parse(value)])
    case ST => v.(st := v.st[name := CString(value)])
    case BO => v.(bo := v.bo[name := ToInt(value) != 0])
  }

  /** The outcome of reading one line without its newline. */
  function ReadLine(ft: FloatText, v: Values, line: string): Values {
    var pos := IndexOf(line, '=') % 0x100;
    var name := ToInt(Substring(line, 0, pos)) % 0x1_0000;
    var tag := CString(Substring(line, pos + 1, pos + 4));
    var value := Replace(CString(Substring(line, pos + 4, |line|)), '~', '\n');
    if tag == "U8_" then Put(ft, v, name, value, U8)
    else if tag == "I8_" then Put(ft, v, name, value, I8)
    else if tag == "U16" then Put(ft, v, name, value, U16)
    else if tag == "I16" then Put(ft, v, name, value, I16)
    else if tag == "U32" then Put(ft, v, name, value, U32)
    else if tag == "I32" then Put(ft, v, name, value, I32)
    else if tag == "FL_" then Put(ft, v, name, value, FL)
    else if tag == "BO_" then Put(ft, v, name, value, BO)
    else if tag == "STR" then Put(ft, v, name, value, ST)
    else v
  }

  /** The end of the line that starts a text, and where the next one starts. */
  function LineEnd(file: string): (n: nat)
    ensures n <= |file|
  {
    var n := IndexOf(file, '\n');
    if n < 0 then |file| else n
  }

  function NextLine(file: string): (n: nat)
    requires file != ""
    ensures LineEnd(file) <= n <= |file| && n > 0
  {
    var n := IndexOf(file, '\n');
    if n < 0 then |file| else n + 1
  }

  /** The outcome of reading a whole file, line by line. */
  function ReadText(ft: FloatText, v: Values, file: string): Values
    decreases |file|
  {
    if file == "" then v
    else ReadText(ft, ReadLine(ft, v, file[..LineEnd(file)]), file[NextLine(file)..])
  }

  // ---- printing ----

  datatype Record = Record(key: nat, dt: DataType, shown: string)

  predicate Printable(r: Record) {
    r.key < 0x1_0000 && '\n' !in r.shown && '\0' !in r.shown
  }

  function Content(r: Record): string {
    Decimal(r.key) + "=" + Tag(r.dt) + r.shown
  }

  function Text(rs: seq<Record>): string {
    if rs == [] then "" else Text(rs[..|rs| - 1]) + Content(rs[|rs| - 1]) + "\n"
  }

  function PutAll(ft: FloatText, v: Values, rs: seq<Record>): Values {
    if rs == [] then v
    else
      var r := rs[|rs| - 1];
      Put(ft, PutAll(ft, v, rs[..|rs| - 1]), r.key, Replace(r.shown, '~', '\n'), r.dt)
  }

  lemma {:induction false} IndexAt(s: string, c: char, i: nat)
    requires i < |s| && s[i] == c && c !in s[..i]
    ensures IndexOf(s, c) == i
  {
    if i > 0 {
      assert s[0] in s[..i];
      assert forall d :: d in s[1..][..i - 1] ==> d in s[..i];
      IndexAt(s[1..], c, i - 1);
    }
  }

  lemma ContentIndex(r: Record)
    requires Printable(r)
    ensures IndexOf(Content(r), '=') == |Decimal(r.key)| <= 5
  {
    var d := Decimal(r.key);
    assert Power10(5) == 100000 by { assert Power10(3) == 1000; }
    DecimalFits(r.key, 5, 100000);
    assert Content(r)[..|d|] == d;
    IndexAt(Content(r), '=', |d|);
  }

  lemma ContentParts(r: Record)
    requires Printable(r)
    ensures var pos := IndexOf(Content(r), '=');
            var line := Content(r);
            pos % 0x100 == pos >= 0 &&
            Substring(line, 0, pos) == Decimal(r.key) &&
            Substring(line, pos + 1, pos + 4) == Tag(r.dt) &&
            Substring(line, pos + 4, |line|) == r.shown
  {
    hide Decimal, IndexOf, Tag;
    ContentIndex(r);
    ThreeParts(Decimal(r.key), Tag(r.dt), r.shown);
  }

  lemma ThreeParts(key: string, tag: string, shown: string)
    requires |tag| == 3
    ensures var line := key + "=" + tag + shown;
            Substring(line, 0, |key|) == key &&
            Substring(line, |key| + 1, |key| + 4) == tag &&
            Substring(line, |key| + 4, |line|) == shown
  {
    var line := key + "=" + tag + shown;
    assert line[0..|key|] == key;
    assert line[|key| + 1..|key| + 4] == tag;
    assert line[|key| + 4..|line|] == shown;
  }

  /** A printed line read back stores its value under its key, in the map its tag names. */
  lemma LineRead(ft: FloatText, v: Values, r: Record)
    requires Printable(r)
    ensures ReadLine(ft, v, Content(r)) == Put(ft, v, r.key, Replace(r.shown, '~', '\n'), r.dt)
  {
    hide Put, ToInt, Content, Substring, Decimal, Replace, IndexOf, CString;
    ContentParts(r);
    ShownIsRead(r.key);
    assert CString(r.shown) == r.shown && CString(Tag(r.dt)) == Tag(r.dt);
  }

  lemma FirstLine(r: Record, rest: string)
    requires Printable(r)
    ensures LineEnd(Content(r) + "\n" + rest) == |Content(r)|
    ensures NextLine(Content(r) + "\n" + rest) == |Content(r)| + 1
  {
    var line := Content(r);
    var file := line + "\n" + rest;
    assert '\n' !in line by {
      assert forall c :: c in Decimal(r.key) ==> IsDigit(c);
    }
    assert file[..|line|] == line;
    IndexAt(file, '\n', |line|);
  }

  /** Reading a printed file performs the stores of its lines, in order. */
  lemma {:induction false} TextRead(ft: FloatText, v: Values, rs: seq<Record>, rest: string)
    requires forall i :: 0 <= i < |rs| ==> Printable(rs[i])
    ensures ReadText(ft, v, Text(rs) + rest) == ReadText(ft, PutAll(ft, v, rs), rest)
    decreases |rs|
  {
    hide Put, ReadLine, Content, LineEnd, NextLine, Printable;
    if rs == [] {
      assert Text(rs) + rest == rest;
    } else {
      var r := rs[|rs| - 1];
      var init := rs[..|rs| - 1];
      var tail := Content(r) + "\n" + rest;
      assert Text(rs) + rest == Text(init) + tail;
      TextRead(ft, v, init, tail);
      FirstLine(r, rest);
      assert tail[..|Content(r)|] == Content(r) && tail[|Content(r)| + 1..] == rest;
      LineRead(ft, PutAll(ft, v, init), r);
    }
  }

  // ---- the five maps ----

  function ShowString(v: string): (r: string)
    ensures '\n' !in r && '\0' !in r
  {
    Replace(CString(v), '\n', '~')
  }

  function ShowBool(v: bool): string {
    if v then "1" else "0"
  }

  function Ints(es: seq<Entry<nat, int>>, dt: DataType): (rs: seq<Record>)
    ensures |rs| == |es|
  {
    seq(|es|, i requires 0 <= i < |es| => Record(es[i].key, dt, ShowInt(es[i].val)))
  }

  function Bools(es: seq<Entry<nat, bool>>): (rs: seq<Record>)
    ensures |rs| == |es|
  {
    seq(|es|, i requires 0 <= i < |es| => Record(es[i].key, BO, ShowBool(es[i].val)))
  }

  function Floats(ft: FloatText, es: seq<Entry<nat, Float>>): (rs: seq<Record>)
    ensures |rs| == |es|
  {
    seq(|es|, i requires 0 <= i < |es| => Record(es[i].key, FL, ft.show(es[i].val)))
  }

  function Strings(es: seq<Entry<nat, string>>): (rs: seq<Record>)
    ensures |rs| == |es|
  {
    seq(|es|, i requires 0 <= i < |es| => Record(es[i].key, ST, ShowString(es[i].val)))
  }

  /** What a string becomes on its way through the file. */
  function Travel(v: string): string {
    CString(Replace(ShowString(v), '~', '\n'))
  }

  /** A string survives the trip just when it holds no tilde and no NUL. */
  lemma TravelKeepsIff(v: string)
    ensures Travel(v) == v <==> '~' !in v && '\0' !in v
  {
    var shown := ShowString(v);
    var back := Replace(shown, '~', '\n');
    assert '\0' !in back;
    assert Travel(v) == back;
    if '\0' in v {
      assert |back| == |CString(v)| < |v|;
    } else if '~' in v {
      var i :| 0 <= i < |v| && v[i] == '~';
      assert back[i] == '\n';
    } else {
      assert back == v;
    }
  }

  lemma IntShown(v: int)
    ensures '\n' !in ShowInt(v) && '\0' !in ShowInt(v) && '~' !in ShowInt(v)
    ensures Replace(ShowInt(v), '~', '\n') == ShowInt(v)
  {
    hide Decimal;
  }

  ghost predicate SmallKeys<V(!new)>(es: seq<Entry<nat, V>>) {
    forall i :: 0 <= i < |es| ==> es[i].key < 0x1_0000
  }

  ghost predicate Fit(es: seq<Entry<nat, int>>, size: nat) {
    forall i :: 0 <= i < |es| ==> -(size / 2) <= es[i].val < size / 2
  }

  ghost function Size(dt: DataType): (n: nat)
    ensures 0 < n <= 0x1_0000_0000 && n % 2 == 0
  {
    match dt
    case U8 | I8 => 0x100
    case U16 | I16 => 0x1_0000
    case _ => 0x1_0000_0000
  }

  /** The values of a set of settings with the map a width lives in merged over. */
  ghost function WithInts(v: Values, m: map<nat, int>, dt: DataType): Values {
    match dt
    case U8 | I8 => v.(i8 := v.i8 + m)
    case U16 | I16 => v.(i16 := v.i16 + m)
    case U32 | I32 => v.(i32 := v.i32 + m)
    case FL | ST | BO => v
  }

  predicate IsInt(dt: DataType) {
    !dt.FL? && !dt.ST? && !dt.BO?
  }

  lemma PutInt(ft: FloatText, v: Values, m: map<nat, int>, key: nat, val: int, dt: DataType)
    requires IsInt(dt) && -(Size(dt) / 2) <= val < Size(dt) / 2
    ensures Put(ft, WithInts(v, m, dt), key, Replace(ShowInt(val), '~', '\n'), dt)
         == WithInts(v, m[key := val], dt)
  {
    hide ShowInt, ToInt, Replace;
    IntShown(val);
    ShownIsRead(val);
    MergeOne(v.i8, m, key, val);
    MergeOne(v.i16, m, key, val);
    MergeOne(v.i32, m, key, val);
  }

  lemma MergeOne<V>(base: map<nat, V>, m: map<nat, V>, key: nat, val: V)
    ensures base + m[key := val] == (base + m)[key := val]
  {
  }

  lemma {:induction false} PutInts(ft: FloatText, v: Values, es: seq<Entry<nat, int>>, dt: DataType)
    requires IsInt(dt) && Fit(es, Size(dt))
    ensures PutAll(ft, v, Ints(es, dt)) == WithInts(v, FromEntries(es), dt)
    decreases |es|
  {
    hide Put, Replace, ShowInt, Size, WithInts;
    if es == [] {
      assert WithInts(v, map[], dt) == v by { NoInts(v, dt); }
    } else {
      var n := |es| - 1;
      PutInts(ft, v, es[..n], dt);
      assert Ints(es, dt)[..n] == Ints(es[..n], dt);
      PutInt(ft, v, FromEntries(es[..n]), es[n].key, es[n].val, dt);
    }
  }

  lemma NoInts(v: Values, dt: DataType)
    ensures WithInts(v, map[], dt) == v
  {
    assert v.i8 + map[] == v.i8 && v.i16 + map[] == v.i16 && v.i32 + map[] == v.i32;
  }

  lemma PutBool(ft: FloatText, v: Values, m: map<nat, bool>, key: nat, val: bool)
    ensures Put(ft, v.(bo := v.bo + m), key, Replace(ShowBool(val), '~', '\n'), BO)
         == v.(bo := v.bo + m[key := val])
  {
    hide ToInt, Replace, ShowBool;
    BoolRead(val);
    MergeOne(v.bo, m, key, val);
  }

  lemma {:induction false} PutBools(ft: FloatText, v: Values, es: seq<Entry<nat, bool>>)
    ensures PutAll(ft, v, Bools(es)) == v.(bo := v.bo + FromEntries(es))
    decreases |es|
  {
    hide Replace, ShowBool, Put;
    if es == [] {
      assert v.bo + FromEntries(es) == v.bo;
    } else {
      var n := |es| - 1;
      PutBools(ft, v, es[..n]);
      assert Bools(es)[..n] == Bools(es[..n]);
      PutBool(ft, v, FromEntries(es[..n]), es[n].key, es[n].val);
    }
  }

  /** What a floating-point value becomes on its way through the file. */
  function TravelFloat(ft: FloatText, x: Float): Float {
    ft.parse(ft.show(x))
  }

  ghost function TravelledFloats(ft: FloatText, m: map<nat, Float>): map<nat, Float> {
    map k | k in m :: TravelFloat(ft, m[k])
  }

  /** Printed floating-point values are plain text on one line. */
  ghost predicate PrintsPlainly(ft: FloatText) {
    forall x :: IsPlain(ft.show(x))
  }

  predicate IsPlain(s: string) {
    '\n' !in s && '\0' !in s && '~' !in s && IsBytes(s)
  }

  lemma PutFloat(ft: FloatText, v: Values, m: map<nat, Float>, key: nat, val: Float)
    requires PrintsPlainly(ft)
    ensures Put(ft, v.(fl := v.fl + TravelledFloats(ft, m)), key, Replace(ft.show(val), '~', '\n'), FL)
         == v.(fl := v.fl + TravelledFloats(ft, m[key := val]))
  {
    assert IsPlain(ft.show(val));
    assert Replace(ft.show(val), '~', '\n') == ft.show(val);
    assert TravelledFloats(ft, m[key := val]) == TravelledFloats(ft, m)[key := TravelFloat(ft, val)];
    MergeOne(v.fl, TravelledFloats(ft, m), key, TravelFloat(ft, val));
  }

  lemma {:induction false} PutFloats(ft: FloatText, v: Values, es: seq<Entry<nat, Float>>)
    requires PrintsPlainly(ft)
    ensures PutAll(ft, v, Floats(ft, es)) == v.(fl := v.fl + TravelledFloats(ft, FromEntries(es)))
    decreases |es|
  {
    hide Replace, Put, PrintsPlainly;
    if es == [] {
      assert v.fl + TravelledFloats(ft, map[]) == v.fl;
    } else {
      var n := |es| - 1;
      PutFloats(ft, v, es[..n]);
      assert Floats(ft, es)[..n] == Floats(ft, es[..n]);
      PutFloat(ft, v, FromEntries(es[..n]), es[n].key, es[n].val);
    }
  }

  lemma BoolRead(b: bool)
    ensures (ToInt(Replace(ShowBool(b), '~', '\n')) != 0) == b
  {
    assert ShowBool(b) == ShowInt(if b then 1 else 0);
    IntShown(if b then 1 else 0);
    ShownIsRead(if b then 1 else 0);
  }

  ghost function Travelled(m: map<nat, string>): map<nat, string> {
    map k | k in m :: Travel(m[k])
  }

  lemma TravelledOne(m: map<nat, string>, key: nat, val: string)
    ensures Travelled(m[key := val]) == Travelled(m)[key := Travel(val)]
  {
    hide Travel;
  }

  lemma PutString(ft: FloatText, v: Values, m: map<nat, string>, key: nat, val: string)
    ensures Put(ft, v.(st := v.st + Travelled(m)), key, Replace(ShowString(val), '~', '\n'), ST)
         == v.(st := v.st + Travelled(m[key := val]))
  {
    hide ShowString, CString, Replace, Travelled;
    TravelledOne(m, key, val);
    MergeOne(v.st, Travelled(m), key, Travel(val));
  }

  lemma {:induction false} PutStrings(ft: FloatText, v: Values, es: seq<Entry<nat, string>>)
    ensures PutAll(ft, v, Strings(es)) == v.(st := v.st + Travelled(FromEntries(es)))
    decreases |es|
  {
    hide Replace, ShowString, Put;
    if es == [] {
      assert v.st + Travelled(map[]) == v.st;
    } else {
      var n := |es| - 1;
      PutStrings(ft, v, es[..n]);
      assert Strings(es)[..n] == Strings(es[..n]);
      PutString(ft, v, FromEntries(es[..n]), es[n].key, es[n].val);
    }
  }

  lemma {:induction false} PutAllAppend(ft: FloatText, v: Values, a: seq<Record>, b: seq<Record>)
    ensures PutAll(ft, v, a + b) == PutAll(ft, PutAll(ft, v, a), b)
    decreases |b|
  {
    hide Put, Replace;
    if b == [] {
      assert a + b == a;
    } else {
      assert (a + b)[..|a + b| - 1] == a + b[..|b| - 1];
      PutAllAppend(ft, v, a, b[..|b| - 1]);
    }
  }

  // ---- the whole file ----

  /** The order in which the iteration over each map delivers its entries. */
  datatype Order = Order(
    i8: seq<Entry<nat, int>>, i16: seq<Entry<nat, int>>, i32: seq<Entry<nat, int>>,
    bo: seq<Entry<nat, bool>>, fl: seq<Entry<nat, Float>>, st: seq<Entry<nat, string>>)

  ghost function Listed(o: Order): Values {
    Values(FromEntries(o.i8), FromEntries(o.i16), FromEntries(o.i32),
           FromEntries(o.bo), FromEntries(o.fl), FromEntries(o.st))
  }

  /** The walk over every map delivers each of its entries once. */
  ghost predicate Enumerates(o: Order, v: Values) {
    Listed(o) == v &&
    DistinctKeys(o.i8) && DistinctKeys(o.i16) && DistinctKeys(o.i32) &&
    DistinctKeys(o.bo) && DistinctKeys(o.fl) && DistinctKeys(o.st)
  }

  predicate IsBytes(s: string) {
    forall c :: c in s ==> c as int < 0x100
  }

  /** Keys fit 16 bits, values fit the width they are stored in and strings are made of bytes. */
  ghost predicate InRange(o: Order) {
    (forall i :: 0 <= i < |o.st| ==> IsBytes(o.st[i].val)) &&
    SmallKeys(o.i8) && SmallKeys(o.i16) && SmallKeys(o.i32) &&
    SmallKeys(o.bo) && SmallKeys(o.fl) && SmallKeys(o.st) &&
    Fit(o.i8, 0x100) && Fit(o.i16, 0x1_0000) && Fit(o.i32, 0x1_0000_0000)
  }

  function FileRecords(ft: FloatText, o: Order): seq<Record> {
    Strings(o.st) + Ints(o.i8, I8) + Ints(o.i16, I16) + Ints(o.i32, I32) + Bools(o.bo) + Floats(ft, o.fl)
  }

  // ---- what every operation keeps ----

  ghost predicate KeysFit<V>(m: map<nat, V>) {
    forall k :: k in m ==> k < 0x1_0000
  }

  ghost predicate ValuesFit(m: map<nat, int>, size: nat) {
    forall k :: k in m ==> -(size / 2) <= m[k] < size / 2
  }

  /** Keys of 16 bits, values that fit the width they are stored in, strings of bytes. */
  ghost predicate InBounds(v: Values) {
    KeysFit(v.i8) && KeysFit(v.i16) && KeysFit(v.i32) && KeysFit(v.bo) && KeysFit(v.fl) && KeysFit(v.st) &&
    ValuesFit(v.i8, 0x100) && ValuesFit(v.i16, 0x1_0000) && ValuesFit(v.i32, 0x1_0000_0000) &&
    forall k :: k in v.st ==> IsBytes(v.st[k])
  }

  /** A walk over settings in bounds delivers entries in range. */
  lemma WalkInRange(v: Values, o: Order)
    requires InBounds(v) && Enumerates(o, v)
    ensures InRange(o)
  {
    hide FromEntries, IsBytes, DistinctKeys;
    WalkKeys(o.i8);
    WalkKeys(o.i16);
    WalkKeys(o.i32);
    WalkKeys(o.bo);
    WalkKeys(o.fl);
    WalkKeys(o.st);
  }

  lemma WalkKeys<V>(es: seq<Entry<nat, V>>)
    requires DistinctKeys(es)
    ensures forall i :: 0 <= i < |es| ==> es[i].key in FromEntries(es) && FromEntries(es)[es[i].key] == es[i].val
  {
    forall i | 0 <= i < |es|
      ensures es[i].key in FromEntries(es) && FromEntries(es)[es[i].key] == es[i].val
    {
      FromEntriesAt(es, i);
    }
  }

  lemma PutKeeps(ft: FloatText, v: Values, name: nat, value: string, dt: DataType)
    requires InBounds(v) && name < 0x1_0000 && IsBytes(value)
    ensures InBounds(Put(ft, v, name, value, dt))
  {
    hide ToInt, Narrow, CString, KeysFit, ValuesFit, IsBytes;
    match dt
    case U8 | I8 => IntPutKeeps(v.i8, name, Narrow(ToInt(value), 0x100), 0x100);
    case U16 | I16 => IntPutKeeps(v.i16, name, Narrow(ToInt(value), 0x1_0000), 0x1_0000);
    case U32 | I32 => IntPutKeeps(v.i32, name, Narrow(ToInt(value), 0x1_0000_0000), 0x1_0000_0000);
    case FL => KeyPutKeeps(v.fl, name, ft.parse(value));
    case ST =>
      KeyPutKeeps(v.st, name, CString(value));
      PrefixIsBytes(value);
    case BO => KeyPutKeeps(v.bo, name, ToInt(value) != 0);
  }

  lemma KeyPutKeeps<V>(m: map<nat, V>, name: nat, val: V)
    requires KeysFit(m) && name < 0x1_0000
    ensures KeysFit(m[name := val])
  {
  }

  lemma IntPutKeeps(m: map<nat, int>, name: nat, val: int, size: nat)
    requires KeysFit(m) && ValuesFit(m, size) && name < 0x1_0000 && -(size / 2) <= val < size / 2
    ensures KeysFit(m[name := val]) && ValuesFit(m[name := val], size)
  {
  }

  lemma PrefixIsBytes(value: string)
    requires IsBytes(value)
    ensures IsBytes(CString(value))
  {
    assert forall c :: c in CString(value) ==> c in value;
  }

  lemma PartIsBytes(s: string, a: nat, b: nat)
    requires a <= b <= |s| && IsBytes(s)
    ensures IsBytes(s[a..b])
  {
    assert forall c :: c in s[a..b] ==> c in s;
  }

  lemma ValueIsBytes(line: string, pos: nat)
    requires IsBytes(line)
    ensures IsBytes(Replace(CString(Substring(line, pos, |line|)), '~', '\n'))
  {
    var rest := Substring(line, pos, |line|);
    if pos < |line| { PartIsBytes(line, pos, |line|); }
    assert forall c :: c in CString(rest) ==> c in rest;
    assert forall c :: c in Replace(CString(rest), '~', '\n') ==> c == '\n' || c in CString(rest);
  }

  lemma ReadLineKeeps(ft: FloatText, v: Values, line: string)
    requires InBounds(v) && IsBytes(line)
    ensures InBounds(ReadLine(ft, v, line))
  {
    hide ToInt, Put, InBounds, IndexOf, Replace, CString, Substring, IsBytes;
    var pos := IndexOf(line, '=') % 0x100;
    var name := ToInt(Substring(line, 0, pos)) % 0x1_0000;
    var value := Replace(CString(Substring(line, pos + 4, |line|)), '~', '\n');
    ValueIsBytes(line, pos + 4);
    forall dt: DataType ensures InBounds(Put(ft, v, name, value, dt)) {
      PutKeeps(ft, v, name, value, dt);
    }
  }

  lemma {:induction false} ReadTextKeeps(ft: FloatText, v: Values, file: string)
    requires InBounds(v) && IsBytes(file)
    ensures InBounds(ReadText(ft, v, file))
    decreases |file|
  {
    hide ReadLine, InBounds, LineEnd, NextLine, IsBytes;
    if file != "" {
      PartIsBytes(file, 0, LineEnd(file));
      PartIsBytes(file, NextLine(file), |file|);
      assert file[0..LineEnd(file)] == file[..LineEnd(file)];
      assert file[NextLine(file)..|file|] == file[NextLine(file)..];
      ReadLineKeeps(ft, v, file[..LineEnd(file)]);
      ReadTextKeeps(ft, ReadLine(ft, v, file[..LineEnd(file)]), file[NextLine(file)..]);
    }
  }

  /** Writing over what is there: the written entries replace those of the same key. */
  ghost function Restored(ft: FloatText, base: Values, v: Values): Values {
    Values(base.i8 + v.i8, base.i16 + v.i16, base.i32 + v.i32,
           base.bo + v.bo, base.fl + TravelledFloats(ft, v.fl), base.st + Travelled(v.st))
  }

  lemma AllPrintable(ft: FloatText, o: Order)
    requires InRange(o) && PrintsPlainly(ft)
    ensures forall i :: 0 <= i < |FileRecords(ft, o)| ==> Printable(FileRecords(ft, o)[i])
  {
    hide ShowInt, ShowString;
    IntsPrintable(o.i8, I8);
    IntsPrintable(o.i16, I16);
    IntsPrintable(o.i32, I32);
    assert forall i :: 0 <= i < |o.bo| ==> Printable(Bools(o.bo)[i]);
    forall i | 0 <= i < |o.fl| ensures Printable(Floats(ft, o.fl)[i]) {
      FloatPlain(ft, o.fl[i].val);
    }
    assert forall i :: 0 <= i < |o.st| ==> Printable(Strings(o.st)[i]);
  }

  lemma FloatPlain(ft: FloatText, x: Float)
    requires PrintsPlainly(ft)
    ensures IsPlain(ft.show(x))
  {
  }

  lemma IntsPrintable(es: seq<Entry<nat, int>>, dt: DataType)
    requires SmallKeys(es)
    ensures forall i :: 0 <= i < |es| ==> Printable(Ints(es, dt)[i])
  {
    hide ShowInt;
    forall i | 0 <= i < |es| ensures Printable(Ints(es, dt)[i]) { IntShown(es[i].val); }
  }

  lemma PutFile(ft: FloatText, base: Values, o: Order)
    requires InRange(o) && PrintsPlainly(ft)
    ensures PutAll(ft, base, FileRecords(ft, o)) == Restored(ft, base, Listed(o))
  {
    hide PutAll, Strings, Ints, Bools, Floats, FromEntries, Travelled, TravelledFloats, PrintsPlainly;
    var s, a, b, c, d := Strings(o.st), Ints(o.i8, I8), Ints(o.i16, I16), Ints(o.i32, I32), Bools(o.bo);
    var e := Floats(ft, o.fl);
    PutAllAppend(ft, base, s + a + b + c + d, e);
    PutAllAppend(ft, base, s + a + b + c, d);
    PutAllAppend(ft, base, s + a + b, c);
    PutAllAppend(ft, base, s + a, b);
    PutAllAppend(ft, base, s, a);
    PutStrings(ft, base, o.st);
    var v1 := PutAll(ft, base, s);
    PutInts(ft, v1, o.i8, I8);
    var v2 := PutAll(ft, v1, a);
    PutInts(ft, v2, o.i16, I16);
    var v3 := PutAll(ft, v2, b);
    PutInts(ft, v3, o.i32, I32);
    var v4 := PutAll(ft, v3, c);
    PutBools(ft, v4, o.bo);
    PutFloats(ft, PutAll(ft, v4, d), o.fl);
  }

  /** Writing every setting and reading the file back into any state restores every entry, in
      whatever order the maps were walked; strings and floating-point values come back as their way
      through the file leaves them. */
  lemma RoundTrip(ft: FloatText, base: Values, v: Values, o: Order)
    requires PrintsPlainly(ft) && InRange(o) && Enumerates(o, v)
    ensures ReadText(ft, base, Text(FileRecords(ft, o))) == Restored(ft, base, v)
  {
    hide PutAll, FileRecords, Text, PrintsPlainly, Restored;
    AllPrintable(ft, o);
    TextRead(ft, base, FileRecords(ft, o), "");
    assert Text(FileRecords(ft, o)) + "" == Text(FileRecords(ft, o));
    PutFile(ft, base, o);
  }

  /** After a restart the file gives back exactly the settings written, if and only if no string
      among them holds a tilde or a NUL and every floating-point value is read as it was printed. */
  lemma RoundTripExactIff(ft: FloatText, v: Values, o: Order)
    requires PrintsPlainly(ft) && InRange(o) && Enumerates(o, v)
    ensures ReadText(ft, NOTHING, Text(FileRecords(ft, o))) == v <==>
            (forall k :: k in v.st ==> '~' !in v.st[k] && '\0' !in v.st[k]) &&
            (forall k :: k in v.fl ==> TravelFloat(ft, v.fl[k]) == v.fl[k])
  {
    hide Travel, TravelFloat, ReadText, Text, FileRecords, InRange, Enumerates, Travelled, PrintsPlainly;
    RoundTrip(ft, NOTHING, v, o);
    RestoredAlone(ft, v);
    TravelledKeepsIff(v.st);
    assert TravelledFloats(ft, v.fl) == v.fl <==> forall k :: k in v.fl ==> TravelFloat(ft, v.fl[k]) == v.fl[k];
  }

  lemma RestoredAlone(ft: FloatText, v: Values)
    ensures Restored(ft, NOTHING, v)
         == v.(fl := TravelledFloats(ft, v.fl), st := Travelled(v.st))
  {
    hide Travel, TravelFloat;
    var w := Restored(ft, NOTHING, v);
    assert w.i8 == v.i8 && w.i16 == v.i16 && w.i32 == v.i32 && w.bo == v.bo;
    assert w.st == Travelled(v.st) && w.fl == TravelledFloats(ft, v.fl);
  }

  lemma TravelledKeepsIff(m: map<nat, string>)
    ensures Travelled(m) == m <==> forall k :: k in m ==> '~' !in m[k] && '\0' !in m[k]
  {
    hide Travel;
    forall k | k in m
      ensures Travelled(m)[k] == m[k] <==> '~' !in m[k] && '\0' !in m[k]
    {
      TravelKeepsIff(m[k]);
    }
    assert Travelled(m) == m <==> forall k :: k in m ==> Travelled(m)[k] == m[k];
  }
}
