/** The settings in memory, the settings file with its backup, and the CRC that tells which of
    the two files to trust. */
module SettingsStore {
  import opened HashLayout
  import opened SettingsText
  import opened SettingsCrc

  datatype Option<T> = None | Some(value: T)

  // ---- text as bytes ----

  function Encode(t: string): (b: Bytes)
    ensures |b| == |t|
  {
    seq(|t|, i requires 0 <= i < |t| => (t[i] as int % 0x100) as bv8)
  }

  function Decode(b: Bytes): (t: string)
    ensures |t| == |b|
  {
    seq(|b|, i requires 0 <= i < |b| => b[i] as int as char)
  }

  lemma DecodeEncode(t: string)
    requires IsBytes(t)
    ensures Decode(Encode(t)) == t
  {
    forall i | 0 <= i < |t| ensures Decode(Encode(t))[i] == t[i] {
      assert t[i] in t;
    }
  }

  lemma ContentIsBytes(r: Record)
    requires IsBytes(r.shown)
    ensures IsBytes(Content(r))
  {
    assert IsBytes(Decimal(r.key)) by {
      assert forall c :: c in Decimal(r.key) ==> IsDigit(c);
    }
    assert IsBytes(Tag(r.dt));
  }

  lemma {:induction false} TextIsBytes(rs: seq<Record>)
    requires forall i :: 0 <= i < |rs| ==> IsBytes(rs[i].shown)
    ensures IsBytes(Text(rs))
  {
    hide Content, Decimal;
    if rs != [] {
      var r := rs[|rs| - 1];
      TextIsBytes(rs[..|rs| - 1]);
      ContentIsBytes(r);
    }
  }

  lemma ShowIntIsBytes(v: int)
    ensures IsBytes(ShowInt(v))
  {
    assert forall c :: c in Decimal(if v < 0 then -v else v) ==> IsDigit(c);
  }

  lemma FileIsBytes(ft: FloatText, o: Order)
    requires PrintsPlainly(ft) && InRange(o)
    ensures IsBytes(Text(FileRecords(ft, o)))
  {
    hide Text, PrintsPlainly;
    forall i | 0 <= i < |o.fl| ensures IsBytes(ft.show(o.fl[i].val)) { FloatPlain(ft, o.fl[i].val); }
    forall v: int ensures IsBytes(ShowInt(v)) { ShowIntIsBytes(v); }
    forall i | 0 <= i < |o.st| ensures IsBytes(ShowString(o.st[i].val)) {
      var v := o.st[i].val;
      assert forall c :: c in CString(v) ==> c in v;
      assert forall c :: c in ShowString(v) ==> c == '~' || c in CString(v);
    }
    TextIsBytes(FileRecords(ft, o));
  }

  // ---- which file is read ----

  datatype Files = Files(config: Option<Bytes>, backup: Option<Bytes>, crc: Option<bv32>)

  function FileCrc(file: Bytes): bv32 {
    Fold(Chunks(file))
  }

  /** The files that writing leaves. */
  function Saved(written: Bytes): Files {
    Files(Some(written), Some(written), Some(FileCrc(written)))
  }

  predicate Damaged(f: Files) {
    f.config.Some? && f.crc.Some? && f.crc.value != FileCrc(f.config.value)
  }

  /** The file that is read: the backup in place of a damaged or missing one, the settings in
      memory when there is no backup either. */
  function Source(f: Files, inMemory: Bytes): Bytes {
    if f.config.Some? && !Damaged(f) then f.config.value
    else if f.backup.Some? then f.backup.value
    else inMemory
  }

  function AfterReading(f: Files, inMemory: Bytes): Files {
    if f.config.Some? && !Damaged(f) then f.(backup := f.config)
    else if f.backup.Some? then f
    else Saved(inMemory)
  }

  /** What reading the settings leaves, by what was there before. A file without a stored CRC or with
      its own is read and becomes the backup; a missing file, or one whose stored CRC is not its own,
      is passed over for the backup, and nothing changes; and only without a backup too are the settings
      in memory written and read. */
  ghost predicate ReadRight(before: Files, after: Files, memory: Bytes, opens: bool,
                            ft: FloatText, v: Values, w: Values) {
    (!opens ==> w == v) &&
    (before.config.Some? && (before.crc == None || before.crc == Some(Fold(Chunks(before.config.value)))) ==>
       after == Files(before.config, before.config, before.crc) &&
       (opens ==> w == ReadText(ft, v, Decode(before.config.value)))) &&
    ((before.config == None || (before.crc.Some? && before.crc.value != Fold(Chunks(before.config.value)))) ==>
       if before.backup.Some? then
         after == before && (opens ==> w == ReadText(ft, v, Decode(before.backup.value)))
       else
         after == Files(Some(memory), Some(memory), Some(Fold(Chunks(memory)))) &&
         (opens ==> w == ReadText(ft, v, Decode(memory))))
  }

  lemma ReadMeans(before: Files, memory: Bytes, opens: bool, ft: FloatText, v: Values)
    ensures ReadRight(before, AfterReading(before, memory), memory, opens, ft, v,
                      if opens then ReadText(ft, v, Decode(Source(before, memory))) else v)
  {
    hide ReadText, Decode, Fold, Chunks;
  }

  /** Two files of one length that differ within four adjacent bytes. */
  ghost predicate DifferInWindow(file: Bytes, other: Bytes) {
    exists p, w, v, q: Bytes ::
      |w| == |v| <= 4 && w != v && file == p + w + q && other == p + v + q
  }

  /** Damage inside four adjacent bytes, or the loss of the file, never reaches the settings. */
  lemma DamageRepaired(t: Bytes, config: Option<Bytes>, inMemory: Bytes)
    requires config.Some? ==>
      DifferInWindow(t, config.value) && NeverZero(Chunks(t)) && NeverZero(Chunks(config.value))
    ensures Source(Saved(t).(config := config), inMemory) == t
  {
    hide Chunks, Fold, NeverZero;
    if config.Some? {
      var p, w, v, q: Bytes :|
        |w| == |v| <= 4 && w != v && t == p + w + q && config.value == p + v + q;
      FileChangeDetected(p, w, v, q);
    }
  }

  /** The file as it was written, lost, or damaged inside four adjacent bytes. */
  ghost predicate Recoverable(t: Bytes, config: Option<Bytes>) {
    config == Some(t) || config == None ||
    (DifferInWindow(t, config.value) && NeverZero(Chunks(t)) && NeverZero(Chunks(config.value)))
  }

  lemma RecoveredFile(t: Bytes, config: Option<Bytes>, inMemory: Bytes)
    requires Recoverable(t, config)
    ensures Source(Saved(t).(config := config), inMemory) == t
  {
    hide Chunks, Fold, NeverZero, DifferInWindow;
    if config != Some(t) { DamageRepaired(t, config, inMemory); }
  }

  /** Saving, damaging or losing the file, restarting and reading restores what was saved. */
  lemma RestartRestores(ft: FloatText, base: Values, v: Values, o: Order, config: Option<Bytes>, inMemory: Bytes)
    requires PrintsPlainly(ft) && InBounds(v) && Enumerates(o, v)
    requires Recoverable(Encode(Text(FileRecords(ft, o))), config)
    ensures var f := Saved(Encode(Text(FileRecords(ft, o)))).(config := config);
            ReadText(ft, base, Decode(Source(f, inMemory))) == Restored(ft, base, v)
  {
    hide Text, FileRecords, Encode, Decode, Restored, ReadText, Source, Recoverable, InRange;
    hide InBounds, Enumerates, PrintsPlainly;
    RecoveredFile(Encode(Text(FileRecords(ft, o))), config, inMemory);
    WalkInRange(v, o);
    FileIsBytes(ft, o);
    DecodeEncode(Text(FileRecords(ft, o)));
    RoundTrip(ft, base, v, o);
  }

  // ---- reading a single setting ----

  /** The value getInt gives for a key, zero when there is none. */
  function Fetch(v: Values, name: nat, dt: DataType): int {
    match dt
    case U8 => At(v.i8, name) % 0x100
    case I8 => At(v.i8, name)
    case U16 => At(v.i16, name) % 0x1_0000
    case I16 => At(v.i16, name)
    case U32 | I32 => At(v.i32, name)
    case FL | ST | BO => 0
  }

  function At(m: map<nat, int>, name: nat): int {
    if name in m then m[name] else 0
  }

  /** Asking for a missing number creates it. */
  function Touched(v: Values, name: nat, dt: DataType): Values {
    match dt
    case U8 | I8 => v.(i8 := v.i8[name := At(v.i8, name)])
    case U16 | I16 => v.(i16 := v.i16[name := At(v.i16, name)])
    case U32 | I32 => v.(i32 := v.i32[name := At(v.i32, name)])
    case FL | ST | BO => v
  }

  predicate Declared(dt: DataType, x: int) {
    match dt
    case U8 => 0 <= x < 0x100
    case I8 => -0x80 <= x < 0x80
    case U16 => 0 <= x < 0x1_0000
    case I16 => -0x8000 <= x < 0x8000
    case U32 => 0 <= x < 0x1_0000_0000
    case I32 => -0x8000_0000 <= x < 0x8000_0000
    case FL | ST | BO => false
  }

  /** A missing number reads as zero, in every type; a present one is read from the map of its width,
      as a signed or an unsigned number of that width. */
  lemma FetchMeans(v: Values, name: nat)
    ensures name !in v.i8 ==> Fetch(v, name, U8) == Fetch(v, name, I8) == 0
    ensures name !in v.i16 ==> Fetch(v, name, U16) == Fetch(v, name, I16) == 0
    ensures name !in v.i32 ==> Fetch(v, name, U32) == Fetch(v, name, I32) == 0
    ensures name in v.i8 && -0x80 <= v.i8[name] < 0x80 ==>
              Fetch(v, name, I8) == v.i8[name] &&
              Fetch(v, name, U8) == if v.i8[name] < 0 then v.i8[name] + 0x100 else v.i8[name]
    ensures name in v.i16 && -0x8000 <= v.i16[name] < 0x8000 ==>
              Fetch(v, name, I16) == v.i16[name] &&
              Fetch(v, name, U16) == if v.i16[name] < 0 then v.i16[name] + 0x1_0000 else v.i16[name]
    ensures name in v.i32 ==> Fetch(v, name, U32) == Fetch(v, name, I32) == v.i32[name]
    ensures Fetch(v, name, FL) == Fetch(v, name, ST) == Fetch(v, name, BO) == 0
  {
  }

  /** Asking for a number changes at most one map: its key is there afterwards, with zero if it is new,
      and every other entry is as before. */
  lemma TouchedMeans(v: Values, name: nat, dt: DataType)
    ensures var w := Touched(v, name, dt);
            w.bo == v.bo && w.fl == v.fl && w.st == v.st &&
            (dt.U8? || dt.I8? ==> Entered(v.i8, w.i8, name) && w.i16 == v.i16 && w.i32 == v.i32) &&
            (dt.U16? || dt.I16? ==> Entered(v.i16, w.i16, name) && w.i8 == v.i8 && w.i32 == v.i32) &&
            (dt.U32? || dt.I32? ==> Entered(v.i32, w.i32, name) && w.i8 == v.i8 && w.i16 == v.i16) &&
            (dt.FL? || dt.ST? || dt.BO? ==> w == v)
  {
  }

  ghost predicate Entered(m: map<nat, int>, w: map<nat, int>, name: nat) {
    name in w && (name !in m ==> w[name] == 0) && w.Keys == m.Keys + {name} &&
    forall k :: k in m ==> w[k] == m[k]
  }

  lemma NarrowKeepsByte(x: int)
    requires 0 <= x < 0x100
    ensures Narrow(x, 0x100) % 0x100 == x
  {
  }

  lemma NarrowKeepsWord(x: int)
    requires 0 <= x < 0x1_0000
    ensures Narrow(x, 0x1_0000) % 0x1_0000 == x
  {
  }

  /** Every number of the declared type that fits a signed 32-bit word is read back as it was set,
      unsigned ones through their signed map; larger ones are not. */
  lemma SetThenGet(ft: FloatText, v: Values, name: nat, x: int, dt: DataType)
    requires Declared(dt, x)
    ensures Fetch(Put(ft, v, name, ShowInt(x), dt), name, dt) == x <==> x < 0x8000_0000
  {
    hide ShowInt, ToInt;
    if x < 0x8000_0000 {
      ShownIsRead(x);
      if dt.U8? { NarrowKeepsByte(x); }
      if dt.U16? { NarrowKeepsWord(x); }
    }
  }

  /** ... and still after saving, damage, restarting and reading the file, in whatever order it was
      written. */
  lemma SetSaveGet(ft: FloatText, base: Values, v: Values, name: nat, x: int, dt: DataType, o: Order,
                   config: Option<Bytes>, inMemory: Bytes)
    requires PrintsPlainly(ft) && InBounds(v) && name < 0x1_0000 && Declared(dt, x)
    requires Enumerates(o, Put(ft, v, name, ShowInt(x), dt))
    requires Recoverable(Encode(Text(FileRecords(ft, o))), config)
    ensures var f := Saved(Encode(Text(FileRecords(ft, o)))).(config := config);
            Fetch(ReadText(ft, base, Decode(Source(f, inMemory))), name, dt) == x <==> x < 0x8000_0000
  {
    hide ShowInt, Put, InBounds, Enumerates, PrintsPlainly, Recoverable, Declared, Fetch;
    hide Text, FileRecords, Encode, Decode, ReadText, Restored, Source;
    ShowIntIsBytes(x);
    PutKeeps(ft, v, name, ShowInt(x), dt);
    var w := Put(ft, v, name, ShowInt(x), dt);
    RestartRestores(ft, base, w, o, config, inMemory);
    SetThenGet(ft, v, name, x, dt);
    StoredFetched(ft, base, v, name, x, dt);
  }

  /** What has just been stored is fetched the same after merging over other settings. */
  lemma StoredFetched(ft: FloatText, base: Values, v: Values, name: nat, x: int, dt: DataType)
    requires Declared(dt, x)
    ensures var w := Put(ft, v, name, ShowInt(x), dt);
            Fetch(Restored(ft, base, w), name, dt) == Fetch(w, name, dt)
  {
    hide ShowInt, ToInt, Narrow, Travelled, TravelledFloats, Put;
    PutStores(ft, v, name, x, dt);
  }

  lemma PutStores(ft: FloatText, v: Values, name: nat, x: int, dt: DataType)
    ensures dt.U8? || dt.I8? ==> name in Put(ft, v, name, ShowInt(x), dt).i8
    ensures dt.U16? || dt.I16? ==> name in Put(ft, v, name, ShowInt(x), dt).i16
    ensures dt.U32? || dt.I32? ==> name in Put(ft, v, name, ShowInt(x), dt).i32
  {
    hide ShowInt, ToInt, Narrow;
  }

  // ---- parameter ids ----

  /** Ten bits of id over six bits of group. */
  function ParmId(id: bv16, group: bv8): bv16 {
    (id << 6) | ((group & 0x3F) as bv16)
  }

  function IdOf(paramId: bv16): bv16 {
    (paramId >> 6) & 0x3FF
  }

  function GroupOf(paramId: bv16): bv8 {
    (paramId & 0x3F) as bv8
  }

  /** Id and group come back exactly when they fit their fields, so parameters that fit never
      share a key. */
  lemma ParmIdExact(id: bv16, group: bv8)
    ensures IdOf(ParmId(id, group)) == id && GroupOf(ParmId(id, group)) == group <==>
            id < 0x400 && group < 0x40
  {
    IdComesBack(id, group);
    GroupComesBack(id, group);
  }

  lemma IdComesBack(id: bv16, group: bv8)
    ensures IdOf(ParmId(id, group)) == id <==> id < 0x400
  {
  }

  lemma GroupComesBack(id: bv16, group: bv8)
    ensures GroupOf(ParmId(id, group)) == group <==> group < 0x40
  {
  }

  /** Every 16-bit key is the key of its two parts. */
  lemma KeyOfParts(key: bv16)
    ensures ParmId(IdOf(key), GroupOf(key)) == key
  {
  }

  /** The loop over one of the integer maps; the other two loops of writing are alike. */
  method WriteInts(file: string, es: seq<Entry<nat, int>>, dt: DataType) returns (r: string)
    ensures r == file + Text(Ints(es, dt))
  {
    hide ShowInt, Decimal, Text;
    r := file;
    TextStarts(Ints(es, dt));
    for n := 0 to |es|
      invariant r == file + Text(Ints(es, dt)[..n])
    {
      var line := Decimal(es[n].key) + "=" + Tag(dt) + ShowInt(es[n].val) + "\n";
      TextGrows(Ints(es, dt), n);
      r := r + line;
    }
    assert Ints(es, dt)[..|es|] == Ints(es, dt);
  }

  method WriteBools(file: string, es: seq<Entry<nat, bool>>) returns (r: string)
    ensures r == file + Text(Bools(es))
  {
    hide ShowBool, Decimal, Text;
    r := file;
    TextStarts(Bools(es));
    for n := 0 to |es|
      invariant r == file + Text(Bools(es)[..n])
    {
      var line := Decimal(es[n].key) + "=" + Tag(BO) + ShowBool(es[n].val) + "\n";
      TextGrows(Bools(es), n);
      r := r + line;
    }
    assert Bools(es)[..|es|] == Bools(es);
  }

  method WriteFloats(ft: FloatText, file: string, es: seq<Entry<nat, Float>>) returns (r: string)
    ensures r == file + Text(Floats(ft, es))
  {
    hide Decimal, Text;
    r := file;
    TextStarts(Floats(ft, es));
    for n := 0 to |es|
      invariant r == file + Text(Floats(ft, es)[..n])
    {
      var line := Decimal(es[n].key) + "=" + Tag(FL) + ft.show(es[n].val) + "\n";
      TextGrows(Floats(ft, es), n);
      r := r + line;
    }
    assert Floats(ft, es)[..|es|] == Floats(ft, es);
  }

  method WriteStrings(file: string, es: seq<Entry<nat, string>>) returns (r: string)
    ensures r == file + Text(Strings(es))
  {
    hide Decimal, Text, Replace, CString;
    r := file;
    TextStarts(Strings(es));
    for n := 0 to |es|
      invariant r == file + Text(Strings(es)[..n])
    {
      var line := Decimal(es[n].key) + "=" + Tag(ST) + Replace(CString(es[n].val), '\n', '~') + "\n";
      TextGrows(Strings(es), n);
      r := r + line;
    }
    assert Strings(es)[..|es|] == Strings(es);
  }

  lemma TextStarts(rs: seq<Record>)
    ensures Text(rs[..0]) == ""
  {
  }

  lemma TextGrows(rs: seq<Record>, n: nat)
    requires n < |rs|
    ensures Text(rs[..n + 1])
         == Text(rs[..n]) + (Decimal(rs[n].key) + "=" + Tag(rs[n].dt) + rs[n].shown + "\n")
  {
    hide Decimal;
    assert rs[..n + 1][..n] == rs[..n];
    assert Text(rs[..n + 1]) == Text(rs[..n]) + (Content(rs[n]) + "\n");
  }

  lemma TouchedKeeps(v: Values, name: nat, dt: DataType)
    requires InBounds(v) && name < 0x1_0000
    ensures InBounds(Touched(v, name, dt))
  {
  }

  lemma DecodeIsBytes(b: Bytes)
    ensures IsBytes(Decode(b))
  {
  }

  // ---- every reachable state ----

  /** What the firmware does to its settings. */
  datatype Action = Set(name: nat, value: string, dt: DataType) | Get(name: nat, dt: DataType) | Load(file: Bytes)

  function Do(ft: FloatText, v: Values, a: Action): Values {
    match a
    case Set(name, value, dt) => Put(ft, v, name % 0x1_0000, value, dt)
    case Get(name, dt) => Touched(v, name % 0x1_0000, dt)
    case Load(file) => ReadText(ft, v, Decode(file))
  }

  function After(ft: FloatText, done: seq<Action>): Values {
    if done == [] then NOTHING else Do(ft, After(ft, done[..|done| - 1]), done[|done| - 1])
  }

  ghost predicate OfBytes(done: seq<Action>) {
    forall i :: 0 <= i < |done| && done[i].Set? ==> IsBytes(done[i].value)
  }

  lemma {:induction false} AlwaysInBounds(ft: FloatText, done: seq<Action>)
    requires OfBytes(done)
    ensures InBounds(After(ft, done))
    decreases |done|
  {
    hide Put, Touched, ReadText, Decode;
    if done != [] {
      var v, a := After(ft, done[..|done| - 1]), done[|done| - 1];
      AlwaysInBounds(ft, done[..|done| - 1]);
      match a
      case Set(name, value, dt) => PutKeeps(ft, v, name % 0x1_0000, value, dt);
      case Get(name, dt) => TouchedKeeps(v, name % 0x1_0000, dt);
      case Load(file) =>
        DecodeIsBytes(file);
        ReadTextKeeps(ft, v, Decode(file));
    }
  }

  /** Whatever was set, asked for and loaded before: saving, damage, restarting and reading
      restores it. */
  lemma ReachableRestored(ft: FloatText, done: seq<Action>, base: Values, o: Order,
                          config: Option<Bytes>, inMemory: Bytes)
    requires PrintsPlainly(ft) && OfBytes(done) && Enumerates(o, After(ft, done))
    requires Recoverable(Encode(Text(FileRecords(ft, o))), config)
    ensures var f := Saved(Encode(Text(FileRecords(ft, o)))).(config := config);
            ReadText(ft, base, Decode(Source(f, inMemory))) == Restored(ft, base, After(ft, done))
  {
    hide Text, FileRecords, Encode, Decode, ReadText, Restored, Source, Recoverable;
    AlwaysInBounds(ft, done);
    RestartRestores(ft, base, After(ft, done), o, config, inMemory);
  }

  class Settings {
    const ft: FloatText
    var i8: map<nat, int>
    var i16: map<nat, int>
    var i32: map<nat, int>
    var bo: map<nat, bool>
    var fl: map<nat, Float>
    var st: map<nat, string>
    var files: Files

    function Current(): Values
      reads this
    {
      Values(i8, i16, i32, bo, fl, st)
    }

    ghost predicate Valid()
      reads this
    {
      InBounds(Current()) && PrintsPlainly(ft)
    }

    /** A restart: nothing in memory, the files as they are. */
    constructor (ft: FloatText, files: Files)
      ensures Current() == NOTHING && this.files == files && this.ft == ft
      ensures PrintsPlainly(ft) ==> Valid()
    {
      this.ft := ft;
      this.files := files;
      i8, i16, i32, bo, fl, st := map[], map[], map[], map[], map[], map[];
    }

    method SetString(name: nat, value: string, dt: DataType)
      modifies this`i8, this`i16, this`i32, this`bo, this`fl, this`st
      ensures Current() == Put(ft, old(Current()), name % 0x1_0000, value, dt)
      ensures old(Valid()) && IsBytes(value) ==> Valid()
    {
      hide ToInt, Narrow, CString, InBounds, PrintsPlainly;
      ghost var v := Current();
      var key := name % 0x1_0000;
      match dt {
        case U8 | I8 => i8 := i8[key := Narrow(ToInt(value), 0x100)];
        case U16 | I16 => i16 := i16[key := Narrow(ToInt(value), 0x1_0000)];
        case U32 | I32 => i32 := i32[key := Narrow(ToInt(value), 0x1_0000_0000)];
        case FL => fl := fl[key := ft.parse(value)];
        case ST => st := st[key := CString(value)];
        case BO => bo := bo[key := ToInt(value) != 0];
      }
      if InBounds(v) && IsBytes(value) { PutKeeps(ft, v, key, value, dt); }
    }

    method GetInt(name: nat, dt: DataType) returns (r: int)
      modifies this`i8, this`i16, this`i32
      ensures r == Fetch(old(Current()), name % 0x1_0000, dt)
      ensures Current() == Touched(old(Current()), name % 0x1_0000, dt)
      ensures old(Valid()) ==> Valid()
    {
      hide InBounds, PrintsPlainly;
      ghost var v := Current();
      var key := name % 0x1_0000;
      Touch(key, dt);
      if InBounds(v) { TouchedKeeps(v, key, dt); }
      match dt {
        case U8 => r := i8[key] % 0x100;
        case I8 => r := i8[key];
        case U16 => r := i16[key] % 0x1_0000;
        case I16 => r := i16[key];
        case U32 | I32 => r := i32[key];
        case FL | ST | BO => r := 0;
      }
    }

    /** Subscripting a map creates the entry. */
    method Touch(key: nat, dt: DataType)
      modifies this`i8, this`i16, this`i32
      ensures Current() == Touched(old(Current()), key, dt)
    {
      match dt {
        case U8 | I8 => i8 := Subscripted(i8, key);
        case U16 | I16 => i16 := Subscripted(i16, key);
        case U32 | I32 => i32 := Subscripted(i32, key);
        case FL | ST | BO =>
      }
    }

    function Subscripted(m: map<nat, int>, key: nat): (r: map<nat, int>)
      ensures r == m[key := At(m, key)]
    {
      if key in m then m else m[key := 0]
    }

    /** Writes the file, remembers its CRC and makes the backup; changes nothing if the file cannot
        be opened. */
    method WriteConfig(o: Order, opens: bool) returns (ok: bool)
      requires Enumerates(o, Current())
      modifies this`files
      ensures ok == opens
      ensures files == if opens then Saved(Encode(Text(FileRecords(ft, o)))) else old(files)
    {
      hide Text, Strings, Ints, Bools, Floats, Enumerates, Chunks, Fold;
      if !opens { return false; }
      var f := WriteStrings("", o.st);
      f := WriteInts(f, o.i8, I8);
      f := WriteInts(f, o.i16, I16);
      f := WriteInts(f, o.i32, I32);
      f := WriteBools(f, o.bo);
      f := WriteFloats(ft, f, o.fl);
      FileText(ft, o);
      files := files.(config := Some(Encode(f)));
      var crc := CalcCrc(files.config.value);
      files := files.(crc := Some(crc));
      var copy, crcBackup := CopyFile(files.config.value);
      files := files.(backup := if crc != crcBackup then None else Some(copy));
      return true;
    }

    /** The dispatch on the type tag of one line. */
    method TakeLine(line: string)
      modifies this`i8, this`i16, this`i32, this`bo, this`fl, this`st
      ensures Current() == ReadLine(ft, old(Current()), line)
    {
      hide Put, ToInt;
      var pos := IndexOf(line, '=') % 0x100;
      var name := ToInt(Substring(line, 0, pos)) % 0x1_0000_0000;
      var tag := CString(Substring(line, pos + 1, pos + 4));
      var value := Replace(CString(Substring(line, pos + 4, |line|)), '~', '\n');
      assert name % 0x1_0000 == ToInt(Substring(line, 0, pos)) % 0x1_0000;
      if tag == "U8_" { SetString(name, value, U8); }
      else if tag == "I8_" { SetString(name, value, I8); }
      else if tag == "U16" { SetString(name, value, U16); }
      else if tag == "I16" { SetString(name, value, I16); }
      else if tag == "U32" { SetString(name, value, U32); }
      else if tag == "I32" { SetString(name, value, I32); }
      else if tag == "FL_" { SetString(name, value, FL); }
      else if tag == "BO_" { SetString(name, value, BO); }
      else if tag == "STR" { SetString(name, value, ST); }
    }

    /** The reading loop, with its guard against a position that does not move. */
    method TakeLines(file: string)
      requires |file| < 0xFFFF_FFFF
      modifies this`i8, this`i16, this`i32, this`bo, this`fl, this`st
      ensures Current() == ReadText(ft, old(Current()), file)
    {
      hide ReadLine, LineEnd, NextLine;
      var pos, posOld := 0, 0xFFFF_FFFF;
      while pos < |file|
        invariant 0 <= pos <= |file|
        invariant posOld == pos || posOld == 0xFFFF_FFFF
        invariant ReadText(ft, Current(), file[pos..]) == ReadText(ft, old(Current()), file)
      {
        var rest := file[pos..];
        TakeLine(rest[..LineEnd(rest)]);
        assert rest[NextLine(rest)..] == file[pos + NextLine(rest)..];
        pos := pos + NextLine(rest);
        if posOld == pos { assert false; break; }
        posOld := pos;
      }
    }

    /** Chooses the file by its CRC, writing it first if there is nothing to read. */
    method ChooseFile(o: Order) returns (file: Bytes)
      requires Enumerates(o, Current())
      modifies this`files
      ensures file == Source(old(files), Encode(Text(FileRecords(ft, o))))
      ensures files == AfterReading(old(files), Encode(Text(FileRecords(ft, o))))
    {
      hide Text, FileRecords, Encode, Chunks, Fold, Enumerates;
      var useBackup := false;
      if files.config.Some? {
        var crc := CalcCrc(files.config.value);
        if files.crc.Some? && files.crc.value != crc {
          if files.backup.Some? {
            useBackup := true;
          } else {
            var _ := WriteConfig(o, true);
          }
        } else {
          var copy, crcBackup := CopyFile(files.config.value);
          files := files.(backup := if crc != crcBackup then None else Some(copy));
        }
      } else if files.backup.Some? {
        useBackup := true;
      } else {
        var _ := WriteConfig(o, true);
      }
      file := if useBackup then files.backup.value else files.config.value;
    }

    /** Reads the chosen file over the settings in memory, if it can be opened. */
    method ReadConfig(o: Order, opens: bool) returns (ok: bool)
      requires Enumerates(o, Current())
      requires |Source(files, Encode(Text(FileRecords(ft, o))))| < 0xFFFF_FFFF
      modifies this
      ensures ok == opens
      ensures Current() == if opens then
                ReadText(ft, old(Current()), Decode(Source(old(files), Encode(Text(FileRecords(ft, o))))))
              else old(Current())
      ensures files == AfterReading(old(files), Encode(Text(FileRecords(ft, o))))
      ensures ReadRight(old(files), files, Encode(Text(FileRecords(ft, o))), opens, ft, old(Current()), Current())
      ensures old(Valid()) ==> Valid()
    {
      hide Source, AfterReading, Text, FileRecords, Encode, Decode, ReadText, Enumerates, InBounds, PrintsPlainly;
      hide ReadRight;
      ghost var before, memory := files, Encode(Text(FileRecords(ft, o)));
      ghost var v := Current();
      var file := ChooseFile(o);
      ReadMeans(before, memory, opens, ft, v);
      if !opens { return false; }
      DecodeIsBytes(file);
      if InBounds(v) { ReadTextKeeps(ft, v, Decode(file)); }
      TakeLines(Decode(file));
      return true;
    }
  }

  const NO_ENTRIES: Order := Order([], [], [], [], [], [])

  lemma NothingListed()
    ensures Enumerates(NO_ENTRIES, NOTHING)
  {
  }

  /** Saves the settings, lets the file suffer, restarts and reads: the new memory holds the old. */
  method SaveAndRestart(s: Settings, o: Order, config: Option<Bytes>) returns (r: Settings)
    requires s.Valid() && Enumerates(o, s.Current()) && |Text(FileRecords(s.ft, o))| < 0xFFFF_FFFF
    requires Recoverable(Encode(Text(FileRecords(s.ft, o))), config)
    modifies s`files
    ensures fresh(r) && r.Valid() && r.Current() == Restored(s.ft, NOTHING, s.Current())
  {
    hide Text, FileRecords, Encode, Decode, ReadText, Restored, Source, Recoverable, Enumerates, InBounds;
    RecoveredFile(Encode(Text(FileRecords(s.ft, o))), config, Encode(Text(FileRecords(s.ft, NO_ENTRIES))));
    var _ := s.WriteConfig(o, true);
    r := new Settings(s.ft, s.files.(config := config));
    NothingListed();
    RestartRestores(s.ft, NOTHING, s.Current(), o, config, Encode(Text(FileRecords(s.ft, NO_ENTRIES))));
    var _ := r.ReadConfig(NO_ENTRIES, true);
  }

  lemma {:induction false} TextAppend(a: seq<Record>, b: seq<Record>)
    ensures Text(a + b) == Text(a) + Text(b)
    decreases |b|
  {
    hide Content;
    if b == [] {
      assert a + b == a;
    } else {
      assert (a + b)[..|a + b| - 1] == a + b[..|b| - 1];
      TextAppend(a, b[..|b| - 1]);
    }
  }

  lemma FileText(ft: FloatText, o: Order)
    ensures "" + Text(Strings(o.st)) + Text(Ints(o.i8, I8)) + Text(Ints(o.i16, I16)) + Text(Ints(o.i32, I32))
            + Text(Bools(o.bo)) + Text(Floats(ft, o.fl)) == Text(FileRecords(ft, o))
  {
    hide Text, Strings, Ints, Bools, Floats;
    var s, a, b, c, d := Strings(o.st), Ints(o.i8, I8), Ints(o.i16, I16), Ints(o.i32, I32), Bools(o.bo);
    TextAppend(s, a);
    TextAppend(s + a, b);
    TextAppend(s + a + b, c);
    TextAppend(s + a + b + c, d);
    TextAppend(s + a + b + c + d, Floats(ft, o.fl));
  }
}
