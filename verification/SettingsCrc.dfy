/** The CRC of the settings file: computed over chunks of at most 64 bytes, carrying the
    register from one chunk to the next. */
module SettingsCrc {
  import opened Crc32

  type Bytes = seq<bv8>

  const BUFFER_SIZE: nat := 64

  function Join(chunks: seq<Bytes>): Bytes {
    if chunks == [] then [] else Join(chunks[..|chunks| - 1]) + chunks[|chunks| - 1]
  }

  /** The register carried over a list of chunks, starting from zero. */
  function Fold(chunks: seq<Bytes>): bv32 {
    if chunks == [] then 0
    else Update(Resume(Fold(chunks[..|chunks| - 1])), chunks[|chunks| - 1])
  }

  /** The pieces in which the buffer delivers a file. */
  function Chunks(file: Bytes): (chunks: seq<Bytes>)
    ensures Join(chunks) == file
    ensures forall k :: 0 <= k < |chunks| ==> 0 < |chunks[k]| <= BUFFER_SIZE
  {
    if file == [] then []
    else
      var cut := (|file| - 1) / BUFFER_SIZE * BUFFER_SIZE;
      var init := Chunks(file[..cut]);
      assert (init + [file[cut..]])[..|init|] == init;
      assert file == file[..cut] + file[cut..];
      init + [file[cut..]]
  }

  method CalcCrc(file: Bytes) returns (crc: bv32)
    ensures crc == Fold(Chunks(file))
  {
    hide Update, Chunks, Fold, Resume;
    FoldNone();
    crc := 0;
    var pos := 0;
    while pos < |file|
      invariant 0 <= pos <= |file| && (pos < |file| ==> pos % BUFFER_SIZE == 0)
      invariant crc == Fold(Chunks(file[..pos]))
    {
      var n := if |file| - pos < BUFFER_SIZE then |file| - pos else BUFFER_SIZE;
      FoldNext(file, pos, n);
      crc := CalcCrc32From(crc, file[pos..pos + n]);
      pos := pos + n;
    }
    assert file[..pos] == file;
  }

  lemma ChunksNext(file: Bytes, pos: nat, n: nat)
    requires pos % BUFFER_SIZE == 0 && 0 < n <= BUFFER_SIZE && pos + n <= |file|
    ensures Chunks(file[..pos + n]) == Chunks(file[..pos]) + [file[pos..pos + n]]
  {
    var part := file[..pos + n];
    assert (|part| - 1) / BUFFER_SIZE * BUFFER_SIZE == pos;
    assert part[..pos] == file[..pos] && part[pos..] == file[pos..pos + n];
  }

  /** Copies a file chunk by chunk; the CRC returned is the one CalcCrc finds for the copy. */
  method CopyFile(source: Bytes) returns (dest: Bytes, crc: bv32)
    ensures dest == source && crc == Fold(Chunks(dest))
  {
    hide Update, Chunks, Fold, Resume;
    FoldNone();
    crc, dest := 0, [];
    var pos := 0;
    while pos < |source|
      invariant 0 <= pos <= |source| && (pos < |source| ==> pos % BUFFER_SIZE == 0)
      invariant dest == source[..pos]
      invariant crc == Fold(Chunks(source[..pos]))
    {
      var n := if |source| - pos < BUFFER_SIZE then |source| - pos else BUFFER_SIZE;
      FoldNext(source, pos, n);
      crc := CalcCrc32From(crc, source[pos..pos + n]);
      dest := dest + source[pos..pos + n];
      pos := pos + n;
    }
    assert source[..pos] == source;
  }

  lemma FoldNone()
    ensures forall file: Bytes :: Fold(Chunks(file[..0])) == 0
  {
  }

  lemma FoldNext(file: Bytes, pos: nat, n: nat)
    requires pos % BUFFER_SIZE == 0 && 0 < n <= BUFFER_SIZE && pos + n <= |file|
    ensures Fold(Chunks(file[..pos + n]))
         == Update(Resume(Fold(Chunks(file[..pos]))), file[pos..pos + n])
  {
    hide Update, Resume, Chunks;
    ChunksNext(file, pos, n);
    FoldOneMore(Chunks(file[..pos]), file[pos..pos + n]);
  }

  lemma FoldOneMore(chunks: seq<Bytes>, c: Bytes)
    ensures Fold(chunks + [c]) == Update(Resume(Fold(chunks)), c)
  {
    assert (chunks + [c])[..|chunks|] == chunks;
  }

  // ---- when carrying the register is sound ----

  /** No chunk before the last one ends with a zero register, which would read as a fresh start. */
  ghost predicate NeverZero(chunks: seq<Bytes>) {
    forall k :: 0 < k < |chunks| ==> Crc(Join(chunks[..k])) != 0
  }

  lemma JoinLast(chunks: seq<Bytes>)
    requires chunks != []
    ensures Crc(Join(chunks)) == Update(Crc(Join(chunks[..|chunks| - 1])), chunks[|chunks| - 1])
  {
    hide Update;
    UpdateAppend(0xFFFFFFFF, Join(chunks[..|chunks| - 1]), chunks[|chunks| - 1]);
  }

  /** Over any split into chunks the carried register is the CRC of the whole, if it never meets zero. */
  lemma {:induction false} FoldIsCrc(chunks: seq<Bytes>)
    requires chunks != [] && NeverZero(chunks)
    ensures Fold(chunks) == Crc(Join(chunks))
    decreases |chunks|
  {
    hide Update;
    var n := |chunks| - 1;
    JoinLast(chunks);
    if n > 0 {
      assert forall k :: 0 < k < n ==> chunks[..n][..k] == chunks[..k];
      FoldIsCrc(chunks[..n]);
    } else {
      assert Join(chunks[..0]) == [];
      assert Update(0xFFFFFFFF, []) == 0xFFFFFFFF by { UpdateNothing(); }
    }
  }

  lemma UpdateNothing()
    ensures Update(0xFFFFFFFF, []) == 0xFFFFFFFF
  {
  }

  /** The condition is exact: the carried register is right after every chunk just when no chunk
      before the last ends in zero. */
  lemma FoldRightIffNeverZero(chunks: seq<Bytes>)
    ensures NeverZero(chunks) <==>
            forall k :: 0 < k <= |chunks| ==> Fold(chunks[..k]) == Crc(Join(chunks[..k]))
  {
    hide Update;
    if NeverZero(chunks) {
      forall k | 0 < k <= |chunks|
        ensures Fold(chunks[..k]) == Crc(Join(chunks[..k]))
      {
        assert forall j :: 0 < j < k ==> chunks[..k][..j] == chunks[..j];
        FoldIsCrc(chunks[..k]);
      }
    } else {
      var k :| 0 < k < |chunks| && Crc(Join(chunks[..k])) == 0;
      var longer := chunks[..k + 1];
      assert longer[..|longer| - 1] == chunks[..k];
      ZeroGoesWrong(longer);
    }
  }

  /** After a zero register the next chunk starts afresh, and that never gives the same result. */
  lemma ZeroGoesWrong(chunks: seq<Bytes>)
    requires |chunks| > 1 && Crc(Join(chunks[..|chunks| - 1])) == 0
    ensures Fold(chunks[..|chunks| - 1]) == 0 ==> Fold(chunks) != Crc(Join(chunks))
  {
    hide Update;
    var n := |chunks| - 1;
    JoinLast(chunks);
    if Fold(chunks[..n]) == 0 && Fold(chunks) == Crc(Join(chunks)) {
      UpdateInjective(0xFFFFFFFF, 0, chunks[n]);
      assert false;
    }
  }

  /** The file CRC is the CRC of the standard's model on files that meet no zero boundary. */
  lemma FileCrc(file: Bytes)
    requires file != [] && NeverZero(Chunks(file))
    ensures Fold(Chunks(file)) == Crc(file)
  {
    FoldIsCrc(Chunks(file));
  }

  /** On such files every change inside four adjacent bytes changes the file CRC. */
  lemma FileChangeDetected(p: Bytes, w: Bytes, v: Bytes, q: Bytes)
    requires |w| == |v| <= 4 && w != v
    requires NeverZero(Chunks(p + w + q)) && NeverZero(Chunks(p + v + q))
    ensures Fold(Chunks(p + w + q)) != Fold(Chunks(p + v + q))
  {
    hide Update;
    FileCrc(p + w + q);
    FileCrc(p + v + q);
    WindowChangeDetected(p, w, v, q);
  }

  // ---- a file that does meet zero ----

  /** Four 0xFF bytes cancel the initial register, and zero bytes keep it at zero. */
  function ZeroStart(): (b: Bytes)
    ensures |b| == BUFFER_SIZE
  {
    [0xFF, 0xFF, 0xFF, 0xFF] + seq(60, _ => 0)
  }

  lemma {:induction false} ZerosKeepZero(n: nat)
    ensures Update(0, seq(n, _ => 0 as bv8)) == 0
  {
    if n > 0 {
      var z := seq(n, _ => 0 as bv8);
      assert z[..n - 1] == seq(n - 1, _ => 0 as bv8);
      ZerosKeepZero(n - 1);
      assert ByteStep(Sum(0, Top(0))) == 0;
    }
  }

  lemma FourOnes()
    ensures Update(0xFFFFFFFF, [0xFF, 0xFF, 0xFF, 0xFF]) == 0
  {
    var ones: Bytes := [0xFF, 0xFF, 0xFF, 0xFF];
    FourBytes(0xFFFFFFFF, 0xFF, 0xFF, 0xFF, 0xFF);
    assert Sum(0xFFFFFFFF, Word(0xFF, 0xFF, 0xFF, 0xFF)) == 0;
    assert ByteStep(0) == 0;
  }

  lemma ZeroStartIsZero()
    ensures Crc(ZeroStart()) == 0
  {
    hide Update, ByteStep;
    UpdateAppend(0xFFFFFFFF, [0xFF, 0xFF, 0xFF, 0xFF], seq(60, _ => 0 as bv8));
    FourOnes();
    ZerosKeepZero(60);
  }

  /** A file of two chunks whose first ends in zero has the CRC of its second chunk alone. */
  lemma ZeroBoundaryIgnored(file: Bytes)
    requires BUFFER_SIZE < |file| <= 2 * BUFFER_SIZE && Crc(file[..BUFFER_SIZE]) == 0
    ensures Fold(Chunks(file)) == Crc(file[BUFFER_SIZE..])
  {
    hide Update, Chunks, Fold;
    FirstChunk(file);
    FoldNext(file, BUFFER_SIZE, |file| - BUFFER_SIZE);
    assert file[..|file|] == file && file[BUFFER_SIZE..|file|] == file[BUFFER_SIZE..];
  }

  /** For every file that starts like this and goes on, the file CRC ignores the first chunk. */
  lemma ZeroStartGoesWrong(rest: Bytes)
    requires 0 < |rest| <= BUFFER_SIZE
    ensures Fold(Chunks(ZeroStart() + rest)) == Crc(rest) != Crc(ZeroStart() + rest)
  {
    hide Update, Chunks, Fold, ZeroStart;
    var file := ZeroStart() + rest;
    ZeroStartIsZero();
    assert file[..BUFFER_SIZE] == ZeroStart() && file[BUFFER_SIZE..] == rest;
    ZeroBoundaryIgnored(file);
    UpdateAppend(0xFFFFFFFF, ZeroStart(), rest);
    if Crc(rest) == Crc(file) {
      UpdateInjective(0xFFFFFFFF, 0, rest);
      assert false;
    }
  }

  lemma FirstChunk(file: Bytes)
    requires |file| >= BUFFER_SIZE
    ensures Fold(Chunks(file[..BUFFER_SIZE])) == Crc(file[..BUFFER_SIZE])
  {
    hide Update, Chunks, Fold;
    FoldNone();
    FoldNext(file, 0, BUFFER_SIZE);
    assert file[0..BUFFER_SIZE] == file[..BUFFER_SIZE];
  }
}
