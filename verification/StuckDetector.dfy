/** The detector for a BMS that keeps delivering the same cell voltages: it compares the CRC16
    of each read with that of the read before. */
module StuckDetector {
  import Crc16

  const CELLS: nat := 24
  const COUNTER_LIMIT: nat := 0xFE
  const CYCLES_PLAUSIBILITY_CHECK: nat := 5

  /** The cell voltages as they lie in memory, low byte first. */
  function Bytes(cells: seq<bv16>): (bytes: seq<bv8>)
    ensures |bytes| == 2 * |cells|
  {
    if cells == [] then []
    else Bytes(cells[..|cells| - 1]) + CellBytes(cells[|cells| - 1])
  }

  function CellBytes(v: bv16): seq<bv8> {
    [(v & 0xFF) as bv8, (v >> 8) as bv8]
  }

  function CellCrc(cells: seq<bv16>): bv16 {
    Crc16.Crc(Bytes(cells))
  }

  lemma {:induction false} BytesAppend(a: seq<bv16>, b: seq<bv16>)
    ensures Bytes(a + b) == Bytes(a) + Bytes(b)
    decreases |b|
  {
    hide CellBytes;
    if b == [] {
      assert a + b == a;
    } else {
      var n := |b| - 1;
      assert (a + b)[..|a + b| - 1] == a + b[..n];
      BytesAppend(a, b[..n]);
    }
  }

  lemma LowDiffers(u: bv16, v: bv16)
    requires u & 0xFF == v & 0xFF && u >> 8 == v >> 8
    ensures u == v
  {
  }

  lemma LowByte(v: bv16)
    ensures ((v & 0xFF) as bv8) as bv16 == v & 0xFF
  {
  }

  lemma HighByte(v: bv16)
    ensures ((v >> 8) as bv8) as bv16 == v >> 8
  {
  }

  lemma CellBytesDiffer(u: bv16, v: bv16)
    requires u != v
    ensures CellBytes(u)[0] != CellBytes(v)[0] || CellBytes(u)[1] != CellBytes(v)[1]
  {
    LowByte(u);
    LowByte(v);
    HighByte(u);
    HighByte(v);
    if u & 0xFF == v & 0xFF && u >> 8 == v >> 8 {
      LowDiffers(u, v);
      assert false;
    }
  }

  /** Two reads that differ in exactly one cell never have the same CRC. */
  lemma OneCellChangeDetected(cells: seq<bv16>, i: nat, v: bv16)
    requires i < |cells| && cells[i] != v
    ensures CellCrc(cells) != CellCrc(cells[i := v])
  {
    hide CellBytes, Bytes, Crc16.Crc;
    var a, b := cells[..i], cells[i + 1..];
    assert cells == a + [cells[i]] + b && cells[i := v] == a + [v] + b;
    var u := cells[i];
    OneCell(u);
    OneCell(v);
    BytesAppend(a + [u], b);
    BytesAppend(a, [u]);
    BytesAppend(a + [v], b);
    BytesAppend(a, [v]);
    CellBytesDiffer(u, v);
    CellBytesAre(u);
    CellBytesAre(v);
    Crc16.TwoByteChangeDetected(Bytes(a), CellBytes(u)[0], CellBytes(u)[1], CellBytes(v)[0], CellBytes(v)[1], Bytes(b));
  }

  lemma OneCell(v: bv16)
    ensures Bytes([v]) == CellBytes(v)
  {
    hide CellBytes;
    assert [v][..0] == [];
  }

  lemma CellBytesAre(v: bv16)
    ensures CellBytes(v) == [CellBytes(v)[0], CellBytes(v)[1]]
  {
  }

  // ---- the detector ----

  type Read = seq<bv16>

  /** How many of the latest reads had the CRC of the read before them; before the first read
      the remembered CRC is zero. */
  function Unchanged(history: seq<Read>): (n: nat)
    ensures n <= |history|
  {
    if history == [] then 0
    else
      var init := history[..|history| - 1];
      if CellCrc(history[|history| - 1]) == LastCrc(init) then Unchanged(init) + 1 else 0
  }

  function LastCrc(history: seq<Read>): bv16 {
    if history == [] then 0 else CellCrc(history[|history| - 1])
  }

  function Min(a: nat, b: nat): nat {
    if a < b then a else b
  }

  class Detector {
    var crc: bv16
    var counter: bv8
    ghost var history: seq<Read>

    /** The counter is the number of unchanged reads, held at 0xFD. */
    ghost predicate Valid()
      reads this
    {
      crc == LastCrc(history) && counter as nat == Min(Unchanged(history), COUNTER_LIMIT - 1)
    }

    constructor ()
      ensures Valid() && history == []
    {
      crc, counter, history := 0, 0, [];
    }

    /** The check after a read of one device's cell voltages. */
    method Check(cells: Read)
      requires Valid() && |cells| == CELLS
      modifies this
      ensures Valid() && history == old(history) + [cells]
    {
      var crcNew := Crc16.ComputeCrc16(Bytes(cells));
      var errorCounter := counter;
      if crcNew == crc {
        errorCounter := errorCounter + 1;
        if errorCounter < 0xFE {
          counter := errorCounter;
        }
      } else {
        if errorCounter != 0 {
          counter := 0;
        }
        crc := crcNew;
      }
      history := history + [cells];
      assert history[..|history| - 1] == old(history);
    }

    /** What the alarm rules ask: has the device been stuck for more than five cycles? */
    predicate Stuck()
      reads this
    {
      counter as nat > CYCLES_PLAUSIBILITY_CHECK
    }

    lemma StuckMeans()
      requires Valid()
      ensures Stuck() <==> Unchanged(history) >= 6
    {
    }
  }

  /** A read in which exactly one cell has changed restarts the count. */
  lemma OneCellChangeResets(history: seq<Read>, i: nat, v: bv16)
    requires history != [] && i < |history[|history| - 1]| && history[|history| - 1][i] != v
    ensures Unchanged(history + [history[|history| - 1][i := v]]) == 0
  {
    hide CellCrc;
    var last := history[|history| - 1];
    OneCellChangeDetected(last, i, v);
    assert (history + [last[i := v]])[..|history|] == history;
  }

  /** After k further reads of the same values the count has grown by k. */
  lemma {:induction false} UnchangedGrows(history: seq<Read>, cells: Read, k: nat)
    requires history != [] && history[|history| - 1] == cells
    ensures Unchanged(history + seq(k, _ => cells)) == Unchanged(history) + k
    decreases k
  {
    hide CellCrc;
    var more := history + seq(k, _ => cells);
    if k == 0 {
      assert more == history;
    } else {
      UnchangedGrows(history, cells, k - 1);
      assert more[..|more| - 1] == history + seq(k - 1, _ => cells);
    }
  }

  /** After a read that differed in one cell, k unchanged reads bring the counter to min(k, 0xFD). */
  lemma CounterAfterChange(history: seq<Read>, i: nat, v: bv16, k: nat)
    requires history != [] && i < |history[|history| - 1]| && history[|history| - 1][i] != v
    ensures var cells := history[|history| - 1][i := v];
      Unchanged(history + [cells] + seq(k, _ => cells)) == k
  {
    var cells := history[|history| - 1][i := v];
    OneCellChangeResets(history, i, v);
    UnchangedGrows(history + [cells], cells, k);
  }
}
