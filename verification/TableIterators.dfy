/** Iteration over the full buckets of a sparse table: across the groups, and down the
    dense array of each. */
module TableIterators {
  import opened Slots
  import opened SparseGroups
  import opened SparseTables

  /** The values held before group r. */
  ghost function Before<T>(rows: seq<seq<Slot<T>>>, r: nat): seq<T>
    requires IsRows(rows) && r <= |rows|
  {
    Values(Flat(rows, GROUP_SIZE * r))
  }

  lemma BeforeNext<T>(rows: seq<seq<Slot<T>>>, r: nat)
    requires IsRows(rows) && r < |rows|
    ensures Before(rows, r + 1) == Before(rows, r) + Values(rows[r])
  {
    assert Flat(rows, GROUP_SIZE * (r + 1)) == Flat(rows, GROUP_SIZE * r) + rows[r];
    ValuesAppend(Flat(rows, GROUP_SIZE * r), rows[r]);
  }

  lemma BeforeAll<T>(rows: seq<seq<Slot<T>>>, n: nat)
    requires IsRows(rows) && n <= GROUP_SIZE * |rows| && Unused(rows, n)
    ensures Before(rows, |rows|) == Values(Flat(rows, n))
  {
    var all := Flat(rows, GROUP_SIZE * |rows|);
    assert all == Flat(rows, n) + all[n..];
    forall i | 0 <= i < |all[n..]|
      ensures !all[n..][i].Full?
    {
      assert all[n + i] == rows[(n + i) / GROUP_SIZE][(n + i) % GROUP_SIZE];
    }
    ValuesNone(all[n..]);
    ValuesAppend(Flat(rows, n), all[n..]);
  }

  lemma {:induction false} BeforeIsPrefix<T>(rows: seq<seq<Slot<T>>>, r: nat)
    requires IsRows(rows) && r <= |rows|
    ensures Before(rows, r) <= Before(rows, |rows|)
    decreases |rows| - r
  {
    if r < |rows| {
      BeforeNext(rows, r);
      BeforeIsPrefix(rows, r + 1);
    }
  }

  /** Cell c of group r holds the value that follows those before the group and before the cell. */
  lemma CellValue<T>(rows: seq<seq<Slot<T>>>, n: nat, r: nat, c: nat)
    requires IsRows(rows) && n <= GROUP_SIZE * |rows| && Unused(rows, n)
    requires r < |rows| && c < |Values(rows[r])|
    ensures |Before(rows, r)| + c < |Values(Flat(rows, n))|
    ensures Values(Flat(rows, n))[|Before(rows, r)| + c] == Values(rows[r])[c]
  {
    BeforeAll(rows, n);
    BeforeNext(rows, r);
    BeforeIsPrefix(rows, r + 1);
  }

  /** The full buckets before a bucket: those of the earlier groups and those before it in its own. */
  lemma CellInTable<T>(rows: seq<seq<Slot<T>>>, n: nat, r: nat, p: nat, c: nat)
    requires IsRows(rows) && n <= GROUP_SIZE * |rows| && Unused(rows, n)
    requires r < |rows| && IsCell(rows[r], p, c)
    ensures IsCell(Flat(rows, n), GROUP_SIZE * r + p, |Before(rows, r)| + c)
  {
    hide Flat, CountFull, Values, Unused;
    FlatUpTo(rows, n, r, p);
    CountAppend(Flat(rows, GROUP_SIZE * r), rows[r][..p]);
  }

  lemma FlatUpTo<T>(rows: seq<seq<Slot<T>>>, n: nat, r: nat, p: nat)
    requires IsRows(rows) && n <= GROUP_SIZE * |rows| && Unused(rows, n)
    requires r < |rows| && p < GROUP_SIZE && rows[r][p].Full?
    ensures GROUP_SIZE * r + p < n && Flat(rows, n)[GROUP_SIZE * r + p] == rows[r][p]
    ensures Flat(rows, n)[..GROUP_SIZE * r + p] == Flat(rows, GROUP_SIZE * r) + rows[r][..p]
  {
    hide Flat;
  }

  lemma BeforeSame<T>(rows: seq<seq<Slot<T>>>, rows': seq<seq<Slot<T>>>, r: nat)
    requires IsRows(rows) && IsRows(rows') && r <= |rows| == |rows'| && rows[..r] == rows'[..r]
    ensures Before(rows, r) == Before(rows', r)
  {
    forall i | 0 <= i < GROUP_SIZE * r
      ensures Flat(rows, GROUP_SIZE * r)[i] == Flat(rows', GROUP_SIZE * r)[i]
    {
      assert rows[..r][i / GROUP_SIZE] == rows'[..r][i / GROUP_SIZE];
    }
    assert Flat(rows, GROUP_SIZE * r) == Flat(rows', GROUP_SIZE * r);
  }

  /** An iterator over the full buckets of a table that does not change meanwhile. */
  class TwoDIterator<T(0)> {
    const table: SparseTable<T>
    var row: nat  // the current group
    var col: nat  // the current cell of its dense array

    /** The cursor is on the table; col may be one past the group's last cell. */
    ghost predicate OnTable()
      reads this, table, table.Repr
    {
      && table.Shape() && this !in table.Repr
      && row <= table.groups.Length
      && (row < table.groups.Length ==> col <= table.groups[row].numBuckets)
    }

    ghost predicate Valid()
      reads this, table, table.Repr
      ensures Valid() ==> OnTable()
    {
      OnTable() && (row < table.groups.Length ==> col < table.groups[row].numBuckets)
    }

    /** How many values lie before the cursor. */
    ghost function Visited(): nat
      requires OnTable()
      reads this, table, table.Repr
    {
      |Before(table.Rows(), row)| + if row < table.groups.Length then col else 0
    }

    /** The values to be visited, in order. */
    ghost function All(): seq<T>
      requires OnTable()
      reads this, table, table.Repr
    {
      Values(table.Buckets())
    }

    constructor Begin(table: SparseTable<T>)
      requires table.Shape()
      ensures fresh(this) && this.table == table && Valid() && Visited() == 0
    {
      this.table := table;
      row, col := 0, 0;
      new;
      if row < table.groups.Length {
        AdvancePastEnd();
      }
    }

    /** The iterator past the last value. */
    constructor End(table: SparseTable<T>)
      requires table.Shape()
      ensures fresh(this) && this.table == table && Valid() && IsEnd()
    {
      this.table := table;
      row, col := table.groups.Length, 0;
    }

    /** The iterator to bucket i. */
    constructor At(table: SparseTable<T>, i: nat)
      requires table.Shape() && i < table.tableSize && table.Buckets()[i].Full?
      ensures fresh(this) && this.table == table && Valid()
      ensures IsCell(table.Buckets(), i, Visited())
    {
      hide SparseTable.Owned, SparseTable.Rows, Unused, Before, Flat, IsCell, CountFull;
      var g, c := table.GetIter(i);
      this.table := table;
      row, col := g, c;
      new;
      CellInTable(table.Rows(), table.tableSize, g, i % GROUP_SIZE, c);
    }

    /** The bucket the iterator points to. */
    method GetPos() returns (pos: nat)
      requires Valid() && !IsEnd()
      ensures IsCell(table.Buckets(), pos, Visited())
    {
      hide SparseTable.Owned, SparseTable.Rows, Before, Flat, IsCell;
      var p := table.GetPos(row, col);
      pos := GROUP_SIZE * row + p;
      CellInTable(table.Rows(), table.tableSize, row, p, col);
    }

    /** Erases the value under the cursor; the cursor goes to the next one. */
    method Erase() returns (ghost pos: nat)
      requires table.Valid() && Valid() && !IsEnd()
      modifies this, table.Repr
      ensures this !in table.Repr && table.Valid() && fresh(table.Repr - old(table.Repr))
      ensures table.tableSize == old(table.tableSize)
      ensures IsCell(old(table.Buckets()), pos, old(Visited()))
      ensures table.Buckets() == old(table.Buckets())[pos := Tombstone]
      ensures Valid() && Visited() == old(Visited())
    {
      hide SparseTable.Owned, SparseTable.Rows, Unused, Flat, CountFull, Before, IsCell, NumGroups;
      ghost var rows, n := table.Rows(), table.tableSize;
      ghost var p := table.EraseCell(row, col);
      pos := GROUP_SIZE * row + p;
      CellInTable(rows, n, row, p, col);
      BeforeSame(rows, table.Rows(), row);
      AdvancePastEnd();
    }

    /** Moves from the end of a group to the first value of a later one. */
    method AdvancePastEnd()
      requires OnTable() && row < table.groups.Length
      modifies this
      ensures Valid() && Visited() == old(Visited())
    {
      hide SparseTable.Owned, SparseTable.Rows, Unused, Before;
      ghost var rows := table.Rows();
      while col == table.groups[row].numBuckets
        invariant OnTable() && row < table.groups.Length
        invariant Visited() == old(Visited())
        decreases table.groups.Length - row
      {
        BeforeNext(rows, row);
        table.RowValues(row);
        row := row + 1;
        if row < table.groups.Length {
          col := 0;
        } else {
          break;
        }
      }
    }

    predicate IsEnd()
      requires Valid()
      reads this, table, table.Repr
      ensures IsEnd() <==> Visited() == |All()|
      ensures Visited() <= |All()|
    {
      Remaining();
      row == table.groups.Length
    }

    lemma Remaining()
      requires Valid()
      ensures row == table.groups.Length ==> Visited() == |All()|
      ensures row < table.groups.Length ==> Visited() < |All()|
    {
      hide SparseTable.Owned, SparseTable.Rows, Unused, Before, Flat;
      BeforeAll(table.Rows(), table.tableSize);
      if row < table.groups.Length {
        table.RowValues(row);
        CellValue(table.Rows(), table.tableSize, row, col);
      }
    }

    /** The value under the cursor: the next one in bucket order. */
    method Deref() returns (val: T)
      requires Valid() && !IsEnd()
      ensures Visited() < |All()| && val == All()[Visited()]
    {
      hide SparseTable.Owned, SparseTable.Rows, Unused, Before, Flat, CountFull, NumGroups;
      table.RowValues(row);
      CellValue(table.Rows(), table.tableSize, row, col);
      val := table.groups[row].group[col];
    }

    method Next()
      requires Valid() && !IsEnd()
      modifies this
      ensures Valid() && Visited() == old(Visited()) + 1
    {
      hide SparseTable.Owned, SparseTable.Rows, Unused, Before;
      col := col + 1;
      AdvancePastEnd();
    }
  }

  /** The iterator of a rehash: it frees each group as it leaves it, so it can pass only once. */
  class DestructiveIterator<T(0)> {
    const table: SparseTable<T>
    ghost const original: seq<seq<Slot<T>>>  // what the groups held at the start
    var row: nat
    var col: nat

    ghost predicate OnTable()
      reads this, table, table.Repr
    {
      && table.Owned() && this !in table.Repr
      && IsRows(original) && row <= |original| == table.groups.Length
      && table.tableSize <= GROUP_SIZE * |original| && Unused(original, table.tableSize)
      && (forall r :: row <= r < |original| ==> table.Rows()[r] == original[r])
      && (forall r, p :: 0 <= r < row && 0 <= p < GROUP_SIZE ==> table.Rows()[r][p] == Empty)
      && (row < |original| ==> col <= |Values(original[row])|)
    }

    ghost predicate Valid()
      reads this, table, table.Repr
    {
      OnTable() && (row < |original| ==> col < |Values(original[row])|)
    }

    /** How many of the original values lie before the cursor. */
    ghost function Visited(): nat
      requires OnTable()
      reads this, table, table.Repr
    {
      |Before(original, row)| + if row < |original| then col else 0
    }

    /** The values to be visited, in order. */
    ghost function All(): seq<T>
      requires OnTable()
      reads this, table, table.Repr
    {
      Values(Flat(original, table.tableSize))
    }

    constructor Begin(table: SparseTable<T>)
      requires table.Shape()
      modifies table.Repr
      ensures fresh(this) && this.table == table && Valid() && Visited() == 0
      ensures table.Repr == old(table.Repr) && All() == old(Values(table.Buckets()))
    {
      this.table := table;
      original := table.Rows();
      row, col := 0, 0;
      new;
      if row < table.groups.Length {
        AdvancePastEnd();
      }
    }

    /** Moves from the end of a group to the first value of a later one, freeing what it leaves. */
    method AdvancePastEnd()
      requires OnTable() && row < table.groups.Length
      modifies this, table.Repr
      ensures table.Repr == old(table.Repr) && table.tableSize == old(table.tableSize)
      ensures Valid() && Visited() == old(Visited())
    {
      hide SparseTable.Owned, SparseTable.Rows, Unused, Before;
      table.RowValues(row);
      while col == table.groups[row].numBuckets
        invariant OnTable() && row < table.groups.Length
        invariant table.Repr == old(table.Repr) && table.tableSize == old(table.tableSize)
        invariant table.groups[row].numBuckets == |Values(original[row])|
        invariant Visited() == old(Visited())
        decreases |original| - row
      {
        LeaveGroup();
        if row < table.groups.Length {
          table.RowValues(row);
        } else {
          break;
        }
      }
    }

    /** Frees the group whose values have all been visited and goes to the start of the next. */
    method LeaveGroup()
      requires OnTable() && row < table.groups.Length && col == |Values(original[row])|
      modifies this, table.Repr
      ensures table.Repr == old(table.Repr) && table.tableSize == old(table.tableSize)
      ensures OnTable() && row == old(row) + 1 && Visited() == old(Visited())
    {
      hide SparseTable.Owned, SparseTable.Rows, Unused, Before, Flat, CountFull, NumGroups;
      BeforeNext(original, row);
      table.FreeGroup(row);
      row := row + 1;
      if row < table.groups.Length {
        col := 0;
      }
    }

    predicate IsEnd()
      requires Valid()
      reads this, table, table.Repr
      ensures IsEnd() <==> Visited() == |All()|
      ensures Visited() <= |All()|
    {
      Remaining();
      row == table.groups.Length
    }

    lemma Remaining()
      requires Valid()
      ensures row == table.groups.Length ==> Visited() == |All()|
      ensures row < table.groups.Length ==> Visited() < |All()|
    {
      hide SparseTable.Owned, SparseTable.Rows, Before, Flat;
      BeforeAll(original, table.tableSize);
      if row < |original| {
        CellValue(original, table.tableSize, row, col);
      }
    }

    method Deref() returns (val: T)
      requires Valid() && !IsEnd()
      ensures val == All()[Visited()]
    {
      hide SparseTable.Owned, SparseTable.Rows, Before, Flat;
      table.RowValues(row);
      CellValue(original, table.tableSize, row, col);
      val := table.groups[row].group[col];
    }

    method Next()
      requires Valid() && !IsEnd()
      modifies this, table.Repr
      ensures table.Repr == old(table.Repr) && table.tableSize == old(table.tableSize)
      ensures Valid() && Visited() == old(Visited()) + 1 && All() == old(All())
    {
      hide SparseTable.Owned, SparseTable.Rows, Unused, Before;
      col := col + 1;
      AdvancePastEnd();
    }
  }
}
