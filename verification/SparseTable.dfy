/** An array of sparse groups that behaves like one array of buckets, and the two-level
    iterators that visit its full buckets. */
module SparseTables {
  import opened Words
  import opened Slots
  import opened SparseGroups

  /** How many groups hold n buckets. */
  function NumGroups(n: nat): (g: nat)
    ensures n <= GROUP_SIZE * g < n + GROUP_SIZE
  {
    if n == 0 then 0 else (n - 1) / GROUP_SIZE + 1
  }

  /** i & 31 */
  function PosInGroup(i: nat): (pos: nat)
    ensures pos == i % GROUP_SIZE
  {
    MaskIsMod(i, 5);
    assert Pow2(5) == GROUP_SIZE;
    And(i, GROUP_SIZE - 1)
  }

  /** i >> 5 */
  function GroupNum(i: nat): nat {
    i / GROUP_SIZE
  }

  ghost predicate IsRows<T>(rows: seq<seq<Slot<T>>>) {
    forall r :: 0 <= r < |rows| ==> |rows[r]| == GROUP_SIZE
  }

  /** The first n buckets of consecutive groups. */
  ghost function Flat<T>(rows: seq<seq<Slot<T>>>, n: nat): (s: seq<Slot<T>>)
    requires IsRows(rows) && n <= GROUP_SIZE * |rows|
    ensures |s| == n
    ensures forall i :: 0 <= i < n ==> s[i] == rows[i / GROUP_SIZE][i % GROUP_SIZE]
  {
    seq(n, i requires 0 <= i < n => rows[i / GROUP_SIZE][i % GROUP_SIZE])
  }

  /** No bucket is used at or beyond position n. */
  ghost predicate Unused<T>(rows: seq<seq<Slot<T>>>, n: nat)
    requires IsRows(rows)
  {
    forall r, p :: 0 <= r < |rows| && 0 <= p < GROUP_SIZE && GROUP_SIZE * r + p >= n ==> rows[r][p] == Empty
  }

  /** Position p is the full bucket of the row that col full buckets precede. */
  ghost predicate IsCell<T>(row: seq<Slot<T>>, p: nat, col: nat) {
    p < |row| && row[p].Full? && CountFull(row[..p]) == col
  }

  /** A table with a value has a full bucket. */
  lemma NotEmpty<T>(rows: seq<seq<Slot<T>>>, n: nat, r: nat, c: nat)
    requires IsRows(rows) && n <= GROUP_SIZE * |rows| && Unused(rows, n)
    requires r < |rows| && c < |Values(rows[r])|
    ensures CountFull(Flat(rows, n)) > 0
  {
    if forall p :: 0 <= p < GROUP_SIZE ==> !rows[r][p].Full? {
      ValuesNone(rows[r]);
      assert false;
    }
    var p :| 0 <= p < GROUP_SIZE && rows[r][p].Full?;
    assert Flat(rows, n)[GROUP_SIZE * r + p] == rows[r][p];
    ValuesAt(Flat(rows, n), GROUP_SIZE * r + p);
  }

  /** Changing one bucket inside its group changes that bucket of the table and no other. */
  lemma FlatUpdate<T>(rows: seq<seq<Slot<T>>>, n: nat, i: nat, v: Slot<T>)
    requires IsRows(rows) && n <= GROUP_SIZE * |rows| && i < n && Unused(rows, n)
    ensures var g, p := i / GROUP_SIZE, i % GROUP_SIZE;
      var rows' := rows[g := rows[g][p := v]];
      IsRows(rows') && Unused(rows', n) && Flat(rows', n) == Flat(rows, n)[i := v]
  {
  }

  lemma FlatGrow<T>(rows: seq<seq<Slot<T>>>, n: nat, rows': seq<seq<Slot<T>>>, n': nat)
    requires IsRows(rows) && IsRows(rows') && rows <= rows'
    requires n <= n' && |rows| == NumGroups(n) && |rows'| == NumGroups(n') && Unused(rows, n)
    requires forall r, p :: |rows| <= r < |rows'| && 0 <= p < GROUP_SIZE ==> rows'[r][p] == Empty
    ensures Unused(rows', n') && Flat(rows', n') == Flat(rows, n) + seq(n' - n, _ => Empty)
  {
    forall i | n <= i < n'
      ensures Flat(rows', n')[i] == Empty
    {
      var r, p := i / GROUP_SIZE, i % GROUP_SIZE;
      if r < |rows| { assert rows[r][p] == Empty; }
    }
  }

  class SparseTable<T(0)> {
    var groups: array<SparseGroup<T>>
    var tableSize: nat   // how many buckets there are
    var numBuckets: nat  // how many of them are full
    ghost var Repr: set<object>

    /** The groups are distinct and own their storage. */
    ghost predicate Owned()
      reads this, Repr
      ensures Owned() ==> this in Repr && groups in Repr
    {
      && this in Repr && groups in Repr
      && (forall r :: 0 <= r < groups.Length ==>
            groups[r] in Repr &&
            (groups[r].group != null ==> groups[r].group in Repr && groups[r].group as object != groups))
      && (forall q, r :: 0 <= q < r < groups.Length ==>
            groups[q] != groups[r] && (groups[q].group != null ==> groups[q].group != groups[r].group))
      && (forall r :: 0 <= r < groups.Length ==> groups[r].Valid())
    }

    ghost function Rows(): (rows: seq<seq<Slot<T>>>)
      requires Owned()
      reads this, Repr
      ensures |rows| == groups.Length && IsRows(rows)
      ensures forall r :: 0 <= r < groups.Length ==> rows[r] == groups[r].Buckets()
    {
      var n, gs := groups.Length, groups;
      seq(n, r requires 0 <= r < n && Owned() && n == groups.Length reads this, Repr => groups[r].Buckets())
    }

    ghost predicate Shape()
      reads this, Repr
      ensures Shape() ==> this in Repr && groups in Repr
    {
      Owned() && groups.Length == NumGroups(tableSize) && Unused(Rows(), tableSize)
    }

    /** The buckets the table stands for. */
    ghost function Buckets(): (s: seq<Slot<T>>)
      requires Shape()
      reads this, Repr
      ensures |s| == tableSize
    {
      Flat(Rows(), tableSize)
    }

    ghost predicate Valid()
      reads this, Repr
      ensures Valid() ==> Shape() && this in Repr && groups in Repr
    {
      Shape() && numBuckets == CountFull(Buckets())
    }

    constructor (size: nat)
      ensures Valid() && fresh(Repr) && tableSize == size
      ensures forall i :: 0 <= i < size ==> Buckets()[i] == Empty
    {
      hide SparseGroup.Valid, SparseGroup.Buckets, CountFull;
      var n := NumGroups(size);
      var gs := AllocateGroups(n, []);
      groups := gs;
      tableSize, numBuckets := size, 0;
      Repr := {this, gs} + set r | 0 <= r < n :: gs[r];
      new;
      BlankRows();
    }

    lemma BlankRows()
      requires Owned() && groups.Length == NumGroups(tableSize)
      requires forall r, i :: 0 <= r < groups.Length && 0 <= i < GROUP_SIZE ==> groups[r].Buckets()[i] == Empty
      ensures Shape() && CountFull(Buckets()) == 0
      ensures forall i :: 0 <= i < tableSize ==> Buckets()[i] == Empty
    {
      hide SparseTable.Owned, SparseGroup.Buckets, CountFull;
      CountNone(Flat(Rows(), tableSize));
    }

    /** Bucket i's group and position. */
    lemma Locate(i: nat)
      requires Shape() && i < tableSize
      ensures GroupNum(i) < groups.Length && i == GROUP_SIZE * GroupNum(i) + PosInGroup(i)
      ensures Buckets()[i] == groups[GroupNum(i)].Buckets()[PosInGroup(i)]
    {
    }

    /** Group r's dense array lists the values of row r. */
    lemma RowValues(r: nat)
      requires Owned() && r < groups.Length
      ensures groups[r].numBuckets == |Values(Rows()[r])|
      ensures forall k :: 0 <= k < groups[r].numBuckets ==>
                groups[r].group != null && k < groups[r].group.Length && groups[r].group[k] == Values(Rows()[r])[k]
    {
      groups[r].ItemsAreValues();
    }

    /** The offset of a position is the number of full buckets before it in its group. */
    lemma RowOffset(r: nat, p: nat)
      requires Owned() && r < groups.Length && p < GROUP_SIZE
      ensures groups[r].PosToOffset(p) == CountFull(Rows()[r][..p])
      ensures Rows()[r][p].Full? ==> groups[r].PosToOffset(p) < groups[r].numBuckets
    {
      var g := groups[r];
      ScatterValues(g.bitmap, g.bmErased, g.Items(), p);
      g.Lookup(p);
    }

    predicate IsFull(i: nat)
      requires Shape() && i < tableSize
      reads this, Repr
      ensures IsFull(i) <==> Buckets()[i].Full?
    {
      Locate(i);
      groups[GroupNum(i)].Lookup(PosInGroup(i));
      groups[GroupNum(i)].IsFull(PosInGroup(i))
    }

    predicate IsFullOrErased(i: nat)
      requires Shape() && i < tableSize
      reads this, Repr
      ensures IsFullOrErased(i) <==> !Buckets()[i].Empty?
    {
      Locate(i);
      groups[GroupNum(i)].Lookup(PosInGroup(i));
      groups[GroupNum(i)].IsFullOrErased(PosInGroup(i))
    }

    method UnsafeGet(i: nat) returns (val: T)
      requires Shape() && i < tableSize && Buckets()[i].Full?
      ensures Buckets()[i] == Full(val)
    {
      Locate(i);
      val := groups[GroupNum(i)].UnsafeGet(PosInGroup(i));
    }

    /** What changing one bucket inside its group does to the table and to its count. */
    lemma OneBucketChanged(rows: seq<seq<Slot<T>>>, i: nat, v: Slot<T>)
      requires Owned() && groups.Length == NumGroups(tableSize) && i < tableSize
      requires |rows| == groups.Length && IsRows(rows) && Unused(rows, tableSize)
      requires Rows() == rows[GroupNum(i) := rows[GroupNum(i)][PosInGroup(i) := v]]
      ensures Shape() && Buckets() == Flat(rows, tableSize)[i := v]
      ensures CountFull(Buckets()) == CountFull(Flat(rows, tableSize))
              - (if rows[GroupNum(i)][PosInGroup(i)].Full? then 1 else 0) + if v.Full? then 1 else 0
    {
      hide SparseTable.Owned, SparseTable.Rows, Unused, CountFull;
      FlatUpdate(rows, tableSize, i, v);
      CountUpdate(Flat(rows, tableSize), i, v);
    }

    /** Stores val in bucket i, whatever it held. */
    method Set(i: nat, val: T)
      requires Valid() && i < tableSize
      modifies Repr
      ensures Valid() && fresh(Repr - old(Repr)) && tableSize == old(tableSize)
      ensures Buckets() == old(Buckets())[i := Full(val)]
    {
      hide SparseTable.Owned, SparseTable.Rows, Unused, CountFull, Flat;
      ghost var rows := Rows();
      Locate(i);
      var g, p := GroupNum(i), PosInGroup(i);
      SetInGroup(g, p, val);
      OneBucketChanged(rows, i, Full(val));
    }

    /** The group-level part of Set: bucket p of group g is filled, every other one stays. */
    method SetInGroup(g: nat, p: nat, val: T)
      requires Owned() && g < groups.Length && p < GROUP_SIZE
      modifies Repr
      ensures Owned() && fresh(Repr - old(Repr)) && unchanged(`groups) && unchanged(`tableSize)
      ensures Rows() == old(Rows())[g := old(Rows())[g][p := Full(val)]]
      ensures numBuckets == old(numBuckets) + if old(Rows())[g][p].Full? then 0 else 1
    {
      hide SparseGroup.Valid, SparseGroup.Buckets;
      var group := groups[g];
      var oldBuckets := group.numBuckets;
      group.Set(p, val);
      Repr := Repr + group.Repr();
      numBuckets := numBuckets + group.numBuckets - oldBuckets;
      assert Owned();
      assert forall r :: 0 <= r < groups.Length && r != g ==> groups[r].Buckets() == old(groups[r].Buckets());
    }

    /** Erases the value in cell col of group g, the one an iterator points to. */
    method EraseCell(g: nat, col: nat) returns (ghost p: nat)
      requires Valid() && g < groups.Length && col < groups[g].numBuckets
      modifies Repr
      ensures Valid() && fresh(Repr - old(Repr)) && unchanged(`groups) && unchanged(`tableSize)
      ensures p < GROUP_SIZE && IsCell(old(Rows())[g], p, col) && GROUP_SIZE * g + p < tableSize
      ensures Rows() == old(Rows())[g := old(Rows())[g][p := Tombstone]]
      ensures Buckets() == old(Buckets())[GROUP_SIZE * g + p := Tombstone]
      ensures groups[g].numBuckets == old(groups[g].numBuckets) - 1
    {
      hide SparseTable.Owned, SparseTable.Rows, CountFull, Flat;
      ghost var rows := Rows();
      RowValues(g);
      NotEmpty(rows, tableSize, g, col);
      p := EraseCellInGroup(g, col);
      OneBucketChanged(rows, GROUP_SIZE * g + p, Tombstone);
    }

    /** The group-level part of EraseCell. */
    method EraseCellInGroup(g: nat, col: nat) returns (ghost p: nat)
      requires Owned() && g < groups.Length && col < groups[g].numBuckets && numBuckets > 0
      modifies Repr
      ensures Owned() && fresh(Repr - old(Repr)) && unchanged(`groups) && unchanged(`tableSize)
      ensures p < GROUP_SIZE && IsCell(old(Rows())[g], p, col)
      ensures Rows() == old(Rows())[g := old(Rows())[g][p := Tombstone]]
      ensures numBuckets == old(numBuckets) - 1 && groups[g].numBuckets == old(groups[g].numBuckets) - 1
    {
      hide SparseGroup.Valid, SparseGroup.Buckets;
      var group := groups[g];
      p := group.EraseAt(col);
      Repr := Repr + group.Repr();
      numBuckets := numBuckets - 1;
      assert Owned();
      assert forall r :: 0 <= r < groups.Length && r != g ==> groups[r].Buckets() == old(groups[r].Buckets());
    }

    /** The group and cell of full bucket i. */
    method GetIter(i: nat) returns (g: nat, col: nat)
      requires Shape() && i < tableSize && Buckets()[i].Full?
      ensures g == i / GROUP_SIZE < groups.Length && col < groups[g].numBuckets
      ensures IsCell(Rows()[g], i % GROUP_SIZE, col)
    {
      g := GroupNum(i);
      Locate(i);
      col := groups[g].PosToOffset(PosInGroup(i));
      hide SparseTable.Owned, SparseTable.Rows, Unused;
      RowOffset(g, PosInGroup(i));
    }

    /** The position inside its group of a cell. */
    method GetPos(g: nat, col: nat) returns (p: nat)
      requires Shape() && g < groups.Length && col < groups[g].numBuckets
      ensures IsCell(Rows()[g], p, col)
    {
      p := groups[g].OffsetToPos(col);
      RowOffset(g, p);
    }

    /** Stores val in bucket i, which must not be full: the count goes up unconditionally. */
    method Move(i: nat, val: T)
      requires Valid() && i < tableSize && !Buckets()[i].Full?
      modifies Repr
      ensures Valid() && fresh(Repr - old(Repr)) && tableSize == old(tableSize)
      ensures Buckets() == old(Buckets())[i := Full(val)]
    {
      hide SparseTable.Owned, SparseTable.Rows, Unused, CountFull, Flat;
      ghost var rows := Rows();
      Locate(i);
      var g, p := GroupNum(i), PosInGroup(i);
      MoveInGroup(g, p, val);
      OneBucketChanged(rows, i, Full(val));
    }

    /** The group-level part of Move. */
    method MoveInGroup(g: nat, p: nat, val: T)
      requires Owned() && g < groups.Length && p < GROUP_SIZE && !Rows()[g][p].Full?
      modifies Repr
      ensures Owned() && fresh(Repr - old(Repr)) && unchanged(`groups) && unchanged(`tableSize)
      ensures Rows() == old(Rows())[g := old(Rows())[g][p := Full(val)]]
      ensures numBuckets == old(numBuckets) + 1
    {
      hide SparseGroup.Valid, SparseGroup.Buckets;
      var group := groups[g];
      group.Set(p, val);
      Repr := Repr + group.Repr();
      numBuckets := numBuckets + 1;
      assert Owned();
      assert forall r :: 0 <= r < groups.Length && r != g ==> groups[r].Buckets() == old(groups[r].Buckets());
    }

    /** Appends empty buckets until there are newSize of them. */
    method Resize(newSize: nat)
      requires Valid() && tableSize <= newSize
      modifies Repr
      ensures Valid() && fresh(Repr - old(Repr)) && tableSize == newSize
      ensures Buckets() == old(Buckets()) + seq(newSize - old(tableSize), _ => Empty)
    {
      hide SparseTable.Owned, SparseTable.Rows, Unused, CountFull, Flat;
      ghost var rows, size := Rows(), tableSize;
      AddGroups(NumGroups(newSize), newSize);
      FlatGrow(rows, size, Rows(), newSize);
      CountNone(seq(newSize - size, _ => Slot<T>.Empty));
      CountAppend(Flat(rows, size), seq(newSize - size, _ => Slot<T>.Empty));
    }

    /** The group-level part of Resize: more groups, the old ones first. */
    method AddGroups(sz: nat, newSize: nat)
      requires Owned() && groups.Length <= sz
      modifies Repr
      ensures Owned() && fresh(Repr - old(Repr)) && tableSize == newSize && unchanged(`numBuckets)
      ensures groups.Length == sz && old(Rows()) <= Rows()
      ensures forall r, p :: old(groups.Length) <= r < sz && 0 <= p < GROUP_SIZE ==> Rows()[r][p] == Empty
    {
      hide SparseGroup.Valid, SparseGroup.Buckets;
      if sz != groups.Length {
        var first := AllocateGroups(sz, groups[..]);
        Repr := Repr + {first} + set r | groups.Length <= r < sz :: first[r];
        groups := first;
      }
      tableSize := newSize;
      assert Owned();
    }

    /** Frees the storage of group g and forgets what it held. */
    method FreeGroup(g: nat)
      requires Owned() && g < groups.Length
      modifies Repr
      ensures Owned() && Repr == old(Repr) && unchanged(`groups) && unchanged(`tableSize)
      ensures forall r :: 0 <= r < groups.Length && r != g ==> Rows()[r] == old(Rows())[r]
      ensures forall p :: 0 <= p < GROUP_SIZE ==> Rows()[g][p] == Empty
    {
      hide SparseGroup.Valid, SparseGroup.Buckets;
      groups[g].Clear(true);
      assert Owned();
      assert forall r :: 0 <= r < groups.Length && r != g ==> groups[r].Buckets() == old(groups[r].Buckets());
    }

    /** Takes the value out of bucket i, leaving a tombstone; an unfilled bucket stays as it is. */
    method Erase(i: nat)
      requires Valid() && i < tableSize
      modifies Repr
      ensures Valid() && fresh(Repr - old(Repr)) && tableSize == old(tableSize)
      ensures Buckets() == if old(Buckets())[i].Full? then old(Buckets())[i := Tombstone] else old(Buckets())
    {
      hide SparseTable.Owned, SparseTable.Rows, Unused, CountFull, Flat;
      ghost var rows := Rows();
      Locate(i);
      var g, p := GroupNum(i), PosInGroup(i);
      ghost var was: Slot<T> := rows[g][p];
      CountUpdate(Buckets(), i, Tombstone);
      EraseInGroup(g, p);
      OneBucketChanged(rows, i, if was.Full? then Tombstone else was);
    }

    /** The group-level part of Erase. */
    method EraseInGroup(g: nat, p: nat)
      requires Owned() && g < groups.Length && p < GROUP_SIZE
      requires Rows()[g][p].Full? ==> numBuckets > 0
      modifies Repr
      ensures Owned() && fresh(Repr - old(Repr)) && unchanged(`groups) && unchanged(`tableSize)
      ensures var row: seq<Slot<T>> := old(Rows())[g];
              Rows() == old(Rows())[g := row[p := if row[p].Full? then Tombstone else row[p]]]
      ensures numBuckets == old(numBuckets) - if old(Rows())[g][p].Full? then 1 else 0
    {
      hide SparseGroup.Valid, SparseGroup.Buckets;
      var group := groups[g];
      var oldBuckets := group.numBuckets;
      ghost var row := Rows()[g];
      assert row[p := row[p]] == row;
      group.Erase(p);
      Repr := Repr + group.Repr();
      numBuckets := numBuckets + group.numBuckets - oldBuckets;
      assert Owned();
      assert forall r :: 0 <= r < groups.Length && r != g ==> groups[r].Buckets() == old(groups[r].Buckets());
    }
  }

  /** An array of n groups: the given ones, then empty ones. */
  method AllocateGroups<T(0)>(n: nat, keep: seq<SparseGroup<T>>) returns (gs: array<SparseGroup<T>>)
    requires |keep| <= n
    ensures fresh(gs) && gs.Length == n && gs[..|keep|] == keep
    ensures forall r :: |keep| <= r < n ==> fresh(gs[r]) && gs[r].group == null && gs[r].Valid()
    ensures forall r, i :: |keep| <= r < n && 0 <= i < GROUP_SIZE ==> gs[r].Buckets()[i] == Empty
    ensures forall q, r :: |keep| <= q < r < n ==> gs[q] != gs[r]
  {
    hide SparseGroup.Valid, SparseGroup.Buckets;
    var filler := new SparseGroup<T>();
    gs := new SparseGroup<T>[n](i => if 0 <= i < |keep| then keep[i] else filler);
    var r := |keep|;
    while r < n
      invariant |keep| <= r <= n && gs[..|keep|] == keep
      invariant forall q :: |keep| <= q < r ==>
                  fresh(gs[q]) && gs[q].group == null && gs[q].Valid() && gs[q] != filler
      invariant forall q, i :: |keep| <= q < r && 0 <= i < GROUP_SIZE ==> gs[q].Buckets()[i] == Empty
      invariant forall p, q :: |keep| <= p < q < r ==> gs[p] != gs[q]
    {
      var g := new SparseGroup<T>();
      gs[r] := g;
      r := r + 1;
      assert gs[..|keep|] == keep;
    }
  }
}
