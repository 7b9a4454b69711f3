/** A group of 32 buckets stored as a bitmap of the full ones, a bitmap of the erased
    ones and a dense array that holds the full buckets' values in position order. */
module SparseGroups {
  import opened Words
  import opened Slots

  const GROUP_SIZE: nat := 32

  /** How many cells are allocated for n values: generous while the group is small. */
  function Sizing(n: nat): nat {
    if n == 0 then 0
    else if n <= 4 then 4
    else if n <= 8 then 8
    else n + n % 2
  }

  /** The sizes one by one, for no value up to a full group. */
  lemma SizingMeans(n: nat)
    requires n <= GROUP_SIZE
    ensures Sizing(n) == [0, 4, 4, 4, 4, 8, 8, 8, 8, 10, 10, 12, 12, 14, 14, 16, 16,
                          18, 18, 20, 20, 22, 22, 24, 24, 26, 26, 28, 28, 30, 30, 32, 32][n]
  {
  }

  /** The table the code keeps these sizes in, filled batch by batch: steps of four in the first
      quarter, of two in the others. */
  method SizingTable() returns (data: array<nat>)
    ensures fresh(data) && data.Length == GROUP_SIZE
    ensures forall n :: 0 < n <= GROUP_SIZE ==> data[n - 1] == Sizing(n)
  {
    data := new nat[GROUP_SIZE];
    var groupSz, groupStartAlloc := GROUP_SIZE / 4, GROUP_SIZE / 8;
    var allocSz := groupStartAlloc;
    for i := 0 to 4
      invariant groupStartAlloc == if i == 0 then 4 else 2
      invariant allocSz == if i == 0 then 4 else 8 * i + 2
      invariant forall n :: 0 < n <= 8 * i ==> data[n - 1] == Sizing(n)
    {
      ghost var first := allocSz;
      for j := 0 to groupSz
        invariant allocSz == first + if j == 0 then 0 else (j - 1) / groupStartAlloc * groupStartAlloc
        invariant forall n :: 0 < n <= 8 * i + j ==> data[n - 1] == Sizing(n)
      {
        if j != 0 && j % groupStartAlloc == 0 { allocSz := allocSz + groupStartAlloc; }
        data[i * groupSz + j] := allocSz;
      }
      if groupStartAlloc > 2 { groupStartAlloc := groupStartAlloc / 2; }
      allocSz := allocSz + groupStartAlloc;
    }
  }

  /** The bucket at position i, read off the two bitmaps and the dense array. */
  ghost function SlotAt<T>(bm: nat, erased: nat, items: seq<T>, i: nat): Slot<T>
    requires |items| == PopCount(bm)
  {
    if Bit(bm, i) then
      SelectRank(bm, i);
      Full(items[Rank(bm, i)])
    else if Bit(erased, i) then Tombstone
    else Empty
  }

  /** The 32 buckets a group stands for. */
  ghost function Scatter<T>(bm: nat, erased: nat, items: seq<T>): (s: seq<Slot<T>>)
    requires |items| == PopCount(bm)
    ensures |s| == GROUP_SIZE
    ensures forall i :: 0 <= i < GROUP_SIZE ==> s[i] == SlotAt(bm, erased, items, i)
  {
    seq(GROUP_SIZE, i requires 0 <= i < GROUP_SIZE => SlotAt(bm, erased, items, i))
  }

  ghost predicate Disjoint(bm: nat, erased: nat) {
    forall i :: 0 <= i < GROUP_SIZE ==> !(Bit(bm, i) && Bit(erased, i))
  }

  lemma PopCountSet(bm: nat, i: nat)
    requires bm < Pow2(GROUP_SIZE) && i < GROUP_SIZE
    ensures SetBit(bm, i) < Pow2(GROUP_SIZE)
    ensures PopCount(SetBit(bm, i)) == PopCount(bm) + if Bit(bm, i) then 0 else 1
  {
    BitsFit(bm, i, GROUP_SIZE);
    SetBitBits(bm, i, GROUP_SIZE);
    RankAll(bm, GROUP_SIZE);
    RankAll(SetBit(bm, i), GROUP_SIZE);
  }

  lemma PopCountClear(bm: nat, i: nat)
    requires bm < Pow2(GROUP_SIZE) && i < GROUP_SIZE
    ensures ClearBit(bm, i) < Pow2(GROUP_SIZE)
    ensures PopCount(ClearBit(bm, i)) == PopCount(bm) - if Bit(bm, i) then 1 else 0
  {
    BitsFit(bm, i, GROUP_SIZE);
    ClearBitBits(bm, i, GROUP_SIZE);
    RankAll(bm, GROUP_SIZE);
    RankAll(ClearBit(bm, i), GROUP_SIZE);
  }

  /** Inserting at the rank of a clear position fills that bucket and no other. */
  lemma ScatterInsert<T>(bm: nat, erased: nat, items: seq<T>, i: nat, val: T)
    requires bm < Pow2(GROUP_SIZE) && |items| == PopCount(bm) && i < GROUP_SIZE && !Bit(bm, i)
    ensures Rank(bm, i) <= |items| && PopCount(SetBit(bm, i)) == |items| + 1
    ensures Scatter(SetBit(bm, i), ClearBit(erased, i), items[..Rank(bm, i)] + [val] + items[Rank(bm, i)..])
            == Scatter(bm, erased, items)[i := Full(val)]
  {
    hide SetBit, ClearBit, Pow2, PopCount, Bit, Rank;
    PopCountSet(bm, i);
    RankAll(bm, GROUP_SIZE);
    RankGrows(bm, i, GROUP_SIZE);
    var r := Rank(bm, i);
    var items' := items[..r] + [val] + items[r..];
    forall j | 0 <= j < GROUP_SIZE
      ensures SlotAt(SetBit(bm, i), ClearBit(erased, i), items', j)
              == Scatter(bm, erased, items)[i := Full(val)][j]
    {
      SetBitBits(bm, i, j);
      ClearBitBits(erased, i, j);
      if Bit(bm, j) {
        SelectRank(bm, j);
        if j < i { RankGrows(bm, j, i); } else { RankGrows(bm, i, j); }
      }
    }
  }

  /** Overwriting at the rank of a set position changes that bucket and no other. */
  lemma ScatterUpdate<T>(bm: nat, erased: nat, items: seq<T>, i: nat, val: T)
    requires |items| == PopCount(bm) && i < GROUP_SIZE && Bit(bm, i)
    ensures Rank(bm, i) < |items|
    ensures Scatter(bm, ClearBit(erased, i), items[Rank(bm, i) := val])
            == Scatter(bm, erased, items)[i := Full(val)]
  {
    hide ClearBit, PopCount, Bit, Rank;
    SelectRank(bm, i);
    var items' := items[Rank(bm, i) := val];
    forall j | 0 <= j < GROUP_SIZE
      ensures SlotAt(bm, ClearBit(erased, i), items', j) == Scatter(bm, erased, items)[i := Full(val)][j]
    {
      ClearBitBits(erased, i, j);
      if Bit(bm, j) {
        SelectRank(bm, j);
        if j < i { RankGrows(bm, j, i); } else { RankGrows(bm, i, j); }
      }
    }
  }

  /** Removing at the rank of a set position leaves a tombstone there and changes no other bucket. */
  lemma ScatterErase<T>(bm: nat, erased: nat, items: seq<T>, i: nat)
    requires bm < Pow2(GROUP_SIZE) && |items| == PopCount(bm) && i < GROUP_SIZE && Bit(bm, i)
    ensures Rank(bm, i) < |items| && PopCount(ClearBit(bm, i)) == |items| - 1
    ensures Scatter(ClearBit(bm, i), SetBit(erased, i), items[..Rank(bm, i)] + items[Rank(bm, i) + 1..])
            == Scatter(bm, erased, items)[i := Tombstone]
  {
    hide SetBit, ClearBit, Pow2, PopCount, Bit, Rank;
    PopCountClear(bm, i);
    SelectRank(bm, i);
    var r := Rank(bm, i);
    var items' := items[..r] + items[r + 1..];
    forall j | 0 <= j < GROUP_SIZE
      ensures SlotAt(ClearBit(bm, i), SetBit(erased, i), items', j)
              == Scatter(bm, erased, items)[i := Tombstone][j]
    {
      ClearBitBits(bm, i, j);
      SetBitBits(erased, i, j);
      if Bit(bm, j) {
        SelectRank(bm, j);
        if j < i { RankGrows(bm, j, i); } else { RankGrows(bm, i, j); }
      }
    }
  }

  lemma NoBits()
    ensures forall i: nat :: !Bit(0, i)
  {
    forall i: nat ensures !Bit(0, i) { ZeroBits(i); }
  }

  lemma {:induction false} OrBits(x: nat, y: nat, i: nat)
    ensures Bit(Or(x, y), i) == (Bit(x, i) || Bit(y, i))
  {
    if x == 0 {
      ZeroBits(i);
    } else if i > 0 {
      OrBits(x / 2, y / 2, i - 1);
    }
  }

  /** A group with an unfilled bucket has fewer than 32 values. */
  lemma RoomLeft(bm: nat, i: nat)
    requires bm < Pow2(GROUP_SIZE) && i < GROUP_SIZE && !Bit(bm, i)
    ensures PopCount(bm) < GROUP_SIZE
  {
    PopCountSet(bm, i);
    CountFits(SetBit(bm, i), GROUP_SIZE);
  }

  lemma {:induction false} CountFits(b: nat, width: nat)
    requires b < Pow2(width)
    ensures PopCount(b) <= width
  {
    if b > 0 { CountFits(b / 2, width - 1); }
  }

  /** Clearing the only bit of a bitmap leaves nothing. */
  lemma LastBit(bm: nat, pos: nat)
    requires bm < Pow2(GROUP_SIZE) && PopCount(bm) == 1 && pos < GROUP_SIZE && Bit(bm, pos)
    ensures ClearBit(bm, pos) == 0
  {
    PopCountClear(bm, pos);
    CountZero(ClearBit(bm, pos));
  }

  lemma {:induction false} CountZero(b: nat)
    requires PopCount(b) == 0
    ensures b == 0
  {
    if b > 0 { CountZero(b / 2); }
  }

  /** The dense array holds the values of the full buckets in bucket order. */
  lemma {:induction false} ScatterValues<T>(bm: nat, erased: nat, items: seq<T>, p: nat)
    requires bm < Pow2(GROUP_SIZE) && |items| == PopCount(bm) && p <= GROUP_SIZE
    ensures Rank(bm, p) <= |items|
    ensures Values(Scatter(bm, erased, items)[..p]) == items[..Rank(bm, p)]
  {
    hide Pow2, PopCount;
    var s := Scatter(bm, erased, items);
    RankAll(bm, GROUP_SIZE);
    RankGrows(bm, p, GROUP_SIZE);
    if p > 0 {
      ScatterValues(bm, erased, items, p - 1);
      RankNext(bm, p - 1);
      assert s[..p][..p - 1] == s[..p - 1];
      hide Bit, Rank;
      if Bit(bm, p - 1) { SelectRank(bm, p - 1); }
    }
  }

  lemma DisjointAfter(bm: nat, erased: nat, i: nat)
    requires Disjoint(bm, erased) && i < GROUP_SIZE
    ensures Disjoint(SetBit(bm, i), ClearBit(erased, i))
    ensures Disjoint(bm, ClearBit(erased, i))
    ensures Disjoint(ClearBit(bm, i), SetBit(erased, i))
  {
    forall j | 0 <= j < GROUP_SIZE
      ensures !(Bit(SetBit(bm, i), j) && Bit(ClearBit(erased, i), j))
      ensures !(Bit(bm, j) && Bit(ClearBit(erased, i), j))
      ensures !(Bit(ClearBit(bm, i), j) && Bit(SetBit(erased, i), j))
    {
      SetBitBits(bm, i, j);
      SetBitBits(erased, i, j);
      ClearBitBits(bm, i, j);
      ClearBitBits(erased, i, j);
    }
  }

  class SparseGroup<T(0)> {
    var group: array?<T>   // the values of the full buckets, in position order
    var bitmap: nat        // ones where a bucket is full
    var bmErased: nat      // ones where a value has been erased
    var numBuckets: nat    // how many cells of group are in use
    var numAllocated: nat  // how many cells group has

    ghost predicate Valid()
      reads this, group
    {
      && bitmap < Pow2(GROUP_SIZE)
      && Disjoint(bitmap, bmErased)
      && numBuckets == PopCount(bitmap) <= numAllocated == Sizing(numBuckets)
      && (group == null <==> numBuckets == 0)
      && (group != null ==> group.Length == numAllocated)
    }

    ghost function Repr(): set<object>
      reads this
    {
      if group == null then {this} else {this, group}
    }

    ghost function Items(): (items: seq<T>)
      requires Valid()
      reads this, group
      ensures |items| == PopCount(bitmap)
    {
      if group == null then [] else group[..numBuckets]
    }

    /** The 32 buckets this group stands for. */
    ghost function Buckets(): (s: seq<Slot<T>>)
      requires Valid()
      reads this, group
      ensures |s| == GROUP_SIZE
    {
      Scatter(bitmap, bmErased, Items())
    }

    constructor ()
      ensures Valid() && fresh(this) && group == null
      ensures forall i :: 0 <= i < GROUP_SIZE ==> Buckets()[i] == Empty
    {
      group, bitmap, bmErased, numBuckets, numAllocated := null, 0, 0, 0, 0;
      new;
      NoBits();
    }

    /** The bucket's offset in the dense array: the full buckets below it, counted in the masked bitmap. */
    function PosToOffset(pos: nat): (offset: nat)
      requires pos < GROUP_SIZE
      reads this
      ensures offset == Rank(bitmap, pos)
    {
      MaskedCountIsRank(bitmap, pos);
      PopCount(And(bitmap, Pow2(pos) - 1))
    }

    /** The position of the bucket at a given offset: strips the lowest set bits, then counts the zeros below. */
    method OffsetToPos(offset: nat) returns (pos: nat)
      requires Valid() && offset < numBuckets
      ensures pos < GROUP_SIZE && pos == Select(bitmap, offset)
      ensures Buckets()[pos] == Full(Items()[offset]) && PosToOffset(pos) == offset
    {
      var bm: nat, left: nat := bitmap, offset;
      while left > 0
        invariant left <= offset && bm < Pow2(GROUP_SIZE)
        invariant PopCount(bm) == PopCount(bitmap) - (offset - left)
        invariant Select(bm, left) == Select(bitmap, offset)
      {
        assert bm > 0;
        DropLowest(bm, left - 1);
        bm := WithoutLowest(bm);
        left := left - 1;
      }
      IsolateLowest(bm, GROUP_SIZE);
      pos := PopCount(And(bm, Negate(bm, GROUP_SIZE)) - 1);
      SelectFits(bitmap, offset, GROUP_SIZE);
      RankSelect(bitmap, offset);
    }

    predicate IsFull(i: nat)
      requires i < GROUP_SIZE
      reads this
    {
      Test(bitmap, i)
    }

    predicate IsFullOrErased(i: nat)
      requires i < GROUP_SIZE
      reads this
    {
      Test(Or(bitmap, bmErased), i)
    }

    /** The tests on the bitmaps say what the bucket is, and the offset leads to its value. */
    lemma Lookup(i: nat)
      requires Valid() && i < GROUP_SIZE
      ensures IsFull(i) <==> Buckets()[i].Full?
      ensures IsFullOrErased(i) <==> !Buckets()[i].Empty?
      ensures IsFull(i) ==> PosToOffset(i) < numBuckets && group != null
                            && Buckets()[i] == Full(group[PosToOffset(i)])
    {
      TestIsBit(bitmap, i);
      TestIsBit(Or(bitmap, bmErased), i);
      OrBits(bitmap, bmErased, i);
      if Bit(bitmap, i) { SelectRank(bitmap, i); }
    }

    lemma ItemsAreValues()
      requires Valid()
      ensures Items() == Values(Buckets())
    {
      ScatterValues(bitmap, bmErased, Items(), GROUP_SIZE);
      RankAll(bitmap, GROUP_SIZE);
      assert Buckets()[..GROUP_SIZE] == Buckets();
    }

    /** The value of a bucket that is known to be full. */
    method UnsafeGet(i: nat) returns (val: T)
      requires Valid() && i < GROUP_SIZE && Buckets()[i].Full?
      ensures Buckets()[i] == Full(val)
    {
      Lookup(i);
      val := group[PosToOffset(i)];
    }

    /** Frees the values; the erased marks go too if asked. */
    method Clear(erased: bool)
      requires Valid()
      modifies this
      ensures Valid() && group == null && bitmap == 0 && bmErased == if erased then 0 else old(bmErased)
      ensures forall i :: 0 <= i < GROUP_SIZE ==>
                Buckets()[i] == if !erased && old(Buckets()[i]).Tombstone? then Tombstone else Empty
    {
      group := null;
      bitmap := 0;
      if erased {
        bmErased := 0;
      }
      numBuckets, numAllocated := 0, 0;
      NoBits();
    }

    /** Opens a cell at the offset, growing the array when its cells are used up, and stores val there. */
    method SetAux(offset: nat, val: T)
      requires Valid() && offset <= numBuckets < GROUP_SIZE
      modifies this, group
      ensures unchanged(`bitmap) && unchanged(`bmErased) && unchanged(`numBuckets)
      ensures group != null && (group == old(group) || fresh(group))
      ensures group.Length == numAllocated == Sizing(numBuckets + 1)
      ensures group[..numBuckets + 1] == old(Items()[..offset]) + [val] + old(Items()[offset..])
    {
      hide Bit, PopCount, Pow2, Disjoint, Scatter;
      ghost var items := Items();
      var numAlloc := Sizing(numBuckets);
      if numBuckets == numAlloc {
        numAlloc := Sizing(numBuckets + 1);
        group := Reallocate(group, numAlloc);
        numAllocated := numAlloc;
      }
      assert group[..numBuckets] == items;
      ShiftUp(group, offset, numBuckets);
      group[offset] := val;
      assert group[..numBuckets + 1] == items[..offset] + [val] + items[offset..];
    }

    /** Stores val in bucket i, whatever it held. */
    method Set(i: nat, val: T)
      requires Valid() && i < GROUP_SIZE
      modifies this, group
      ensures Valid() && fresh(Repr() - old(Repr()))
      ensures Buckets() == old(Buckets())[i := Full(val)]
      ensures numBuckets == old(numBuckets) + if old(Buckets()[i]).Full? then 0 else 1
    {
      hide Bit, PopCount, Pow2, Scatter;
      ghost var bm, erased, items := bitmap, bmErased, Items();
      TestIsBit(bitmap, i);
      DisjointAfter(bm, erased, i);
      bmErased := ClearBit(bmErased, i);
      var offset := PosToOffset(i);
      if !Test(bitmap, i) {
        ScatterInsert(bm, erased, items, i, val);
        RoomLeft(bm, i);
        SetAux(offset, val);
        numBuckets := numBuckets + 1;
        bitmap := SetBit(bitmap, i);
        PopCountSet(bm, i);
      } else {
        ScatterUpdate(bm, erased, items, i, val);
        group[offset] := val;
        assert Items() == items[offset := val];
      }
    }

    /** Closes the cell at the offset, giving back cells when fewer are needed. */
    method GroupErase(offset: nat)
      requires Valid() && offset < numBuckets
      modifies this, group
      ensures unchanged(`bitmap) && unchanged(`bmErased) && unchanged(`numBuckets)
      ensures numAllocated == Sizing(numBuckets - 1) && (group == null <==> numBuckets == 1)
      ensures group != null ==> (group == old(group) || fresh(group)) && group.Length == numAllocated
      ensures group != null ==> group[..numBuckets - 1] == old(Items()[..offset]) + old(Items()[offset + 1..])
    {
      hide Bit, PopCount, Pow2;
      ghost var items := Items();
      if numBuckets == 1 {
        group, numAllocated := null, 0;
        return;
      }
      ShiftDown(group, offset, numBuckets);
      ghost var kept := group[..numBuckets - 1];
      assert kept == items[..offset] + items[offset + 1..];
      if Sizing(numBuckets - 1) != numAllocated {
        numAllocated := Sizing(numBuckets - 1);
        group := Reallocate(group, numAllocated);
        assert group[..numBuckets - 1] == kept;
      }
    }

    /** Takes the value out of bucket i and remembers that it was erased; an unfilled bucket stays as it is. */
    method Erase(i: nat)
      requires Valid() && i < GROUP_SIZE
      modifies this, group
      ensures Valid() && fresh(Repr() - old(Repr()))
      ensures Buckets() == if old(Buckets()[i]).Full? then old(Buckets())[i := Tombstone] else old(Buckets())
      ensures numBuckets == old(numBuckets) - if old(Buckets()[i]).Full? then 1 else 0
    {
      TestIsBit(bitmap, i);
      if Test(bitmap, i) {
        Lookup(i);
        RemoveAt(PosToOffset(i), i);
      }
    }

    /** Erases the value at an offset of the dense array, as an iterator does; returns its position. */
    method EraseAt(offset: nat) returns (ghost pos: nat)
      requires Valid() && offset < numBuckets
      modifies this, group
      ensures Valid() && fresh(Repr() - old(Repr()))
      ensures pos < GROUP_SIZE && old(Buckets()[pos]).Full? && CountFull(old(Buckets())[..pos]) == offset
      ensures Buckets() == old(Buckets())[pos := Tombstone]
      ensures numBuckets == old(numBuckets) - 1
    {
      var p := OffsetToPos(offset);
      pos := p;
      RankSelect(bitmap, offset);
      ScatterValues(bitmap, bmErased, Items(), p);
      RemoveAt(offset, p);
    }

    /** The common part of the two erasures. */
    method RemoveAt(offset: nat, pos: nat)
      requires Valid() && pos < GROUP_SIZE && Bit(bitmap, pos)
      requires offset == Rank(bitmap, pos) < numBuckets
      modifies this, group
      ensures Valid() && fresh(Repr() - old(Repr()))
      ensures Buckets() == old(Buckets())[pos := Tombstone]
      ensures numBuckets == old(numBuckets) - 1
    {
      hide SetBit, ClearBit, Bit, Rank, PopCount, Pow2, Scatter, Disjoint;
      ghost var bm, erased, items := bitmap, bmErased, Items();
      ScatterErase(bm, erased, items, pos);
      DisjointAfter(bm, erased, pos);
      PopCountClear(bm, pos);
      if numBuckets == 1 {
        LastBit(bm, pos);
        assert [] == items[..0] + items[1..];
        Clear(false);
      } else {
        GroupErase(offset);
        numBuckets := numBuckets - 1;
        bitmap := ClearBit(bitmap, pos);
        assert group[..numBuckets] == items[..offset] + items[offset + 1..];
      }
      bmErased := SetBit(bmErased, pos);
    }
  }

  /** Moves the cells from offset up to n one place up. */
  method ShiftUp<T>(a: array<T>, offset: nat, n: nat)
    requires offset <= n < a.Length
    modifies a
    ensures a[..offset] == old(a[..offset])
    ensures a[offset + 1..n + 1] == old(a[offset..n])
  {
    var i := n;
    while i > offset
      invariant offset <= i <= n
      invariant a[..i] == old(a[..i])
      invariant a[i + 1..n + 1] == old(a[i..n])
    {
      ghost var moved := old(a[i..n]);
      a[i] := a[i - 1];
      i := i - 1;
      assert a[i + 1..n + 1] == [old(a[i])] + moved;
      assert old(a[i..n]) == [old(a[i])] + moved;
    }
  }

  /** Moves the cells above offset and below n one place down. */
  method ShiftDown<T>(a: array<T>, offset: nat, n: nat)
    requires offset < n <= a.Length
    modifies a
    ensures a[..offset] == old(a[..offset])
    ensures a[offset..n - 1] == old(a[offset + 1..n])
  {
    var i := offset;
    while i < n - 1
      invariant offset <= i <= n - 1
      invariant a[..offset] == old(a[..offset])
      invariant a[offset..i] == old(a[offset + 1..i + 1])
      invariant a[i..n] == old(a[i..n])
    {
      assert a[i + 1] == a[i..n][1] == old(a[i + 1]);
      ghost var rest := a[i + 1..n];
      assert rest == a[i..n][1..] == old(a[i + 1..n]);
      a[i] := a[i + 1];
      i := i + 1;
      assert a[i..n] == rest;
      assert a[offset..i] == a[offset..i - 1] + [a[i - 1]];
      assert old(a[offset + 1..i + 1]) == old(a[offset + 1..i]) + [old(a[i])];
    }
  }

  /** Resizes a cell array, keeping the cells both sizes have. */
  method Reallocate<T(0)>(a: array?<T>, n: nat) returns (b: array<T>)
    ensures fresh(b) && b.Length == n
    ensures a != null ==> forall k :: 0 <= k < n && k < a.Length ==> b[k] == a[k]
  {
    b := new T[n];
    if a != null {
      var i := 0;
      while i < n && i < a.Length
        invariant 0 <= i <= n && i <= a.Length
        invariant forall k :: 0 <= k < i ==> b[k] == a[k]
      {
        b[i] := a[i];
        i := i + 1;
      }
    }
  }
}
