/** The hash table behind every settings map: open addressing over a sparse table, with
    tombstones, growing, shrinking and rehashing. */
module SparseHashtables {
  import opened Words
  import opened Slots
  import opened SparseTables
  import opened TableIterators
  import opened Probing
  import opened HashLayout

  const HT_OCCUPANCY_PCT: nat := 50
  const HT_EMPTY_PCT: nat := 20
  const HT_MIN_BUCKETS: nat := 4
  const HT_DEFAULT_STARTING_BUCKETS: nat := 32

  function EnlargeSize(n: nat): nat {
    n * HT_OCCUPANCY_PCT / 100
  }

  function ShrinkSize(n: nat): nat {
    n * HT_EMPTY_PCT / 100
  }

  lemma DoublingIsPow2(n: nat)
    requires IsPow2(n)
    ensures n > 0 && IsPow2(2 * n)
  {
    var k: nat :| n == Pow2(k);
    assert 2 * n == Pow2(k + 1);
  }

  lemma HalvingIsPow2(n: nat)
    requires IsPow2(n) && n > 1
    ensures n % 2 == 0 && IsPow2(n / 2)
  {
    var k: nat :| n == Pow2(k);
    assert k > 0 && n / 2 == Pow2(k - 1);
  }

  /** Powers of two are a factor of two apart at least. */
  lemma {:induction false} Pow2Gap(i: nat, j: nat)
    requires Pow2(i) < Pow2(j)
    ensures 2 * Pow2(i) <= Pow2(j)
  {
    if i > 0 {
      if j > 0 { Pow2Gap(i - 1, j - 1); }
    }
  }

  /** Whether a power of two of buckets, at least the minimum, holds n entries below the occupancy limit. */
  ghost predicate Fits(n: nat, wanted: nat, sz: nat) {
    IsPow2(sz) && HT_MIN_BUCKETS <= sz && wanted <= sz && n < EnlargeSize(sz)
  }

  lemma DefaultIsPow2()
    ensures IsPow2(HT_DEFAULT_STARTING_BUCKETS)
  {
    assert Pow2(5) == 32;
  }

  ghost predicate IsMinFit(n: nat, wanted: nat, sz: nat) {
    Fits(n, wanted, sz) && forall t: nat :: Fits(n, wanted, t) ==> sz <= t
  }

  /** The smallest table that is not too crowded: starts at the minimum and doubles. */
  method MinBuckets(numElts: nat, minBucketsWanted: nat) returns (sz: nat)
    ensures IsMinFit(numElts, minBucketsWanted, sz)
  {
    sz := HT_MIN_BUCKETS;
    assert IsPow2(4) by { assert Pow2(2) == 4; }
    while sz < minBucketsWanted || numElts >= EnlargeSize(sz)
      invariant IsPow2(sz) && HT_MIN_BUCKETS <= sz
      invariant forall t: nat :: Fits(numElts, minBucketsWanted, t) ==> sz <= t
      decreases 2 * numElts + minBucketsWanted + 4 - sz
    {
      DoublingIsPow2(sz);
      forall t: nat | Fits(numElts, minBucketsWanted, t)
        ensures 2 * sz <= t
      {
        var i: nat :| sz == Pow2(i);
        var j: nat :| t == Pow2(j);
        Pow2Gap(i, j);
      }
      sz := sz * 2;
    }
  }

  /** How much of the table is used, and the thresholds that go with its size. */
  ghost predicate Balanced<K, V>(s: Layout<K, V>, numDeleted: nat, enlarge: nat, shrink: nat) {
    && HT_MIN_BUCKETS <= |s|
    && enlarge == EnlargeSize(|s|) && shrink == ShrinkSize(|s|)
    && numDeleted == CountTombstones(s)
    && CountFull(s) + numDeleted <= enlarge
  }

  datatype PosType = PtEmpty | PtErased | PtFull

  /** Bucket i is the first one on the probe path that holds no value. */
  ghost predicate FirstFree<T>(s: seq<Slot<T>>, h: nat, i: nat)
    requires |s| > 0
  {
    exists p: nat :: p < |s| && Probe(h, p, |s|) == i && !s[i].Full?
                     && forall q: nat :: q < p ==> s[Probe(h, q, |s|)].Full?
  }

  lemma FirstFreeReachable<T>(s: seq<Slot<T>>, h: nat, i: nat)
    requires |s| > 0 && FirstFree(s, h, i)
    ensures i < |s| && Reachable(s, h, i)
  {
    var p: nat :| p < |s| && Probe(h, p, |s|) == i && !s[i].Full?
                  && forall q: nat :: q < p ==> s[Probe(h, q, |s|)].Full?;
    assert Passable(s, h, p);
  }

  /** The state of a search after p probes: nothing seen so far is the key or empty, and the
      first tombstone seen, if any, is remembered. */
  ghost predicate Searching<K, V>(s: Layout<K, V>, h: nat, key: K, p: nat, bucknum: nat, t: PosType, idx: nat)
    requires |s| > 0
  {
    && t != PtFull && idx < |s| && bucknum == Probe(h, p, |s|)
    && Passable(s, h, p)
    && (forall q: nat :: q < p ==> !IsKey(s[Probe(h, q, |s|)], key))
    && (t == PtEmpty ==> forall q: nat :: q < p ==> s[Probe(h, q, |s|)].Full?)
    && (t == PtErased ==> s[idx].Tombstone? && FirstFree(s, h, idx))
  }

  lemma SearchStart<K(!new), V>(s: Layout<K, V>, hash: K -> nat, key: K)
    requires Searchable(s, hash)
    ensures And(hash(key), |s| - 1) < |s|
    ensures Searching(s, hash(key), key, 0, And(hash(key), |s| - 1), PtEmpty, And(hash(key), |s| - 1))
  {
    FirstBucket(hash(key), |s|);
  }

  /** Passing a bucket that is neither empty nor the key's: the probe count stays below the bucket count. */
  lemma SearchPass<K(!new), V>(s: Layout<K, V>, hash: K -> nat, key: K, p: nat, bucknum: nat, t: PosType, idx: nat)
    requires Searchable(s, hash) && Searching(s, hash(key), key, p, bucknum, t, idx)
    requires !s[bucknum].Empty? && !IsKey(s[bucknum], key)
    ensures p + 1 < |s| && And(bucknum + (p + 1), |s| - 1) < |s|
    ensures var first := s[bucknum].Tombstone? && t == PtEmpty;
      Searching(s, hash(key), key, p + 1, And(bucknum + (p + 1), |s| - 1),
                if first then PtErased else t, if first then bucknum else idx)
  {
    assert Passable(s, hash(key), p + 1);
    SearchEnds(s, hash(key), p + 1);
    NextBucket(hash(key), p, |s|);
    if s[bucknum].Tombstone? && t == PtEmpty {
      assert FirstFree(s, hash(key), bucknum);
    }
  }

  lemma SearchHit<K(!new), V>(s: Layout<K, V>, hash: K -> nat, key: K, i: nat)
    requires Searchable(s, hash) && i < |s| && IsKey(s[i], key)
    ensures key in MapOf(s) && MapOf(s)[key] == s[i].val.val
  {
    MapOfAt(s, i);
  }

  lemma SearchMiss<K(!new), V>(s: Layout<K, V>, hash: K -> nat, key: K, p: nat, bucknum: nat, t: PosType, idx: nat)
    requires Searchable(s, hash) && Searching(s, hash(key), key, p, bucknum, t, idx)
    requires s[bucknum].Empty?
    ensures key !in MapOf(s)
    ensures FirstFree(s, hash(key), if t == PtEmpty then bucknum else idx)
    ensures t == PtErased ==> s[idx].Tombstone?
  {
    SearchEnds(s, hash(key), p);
    AbsentIfEmpty(s, hash, key, p);
  }

  /** Bucket i is where a key that is not in the table goes. */
  ghost predicate Vacant<K(!new), V>(s: Layout<K, V>, hash: K -> nat, key: K, i: nat, erased: bool) {
    |s| > 0 && i < |s| && FirstFree(s, hash(key), i) && key !in MapOf(s) && (erased <==> s[i].Tombstone?)
  }

  ghost predicate KeyAt<K, V>(s: Layout<K, V>, i: nat, key: K) {
    i < |s| && IsKey(s[i], key)
  }

  /** Shrinking starts at half the table and halves on while that stays too empty. */
  lemma ShrinkStep(n: nat, sz: nat)
    requires IsPow2(sz) && HT_DEFAULT_STARTING_BUCKETS < sz && n < ShrinkSize(sz)
    ensures IsPow2(sz / 2) && HT_DEFAULT_STARTING_BUCKETS <= sz / 2 && 5 * n < 2 * (sz / 2)
  {
    HalvingIsPow2(sz);
    var i: nat :| sz == Pow2(i);
    assert Pow2(5) == 32;
    Pow2Gap(5, i);
  }

  /** The size a table of the given size shrinks to. */
  method ShrinkTarget(numRemain: nat, bucketCount: nat) returns (sz: nat)
    requires IsPow2(bucketCount) && HT_DEFAULT_STARTING_BUCKETS < bucketCount && numRemain < ShrinkSize(bucketCount)
    ensures IsPow2(sz) && HT_DEFAULT_STARTING_BUCKETS <= sz <= bucketCount / 2
    ensures 5 * numRemain < 2 * sz
    ensures sz == HT_DEFAULT_STARTING_BUCKETS || ShrinkSize(sz) <= numRemain
  {
    ShrinkStep(numRemain, bucketCount);
    sz := bucketCount / 2;
    while sz > HT_DEFAULT_STARTING_BUCKETS && numRemain < ShrinkSize(sz)
      invariant IsPow2(sz) && HT_DEFAULT_STARTING_BUCKETS <= sz <= bucketCount / 2 && 5 * numRemain < 2 * sz
    {
      ShrinkStep(numRemain, sz);
      sz := sz / 2;
    }
  }

  /** A table at least this roomy is exactly as large as was wanted. */
  lemma MinFitExact(n: nat, sz: nat, actual: nat)
    requires IsMinFit(n, sz, actual) && IsPow2(sz) && HT_MIN_BUCKETS <= sz && 2 * n < sz
    ensures actual == sz
  {
    FitsHalf(n, sz);
  }

  lemma EnlargeGrows(a: nat, b: nat)
    requires a <= b
    ensures EnlargeSize(a) <= EnlargeSize(b)
  {
  }

  /** Filling the first free bucket of a key's probe path. */
  lemma InsertSound<K(!new), V>(s: Layout<K, V>, hash: K -> nat, i: nat, e: Entry<K, V>,
                                deleted: nat, enlarge: nat, shrink: nat)
    requires Searchable(s, hash) && Balanced(s, deleted, enlarge, shrink)
    requires CountFull(s) + deleted + 1 <= enlarge
    requires FirstFree(s, hash(e.key), i) && e.key !in MapOf(s)
    ensures i < |s| && !s[i].Full?
    ensures Searchable(s[i := Full(e)], hash) && MapOf(s[i := Full(e)]) == MapOf(s)[e.key := e.val]
    ensures s[i].Tombstone? ==> deleted > 0
    ensures Balanced(s[i := Full(e)], if s[i].Tombstone? then deleted - 1 else deleted, enlarge, shrink)
    ensures CountFull(s[i := Full(e)]) == CountFull(s) + 1
  {
    FirstFreeReachable(s, hash(e.key), i);
    CountUpdate(s, i, Full(e));
    InsertKeeps(s, hash, i, e);
  }

  lemma AssignSound<K(!new), V>(s: Layout<K, V>, hash: K -> nat, i: nat, key: K, val: V,
                                deleted: nat, enlarge: nat, shrink: nat)
    requires Searchable(s, hash) && Balanced(s, deleted, enlarge, shrink) && KeyAt(s, i, key)
    ensures i < |s|
    ensures Searchable(s[i := Full(Entry(key, val))], hash)
    ensures MapOf(s[i := Full(Entry(key, val))]) == MapOf(s)[key := val]
    ensures Balanced(s[i := Full(Entry(key, val))], deleted, enlarge, shrink)
  {
    CountUpdate(s, i, Full(Entry(key, val)));
    AssignKeeps(s, hash, i, val);
  }

  /** The map without the key of the k-th entry in bucket order. */
  ghost predicate ErasedKth<K(!new), V>(s: Layout<K, V>, s': Layout<K, V>, k: nat) {
    k < |Values(s)| && Values(s)[k].key in MapOf(s) && MapOf(s') == MapOf(s) - {Values(s)[k].key}
  }

  lemma EraseCellSound<K(!new), V>(s: Layout<K, V>, hash: K -> nat, i: nat, k: nat,
                                   deleted: nat, enlarge: nat, shrink: nat)
    requires Searchable(s, hash) && Balanced(s, deleted, enlarge, shrink) && IsCell(s, i, k)
    ensures i < |s| && ErasedKth(s, s[i := Tombstone], k)
    ensures Searchable(s[i := Tombstone], hash) && Balanced(s[i := Tombstone], deleted + 1, enlarge, shrink)
  {
    ValuesAt(s, i);
    MapOfAt(s, i);
    EraseSound(s, hash, i, deleted, enlarge, shrink);
  }

  lemma EraseSound<K(!new), V>(s: Layout<K, V>, hash: K -> nat, i: nat, deleted: nat, enlarge: nat, shrink: nat)
    requires Searchable(s, hash) && Balanced(s, deleted, enlarge, shrink) && i < |s| && s[i].Full?
    ensures Searchable(s[i := Tombstone], hash) && MapOf(s[i := Tombstone]) == MapOf(s) - {s[i].val.key}
    ensures Balanced(s[i := Tombstone], deleted + 1, enlarge, shrink)
  {
    CountUpdate(s, i, Tombstone);
    EraseKeeps(s, hash, i);
  }

  // ---- rehashing: placing entries without looking for their keys ----

  /** A table under construction: the first done of the entries are in it, nothing else, and of t
      tombstones at most one fewer for each of them; there is room for the rest. */
  ghost predicate Rebuilt<K(!new), V>(s: Layout<K, V>, hash: K -> nat, es: seq<Entry<K, V>>, done: nat, t: nat) {
    && Searchable(s, hash) && CountTombstones(s) <= t && t <= CountTombstones(s) + done
    && DistinctKeys(es) && done <= |es| < EnlargeSize(|s|)
    && CountFull(s) + CountTombstones(s) + (|es| - done) < |s|
    && CountFull(s) == done && MapOf(s) == FromEntries(es[..done])
  }

  ghost predicate OnPath<T>(s: seq<Slot<T>>, h: nat, p: nat, bucknum: nat)
    requires |s| > 0
  {
    bucknum == Probe(h, p, |s|) && Passable(s, h, p)
  }

  lemma PathStart<T>(s: seq<Slot<T>>, h: nat)
    requires IsPow2(|s|) && |s| > 0
    ensures OnPath(s, h, 0, And(h, |s| - 1)) && And(h, |s| - 1) < |s|
  {
    FirstBucket(h, |s|);
  }

  lemma PathStep<T>(s: seq<Slot<T>>, h: nat, p: nat, bucknum: nat)
    requires IsPow2(|s|) && |s| > 0 && CountFull(s) + CountTombstones(s) < |s|
    requires OnPath(s, h, p, bucknum) && !s[bucknum].Empty?
    ensures p + 1 < |s| && And(bucknum + (p + 1), |s| - 1) < |s|
    ensures OnPath(s, h, p + 1, And(bucknum + (p + 1), |s| - 1))
  {
    assert Passable(s, h, p + 1);
    SearchEnds(s, h, p + 1);
    NextBucket(h, p, |s|);
  }

  lemma PathEnd<K(!new), V>(s: Layout<K, V>, hash: K -> nat, es: seq<Entry<K, V>>, done: nat, t: nat,
                                p: nat, bucknum: nat)
    requires Rebuilt(s, hash, es, done, t) && done < |es|
    requires OnPath(s, hash(es[done].key), p, bucknum) && p < |s| && !s[bucknum].Full?
    ensures Rebuilt(s[bucknum := Full(es[done])], hash, es, done + 1, t)
  {
    var e := es[done];
    assert Reachable(s, hash(e.key), bucknum);
    FromEntriesKeys(es[..done], e.key);
    assert es[..done + 1] == es[..done] + [e] && es[..done + 1][..done] == es[..done];
    CountUpdate(s, bucknum, Full(e));
    InsertKeeps(s, hash, bucknum, e);
  }

  lemma RebuiltDone<K(!new), V>(s: Layout<K, V>, hash: K -> nat, es: seq<Entry<K, V>>, t: nat)
    requires Rebuilt(s, hash, es, |es|, t) && HT_MIN_BUCKETS <= |s|
    ensures Searchable(s, hash) && MapOf(s) == FromEntries(es) && CountFull(s) == |es|
    ensures CountTombstones(s) <= t <= CountTombstones(s) + |es|
    ensures Balanced(s, 0, EnlargeSize(|s|), ShrinkSize(|s|)) <==> CountTombstones(s) == 0
  {
    assert es[..|es|] == es;
  }

  /** A table without values: at most half of it tombstones. */
  ghost predicate Hollow<T>(s: seq<Slot<T>>, t: nat) {
    && CountFull(s) == 0 && CountTombstones(s) == t <= EnlargeSize(|s|)
    && (|s| == 0 || (IsPow2(|s|) && HT_MIN_BUCKETS <= |s|))
  }

  /** Emptying goes by the counters: without values and with a zero counter, tombstones stay. */
  ghost function TombstonesLeft<T>(s: seq<Slot<T>>, deleted: nat): nat {
    if CountFull(s) == 0 && deleted == 0 then CountTombstones(s) else 0
  }

  lemma HollowSearchable<K(!new), V>(s: Layout<K, V>, hash: K -> nat, t: nat)
    requires Hollow(s, t) && |s| > 0
    ensures Searchable(s, hash) && MapOf(s) == map[]
  {
    forall i | 0 <= i < |s|
      ensures !s[i].Full?
    {
      if s[i].Full? { ValuesAt(s, i); }
    }
  }

  lemma RebuiltStart<K(!new), V>(s: Layout<K, V>, hash: K -> nat, source: Layout<K, V>, t: nat)
    requires Hollow(s, t) && |s| > 0
    requires Searchable(source, hash) && CountFull(source) < EnlargeSize(|s|)
    ensures Rebuilt(s, hash, Values(source), 0, t) && MapOf(source) == FromEntries(Values(source))
  {
    HollowSearchable(s, hash, t);
    assert Values(source)[..0] == [];
  }

  ghost predicate AllEmpty<T>(s: seq<Slot<T>>) {
    forall i :: 0 <= i < |s| ==> s[i].Empty?
  }

  lemma EmptyHollow<T>(s: seq<Slot<T>>)
    requires IsPow2(|s|) && HT_MIN_BUCKETS <= |s| && AllEmpty(s)
    ensures Hollow(s, 0)
  {
    CountNone(s);
  }

  lemma HollowGrow<T>(s: seq<Slot<T>>, t: nat, extra: nat)
    requires Hollow(s, t) || (AllEmpty(s) && t == 0)
    requires IsPow2(|s| + extra) && HT_MIN_BUCKETS <= |s| + extra
    ensures Hollow(s + seq(extra, _ => Empty), t)
  {
    if AllEmpty(s) { CountNone(s); }
    CountNone(seq(extra, _ => Slot<T>.Empty));
    CountAppend(s, seq(extra, _ => Empty));
    EnlargeGrows(|s|, |s| + extra);
  }

  /** The same map in a table of its own, in which each entry copied has used up at most one of t
      tombstones. */
  ghost predicate IsCopy<K(!new), V>(s: Layout<K, V>, hash: K -> nat, source: Layout<K, V>, t: nat) {
    && Searchable(s, hash) && MapOf(s) == MapOf(source) && CountFull(s) == CountFull(source)
    && CountTombstones(s) <= t <= CountTombstones(s) + CountFull(source)
  }

  /** When assignment empties the target before it copies. */
  predicate AssignClears(sourceDeleted: nat, size: nat, deleted: nat) {
    sourceDeleted > 0 || size > 0 || deleted == 0
  }

  /** The new table has what the old one had, in a table that is not too crowded. */
  lemma FitsHalf(n: nat, sz: nat)
    requires IsPow2(sz) && HT_MIN_BUCKETS <= sz && 2 * n < sz
    ensures Fits(n, sz, sz) && n < EnlargeSize(sz)
  {
    HalvingIsPow2(sz);
  }

  /** What a run of insertions without resizing does to a map: the first value of a key wins. */
  ghost function InsertAll<K, V>(m: map<K, V>, es: seq<Entry<K, V>>): map<K, V> {
    if es == [] then m
    else
      var before := InsertAll(m, es[..|es| - 1]);
      var e := es[|es| - 1];
      if e.key in before then before else before[e.key := e.val]
  }

  class SparseHashtable<K(==, 0, !new), V(0)> {
    const hash: K -> nat
    var table: SparseTable<Entry<K, V>>
    var numDeleted: nat
    var enlargeThreshold: nat
    var shrinkThreshold: nat
    var considerShrink: bool

    ghost predicate Valid()
      reads this, table, table.Repr
      ensures Valid() ==> table.Valid() && this !in table.Repr && table in table.Repr
    {
      && table.Valid() && this !in table.Repr
      && Searchable(table.Buckets(), hash)
      && Balanced(table.Buckets(), numDeleted, enlargeThreshold, shrinkThreshold)
    }

    /** The map this table stands for. */
    ghost function Model(): map<K, V>
      requires table.Shape()
      reads this, table, table.Repr
    {
      MapOf(table.Buckets())
    }

    constructor (hash: K -> nat, expectedMaxItems: nat)
      ensures Valid() && fresh(table.Repr) && this.hash == hash && Model() == map[] && numDeleted == 0
      ensures expectedMaxItems == 0 ==> table.tableSize == HT_DEFAULT_STARTING_BUCKETS
      ensures expectedMaxItems > 0 ==> Fits(expectedMaxItems, 0, table.tableSize)
    {
      hide SparseTable.Shape, SparseTable.Buckets, Searchable, MapOf, CountFull, CountTombstones, IsPow2;
      var n := HT_DEFAULT_STARTING_BUCKETS;
      if expectedMaxItems != 0 {
        n := MinBuckets(expectedMaxItems, 0);
      }
      this.hash := hash;
      var t := new SparseTable(n);
      table := t;
      numDeleted := 0;
      enlargeThreshold, shrinkThreshold, considerShrink := EnlargeSize(n), ShrinkSize(n), false;
      new;
      DefaultIsPow2();
      EmptySearchable(table.Buckets(), hash);
    }

    function BucketCount(): nat
      reads this, table
    {
      table.tableSize
    }

    function Size(): nat
      reads this, table
    {
      table.numBuckets
    }

    /** Where a key is, or where it should go: the first free bucket of its probe path, so an
        erased bucket is reused before an empty one. */
    method FindPosition(key: K) returns (t: PosType, idx: nat)
      requires Valid()
      ensures t == PtFull <==> key in Model()
      ensures t == PtFull ==> KeyAt(table.Buckets(), idx, key)
      ensures t != PtFull ==> Vacant(table.Buckets(), hash, key, idx, t == PtErased)
    {
      hide SparseTable.Shape, SparseTable.Buckets, Searchable, Balanced, Searching, FirstFree, MapOf, Probe, And;
      ghost var s := table.Buckets();
      var numProbes: nat := 0;
      var mask := BucketCount() - 1;
      SearchStart(s, hash, key);
      var bucknum: nat := And(hash(key), mask);
      t, idx := PtEmpty, bucknum;
      while true
        invariant bucknum < |s| && Searching(s, hash(key), key, numProbes, bucknum, t, idx)
        invariant idx < |s| && t != PtFull && numProbes < |s|
        decreases |s| - numProbes
      {
        if !table.IsFullOrErased(bucknum) {
          SearchMiss(s, hash, key, numProbes, bucknum, t, idx);
          if t == PtEmpty {
            idx := bucknum;
          }
          return;
        } else if table.IsFull(bucknum) {
          var ref := table.UnsafeGet(bucknum);
          if key == ref.key {
            SearchHit(s, hash, key, bucknum);
            return PtFull, bucknum;
          }
        }
        SearchPass(s, hash, key, numProbes, bucknum, t, idx);
        if !table.IsFull(bucknum) && t == PtEmpty {
          t, idx := PtErased, bucknum;
        }
        numProbes := numProbes + 1;
        bucknum := And(bucknum + numProbes, mask);
        assert numProbes < BucketCount();
      }
    }

    /** Stores a new entry in the bucket found for it. */
    method InsertAt(e: Entry<K, V>, pos: nat, erased: bool)
      requires Valid() && Size() + numDeleted + 1 <= enlargeThreshold
      requires Vacant(table.Buckets(), hash, e.key, pos, erased)
      modifies this, table.Repr
      ensures Valid() && table == old(table) && fresh(table.Repr - old(table.Repr))
      ensures Model() == old(Model())[e.key := e.val] && KeyAt(table.Buckets(), pos, e.key)
      ensures considerShrink == old(considerShrink) && BucketCount() == old(BucketCount())
      ensures enlargeThreshold == old(enlargeThreshold)
      ensures Size() == old(Size()) + 1 && Size() + numDeleted <= old(Size() + numDeleted) + 1
    {
      hide SparseTable.Shape, SparseTable.Buckets, Searchable, Balanced, FirstFree, MapOf, CountFull, CountTombstones;
      InsertSound(table.Buckets(), hash, pos, e, numDeleted, enlargeThreshold, shrinkThreshold);
      if erased {
        numDeleted := numDeleted - 1;
      }
      table.Set(pos, e);
    }

    /** Inserts an entry when there is room for it; a key that is present keeps its value. */
    method InsertNoresize(e: Entry<K, V>) returns (pos: nat, inserted: bool)
      requires Valid() && Size() + numDeleted + 1 <= enlargeThreshold
      modifies this, table.Repr
      ensures Valid() && table == old(table) && fresh(table.Repr - old(table.Repr))
      ensures inserted <==> e.key !in old(Model())
      ensures Model() == if inserted then old(Model())[e.key := e.val] else old(Model())
      ensures KeyAt(table.Buckets(), pos, e.key)
      ensures considerShrink == old(considerShrink) && BucketCount() == old(BucketCount())
      ensures enlargeThreshold == old(enlargeThreshold)
      ensures Size() + numDeleted <= old(Size() + numDeleted) + 1
    {
      hide SparseTable.Shape, SparseTable.Buckets, Searchable, Balanced, FirstFree;
      hide MapOf, CountFull, CountTombstones, IsKey;
      var t;
      t, pos := FindPosition(e.key);
      inserted := t != PtFull;
      if inserted {
        InsertAt(e, pos, t == PtErased);
      }
    }

    /** Erases a key; says how many entries went. */
    method Erase(key: K) returns (n: nat)
      requires Valid()
      modifies this, table.Repr
      ensures Valid() && table == old(table) && fresh(table.Repr - old(table.Repr))
      ensures n == (if key in old(Model()) then 1 else 0) && Model() == old(Model()) - {key}
      ensures numDeleted == old(numDeleted) + n
      ensures considerShrink == if n == 1 then true else old(considerShrink)
    {
      hide SparseTable.Shape, SparseTable.Buckets, Searchable, Balanced, FirstFree, MapOf, CountFull, CountTombstones;
      var t, pos := FindPosition(key);
      if t == PtFull {
        EraseSound(table.Buckets(), hash, pos, numDeleted, enlargeThreshold, shrinkThreshold);
        table.Erase(pos);
        numDeleted := numDeleted + 1;
        considerShrink := true;
        return 1;
      }
      return 0;
    }

    /** The next bucket without a value on a key's probe path: the search need not compare keys. */
    method FreshBucket(key: K, ghost es: seq<Entry<K, V>>, ghost done: nat, ghost t: nat)
      returns (bucknum: nat, ghost p: nat)
      requires table.Valid() && Rebuilt(table.Buckets(), hash, es, done, t)
      ensures bucknum < |table.Buckets()| && p < |table.Buckets()|
      ensures OnPath(table.Buckets(), hash(key), p, bucknum) && !table.Buckets()[bucknum].Full?
    {
      hide SparseTable.Shape, SparseTable.Buckets, OnPath, MapOf, And, Unique;
      ghost var s := table.Buckets();
      var numProbes: nat := 0;
      var mask := BucketCount() - 1;
      PathStart(s, hash(key));
      bucknum := And(hash(key), mask);
      while table.IsFull(bucknum)
        invariant bucknum < |s| && numProbes < |s| && OnPath(s, hash(key), numProbes, bucknum)
        decreases |s| - numProbes
      {
        PathStep(s, hash(key), numProbes, bucknum);
        numProbes := numProbes + 1;
        assert numProbes < BucketCount();
        bucknum := And(bucknum + numProbes, mask);
      }
      p := numProbes;
    }

    method ResetThresholds(numBuckets: nat)
      modifies this
      ensures enlargeThreshold == EnlargeSize(numBuckets) && shrinkThreshold == ShrinkSize(numBuckets)
      ensures !considerShrink && table == old(table) && numDeleted == old(numDeleted)
    {
      enlargeThreshold, shrinkThreshold, considerShrink := EnlargeSize(numBuckets), ShrinkSize(numBuckets), false;
    }

    /** Consistent as far as the buckets go, whatever the tombstone counter says. */
    ghost predicate Usable()
      reads this, table, table.Repr
    {
      && table.Valid() && this !in table.Repr
      && Searchable(table.Buckets(), hash)
      && Balanced(table.Buckets(), CountTombstones(table.Buckets()),
                  EnlargeSize(BucketCount()), ShrinkSize(BucketCount()))
    }

    /** No values, and settings that match. */
    ghost predicate Ready(t: nat)
      reads this, table, table.Repr
    {
      && table.Valid() && this !in table.Repr && Hollow(table.Buckets(), t) && BucketCount() > 0
      && enlargeThreshold == EnlargeSize(BucketCount()) && shrinkThreshold == ShrinkSize(BucketCount())
      && numDeleted == 0
    }

    /** Freshly made with any number of buckets, all of them empty. */
    ghost predicate Untouched()
      reads this, table, table.Repr
    {
      table.Valid() && this !in table.Repr && AllEmpty(table.Buckets()) && numDeleted == 0
    }

    lemma UntouchedIsEmpty()
      requires Untouched()
      ensures Size() == 0
    {
      CountNone(table.Buckets());
    }

    /** Values and tombstones together never fill more than half the buckets, which are a power of two
        and at least four; the thresholds are a half and a fifth of them. */
    lemma LoadMeans()
      requires Valid()
      ensures 2 * (Size() + numDeleted) <= BucketCount() && BucketCount() >= 4 && IsPow2(BucketCount())
      ensures enlargeThreshold == BucketCount() / 2 && shrinkThreshold == BucketCount() / 5
    {
      hide SparseTable.Owned, SparseTable.Rows, Unused, Flat;
    }

    lemma ValidIsUsable()
      requires Valid()
      ensures Usable()
    {
    }

    lemma ReadyIsValid()
      requires Ready(0)
      ensures Valid() && Model() == map[] && Size() == 0
    {
      HollowSearchable(table.Buckets(), hash, 0);
    }

    /** Empties the table. It goes by its counters: when both are zero it keeps the buckets as they are. */
    method Clear()
      requires Usable() || Untouched()
      modifies this, table.Repr
      ensures fresh(table.Repr - old(table.Repr)) && !considerShrink
      ensures old(Usable()) ==> Ready(TombstonesLeft(old(table.Buckets()), old(numDeleted)))
      ensures old(Untouched()) ==> Untouched() && table == old(table)
      ensures BucketCount() ==
              if old(Size() == 0 && numDeleted == 0) then old(BucketCount()) else HT_DEFAULT_STARTING_BUCKETS
      ensures old(Valid()) ==> Valid() && Model() == map[]
    {
      hide SparseTable.Shape, SparseTable.Buckets, MapOf, CountFull, CountTombstones, IsPow2, Unique, Reachable;
      ghost var usable := Usable();
      if Untouched() { UntouchedIsEmpty(); }
      if table.numBuckets != 0 || numDeleted != 0 {
        table := new SparseTable(HT_DEFAULT_STARTING_BUCKETS);
        DefaultIsPow2();
        EmptyHollow(table.Buckets());
      }
      ResetThresholds(BucketCount());
      numDeleted := 0;
      if usable && CountTombstones(table.Buckets()) == 0 {
        ReadyIsValid();
      }
    }

    /** Makes a table without values large enough for n entries and a wanted number of buckets. */
    method Prepare(n: nat, minBucketsWanted: nat, ghost t: nat)
      requires table.Valid() && this !in table.Repr && numDeleted == 0
      requires Hollow(table.Buckets(), t) || (AllEmpty(table.Buckets()) && t == 0 && BucketCount() <= minBucketsWanted)
      modifies this, table.Repr
      ensures Ready(t) && table == old(table) && fresh(table.Repr - old(table.Repr))
      ensures !considerShrink && n < EnlargeSize(BucketCount())
      ensures Fits(n, minBucketsWanted, BucketCount())
      ensures old(BucketCount()) <= minBucketsWanted ==> IsMinFit(n, minBucketsWanted, BucketCount())
    {
      hide SparseTable.Shape, SparseTable.Buckets, Searchable, MapOf, CountFull, CountTombstones, IsPow2;
      ghost var s := table.Buckets();
      var resizeTo := MinBuckets(n, minBucketsWanted);
      if resizeTo > BucketCount() {
        HollowGrow(s, t, resizeTo - |s|);
        table.Resize(resizeTo);
      } else {
        EnlargeGrows(resizeTo, BucketCount());
        if BucketCount() == resizeTo && AllEmpty(s) { EmptyHollow(s); }
      }
      ResetThresholds(BucketCount());
    }

    /** Moves every entry of ht over, in bucket order, freeing ht's groups on the way. */
    method MoveEntries(ht: SparseHashtable<K, V>)
      requires Ready(0) && ht.Valid() && ht.hash == hash
      requires ht.Size() < EnlargeSize(BucketCount()) && Separate(ht)
      modifies this, table.Repr, ht.table.Repr
      ensures Valid() && table == old(table) && fresh(table.Repr - old(table.Repr))
      ensures Model() == old(ht.Model()) && Size() == old(ht.Size()) && BucketCount() == old(BucketCount())
      ensures numDeleted == 0 && considerShrink == old(considerShrink)
    {
      hide SparseTable.Shape, SparseTable.Owned, SparseTable.Buckets, Searchable;
      hide MapOf, CountFull, CountTombstones, IsPow2;
      hide DestructiveIterator.OnTable, Rebuilt, Balanced;
      ghost var es := Values(ht.table.Buckets());
      RebuiltStart(table.Buckets(), hash, ht.table.Buckets(), 0);
      MoveAll(ht.table, es);
      RebuiltDone(table.Buckets(), hash, es, 0);
    }

    /** The rehash loop. */
    method MoveAll(source: SparseTable<Entry<K, V>>, ghost es: seq<Entry<K, V>>)
      requires table.Valid() && source.Shape() && es == Values(source.Buckets())
      requires Rebuilt(table.Buckets(), hash, es, 0, 0)
      requires this !in table.Repr && this !in source.Repr && table.Repr !! source.Repr
      modifies table.Repr, source.Repr
      ensures table.Valid() && fresh(table.Repr - old(table.Repr)) && table.tableSize == old(table.tableSize)
      ensures this !in table.Repr && Rebuilt(table.Buckets(), hash, es, |es|, 0)
    {
      hide SparseTable.Shape, SparseTable.Owned, SparseTable.Buckets, Rebuilt, CountFull, DestructiveIterator.OnTable;
      var it := new DestructiveIterator.Begin(source);
      while !it.IsEnd()
        invariant Moving(it, source, es)
        invariant fresh(table.Repr - old(table.Repr)) && source.Repr == old(source.Repr) && fresh(it)
        invariant table.tableSize == old(table.tableSize)
        decreases |es| - it.Visited()
      {
        MoveNext(it, source, es);
      }
    }

    /** The rehash has placed what the iterator has passed. */
    ghost predicate Moving(it: DestructiveIterator<Entry<K, V>>, source: SparseTable<Entry<K, V>>, es: seq<Entry<K, V>>)
      reads this, table, table.Repr, it, it.table, it.table.Repr
    {
      && it.Valid() && it.table == source && it.All() == es && it.Visited() <= |es|
      && table.Valid() && this !in table.Repr && this !in it.table.Repr
      && table.Repr !! it.table.Repr && it !in table.Repr && it.table in it.table.Repr && table in table.Repr
      && Rebuilt(table.Buckets(), hash, es, it.Visited(), 0)
    }

    method MoveNext(it: DestructiveIterator<Entry<K, V>>, ghost source: SparseTable<Entry<K, V>>,
                    ghost es: seq<Entry<K, V>>)
      requires Moving(it, source, es) && !it.IsEnd() && (it as object) != this
      modifies it, table.Repr, source.Repr
      ensures Moving(it, source, es) && it.Visited() == old(it.Visited()) + 1
      ensures fresh(table.Repr - old(table.Repr)) && source.Repr == old(source.Repr)
      ensures table.tableSize == old(table.tableSize)
    {
      hide SparseTable.Shape, SparseTable.Owned, SparseTable.Buckets, Rebuilt, CountFull, DestructiveIterator.OnTable;
      var e := it.Deref();
      MoveOne(e, es, it.Visited(), 0);
      it.Next();
    }

    ghost predicate Separate(ht: SparseHashtable<K, V>)
      reads this, table, ht, ht.table
    {
      && this != ht && table.Repr !! ht.table.Repr
      && this !in table.Repr + ht.table.Repr && ht !in table.Repr + ht.table.Repr
    }

    method MoveOne(e: Entry<K, V>, ghost es: seq<Entry<K, V>>, ghost done: nat, ghost t: nat)
      requires table.Valid() && this !in table.Repr
      requires Rebuilt(table.Buckets(), hash, es, done, t) && done < |es| && e == es[done]
      modifies table.Repr
      ensures table.Valid() && this !in table.Repr && fresh(table.Repr - old(table.Repr))
      ensures table.tableSize == old(table.tableSize)
      ensures Rebuilt(table.Buckets(), hash, es, done + 1, t)
    {
      hide SparseTable.Shape, SparseTable.Buckets, Rebuilt, OnPath;
      ghost var s := table.Buckets();
      var bucknum, p := FreshBucket(e.key, es, done, t);
      PathEnd(s, hash, es, done, t, p, bucknum);
      table.Move(bucknum, e);
    }

    /** An empty table of the given size, not yet ready unless that is a power of two. */
    constructor Sized(hash: K -> nat, n: nat)
      ensures Untouched() && fresh(table.Repr) && this.hash == hash
      ensures BucketCount() == n && !considerShrink
    {
      hide SparseTable.Shape, SparseTable.Buckets, Searchable, MapOf, CountFull, CountTombstones, IsPow2;
      this.hash := hash;
      var t := new SparseTable(n);
      table := t;
      numDeleted := 0;
      enlargeThreshold, shrinkThreshold, considerShrink := EnlargeSize(n), ShrinkSize(n), false;
    }

    /** A table of at least the wanted number of buckets that takes over everything ht holds. */
    static method MoveFrom(ht: SparseHashtable<K, V>, minBucketsWanted: nat) returns (r: SparseHashtable<K, V>)
      requires ht.Valid()
      modifies ht.table.Repr
      ensures fresh(r) && r.Valid() && fresh(r.table.Repr) && r.hash == ht.hash
      ensures r.Model() == old(ht.Model()) && r.Size() == old(ht.Size()) && r.numDeleted == 0
      ensures IsMinFit(r.Size(), minBucketsWanted, r.BucketCount())
    {
      hide SparseTable.Shape, SparseTable.Buckets, Searchable, MapOf, CountFull, CountTombstones, IsPow2, IsMinFit;
      r := new SparseHashtable.Sized(ht.hash, minBucketsWanted);
      r.TakeFrom(ht, minBucketsWanted);
    }

    /** Makes this table as large as needed for ht's entries and moves them over. */
    method TakeFrom(ht: SparseHashtable<K, V>, minBucketsWanted: nat)
      requires Untouched() && BucketCount() == minBucketsWanted
      requires ht.Valid() && ht.hash == hash && Separate(ht)
      modifies this, table.Repr, ht.table.Repr
      ensures Valid() && fresh(table.Repr - old(table.Repr))
      ensures Model() == old(ht.Model()) && Size() == old(ht.Size()) && numDeleted == 0
      ensures IsMinFit(Size(), minBucketsWanted, BucketCount())
    {
      hide SparseTable.Shape, SparseTable.Buckets, Searchable, MapOf, CountFull;
      hide CountTombstones, IsPow2, IsMinFit, Balanced;
      UntouchedIsEmpty();
      Clear();
      assert Separate(ht);
      Prepare(ht.Size(), minBucketsWanted, 0);
      assert Separate(ht);
      MoveEntries(ht);
    }

    /** Exchanges the contents of two tables; the thresholds follow the tables. */
    method Swap(ht: SparseHashtable<K, V>)
      requires ht != this
      modifies this, ht
      ensures table == old(ht.table) && numDeleted == old(ht.numDeleted)
      ensures ht.table == old(table) && ht.numDeleted == old(numDeleted)
      ensures enlargeThreshold == EnlargeSize(BucketCount()) && shrinkThreshold == ShrinkSize(BucketCount())
      ensures ht.enlargeThreshold == EnlargeSize(ht.BucketCount()) && ht.shrinkThreshold == ShrinkSize(ht.BucketCount())
      ensures !considerShrink && !ht.considerShrink
    {
      numDeleted, ht.numDeleted := ht.numDeleted, numDeleted;
      table, ht.table := ht.table, table;
      ResetThresholds(BucketCount());
      ht.ResetThresholds(ht.BucketCount());
    }

    /** Replaces this table by a rehash of itself: how it grows and how it shrinks. */
    method Rehash(minBucketsWanted: nat)
      requires Valid()
      modifies this, table.Repr
      ensures Valid() && fresh(table.Repr)
      ensures Model() == old(Model()) && Size() == old(Size()) && numDeleted == 0 && !considerShrink
      ensures IsMinFit(Size(), minBucketsWanted, BucketCount())
    {
      hide SparseTable.Shape, SparseTable.Buckets, Searchable, MapOf, CountFull, CountTombstones, IsPow2, IsMinFit;
      var tmp := MoveFrom(this, minBucketsWanted);
      Swap(tmp);
    }

    /** Shrinks a table that erasures have left too empty. */
    method MaybeShrink() returns (shrunk: bool)
      requires Valid()
      modifies this, table.Repr
      ensures Valid() && !considerShrink
      ensures fresh(table.Repr) || (table == old(table) && table.Repr == old(table.Repr))
      ensures Model() == old(Model()) && Size() == old(Size())
      ensures shrunk <==> old(Size()) < old(shrinkThreshold) && old(BucketCount()) > HT_DEFAULT_STARTING_BUCKETS
      ensures shrunk ==> HT_DEFAULT_STARTING_BUCKETS <= BucketCount() < old(BucketCount()) && numDeleted == 0
      ensures shrunk ==> 5 * Size() < 2 * BucketCount() && Size() + 1 <= enlargeThreshold
      ensures !shrunk ==>
                table.Buckets() == old(table.Buckets()) && table == old(table) && numDeleted == old(numDeleted)
    {
      hide SparseTable.Shape, SparseTable.Buckets, MapOf, CountFull, CountTombstones;
      hide IsPow2, IsMinFit, Unique, Reachable;
      shrunk := false;
      var numRemain := Size();
      if shrinkThreshold > 0 && numRemain < shrinkThreshold && BucketCount() > HT_DEFAULT_STARTING_BUCKETS {
        var sz := ShrinkTarget(numRemain, BucketCount());
        Rehash(sz);
        MinFitExact(Size(), sz, BucketCount());
        shrunk := true;
      }
      considerShrink := false;
    }

    /** Makes room for delta more entries; says whether the buckets have moved. */
    method ResizeDelta(delta: nat) returns (didResize: bool)
      requires Valid()
      modifies this, table.Repr
      ensures Valid() && fresh(table.Repr - old(table.Repr))
      ensures Model() == old(Model()) && Size() == old(Size())
      ensures Size() + numDeleted + delta <= enlargeThreshold
      ensures !didResize ==>
                table.Buckets() == old(table.Buckets()) && table == old(table) && numDeleted == old(numDeleted)
      ensures !considerShrink
    {
      hide SparseTable.Shape, SparseTable.Buckets, MapOf, CountFull, CountTombstones, IsPow2, Unique, Reachable;
      didResize := false;
      if considerShrink {
        didResize := MaybeShrink();
      }
      var numOccupied := Size() + numDeleted;
      if BucketCount() >= HT_MIN_BUCKETS && numOccupied + delta <= enlargeThreshold {
        return;
      }
      var neededSize := MinBuckets(numOccupied + delta, 0);
      // the needed size exceeds the bucket count: the entries do not fit below the threshold
      assert neededSize > BucketCount() by {
        if neededSize <= BucketCount() { EnlargeGrows(neededSize, BucketCount()); }
      }
      var resizeTo := MinBuckets(numOccupied + delta, BucketCount());
      // growing never asks for less than the needed size, so there is no doubling for purged tombstones
      assert resizeTo == neededSize by {
        assert Fits(numOccupied + delta, BucketCount(), neededSize) && Fits(numOccupied + delta, 0, resizeTo);
      }
      Rehash(resizeTo);
      EnlargeGrows(resizeTo, BucketCount());
      didResize := true;
    }

    /** Inserts an entry; a key that is present keeps its value. */
    method Insert(e: Entry<K, V>) returns (pos: nat, inserted: bool)
      requires Valid()
      modifies this, table.Repr
      ensures Valid() && fresh(table.Repr - old(table.Repr))
      ensures inserted <==> e.key !in old(Model())
      ensures Model() == if inserted then old(Model())[e.key := e.val] else old(Model())
      ensures KeyAt(table.Buckets(), pos, e.key)
    {
      hide SparseTable.Shape, SparseTable.Buckets, MapOf, CountFull, CountTombstones, IsPow2, Unique, Reachable;
      var _ := ResizeDelta(1);
      pos, inserted := InsertNoresize(e);
    }

    /** The bucket of a key, which is first inserted with a default value if it is not there. */
    method FindOrInsert(key: K, defaultValue: V) returns (pos: nat)
      requires Valid()
      modifies this, table.Repr
      ensures Valid() && fresh(table.Repr - old(table.Repr))
      ensures Model() == if key in old(Model()) then old(Model()) else old(Model())[key := defaultValue]
      ensures KeyAt(table.Buckets(), pos, key)
    {
      hide SparseTable.Shape, SparseTable.Buckets, MapOf, CountFull, CountTombstones;
      hide IsPow2, Unique, Reachable, Vacant, KeyAt;
      var t;
      t, pos := FindPosition(key);
      if t != PtFull {
        var e := Entry(key, defaultValue);
        var moved := ResizeDelta(1);
        if moved {
          var inserted;
          pos, inserted := InsertNoresize(e);
        } else {
          InsertAt(e, pos, t == PtErased);
        }
      }
    }

    /** Writes through the reference that operator[] returns. */
    method Put(key: K, val: V, defaultValue: V)
      requires Valid()
      modifies this, table.Repr
      ensures Valid() && fresh(table.Repr - old(table.Repr))
      ensures Model() == old(Model())[key := val]
    {
      hide SparseTable.Shape, SparseTable.Buckets, MapOf, CountFull, CountTombstones, IsPow2;
      hide Unique, Reachable, Searchable, Balanced, KeyAt;
      var pos := FindOrInsert(key, defaultValue);
      AssignSound(table.Buckets(), hash, pos, key, val, numDeleted, enlargeThreshold, shrinkThreshold);
      table.Set(pos, Entry(key, val));
    }

    /** Reads through the reference that operator[] returns: a missing key comes into being. */
    method Get(key: K, defaultValue: V) returns (val: V)
      requires Valid()
      modifies this, table.Repr
      ensures Valid() && fresh(table.Repr - old(table.Repr))
      ensures val == if key in old(Model()) then old(Model())[key] else defaultValue
      ensures Model() == old(Model())[key := val]
    {
      hide SparseTable.Shape, SparseTable.Buckets, MapOf, CountFull, CountTombstones;
      hide IsPow2, Unique, Reachable, Searchable, Balanced;
      var pos := FindOrInsert(key, defaultValue);
      SearchHit(table.Buckets(), hash, key, pos);
      var e := table.UnsafeGet(pos);
      val := e.val;
    }

    method Count(key: K) returns (n: nat)
      requires Valid()
      ensures n == if key in Model() then 1 else 0
    {
      var t, _ := FindPosition(key);
      n := if t == PtFull then 1 else 0;
    }

    /** The iterator to a key's entry, or the end. */
    method Find(key: K) returns (it: TwoDIterator<Entry<K, V>>)
      requires Valid()
      ensures fresh(it) && it.Valid() && it.table == table
      ensures it.IsEnd() <==> key !in Model()
      ensures key in Model() ==> Values(table.Buckets())[it.Visited()] == Entry(key, Model()[key])
    {
      hide SparseTable.Shape, SparseTable.Buckets, MapOf, CountFull, CountTombstones, IsPow2;
      hide Unique, Reachable, Searchable, Balanced, TwoDIterator.OnTable;
      var t, pos := FindPosition(key);
      if t == PtFull {
        SearchHit(table.Buckets(), hash, key, pos);
        it := new TwoDIterator.At(table, pos);
        ValuesAt(table.Buckets(), pos);
      } else {
        it := new TwoDIterator.End(table);
      }
    }

    /** Inserts a range of entries after making room for all of them at once. */
    method InsertRange(es: seq<Entry<K, V>>)
      requires Valid()
      modifies this, table.Repr
      ensures Valid() && fresh(table.Repr - old(table.Repr))
      ensures Model() == InsertAll(old(Model()), es)
    {
      hide SparseTable.Shape, SparseTable.Buckets, MapOf, CountFull, CountTombstones, Searchable, Balanced, KeyAt;
      var _ := ResizeDelta(|es|);
      var i := 0;
      while i < |es|
        invariant 0 <= i <= |es|
        invariant Valid() && fresh(table.Repr - old(table.Repr))
        invariant Size() + numDeleted + (|es| - i) <= enlargeThreshold
        invariant Model() == InsertAll(old(Model()), es[..i])
      {
        assert es[..i + 1][..i] == es[..i];
        var _, _ := InsertNoresize(es[i]);
        i := i + 1;
      }
      assert es[..i] == es;
    }

    /** Shrinks if asked with zero or if erasures suggest it, then makes room for reqElements entries. */
    method Resize(reqElements: nat)
      requires Valid()
      modifies this, table.Repr
      ensures Valid() && fresh(table.Repr - old(table.Repr))
      ensures Model() == old(Model())
      ensures reqElements > Size() ==> reqElements + numDeleted <= enlargeThreshold
    {
      hide SparseTable.Shape, SparseTable.Buckets, MapOf, CountFull, CountTombstones, Searchable, Balanced;
      if considerShrink || reqElements == 0 {
        var _ := MaybeShrink();
      }
      if reqElements > Size() {
        var _ := ResizeDelta(reqElements - Size());
      }
    }

    /** Erases the entry under an iterator; the iterator goes to the next one. */
    method EraseIter(it: TwoDIterator<Entry<K, V>>)
      requires Valid() && it.Valid() && it.table == table && !it.IsEnd() && (it as object) != this
      modifies this, it, table.Repr
      ensures Valid() && fresh(table.Repr - old(table.Repr)) && table == old(table)
      ensures ErasedKth(old(table.Buckets()), table.Buckets(), old(it.Visited()))
      ensures it.Valid() && it.Visited() == old(it.Visited()) && considerShrink
    {
      hide SparseTable.Shape, SparseTable.Buckets, MapOf, CountFull, CountTombstones, Searchable, Balanced;
      hide TwoDIterator.OnTable, TwoDIterator.Valid, TwoDIterator.Visited, TwoDIterator.IsEnd, ErasedKth, IsCell;
      ghost var s := table.Buckets();
      ghost var pos := it.Erase();
      EraseCellSound(s, hash, pos, old(it.Visited()), numDeleted, enlargeThreshold, shrinkThreshold);
      numDeleted := numDeleted + 1;
      considerShrink := true;
    }

    // ---- copying ----

    /** A table without buckets, the start of a copy. */
    constructor Blank(hash: K -> nat)
      ensures table.Valid() && fresh(table.Repr) && this !in table.Repr && this.hash == hash
      ensures BucketCount() == 0 && Hollow(table.Buckets(), 0) && numDeleted == 0
    {
      hide SparseTable.Shape, SparseTable.Buckets;
      this.hash := hash;
      var t := new SparseTable(0);
      table := t;
      numDeleted, enlargeThreshold, shrinkThreshold, considerShrink := 0, 0, 0, false;
    }

    /** The copy has placed what the iterator has passed. */
    ghost predicate Copying(it: TwoDIterator<Entry<K, V>>, source: SparseTable<Entry<K, V>>,
                            es: seq<Entry<K, V>>, t: nat)
      reads this, table, table.Repr, it, it.table, it.table.Repr
    {
      && it.Valid() && it.table == source && it.All() == es && it.Visited() <= |es|
      && table.Valid() && this !in table.Repr && this !in it.table.Repr && it !in table.Repr && it !in it.table.Repr
      && table.Repr !! it.table.Repr && it.table in it.table.Repr && table in table.Repr
      && Rebuilt(table.Buckets(), hash, es, it.Visited(), t)
    }

    method CopyOne(e: Entry<K, V>, ghost es: seq<Entry<K, V>>, ghost done: nat, ghost t: nat)
      requires table.Valid() && this !in table.Repr
      requires Rebuilt(table.Buckets(), hash, es, done, t) && done < |es| && e == es[done]
      modifies table.Repr
      ensures table.Valid() && this !in table.Repr && fresh(table.Repr - old(table.Repr))
      ensures table.tableSize == old(table.tableSize)
      ensures Rebuilt(table.Buckets(), hash, es, done + 1, t)
    {
      hide SparseTable.Shape, SparseTable.Buckets, Rebuilt, OnPath;
      ghost var s := table.Buckets();
      var bucknum, p := FreshBucket(e.key, es, done, t);
      PathEnd(s, hash, es, done, t, p, bucknum);
      table.Set(bucknum, e);
    }

    method CopyNext(it: TwoDIterator<Entry<K, V>>, ghost source: SparseTable<Entry<K, V>>,
                    ghost es: seq<Entry<K, V>>, ghost t: nat)
      requires Copying(it, source, es, t) && !it.IsEnd() && (it as object) != this
      modifies it, table.Repr
      ensures Copying(it, source, es, t) && it.Visited() == old(it.Visited()) + 1
      ensures fresh(table.Repr - old(table.Repr)) && table.tableSize == old(table.tableSize)
    {
      hide SparseTable.Shape, SparseTable.Owned, SparseTable.Buckets, Rebuilt, CountFull;
      hide TwoDIterator.OnTable, TwoDIterator.Valid, TwoDIterator.Visited, TwoDIterator.IsEnd;
      var e := it.Deref();
      CopyOne(e, es, it.Visited(), t);
      it.Next();
      it.Remaining();
    }

    /** The copy loop. */
    method CopyAll(source: SparseTable<Entry<K, V>>, ghost es: seq<Entry<K, V>>, ghost t: nat)
      requires table.Valid() && source.Shape() && es == Values(source.Buckets())
      requires Rebuilt(table.Buckets(), hash, es, 0, t)
      requires this !in table.Repr && this !in source.Repr && table.Repr !! source.Repr
      modifies table.Repr
      ensures table.Valid() && fresh(table.Repr - old(table.Repr)) && table.tableSize == old(table.tableSize)
      ensures this !in table.Repr && Rebuilt(table.Buckets(), hash, es, |es|, t)
    {
      hide SparseTable.Shape, SparseTable.Owned, SparseTable.Buckets, Rebuilt, CountFull, TwoDIterator.OnTable;
      var it := new TwoDIterator.Begin(source);
      while !it.IsEnd()
        invariant Copying(it, source, es, t)
        invariant fresh(table.Repr - old(table.Repr)) && fresh(it) && source.Repr == old(source.Repr)
        invariant table.tableSize == old(table.tableSize)
        decreases |es| - it.Visited()
      {
        CopyNext(it, source, es, t);
      }
    }

    /** Fills a table without values with a copy of everything ht holds. */
    method CopyEntries(ht: SparseHashtable<K, V>, minBucketsWanted: nat, ghost t: nat)
      requires table.Valid() && this !in table.Repr && Hollow(table.Buckets(), t) && numDeleted == 0
      requires ht.Valid() && ht.hash == hash && Separate(ht)
      modifies this, table.Repr
      ensures table.Valid() && table == old(table) && fresh(table.Repr - old(table.Repr))
      ensures IsCopy(table.Buckets(), hash, ht.table.Buckets(), t) && numDeleted == 0
      ensures Valid() <==> CountTombstones(table.Buckets()) == 0
    {
      hide SparseTable.Shape, SparseTable.Owned, SparseTable.Buckets, Searchable;
      hide MapOf, CountFull, CountTombstones, IsPow2;
      hide TwoDIterator.OnTable, Rebuilt, Balanced, Hollow;
      ghost var source := ht.table.Buckets();
      ghost var es := Values(source);
      Prepare(ht.Size(), minBucketsWanted, t);
      assert ht.table.Buckets() == source;
      RebuiltStart(table.Buckets(), hash, source, t);
      CopyAll(ht.table, es, t);
      RebuiltDone(table.Buckets(), hash, es, t);
    }

    /** A copy of ht with a table of its own. */
    static method CopyOf(ht: SparseHashtable<K, V>, minBucketsWanted: nat) returns (r: SparseHashtable<K, V>)
      requires ht.Valid()
      ensures fresh(r) && r.Valid() && fresh(r.table.Repr) && r.hash == ht.hash
      ensures r.Model() == ht.Model() && r.Size() == ht.Size() && r.numDeleted == 0
    {
      hide SparseTable.Shape, SparseTable.Buckets, Searchable, MapOf, CountFull, CountTombstones, Balanced, Hollow;
      r := new SparseHashtable.Blank(ht.hash);
      r.CopyEntries(ht, minBucketsWanted, 0);
    }

    /** Assignment: takes over ht's settings and tombstone counter, empties this table and copies
        ht into it. Emptying goes by the counter just taken over, so the tombstones of a table
        without values stay when ht has none, and the counter then misses them. */
    method Assign(ht: SparseHashtable<K, V>)
      requires Valid() && ht.Valid() && ht.hash == hash && Separate(ht)
      modifies this, table.Repr
      ensures fresh(table.Repr - old(table.Repr)) && table.Valid() && numDeleted == 0
      ensures IsCopy(table.Buckets(), hash, ht.table.Buckets(), TombstonesLeft(old(table.Buckets()), ht.numDeleted))
      ensures Valid() <==> CountTombstones(table.Buckets()) == 0
      ensures Model() == ht.Model() && (AssignClears(ht.numDeleted, old(Size()), old(numDeleted)) ==> Valid())
      ensures ht.Size() == 0 || ht.Size() < old(numDeleted) ==>
                (Valid() <==> AssignClears(ht.numDeleted, old(Size()), old(numDeleted)))
    {
      hide SparseTable.Shape, SparseTable.Buckets, Searchable, MapOf, CountFull, CountTombstones, Hollow;
      ghost var t := TombstonesLeft(table.Buckets(), ht.numDeleted);
      enlargeThreshold, shrinkThreshold, considerShrink := ht.enlargeThreshold, ht.shrinkThreshold, ht.considerShrink;
      numDeleted := ht.numDeleted;
      Clear();
      CopyEntries(ht, HT_MIN_BUCKETS, t);
    }
  }
}
