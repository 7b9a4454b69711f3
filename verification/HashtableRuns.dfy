/** Whole runs of hash table operations against a mathematical map. */
module HashtableRuns {
  import opened Slots
  import opened SparseTables
  import opened TableIterators
  import opened HashLayout
  import opened SparseHashtables

  datatype Op<K, V> =
    | Insert(key: K, val: V)
    | Put(key: K, val: V)
    | Get(key: K)
    | Count(key: K)
    | Find(key: K)
    | Erase(key: K)
    | Size
    | Reserve(n: nat)
    | Clear

  datatype Answer<V> = Done | Number(n: nat) | Value(val: V) | Missing

  /** What an operation does to a map and what it answers. */
  function Apply<K, V>(m: map<K, V>, op: Op<K, V>, zero: V): (map<K, V>, Answer<V>) {
    match op
    case Insert(k, v) => if k in m then (m, Number(0)) else (m[k := v], Number(1))
    case Put(k, v) => (m[k := v], Done)
    case Get(k) => if k in m then (m, Value(m[k])) else (m[k := zero], Value(zero))
    case Count(k) => (m, Number(if k in m then 1 else 0))
    case Find(k) => (m, if k in m then Value(m[k]) else Missing)
    case Erase(k) => (m - {k}, Number(if k in m then 1 else 0))
    case Size => (m, Number(|m|))
    case Reserve(_) => (m, Done)
    case Clear => (map[], Done)
  }

  /** A run on a map: the final map and every answer. */
  function Play<K, V>(m: map<K, V>, ops: seq<Op<K, V>>, zero: V): (map<K, V>, seq<Answer<V>>) {
    if ops == [] then (m, [])
    else
      var before := Play(m, ops[..|ops| - 1], zero);
      var last := Apply(before.0, ops[|ops| - 1], zero);
      (last.0, before.1 + [last.1])
  }

  /** The number of entries the table counts is the size of the map. */
  lemma SizeIsMapSize<K(!new), V>(s: Layout<K, V>, hash: K -> nat)
    requires Searchable(s, hash)
    ensures CountFull(s) == |MapOf(s)|
  {
    FromEntriesSize(Values(s));
  }

  method Execute<K(==, 0, !new), V(0)>(h: SparseHashtable<K, V>, op: Op<K, V>, zero: V) returns (a: Answer<V>)
    requires h.Valid()
    modifies h, h.table.Repr
    ensures h.Valid() && fresh(h.table.Repr - old(h.table.Repr))
    ensures (h.Model(), a) == Apply(old(h.Model()), op, zero)
  {
    hide SparseHashtable.Valid, SparseHashtable.Model, SparseTable.Valid, SparseTable.Shape, KeyAt;
    a := Done;
    match op {
      case Insert(k, v) =>
        var _, inserted := h.Insert(Entry(k, v));
        a := Number(if inserted then 1 else 0);
      case Put(k, v) => h.Put(k, v, zero);
      case Get(k) =>
        ghost var m := h.Model();
        var v := h.Get(k, zero);
        a := Value(v);
        assert k in m ==> m[k := m[k]] == m;
      case Count(k) =>
        var n := h.Count(k);
        a := Number(n);
      case Find(k) => a := Lookup(h, k);
      case Erase(k) =>
        var n := h.Erase(k);
        a := Number(n);
      case Size =>
        SizeOfTable(h);
        a := Number(h.Size());
      case Reserve(n) => h.Resize(n);
      case Clear =>
        h.ValidIsUsable();
        h.Clear();
    }
  }

  method Lookup<K(==, 0, !new), V(0)>(h: SparseHashtable<K, V>, key: K) returns (a: Answer<V>)
    requires h.Valid()
    ensures a == if key in h.Model() then Value(h.Model()[key]) else Missing
  {
    hide SparseTable.Shape, SparseTable.Buckets, Searchable, Balanced, MapOf, CountFull;
    var it := h.Find(key);
    if it.IsEnd() {
      a := Missing;
    } else {
      var e := it.Deref();
      a := Value(e.val);
    }
  }

  lemma SizeOfTable<K(0, !new), V(0)>(h: SparseHashtable<K, V>)
    requires h.Valid()
    ensures h.Size() == |h.Model()|
  {
    SizeIsMapSize(h.table.Buckets(), h.hash);
  }

  /** Every run of operations on the hash table gives the answers, and leaves the contents, of
      the same run on a map. */
  method Run<K(==, 0, !new), V(0)>(h: SparseHashtable<K, V>, ops: seq<Op<K, V>>, zero: V)
    returns (answers: seq<Answer<V>>)
    requires h.Valid()
    modifies h, h.table.Repr
    ensures h.Valid() && fresh(h.table.Repr - old(h.table.Repr))
    ensures (h.Model(), answers) == Play(old(h.Model()), ops, zero)
  {
    hide Searchable, MapOf, Balanced, CountFull, CountTombstones;
    answers := [];
    var i := 0;
    while i < |ops|
      invariant 0 <= i <= |ops|
      invariant h.Valid() && fresh(h.table.Repr - old(h.table.Repr))
      invariant (h.Model(), answers) == Play(old(h.Model()), ops[..i], zero)
    {
      assert ops[..i + 1][..i] == ops[..i];
      var a := Execute(h, ops[i], zero);
      answers := answers + [a];
      i := i + 1;
    }
    assert ops[..i] == ops;
  }

  /** Assigning an untouched table to one whose only entry has been erased leaves the tombstone
      behind and sets the counter to zero: the target no longer satisfies the table's invariant. */
  method AssignLeavesTombstone<K(==, 0, !new), V(0)>(hash: K -> nat, key: K, val: V) returns (h: SparseHashtable<K, V>)
    ensures fresh(h) && !h.Valid() && h.numDeleted == 0
    ensures h.table.Valid() && CountTombstones(h.table.Buckets()) > 0
  {
    hide SparseHashtable.Valid, SparseHashtable.Model, SparseTable.Valid, SparseTable.Shape;
    hide SparseTable.Buckets, KeyAt, IsCopy;
    h := new SparseHashtable(hash, 0);
    var _, _ := h.Insert(Entry(key, val));
    var n := h.Erase(key);
    SizeOfTable(h);
    var g := new SparseHashtable(hash, 0);
    SizeOfTable(g);
    h.Assign(g);
  }
}
