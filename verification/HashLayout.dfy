/** Open addressing on a sequence of buckets: what makes a layout of entries searchable,
    and the map such a layout stands for. */
module HashLayout {
  import opened Slots
  import opened Probing

  datatype Entry<K, V> = Entry(key: K, val: V)

  type Layout<K, V> = seq<Slot<Entry<K, V>>>

  // ---- the map a list of entries stands for ----

  ghost predicate DistinctKeys<K, V>(es: seq<Entry<K, V>>) {
    forall i, j :: 0 <= i < j < |es| ==> es[i].key != es[j].key
  }

  ghost function FromEntries<K, V>(es: seq<Entry<K, V>>): map<K, V> {
    if es == [] then map[]
    else FromEntries(es[..|es| - 1])[es[|es| - 1].key := es[|es| - 1].val]
  }

  ghost predicate HasKey<K, V>(es: seq<Entry<K, V>>, k: K) {
    exists i :: 0 <= i < |es| && es[i].key == k
  }

  lemma {:induction false} FromEntriesKeys<K, V>(es: seq<Entry<K, V>>, k: K)
    ensures k in FromEntries(es) <==> HasKey(es, k)
    decreases |es|
  {
    if es != [] {
      var n := |es| - 1;
      FromEntriesKeys(es[..n], k);
      if HasKey(es[..n], k) {
        var i :| 0 <= i < n && es[..n][i].key == k;
        assert es[i].key == k;
      }
      if HasKey(es, k) && es[n].key != k {
        var i :| 0 <= i < |es| && es[i].key == k;
        assert es[..n][i].key == k;
      }
    }
  }

  lemma {:induction false} FromEntriesAt<K, V>(es: seq<Entry<K, V>>, i: nat)
    requires DistinctKeys(es) && i < |es|
    ensures es[i].key in FromEntries(es) && FromEntries(es)[es[i].key] == es[i].val
    decreases |es|
  {
    var n := |es| - 1;
    if i < n { FromEntriesAt(es[..n], i); }
  }

  lemma {:induction false} FromEntriesSize<K, V>(es: seq<Entry<K, V>>)
    requires DistinctKeys(es)
    ensures |FromEntries(es)| == |es|
    decreases |es|
  {
    if es != [] {
      var n := |es| - 1;
      FromEntriesSize(es[..n]);
      FromEntriesKeys(es[..n], es[n].key);
      var m := FromEntries(es[..n]);
      assert es[n].key !in m;
      assert m[es[n].key := es[n].val].Keys == m.Keys + {es[n].key};
    }
  }

  /** Where an entry stands in the list does not matter. */
  lemma FromEntriesInsert<K, V>(a: seq<Entry<K, V>>, e: Entry<K, V>, b: seq<Entry<K, V>>)
    requires DistinctKeys(a + b) && e.key !in FromEntries(a + b)
    ensures DistinctKeys(a + [e] + b)
    ensures FromEntries(a + [e] + b) == FromEntries(a + b)[e.key := e.val]
  {
    var es, rest := a + [e] + b, a + b;
    FromEntriesKeys(rest, e.key);
    forall i, j | 0 <= i < j < |es|
      ensures es[i].key != es[j].key
    {
      var i' := if i < |a| then i else i - 1;
      var j' := if j < |a| then j else j - 1;
      assert i != |a| ==> rest[i'] == es[i];
      assert j != |a| ==> rest[j'] == es[j];
    }
    var m := FromEntries(rest)[e.key := e.val];
    forall i | 0 <= i < |es|
      ensures es[i].key in m && m[es[i].key] == es[i].val
    {
      if i != |a| {
        var i' := if i < |a| then i else i - 1;
        assert rest[i'] == es[i];
        FromEntriesAt(rest, i');
      }
    }
    forall k | k in m
      ensures HasKey(es, k)
    {
      if k == e.key {
        assert es[|a|].key == k;
      } else {
        FromEntriesKeys(rest, k);
        var i :| 0 <= i < |rest| && rest[i].key == k;
        assert es[if i < |a| then i else i + 1].key == k;
      }
    }
    SameMap(es, m);
  }

  lemma SameMap<K, V>(es: seq<Entry<K, V>>, m: map<K, V>)
    requires DistinctKeys(es)
    requires forall i :: 0 <= i < |es| ==> es[i].key in m && m[es[i].key] == es[i].val
    requires forall k :: k in m ==> HasKey(es, k)
    ensures FromEntries(es) == m
  {
    forall k | k in FromEntries(es)
      ensures k in m
    {
      FromEntriesKeys(es, k);
    }
    forall k | k in m
      ensures k in FromEntries(es) && FromEntries(es)[k] == m[k]
    {
      FromEntriesKeys(es, k);
      var i :| 0 <= i < |es| && es[i].key == k;
      FromEntriesAt(es, i);
    }
    assert FromEntries(es).Keys == m.Keys;
  }

  /** Removing an entry from the list removes its key from the map. */
  lemma FromEntriesRemove<K, V>(a: seq<Entry<K, V>>, e: Entry<K, V>, b: seq<Entry<K, V>>)
    requires DistinctKeys(a + [e] + b)
    ensures DistinctKeys(a + b) && e.key !in FromEntries(a + b)
    ensures FromEntries(a + b) == FromEntries(a + [e] + b) - {e.key}
  {
    var es, rest := a + [e] + b, a + b;
    forall i, j | 0 <= i < j < |rest|
      ensures rest[i].key != rest[j].key
    {
      var i' := if i < |a| then i else i + 1;
      var j' := if j < |a| then j else j + 1;
      assert rest[i] == es[i'] && rest[j] == es[j'];
    }
    FromEntriesKeys(rest, e.key);
    forall i | 0 <= i < |rest|
      ensures rest[i].key != e.key
    {
      var i' := if i < |a| then i else i + 1;
      assert rest[i] == es[i'] && es[|a|] == e;
    }
    FromEntriesInsert(a, e, b);
    var m := FromEntries(rest);
    assert m[e.key := e.val] - {e.key} == m;
  }

  // ---- the map a layout stands for ----

  /** The entries found by scanning every bucket, as a map. */
  ghost function MapOf<K, V>(s: Layout<K, V>): map<K, V> {
    FromEntries(Values(s))
  }

  ghost predicate Unique<K, V>(s: Layout<K, V>) {
    DistinctKeys(Values(s))
  }

  lemma MapOfAt<K, V>(s: Layout<K, V>, i: nat)
    requires Unique(s) && i < |s| && s[i].Full?
    ensures s[i].val.key in MapOf(s) && MapOf(s)[s[i].val.key] == s[i].val.val
  {
    ValuesAt(s, i);
    FromEntriesAt(Values(s), CountFull(s[..i]));
  }

  /** No key is stored in two buckets. */
  lemma OneBucketPerKey<K, V>(s: Layout<K, V>, i: nat, j: nat)
    requires Unique(s) && i < |s| && j < |s| && s[i].Full? && s[j].Full? && s[i].val.key == s[j].val.key
    ensures i == j
  {
    ValuesAt(s, i);
    ValuesAt(s, j);
    var a, b := CountFull(s[..i]), CountFull(s[..j]);
    assert a == b by {
      assert Values(s)[a].key == Values(s)[b].key;
    }
    FullIndexUnique(s, i, j);
  }

  lemma {:induction false} ValueHasBucket<T>(s: seq<Slot<T>>, k: nat) returns (i: nat)
    requires k < |Values(s)|
    ensures i < |s| && s[i].Full? && s[i].val == Values(s)[k]
    decreases |s|
  {
    var n := |s| - 1;
    if k < |Values(s[..n])| {
      i := ValueHasBucket(s[..n], k);
    } else {
      i := n;
    }
  }

  lemma KeyHasBucket<K, V>(s: Layout<K, V>, key: K) returns (i: nat)
    requires key in MapOf(s)
    ensures i < |s| && s[i].Full? && s[i].val.key == key
  {
    FromEntriesKeys(Values(s), key);
    var k :| 0 <= k < |Values(s)| && Values(s)[k].key == key;
    i := ValueHasBucket(s, k);
  }

  lemma ValuesUpdate<T>(s: seq<Slot<T>>, i: nat, v: Slot<T>)
    requires i < |s|
    ensures Values(s[i := v]) == Values(s[..i]) + (if v.Full? then [v.val] else []) + Values(s[i + 1..])
  {
    var s' := s[i := v];
    assert s' == s'[..i + 1] + s'[i + 1..];
    assert s'[..i + 1][..i] == s[..i] && s'[i + 1..] == s[i + 1..];
    ValuesAppend(s'[..i + 1], s'[i + 1..]);
  }

  /** Filling an unfilled bucket with a new key adds the key to the map. */
  lemma MapOfFill<K, V>(s: Layout<K, V>, i: nat, e: Entry<K, V>)
    requires Unique(s) && i < |s| && !s[i].Full? && e.key !in MapOf(s)
    ensures Unique(s[i := Full(e)]) && MapOf(s[i := Full(e)]) == MapOf(s)[e.key := e.val]
  {
    var a, b := Values(s[..i]), Values(s[i + 1..]);
    assert s[i := s[i]] == s;
    ValuesUpdate(s, i, s[i]);
    ValuesUpdate(s, i, Full(e));
    assert a + [] + b == a + b;
    FromEntriesInsert(a, e, b);
  }

  /** Turning a full bucket into a tombstone removes its key from the map. */
  lemma MapOfErase<K, V>(s: Layout<K, V>, i: nat)
    requires Unique(s) && i < |s| && s[i].Full?
    ensures Unique(s[i := Tombstone]) && MapOf(s[i := Tombstone]) == MapOf(s) - {s[i].val.key}
  {
    var a, b := Values(s[..i]), Values(s[i + 1..]);
    ValuesAt(s, i);
    ValuesUpdate(s, i, Tombstone);
    assert a + [] + b == a + b;
    FromEntriesRemove(a, s[i].val, b);
  }

  /** Overwriting the value of a full bucket changes the map at its key. */
  lemma MapOfAssign<K, V>(s: Layout<K, V>, i: nat, val: V)
    requires Unique(s) && i < |s| && s[i].Full?
    ensures var s' := s[i := Full(Entry(s[i].val.key, val))];
      Unique(s') && MapOf(s') == MapOf(s)[s[i].val.key := val]
  {
    var e := Entry(s[i].val.key, val);
    MapOfErase(s, i);
    assert s[i := Tombstone][i := Full(e)] == s[i := Full(e)];
    assert e.key !in MapOf(s[i := Tombstone]);
    MapOfFill(s[i := Tombstone], i, e);
    assert (MapOf(s) - {e.key})[e.key := val] == MapOf(s)[e.key := val];
  }

  // ---- probe paths ----

  /** No empty bucket among the first p probes for the hash. */
  ghost predicate Passable<T>(s: seq<Slot<T>>, h: nat, p: nat)
    requires |s| > 0
  {
    forall q: nat :: q < p ==> !s[Probe(h, q, |s|)].Empty?
  }

  /** Bucket i lies on the probe path for the hash with no empty bucket before it. */
  ghost predicate Reachable<T>(s: seq<Slot<T>>, h: nat, i: nat)
    requires |s| > 0
  {
    exists p: nat :: p < |s| && Probe(h, p, |s|) == i && Passable(s, h, p)
  }

  /** The layout can be searched: every entry is reachable from its own hash, no key twice,
      and a strictly empty bucket stops every search. */
  ghost predicate Searchable<K(!new), V>(s: Layout<K, V>, hash: K -> nat) {
    && IsPow2(|s|) && |s| > 0
    && Unique(s)
    && (forall i {:trigger s[i]} :: 0 <= i < |s| && s[i].Full? ==> Reachable(s, hash(s[i].val.key), i))
    && CountFull(s) + CountTombstones(s) < |s|
  }

  /** Every search meets an empty bucket within one round: probing never wraps around. */
  lemma SearchEnds<T>(s: seq<Slot<T>>, h: nat, p: nat)
    requires |s| > 0 && IsPow2(|s|) && CountFull(s) + CountTombstones(s) < |s|
    requires Passable(s, h, p)
    ensures p < |s|
  {
    if p >= |s| {
      CountAll(s);
      var i :| 0 <= i < |s| && s[i].Empty?;
      var q := ProbesCover(h, i, |s|);
      assert false;
    }
  }

  /** A search that has passed p buckets without meeting the key and stands on an empty one has proved it absent. */
  lemma AbsentIfEmpty<K(!new), V>(s: Layout<K, V>, hash: K -> nat, key: K, p: nat)
    requires Searchable(s, hash) && p < |s| && s[Probe(hash(key), p, |s|)].Empty?
    requires forall q: nat :: q < p ==> !IsKey(s[Probe(hash(key), q, |s|)], key)
    ensures key !in MapOf(s)
  {
    if key in MapOf(s) {
      var i := KeyHasBucket(s, key);
      assert false;
    }
  }

  ghost predicate IsKey<K, V>(slot: Slot<Entry<K, V>>, key: K) {
    slot.Full? && slot.val.key == key
  }

  lemma ReachableAfter<T>(s: seq<Slot<T>>, i: nat, v: Slot<T>, h: nat, j: nat)
    requires i < |s| && !v.Empty? && Reachable(s, h, j)
    ensures Reachable(s[i := v], h, j)
  {
    var p: nat :| p < |s| && Probe(h, p, |s|) == j && Passable(s, h, p);
    assert Passable(s[i := v], h, p);
  }

  /** Putting a new entry on an unfilled bucket of its probe path keeps the layout searchable. */
  lemma InsertKeeps<K(!new), V>(s: Layout<K, V>, hash: K -> nat, i: nat, e: Entry<K, V>)
    requires Searchable(s, hash) && i < |s| && !s[i].Full? && e.key !in MapOf(s)
    requires Reachable(s, hash(e.key), i)
    requires CountFull(s) + CountTombstones(s) + 1 < |s|
    ensures Searchable(s[i := Full(e)], hash)
    ensures MapOf(s[i := Full(e)]) == MapOf(s)[e.key := e.val]
  {
    var s' := s[i := Full(e)];
    MapOfFill(s, i, e);
    CountUpdate(s, i, Full(e));
    forall j | 0 <= j < |s'| && s'[j].Full?
      ensures Reachable(s', hash(s'[j].val.key), j)
    {
      assert Reachable(s, hash(s'[j].val.key), j);
      ReachableAfter(s, i, Full(e), hash(s'[j].val.key), j);
    }
  }

  lemma EraseKeeps<K(!new), V>(s: Layout<K, V>, hash: K -> nat, i: nat)
    requires Searchable(s, hash) && i < |s| && s[i].Full?
    ensures Searchable(s[i := Tombstone], hash)
    ensures MapOf(s[i := Tombstone]) == MapOf(s) - {s[i].val.key}
  {
    var s' := s[i := Tombstone];
    MapOfErase(s, i);
    CountUpdate(s, i, Tombstone);
    forall j | 0 <= j < |s'| && s'[j].Full?
      ensures Reachable(s', hash(s'[j].val.key), j)
    {
      assert s[j] == s'[j];
      ReachableAfter(s, i, Tombstone, hash(s'[j].val.key), j);
    }
  }

  lemma AssignKeeps<K(!new), V>(s: Layout<K, V>, hash: K -> nat, i: nat, val: V)
    requires Searchable(s, hash) && i < |s| && s[i].Full?
    ensures var s' := s[i := Full(Entry(s[i].val.key, val))];
      Searchable(s', hash) && MapOf(s') == MapOf(s)[s[i].val.key := val]
  {
    var e := Entry(s[i].val.key, val);
    var s' := s[i := Full(e)];
    MapOfAssign(s, i, val);
    CountUpdate(s, i, Full(e));
    forall j | 0 <= j < |s'| && s'[j].Full?
      ensures Reachable(s', hash(s'[j].val.key), j)
    {
      assert s'[j].val.key == s[j].val.key && s[j].Full?;
      ReachableAfter(s, i, Full(e), hash(s'[j].val.key), j);
    }
  }

  lemma EmptySearchable<K(!new), V>(s: Layout<K, V>, hash: K -> nat)
    requires IsPow2(|s|) && |s| > 0 && forall i :: 0 <= i < |s| ==> s[i].Empty?
    ensures Searchable(s, hash) && MapOf(s) == map[]
    ensures CountFull(s) == 0 && CountTombstones(s) == 0
  {
    CountNone(s);
    ValuesNone(s);
  }
}
