/** What a bucket of the sparse table can hold, and the counts the table keeps. */
module Slots {

  datatype Slot<+T> = Empty | Tombstone | Full(val: T)

  /** How many buckets of s hold a value. */
  function CountFull<T>(s: seq<Slot<T>>): nat {
    if s == [] then 0 else CountFull(s[..|s| - 1]) + if s[|s| - 1].Full? then 1 else 0
  }

  /** How many buckets of s remember an erased value. */
  function CountTombstones<T>(s: seq<Slot<T>>): nat {
    if s == [] then 0 else CountTombstones(s[..|s| - 1]) + if s[|s| - 1].Tombstone? then 1 else 0
  }

  lemma {:induction false} CountUpdate<T>(s: seq<Slot<T>>, i: nat, v: Slot<T>)
    requires i < |s|
    ensures CountFull(s[i := v]) == CountFull(s) - (if s[i].Full? then 1 else 0) + if v.Full? then 1 else 0
    ensures CountTombstones(s[i := v])
            == CountTombstones(s) - (if s[i].Tombstone? then 1 else 0) + if v.Tombstone? then 1 else 0
    decreases |s|
  {
    var n := |s| - 1;
    if i == n {
      assert s[i := v][..n] == s[..n];
    } else {
      assert s[i := v][..n] == s[..n][i := v];
      CountUpdate(s[..n], i, v);
    }
  }

  lemma {:induction false} CountAppend<T>(a: seq<Slot<T>>, b: seq<Slot<T>>)
    ensures CountFull(a + b) == CountFull(a) + CountFull(b)
    ensures CountTombstones(a + b) == CountTombstones(a) + CountTombstones(b)
    decreases |b|
  {
    if b == [] {
      assert a + b == a;
    } else {
      var n := |b| - 1;
      assert (a + b)[..|a + b| - 1] == a + b[..n];
      CountAppend(a, b[..n]);
    }
  }

  lemma {:induction false} CountNone<T>(s: seq<Slot<T>>)
    requires forall i :: 0 <= i < |s| ==> s[i].Empty?
    ensures CountFull(s) == 0 && CountTombstones(s) == 0
    decreases |s|
  {
    if s != [] { CountNone(s[..|s| - 1]); }
  }

  /** A bucket that is neither full nor a tombstone exists while the two counts leave room. */
  lemma {:induction false} CountAll<T>(s: seq<Slot<T>>)
    ensures CountFull(s) + CountTombstones(s) <= |s|
    ensures CountFull(s) + CountTombstones(s) == |s| <==> forall i :: 0 <= i < |s| ==> !s[i].Empty?
    decreases |s|
  {
    if s != [] {
      var n := |s| - 1;
      CountAll(s[..n]);
      assert forall i :: 0 <= i < n ==> s[i] == s[..n][i];
    }
  }

  /** The values of the full buckets, in bucket order. */
  function Values<T>(s: seq<Slot<T>>): (vals: seq<T>)
    ensures |vals| == CountFull(s)
  {
    if s == [] then []
    else Values(s[..|s| - 1]) + if s[|s| - 1].Full? then [s[|s| - 1].val] else []
  }

  lemma {:induction false} ValuesAppend<T>(a: seq<Slot<T>>, b: seq<Slot<T>>)
    ensures Values(a + b) == Values(a) + Values(b)
    decreases |b|
  {
    if b == [] {
      assert a + b == a;
    } else {
      var n := |b| - 1;
      assert (a + b)[..|a + b| - 1] == a + b[..n];
      ValuesAppend(a, b[..n]);
    }
  }

  lemma {:induction false} ValuesNone<T>(s: seq<Slot<T>>)
    requires forall i :: 0 <= i < |s| ==> !s[i].Full?
    ensures Values(s) == []
    decreases |s|
  {
    if s != [] { ValuesNone(s[..|s| - 1]); }
  }

  /** The value of a full bucket comes after those of the full buckets before it. */
  lemma ValuesAt<T>(s: seq<Slot<T>>, i: nat)
    requires i < |s| && s[i].Full?
    ensures CountFull(s[..i]) < CountFull(s)
    ensures Values(s)[CountFull(s[..i])] == s[i].val
    ensures Values(s) == Values(s[..i]) + [s[i].val] + Values(s[i + 1..])
  {
    hide Values, CountFull;
    assert s == s[..i + 1] + s[i + 1..];
    ValuesLast(s, i);
    ValuesAppend(s[..i + 1], s[i + 1..]);
  }

  lemma ValuesLast<T>(s: seq<Slot<T>>, i: nat)
    requires i < |s| && s[i].Full?
    ensures Values(s[..i + 1]) == Values(s[..i]) + [s[i].val]
  {
    assert s[..i + 1][..i] == s[..i];
  }

  /** The number of full buckets before a full bucket identifies it. */
  lemma FullIndexUnique<T>(s: seq<Slot<T>>, i: nat, j: nat)
    requires i < |s| && j < |s| && s[i].Full? && s[j].Full?
    requires CountFull(s[..i]) == CountFull(s[..j])
    ensures i == j
  {
    if i < j { CountGrows(s, i, j); } else if j < i { CountGrows(s, j, i); }
  }

  lemma CountGrows<T>(s: seq<Slot<T>>, i: nat, j: nat)
    requires i < j <= |s| && s[i].Full?
    ensures CountFull(s[..i]) < CountFull(s[..j])
  {
    assert s[..j] == s[..i + 1] + s[i + 1..j];
    assert s[..i + 1][..i] == s[..i];
    CountAppend(s[..i + 1], s[i + 1..j]);
  }
}
