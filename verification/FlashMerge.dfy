/** Merging flash images: the binaries are sorted by address, checked for overlap and laid out in
    one file with 0xFF between them. */
module FlashMerge {

  type Bytes = seq<bv8>

  datatype Bin = Bin(name: string, addr: int, data: Bytes)

  function End(b: Bin): int {
    b.addr + |b.data|
  }

  ghost predicate Sorted(bins: seq<Bin>) {
    forall i, j :: 0 <= i < j < |bins| ==> bins[i].addr <= bins[j].addr
  }

  /** The binaries at one address, in their order. */
  ghost function AtAddr(bins: seq<Bin>, a: int): seq<Bin> {
    if bins == [] then []
    else (if bins[0].addr == a then [bins[0]] else []) + AtAddr(bins[1..], a)
  }

  /** A rearrangement that keeps the order of binaries at the same address. */
  ghost predicate StablePermutation(bins: seq<Bin>, other: seq<Bin>) {
    multiset(bins) == multiset(other) && forall a :: AtAddr(bins, a) == AtAddr(other, a)
  }

  lemma {:induction false} AtAddrAppend(x: seq<Bin>, y: seq<Bin>, a: int)
    ensures AtAddr(x + y, a) == AtAddr(x, a) + AtAddr(y, a)
    decreases |x|
  {
    if x == [] {
      assert x + y == y;
    } else {
      assert (x + y)[1..] == x[1..] + y;
      AtAddrAppend(x[1..], y, a);
      var head := if x[0].addr == a then [x[0]] else [];
      assert (head + AtAddr(x[1..], a)) + AtAddr(y, a) == head + (AtAddr(x[1..], a) + AtAddr(y, a));
    }
  }

  // ---- sorting ----

  /** The number of binaries below an address. */
  ghost function Below(bins: seq<Bin>, a: int): nat {
    if bins == [] then 0 else (if bins[0].addr < a then 1 else 0) + Below(bins[1..], a)
  }

  /** The number of pairs in the wrong order. */
  ghost function Inversions(bins: seq<Bin>): nat {
    if bins == [] then 0 else Below(bins[1..], bins[0].addr) + Inversions(bins[1..])
  }

  lemma {:induction false} BelowAppend(x: seq<Bin>, y: seq<Bin>, a: int)
    ensures Below(x + y, a) == Below(x, a) + Below(y, a)
    decreases |x|
  {
    if x == [] {
      assert x + y == y;
    } else {
      assert (x + y)[1..] == x[1..] + y;
      BelowAppend(x[1..], y, a);
    }
  }

  lemma BelowPair(p: Bin, q: Bin, a: int)
    ensures Below([p, q], a) == Below([q, p], a)
  {
    assert [p, q][1..] == [q] && [q, p][1..] == [p];
    assert Below([q], a) == (if q.addr < a then 1 else 0) + Below([], a) by { assert [q][1..] == []; }
    assert Below([p], a) == (if p.addr < a then 1 else 0) + Below([], a) by { assert [p][1..] == []; }
  }

  lemma InversionsOfTwo(p: Bin, q: Bin, y: seq<Bin>)
    ensures Inversions([p, q] + y)
         == (if q.addr < p.addr then 1 else 0) + Below(y, p.addr) + Below(y, q.addr) + Inversions(y)
  {
    var s := [p, q] + y;
    assert s[1..] == [q] + y && ([q] + y)[1..] == y;
    assert Below([q] + y, p.addr) == (if q.addr < p.addr then 1 else 0) + Below(y, p.addr);
  }

  /** Swapping two neighbours in the wrong order takes away one inversion. */
  lemma {:induction false} SwapInversions(x: seq<Bin>, p: Bin, q: Bin, y: seq<Bin>)
    requires p.addr > q.addr
    ensures Inversions(x + [q, p] + y) + 1 == Inversions(x + [p, q] + y)
    decreases |x|
  {
    hide Inversions, Below;
    if x == [] {
      assert x + [p, q] + y == [p, q] + y && x + [q, p] + y == [q, p] + y;
      InversionsOfTwo(p, q, y);
      InversionsOfTwo(q, p, y);
    } else {
      SwapInversions(x[1..], p, q, y);
      HeadInversions(x, [p, q], y);
      HeadInversions(x, [q, p], y);
      BelowPair(p, q, x[0].addr);
    }
  }

  lemma HeadInversions(x: seq<Bin>, m: seq<Bin>, y: seq<Bin>)
    requires x != []
    ensures Inversions(x + m + y)
         == Below(x[1..], x[0].addr) + Below(m, x[0].addr) + Below(y, x[0].addr) + Inversions(x[1..] + m + y)
  {
    var a := x[0].addr;
    assert (x + m + y)[1..] == x[1..] + m + y;
    BelowAppend(x[1..] + m, y, a);
    BelowAppend(x[1..], m, a);
  }

  lemma SwapStable(x: seq<Bin>, p: Bin, q: Bin, y: seq<Bin>)
    requires p.addr > q.addr
    ensures StablePermutation(x + [p, q] + y, x + [q, p] + y)
  {
    hide AtAddr;
    forall a ensures AtAddr(x + [p, q] + y, a) == AtAddr(x + [q, p] + y, a) {
      AtAddrAppend(x + [p, q], y, a);
      AtAddrAppend(x, [p, q], a);
      AtAddrAppend(x + [q, p], y, a);
      AtAddrAppend(x, [q, p], a);
      PairAtAddr(p, q, a);
    }
    assert multiset([p, q]) == multiset([q, p]);
  }

  lemma PairAtAddr(p: Bin, q: Bin, a: int)
    requires p.addr != q.addr
    ensures AtAddr([p, q], a) == AtAddr([q, p], a)
  {
    assert [p, q][1..] == [q] && [q, p][1..] == [p] && [p][1..] == [] && [q][1..] == [];
  }

  /** The list with two neighbours swapped. */
  function Swapped(bins: seq<Bin>, i: nat): seq<Bin>
    requires i + 1 < |bins|
  {
    bins[i := bins[i + 1]][i + 1 := bins[i]]
  }

  lemma SwapStep(bins: seq<Bin>, i: nat)
    requires i + 1 < |bins| && bins[i].addr > bins[i + 1].addr
    ensures StablePermutation(bins, Swapped(bins, i))
    ensures Inversions(Swapped(bins, i)) + 1 == Inversions(bins)
  {
    hide StablePermutation, Inversions;
    var x, p, q, y := bins[..i], bins[i], bins[i + 1], bins[i + 2..];
    assert bins == x + [p, q] + y;
    assert Swapped(bins, i) == x + [q, p] + y;
    SwapStable(x, p, q, y);
    SwapInversions(x, p, q, y);
  }

  lemma NeighboursSorted(bins: seq<Bin>)
    requires forall k :: 0 <= k < |bins| - 1 ==> bins[k].addr <= bins[k + 1].addr
    ensures Sorted(bins)
  {
    forall i, j | 0 <= i < j < |bins| ensures bins[i].addr <= bins[j].addr {
      NeighboursReach(bins, i, j);
    }
  }

  lemma {:induction false} NeighboursReach(bins: seq<Bin>, i: nat, j: nat)
    requires forall k :: 0 <= k < |bins| - 1 ==> bins[k].addr <= bins[k + 1].addr
    requires i <= j < |bins|
    ensures bins[i].addr <= bins[j].addr
    decreases j
  {
    if i < j { NeighboursReach(bins, i, j - 1); }
  }

  /** There is only one way to sort stably, so what SortBin leaves does not depend on how it sorts. */
  lemma {:induction false} SortedUnique(x: seq<Bin>, y: seq<Bin>)
    requires Sorted(x) && Sorted(y) && StablePermutation(x, y)
    ensures x == y
    decreases |x|
  {
    hide StablePermutation;
    SameLength(x, y);
    if x != [] {
      FirstSame(x, y);
      TailStable(x, y);
      SortedUnique(x[1..], y[1..]);
      assert x == [x[0]] + x[1..] && y == [y[0]] + y[1..];
    }
  }

  lemma SameLength(x: seq<Bin>, y: seq<Bin>)
    requires StablePermutation(x, y)
    ensures |x| == |y|
  {
    assert |x| == |multiset(x)| == |multiset(y)| == |y|;
  }

  lemma TailStable(x: seq<Bin>, y: seq<Bin>)
    requires x != [] && y != [] && x[0] == y[0] && StablePermutation(x, y)
    ensures StablePermutation(x[1..], y[1..])
  {
    hide AtAddr;
    assert x == [x[0]] + x[1..] && y == [y[0]] + y[1..];
    assert multiset(x[1..]) == multiset(x) - multiset{x[0]};
    assert multiset(y[1..]) == multiset(y) - multiset{y[0]};
    forall b ensures AtAddr(x[1..], b) == AtAddr(y[1..], b) {
      TailAtAddr(x, y, b);
    }
  }

  lemma FirstSame(x: seq<Bin>, y: seq<Bin>)
    requires x != [] && y != [] && Sorted(x) && Sorted(y) && StablePermutation(x, y)
    ensures x[0] == y[0]
  {
    FirstIsLeast(x, y);
    FirstIsLeast(y, x);
    var a := x[0].addr;
    assert x[0] == AtAddr(x, a)[0] && y[0] == AtAddr(y, a)[0];
  }

  lemma FirstIsLeast(x: seq<Bin>, y: seq<Bin>)
    requires x != [] && y != [] && Sorted(x) && multiset(x) == multiset(y)
    ensures x[0].addr <= y[0].addr
  {
    assert y[0] in multiset(x);
    var i :| 0 <= i < |x| && x[i] == y[0];
  }

  lemma TailAtAddr(x: seq<Bin>, y: seq<Bin>, b: int)
    requires x != [] && y != [] && x[0] == y[0] && AtAddr(x, b) == AtAddr(y, b)
    ensures AtAddr(x[1..], b) == AtAddr(y[1..], b)
  {
    if x[0].addr == b {
      assert AtAddr(x, b)[1..] == AtAddr(x[1..], b);
      assert AtAddr(y, b)[1..] == AtAddr(y[1..], b);
    } else {
      assert AtAddr(x, b) == AtAddr(x[1..], b) && AtAddr(y, b) == AtAddr(y[1..], b);
    }
  }

  // ---- the overlap check ----

  /** Every binary ends before all later ones begin. */
  ghost predicate Apart(bins: seq<Bin>) {
    forall i, j :: 0 <= i < j < |bins| ==> End(bins[i]) <= bins[j].addr
  }

  ghost predicate Covers(b: Bin, p: int) {
    b.addr <= p < End(b)
  }

  ghost predicate Disjoint(bins: seq<Bin>) {
    forall i, j, p :: 0 <= i < j < |bins| && Covers(bins[i], p) ==> !Covers(bins[j], p)
  }

  lemma {:induction false} NeighboursApart(bins: seq<Bin>, i: nat, j: nat)
    requires forall k :: 0 < k < |bins| ==> End(bins[k - 1]) <= bins[k].addr
    requires i < j < |bins|
    ensures End(bins[i]) <= bins[j].addr
    decreases j
  {
    if i < j - 1 { NeighboursApart(bins, i, j - 1); }
  }

  /** No two binaries share an address, if the check passes; and for sorted binaries none of which
      is empty, it passes whenever they share none. */
  lemma ApartMeansDisjoint(bins: seq<Bin>)
    ensures Apart(bins) ==> Disjoint(bins)
    ensures Sorted(bins) && (forall b :: b in bins ==> b.data != []) && Disjoint(bins) ==> Apart(bins)
  {
    if Sorted(bins) && (forall b :: b in bins ==> b.data != []) && Disjoint(bins) {
      forall i, j | 0 <= i < j < |bins| ensures End(bins[i]) <= bins[j].addr {
        assert bins[j] in bins;
        assert Covers(bins[j], bins[j].addr);
        assert !Covers(bins[i], bins[j].addr);
      }
    }
  }

  // ---- the output ----

  function Fill(n: int): (f: Bytes)
    ensures |f| == if n > 0 then n else 0
  {
    seq(if n > 0 then n else 0, _ => 0xFF)
  }

  function LastEnd(bins: seq<Bin>): int {
    if bins == [] then 0 else End(bins[|bins| - 1])
  }

  /** The file after appending every binary with the padding before it. */
  function Image(bins: seq<Bin>): Bytes {
    if bins == [] then []
    else
      var init := bins[..|bins| - 1];
      var b := bins[|bins| - 1];
      Image(init) + Fill(b.addr - LastEnd(init)) + b.data
  }

  /** The binary stands in the image exactly at its address. */
  ghost predicate Placed(image: Bytes, b: Bin) {
    0 <= b.addr && End(b) <= |image| && image[b.addr..End(b)] == b.data
  }

  ghost predicate Covered(bins: seq<Bin>, p: int) {
    exists i :: 0 <= i < |bins| && Covers(bins[i], p)
  }

  /** The image of binaries that are apart and start at zero or above: every binary at its address,
      0xFF everywhere else, and nothing behind the last one. */
  ghost predicate Laid(bins: seq<Bin>, image: Bytes) {
    |image| == LastEnd(bins) &&
    (forall i :: 0 <= i < |bins| ==> Placed(image, bins[i])) &&
    (forall p :: 0 <= p < |image| && !Covered(bins, p) ==> image[p] == 0xFF)
  }

  lemma {:induction false} ImageLaid(bins: seq<Bin>)
    requires Apart(bins) && (bins != [] ==> bins[0].addr >= 0)
    ensures Laid(bins, Image(bins))
    decreases |bins|
  {
    if bins != [] {
      var n := |bins| - 1;
      ImageLaid(bins[..n]);
      OneMoreLaid(bins, Image(bins[..n]));
    }
  }

  lemma OneMoreLaid(bins: seq<Bin>, image: Bytes)
    requires bins != [] && Apart(bins) && bins[0].addr >= 0 && Laid(bins[..|bins| - 1], image)
    ensures var b := bins[|bins| - 1];
            Laid(bins, image + Fill(b.addr - LastEnd(bins[..|bins| - 1])) + b.data)
  {
    var n := |bins| - 1;
    var b, init := bins[n], bins[..n];
    var more := image + Fill(b.addr - LastEnd(init)) + b.data;
    assert |image| <= b.addr;
    assert more[b.addr..End(b)] == b.data;
    forall i | 0 <= i < n ensures Placed(more, bins[i]) {
      StaysPlaced(image, more, init[i]);
    }
    forall p | 0 <= p < |more| && !Covered(bins, p) ensures more[p] == 0xFF {
      CoveredIff(bins, p);
    }
  }

  lemma StaysPlaced(image: Bytes, more: Bytes, b: Bin)
    requires Placed(image, b) && image <= more
    ensures Placed(more, b)
  {
    assert more[b.addr..End(b)] == image[b.addr..End(b)];
  }

  lemma CoveredIff(bins: seq<Bin>, p: int)
    requires bins != []
    ensures Covered(bins, p) <==> Covered(bins[..|bins| - 1], p) || Covers(bins[|bins| - 1], p)
  {
    var init := bins[..|bins| - 1];
    if i :| 0 <= i < |init| && Covers(init[i], p) { assert Covers(bins[i], p); }
    if i :| 0 <= i < |bins| && Covers(bins[i], p) { assert i < |init| ==> Covers(init[i], p); }
  }

  /** With the check passed, every binary stands at its address if and only if the first address is
      not negative. */
  lemma LaidIff(bins: seq<Bin>)
    requires Apart(bins) && bins != []
    ensures Laid(bins, Image(bins)) <==> bins[0].addr >= 0
  {
    if bins[0].addr >= 0 { ImageLaid(bins); }
  }

  /** The binaries with k taken from every address. */
  function Shifted(bins: seq<Bin>, k: int): (r: seq<Bin>)
    ensures |r| == |bins|
    ensures forall i :: 0 <= i < |bins| ==> r[i] == bins[i].(addr := bins[i].addr - k)
  {
    seq(|bins|, i requires 0 <= i < |bins| => bins[i].(addr := bins[i].addr - k))
  }

  /** Before the first binary nothing can be left out: with a negative first address every binary
      stands as far behind the first one as its address says, from the start of the file on. */
  lemma NegativeStart(bins: seq<Bin>)
    requires Apart(bins) && bins != [] && bins[0].addr < 0
    ensures Laid(Shifted(bins, bins[0].addr), Image(bins))
  {
    var s := Shifted(bins, bins[0].addr);
    assert Apart(s);
    ImageLaid(s);
    SameImage(bins);
  }

  lemma {:induction false} SameImage(bins: seq<Bin>)
    requires bins != [] && bins[0].addr < 0
    ensures Image(bins) == Image(Shifted(bins, bins[0].addr))
    decreases |bins|
  {
    var k := bins[0].addr;
    var s := Shifted(bins, k);
    var n := |bins| - 1;
    assert s[..n] == Shifted(bins[..n], k);
    if n > 0 {
      SameImage(bins[..n]);
    } else {
      assert Fill(k) == Fill(0) == [];
    }
  }

  class MultipleBin {
    var bins: seq<Bin>

    constructor ()
      ensures bins == []
    {
      bins := [];
    }

    method AddBin(b: Bin)
      modifies this
      ensures bins == old(bins) + [b]
    {
      bins := bins + [b];
    }

    /** Bubble sort: terminates, sorts, and keeps the order of binaries at the same address. */
    method SortBin()
      modifies this
      ensures Sorted(bins) && StablePermutation(old(bins), bins)
    {
      hide StablePermutation, Inversions;
      assert StablePermutation(bins, bins) by { StableSelf(bins); }
      var swapped := true;
      while swapped
        invariant StablePermutation(old(bins), bins)
        invariant !swapped ==> forall k :: 0 <= k < |bins| - 1 ==> bins[k].addr <= bins[k + 1].addr
        decreases Inversions(bins), if swapped then 1 else 0
      {
        swapped := false;
        ghost var before := Inversions(bins);
        var last := if |bins| == 0 then 0 else |bins| - 1;
        for i := 0 to last
          invariant last == if |bins| == 0 then 0 else |bins| - 1
          invariant StablePermutation(old(bins), bins)
          invariant if swapped then Inversions(bins) < before else Inversions(bins) == before
          invariant !swapped ==> forall k :: 0 <= k < i ==> bins[k].addr <= bins[k + 1].addr
        {
          if bins[i].addr > bins[i + 1].addr {
            SwapStep(bins, i);
            StableTrans(old(bins), bins, Swapped(bins, i));
            bins := bins[i := bins[i + 1]][i + 1 := bins[i]];
            swapped := true;
          }
        }
      }
      NeighboursSorted(bins);
    }

    /** The check of neighbours decides whether all binaries are apart. */
    method CheckIfPossible() returns (possible: bool)
      ensures possible <==> Apart(bins)
    {
      for i := 1 to if |bins| == 0 then 1 else |bins|
        invariant forall k :: 0 < k < i ==> End(bins[k - 1]) <= bins[k].addr
      {
        if bins[i].addr < End(bins[i - 1]) { return false; }
      }
      forall i, j | 0 <= i < j < |bins| ensures End(bins[i]) <= bins[j].addr {
        NeighboursApart(bins, i, j);
      }
      return true;
    }

    method CreateBin() returns (output: Bytes)
      ensures output == Image(bins)
    {
      output := [];
      var newStart := 0;
      for i := 0 to |bins|
        invariant output == Image(bins[..i]) && newStart == LastEnd(bins[..i])
      {
        var b := bins[i];
        assert bins[..i + 1][..i] == bins[..i];
        output := output + Fill(b.addr - newStart);
        output := output + b.data;
        newStart := End(b);
      }
      assert bins[..|bins|] == bins;
    }

    /** The whole script: refused exactly when binaries overlap, otherwise one image in which every
        binary that was added stands at its address. */
    method Merge() returns (output: Bytes, possible: bool)
      modifies this
      ensures Sorted(bins) && StablePermutation(old(bins), bins)
      ensures possible <==> Apart(bins)
      ensures possible && (forall b :: b in old(bins) ==> b.addr >= 0) ==>
                Laid(bins, output) && Disjoint(bins) &&
                forall b :: b in old(bins) ==> Placed(output, b)
      ensures possible && bins != [] && bins[0].addr < 0 ==> Laid(Shifted(bins, bins[0].addr), output)
    {
      SortBin();
      possible := CheckIfPossible();
      output := [];
      if possible {
        output := CreateBin();
        ApartMeansDisjoint(bins);
        SameMembers(old(bins), bins);
        if bins != [] && bins[0].addr < 0 { NegativeStart(bins); }
        if forall b :: b in old(bins) ==> b.addr >= 0 {
          assert bins != [] ==> bins[0] in old(bins);
          ImageLaid(bins);
        }
      }
    }
  }

  lemma SameMembers(x: seq<Bin>, y: seq<Bin>)
    requires StablePermutation(x, y)
    ensures forall b :: b in x <==> b in y
  {
    forall b ensures b in x <==> b in y {
      assert b in multiset(x) <==> b in multiset(y);
    }
  }

  lemma StableSelf(x: seq<Bin>)
    ensures StablePermutation(x, x)
  {
  }

  lemma StableTrans(x: seq<Bin>, y: seq<Bin>, z: seq<Bin>)
    requires StablePermutation(x, y) && StablePermutation(y, z)
    ensures StablePermutation(x, z)
  {
  }
}
