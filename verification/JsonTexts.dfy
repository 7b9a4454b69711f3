/** What the page scanner does on any text at all, balanced or not, said by counting characters. */
module JsonTexts {
  import opened Json

  function Number(s: string, c: char): nat {
    if s == "" then 0 else Number(s[..|s| - 1], c) + if s[|s| - 1] == c then 1 else 0
  }

  lemma NumberNext(s: string, n: nat, c: char)
    requires n < |s|
    ensures Number(s[..n + 1], c) == Number(s[..n], c) + if s[n] == c then 1 else 0
  {
    assert s[..n + 1][..n] == s[..n];
  }

  /** Up to position n as many braces have been opened as closed, as far as a byte can tell. */
  predicate Even(s: string, n: nat)
    requires n <= |s|
  {
    Number(s[..n], '{') % 256 == Number(s[..n], '}') % 256
  }

  /** A closing brace at j makes things even, and is not one whose number a byte shows as zero. */
  predicate EndsAt(s: string, j: nat) {
    j < |s| && s[j] == '}' && Number(s[..j + 1], '}') % 256 != 0 && Even(s, j + 1)
  }

  function Ends(s: string, n: nat): nat
    requires n <= |s|
  {
    if n == 0 then 0 else Ends(s, n - 1) + if EndsAt(s, n - 1) then 1 else 0
  }

  /** An opening brace at i while things are even. */
  predicate OpensAt(s: string, i: nat) {
    i < |s| && s[i] == '{' && Even(s, i)
  }

  /** The position, counted from pos, of the last such brace before n, or -1. */
  ghost predicate LastOpen(s: string, n: nat, pos: nat, first: int) {
    (first == -1 && forall i :: 0 <= i < n ==> !OpensAt(s, i)) ||
    (pos <= first < pos + n && OpensAt(s, first - pos) &&
     forall i :: first - pos < i < n ==> !OpensAt(s, i))
  }

  /** What the search has found before position n. */
  ghost predicate Found(s: string, n: nat, pos: nat, f: Finder)
    requires n <= |s|
  {
    f.open == Number(s[..n], '{') && f.close == Number(s[..n], '}') && LastOpen(s, n, pos, f.first) &&
    |f.found| == Ends(s, n) && forall j :: 0 <= j < n && EndsAt(s, j) ==> FoundAt(s, j, pos, f.found)
  }

  /** The end at j has its number in the order of ends, and a span from the last opening brace. */
  ghost predicate FoundAt(s: string, j: nat, pos: nat, found: seq<Span>) {
    j < |s| && Ends(s, j) < |found| && found[Ends(s, j)].last == pos + j &&
    LastOpen(s, j, pos, found[Ends(s, j)].first)
  }

  lemma {:induction false} EndsGrow(s: string, j: nat, n: nat)
    requires j <= n <= |s|
    ensures Ends(s, j) <= Ends(s, n) && (j < n && EndsAt(s, j) ==> Ends(s, j) < Ends(s, n))
    decreases n
  {
    hide EndsAt;
    if j < n { EndsGrow(s, j, n - 1); }
  }

  lemma RunNext(s: string, n: nat, pos: nat)
    requires n < |s|
    ensures FindRun(SEARCH, s[..n + 1], pos) == FindStep(FindRun(SEARCH, s[..n], pos), s[n], pos + n)
  {
    hide FindRun, FindStep;
    assert s[..n + 1] == s[..n] + [s[n]];
    FindAppend(SEARCH, s[..n], [s[n]], pos);
    FindOne(FindRun(SEARCH, s[..n], pos), s[n], pos + n);
  }

  lemma FoundNext(s: string, n: nat, pos: nat, f: Finder)
    requires n < |s| && Found(s, n, pos, f)
    ensures Found(s, n + 1, pos, FindStep(f, s[n], pos + n))
  {
    hide Number, LastOpen, EndsAt, OpensAt, FoundAt;
    var g := FindStep(f, s[n], pos + n);
    NumberNext(s, n, '{');
    NumberNext(s, n, '}');
    OpenNext(s, n, pos, f.first);
    StepFirst(s, n, pos, f);
    StepEnd(s, n, pos, f);
    forall j | 0 <= j < n + 1 && EndsAt(s, j) ensures FoundAt(s, j, pos, g.found) {
      if j < n {
        EndsGrow(s, j, n);
        FoundStays(s, j, pos, f.found, g.found);
      } else {
        NewEnd(s, n, pos, f, g);
      }
    }
  }

  lemma OpenNext(s: string, n: nat, pos: nat, first: int)
    requires n < |s| && LastOpen(s, n, pos, first)
    ensures LastOpen(s, n + 1, pos, if OpensAt(s, n) then pos + n else first)
  {
    hide OpensAt;
  }

  lemma StepFirst(s: string, n: nat, pos: nat, f: Finder)
    requires n < |s| && f.open == Number(s[..n], '{') && f.close == Number(s[..n], '}')
    ensures FindStep(f, s[n], pos + n).first == if OpensAt(s, n) then pos + n else f.first
  {
    hide Number;
  }

  lemma StepEnd(s: string, n: nat, pos: nat, f: Finder)
    requires n < |s| && f.open == Number(s[..n], '{') && f.close == Number(s[..n], '}')
    ensures FindStep(f, s[n], pos + n).found
         == if EndsAt(s, n) then f.found + [Span(f.first, pos + n)] else f.found
  {
    hide Number;
    NumberNext(s, n, '{');
    NumberNext(s, n, '}');
  }

  lemma FoundStays(s: string, j: nat, pos: nat, found: seq<Span>, more: seq<Span>)
    requires FoundAt(s, j, pos, found) && found <= more
    ensures FoundAt(s, j, pos, more)
  {
    hide LastOpen;
  }

  lemma NewEnd(s: string, n: nat, pos: nat, f: Finder, g: Finder)
    requires n < |s| && EndsAt(s, n) && |f.found| == Ends(s, n) && LastOpen(s, n, pos, f.first)
    requires g.found == f.found + [Span(f.first, pos + n)]
    ensures FoundAt(s, n, pos, g.found)
  {
    hide LastOpen, EndsAt;
  }

  lemma {:induction false} RunFinds(s: string, n: nat, pos: nat)
    requires n <= |s|
    ensures Found(s, n, pos, FindRun(SEARCH, s[..n], pos))
    decreases n
  {
    hide Found, FindStep;
    if n == 0 {
      FoundNothing(s, pos);
    } else {
      RunFinds(s, n - 1, pos);
      RunNext(s, n - 1, pos);
      FoundNext(s, n - 1, pos, FindRun(SEARCH, s[..n - 1], pos));
    }
  }

  lemma FoundNothing(s: string, pos: nat)
    ensures Found(s, 0, pos, FindRun(SEARCH, s[..0], pos))
  {
  }

  /** For every text: as many spans are found as there are ends, and the end with number k in order is
      the last position of span k, whose first position is that of the last opening brace that found
      things even, or -1. */
  lemma SearchMeans(s: string, pos: nat)
    ensures |FindRun(SEARCH, s, pos).found| == Ends(s, |s|)
    ensures forall j :: EndsAt(s, j) ==> FoundAt(s, j, pos, FindRun(SEARCH, s, pos).found)
  {
    hide FindRun, EndsAt, FoundAt;
    RunFinds(s, |s|, pos);
    assert s[..|s|] == s;
    forall j: nat | EndsAt(s, j) ensures FoundAt(s, j, pos, FindRun(SEARCH, s, pos).found) {
      assert j < |s| by { EndInside(s, j); }
    }
  }

  lemma EndInside(s: string, j: nat)
    requires EndsAt(s, j)
    ensures j < |s|
  {
  }

  // ---- counting ----

  /** At position i braces are even, and the number of closing ones does not show as zero. */
  predicate Match(s: string, i: nat) {
    i < |s| && Number(s[..i + 1], '}') % 256 != 0 && Even(s, i + 1)
  }

  /** Position i counts: it matches, and a brace has been opened since every match before it. */
  ghost predicate CountsAt(s: string, i: nat) {
    Match(s, i) && forall p :: 0 <= p < i && Match(s, p) ==> OpenedSince(s, p, i)
  }

  ghost predicate OpenedSince(s: string, p: nat, i: nat) {
    exists q :: p < q <= i && q < |s| && s[q] == '{'
  }

  ghost function Tally(s: string, n: nat): nat {
    if n == 0 then 0 else Tally(s, n - 1) + if CountsAt(s, n - 1) then 1 else 0
  }

  /** At position i brackets are even, and their number does not show as zero. */
  predicate StopsAt(s: string, i: nat) {
    i < |s| && Number(s[..i + 1], '[') % 256 != 0 &&
    Number(s[..i + 1], '[') % 256 == Number(s[..i + 1], ']') % 256
  }

  /** The state of the count before position n, which has not stopped. */
  ghost predicate Counting(s: string, n: nat, z: Sizer)
    requires n <= |s|
  {
    z.eOpen == Number(s[..n], '{') && z.eClose == Number(s[..n], '}') &&
    z.aOpen == Number(s[..n], '[') && z.aClose == Number(s[..n], ']') &&
    z.cnt == Tally(s, n) && !z.done && (z.waiting <==> Waiting(s, n))
  }

  /** Since every match before position n a brace has been opened. */
  ghost predicate Waiting(s: string, n: nat) {
    forall p :: 0 <= p < n && Match(s, p) ==> OpenedSince(s, p, n - 1)
  }

  lemma CountStepMeans(s: string, n: nat, z: Sizer)
    requires n < |s| && Counting(s, n, z)
    ensures var y := CountStep(z, s[n]);
            (y.done <==> StopsAt(s, n)) && y.cnt == Tally(s, n + 1) && (!y.done ==> Counting(s, n + 1, y))
  {
    hide Number, Waiting, CountsAt;
    NumberNext(s, n, '{');
    NumberNext(s, n, '}');
    NumberNext(s, n, '[');
    NumberNext(s, n, ']');
    WaitingNext(s, n);
  }

  /** A position counts when it matches while waiting, a brace at the position itself included; after
      a match nothing waits. */
  lemma WaitingNext(s: string, n: nat)
    requires n < |s|
    ensures CountsAt(s, n) <==> Match(s, n) && (Waiting(s, n) || s[n] == '{')
    ensures Waiting(s, n + 1) <==> !Match(s, n) && (Waiting(s, n) || s[n] == '{')
  {
    hide Match, OpenedSince;
    forall p: nat | p < n ensures OpenedSince(s, p, n) <==> OpenedSince(s, p, n - 1) || s[n] == '{' {
      OpenedNext(s, p, n);
    }
    assert !OpenedSince(s, n, n) by { NotSinceItself(s, n); }
    var next := n + 1;
    assert next - 1 == n;
  }

  lemma OpenedNext(s: string, p: nat, n: nat)
    requires p < n < |s|
    ensures OpenedSince(s, p, n) <==> OpenedSince(s, p, n - 1) || s[n] == '{'
  {
  }

  lemma NotSinceItself(s: string, n: nat)
    ensures !OpenedSince(s, n, n)
  {
  }

  lemma CountRunNext(s: string, n: nat)
    requires n < |s|
    ensures CountRun(COUNTING, s[..n + 1]) == CountStep(CountRun(COUNTING, s[..n]), s[n])
  {
    hide CountRun, CountStep;
    assert s[..n + 1] == s[..n] + [s[n]];
    CountAppend(COUNTING, s[..n], [s[n]]);
    CountOne(CountRun(COUNTING, s[..n]), s[n]);
  }

  lemma {:induction false} CountRuns(s: string, n: nat)
    requires n <= |s| && forall i :: 0 <= i < n ==> !StopsAt(s, i)
    ensures Counting(s, n, CountRun(COUNTING, s[..n]))
    decreases n
  {
    hide CountRun, CountStep, Counting, StopsAt;
    if n == 0 {
      CountNothing(s);
    } else {
      CountRuns(s, n - 1);
      CountRunNext(s, n - 1);
      CountStepMeans(s, n - 1, CountRun(COUNTING, s[..n - 1]));
    }
  }

  lemma CountNothing(s: string)
    ensures Counting(s, 0, CountRun(COUNTING, s[..0]))
  {
  }

  /** For every text: the size is the number of positions that count, up to and including the first at
      which brackets are even again, or to the end of the text if there is none. */
  lemma CountMeans(s: string, n: nat)
    requires n <= |s| && forall i :: 0 <= i < n ==> !StopsAt(s, i)
    ensures n == |s| ==> CountRun(COUNTING, s).cnt == Tally(s, n)
    ensures StopsAt(s, n) ==> CountRun(COUNTING, s).cnt == Tally(s, n + 1)
  {
    hide CountRun, CountStep, StopsAt;
    CountRuns(s, n);
    if n == |s| {
      assert s[..n] == s;
    } else if StopsAt(s, n) {
      CountStepMeans(s, n, CountRun(COUNTING, s[..n]));
      CountRunNext(s, n);
      assert s == s[..n + 1] + s[n + 1..];
      CountAppend(COUNTING, s[..n + 1], s[n + 1..]);
      CountStays(CountRun(COUNTING, s[..n + 1]), s[n + 1..]);
    }
  }
}
