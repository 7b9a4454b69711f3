/** The page scanner: counting the objects of an array and finding the one with a given index by
    counting braces and brackets in bytes, against the tree the text was written from. */
module Json {
  import opened BraceLevels

  /** A counter cut to a byte. */
  function Byte(n: nat): (b: nat)
    ensures n < 256 ==> b == n
  {
    n % 256
  }

  lemma ByteSize(n: nat)
    ensures Byte(n) < 256
  {
  }

  lemma NextByte(n: nat)
    ensures Byte(n + 1) == (Byte(n) + 1) % 256
  {
  }

  lemma BytesDiffer(a: nat, b: nat)
    requires b < a < b + 256
    ensures Byte(a) != Byte(b)
  {
  }

  // ---- pages as trees ----

  /** A text with balanced braces and brackets. */
  datatype Page =
    | End
    | Char(c: char, rest: Page)
    | Obj(body: Page, rest: Page)
    | Arr(body: Page, rest: Page)

  function Text(p: Page): string {
    match p
    case End => ""
    case Char(c, r) => [c] + Text(r)
    case Obj(b, r) => "{" + Text(b) + "}" + Text(r)
    case Arr(b, r) => "[" + Text(b) + "]" + Text(r)
  }

  /** Single characters are none of the four that the scanner looks at. */
  predicate Plain(p: Page) {
    match p
    case End => true
    case Char(c, r) => c != '{' && c != '}' && c != '[' && c != ']' && Plain(r)
    case Obj(b, r) => Plain(b) && Plain(r)
    case Arr(b, r) => Plain(b) && Plain(r)
  }

  /** The number of objects at any depth. */
  function Braces(p: Page): nat {
    match p
    case End => 0
    case Char(_, r) => Braces(r)
    case Obj(b, r) => Braces(b) + 1 + Braces(r)
    case Arr(b, r) => Braces(b) + Braces(r)
  }

  function Brackets(p: Page): nat {
    match p
    case End => 0
    case Char(_, r) => Brackets(r)
    case Obj(b, r) => Brackets(b) + Brackets(r)
    case Arr(b, r) => Brackets(b) + 1 + Brackets(r)
  }

  function Max(a: nat, b: nat): nat {
    if a < b then b else a
  }

  /** How deep objects are nested in objects. */
  function Depth(p: Page): nat {
    match p
    case End => 0
    case Char(_, r) => Depth(r)
    case Obj(b, r) => Max(1 + Depth(b), Depth(r))
    case Arr(b, r) => Max(Depth(b), Depth(r))
  }

  function ArrDepth(p: Page): nat {
    match p
    case End => 0
    case Char(_, r) => ArrDepth(r)
    case Obj(b, r) => Max(ArrDepth(b), ArrDepth(r))
    case Arr(b, r) => Max(1 + ArrDepth(b), ArrDepth(r))
  }

  /** The measures of a page from those of its parts. */
  lemma ObjParts(b: Page, r: Page)
    ensures Plain(Obj(b, r)) <==> Plain(b) && Plain(r)
    ensures Braces(Obj(b, r)) == Braces(b) + 1 + Braces(r)
    ensures Brackets(Obj(b, r)) == Brackets(b) + Brackets(r)
    ensures Depth(Obj(b, r)) >= 1 + Depth(b) && Depth(Obj(b, r)) >= Depth(r)
    ensures ArrDepth(Obj(b, r)) >= ArrDepth(b) && ArrDepth(Obj(b, r)) >= ArrDepth(r)
  {
  }

  lemma ArrParts(b: Page, r: Page)
    ensures Plain(Arr(b, r)) <==> Plain(b) && Plain(r)
    ensures Braces(Arr(b, r)) == Braces(b) + Braces(r)
    ensures Brackets(Arr(b, r)) == Brackets(b) + 1 + Brackets(r)
    ensures Depth(Arr(b, r)) >= Depth(b) && Depth(Arr(b, r)) >= Depth(r)
    ensures ArrDepth(Arr(b, r)) >= 1 + ArrDepth(b) && ArrDepth(Arr(b, r)) >= ArrDepth(r)
  {
  }

  lemma CharParts(c: char, r: Page)
    ensures Plain(Char(c, r)) <==> c != '{' && c != '}' && c != '[' && c != ']' && Plain(r)
    ensures Braces(Char(c, r)) == Braces(r) && Brackets(Char(c, r)) == Brackets(r)
    ensures Depth(Char(c, r)) == Depth(r) && ArrDepth(Char(c, r)) == ArrDepth(r)
  {
  }

  lemma EndParts()
    ensures Braces(End) == Brackets(End) == 0
  {
  }

  datatype Span = Span(first: int, last: int)

  /** Where the objects not inside another object stand, for a page that starts at pos. */
  function Objects(p: Page, pos: nat): seq<Span> {
    match p
    case End => []
    case Char(_, r) => Objects(r, pos + 1)
    case Obj(b, r) => [Span(pos, pos + 1 + |Text(b)|)] + Objects(r, pos + 2 + |Text(b)|)
    case Arr(b, r) => Objects(b, pos + 1) + Objects(r, pos + 2 + |Text(b)|)
  }

  /** The object with this body, if it closes as anything but a multiple of 256. */
  function SeenOne(body: Page, pos: nat, order: nat): seq<Span> {
    if Byte(order) > 0 then [Span(pos, pos + 1 + |Text(body)|)] else []
  }

  /** Those of them whose closing brace is not, counting from k, a multiple of 256 in order. */
  function Seen(p: Page, pos: nat, k: nat): seq<Span> {
    match p
    case End => []
    case Char(_, r) => Seen(r, pos + 1, k)
    case Obj(b, r) =>
      var after := k + Braces(b) + 1;
      SeenOne(b, pos, after) + Seen(r, pos + 2 + |Text(b)|, after)
    case Arr(b, r) =>
      Seen(b, pos + 1, k) + Seen(r, pos + 2 + |Text(b)|, k + Braces(b))
  }

  /** No object outside all others closes as number 256, 512, ... counted from k. */
  predicate NoWrap(p: Page, k: nat) {
    match p
    case End => true
    case Char(_, r) => NoWrap(r, k)
    case Obj(b, r) => Byte(k + Braces(b) + 1) != 0 && NoWrap(r, k + Braces(b) + 1)
    case Arr(b, r) => NoWrap(b, k) && NoWrap(r, k + Braces(b))
  }

  lemma {:induction false} SeenAtMost(p: Page, pos: nat, k: nat)
    ensures |Seen(p, pos, k)| <= |Objects(p, pos)|
    ensures NoWrap(p, k) ==> Seen(p, pos, k) == Objects(p, pos)
    ensures !NoWrap(p, k) ==> |Seen(p, pos, k)| < |Objects(p, pos)|
  {
    match p
    case End =>
    case Char(_, r) => SeenAtMost(r, pos + 1, k);
    case Obj(b, r) => SeenAtMost(r, pos + 2 + |Text(b)|, k + Braces(b) + 1);
    case Arr(b, r) =>
      SeenAtMost(b, pos + 1, k);
      SeenAtMost(r, pos + 2 + |Text(b)|, k + Braces(b));
  }

  lemma {:induction false} FewBracesNoWrap(p: Page, k: nat)
    requires k + Braces(p) < 256
    ensures NoWrap(p, k)
  {
    match p
    case End =>
    case Char(_, r) => FewBracesNoWrap(r, k);
    case Obj(b, r) => FewBracesNoWrap(r, k + Braces(b) + 1);
    case Arr(b, r) =>
      FewBracesNoWrap(b, k);
      FewBracesNoWrap(r, k + Braces(b));
  }

  /** The objects of a page lie inside it, in order and apart. */
  lemma {:induction false} ObjectsOrdered(p: Page, pos: nat)
    ensures Ordered(Objects(p, pos), pos, pos + |Text(p)|)
  {
    hide Ordered;
    match p
    case End =>
      OrderedNone(pos, pos);
    case Char(_, r) =>
      ObjectsOrdered(r, pos + 1);
      OrderedNone(pos, pos + 1);
      OrderedJoin([], Objects(r, pos + 1), pos, pos + 1, pos + |Text(p)|);
      assert [] + Objects(r, pos + 1) == Objects(r, pos + 1);
    case Obj(b, r) =>
      var next := pos + 2 + |Text(b)|;
      ObjectsOrdered(r, next);
      OrderedOne(Span(pos, next - 1));
      OrderedJoin([Span(pos, next - 1)], Objects(r, next), pos, next, pos + |Text(p)|);
    case Arr(b, r) =>
      var next := pos + 2 + |Text(b)|;
      ObjectsOrdered(b, pos + 1);
      ObjectsOrdered(r, next);
      OrderedWider(Objects(b, pos + 1), pos + 1, next - 1, pos, next);
      OrderedJoin(Objects(b, pos + 1), Objects(r, next), pos, next, pos + |Text(p)|);
  }

  /** Spans from lo on and before hi, each behind the one before it. */
  ghost predicate Ordered(spans: seq<Span>, lo: int, hi: int) {
    (forall i :: 0 <= i < |spans| ==> lo <= spans[i].first < spans[i].last < hi) &&
    (forall i, j :: 0 <= i < j < |spans| ==> spans[i].last < spans[j].first)
  }

  lemma OrderedNone(lo: int, hi: int)
    ensures Ordered([], lo, hi)
  {
  }

  lemma OrderedOne(s: Span)
    ensures s.first < s.last ==> Ordered([s], s.first, s.last + 1)
  {
  }

  lemma OrderedWider(a: seq<Span>, lo: int, hi: int, lo': int, hi': int)
    requires Ordered(a, lo, hi) && lo' <= lo && hi <= hi'
    ensures Ordered(a, lo', hi')
  {
  }

  lemma OrderedJoin(a: seq<Span>, b: seq<Span>, lo: int, mid: int, hi: int)
    requires Ordered(a, lo, mid) && Ordered(b, mid, hi) && lo <= mid <= hi
    ensures Ordered(a + b, lo, hi)
  {
  }

  /** An opening brace, a page with balanced braces, and the brace that closes the opening one. */
  ghost predicate IsObject(text: string) {
    exists b: Page :: Plain(b) && text == "{" + Text(b) + "}"
  }

  lemma {:induction false} PageBalanced(p: Page)
    requires Plain(p)
    ensures Balanced(Text(p))
  {
    hide Balanced, Matched;
    match p
    case End =>
      assert Balanced("") by { EmptyBalanced(); }
    case Char(c, r) =>
      PageBalanced(r);
      BalancedOne(c);
      BalancedAppend([c], Text(r));
    case Obj(b, r) =>
      PageBalanced(b);
      PageBalanced(r);
      BracesBalance(Text(b));
      BalancedAppend("{" + Text(b) + "}", Text(r));
    case Arr(b, r) =>
      PageBalanced(b);
      PageBalanced(r);
      BalancedOne('[');
      BalancedOne(']');
      BalancedAppend("[", Text(b));
      BalancedAppend("[" + Text(b), "]");
      BalancedAppend("[" + Text(b) + "]", Text(r));
  }

  /** An object's last brace is the one that closes its first. */
  lemma ObjectMatched(text: string)
    requires IsObject(text)
    ensures Matched(text)
  {
    var b: Page :| Plain(b) && text == "{" + Text(b) + "}";
    PageBalanced(b);
    BracesBalance(Text(b));
  }

  ghost predicate Marks(json: string, s: Span) {
    0 <= s.first < s.last < |json| && IsObject(json[s.first..s.last + 1])
  }

  lemma {:induction false} ObjectsAreObjects(p: Page, before: string, after: string, i: nat)
    requires Plain(p) && i < |Objects(p, |before|)|
    ensures Marks(before + Text(p) + after, Objects(p, |before|)[i])
  {
    hide IsObject, Marks, Text;
    match p
    case End =>
    case Char(c, r) =>
      CharText(c, r, before, after);
      ObjectsAreObjects(r, before + [c], after, i);
    case Obj(b, r) =>
      ObjText(b, r, before, after);
      if i == 0 {
        FirstMarked(b, r, before, after);
      } else {
        ObjectsAreObjects(r, before + ("{" + Text(b) + "}"), after, i - 1);
      }
    case Arr(b, r) =>
      ArrText(b, r, before, after);
      var n := |Objects(b, |before| + 1)|;
      if i < n {
        ObjectsAreObjects(b, before + "[", "]" + Text(r) + after, i);
      } else {
        ObjectsAreObjects(r, before + ("[" + Text(b) + "]"), after, i - n);
      }
  }

  lemma CharText(c: char, r: Page, before: string, after: string)
    ensures before + Text(Char(c, r)) + after == before + [c] + Text(r) + after
  {
  }

  lemma ObjText(b: Page, r: Page, before: string, after: string)
    ensures before + Text(Obj(b, r)) + after == before + ("{" + Text(b) + "}") + Text(r) + after
    ensures |before + ("{" + Text(b) + "}")| == |before| + 2 + |Text(b)|
  {
    Regroup(before, "{", Text(b), "}", Text(r), after);
  }

  lemma Regroup(before: string, o: string, t: string, c: string, r: string, after: string)
    ensures before + (o + t + c + r) + after == before + (o + t + c) + r + after
    ensures before + (o + t + c) + r + after == (before + o) + t + (c + r + after)
  {
    assert before + (o + t + c + r) == before + (o + t + c) + r;
    assert before + (o + t + c) + r == (before + o) + t + (c + r);
  }

  lemma ArrText(b: Page, r: Page, before: string, after: string)
    ensures before + Text(Arr(b, r)) + after == (before + "[") + Text(b) + ("]" + Text(r) + after)
    ensures before + Text(Arr(b, r)) + after == before + ("[" + Text(b) + "]") + Text(r) + after
    ensures |before + ("[" + Text(b) + "]")| == |before| + 2 + |Text(b)|
  {
    Regroup(before, "[", Text(b), "]", Text(r), after);
  }

  lemma FirstMarked(b: Page, r: Page, before: string, after: string)
    requires Plain(b)
    ensures Marks(before + Text(Obj(b, r)) + after, Span(|before|, |before| + 1 + |Text(b)|))
  {
    var whole := "{" + Text(b) + "}";
    var json := before + Text(Obj(b, r)) + after;
    assert json == before + whole + (Text(r) + after);
    assert json[|before|..|before| + |whole|] == whole;
  }

  // ---- finding an object ----

  /** The counters of the search, not yet cut to bytes, and the spans it has met. */
  datatype Finder = Finder(open: nat, close: nat, first: int, found: seq<Span>)

  function FindStep(f: Finder, c: char, pos: nat): Finder {
    if c == '{' then
      f.(open := f.open + 1, first := if Byte(f.open) == Byte(f.close) then pos else f.first)
    else if c == '}' then
      var g := f.(close := f.close + 1);
      if Byte(g.close) > 0 && Byte(g.open) == Byte(g.close) then g.(found := f.found + [Span(f.first, pos)])
      else g
    else f
  }

  function FindRun(f: Finder, s: string, pos: nat): Finder
    decreases |s|
  {
    if s == "" then f else FindRun(FindStep(f, s[0], pos), s[1..], pos + 1)
  }

  /** The text from a position on. */
  function From(json: string, i: nat): string {
    if i <= |json| then json[i..] else ""
  }

  const SEARCH: Finder := Finder(0, 0, -1, [])

  lemma {:induction false} FindGrows(f: Finder, s: string, pos: nat)
    ensures f.found <= FindRun(f, s, pos).found
    decreases |s|
  {
    if s != "" { FindGrows(FindStep(f, s[0], pos), s[1..], pos + 1); }
  }

  /** The result of the search for every text: the span with the given index, if the index fits a
      byte and there are that many, and zeros otherwise. */
  method IndexPosArray(json: string, idx: int, start: nat) returns (startPos: int, endPos: int)
    ensures var found := FindRun(SEARCH, From(json, start), start).found;
            Span(startPos, endPos) ==
            if 0 <= idx < 256 && idx < |found| then found[idx] else Span(0, 0)
  {
    hide FindRun, From, Byte;
    var posArrayFirstOpen: int := -1;
    var elementOpenCnt, elementCloseCnt, arrayNr := 0, 0, 0;
    var i := start;
    ghost var f := SEARCH;
    ghost var all := FindRun(SEARCH, From(json, start), start);
    while i < |json|
      invariant start <= i
      invariant all == FindRun(f, From(json, i), i)
      invariant posArrayFirstOpen == f.first
      invariant elementOpenCnt == Byte(f.open) && elementCloseCnt == Byte(f.close)
      invariant arrayNr == Byte(|f.found|)
      invariant 0 <= idx < 256 ==> |f.found| <= idx
    {
      ghost var before := f;
      NextByte(f.open);
      NextByte(f.close);
      NextByte(|f.found|);
      ByteSize(|f.found|);
      f := FindStep(f, json[i], i);
      FindNext(before, json, i);
      var c := json[i];
      if c == '{' {
        if elementOpenCnt == elementCloseCnt { posArrayFirstOpen := i; }
        elementOpenCnt := (elementOpenCnt + 1) % 256;
      } else if c == '}' {
        elementCloseCnt := (elementCloseCnt + 1) % 256;
        if elementCloseCnt > 0 && elementOpenCnt == elementCloseCnt {
          if arrayNr == idx {
            FindGrows(f, From(json, i + 1), i + 1);
            return posArrayFirstOpen, i;
          }
          arrayNr := (arrayNr + 1) % 256;
        }
      }
      i := i + 1;
    }
    FindDone(f, json, i);
    return 0, 0;
  }

  lemma FindNext(f: Finder, json: string, i: nat)
    requires i < |json|
    ensures FindRun(f, From(json, i), i) == FindRun(FindStep(f, json[i], i), From(json, i + 1), i + 1)
  {
    assert json[i..][1..] == json[i + 1..];
  }

  lemma FindDone(f: Finder, json: string, i: nat)
    requires i >= |json|
    ensures FindRun(f, From(json, i), i) == f
  {
  }

  lemma {:induction false} FindAppend(f: Finder, a: string, b: string, pos: nat)
    ensures FindRun(f, a + b, pos) == FindRun(FindRun(f, a, pos), b, pos + |a|)
    decreases |a|
  {
    if a == "" {
      assert a + b == b;
    } else {
      assert (a + b)[1..] == a[1..] + b;
      FindAppend(FindStep(f, a[0], pos), a[1..], b, pos + 1);
    }
  }

  /** A text between two delimiters, and what follows. */
  lemma FindBetween(f: Finder, open: char, a: string, close: char, b: string, pos: nat)
    ensures FindRun(f, [open] + a + [close] + b, pos)
         == FindRun(FindStep(FindRun(FindStep(f, open, pos), a, pos + 1), close, pos + 1 + |a|), b, pos + 2 + |a|)
  {
    hide FindStep;
    FindAppend(f, [open] + a + [close], b, pos);
    FindAppend(f, [open] + a, [close], pos);
    FindAppend(f, [open], a, pos);
    FindOne(f, open, pos);
    FindOne(FindRun(FindStep(f, open, pos), a, pos + 1), close, pos + 1 + |a|);
  }

  lemma FindOne(f: Finder, c: char, pos: nat)
    ensures FindRun(f, [c], pos) == FindStep(f, c, pos)
  {
    assert [c][1..] == "";
  }

  /** The search over a page, by the form of the page. */
  function FindParts(f: Finder, p: Page, pos: nat): Finder {
    match p
    case End => f
    case Char(c, r) => FindRun(FindStep(f, c, pos), Text(r), pos + 1)
    case Obj(b, r) =>
      FindRun(FindStep(FindRun(FindStep(f, '{', pos), Text(b), pos + 1), '}', pos + 1 + |Text(b)|),
              Text(r), pos + 2 + |Text(b)|)
    case Arr(b, r) =>
      FindRun(FindStep(FindRun(FindStep(f, '[', pos), Text(b), pos + 1), ']', pos + 1 + |Text(b)|),
              Text(r), pos + 2 + |Text(b)|)
  }

  lemma FindPage(f: Finder, p: Page, pos: nat)
    ensures FindRun(f, Text(p), pos) == FindParts(f, p, pos)
  {
    hide FindStep;
    match p
    case End =>
    case Char(c, r) =>
      assert Text(p)[1..] == Text(r);
    case Obj(b, r) =>
      FindBetween(f, '{', Text(b), '}', Text(r), pos);
    case Arr(b, r) =>
      FindBetween(f, '[', Text(b), ']', Text(r), pos);
  }

  function Within(f: Finder, p: Page): Finder {
    f.(open := f.open + Braces(p), close := f.close + Braces(p))
  }

  lemma FindInner(f: Finder, c: char, pos: nat)
    requires f.close < f.open < f.close + 256
    requires c == '}' ==> f.close + 1 < f.open
    ensures FindStep(f, c, pos)
         == if c == '{' then f.(open := f.open + 1) else if c == '}' then f.(close := f.close + 1) else f
  {
    hide Byte;
    BytesDiffer(f.open, f.close);
    if c == '}' { BytesDiffer(f.open, f.close + 1); }
  }

  /** Inside an object the search meets nothing. */
  lemma {:induction false} FindInside(f: Finder, p: Page, pos: nat)
    requires Plain(p) && f.close < f.open && f.open - f.close + Depth(p) < 256
    ensures FindRun(f, Text(p), pos) == Within(f, p)
    decreases p, 1
  {
    hide FindRun, Text, FindStep, Plain, Braces, Brackets, Depth, ArrDepth;
    match p
    case End =>
      EndParts();
      FindPage(f, p, pos);
    case Char(c, r) =>
      CharParts(c, r);
      FindPage(f, p, pos);
      FindInner(f, c, pos);
      FindInside(f, r, pos + 1);
    case Obj(b, r) =>
      ObjParts(b, r);
      FindInsideObj(f, b, r, pos);
    case Arr(b, r) =>
      ArrParts(b, r);
      FindInsideArr(f, b, r, pos);
  }

  lemma {:induction false} FindInsideObj(f: Finder, b: Page, r: Page, pos: nat)
    requires Plain(Obj(b, r)) && f.close < f.open && f.open - f.close + Depth(Obj(b, r)) < 256
    ensures FindRun(f, Text(Obj(b, r)), pos) == Within(f, Obj(b, r))
    decreases Obj(b, r), 0
  {
    hide FindRun, Text, FindStep, Plain, Braces, Brackets, Depth, ArrDepth;
    ObjParts(b, r);
    FindPage(f, Obj(b, r), pos);
    FindInner(f, '{', pos);
    var f1 := f.(open := f.open + 1);
    FindInside(f1, b, pos + 1);
    var f2 := Within(f1, b);
    FindInner(f2, '}', pos + 1 + |Text(b)|);
    FindInside(f2.(close := f2.close + 1), r, pos + 2 + |Text(b)|);
  }

  lemma {:induction false} FindInsideArr(f: Finder, b: Page, r: Page, pos: nat)
    requires Plain(Arr(b, r)) && f.close < f.open && f.open - f.close + Depth(Arr(b, r)) < 256
    ensures FindRun(f, Text(Arr(b, r)), pos) == Within(f, Arr(b, r))
    decreases Arr(b, r), 0
  {
    hide FindRun, Text, FindStep, Plain, Braces, Brackets, Depth, ArrDepth;
    ArrParts(b, r);
    FindPage(f, Arr(b, r), pos);
    FindInner(f, '[', pos);
    FindInside(f, b, pos + 1);
    FindInner(Within(f, b), ']', pos + 1 + |Text(b)|);
    FindInside(Within(f, b), r, pos + 2 + |Text(b)|);
  }

  /** Outside all objects the search is balanced again after a page, richer by its objects. */
  ghost predicate Met(f: Finder, p: Page, pos: nat, g: Finder) {
    g.open == g.close == f.close + Braces(p) && g.found == f.found + Seen(p, pos, f.close)
  }

  /** Outside all objects the search meets the objects of the page, but for the wrapped ones. */
  lemma {:induction false} FindOutside(f: Finder, p: Page, pos: nat)
    requires Plain(p) && f.close == f.open && Depth(p) < 256
    ensures Met(f, p, pos, FindRun(f, Text(p), pos))
    decreases p, 1
  {
    hide FindRun, Text, Byte, FindStep, Plain, Braces, Brackets, Depth, ArrDepth;
    match p
    case End =>
      EndParts();
      FindPage(f, p, pos);
    case Char(c, r) =>
      CharParts(c, r);
      FindPage(f, p, pos);
      FindPlain(f, c, pos);
      FindOutside(f, r, pos + 1);
    case Obj(b, r) =>
      ObjParts(b, r);
      FindOutsideObj(f, b, r, pos);
    case Arr(b, r) =>
      ArrParts(b, r);
      FindOutsideArr(f, b, r, pos);
  }

  lemma {:induction false} FindOutsideObj(f: Finder, b: Page, r: Page, pos: nat)
    requires Plain(Obj(b, r)) && f.close == f.open && Depth(Obj(b, r)) < 256
    ensures Met(f, Obj(b, r), pos, FindRun(f, Text(Obj(b, r)), pos))
    decreases Obj(b, r), 0
  {
    hide FindRun, Text, Byte, FindStep, Met, Seen, Plain, Braces, Brackets, Depth, ArrDepth;
    ObjParts(b, r);
    FindPage(f, Obj(b, r), pos);
    var f2 := FindObject(f, b, pos);
    FindOutside(f2, r, pos + 2 + |Text(b)|);
    MetObj(f, b, r, pos, f2, FindRun(f2, Text(r), pos + 2 + |Text(b)|));
  }

  lemma SeenObj(b: Page, r: Page, pos: nat, k: nat)
    ensures Seen(Obj(b, r), pos, k)
         == SeenOne(b, pos, k + Braces(b) + 1) + Seen(r, pos + 2 + |Text(b)|, k + Braces(b) + 1)
  {
    hide Text, SeenOne;
  }

  lemma MetObj(f: Finder, b: Page, r: Page, pos: nat, f2: Finder, g: Finder)
    requires f2.open == f2.close == f.close + Braces(b) + 1
    requires f2.found == f.found + SeenOne(b, pos, f2.close)
    requires Met(f2, r, pos + 2 + |Text(b)|, g)
    ensures Met(f, Obj(b, r), pos, g)
  {
    hide Text, SeenOne, Seen, Plain, Braces, Brackets, Depth, ArrDepth;
    ObjParts(b, r);
    SeenObj(b, r, pos, f.close);
    var one, more := SeenOne(b, pos, f2.close), Seen(r, pos + 2 + |Text(b)|, f2.close);
    assert (f.found + one) + more == f.found + (one + more);
  }

  lemma {:induction false} FindOutsideArr(f: Finder, b: Page, r: Page, pos: nat)
    requires Plain(Arr(b, r)) && f.close == f.open && Depth(Arr(b, r)) < 256
    ensures Met(f, Arr(b, r), pos, FindRun(f, Text(Arr(b, r)), pos))
    decreases Arr(b, r), 0
  {
    hide FindRun, Text, Byte, FindStep, Plain, Braces, Brackets, Depth, ArrDepth;
    ArrParts(b, r);
    FindPage(f, Arr(b, r), pos);
    FindPlain(f, '[', pos);
    FindOutside(f, b, pos + 1);
    var g := FindRun(f, Text(b), pos + 1);
    FindPlain(g, ']', pos + 1 + |Text(b)|);
    FindOutside(g, r, pos + 2 + |Text(b)|);
  }

  lemma FindPlain(f: Finder, c: char, pos: nat)
    requires c != '{' && c != '}'
    ensures FindStep(f, c, pos) == f
  {
  }

  lemma FindObject(f: Finder, b: Page, pos: nat) returns (g: Finder)
    requires Plain(b) && f.close == f.open && Depth(b) < 255
    ensures g == FindStep(FindRun(FindStep(f, '{', pos), Text(b), pos + 1), '}', pos + 1 + |Text(b)|)
    ensures g.open == g.close == f.close + Braces(b) + 1
    ensures g.found == f.found + SeenOne(b, pos, g.close)
  {
    hide FindRun, Byte, Text, Plain, Braces, Brackets, Depth, ArrDepth;
    var f1 := f.(open := f.open + 1, first := pos);
    FindInside(f1, b, pos + 1);
    g := FindStep(Within(f1, b), '}', pos + 1 + |Text(b)|);
  }

  // ---- counting objects ----

  datatype Sizer = Sizer(
    aOpen: nat, aClose: nat, eOpen: nat, eClose: nat, cnt: nat, waiting: bool, done: bool)

  function Moved(z: Sizer, c: char): Sizer {
    if c == '[' then z.(aOpen := z.aOpen + 1)
    else if c == ']' then z.(aClose := z.aClose + 1)
    else if c == '{' then z.(eOpen := z.eOpen + 1, waiting := true)
    else if c == '}' then z.(eClose := z.eClose + 1)
    else z
  }

  function Counted(z: Sizer): Sizer {
    if Byte(z.eClose) > 0 && Byte(z.eOpen) == Byte(z.eClose) && z.waiting then
      z.(cnt := z.cnt + 1, waiting := false)
    else z
  }

  function Stopped(z: Sizer): Sizer {
    z.(done := Byte(z.aOpen) > 0 && Byte(z.aOpen) == Byte(z.aClose))
  }

  function CountStep(z: Sizer, c: char): Sizer {
    if z.done then z else Stopped(Counted(Moved(z, c)))
  }

  function CountRun(z: Sizer, s: string): Sizer
    decreases |s|
  {
    if s == "" then z else CountRun(CountStep(z, s[0]), s[1..])
  }

  const COUNTING: Sizer := Sizer(0, 0, 0, 0, 0, true, false)

  /** The counters of the code, cut to bytes, and its flag. */
  datatype Counters = Counters(aOpen: nat, aClose: nat, eOpen: nat, eClose: nat, cnt: nat, merker: nat)

  ghost predicate Agree(k: Counters, z: Sizer) {
    k.aOpen == Byte(z.aOpen) && k.aClose == Byte(z.aClose) &&
    k.eOpen == Byte(z.eOpen) && k.eClose == Byte(z.eClose) &&
    k.cnt == z.cnt % 0x1_0000 && k.merker == if z.waiting then 1 else 0
  }

  /** What a character does to the counters, before the test for the end of the array. */
  method ScanChar(c: char, before: Counters, ghost z: Sizer) returns (k: Counters)
    requires Agree(before, z)
    ensures Agree(k, Counted(Moved(z, c)))
  {
    hide Byte;
    NextByte(z.aOpen);
    NextByte(z.aClose);
    NextByte(z.eOpen);
    NextByte(z.eClose);
    k := before;
    if c == '[' {
      k := k.(aOpen := (k.aOpen + 1) % 256);
    } else if c == ']' {
      k := k.(aClose := (k.aClose + 1) % 256);
    } else if c == '{' {
      k := k.(merker := 1, eOpen := (k.eOpen + 1) % 256);
    } else if c == '}' {
      k := k.(eClose := (k.eClose + 1) % 256);
    }
    if k.eClose > 0 && k.eOpen == k.eClose && k.merker == 1 {
      k := k.(cnt := (k.cnt + 1) % 0x1_0000, merker := 0);
    }
  }

  method GetArraySize(json: string, start: nat) returns (size: nat)
    ensures size == CountRun(COUNTING, From(json, start)).cnt % 0x1_0000
  {
    hide CountRun, From, Byte, Counted, Moved;
    var k := Counters(0, 0, 0, 0, 0, 1);
    var i := start;
    ghost var z := COUNTING;
    ghost var all := CountRun(COUNTING, From(json, start));
    while i < |json|
      invariant start <= i && !z.done
      invariant all == CountRun(z, From(json, i))
      invariant Agree(k, z)
    {
      CountNext(z, json, i);
      k := ScanChar(json[i], k, z);
      z := CountStep(z, json[i]);
      if k.aOpen > 0 && k.aOpen == k.aClose {
        CountStays(z, From(json, i + 1));
        return k.cnt;
      }
      i := i + 1;
    }
    CountEnd(z, json, i);
    return k.cnt;
  }

  lemma CountNext(z: Sizer, json: string, i: nat)
    requires i < |json|
    ensures CountRun(z, From(json, i)) == CountRun(CountStep(z, json[i]), From(json, i + 1))
  {
    assert json[i..][1..] == json[i + 1..];
  }

  lemma CountEnd(z: Sizer, json: string, i: nat)
    requires i >= |json|
    ensures CountRun(z, From(json, i)) == z
  {
  }

  lemma {:induction false} CountStays(z: Sizer, s: string)
    requires z.done
    ensures CountRun(z, s) == z
  {
    if s != "" { CountStays(z, s[1..]); }
  }

  lemma {:induction false} CountAppend(z: Sizer, a: string, b: string)
    ensures CountRun(z, a + b) == CountRun(CountRun(z, a), b)
    decreases |a|
  {
    if a == "" {
      assert a + b == b;
    } else {
      assert (a + b)[1..] == a[1..] + b;
      CountAppend(CountStep(z, a[0]), a[1..], b);
    }
  }

  lemma CountBetween(z: Sizer, open: char, a: string, close: char, b: string)
    ensures CountRun(z, [open] + a + [close] + b)
         == CountRun(CountStep(CountRun(CountStep(z, open), a), close), b)
  {
    hide CountStep;
    CountAppend(z, [open] + a + [close], b);
    CountAppend(z, [open] + a, [close]);
    CountAppend(z, [open], a);
    CountOne(z, open);
    CountOne(CountRun(CountStep(z, open), a), close);
  }

  lemma CountOne(z: Sizer, c: char)
    ensures CountRun(z, [c]) == CountStep(z, c)
  {
    assert [c][1..] == "";
  }

  /** The scan over a page, by the form of the page. */
  function CountParts(z: Sizer, p: Page): Sizer {
    match p
    case End => z
    case Char(c, r) => CountRun(CountStep(z, c), Text(r))
    case Obj(b, r) => CountRun(CountStep(CountRun(CountStep(z, '{'), Text(b)), '}'), Text(r))
    case Arr(b, r) => CountRun(CountStep(CountRun(CountStep(z, '['), Text(b)), ']'), Text(r))
  }

  lemma CountPage(z: Sizer, p: Page)
    ensures CountRun(z, Text(p)) == CountParts(z, p)
  {
    hide CountStep;
    match p
    case End =>
    case Char(c, r) =>
      assert Text(p)[1..] == Text(r);
    case Obj(b, r) =>
      CountBetween(z, '{', Text(b), '}', Text(r));
    case Arr(b, r) =>
      CountBetween(z, '[', Text(b), ']', Text(r));
  }

  /** Inside the array; outside all objects nothing is waiting to be counted, inside one it is. */
  predicate Settled(z: Sizer) {
    !z.done && z.aClose < z.aOpen < z.aClose + 256 && z.eClose <= z.eOpen < z.eClose + 256 &&
    (if z.eClose == z.eOpen then Byte(z.eClose) > 0 ==> !z.waiting else z.waiting)
  }

  predicate Room(z: Sizer, p: Page) {
    Settled(z) && z.aOpen - z.aClose + ArrDepth(p) < 256 && z.eOpen - z.eClose + Depth(p) < 256
  }

  /** A character after which the scan is still settled counts nothing. */
  lemma CountQuiet(z: Sizer, c: char)
    requires !z.done && Settled(Moved(z, c))
    ensures CountStep(z, c) == Moved(z, c)
  {
    hide Byte;
    var y := Moved(z, c);
    BytesDiffer(y.aOpen, y.aClose);
    if y.eClose < y.eOpen { BytesDiffer(y.eOpen, y.eClose); }
  }

  function Past(z: Sizer, p: Page): Sizer {
    z.(aOpen := z.aOpen + Brackets(p), aClose := z.aClose + Brackets(p),
       eOpen := z.eOpen + Braces(p), eClose := z.eClose + Braces(p))
  }

  /** Inside an object nothing is counted. */
  lemma {:induction false} CountInside(z: Sizer, p: Page)
    requires Plain(p) && Room(z, p) && z.eClose < z.eOpen
    ensures CountRun(z, Text(p)) == Past(z, p)
    decreases p
  {
    hide CountRun, Text, Byte, CountStep, Plain, Braces, Brackets, Depth, ArrDepth;
    CountPage(z, p);
    match p
    case End =>
      EndParts();
    case Char(c, r) =>
      CharParts(c, r);
      CountQuiet(z, c);
      CountInside(z, r);
    case Obj(b, r) =>
      ObjParts(b, r);
      CountQuiet(z, '{');
      var z1 := Moved(z, '{');
      CountInside(z1, b);
      CountQuiet(Past(z1, b), '}');
      CountInside(Moved(Past(z1, b), '}'), r);
    case Arr(b, r) =>
      ArrParts(b, r);
      CountQuiet(z, '[');
      var z1 := Moved(z, '[');
      CountInside(z1, b);
      CountQuiet(Past(z1, b), ']');
      CountInside(Moved(Past(z1, b), ']'), r);
  }

  /** Outside all objects the scan is settled again after a page, richer by its objects. */
  ghost predicate Tallied(z: Sizer, p: Page, pos: nat, y: Sizer) {
    Settled(y) && y == Past(z, p).(cnt := z.cnt + |Seen(p, pos, z.eClose)|, waiting := y.waiting)
  }

  /** Outside all objects the objects of the page are counted, but for the wrapped ones. */
  lemma {:induction false} CountOutside(z: Sizer, p: Page, pos: nat)
    requires Plain(p) && Room(z, p) && z.eOpen == z.eClose
    ensures Tallied(z, p, pos, CountRun(z, Text(p)))
    decreases p, 1
  {
    hide CountRun, Text, Byte, CountStep, Plain, Braces, Brackets, Depth, ArrDepth;
    match p
    case End =>
      EndParts();
      CountPage(z, p);
    case Char(c, r) =>
      CharParts(c, r);
      CountPage(z, p);
      CountQuiet(z, c);
      CountOutside(z, r, pos + 1);
    case Obj(b, r) =>
      ObjParts(b, r);
      CountPage(z, p);
      var z3 := CountObject(z, b);
      CountOutside(z3, r, pos + 2 + |Text(b)|);
    case Arr(b, r) =>
      ArrParts(b, r);
      CountOutsideArr(z, b, r, pos);
  }

  lemma {:induction false} CountOutsideArr(z: Sizer, b: Page, r: Page, pos: nat)
    requires Plain(Arr(b, r)) && Room(z, Arr(b, r)) && z.eOpen == z.eClose
    ensures Tallied(z, Arr(b, r), pos, CountRun(z, Text(Arr(b, r))))
    decreases Arr(b, r), 0
  {
    hide CountRun, Text, Byte, CountStep, Tallied, Seen, Plain, Braces, Brackets, Depth, ArrDepth;
    ArrParts(b, r);
    CountPage(z, Arr(b, r));
    CountQuiet(z, '[');
    var z1 := Moved(z, '[');
    CountOutside(z1, b, pos + 1);
    var z2 := CountRun(z1, Text(b));
    RoomLeft(z, b, r, pos, z2);
    CountQuiet(z2, ']');
    CountOutside(Moved(z2, ']'), r, pos + 2 + |Text(b)|);
    TalliedArr(z, b, r, pos, z2, CountRun(Moved(z2, ']'), Text(r)));
  }

  lemma RoomLeft(z: Sizer, b: Page, r: Page, pos: nat, z2: Sizer)
    requires Room(z, Arr(b, r)) && z.eOpen == z.eClose && Tallied(Moved(z, '['), b, pos + 1, z2)
    ensures var z3 := Moved(z2, ']');
            Room(z3, r) && Settled(z3) && z3.eOpen == z3.eClose && !z2.done
  {
    hide Byte, Text, Seen, Plain, Braces, Brackets, Depth, ArrDepth;
    ArrParts(b, r);
  }

  lemma TalliedArr(z: Sizer, b: Page, r: Page, pos: nat, z2: Sizer, y: Sizer)
    requires z.eOpen == z.eClose
    requires Tallied(Moved(z, '['), b, pos + 1, z2)
    requires Tallied(Moved(z2, ']'), r, pos + 2 + |Text(b)|, y)
    ensures Tallied(z, Arr(b, r), pos, y)
  {
    hide Byte, Text, Plain, Braces, Brackets, Depth, ArrDepth, Seen;
    ArrParts(b, r);
    SeenArr(b, r, pos, z.eClose);
  }

  lemma SeenArr(b: Page, r: Page, pos: nat, k: nat)
    ensures Seen(Arr(b, r), pos, k) == Seen(b, pos + 1, k) + Seen(r, pos + 2 + |Text(b)|, k + Braces(b))
  {
    hide Text, Braces;
  }

  lemma CountObject(z: Sizer, b: Page) returns (y: Sizer)
    requires Plain(b) && Settled(z) && z.aOpen - z.aClose + ArrDepth(b) < 256
    requires z.eOpen == z.eClose && Depth(b) < 255
    ensures y == CountStep(CountRun(CountStep(z, '{'), Text(b)), '}') && Settled(y)
    ensures var past := Past(z, b);
            y == past.(eOpen := past.eOpen + 1, eClose := past.eClose + 1, waiting := y.waiting,
                       cnt := z.cnt + if Byte(past.eClose + 1) > 0 then 1 else 0)
  {
    hide CountRun, Text, Byte, Plain, Braces, Brackets, Depth, ArrDepth;
    var z1 := Moved(z, '{');
    assert CountStep(z, '{') == z1 by {
      hide CountStep;
      CountQuiet(z, '{');
    }
    CountInside(z1, b);
    y := CountStep(Past(z1, b), '}');
    BytesDiffer(y.aOpen, y.aClose);
  }

  // ---- the two together ----

  /** An array among other text, and the text from its bracket on. */
  function ArrayText(items: Page, post: string): string {
    ['['] + Text(items) + [']'] + post
  }

  /** The size of an array in a page is the number of its objects but for those that close as a
      multiple of 256; the page may go on after the array. */
  lemma SizeOfArray(items: Page, post: string, pos: nat)
    requires Plain(items) && Depth(items) < 256 && ArrDepth(items) < 255
    requires Byte(Brackets(items) + 1) != 0
    ensures CountRun(COUNTING, ArrayText(items, post)).cnt == |Seen(items, pos, 0)|
  {
    hide CountRun, Text, Seen, Byte, CountStep;
    CountBetween(COUNTING, '[', Text(items), ']', post);
    CountQuiet(COUNTING, '[');
    var z1 := Moved(COUNTING, '[');
    CountOutside(z1, items, pos);
    CountCloses(CountRun(z1, Text(items)));
    CountStays(CountStep(CountRun(z1, Text(items)), ']'), post);
  }

  lemma CountCloses(z: Sizer)
    requires Settled(z) && z.aOpen == z.aClose + 1 && z.eOpen == z.eClose && Byte(z.aOpen) != 0
    ensures CountStep(z, ']').done && CountStep(z, ']').cnt == z.cnt
  {
    hide Byte;
  }

  /** The size is right exactly when no object closes as a multiple of 256. */
  lemma SizeRightIff(items: Page, post: string, pos: nat)
    requires Plain(items) && Depth(items) < 256 && ArrDepth(items) < 255
    requires Byte(Brackets(items) + 1) != 0
    ensures CountRun(COUNTING, ArrayText(items, post)).cnt == |Objects(items, pos)| <==> NoWrap(items, 0)
  {
    hide CountRun, Byte;
    SizeOfArray(items, post, pos);
    SeenAtMost(items, pos, 0);
  }

  lemma {:induction false} FewerDeep(p: Page, pos: nat)
    ensures Depth(p) <= Braces(p) && ArrDepth(p) <= Brackets(p) && |Objects(p, pos)| <= Braces(p)
  {
    hide Text;
    match p
    case End =>
    case Char(_, r) => FewerDeep(r, pos + 1);
    case Obj(b, r) =>
      FewerDeep(b, pos);
      FewerDeep(r, pos + 2 + |Text(b)|);
    case Arr(b, r) =>
      FewerDeep(b, pos + 1);
      FewerDeep(r, pos + 2 + |Text(b)|);
  }

  /** The search started at an array meets the objects of that array first. */
  lemma SearchMeetsObjects(items: Page, post: string, pos: nat)
    requires Plain(items) && Depth(items) < 256
    ensures Seen(items, pos + 1, 0) <= FindRun(SEARCH, ArrayText(items, post), pos).found
  {
    hide FindRun, Text, Seen, Byte;
    FindBetween(SEARCH, '[', Text(items), ']', post, pos);
    FindOutside(SEARCH, items, pos + 1);
    var g := FindStep(FindRun(SEARCH, Text(items), pos + 1), ']', pos + 1 + |Text(items)|);
    FindGrows(g, post, pos + 2 + |Text(items)|);
  }

  ghost predicate Inside(s: Span, lo: int, hi: int) {
    lo < s.first < s.last < hi
  }

  /** The text of a span runs from an opening brace to the brace that closes it. */
  ghost predicate MatchedSpan(json: string, s: Span) {
    0 <= s.first < s.last < |json| && Matched(json[s.first..s.last + 1])
  }

  /** Span i of those found is object i of the page, an object of the text between lo and hi that
      stands behind the one before. */
  ghost predicate IsNth(json: string, found: seq<Span>, objects: seq<Span>, i: nat, lo: int, hi: int) {
    i < |found| && i < |objects| && found[i] == objects[i] && Inside(found[i], lo, hi) &&
    Marks(json, found[i]) && MatchedSpan(json, found[i]) && (i > 0 ==> found[i - 1].last < found[i].first)
  }

  /** The spans met by a search that starts at an array. */
  function FoundFrom(pre: string, items: Page, post: string): seq<Span> {
    FindRun(SEARCH, From(pre + ArrayText(items, post), |pre|), |pre|).found
  }

  /** A small array: its size is the number of its objects, and they are what the search meets first. */
  lemma ObjectsFound(pre: string, items: Page, post: string)
    requires Plain(items) && Braces(items) < 256 && Brackets(items) < 255
    ensures CountRun(COUNTING, ArrayText(items, post)).cnt == |Objects(items, |pre| + 1)| < 256
    ensures Objects(items, |pre| + 1) <= FoundFrom(pre, items, post)
  {
    hide FindRun, CountRun, Objects, Seen, Text, Byte, Plain, Braces, Brackets, Depth, ArrDepth;
    var pos := |pre| + 1;
    FewerDeep(items, pos);
    FewBracesNoWrap(items, 0);
    SeenAtMost(items, pos, 0);
    SizeOfArray(items, post, pos);
    SearchMeetsObjects(items, post, |pre|);
    assert From(pre + ArrayText(items, post), |pre|) == ArrayText(items, post);
  }

  /** For every index below the size, the search gives the outermost object with that index: its
      text runs from an opening brace to the brace that closes it, inside the array, behind the
      object before. */
  lemma EveryObjectFound(pre: string, items: Page, post: string, i: nat)
    requires Plain(items) && Braces(items) < 256 && Brackets(items) < 255
    requires i < CountRun(COUNTING, ArrayText(items, post)).cnt
    ensures i < 256
    ensures IsNth(pre + ArrayText(items, post), FoundFrom(pre, items, post),
                  Objects(items, |pre| + 1), i, |pre|, |pre| + 1 + |Text(items)|)
  {
    hide FindRun, CountRun, Objects, Text, Marks, MatchedSpan, Plain, Braces, Brackets, FoundFrom;
    var pos := |pre| + 1;
    ObjectsFound(pre, items, post);
    var json := pre + ArrayText(items, post);
    assert json == (pre + ['[']) + Text(items) + ([']'] + post);
    ObjectsAreObjects(items, pre + ['['], [']'] + post, i);
    ObjectsOrdered(items, pos);
    MarkedMatched(json, Objects(items, pos)[i]);
  }

  lemma MarkedMatched(json: string, s: Span)
    requires Marks(json, s)
    ensures MatchedSpan(json, s)
  {
    ObjectMatched(json[s.first..s.last + 1]);
  }
}
