/** Matching braces by counting: the level of a text and the brace that closes another. */
module BraceLevels {

  /** Opening braces less closing ones. */
  function Level(text: string): int {
    if text == "" then 0
    else
      Level(text[..|text| - 1]) +
      if text[|text| - 1] == '{' then 1 else if text[|text| - 1] == '}' then -1 else 0
  }

  /** The last character is the first closing brace that brings the level back to zero. */
  ghost predicate Matched(text: string) {
    |text| >= 2 && text[0] == '{' && text[|text| - 1] == '}' && Level(text) == 0 &&
    forall k :: 0 < k < |text| ==> Level(text[..k]) > 0
  }

  lemma {:induction false} LevelAppend(a: string, b: string)
    ensures Level(a + b) == Level(a) + Level(b)
    decreases |b|
  {
    if b == "" {
      assert a + b == a;
    } else {
      assert (a + b)[..|a + b| - 1] == a + b[..|b| - 1];
      LevelAppend(a, b[..|b| - 1]);
    }
  }

  /** A page never closes more than it has opened, and leaves the level as it was. */
  ghost predicate Balanced(text: string) {
    Level(text) == 0 && forall k :: 0 <= k <= |text| ==> Level(text[..k]) >= 0
  }

  lemma BalancedAppend(a: string, b: string)
    requires Balanced(a) && Balanced(b)
    ensures Balanced(a + b)
  {
    hide Level;
    LevelAppend(a, b);
    forall k | 0 <= k <= |a + b| ensures Level((a + b)[..k]) >= 0 {
      if k <= |a| {
        assert (a + b)[..k] == a[..k];
      } else {
        assert (a + b)[..k] == a + b[..k - |a|];
        LevelAppend(a, b[..k - |a|]);
      }
    }
  }

  lemma LevelOne(c: char)
    ensures Level([c]) == if c == '{' then 1 else if c == '}' then -1 else 0
    ensures Level("") == 0
  {
    assert [c][..0] == "";
  }

  lemma BalancedOne(c: char)
    requires c != '{' && c != '}'
    ensures Balanced([c])
  {
    LevelOne(c);
    assert [c][..0] == "" && [c][..1] == [c];
  }

  lemma BracesBalance(t: string)
    requires Balanced(t)
    ensures Matched("{" + t + "}") && Balanced("{" + t + "}")
  {
    hide Level;
    var text := "{" + t + "}";
    LevelOne('{');
    LevelOne('}');
    LevelAppend("{" + t, "}");
    LevelAppend("{", t);
    forall k | 0 < k < |text| ensures Level(text[..k]) > 0 {
      assert text[..k] == "{" + t[..k - 1];
      LevelAppend("{", t[..k - 1]);
    }
    assert text[..0] == "" && text[..|text|] == text;
  }

  lemma EmptyBalanced()
    ensures Balanced("")
  {
  }
}
