/**
 * `CamelCaseFilter.splitCamelCase`: `replaceAll` of a pattern made of three
 * zero-width alternatives with a single space.
 *   (?<=[A-Z])(?=[A-Z][a-z])     the last capital of a run that a lower-case letter follows
 *   (?<=[^A-Z])(?=[A-Z])         a capital after anything that is not a capital
 *   (?<=[A-Za-z])(?=[^A-Za-z])   anything but a letter after a letter
 * A lookbehind needs a character before the position and a lookahead one at
 * it, so only positions 0 < i < |s| can match. After an empty match the
 * matcher moves on by one character, so each position gets at most one
 * space, and all lookarounds look at the input, never at inserted spaces.
 * Only ASCII `A-Z` and `a-z` are letters here.
 */
module CamelCase {

  predicate IsUpper(c: char) { 'A' <= c <= 'Z' }

  predicate IsLower(c: char) { 'a' <= c <= 'z' }

  predicate IsLetter(c: char) { IsUpper(c) || IsLower(c) }

  /** Does one of the three alternatives match at position `i` of `s`? */
  predicate Boundary(s: string, i: int)
  {
    && 0 < i < |s|
    && (|| (IsUpper(s[i - 1]) && IsUpper(s[i]) && i + 1 < |s| && IsLower(s[i + 1]))
        || (!IsUpper(s[i - 1]) && IsUpper(s[i]))
        || (IsLetter(s[i - 1]) && !IsLetter(s[i])))
  }

  /** The matching positions in `[lo, hi)`. */
  function BoundariesIn(s: string, lo: int, hi: int): set<int>
  {
    set i | lo <= i < hi && Boundary(s, i)
  }

  function Boundaries(s: string): set<int>
  {
    BoundariesIn(s, 0, |s|)
  }

  lemma BoundariesStep(s: string, lo: int, hi: int)
    requires lo < hi
    ensures |BoundariesIn(s, lo, hi)| == (if Boundary(s, lo) then 1 else 0) + |BoundariesIn(s, lo + 1, hi)|
  {
    if Boundary(s, lo) {
      assert BoundariesIn(s, lo, hi) == {lo} + BoundariesIn(s, lo + 1, hi);
    } else {
      assert BoundariesIn(s, lo, hi) == BoundariesIn(s, lo + 1, hi);
    }
  }

  /** The output for the input from position `i` on. */
  function SplitFrom(s: string, i: nat): (r: string)
    requires i <= |s|
    ensures |r| == |s| - i + |BoundariesIn(s, i, |s|)|
    decreases |s| - i
  {
    if i == |s| then
      assert BoundariesIn(s, i, |s|) == {};
      []
    else
      BoundariesStep(s, i, |s|);
      (if Boundary(s, i) then " " else "") + [s[i]] + SplitFrom(s, i + 1)
  }

  function SplitCamelCase(s: string): string
  {
    SplitFrom(s, 0)
  }

  /** The output is one character longer per matching position. */
  lemma SplitCamelCaseLength(s: string)
    ensures |SplitCamelCase(s)| == |s| + |Boundaries(s)|
  {
  }

  /**
   * Where `SplitFrom(s, i)` puts `s[k]`, and what stands just before it:
   * the inserted space, or the previous input character.
   */
  lemma {:induction false} SplitFromPositions(s: string, i: nat, k: nat)
    requires i <= k < |s|
    ensures var r, at := SplitFrom(s, i), k - i + |BoundariesIn(s, i, k + 1)|;
            && at < |r| && r[at] == s[k]
            && (Boundary(s, k) ==> 0 < at && r[at - 1] == ' ')
            && (i < k && !Boundary(s, k) ==> r[at - 1] == s[k - 1])
    decreases k - i
  {
    var r := SplitFrom(s, i);
    var pre: string := if Boundary(s, i) then " " else "";
    var rest := SplitFrom(s, i + 1);
    assert r == pre + [s[i]] + rest;
    BoundariesStep(s, i, k + 1);
    if i < k {
      SplitFromPositions(s, i + 1, k);
      var at' := k - (i + 1) + |BoundariesIn(s, i + 1, k + 1)|;
      assert r[|pre| + 1 + at'] == rest[at'];
      if i + 1 < k || Boundary(s, k) {
        assert r[|pre| + at'] == rest[at' - 1];
      } else {
        assert at' == 0;
      }
    } else {
      assert BoundariesIn(s, i + 1, k + 1) == {};
    }
  }

  /**
   * `s[k]` stands at `k` plus the number of spaces inserted up to it; just
   * before it stands a space exactly where a boundary is, and otherwise the
   * previous input character. With the length lemma this fixes the whole
   * output: the input, in order, with one space at each boundary.
   */
  lemma SplitCamelCasePositions(s: string, k: nat)
    requires k < |s|
    ensures var r, at := SplitCamelCase(s), k + |BoundariesIn(s, 0, k + 1)|;
            && at < |r| && r[at] == s[k]
            && (0 < k ==> r[at - 1] == if Boundary(s, k) then ' ' else s[k - 1])
  {
    SplitFromPositions(s, 0, k);
  }

  /** Neither the first nor the last character of the output is an inserted space. */
  lemma SplitCamelCaseEnds(s: string)
    requires |s| > 0
    ensures var r := SplitCamelCase(s);
            |r| > 0 && r[0] == s[0] && r[|r| - 1] == s[|s| - 1]
  {
    SplitCamelCasePositions(s, 0);
    assert BoundariesIn(s, 0, 1) == {};
    SplitCamelCasePositions(s, |s| - 1);
    SplitCamelCaseLength(s);
  }

  /** Without a boundary, the input comes back unchanged. */
  lemma {:induction false} NoBoundaryUnchanged(s: string, i: nat)
    requires i <= |s|
    requires forall j :: i <= j < |s| ==> !Boundary(s, j)
    ensures SplitFrom(s, i) == s[i..]
    decreases |s| - i
  {
    if i < |s| {
      NoBoundaryUnchanged(s, i + 1);
      assert s[i..] == [s[i]] + s[i + 1..];
    }
  }

  /** Text without ASCII letters is returned unchanged. */
  lemma NoLettersUnchanged(s: string)
    requires forall j :: 0 <= j < |s| ==> !IsLetter(s[j])
    ensures SplitCamelCase(s) == s
  {
    NoBoundaryUnchanged(s, 0);
  }

  /** All-lower-case ASCII text is returned unchanged. */
  lemma LowerCaseUnchanged(s: string)
    requires forall j :: 0 <= j < |s| ==> IsLower(s[j])
    ensures SplitCamelCase(s) == s
  {
    NoBoundaryUnchanged(s, 0);
  }

  /**
   * In a run of capitals `s[lo..hi]` followed by a lower-case letter, the
   * only boundary strictly inside the run is before its last capital.
   */
  lemma CapitalRun(s: string, lo: int, hi: int)
    requires 0 <= lo < hi - 1 && hi < |s|
    requires forall j :: lo <= j < hi ==> IsUpper(s[j])
    requires IsLower(s[hi])
    ensures BoundariesIn(s, lo + 1, hi) == {hi - 1}
  {
    assert Boundary(s, hi - 1);
  }

  /** Letters other than ASCII ones count as non-letters. */
  lemma AccentedLetterSplits()
    ensures Boundary("aé", 1) && Boundary("éA", 1)
  {
  }

  /** With a single boundary, the output is the input with one space there. */
  lemma {:induction false} SingleBoundary(s: string, b: nat, i: nat)
    requires i <= b < |s|
    requires Boundary(s, b)
    requires forall j :: i <= j < |s| && j != b ==> !Boundary(s, j)
    ensures SplitFrom(s, i) == s[i..b] + " " + s[b..]
    decreases b - i
  {
    if i < b {
      SingleBoundary(s, b, i + 1);
      assert s[i..b] == [s[i]] + s[i + 1..b];
    } else {
      NoBoundaryUnchanged(s, b + 1);
      assert s[b..] == [s[b]] + s[b + 1..];
    }
  }

  /** A position holding a lower-case letter never matches. */
  lemma LowerIsNoBoundary(s: string, j: int)
    requires 0 <= j < |s| && IsLower(s[j])
    ensures !Boundary(s, j)
  {
  }

  /** With a boundary at `b` and lower-case letters everywhere else, one space goes in at `b`. */
  lemma {:induction false} OnlyBoundaryAmongLower(s: string, b: nat)
    requires b < |s| && Boundary(s, b)
    requires forall j :: 0 <= j < |s| && j != b ==> IsLower(s[j])
    ensures SplitCamelCase(s) == s[..b] + " " + s[b..]
  {
    forall j | 0 <= j < |s| && j != b ensures !Boundary(s, j) {
      LowerIsNoBoundary(s, j);
    }
    SingleBoundary(s, b, 0);
  }

  /** A lower-case word followed by a capitalised one: "seanCarroll" gives "sean Carroll". */
  lemma {:induction false} WordStart(a: string, b: string)
    requires |a| > 0 && |b| > 0 && IsUpper(b[0])
    requires forall j :: 0 <= j < |a| ==> IsLower(a[j])
    requires forall j :: 0 < j < |b| ==> IsLower(b[j])
    ensures SplitCamelCase(a + b) == a + " " + b
  {
    var s := a + b;
    assert Boundary(s, |a|) by { assert s[|a| - 1] == a[|a| - 1]; }
    forall j | 0 <= j < |s| && j != |a| ensures IsLower(s[j]) {
      if j < |a| { assert s[j] == a[j]; } else { assert s[j] == b[j - |a|]; }
    }
    OnlyBoundaryAmongLower(s, |a|);
    assert s[..|a|] == a && s[|a|..] == b;
  }

  /**
   * A lower-case word followed by a non-letter and more lower-case letters:
   * "sean-carroll" gives "sean -carroll".
   */
  lemma {:induction false} NonLetterStart(a: string, b: string)
    requires |a| > 0 && |b| > 0 && !IsLetter(b[0])
    requires forall j :: 0 <= j < |a| ==> IsLower(a[j])
    requires forall j :: 0 < j < |b| ==> IsLower(b[j])
    ensures SplitCamelCase(a + b) == a + " " + b
  {
    var s := a + b;
    assert Boundary(s, |a|) by { assert s[|a| - 1] == a[|a| - 1] && s[|a|] == b[0]; }
    forall j | 0 <= j < |s| && j != |a| ensures IsLower(s[j]) {
      if j < |a| { assert s[j] == a[j]; } else { assert s[j] == b[j - |a|]; }
    }
    OnlyBoundaryAmongLower(s, |a|);
    assert s[..|a|] == a && s[|a|..] == b;
  }

  /**
   * A run of capitals followed by a capitalised lower-case word: the space
   * goes before the run's last capital, "HTMLParser" gives "HTML Parser".
   */
  lemma {:induction false} CapitalRunThenWord(a: string, b: string)
    requires |a| > 0 && |b| > 1 && IsUpper(b[0])
    requires forall j :: 0 <= j < |a| ==> IsUpper(a[j])
    requires forall j :: 0 < j < |b| ==> IsLower(b[j])
    ensures SplitCamelCase(a + b) == a + " " + b
  {
    var s := a + b;
    assert Boundary(s, |a|) by {
      assert s[|a| - 1] == a[|a| - 1] && s[|a|] == b[0] && s[|a| + 1] == b[1];
    }
    forall j | 0 <= j < |s| && j != |a| ensures !Boundary(s, j) {
      if j < |a| {
        assert s[j] == a[j];
        if 0 < j { assert s[j - 1] == a[j - 1]; }
        if j + 1 < |a| { assert s[j + 1] == a[j + 1]; } else { assert s[j + 1] == b[0]; }
      } else {
        assert s[j] == b[j - |a|];
      }
    }
    SingleBoundary(s, |a|, 0);
    assert s[..|a|] == a && s[|a|..] == b;
  }

  // The three examples below take the input as a parameter fixed by `requires` rather
  // than literals in the ensures: a literal argument lets the verifier unfold
  // `SplitFrom` character by character, which is far slower.

  /** The test input "seanCarroll". */
  lemma ExampleWordStart(s: string)
    requires s == "seanCarroll"
    ensures SplitCamelCase(s) == "sean Carroll"
  {
    var a, b := s[..4], s[4..];
    assert s == a + b;
    WordStart(a, b);
  }

  /** The test input "sean-carroll". */
  lemma ExampleNonLetter(s: string)
    requires s == "sean-carroll"
    ensures SplitCamelCase(s) == "sean -carroll"
  {
    var a, b := s[..4], s[4..];
    assert s == a + b;
    NonLetterStart(a, b);
  }

  /** "HTMLParser": a run of capitals followed by a capitalised word. */
  lemma ExampleCapitalRun(s: string)
    requires s == "HTMLParser"
    ensures SplitCamelCase(s) == "HTML Parser"
  {
    var a, b := s[..4], s[4..];
    assert s == a + b;
    CapitalRunThenWord(a, b);
  }
}
