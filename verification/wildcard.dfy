/** Wildcard matching by a boolean table: '?' matches one character, '*'
    matches any run of characters. dp[i][j] says whether the first i
    characters of the text match the first j characters of the pattern. */
module Wildcard {

  /** The cell dp[i][j] as the source fills it. Row 0 is filled first; the
      literal test (equal character or '?') is made before the '*' test, and a
      cell no branch writes keeps its initial false. */
  function Cell(s: seq<char>, p: seq<char>, i: nat, j: nat): bool
    requires i <= |s| && j <= |p|
    decreases i, j
  {
    if i == 0 then j == 0 || (p[j - 1] == '*' && Cell(s, p, 0, j - 1))
    else if j == 0 then false
    else if p[j - 1] == s[i - 1] || p[j - 1] == '?' then Cell(s, p, i - 1, j - 1)
    else if p[j - 1] == '*' then Cell(s, p, i, j - 1) || Cell(s, p, i - 1, j)
    else false
  }

  /** Reference semantics, read from the end of the pattern: a trailing '*'
      absorbs any suffix of the text, a trailing '?' any one character, any
      other character itself. */
  ghost predicate Matches(s: seq<char>, p: seq<char>)
    decreases |p|
  {
    if |p| == 0 then |s| == 0
    else if p[|p| - 1] == '*' then
      exists k :: 0 <= k <= |s| && Matches(s[..k], p[..|p| - 1])
    else
      |s| > 0 && (p[|p| - 1] == '?' || p[|p| - 1] == s[|s| - 1]) && Matches(s[..|s| - 1], p[..|p| - 1])
  }

  // ----- the table against the reference -----

  /** With the pattern prefix ending in '*', the reference match of a text
      prefix is "some shorter-or-equal prefix matches what precedes the star". */
  lemma StarUnfold(s: seq<char>, p: seq<char>, i: nat, j: nat)
    requires i <= |s| && 1 <= j <= |p| && p[j - 1] == '*'
    ensures Matches(s[..i], p[..j]) <==> exists k :: 0 <= k <= i && Matches(s[..k], p[..j - 1])
  {
    assert p[..j][..j - 1] == p[..j - 1];
    forall k | 0 <= k <= i
      ensures s[..i][..k] == s[..k]
    {
    }
  }

  lemma LiteralUnfold(s: seq<char>, p: seq<char>, i: nat, j: nat)
    requires 1 <= i <= |s| && 1 <= j <= |p| && p[j - 1] != '*'
    ensures Matches(s[..i], p[..j]) <==>
      (p[j - 1] == '?' || p[j - 1] == s[i - 1]) && Matches(s[..i - 1], p[..j - 1])
  {
    assert p[..j][..j - 1] == p[..j - 1];
    assert s[..i][..i - 1] == s[..i - 1];
  }

  /** For a text without '*', every table cell agrees with the reference
      semantics on the corresponding prefixes. */
  lemma {:induction false} CellMatches(s: seq<char>, p: seq<char>, i: nat, j: nat)
    requires i <= |s| && j <= |p|
    requires forall k :: 0 <= k < |s| ==> s[k] != '*'
    ensures Cell(s, p, i, j) <==> Matches(s[..i], p[..j])
    decreases i, j
  {
    if j == 0 {
      assert p[..0] == [];
    } else if p[j - 1] == '*' {
      StarUnfold(s, p, i, j);
      CellMatches(s, p, i, j - 1);
      if i > 0 {
        CellMatches(s, p, i - 1, j);
        StarUnfold(s, p, i - 1, j);
      }
    } else if i == 0 {
      assert p[..j][..j - 1] == p[..j - 1];
    } else {
      LiteralUnfold(s, p, i, j);
      CellMatches(s, p, i - 1, j - 1);
    }
  }

  // ----- the source's table fill -----

  /** The source's two-dimensional table fill. The answer is the last cell;
      for a text without '*' it is the reference semantics. */
  method IsWildcardMatching(s: seq<char>, p: seq<char>) returns (r: bool)
    ensures r == Cell(s, p, |s|, |p|)
    ensures (forall k :: 0 <= k < |s| ==> s[k] != '*') ==> (r <==> Matches(s, p))
  {
    var dp := new bool[|s| + 1, |p| + 1]((_, _) => false);
    dp[0, 0] := true;
    for j := 0 to |p|
      invariant forall b :: 0 <= b <= j ==> dp[0, b] == Cell(s, p, 0, b)
      invariant forall a, b :: 0 <= a <= |s| && 0 <= b <= |p| && (a > 0 || b > j) ==> !dp[a, b]
    {
      if p[j] == '*' {
        dp[0, j + 1] := dp[0, j];
      }
    }
    for si := 0 to |s|
      invariant forall a, b :: 0 <= a <= si && 0 <= b <= |p| ==> dp[a, b] == Cell(s, p, a, b)
      invariant forall a, b :: si < a <= |s| && 0 <= b <= |p| ==> !dp[a, b]
    {
      var sChar := s[si];
      ghost var row := si + 1;
      for pi := 0 to |p|
        invariant forall a, b :: 0 <= a <= si && 0 <= b <= |p| ==> dp[a, b] == Cell(s, p, a, b)
        invariant forall b :: 0 <= b <= pi ==> dp[row, b] == Cell(s, p, row, b)
        invariant forall a, b :: 0 <= a <= |s| && 0 <= b <= |p| && (a > si + 1 || (a == si + 1 && b > pi)) ==> !dp[a, b]
      {
        var pChar := p[pi];
        if pChar == sChar || pChar == '?' {
          dp[si + 1, pi + 1] := dp[si, pi];
        } else if pChar == '*' {
          dp[si + 1, pi + 1] := dp[si + 1, pi] || dp[si, pi + 1];
        }
      }
    }
    r := dp[|s|, |p|];
    if forall k :: 0 <= k < |s| ==> s[k] != '*' {
      CellMatches(s, p, |s|, |p|);
      assert s[..|s|] == s && p[..|p|] == p;
    }
  }

  // ----- properties of the table -----

  /** The empty text matches exactly the patterns made only of '*'. */
  lemma {:induction false} EmptyTextMatchesStars(s: seq<char>, p: seq<char>, j: nat)
    requires j <= |p|
    ensures Cell(s, p, 0, j) <==> forall k :: 0 <= k < j ==> p[k] == '*'
  {
    if j > 0 {
      EmptyTextMatchesStars(s, p, j - 1);
    }
  }

  /** The empty pattern matches only the empty text: column 0 is never
      written below row 0. */
  lemma EmptyPatternMatchesEmpty(s: seq<char>, p: seq<char>, i: nat)
    requires i <= |s|
    ensures Cell(s, p, i, 0) <==> i == 0
  {
  }

  /** The pattern "*" matches a text unless a '*' occurs after its first
      character: such a '*' is taken as a literal match, which leaves the
      empty pattern prefix to match a non-empty text. */
  lemma {:induction false} LoneStar(s: seq<char>, i: nat)
    requires i <= |s|
    ensures Cell(s, "*", i, 1) <==> forall k :: 1 <= k < i ==> s[k] != '*'
  {
    if i > 0 {
      LoneStar(s, i - 1);
    }
  }

  /** A pattern without '*' matches exactly the texts of its length that
      agree with it wherever it is not '?'. */
  lemma {:induction false} StarFreeMatch(s: seq<char>, p: seq<char>, i: nat, j: nat)
    requires i <= |s| && j <= |p|
    requires forall k :: 0 <= k < j ==> p[k] != '*'
    ensures Cell(s, p, i, j) <==> i == j && forall k :: 0 <= k < i ==> p[k] == s[k] || p[k] == '?'
  {
    if i > 0 && j > 0 {
      StarFreeMatch(s, p, i - 1, j - 1);
    }
  }

  /** The expected values listed beside the problem statement. */
  method WildcardExamples() returns (r1: bool, r2: bool, r3: bool, r4: bool)
    ensures !r1 && r2 && !r3 && r4
  {
    r1 := IsWildcardMatching("aa", "a");
    StarFreeMatch("aa", "a", 2, 1);
    r2 := IsWildcardMatching("aa", "*");
    LoneStar("aa", 2);
    r3 := IsWildcardMatching("cb", "?a");
    StarFreeMatch("cb", "?a", 2, 2);
    assert "cb"[1] != "?a"[1];
    r4 := IsWildcardMatching("adceb", "*a*b");
    assert Cell("adceb", "*a*b", 1, 2);
    assert Cell("adceb", "*a*b", 4, 3);
  }
}
