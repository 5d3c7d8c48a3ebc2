/** Regular-expression matching by a boolean table: '.' matches any one
    character, and 'c*' matches zero or more of the preceding element c.
    dp[i][j] says whether the first i characters of the text match the first
    j characters of the pattern. */
module Regex {

  /** Whether the pattern element `c` accepts the text character `ch`. */
  predicate CharMatch(c: char, ch: char)
  {
    c == ch || c == '.'
  }

  /** Python's reading of a possibly negative index into a sequence of
      length `len`: -1 is the last element. */
  function PyIndex(k: int, len: nat): (r: nat)
    requires -(len as int) <= k < len
    ensures r < len
    ensures 0 <= k ==> r == k
    ensures k < 0 ==> r - k == len
  {
    if k < 0 then k + len else k
  }

  /** The cell dp[i][j] as the source fills it. Row 0 admits only 'c*'
      pairs. Below it the literal test comes first; on a '*' the cell is the
      zero-occurrence cell dp[i][j-2] or, when the preceding element accepts
      the current character, dp[i-1][j]. At j == 1 the index j - 2 is -1:
      Python then reads the pattern's last character and the last column of
      the current row, which has not been written yet and is still false. */
  function Cell(s: seq<char>, p: seq<char>, i: nat, j: nat): bool
    requires i <= |s| && j <= |p|
    decreases i, j
  {
    if i == 0 then j == 0 || (j >= 2 && p[j - 1] == '*' && Cell(s, p, 0, j - 2))
    else if j == 0 then false
    else if p[j - 1] == s[i - 1] || p[j - 1] == '.' then Cell(s, p, i - 1, j - 1)
    else if p[j - 1] == '*' then
      var prev := p[PyIndex(j - 2, |p|)];
      (j >= 2 && Cell(s, p, i, j - 2)) || (CharMatch(prev, s[i - 1]) && Cell(s, p, i - 1, j))
    else false
  }

  /** A pattern in which every '*' has an element before it. */
  predicate NoLeadingStar(p: seq<char>)
  {
    |p| > 0 ==> p[0] != '*'
  }

  /** Reference semantics, read from the end of the pattern: a trailing 'c*'
      absorbs a (possibly empty) suffix of the text whose every character c
      accepts; any other trailing element accepts exactly one character. */
  ghost predicate Matches(s: seq<char>, p: seq<char>)
    requires NoLeadingStar(p)
    decreases |p|
  {
    if |p| == 0 then |s| == 0
    else if p[|p| - 1] == '*' then
      exists k :: 0 <= k <= |s| && Matches(s[..k], p[..|p| - 2]) &&
        forall m :: k <= m < |s| ==> CharMatch(p[|p| - 2], s[m])
    else
      |s| > 0 && CharMatch(p[|p| - 1], s[|s| - 1]) && Matches(s[..|s| - 1], p[..|p| - 1])
  }

  // ----- the table against the reference -----

  /** Some split point k <= i leaves a prefix matching `q` and a run in [k, i)
      accepted by the element c. */
  ghost predicate StarRun(s: seq<char>, q: seq<char>, c: char, i: nat)
    requires i <= |s| && NoLeadingStar(q)
  {
    exists k :: 0 <= k <= i && Matches(s[..k], q) && forall m :: k <= m < i ==> CharMatch(c, s[m])
  }

  /** A run either is empty or ends with a character the element accepts. */
  lemma StarRunStep(s: seq<char>, q: seq<char>, c: char, i: nat)
    requires 1 <= i <= |s| && NoLeadingStar(q)
    ensures StarRun(s, q, c, i) <==>
      Matches(s[..i], q) || (CharMatch(c, s[i - 1]) && StarRun(s, q, c, i - 1))
  {
    if StarRun(s, q, c, i) {
      var k :| 0 <= k <= i && Matches(s[..k], q) && forall m :: k <= m < i ==> CharMatch(c, s[m]);
      if k < i {
        assert CharMatch(c, s[i - 1]);
        assert StarRun(s, q, c, i - 1);
      }
    }
    if Matches(s[..i], q) {
      assert StarRun(s, q, c, i);
    } else if CharMatch(c, s[i - 1]) && StarRun(s, q, c, i - 1) {
      var k :| 0 <= k <= i - 1 && Matches(s[..k], q) && forall m :: k <= m < i - 1 ==> CharMatch(c, s[m]);
      assert StarRun(s, q, c, i);
    }
  }

  /** The reference on a pattern prefix ending in 'c*' is a star run. */
  lemma StarUnfold(s: seq<char>, p: seq<char>, i: nat, j: nat)
    requires i <= |s| && 2 <= j <= |p| && p[j - 1] == '*' && NoLeadingStar(p)
    ensures NoLeadingStar(p[..j - 2])
    ensures Matches(s[..i], p[..j]) <==> StarRun(s, p[..j - 2], p[j - 2], i)
  {
    assert p[..j][..j - 2] == p[..j - 2];
    assert p[..j][j - 2] == p[j - 2];
    forall k | 0 <= k <= i
      ensures s[..i][..k] == s[..k]
    {
    }
    forall m | 0 <= m < i
      ensures s[..i][m] == s[m]
    {
    }
  }

  lemma LiteralUnfold(s: seq<char>, p: seq<char>, i: nat, j: nat)
    requires 1 <= i <= |s| && 1 <= j <= |p| && p[j - 1] != '*' && NoLeadingStar(p)
    ensures NoLeadingStar(p[..j - 1])
    ensures Matches(s[..i], p[..j]) <==>
      CharMatch(p[j - 1], s[i - 1]) && Matches(s[..i - 1], p[..j - 1])
  {
    assert p[..j][..j - 1] == p[..j - 1];
    assert s[..i][..i - 1] == s[..i - 1];
  }

  /** For a text without '*' and a pattern that does not start with '*',
      every table cell agrees with the reference semantics on the
      corresponding prefixes. */
  lemma {:induction false} CellMatches(s: seq<char>, p: seq<char>, i: nat, j: nat)
    requires i <= |s| && j <= |p| && NoLeadingStar(p)
    requires forall k :: 0 <= k < |s| ==> s[k] != '*'
    ensures NoLeadingStar(p[..j])
    ensures Cell(s, p, i, j) <==> Matches(s[..i], p[..j])
    decreases i, j
  {
    if j == 0 {
      assert p[..0] == [];
    } else if p[j - 1] == '*' {
      StarUnfold(s, p, i, j);
      CellMatches(s, p, i, j - 2);
      if i > 0 {
        StarRunStep(s, p[..j - 2], p[j - 2], i);
        CellMatches(s, p, i - 1, j);
        StarUnfold(s, p, i - 1, j);
      } else {
        assert StarRun(s, p[..j - 2], p[j - 2], 0) <==> Matches(s[..0], p[..j - 2]);
      }
    } else if i == 0 {
      assert p[..j][..j - 1] == p[..j - 1];
    } else {
      LiteralUnfold(s, p, i, j);
      CellMatches(s, p, i - 1, j - 1);
    }
  }

  // ----- the source's table fill -----

  /** One row i >= 1 of the source's table, left to right. A cell no branch
      writes keeps its initial false; the wrapped read at j == 1 sees the
      row's last cell before it is written. */
  method FillRow(dp: array2<bool>, s: seq<char>, p: seq<char>, i: nat)
    requires dp.Length0 == |s| + 1 && dp.Length1 == |p| + 1 && 1 <= i <= |s|
    requires forall a, b :: 0 <= a < i && 0 <= b <= |p| ==> dp[a, b] == Cell(s, p, a, b)
    requires forall b :: 0 <= b <= |p| ==> !dp[i, b]
    modifies dp
    ensures forall a, b :: 0 <= a <= |s| && 0 <= b <= |p| && a != i ==> dp[a, b] == old(dp[a, b])
    ensures forall b :: 0 <= b <= |p| ==> dp[i, b] == Cell(s, p, i, b)
  {
    for j := 1 to |p| + 1
      invariant forall a, b :: 0 <= a <= |s| && 0 <= b <= |p| && a != i ==> dp[a, b] == old(dp[a, b])
      invariant forall b :: 0 <= b < j ==> dp[i, b] == Cell(s, p, i, b)
      invariant forall b :: j <= b <= |p| ==> !dp[i, b]
    {
      if p[j - 1] == s[i - 1] || p[j - 1] == '.' {
        dp[i, j] := dp[i - 1, j - 1];
      } else if p[j - 1] == '*' {
        dp[i, j] := dp[i, PyIndex(j - 2, |p| + 1)];
        var prev := p[PyIndex(j - 2, |p|)];
        if prev == s[i - 1] || prev == '.' {
          dp[i, j] := dp[i, j] || dp[i - 1, j];
        }
      }
    }
  }

  /** The source's two-dimensional table fill, with Python's negative
      indexing written out. The answer is the last cell; for a text without
      '*' and a pattern not starting with '*' it is the reference semantics. */
  method IsRegexMatching(s: seq<char>, p: seq<char>) returns (r: bool)
    ensures r == Cell(s, p, |s|, |p|)
    ensures NoLeadingStar(p) && (forall k :: 0 <= k < |s| ==> s[k] != '*') ==> (r <==> Matches(s, p))
  {
    var dp := new bool[|s| + 1, |p| + 1]((_, _) => false);
    dp[0, 0] := true;
    var j := 2;
    while j <= |p|
      invariant 2 <= j
      invariant forall b :: 0 <= b < j && b <= |p| ==> dp[0, b] == Cell(s, p, 0, b)
      invariant forall a, b :: 0 <= a <= |s| && 0 <= b <= |p| && (a > 0 || b >= j) ==> !dp[a, b]
    {
      if p[j - 1] == '*' {
        dp[0, j] := dp[0, j - 2];
      }
      j := j + 1;
    }
    for i := 1 to |s| + 1
      invariant forall a, b :: 0 <= a < i && 0 <= b <= |p| ==> dp[a, b] == Cell(s, p, a, b)
      invariant forall a, b :: i <= a <= |s| && 0 <= b <= |p| ==> !dp[a, b]
    {
      FillRow(dp, s, p, i);
    }
    r := dp[|s|, |p|];
    if NoLeadingStar(p) && forall k :: 0 <= k < |s| ==> s[k] != '*' {
      CellMatches(s, p, |s|, |p|);
      assert s[..|s|] == s && p[..|p|] == p;
    }
  }

  // ----- properties of the table -----

  /** The empty text matches exactly the patterns made of 'c*' pairs: even
      length with '*' at every odd position. */
  lemma {:induction false} EmptyTextMatchesPairs(s: seq<char>, p: seq<char>, j: nat)
    requires j <= |p|
    ensures Cell(s, p, 0, j) <==> j % 2 == 0 && forall k :: 0 <= k < j && k % 2 == 1 ==> p[k] == '*'
  {
    if j >= 2 {
      EmptyTextMatchesPairs(s, p, j - 2);
    }
  }

  /** The empty pattern matches only the empty text. */
  lemma EmptyPatternMatchesEmpty(s: seq<char>, p: seq<char>, i: nat)
    requires i <= |s|
    ensures Cell(s, p, i, 0) <==> i == 0
  {
  }

  /** ".*" matches every text without '*'. */
  lemma {:induction false} DotStarMatchesAll(s: seq<char>, i: nat)
    requires i <= |s|
    requires forall k :: 0 <= k < i ==> s[k] != '*'
    ensures Cell(s, ".*", i, 2)
  {
    if i > 0 {
      DotStarMatchesAll(s, i - 1);
    }
  }

  /** A pattern without '*' matches exactly the texts of its length that
      agree with it wherever it is not '.'. */
  lemma {:induction false} StarFreeMatch(s: seq<char>, p: seq<char>, i: nat, j: nat)
    requires i <= |s| && j <= |p|
    requires forall k :: 0 <= k < j ==> p[k] != '*'
    ensures Cell(s, p, i, j) <==> i == j && forall k :: 0 <= k < i ==> CharMatch(p[k], s[k])
  {
    if i > 0 && j > 0 {
      StarFreeMatch(s, p, i - 1, j - 1);
    }
  }

  /** A leading '*' never matches a non-empty text without '*': the wrapped
      zero-occurrence cell is false, and so is the cell above it. */
  lemma {:induction false} LeadingStarColumn(s: seq<char>, p: seq<char>, i: nat)
    requires i <= |s| && |p| > 0 && p[0] == '*'
    requires forall k :: 0 <= k < i ==> s[k] != '*'
    ensures !Cell(s, p, i, 1)
  {
    if i > 0 {
      LeadingStarColumn(s, p, i - 1);
    }
  }

  /** "a*" takes two a's; "c*a*b" skips the c's, takes two a's, then b. */
  lemma StarCells()
    ensures Cell("aa", "a*", 2, 2)
    ensures Cell("aab", "c*a*b", 3, 5)
  {
    assert Cell("aa", "a*", 1, 2);
    assert Cell("aab", "c*a*b", 1, 4);
    assert Cell("aab", "c*a*b", 2, 4);
  }

  /** "a" does not match "aa"; "a*" matches "" and "aa"; ".*" matches "ab";
      "c*a*b" matches "aab". */
  method RegexExamples() returns (r1: bool, r2: bool, r3: bool, r4: bool, r5: bool)
    ensures !r1 && r2 && r3 && r4 && r5
  {
    r1 := IsRegexMatching("aa", "a");
    StarFreeMatch("aa", "a", 2, 1);
    r2 := IsRegexMatching("", "a*");
    EmptyTextMatchesPairs("", "a*", 2);
    StarCells();
    r3 := IsRegexMatching("aa", "a*");
    r4 := IsRegexMatching("ab", ".*");
    DotStarMatchesAll("ab", 2);
    r5 := IsRegexMatching("aab", "c*a*b");
  }
}
