/** All balanced strings of n bracket pairs, built by size: every string with
    i pairs is "(" + left + ")" + right where left has j pairs and right has
    i - 1 - j pairs. */
module GenerateParens {
  import opened Brackets

  function Wrap(l: seq<char>, r: seq<char>): seq<char>
  {
    "(" + l + ")" + r
  }

  /** `Wrap(l, r)` for each r of `rs`, in order. */
  function Row(l: seq<char>, rs: seq<seq<char>>): (out: seq<seq<char>>)
    ensures |out| == |rs|
  {
    if rs == [] then [] else [Wrap(l, rs[0])] + Row(l, rs[1..])
  }

  /** Entry k of a row wraps the k-th right part. */
  lemma {:induction false} RowAt(l: seq<char>, rs: seq<seq<char>>, k: nat)
    requires k < |rs|
    ensures Row(l, rs)[k] == Wrap(l, rs[k])
  {
    if k > 0 {
      RowAt(l, rs[1..], k - 1);
    }
  }

  /** Every left of `ls` with every right of `rs`, lefts outermost. */
  function Products(ls: seq<seq<char>>, rs: seq<seq<char>>): seq<seq<char>>
  {
    if ls == [] then [] else Row(ls[0], rs) + Products(ls[1..], rs)
  }

  /** The strings with n pairs, in the order the source appends them. */
  function Gen(n: nat): seq<seq<char>>
    decreases n, 1, 0
  {
    if n == 0 then [""] else Splits(n, 0)
  }

  /** The part of `Gen(i)` whose left part has j, j + 1, ..., i - 1 pairs. */
  function Splits(i: nat, j: nat): seq<seq<char>>
    requires j <= i
    decreases i, 0, i - j
  {
    if j == i then [] else Products(Gen(j), Gen(i - 1 - j)) + Splits(i, j + 1)
  }

  /** The Catalan numbers by their convolution recurrence. */
  function Catalan(n: nat): nat
    decreases n, 1, 0
  {
    if n == 0 then 1 else CatalanSum(n, 0)
  }

  function CatalanSum(i: nat, j: nat): nat
    requires j <= i
    decreases i, 0, i - j
  {
    if j == i then 0 else Catalan(j) * Catalan(i - 1 - j) + CatalanSum(i, j + 1)
  }

  predicate Distinct(xs: seq<seq<char>>)
  {
    forall a, b :: 0 <= a < b < |xs| ==> xs[a] != xs[b]
  }

  /** Balanced strings over '(' and ')' only: the strings the source generates. */
  predicate WellFormed(w: seq<char>)
  {
    OnlyParens(w) && Balanced(w)
  }

  // ----- membership -----

  lemma {:induction false} ProductsIntro(ls: seq<seq<char>>, rs: seq<seq<char>>, a: nat, b: nat)
    requires a < |ls| && b < |rs|
    ensures Wrap(ls[a], rs[b]) in Products(ls, rs)
  {
    if a == 0 {
      RowAt(ls[0], rs, b);
    } else {
      ProductsIntro(ls[1..], rs, a - 1, b);
    }
  }

  lemma {:induction false} ProductsElim(ls: seq<seq<char>>, rs: seq<seq<char>>, w: seq<char>) returns (a: nat, b: nat)
    requires w in Products(ls, rs)
    ensures a < |ls| && b < |rs| && w == Wrap(ls[a], rs[b])
  {
    if w in Row(ls[0], rs) {
      a := 0;
      b :| 0 <= b < |rs| && Row(ls[0], rs)[b] == w;
      RowAt(ls[0], rs, b);
    } else {
      var a', b' := ProductsElim(ls[1..], rs, w);
      a, b := a' + 1, b';
    }
  }

  lemma {:induction false} SplitsIntro(i: nat, j: nat, k: nat, l: seq<char>, r: seq<char>)
    requires j <= k < i && l in Gen(k) && r in Gen(i - 1 - k)
    ensures Wrap(l, r) in Splits(i, j)
    decreases k - j
  {
    if j == k {
      var a :| 0 <= a < |Gen(k)| && Gen(k)[a] == l;
      var b :| 0 <= b < |Gen(i - 1 - k)| && Gen(i - 1 - k)[b] == r;
      ProductsIntro(Gen(k), Gen(i - 1 - k), a, b);
    } else {
      SplitsIntro(i, j + 1, k, l, r);
    }
  }

  lemma {:induction false} SplitsElim(i: nat, j: nat, w: seq<char>) returns (k: nat, l: seq<char>, r: seq<char>)
    requires j <= i && w in Splits(i, j)
    ensures j <= k < i && l in Gen(k) && r in Gen(i - 1 - k) && w == Wrap(l, r)
    decreases i - j
  {
    var lefts, rights := Gen(j), Gen(i - 1 - j);
    var here, rest := Products(lefts, rights), Splits(i, j + 1);
    assert Splits(i, j) == here + rest;
    if w in here {
      var a, b := ProductsElim(lefts, rights, w);
      k, l, r := j, lefts[a], rights[b];
    } else {
      assert w in rest;
      k, l, r := SplitsElim(i, j + 1, w);
    }
  }

  // ----- soundness -----

  /** Wrapping keeps both parts' balances, shifted: one level up inside the
      brackets, back to zero after them. */
  lemma WrapBalance(l: seq<char>, r: seq<char>, k: nat)
    requires k <= |l| + 2 + |r|
    ensures 1 <= k <= |l| + 1 ==> Balance(Wrap(l, r), k) == 1 + Balance(l, k - 1)
    ensures |l| + 2 <= k ==> Balance(Wrap(l, r), k) == Balance(l, |l|) + Balance(r, k - |l| - 2)
  {
    var w := Wrap(l, r);
    var pre := "(" + l;
    assert w == pre + (")" + r);
    if 1 <= k <= |l| + 1 {
      BalanceConcat("(", l, k - 1);
      BalancePrefix(w, |pre|, k);
      assert w[..|pre|] == pre;
    } else if |l| + 2 <= k {
      assert w == (pre + ")") + r;
      BalanceConcat(pre + ")", r, k - |l| - 2);
      BalanceConcat(pre, ")", 1);
      BalanceConcat("(", l, |l|);
    }
  }

  /** Wrapping two well-formed strings gives a well-formed string. */
  lemma WrapWellFormed(l: seq<char>, r: seq<char>)
    requires WellFormed(l) && WellFormed(r)
    ensures WellFormed(Wrap(l, r))
  {
    var w := Wrap(l, r);
    forall k | 0 <= k <= |w|
      ensures Balance(w, k) >= 0
    {
      WrapBalance(l, r, k);
    }
    WrapBalance(l, r, |w|);
  }

  /** Every generated string for n pairs is well formed and has length 2n. */
  lemma {:induction false} GenSound(n: nat, w: seq<char>)
    requires w in Gen(n)
    ensures |w| == 2 * n && WellFormed(w)
    decreases n
  {
    if n >= 1 {
      var k, l, r := SplitsElim(n, 0, w);
      GenSound(k, l);
      GenSound(n - 1 - k, r);
      WrapWellFormed(l, r);
    } else {
      assert w == "";
      assert Balanced("");
    }
  }

  // ----- completeness -----

  /** A non-empty well-formed string splits at its first return to zero. */
  lemma FirstReturn(w: seq<char>) returns (l: seq<char>, r: seq<char>)
    requires WellFormed(w) && |w| > 0
    ensures w == Wrap(l, r) && WellFormed(l) && WellFormed(r)
  {
    var m := 1;
    while Balance(w, m) != 0
      invariant 1 <= m <= |w|
      invariant forall k :: 1 <= k < m ==> Balance(w, k) >= 1
      decreases |w| - m
    {
      m := m + 1;
    }
    assert Balance(w, 1) == Step(w[0]);
    assert w[0] == '(';
    assert m >= 2;
    assert Balance(w, m - 1) == 1;
    assert w[m - 1] == ')';
    l, r := w[1..m - 1], w[m..];
    assert ValidSpan(w, 1, m - 1);
    ValidSpanIsBalanced(w, 1, m - 1);
    assert ValidSpan(w, m, |w|);
    ValidSpanIsBalanced(w, m, |w|);
    assert w[m..|w|] == r;
    assert w == [w[0]] + w[1..m - 1] + [w[m - 1]] + w[m..];
  }

  /** Every well-formed string of length 2n is generated. */
  lemma {:induction false} GenComplete(n: nat, w: seq<char>)
    requires WellFormed(w) && |w| == 2 * n
    ensures w in Gen(n)
    decreases n
  {
    if n == 0 {
      assert w == "";
    } else {
      var l, r := FirstReturn(w);
      BalancedEvenLength(l);
      BalancedEvenLength(r);
      var k := |l| / 2;
      GenComplete(k, l);
      GenComplete(n - 1 - k, r);
      SplitsIntro(n, 0, k, l, r);
    }
  }

  // ----- no duplicates -----

  /** In `Wrap(l, r)` with l balanced, position |l| + 2 is the first return
      to balance zero, so the split is unique. */
  lemma WrapUnique(l: seq<char>, r: seq<char>, l': seq<char>, r': seq<char>)
    requires Balanced(l) && Balanced(l')
    requires Wrap(l, r) == Wrap(l', r')
    ensures l == l' && r == r'
  {
    var w := Wrap(l, r);
    if |l| < |l'| {
      WrapBalance(l, r, |l| + 2);
      WrapBalance(l', r', |l| + 2);
      assert false;
    } else if |l'| < |l| {
      WrapBalance(l, r, |l'| + 2);
      WrapBalance(l', r', |l'| + 2);
      assert false;
    }
    assert l == w[1..|l| + 1] == l';
    assert r == w[|l| + 2..] == r';
  }

  lemma DistinctConcat(xs: seq<seq<char>>, ys: seq<seq<char>>)
    requires Distinct(xs) && Distinct(ys)
    requires forall x :: x in xs ==> x !in ys
    ensures Distinct(xs + ys)
  {
    var zs := xs + ys;
    forall a, b | 0 <= a < b < |zs|
      ensures zs[a] != zs[b]
    {
      if a < |xs| && b >= |xs| {
        assert zs[a] in xs && zs[b] == ys[b - |xs|];
      } else if a >= |xs| {
        assert zs[a] == ys[a - |xs|] && zs[b] == ys[b - |xs|];
      }
    }
  }

  lemma RowDistinct(l: seq<char>, rs: seq<seq<char>>)
    requires Distinct(rs)
    ensures Distinct(Row(l, rs))
  {
    var out := Row(l, rs);
    forall a, b | 0 <= a < b < |out|
      ensures out[a] != out[b]
    {
      RowAt(l, rs, a);
      RowAt(l, rs, b);
      assert out[a][|l| + 2..] == rs[a];
      assert out[b][|l| + 2..] == rs[b];
    }
  }

  lemma {:induction false} ProductsDistinct(ls: seq<seq<char>>, rs: seq<seq<char>>)
    requires Distinct(ls) && Distinct(rs)
    requires forall l :: l in ls ==> Balanced(l)
    ensures Distinct(Products(ls, rs))
  {
    if ls != [] {
      ProductsDistinct(ls[1..], rs);
      RowDistinct(ls[0], rs);
      forall x | x in Row(ls[0], rs)
        ensures x !in Products(ls[1..], rs)
      {
        var b :| 0 <= b < |rs| && Row(ls[0], rs)[b] == x;
        RowAt(ls[0], rs, b);
        if x in Products(ls[1..], rs) {
          var a', b' := ProductsElim(ls[1..], rs, x);
          WrapUnique(ls[0], rs[b], ls[a' + 1], rs[b']);
        }
      }
      DistinctConcat(Row(ls[0], rs), Products(ls[1..], rs));
    }
  }

  /** A string whose left part has j pairs is not among those whose left
      part has more. */
  lemma LevelsDisjoint(i: nat, j: nat, x: seq<char>)
    requires j < i && x in Products(Gen(j), Gen(i - 1 - j))
    ensures x !in Splits(i, j + 1)
  {
    var lefts, rights := Gen(j), Gen(i - 1 - j);
    var a, b := ProductsElim(lefts, rights, x);
    GenSound(j, lefts[a]);
    if x in Splits(i, j + 1) {
      var k, l', r' := SplitsElim(i, j + 1, x);
      GenSound(k, l');
      WrapUnique(lefts[a], rights[b], l', r');
      assert false;
    }
  }

  /** The generated strings for n pairs are pairwise distinct. */
  lemma {:induction false} GenDistinct(n: nat)
    ensures Distinct(Gen(n))
    decreases n, 1, 0
  {
    if n >= 1 {
      SplitsDistinct(n, 0);
    }
  }

  lemma {:induction false} SplitsDistinct(i: nat, j: nat)
    requires 1 <= i && j <= i
    ensures Distinct(Splits(i, j))
    decreases i, 0, i - j
  {
    if j < i {
      var lefts, rights := Gen(j), Gen(i - 1 - j);
      SplitsDistinct(i, j + 1);
      GenDistinct(j);
      GenDistinct(i - 1 - j);
      forall l | l in lefts
        ensures Balanced(l)
      {
        GenSound(j, l);
      }
      ProductsDistinct(lefts, rights);
      forall x | x in Products(lefts, rights)
        ensures x !in Splits(i, j + 1)
      {
        LevelsDisjoint(i, j, x);
      }
      DistinctConcat(Products(lefts, rights), Splits(i, j + 1));
    }
  }

  // ----- counting -----

  lemma {:induction false} ProductsCount(ls: seq<seq<char>>, rs: seq<seq<char>>)
    ensures |Products(ls, rs)| == |ls| * |rs|
  {
    if ls != [] {
      ProductsCount(ls[1..], rs);
      assert |ls| * |rs| == |rs| + (|ls| - 1) * |rs|;
    }
  }

  /** The number of generated strings follows the Catalan recurrence
      |Gen(i)| = sum over j < i of |Gen(j)| * |Gen(i - 1 - j)|. */
  lemma {:induction false} GenCount(n: nat)
    ensures |Gen(n)| == Catalan(n)
    decreases n, 1, 0
  {
    if n >= 1 {
      SplitsCount(n, 0);
    }
  }

  lemma {:induction false} SplitsCount(i: nat, j: nat)
    requires j <= i
    ensures |Splits(i, j)| == CatalanSum(i, j)
    decreases i, 0, i - j
  {
    if j < i {
      SplitsCount(i, j + 1);
      GenCount(j);
      GenCount(i - 1 - j);
      ProductsCount(Gen(j), Gen(i - 1 - j));
    }
  }

  // ----- the source's table fill -----

  lemma RowCons(l: seq<char>, rs: seq<seq<char>>, b: nat)
    requires b < |rs|
    ensures Row(l, rs[b..]) == [Wrap(l, rs[b])] + Row(l, rs[b + 1..])
  {
    assert rs[b..][1..] == rs[b + 1..];
  }

  lemma ProductsCons(ls: seq<seq<char>>, a: nat, rs: seq<seq<char>>)
    requires a < |ls|
    ensures Products(ls[a..], rs) == Row(ls[a], rs) + Products(ls[a + 1..], rs)
  {
    assert ls[a..][1..] == ls[a + 1..];
  }

  lemma Assoc(x: seq<seq<char>>, y: seq<seq<char>>, z: seq<seq<char>>)
    ensures x + y + z == x + (y + z)
  {
  }

  /** Innermost loop of the source: appends "(" + left + ")" + right for
      every right, in order. */
  method AppendRow(cur: seq<seq<char>>, left: seq<char>, rights: seq<seq<char>>) returns (out: seq<seq<char>>)
    ensures out == cur + Row(left, rights)
  {
    out := cur;
    var b := 0;
    while b < |rights|
      invariant 0 <= b <= |rights|
      invariant out + Row(left, rights[b..]) == cur + Row(left, rights)
    {
      RowCons(left, rights, b);
      Assoc(out, [Wrap(left, rights[b])], Row(left, rights[b + 1..]));
      out := out + ["(" + left + ")" + rights[b]];
      b := b + 1;
    }
  }

  /** The two inner loops of the source: every left of `lefts` with every
      right of `rights`. */
  method AppendProducts(cur: seq<seq<char>>, lefts: seq<seq<char>>, rights: seq<seq<char>>) returns (out: seq<seq<char>>)
    ensures out == cur + Products(lefts, rights)
  {
    out := cur;
    var a := 0;
    while a < |lefts|
      invariant 0 <= a <= |lefts|
      invariant out + Products(lefts[a..], rights) == cur + Products(lefts, rights)
    {
      ProductsCons(lefts, a, rights);
      Assoc(out, Row(lefts[a], rights), Products(lefts[a + 1..], rights));
      out := AppendRow(out, lefts[a], rights);
      a := a + 1;
    }
  }

  /** One level of the source's table: every split of i - 1 pairs into a
      left and a right part, left sizes ascending. */
  method FillLevel(dp: seq<seq<seq<char>>>, i: nat) returns (cur: seq<seq<char>>)
    requires 1 <= i <= |dp|
    requires forall k :: 0 <= k < i ==> dp[k] == Gen(k)
    ensures cur == Gen(i)
  {
    cur := [];
    var j := 0;
    while j < i
      invariant 0 <= j <= i
      invariant cur + Splits(i, j) == Gen(i)
    {
      Assoc(cur, Products(dp[j], dp[i - 1 - j]), Splits(i, j + 1));
      cur := AppendProducts(cur, dp[j], dp[i - 1 - j]);
      j := j + 1;
    }
  }

  /** What the strings for n pairs are: Catalan(n) of them, pairwise
      distinct, exactly the well-formed strings of length 2n. */
  lemma GenCharacterized(n: nat)
    ensures |Gen(n)| == Catalan(n)
    ensures Distinct(Gen(n))
    ensures forall w :: w in Gen(n) ==> |w| == 2 * n && WellFormed(w)
    ensures forall w :: |w| == 2 * n && WellFormed(w) ==> w in Gen(n)
  {
    GenCount(n);
    GenDistinct(n);
    forall w | w in Gen(n)
      ensures |w| == 2 * n && WellFormed(w)
    {
      GenSound(n, w);
    }
    forall w | |w| == 2 * n && WellFormed(w)
      ensures w in Gen(n)
    {
      GenComplete(n, w);
    }
  }

  /** The size-indexed table fill of the source: dp[i] collects
      "(" + left + ")" + right for left in dp[j], right in dp[i - 1 - j]. */
  method GenerateParenthesis(n: nat) returns (res: seq<seq<char>>)
    ensures res == Gen(n)
    ensures n == 0 ==> res == [""]
    ensures |res| == Catalan(n)
    ensures Distinct(res)
    ensures forall w :: w in res ==> |w| == 2 * n && WellFormed(w)
    ensures forall w :: |w| == 2 * n && WellFormed(w) ==> w in res
  {
    var dp: seq<seq<seq<char>>> := [[""]];
    var i := 1;
    while i <= n
      invariant 1 <= i <= n + 1
      invariant |dp| == i
      invariant forall k :: 0 <= k < i ==> dp[k] == Gen(k)
    {
      var cur := FillLevel(dp, i);
      dp := dp + [cur];
      i := i + 1;
    }
    res := dp[n];
    GenCharacterized(n);
  }

  /** The two examples: one pair, and the five strings of three pairs. */
  lemma GenExamples()
    ensures Gen(1) == ["()"]
    ensures (set w | w in Gen(3)) == {"((()))", "(()())", "(())()", "()(())", "()()()"}
  {
    var g0: seq<seq<char>> := [""];
    assert Gen(0) == g0;
    assert g0[1..] == [];
    assert Wrap("", "") == "()";
    assert Row("", g0) == ["()"];
    assert Gen(1) == Products(g0, g0) == ["()"];
    var g1: seq<seq<char>> := ["()"];
    assert g1[1..] == [];
    assert Wrap("", "()") == "()()";
    assert Row("", g1) == ["()()"];
    assert Wrap("()", "") == "(())";
    assert Row("()", g0) == ["(())"];
    assert Splits(2, 1) == Products(g1, g0);
    assert Gen(2) == Products(g0, g1) + Products(g1, g0) == ["()()", "(())"];
    var g2: seq<seq<char>> := ["()()", "(())"];
    assert g2[1..] == ["(())"] && g2[1..][1..] == [];
    assert Wrap("", "()()") == "()()()";
    assert Wrap("", "(())") == "()(())";
    assert Row("", g2) == ["()()()", "()(())"];
    assert Wrap("()", "()") == "(())()";
    assert Row("()", g1) == ["(())()"];
    assert Wrap("()()", "") == "(()())";
    assert Row("()()", g0) == ["(()())"];
    assert Wrap("(())", "") == "((()))";
    assert Row("(())", g0) == ["((()))"];
    assert Products(g2, g0) == ["(()())", "((()))"];
    assert Splits(3, 2) == Products(g2, g0);
    assert Splits(3, 1) == Products(g1, g1) + Splits(3, 2);
    assert Gen(3) == ["()()()", "()(())", "(())()", "(()())", "((()))"];
  }
}
