/** Minimum number of swaps that balance a bracket string, in closed form:
    -1 when the counts of '(' and ')' differ, otherwise half the depth of the
    deepest dip of the prefix balance, rounded up. */
module MinSwaps {
  import opened Brackets

  function Min(a: int, b: int): int
  {
    if a <= b then a else b
  }

  /** The lowest balance over the prefixes of length 0..n; the empty prefix
      makes it at most 0. */
  function MinPrefixBalance(s: seq<char>, n: nat): (m: int)
    requires n <= |s|
    ensures m <= 0
    ensures forall i :: 0 <= i <= n ==> m <= Balance(s, i)
    ensures exists i :: 0 <= i <= n && m == Balance(s, i)
  {
    if n == 0 then assert Balance(s, 0) == 0; 0 else Min(MinPrefixBalance(s, n - 1), Balance(s, n))
  }

  /** The answer the source computes: -1 when unbalanceable, otherwise the
      least r for which every prefix balance is at least -2r. */
  function MinSwapsOf(s: seq<char>): (r: int)
    ensures r == -1 <==> Balance(s, |s|) != 0
    ensures r != -1 ==> r >= 0 && forall i :: 0 <= i <= |s| ==> Balance(s, i) >= -2 * r
    ensures r > 0 ==> exists i :: 0 <= i <= |s| && Balance(s, i) <= 1 - 2 * r
    ensures r == 0 <==> Balanced(s)
  {
    if Balance(s, |s|) == 0 then (1 - MinPrefixBalance(s, |s|)) / 2 else -1
  }

  /** The single pass of the source: a running balance and the most negative
      value it reached, then the closed form. */
  method MinSwaps(s: seq<char>) returns (r: int)
    ensures r == MinSwapsOf(s)
    ensures Balance(s, |s|) == 0 ==> r == (1 - MinPrefixBalance(s, |s|)) / 2
  {
    var balance := 0;
    var mostNegative := 0;
    var i := 0;
    while i < |s|
      invariant 0 <= i <= |s|
      invariant balance == Balance(s, i)
      invariant mostNegative == MinPrefixBalance(s, i)
    {
      var bracket := s[i];
      if bracket == '(' {
        balance := balance + 1;
      } else if bracket == ')' {
        balance := balance - 1;
      }
      if balance < mostNegative {
        mostNegative := balance;
      }
      i := i + 1;
    }
    if balance == 0 {
      // ceil(k / 2) for the non-negative integer k = -mostNegative
      return (-mostNegative + 1) / 2;
    }
    return -1;
  }

  /** Inserting a non-bracket character shifts the prefix balances by one
      position without changing any of their values. */
  lemma {:induction false} BalanceSkipsOther(a: seq<char>, c: char, b: seq<char>, i: nat)
    requires c != '(' && c != ')'
    requires i <= |a| + 1 + |b|
    ensures i <= |a| ==> Balance(a + [c] + b, i) == Balance(a + b, i)
    ensures i > |a| ==> Balance(a + [c] + b, i) == Balance(a + b, i - 1)
  {
    if i > 0 {
      BalanceSkipsOther(a, c, b, i - 1);
      if i > |a| + 1 {
        assert (a + [c] + b)[i - 1] == (a + b)[i - 2];
      } else if i <= |a| {
        assert (a + [c] + b)[i - 1] == (a + b)[i - 1];
      }
    }
  }

  /** Characters other than '(' and ')' do not change the answer. */
  lemma NonBracketIgnored(a: seq<char>, c: char, b: seq<char>)
    requires c != '(' && c != ')'
    ensures MinSwapsOf(a + [c] + b) == MinSwapsOf(a + b)
  {
    var w, v := a + [c] + b, a + b;
    BalanceSkipsOther(a, c, b, |w|);
    var mw, mv := MinPrefixBalance(w, |w|), MinPrefixBalance(v, |v|);
    var iw :| 0 <= iw <= |w| && mw == Balance(w, iw);
    var iv :| 0 <= iv <= |v| && mv == Balance(v, iv);
    BalanceSkipsOther(a, c, b, iw);
    if iv <= |a| {
      BalanceSkipsOther(a, c, b, iv);
    } else {
      BalanceSkipsOther(a, c, b, iv + 1);
    }
    assert mw <= mv && mv <= mw;
  }

  /** Expected values from the source's test table. */
  lemma MinSwapsExamples()
    ensures MinSwapsOf("") == 0
    ensures MinSwapsOf(")(") == 1
    ensures MinSwapsOf("(") == -1
  {
    assert Balance(")(", 1) == -1;
  }

  /** k closing brackets followed by k opening ones. */
  function Reversed(k: nat): (s: seq<char>)
    ensures |s| == 2 * k
  {
    seq(k, _ => ')') + seq(k, _ => '(')
  }

  lemma {:induction false} ReversedBalance(k: nat, i: nat)
    requires i <= 2 * k
    ensures Balance(Reversed(k), i) == if i <= k then -(i as int) else i - 2 * k
  {
    if i > 0 {
      ReversedBalance(k, i - 1);
    }
  }

  /** The reversed string dips to -k, so it needs (k+1)/2 swaps. */
  lemma ReversedNeedsHalf(k: nat)
    ensures MinSwapsOf(Reversed(k)) == (k + 1) / 2
  {
    var s := Reversed(k);
    ReversedBalance(k, k);
    ReversedBalance(k, 2 * k);
    var r := MinSwapsOf(s);
    assert r >= 0 && Balance(s, k) >= -2 * r;
    if r > 0 {
      var i :| 0 <= i <= |s| && Balance(s, i) <= 1 - 2 * r;
      ReversedBalance(k, i);
    }
  }

  /** The longer expected values of the source's test table. */
  lemma MinSwapsReversedExamples()
    ensures MinSwapsOf(")))(((") == 2
    ensures MinSwapsOf("))))))))((((((((") == 4
  {
    ReversedNeedsHalf(3);
    assert Reversed(3) == ")))(((";
    ReversedNeedsHalf(8);
    assert Reversed(8) == "))))))))((((((((";
  }
}
