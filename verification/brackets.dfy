/** The prefix balance shared by every bracket algorithm: the running count of
    '(' minus the count of ')' over a prefix. Any other character leaves the
    balance where it is. */
module Brackets {

  /** The change one character makes to the running balance. */
  function Step(c: char): int
  {
    if c == '(' then 1 else if c == ')' then -1 else 0
  }

  /** Balance of the first `i` characters of `s`. */
  function Balance(s: seq<char>, i: nat): int
    requires i <= |s|
  {
    if i == 0 then 0 else Balance(s, i - 1) + Step(s[i - 1])
  }

  /** True when every character is a bracket. */
  predicate OnlyParens(s: seq<char>)
  {
    forall k :: 0 <= k < |s| ==> s[k] == '(' || s[k] == ')'
  }

  /** A balanced string: no prefix closes more than it opened, and the whole
      string closes exactly what it opened. */
  predicate Balanced(s: seq<char>)
  {
    (forall i :: 0 <= i <= |s| ==> Balance(s, i) >= 0) && Balance(s, |s|) == 0
  }

  /** The balance of a window `s[a..b]` is the difference of two prefix balances. */
  lemma {:induction false} BalanceSlice(s: seq<char>, a: nat, b: nat, k: nat)
    requires a <= b <= |s| && k <= b - a
    ensures Balance(s[a..b], k) == Balance(s, a + k) - Balance(s, a)
  {
    if k > 0 {
      BalanceSlice(s, a, b, k - 1);
      assert s[a..b][k - 1] == s[a + k - 1];
    }
  }

  /** Prefix balances of a prefix are those of the whole string. */
  lemma BalancePrefix(s: seq<char>, n: nat, k: nat)
    requires k <= n <= |s|
    ensures Balance(s[..n], k) == Balance(s, k)
  {
    BalanceSlice(s, 0, n, k);
    assert s[0..n] == s[..n];
  }

  /** Balance over a concatenation: the second part starts where the first ends. */
  lemma BalanceConcat(a: seq<char>, b: seq<char>, k: nat)
    requires k <= |b|
    ensures Balance(a + b, |a| + k) == Balance(a, |a|) + Balance(b, k)
  {
    var w := a + b;
    BalanceSlice(w, |a|, |w|, k);
    BalancePrefix(w, |a|, |a|);
    assert w[|a|..|w|] == b;
    assert w[..|a|] == a;
  }

  /** A balanced window `s[a..b]`, stated through the prefix balances of `s`:
      it returns to the level it started at and never dips below it. */
  predicate ValidSpan(s: seq<char>, a: nat, b: nat)
    requires a <= b <= |s|
  {
    Balance(s, b) == Balance(s, a) &&
    forall m :: a <= m <= b ==> Balance(s, m) >= Balance(s, a)
  }

  /** `ValidSpan` is exactly "the substring is balanced". */
  lemma ValidSpanIsBalanced(s: seq<char>, a: nat, b: nat)
    requires a <= b <= |s|
    ensures ValidSpan(s, a, b) <==> Balanced(s[a..b])
  {
    forall k | 0 <= k <= b - a
      ensures Balance(s[a..b], k) == Balance(s, a + k) - Balance(s, a)
    {
      BalanceSlice(s, a, b, k);
    }
    if Balanced(s[a..b]) {
      forall m | a <= m <= b
        ensures Balance(s, m) >= Balance(s, a)
      {
        assert Balance(s[a..b], m - a) >= 0;
      }
    }
  }

  /** Over brackets only, the balance has the parity of the length. */
  lemma {:induction false} BalanceParity(s: seq<char>, i: nat)
    requires i <= |s| && OnlyParens(s)
    ensures (Balance(s, i) - i) % 2 == 0
  {
    if i > 0 {
      BalanceParity(s, i - 1);
    }
  }

  /** A balanced bracket string has even length. */
  lemma BalancedEvenLength(s: seq<char>)
    requires OnlyParens(s) && Balanced(s)
    ensures |s| % 2 == 0
  {
    BalanceParity(s, |s|);
  }
}
