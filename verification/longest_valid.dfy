/** Length of the longest balanced substring, by one pass with a stack of
    indices whose bottom is a sentinel: the index just before the current
    balanced run. Any character other than '(' counts as ')'. */
module LongestValid {
  import opened Brackets

  /** The string the source effectively reads: '(' stays, everything else is ')'. */
  function Normalize(s: seq<char>): (t: seq<char>)
    ensures |t| == |s| && OnlyParens(t)
    ensures forall k :: 0 <= k < |s| ==> (t[k] == '(' <==> s[k] == '(')
  {
    seq(|s|, k requires 0 <= k < |s| => if s[k] == '(' then '(' else ')')
  }

  /** Stack shape: never empty, strictly increasing, bottom at least the
      sentinel -1, every entry an index already read. */
  ghost predicate StackShape(stack: seq<int>, idx: int)
  {
    |stack| >= 1 && -1 <= stack[0] &&
    (forall j1, j2 :: 0 <= j1 < j2 < |stack| ==> stack[j1] < stack[j2]) &&
    (forall j :: 0 <= j < |stack| ==> stack[j] < idx)
  }

  /** What the stack means for the prefix balances of `t[..idx]`: with
      q = stack[0] + 1, the prefix q is the last strict new minimum, and entry
      j >= 1 is an unmatched '(' opening level B(q) + j. */
  ghost predicate StackMeaning(t: seq<char>, stack: seq<int>, idx: nat)
    requires idx <= |t| && StackShape(stack, idx)
  {
    var q := stack[0] + 1;
    Balance(t, idx) == Balance(t, q) + |stack| - 1 &&
    (forall m :: 0 <= m < q ==> Balance(t, m) > Balance(t, q)) &&
    (forall j, m :: 0 <= j < |stack| && stack[j] + 1 <= m <= idx ==> Balance(t, m) >= Balance(t, q) + j) &&
    (forall j :: 1 <= j < |stack| ==> t[stack[j]] == '(' && Balance(t, stack[j]) == Balance(t, q) + j - 1)
  }

  /** A '(' at idx is pushed; no non-empty balanced run ends right after it. */
  lemma OpenStep(t: seq<char>, stack: seq<int>, idx: nat, b: nat)
    requires idx < |t| && b == idx + 1 && t[idx] == '('
    requires StackShape(stack, idx) && StackMeaning(t, stack, idx)
    ensures StackShape(stack + [idx], idx + 1) && StackMeaning(t, stack + [idx], idx + 1)
    ensures forall a :: 0 <= a < b && ValidSpan(t, a, b) ==> false
  {
    var st := stack + [idx];
    var q := stack[0] + 1;
    assert st[0] == stack[0];
    assert Balance(t, idx + 1) == Balance(t, idx) + 1;
    forall j, m | 0 <= j < |st| && st[j] + 1 <= m <= idx + 1
      ensures Balance(t, m) >= Balance(t, q) + j
    {
      if m <= idx {
        assert st[j] == stack[j];
      }
    }
    forall a | 0 <= a < b && ValidSpan(t, a, b)
      ensures false
    {
    }
  }

  /** A ')' that pops the sentinel itself: idx becomes the new sentinel and
      no non-empty balanced run ends right after it. */
  lemma ResetStep(t: seq<char>, stack: seq<int>, idx: nat, b: nat)
    requires idx < |t| && b == idx + 1 && t[idx] == ')'
    requires StackShape(stack, idx) && StackMeaning(t, stack, idx) && |stack| == 1
    ensures StackShape([idx], idx + 1) && StackMeaning(t, [idx], idx + 1)
    ensures forall a :: 0 <= a < b && ValidSpan(t, a, b) ==> false
  {
    var q := stack[0] + 1;
    assert Balance(t, idx + 1) == Balance(t, q) - 1;
    forall m | 0 <= m <= idx
      ensures Balance(t, m) > Balance(t, idx + 1)
    {
      if m >= q {
        assert Balance(t, m) >= Balance(t, q) + 0;
      }
    }
  }

  /** A ')' with an unmatched '(' on the stack: after the pop, the run from
      just after the new top to idx + 1 is balanced, and no balanced run
      ending at idx + 1 starts earlier. */
  lemma PopStep(t: seq<char>, stack: seq<int>, idx: nat, b: nat)
    requires idx < |t| && b == idx + 1 && t[idx] == ')'
    requires StackShape(stack, idx) && StackMeaning(t, stack, idx) && |stack| >= 2
    ensures var st := stack[..|stack| - 1];
      StackShape(st, idx + 1) && StackMeaning(t, st, idx + 1) &&
      ValidSpan(t, st[|st| - 1] + 1, idx + 1) &&
      forall a :: 0 <= a < b && ValidSpan(t, a, b) ==> a >= st[|st| - 1] + 1
  {
    var st := stack[..|stack| - 1];
    var q := stack[0] + 1;
    var k := |stack| - 1;
    var top := stack[k - 1];
    assert st[0] == stack[0] && st[|st| - 1] == top;
    assert Balance(t, idx + 1) == Balance(t, q) + k - 1;
    if k - 1 >= 1 {
      assert Balance(t, top + 1) == Balance(t, top) + 1;
    }
    assert Balance(t, top + 1) == Balance(t, q) + k - 1;
    forall m | top + 1 <= m <= idx + 1
      ensures Balance(t, m) >= Balance(t, top + 1)
    {
      if m <= idx {
        assert Balance(t, m) >= Balance(t, q) + (k - 1);
      }
    }
    forall j, m | 0 <= j < |st| && st[j] + 1 <= m <= idx + 1
      ensures Balance(t, m) >= Balance(t, q) + j
    {
      assert st[j] == stack[j];
    }
    forall a | 0 <= a < b && ValidSpan(t, a, b)
      ensures a >= top + 1
    {
    }
  }

  /** `longest` is the length of the balanced window [ga, gb) of `t[..idx]`,
      and no balanced window of `t[..idx]` is longer. */
  ghost predicate BestSoFar(t: seq<char>, idx: nat, longest: int, ga: nat, gb: nat)
    requires idx <= |t|
  {
    ga <= gb <= idx && gb - ga == longest && ValidSpan(t, ga, gb) &&
    forall a, b :: 0 <= a <= b <= idx && ValidSpan(t, a, b) ==> b - a <= longest
  }

  /** Reading one more character: if every balanced window ending at b
      starts at lo or later, and [lo, b) is balanced, the best length becomes
      the larger of the old one and b - lo. */
  lemma ExtendBest(t: seq<char>, idx: nat, b: nat, longest: int, ga: nat, gb: nat, lo: nat)
    requires b == idx + 1 <= |t| && lo <= b
    requires BestSoFar(t, idx, longest, ga, gb)
    requires ValidSpan(t, lo, b)
    requires forall a :: 0 <= a < b && ValidSpan(t, a, b) ==> a >= lo
    ensures longest >= b - lo ==> BestSoFar(t, b, longest, ga, gb)
    ensures longest < b - lo ==> BestSoFar(t, b, b - lo, lo, b)
  {
  }

  /** At the end of the input, the best window is a longest balanced substring. */
  lemma BestIsLongest(t: seq<char>, longest: int, ga: nat, gb: nat)
    requires BestSoFar(t, |t|, longest, ga, gb)
    ensures 0 <= longest <= |t|
    ensures exists a, b :: 0 <= a <= b <= |t| && b - a == longest && Balanced(t[a..b])
    ensures forall a, b :: 0 <= a <= b <= |t| && Balanced(t[a..b]) ==> b - a <= longest
  {
    ValidSpanIsBalanced(t, ga, gb);
    forall a, b | 0 <= a <= b <= |t| && Balanced(t[a..b])
      ensures b - a <= longest
    {
      ValidSpanIsBalanced(t, a, b);
    }
  }

  /** The loop invariant of the source's pass after reading `idx`
      characters: the stack's shape and meaning, and the best window so far. */
  ghost predicate PassState(t: seq<char>, idx: nat, stack: seq<int>, longest: int, ga: nat, gb: nat)
    requires idx <= |t|
  {
    StackShape(stack, idx) && StackMeaning(t, stack, idx) && BestSoFar(t, idx, longest, ga, gb)
  }

  /** One iteration of the source's loop: push on '(', otherwise pop and
      either reset the sentinel or measure the run that just closed. */
  method ReadChar(s: seq<char>, ghost t: seq<char>, idx: nat, stack: seq<int>, longest: int, ghost ga: nat, ghost gb: nat)
    returns (stack': seq<int>, longest': int, ghost ga': nat, ghost gb': nat)
    requires t == Normalize(s) && idx < |s|
    requires PassState(t, idx, stack, longest, ga, gb)
    ensures PassState(t, idx + 1, stack', longest', ga', gb')
    ensures longest <= longest'
  {
    ghost var b := idx + 1;
    ga', gb' := ga, gb;
    longest' := longest;
    if s[idx] == '(' {
      OpenStep(t, stack, idx, b);
      ExtendBest(t, idx, b, longest, ga, gb, b);
      stack' := stack + [idx];
    } else if |stack| == 1 {
      ResetStep(t, stack, idx, b);
      ExtendBest(t, idx, b, longest, ga, gb, b);
      stack' := [idx];
    } else {
      PopStep(t, stack, idx, b);
      stack' := stack[..|stack| - 1];
      ExtendBest(t, idx, b, longest, ga, gb, stack'[|stack'| - 1] + 1);
      if idx - stack'[|stack'| - 1] > longest {
        ga', gb' := stack'[|stack'| - 1] + 1, b;
      }
      longest' := if longest >= idx - stack'[|stack'| - 1] then longest else idx - stack'[|stack'| - 1];
    }
  }

  /** The stack-based single pass of the source. The result is the length of
      a balanced substring of the normalized input, and no balanced
      substring is longer. */
  method LongestValidParentheses(s: seq<char>) returns (longest: int)
    ensures 0 <= longest <= |s|
    ensures exists a, b :: 0 <= a <= b <= |s| && b - a == longest && Balanced(Normalize(s)[a..b])
    ensures forall a, b :: 0 <= a <= b <= |s| && Balanced(Normalize(s)[a..b]) ==> b - a <= longest
  {
    ghost var t := Normalize(s);
    var stack := [-1];
    longest := 0;
    ghost var ga: nat, gb: nat := 0, 0;
    for idx := 0 to |s|
      invariant PassState(t, idx, stack, longest, ga, gb)
    {
      stack, longest, ga, gb := ReadChar(s, t, idx, stack, longest, ga, gb);
    }
    BestIsLongest(t, longest, ga, gb);
  }

  /** On a string of brackets only, normalizing changes nothing. */
  lemma NormalizeParens(s: seq<char>)
    requires OnlyParens(s)
    ensures Normalize(s) == s
  {
  }

  /** A string whose balance dips below zero somewhere is not balanced. */
  lemma DipIsUnbalanced(w: seq<char>, i: nat)
    requires i <= |w| && Balance(w, i) < 0
    ensures !Balanced(w)
  {
  }

  /** The balanced windows the examples below rely on. */
  lemma SmallBalanced()
    ensures Balanced("()") && Balanced("()()") && Balanced("(())")
  {
    assert Balance("()", 1) == 1;
    assert Balance("()()", 1) == 1 && Balance("()()", 2) == 0 && Balance("()()", 3) == 1;
    assert Balance("(())", 1) == 1 && Balance("(())", 2) == 2 && Balance("(())", 3) == 1;
  }

  lemma AlternatingWindows(s: seq<char>)
    requires s == ")()())"
    ensures OnlyParens(s) && Balanced(s[1..5]) && !Balanced(s[0..6])
  {
    SmallBalanced();
    assert s[1..5] == "()()";
    DipIsUnbalanced(s[0..6], 1);
  }

  /** ")()())": the longest balanced substring is "()()". */
  method ExampleAlternating() returns (r: int)
    ensures r == 4
  {
    var s := ")()())";
    AlternatingWindows(s);
    NormalizeParens(s);
    r := LongestValidParentheses(s);
    ghost var a, b :| 0 <= a <= b <= |s| && b - a == r && Balanced(s[a..b]);
    BalancedEvenLength(s[a..b]);
  }

  lemma UnclosedWindows(s: seq<char>)
    requires s == "(()"
    ensures OnlyParens(s) && Balanced(s[1..3])
  {
    SmallBalanced();
    assert s[1..3] == "()";
  }

  /** "(()": only "()" is balanced. */
  method ExampleUnclosed() returns (r: int)
    ensures r == 2
  {
    var s := "(()";
    UnclosedWindows(s);
    NormalizeParens(s);
    r := LongestValidParentheses(s);
    ghost var a, b :| 0 <= a <= b <= |s| && b - a == r && Balanced(s[a..b]);
    BalancedEvenLength(s[a..b]);
  }

  lemma ReversedWindows(s: seq<char>)
    requires s == ")("
    ensures OnlyParens(s) && !Balanced(s[0..2])
  {
    DipIsUnbalanced(s[0..2], 1);
  }

  /** ")(": nothing non-empty is balanced. */
  method ExampleReversed() returns (r: int)
    ensures r == 0
  {
    var s := ")(";
    ReversedWindows(s);
    NormalizeParens(s);
    r := LongestValidParentheses(s);
    ghost var a, b :| 0 <= a <= b <= |s| && b - a == r && Balanced(s[a..b]);
    BalancedEvenLength(s[a..b]);
  }

  lemma NestedWindows(s: seq<char>)
    requires s == "))((())"
    ensures OnlyParens(s) && Balanced(s[3..7]) && !Balanced(s[0..6]) && !Balanced(s[1..7])
  {
    SmallBalanced();
    assert s[3..7] == "(())";
    DipIsUnbalanced(s[0..6], 1);
    DipIsUnbalanced(s[1..7], 1);
  }

  /** "))((())": the longest balanced substring is "(())". */
  method ExampleNested() returns (r: int)
    ensures r == 4
  {
    var s := "))((())";
    NestedWindows(s);
    NormalizeParens(s);
    r := LongestValidParentheses(s);
    ghost var a, b :| 0 <= a <= b <= |s| && b - a == r && Balanced(s[a..b]);
    BalancedEvenLength(s[a..b]);
  }

  lemma TwoRunsWindows(s: seq<char>)
    requires s == ")())()()"
    ensures OnlyParens(s) && Balanced(s[4..8])
    ensures !Balanced(s[0..6]) && !Balanced(s[1..7]) && !Balanced(s[2..8]) && !Balanced(s[0..8])
  {
    SmallBalanced();
    assert s[4..8] == "()()";
    DipIsUnbalanced(s[0..6], 1);
    DipIsUnbalanced(s[2..8], 1);
    DipIsUnbalanced(s[0..8], 1);
    var w := s[1..7];
    assert w[0] == '(' && w[1] == ')' && w[2] == ')';
    assert Balance(w, 1) == 1;
    assert Balance(w, 2) == 0;
    assert Balance(w, 3) == -1;
    DipIsUnbalanced(w, 3);
  }

  /** ")())()()": the runs "()" and "()()" are separated by an unmatched
      ')', so the answer is 4. */
  method ExampleTwoRuns() returns (r: int)
    ensures r == 4
  {
    var s := ")())()()";
    TwoRunsWindows(s);
    NormalizeParens(s);
    r := LongestValidParentheses(s);
    ghost var a, b :| 0 <= a <= b <= |s| && b - a == r && Balanced(s[a..b]);
    BalancedEvenLength(s[a..b]);
  }

  /** "" and "()": the empty input gives 0, a single pair gives 2. */
  method ExampleShort() returns (empty: int, pair: int)
    ensures empty == 0 && pair == 2
  {
    empty := LongestValidParentheses("");
    var s := "()";
    SmallBalanced();
    assert s[0..2] == s;
    NormalizeParens(s);
    pair := LongestValidParentheses(s);
  }
}
