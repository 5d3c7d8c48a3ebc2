# Interview algorithms: brackets, pattern tables, array scans

This project models seven small sequence algorithms of an interview-practice
repository and proves what each promises. Each algorithm is an imperative
Dafny method that follows the Python loop step by step. Each is paired with a
functional reference definition and lemmas that connect the two.

- **Bracket strings** share one notion, the prefix balance `Brackets.Balance(s, i)`: the number of `(` minus the number of `)` among the first `i` characters.
  - `min_swaps` gives the closed-form number of swaps that balance a string, or -1.
  - `longest_valid_parentheses` finds the longest balanced substring, using a stack of indices.
  - `generate_parenthesis` lists all balanced strings with n pairs, filling a table by size.
- **Pattern matching by boolean tables.**
  - `is_wildcard_matching`: `?` matches one character and `*` matches any run.
  - `is_regex_matching`: `.` matches any one character and `c*` matches zero or more of `c`. Python's negative indexing on a leading `*` is written out as `Regex.PyIndex`.
- **Array scans.**
  - `longest_mountain` uses two counters in one pass.
  - `three_sum_closest` sorts, then walks two pointers inward.

Python integers are unbounded, and so are Dafny's `int`, so no wrap-around is
modelled. Python strings are `seq<char>`.

## Model

| member | source | states |
|---|---|---|
| Brackets.BalanceSlice | leetcode/minswaps/solution.py:7-11 | The balance of a window `s[a..b]` after k characters is the difference of two prefix balances of `s`. |
| Brackets.ValidSpanIsBalanced | longest_valid_parentheses/main.py:3 | A window returns to its starting balance and never dips below it exactly when the substring is balanced (both directions). |
| Brackets.BalancedEvenLength | longest_valid_parentheses/main.py:3 | A balanced string of brackets has even length. |
| MinSwaps.MinPrefixBalance | leetcode/minswaps/solution.py:6-14 | The tracked minimum is at most 0, at most every prefix balance up to n, and equal to one of them. |
| MinSwaps.MinSwapsOf | leetcode/minswaps/solution.py:16-18 | The answer is -1 exactly when the final balance is non-zero. Otherwise it is the least r >= 0 such that no prefix balance goes below -2r. It is 0 exactly when the string is balanced. |
| MinSwaps.MinSwaps | leetcode/minswaps/solution.py:3-18 | The loop's running balance and `most_negative` are the prefix balance and its minimum, and the returned value is `MinSwapsOf`. The integer `(k + 1) / 2` stands for `ceil(k / 2)`. |
| MinSwaps.NonBracketIgnored | leetcode/minswaps/solution.py:8-11 | Inserting a character other than `(` or `)` anywhere does not change the answer. |
| MinSwaps.ReversedNeedsHalf | leetcode/minswaps/solution.py:16-17 | k closing brackets followed by k opening ones need `(k + 1) / 2` swaps. |
| MinSwaps.MinSwapsExamples | minswaps/test_main.py:11-72 | `")("` gives 1, `"("` gives -1, and `""` gives 0, as the test table expects. |
| MinSwaps.MinSwapsReversedExamples | minswaps/test_main.py:38-78 | `")))((("` gives 2 and the 16-character reversed string gives 4. |
| LongestValid.Normalize | longest_valid_parentheses/solution.py:7-9 | The string the loop effectively reads has the input's length, holds only brackets, and has `(` exactly where the input has `(`. Every other character counts as `)`. |
| LongestValid.NormalizeParens | longest_valid_parentheses/solution.py:7-9 | On a string of brackets only, that reading is the string itself. |
| LongestValid.OpenStep | longest_valid_parentheses/solution.py:7-8 | Pushing the index of a `(` keeps the stack strictly increasing and meaningful. No balanced window ends right after a `(`. |
| LongestValid.ResetStep | longest_valid_parentheses/solution.py:10-12 | A `)` that empties the stack makes its own index the new base. No balanced window ends right after it. |
| LongestValid.PopStep | longest_valid_parentheses/solution.py:10-14 | After a `)` pops an unmatched `(`, the window from just after the new top to idx + 1 is balanced. Every balanced window ending there starts no earlier. |
| LongestValid.ExtendBest | longest_valid_parentheses/solution.py:14 | Taking the maximum with `idx - stack[-1]` keeps `longest` the length of a longest balanced window read so far. |
| LongestValid.BestIsLongest | longest_valid_parentheses/solution.py:6-15 | At the end, the recorded window is a balanced substring and none is longer. |
| LongestValid.ReadChar | longest_valid_parentheses/solution.py:7-14 | One iteration keeps the stack non-empty, strictly increasing, at least -1 and below the index. It keeps the stack's meaning for the prefix balances and the best-so-far window. `longest` never decreases. |
| LongestValid.LongestValidParentheses | longest_valid_parentheses/solution.py:1-15 | The result r satisfies 0 <= r <= \|s\|. Some substring of length r is balanced, and no balanced substring is longer, where the substrings are read with non-`(` as `)`. |
| LongestValid.ExampleShort | longest_valid_parentheses/main.py:26-30 | `""` gives 0 and `"()"` gives 2. |
| LongestValid.ExampleReversed | longest_valid_parentheses/main.py:27 | `")("` gives 0. |
| LongestValid.ExampleUnclosed | longest_valid_parentheses/main.py:28 | `"(()"` gives 2. |
| LongestValid.ExampleAlternating | longest_valid_parentheses/main.py:29 | `")()())"` gives 4. |
| LongestValid.ExampleNested | longest_valid_parentheses/main.py:31 | `"))((())"` gives 4. |
| LongestValid.ExampleTwoRuns | longest_valid_parentheses/main.py:32 | `")())()()"` gives 4. |
| GenerateParens.RowAt | leetcode/generate_parentheses/solution.py:8-9 | Entry k of a row is `"(" + left + ")" + rights[k]`, in the order of the right parts. |
| GenerateParens.AppendRow | leetcode/generate_parentheses/solution.py:8-9 | The innermost loop appends exactly the row for `left`, in order. |
| GenerateParens.AppendProducts | leetcode/generate_parentheses/solution.py:7-9 | The two inner loops append every left with every right, lefts outermost. |
| GenerateParens.FillLevel | leetcode/generate_parentheses/solution.py:6-9 | One level of the table: `dp[i]` becomes the strings with i pairs, with left sizes in ascending order. |
| GenerateParens.GenSound | leetcode/generate_parentheses/solution.py:9 | Every generated string for n pairs has length 2n, holds only brackets, and is balanced. |
| GenerateParens.GenComplete | leetcode/wildcard_matching/main.py:2 | Every balanced bracket string of length 2n is generated. |
| GenerateParens.WrapUnique | leetcode/generate_parentheses/solution.py:9 | `"(" + l + ")" + r` with l balanced determines l and r. |
| GenerateParens.GenDistinct | leetcode/wildcard_matching/main.py:2 | The generated strings are pairwise distinct. |
| GenerateParens.GenCount | leetcode/generate_parentheses/solution.py:5-9 | The count for n pairs is the n-th Catalan number, the sum over j < n of count(j) * count(n - 1 - j). |
| GenerateParens.GenCharacterized | leetcode/generate_parentheses/solution.py:1-11 | The strings for n pairs number Catalan(n), are distinct, and are exactly the balanced strings of length 2n. |
| GenerateParens.GenerateParenthesis | leetcode/generate_parentheses/solution.py:1-11 | The table fill returns those strings. For n = 0 it returns exactly `[""]`. |
| GenerateParens.GenExamples | leetcode/wildcard_matching/main.py:4-10 | n = 1 gives `["()"]`. n = 3 gives the five listed strings, as a set. |
| Wildcard.CellMatches | leetcode/wildcard_matching/solution.py:9-22 | For a text without `*`, every table cell agrees with the recursive wildcard semantics on the same prefixes (both directions). |
| Wildcard.IsWildcardMatching | leetcode/wildcard_matching/solution.py:1-24 | The filled table's last cell is the answer. For a text without `*` it is true exactly when the pattern matches the text. |
| Wildcard.EmptyTextMatchesStars | leetcode/wildcard_matching/solution.py:5-7 | The empty text matches exactly the patterns made only of `*`. |
| Wildcard.EmptyPatternMatchesEmpty | leetcode/wildcard_matching/solution.py:12-22 | The empty pattern matches only the empty text. |
| Wildcard.LoneStar | leetcode/wildcard_matching/solution.py:15-22 | The pattern `*` matches a text exactly when no `*` occurs after its first character. |
| Wildcard.StarFreeMatch | leetcode/wildcard_matching/solution.py:15-16 | A pattern without `*` matches exactly the texts of its length that agree with it wherever it is not `?`. |
| Wildcard.WildcardExamples | leetcode/wildcard_matching/main.py:16-19 | ("aa", "a") is false, ("aa", "*") is true, ("cb", "?a") is false, and ("adceb", "*a*b") is true. |
| Regex.PyIndex | leetcode/regex_matching/solution.py:27-30 | A non-negative index is kept. A negative one counts back from the end, so -1 reads the last element. |
| Regex.CellMatches | leetcode/regex_matching/solution.py:19-31 | For a text without `*` and a pattern not starting with `*`, every cell agrees with the recursive `c*` semantics on the same prefixes (both directions). |
| Regex.FillRow | leetcode/regex_matching/solution.py:20-31 | One row of the table is filled with the cells' values, leaving the other rows alone. That includes the wrapped read at j = 1. |
| Regex.IsRegexMatching | leetcode/regex_matching/solution.py:9-33 | The last cell is the answer. Under the same conditions it is true exactly when the pattern matches the text. |
| Regex.EmptyTextMatchesPairs | leetcode/regex_matching/solution.py:14-17 | The empty text matches exactly the even-length patterns with `*` at every odd position. |
| Regex.EmptyPatternMatchesEmpty | leetcode/regex_matching/solution.py:11-20 | The empty pattern matches only the empty text. |
| Regex.DotStarMatchesAll | leetcode/regex_matching/solution.py:25-31 | `.*` matches every text without `*`. |
| Regex.StarFreeMatch | leetcode/regex_matching/solution.py:21-23 | A pattern without `*` matches exactly the texts of its length that agree with it wherever it is not `.`. |
| Regex.LeadingStarColumn | leetcode/regex_matching/solution.py:27-31 | With a leading `*`, the column after it is false on every non-empty prefix of a text without `*`. |
| Regex.RegexExamples | leetcode/regex_matching/solution.py:1-5 | "a" does not match "aa". "a*" matches "" and "aa". ".*" matches "ab". "c*a*b" matches "aab". |
| Mountain.EndingAtSound | leetcode/longest_mountain/solution.py:21-22 | A positive length recorded for end position e is the length of an actual mountain ending at e. |
| Mountain.EndingAtOptimal | leetcode/longest_mountain/solution.py:9-24 | No mountain ending at a position is longer than the length recorded for it. |
| Mountain.BestUpTo | leetcode/longest_mountain/solution.py:14 | The best over end positions 0..e bounds each of them and is attained by one. |
| Mountain.LongestMountainIsLongest | leetcode/longest_mountain/solution.py:1-28 | The reference answer is 0 when no mountain exists. Otherwise it is the length of some mountain, and no mountain is longer. |
| Mountain.CountersBounds | leetcode/longest_mountain/solution.py:18 | `right_count > 0` implies `left_count > 0`, and `left_count + right_count` never exceeds the steps read. |
| Mountain.CountersCurrent | leetcode/longest_mountain/solution.py:26-27 | `left_count + right_count + 1`, when both counts are positive, is the longest mountain ending at the current element. |
| Mountain.RiseStep | leetcode/longest_mountain/solution.py:12-17 | A rising step restarts the rise after a descent or extends it, and no mountain ends there. |
| Mountain.FallStep | leetcode/longest_mountain/solution.py:18-19 | A falling step after a rise extends the descent. |
| Mountain.FlatStep | leetcode/longest_mountain/solution.py:20-24 | Any other step, including an equal pair, clears both counters. |
| Mountain.RiseState | leetcode/longest_mountain/solution.py:12-17 | The rising branch, with its recording of a finished mountain, keeps the loop invariant. |
| Mountain.FallState | leetcode/longest_mountain/solution.py:18-19 | The falling branch keeps the loop invariant. |
| Mountain.FlatState | leetcode/longest_mountain/solution.py:20-24 | The reset branch, with its recording of a finished mountain, keeps the loop invariant. |
| Mountain.Advance | leetcode/longest_mountain/solution.py:9-24 | One iteration keeps the invariant. An equal pair leaves both counts 0, a rise leaves `left_count > 0` and `right_count == 0`, and the maximum only changes to the finished mountain. |
| Mountain.LongestMountain | leetcode/longest_mountain/solution.py:1-28 | The result is 0 or between 3 and \|arr\|. When positive, a mountain of exactly that length exists, and no mountain is longer. |
| Mountain.MonotoneHasNoMountain | leetcode/longest_mountain/solution.py:12-19 | A strictly rising or strictly falling array gives 0. |
| Mountain.MountainExample | leetcode/longest_mountain/solution.py:9-28 | [2, 1, 4, 7, 3, 2, 5] gives 5 and [2, 2, 2] gives 0. |
| ThreeSum.InsertSorted | leetcode/three_sum_closest/solution.py:3 | Inserting into a sorted sequence keeps it sorted. |
| ThreeSum.Sort | leetcode/three_sum_closest/solution.py:3 | The sort yields an ascending permutation of the list. |
| ThreeSum.PermutationKeepsTriples | leetcode/three_sum_closest/solution.py:3-11 | Sums of three entries at distinct positions depend only on the multiset of entries, so sorting keeps them. |
| ThreeSum.AdvanceLow | leetcode/three_sum_closest/solution.py:12-16 | Moving the lower pointer past a sum below the target skips only pairs that lie farther from it. |
| ThreeSum.AdvanceHigh | leetcode/three_sum_closest/solution.py:17-21 | Moving the upper pointer past a sum above the target skips only pairs that lie farther from it. |
| ThreeSum.Improve | leetcode/three_sum_closest/solution.py:14-15 | Replacing the closest sum by a sum that is no farther keeps every bound already established. |
| ThreeSum.FirstSum | leetcode/three_sum_closest/solution.py:14 | The first sum met, taken while nothing is recorded, bounds every pair passed so far. |
| ThreeSum.PointersMet | leetcode/three_sum_closest/solution.py:8 | When the pointers meet, every pair for the current first index has been weighed. |
| ThreeSum.ScanPairs | leetcode/three_sum_closest/solution.py:6-23 | The pointer walk for one first index ends either on a sum equal to the target or with every pair for that index weighed. The recorded sum is always a sum of three entries. |
| ThreeSum.SearchSorted | leetcode/three_sum_closest/solution.py:4-24 | On a sorted list: no answer exactly when there are fewer than three entries. Otherwise the answer is a sum of three entries, none is nearer the target, and it equals the target exactly when some sum does. |
| ThreeSum.ThreeSumClosest | leetcode/three_sum_closest/solution.py:1-24 | The same promises, stated about the unsorted input, together with the sorted permutation that replaces the list. |
| ThreeSum.ExampleNearest | leetcode/three_sum_closest/solution.py:8-23 | In [-1, 2, 1, -4] the sum nearest 1 is 2. |
| ThreeSum.ExampleZeros | leetcode/three_sum_closest/solution.py:22-23 | [0, 0, 0] against target 1 gives 0. |
| ThreeSum.ExampleTooShort | leetcode/three_sum_closest/solution.py:4-24 | [5, 7] gives no answer. |

## Left out

- The Flask counter service (`api_wrapper/flask/solution.py`) is left out: it is HTTP and JSON plumbing around a global counter.
- The calculator wrapper (`third_party_library/`) is left out: it is a foreign call whose body is empty, plus floating point and exceptions.
- The placeholder functions in `minswaps/main.py`, `longest_valid_parentheses/main.py` and `leetcode/wildcard_matching/main.py` are not modelled: they return constants. Their docstrings and asserts serve only as example tables.
- The test module's import and runner are left out; only its expected values are used.
- MinSwaps.MinSwaps: the closed form is not proved to be the least number of swaps of any kind. The problem text says "adjacent swaps", but its own example swaps positions 0 and 3, and every expected value in the test table agrees with the closed form. The model states the closed form's meaning in terms of prefix balances.
- MinSwaps.MinSwaps: `math.ceil` over a float is modelled as the integer `(k + 1) / 2` with k >= 0. The two agree for every k up to 2^53. Above that, the float division `k / 2` rounds, and the source can return one less than the model; for k = 2^53 + 1 it gives 2^52 where the model gives 2^52 + 1.
- GenerateParens.GenerateParenthesis: n is a natural number. For a negative n the Python code raises an index error, and that path is not modelled.
- ThreeSum.ThreeSumClosest: the contract does not say which of two equally near sums is returned. The code keeps the first one found because it replaces only on a strictly smaller distance, and the model follows that branch but does not state it.
- ThreeSum.ThreeSumClosest: the in-place sort is a returned sorted copy. Python's sort algorithm is replaced by insertion sort, and only its result, a sorted permutation, matters.
- Wildcard.IsWildcardMatching: equivalence with the recursive semantics is proved only for texts without `*`. A `*` in the text is compared literally before the star branch, so the pattern `*` does not match, for example, `a*`. `Wildcard.LoneStar` states that behaviour exactly.
- Regex.IsRegexMatching: equivalence with the recursive semantics is proved only for texts without `*` and for patterns not starting with `*`. With a leading `*`, the Python code wraps to the last pattern character and the last, still unwritten, column. The table models that wrap exactly, but it has no reference meaning.
- Performance and complexity claims are not modelled.
