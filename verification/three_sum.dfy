/** Three-sum closest: the sum of three entries at distinct positions that is
    nearest to a target. The source sorts the list in place and, for each
    first index, walks a pair of indices inward from both ends. */
module ThreeSum {

  datatype Option<T> = None | Some(value: T)

  function Abs(x: int): nat
  {
    if x < 0 then -x else x
  }

  /** How far a sum lies from the target. */
  function Dist(target: int, v: int): nat
  {
    Abs(target - v)
  }

  predicate SortedSeq(s: seq<int>)
  {
    forall a, b :: 0 <= a < b < |s| ==> s[a] <= s[b]
  }

  // ----- sorting: the list's in-place sort, as a function -----

  /** `x` inserted before the first entry it does not exceed. */
  function Insert(x: int, s: seq<int>): (r: seq<int>)
    ensures |r| == |s| + 1
    ensures multiset(r) == multiset(s) + multiset{x}
  {
    if |s| == 0 then [x]
    else if x <= s[0] then [x] + s
    else
      assert s == [s[0]] + s[1..];
      [s[0]] + Insert(x, s[1..])
  }

  /** Inserting into a sorted sequence keeps it sorted, and every entry of
      the result is at least `x` or at least the old first entry. */
  lemma {:induction false} InsertSorted(x: int, s: seq<int>)
    requires SortedSeq(s)
    ensures SortedSeq(Insert(x, s))
    ensures forall k :: 0 <= k < |Insert(x, s)| ==> x <= Insert(x, s)[k] || (0 < |s| && s[0] <= Insert(x, s)[k])
  {
    if |s| > 0 && s[0] < x {
      InsertSorted(x, s[1..]);
      var rest := Insert(x, s[1..]);
      assert Insert(x, s) == [s[0]] + rest;
      forall k | 0 <= k < |rest|
        ensures s[0] <= rest[k]
      {
        if 1 < |s| {
          assert s[0] <= s[1..][0];
        }
      }
    }
  }

  /** Insertion sort: an ascending permutation of the input. */
  function Sort(s: seq<int>): (r: seq<int>)
    ensures SortedSeq(r)
    ensures multiset(r) == multiset(s)
  {
    if |s| == 0 then []
    else
      assert s == s[..|s| - 1] + [s[|s| - 1]];
      var prefix := Sort(s[..|s| - 1]);
      InsertSorted(s[|s| - 1], prefix);
      Insert(s[|s| - 1], prefix)
  }

  // ----- sums of three entries -----

  function TripleSum(s: seq<int>, a: int, b: int, c: int): int
    requires 0 <= a < |s| && 0 <= b < |s| && 0 <= c < |s|
  {
    s[a] + s[b] + s[c]
  }

  /** `v` is the sum of the entries at three distinct positions of `s`. */
  ghost predicate IsTripleSum(s: seq<int>, v: int)
  {
    exists a, b, c :: 0 <= a < b < c < |s| && TripleSum(s, a, b, c) == v
  }

  /** Three distinct positions, in any order, give a triple sum. */
  lemma OrderTriple(s: seq<int>, a: nat, b: nat, c: nat)
    requires a < |s| && b < |s| && c < |s| && a != b && b != c && a != c
    ensures IsTripleSum(s, TripleSum(s, a, b, c))
  {
    var v := TripleSum(s, a, b, c);
    if a < b < c { assert TripleSum(s, a, b, c) == v; }
    else if a < c < b { assert TripleSum(s, a, c, b) == v; }
    else if b < a < c { assert TripleSum(s, b, a, c) == v; }
    else if b < c < a { assert TripleSum(s, b, c, a) == v; }
    else if c < a < b { assert TripleSum(s, c, a, b) == v; }
    else { assert TripleSum(s, c, b, a) == v; }
  }

  /** A value that occurs in a sequence occurs at some position. */
  lemma IndexOf(t: seq<int>, x: int) returns (a: nat)
    requires x in multiset(t)
    ensures a < |t| && t[a] == x
  {
    assert x in t;
    a :| 0 <= a < |t| && t[a] == x;
  }

  /** The sequence without position a. */
  function Without(t: seq<int>, a: nat): (r: seq<int>)
    requires a < |t|
    ensures |r| == |t| - 1
    ensures multiset(r) == multiset(t) - multiset{t[a]}
  {
    assert t == t[..a] + [t[a]] + t[a + 1..];
    t[..a] + t[a + 1..]
  }

  /** Positions of `Without(t, a)` map back to the positions of `t` other than a. */
  lemma WithoutAt(t: seq<int>, a: nat, m: nat)
    requires a < |t| && m < |t| - 1
    ensures Without(t, a)[m] == t[if m < a then m else m + 1]
  {
  }

  /** Takes one value `x` out of a sequence whose multiset holds `x` plus `rest`. */
  lemma Pick(t: seq<int>, rest: multiset<int>, x: int) returns (a: nat)
    requires x in multiset(t) && rest <= multiset(t) - multiset{x}
    ensures a < |t| && t[a] == x
    ensures rest <= multiset(Without(t, a))
  {
    a := IndexOf(t, x);
  }

  /** Taking x out of a multiset that holds {x, y, z} leaves {y, z}. */
  lemma Split3(m: multiset<int>, x: int, y: int, z: int)
    requires multiset{x, y, z} <= m
    ensures x in m && multiset{y, z} <= m - multiset{x}
  {
    assert x in multiset{x, y, z};
    forall v ensures multiset{y, z}[v] <= (m - multiset{x})[v] {
      assert multiset{x, y, z}[v] == multiset{y, z}[v] + multiset{x}[v];
    }
  }

  /** Taking y out of a multiset that holds {y, z} leaves {z}. */
  lemma Split2(m: multiset<int>, y: int, z: int)
    requires multiset{y, z} <= m
    ensures y in m && multiset{z} <= m - multiset{y}
  {
    assert y in multiset{y, z};
    forall v ensures multiset{z}[v] <= (m - multiset{y})[v] {
      assert multiset{y, z}[v] == multiset{z}[v] + multiset{y}[v];
    }
  }

  lemma DistinctIndices(t: seq<int>, x: int, y: int, z: int) returns (a: nat, b: nat, c: nat)
    requires multiset{x, y, z} <= multiset(t)
    ensures a < |t| && b < |t| && c < |t| && a != b && b != c && a != c
    ensures t[a] == x && t[b] == y && t[c] == z
  {
    Split3(multiset(t), x, y, z);
    a := Pick(t, multiset{y, z}, x);
    var t1 := Without(t, a);
    Split2(multiset(t1), y, z);
    var b1 := Pick(t1, multiset{z}, y);
    var t2 := Without(t1, b1);
    assert z in multiset{z};
    var c2 := IndexOf(t2, z);
    var c1: nat := if c2 < b1 then c2 else c2 + 1;
    WithoutAt(t1, b1, c2);
    b := if b1 < a then b1 else b1 + 1;
    WithoutAt(t, a, b1);
    c := if c1 < a then c1 else c1 + 1;
    WithoutAt(t, a, c1);
  }

  /** The entries at three distinct positions form a sub-multiset. */
  lemma TripleInMultiset(s: seq<int>, i: nat, j: nat, k: nat)
    requires i < j < k < |s|
    ensures multiset{s[i], s[j], s[k]} <= multiset(s)
  {
    assert s == s[..i] + [s[i]] + s[i + 1..j] + [s[j]] + s[j + 1..k] + [s[k]] + s[k + 1..];
    var rest := multiset(s[..i]) + multiset(s[i + 1..j]) + multiset(s[j + 1..k]) + multiset(s[k + 1..]);
    assert multiset(s) == multiset{s[i], s[j], s[k]} + rest;
  }

  /** Triple sums depend only on the multiset of entries, so sorting keeps them. */
  lemma PermutationKeepsTriples(s: seq<int>, t: seq<int>, v: int)
    requires multiset(s) == multiset(t) && IsTripleSum(s, v)
    ensures IsTripleSum(t, v)
  {
    var i, j, k :| 0 <= i < j < k < |s| && TripleSum(s, i, j, k) == v;
    TripleInMultiset(s, i, j, k);
    var a, b, c := DistinctIndices(t, s[i], s[j], s[k]);
    OrderTriple(t, a, b, c);
  }

  // ----- the two-pointer search -----

  /** The pair (b, c) after a fixed first index has been passed over: b lies
      left of the lower pointer or c right of the upper one. */
  predicate Passed(b: int, c: int, j: int, k: int)
  {
    b < j || c > k
  }

  /** The loop's promise about `closest` after every first index below `i`
      and every passed pair for the first index `i`. */
  ghost predicate Closest(s: seq<int>, target: int, closest: int, i: int, j: int, k: int)
    requires 0 <= i < |s|
  {
    closest != target &&
    (forall a, b, c :: 0 <= a < i && a < b < c < |s| ==> Dist(target, closest) <= Dist(target, TripleSum(s, a, b, c))) &&
    (forall b, c :: i < b < c < |s| && Passed(b, c, j, k) ==> Dist(target, closest) <= Dist(target, TripleSum(s, i, b, c)))
  }

  /** Moving the lower pointer right past a sum below the target: every pair
      it passes sums lower still, so lies farther from the target. */
  lemma AdvanceLow(s: seq<int>, target: int, closest: int, i: nat, j: nat, k: nat)
    requires SortedSeq(s) && i < j < k < |s|
    requires TripleSum(s, i, j, k) < target
    requires Dist(target, closest) <= Dist(target, TripleSum(s, i, j, k))
    requires Closest(s, target, closest, i, j, k)
    ensures Closest(s, target, closest, i, j + 1, k)
  {
    forall b, c | i < b < c < |s| && Passed(b, c, j + 1, k)
      ensures Dist(target, closest) <= Dist(target, TripleSum(s, i, b, c))
    {
      if b == j && c <= k {
        assert s[c] <= s[k];
      }
    }
  }

  /** Moving the upper pointer left past a sum above the target. */
  lemma AdvanceHigh(s: seq<int>, target: int, closest: int, i: nat, j: nat, k: nat)
    requires SortedSeq(s) && i < j < k < |s|
    requires TripleSum(s, i, j, k) > target
    requires Dist(target, closest) <= Dist(target, TripleSum(s, i, j, k))
    requires Closest(s, target, closest, i, j, k)
    ensures Closest(s, target, closest, i, j, k - 1)
  {
    forall b, c | i < b < c < |s| && Passed(b, c, j, k - 1)
      ensures Dist(target, closest) <= Dist(target, TripleSum(s, i, b, c))
    {
      if c == k && b >= j {
        assert s[j] <= s[b];
      }
    }
  }

  /** Taking a closer sum keeps every bound already established. */
  lemma Improve(s: seq<int>, target: int, prior: int, closest: int, i: nat, j: nat, k: nat)
    requires i < |s| && closest != target
    requires Closest(s, target, prior, i, j, k) && Dist(target, closest) <= Dist(target, prior)
    ensures Closest(s, target, closest, i, j, k)
  {
  }

  /** When the pointers meet, every pair after `i` has been passed over. */
  lemma PointersMet(s: seq<int>, target: int, closest: int, i: nat, j: nat)
    requires i + 1 < |s| && Closest(s, target, closest, i, j, j)
    ensures Closest(s, target, closest, i + 1, i + 2, |s| - 1)
  {
    forall a, b, c | 0 <= a < i + 1 && a < b < c < |s|
      ensures Dist(target, closest) <= Dist(target, TripleSum(s, a, b, c))
    {
      if a == i {
        assert Passed(b, c, j, j);
      }
    }
  }

  /** The first sum the search meets, before any bound exists. */
  lemma FirstSum(s: seq<int>, target: int, i: nat, j: nat, k: nat)
    requires i == 0 && j == 1 && k == |s| - 1 && 2 < |s|
    requires TripleSum(s, i, j, k) != target
    ensures Closest(s, target, TripleSum(s, i, j, k), i, j, k)
  {
  }

  /** One pass of the pointer pair for the first index `i`. It ends either
      with a sum equal to the target, or with the pointers met and every pair
      for `i` weighed against `closest'`. */
  method ScanPairs(s: seq<int>, target: int, i: nat, closest: Option<int>, ghost w: (int, int, int))
    returns (closest': Option<int>, hit: bool, ghost w': (int, int, int))
    requires SortedSeq(s) && i + 2 < |s|
    requires closest.None? <==> i == 0
    requires closest.Some? ==> Closest(s, target, closest.value, i, i + 1, |s| - 1)
    requires closest.Some? ==> 0 <= w.0 < w.1 < w.2 < |s| && TripleSum(s, w.0, w.1, w.2) == closest.value
    ensures closest'.Some?
    ensures 0 <= w'.0 < w'.1 < w'.2 < |s| && TripleSum(s, w'.0, w'.1, w'.2) == closest'.value
    ensures hit ==> closest'.value == target
    ensures !hit ==> Closest(s, target, closest'.value, i + 1, i + 2, |s| - 1)
  {
    closest', w' := closest, w;
    var numI := s[i];
    var j := i + 1;
    var k := |s| - 1;
    while j < k
      invariant i + 1 <= j <= k < |s|
      invariant closest'.None? ==> i == 0 && j == 1 && k == |s| - 1
      invariant closest'.Some? ==> Closest(s, target, closest'.value, i, j, k)
      invariant closest'.Some? ==> 0 <= w'.0 < w'.1 < w'.2 < |s| && TripleSum(s, w'.0, w'.1, w'.2) == closest'.value
    {
      var numJ := s[j];
      var numK := s[k];
      var total := numI + numJ + numK;
      assert total == TripleSum(s, i, j, k);
      if total < target {
        if closest'.None? || Abs(target - total) < Abs(target - closest'.value) {
          if closest'.None? {
            FirstSum(s, target, i, j, k);
          } else {
            Improve(s, target, closest'.value, total, i, j, k);
          }
          closest', w' := Some(total), (i, j, k);
        }
        AdvanceLow(s, target, closest'.value, i, j, k);
        j := j + 1;
      } else if total > target {
        if closest'.None? || Abs(target - total) < Abs(target - closest'.value) {
          if closest'.None? {
            FirstSum(s, target, i, j, k);
          } else {
            Improve(s, target, closest'.value, total, i, j, k);
          }
          closest', w' := Some(total), (i, j, k);
        }
        AdvanceHigh(s, target, closest'.value, i, j, k);
        k := k - 1;
      } else {
        return Some(target), true, (i, j, k);
      }
    }
    PointersMet(s, target, closest'.value, i, j);
    hit := false;
  }

  /** The source's search on the sorted copy of `nums`. The answer is absent
      exactly when there are fewer than three entries; otherwise it is a sum
      of three entries at distinct positions, no such sum is nearer the
      target, and it equals the target exactly when some sum does. */
  method ThreeSumClosest(nums: seq<int>, target: int) returns (r: Option<int>, sorted: seq<int>)
    ensures SortedSeq(sorted) && multiset(sorted) == multiset(nums)
    ensures r.None? <==> |nums| < 3
    ensures r.Some? ==> IsTripleSum(nums, r.value)
    ensures r.Some? ==> forall a, b, c :: 0 <= a < b < c < |nums| ==>
      Dist(target, r.value) <= Dist(target, TripleSum(nums, a, b, c))
    ensures r == Some(target) <==> IsTripleSum(nums, target)
  {
    sorted := Sort(nums);
    assert |sorted| == |multiset(sorted)| == |multiset(nums)| == |nums|;
    var found;
    found := SearchSorted(sorted, target);
    r := found;
    if r.Some? {
      PermutationKeepsTriples(sorted, nums, r.value);
      forall a, b, c | 0 <= a < b < c < |nums|
        ensures Dist(target, r.value) <= Dist(target, TripleSum(nums, a, b, c))
      {
        var v := TripleSum(nums, a, b, c);
        PermutationKeepsTriples(nums, sorted, v);
        var x, y, z :| 0 <= x < y < z < |sorted| && TripleSum(sorted, x, y, z) == v;
      }
    }
    if IsTripleSum(nums, target) {
      PermutationKeepsTriples(nums, sorted, target);
    }
  }

  /** The loop over the first index, on a sorted sequence. */
  method SearchSorted(s: seq<int>, target: int) returns (r: Option<int>)
    requires SortedSeq(s)
    ensures r.None? <==> |s| < 3
    ensures r.Some? ==> IsTripleSum(s, r.value)
    ensures r.Some? ==> forall a, b, c :: 0 <= a < b < c < |s| ==>
      Dist(target, r.value) <= Dist(target, TripleSum(s, a, b, c))
    ensures r == Some(target) <==> IsTripleSum(s, target)
  {
    var closest: Option<int> := None;
    ghost var w: (int, int, int) := (0, 0, 0);
    var i := 0;
    while i < |s| - 2
      invariant 0 <= i && (|s| >= 2 ==> i <= |s| - 2)
      invariant closest.None? <==> i == 0
      invariant closest.Some? ==> i < |s| && Closest(s, target, closest.value, i, i + 1, |s| - 1)
      invariant closest.Some? ==> 0 <= w.0 < w.1 < w.2 < |s| && TripleSum(s, w.0, w.1, w.2) == closest.value
    {
      var hit;
      closest, hit, w := ScanPairs(s, target, i, closest, w);
      if hit {
        assert TripleSum(s, w.0, w.1, w.2) == target;
        return closest;
      }
      i := i + 1;
    }
    r := closest;
    if r.Some? {
      assert TripleSum(s, w.0, w.1, w.2) == r.value;
      forall a, b, c | 0 <= a < b < c < |s|
        ensures Dist(target, r.value) <= Dist(target, TripleSum(s, a, b, c))
      {
      }
    }
  }

  /** The sums of three entries of a four-entry sequence are the four
      sums that leave one entry out. */
  lemma FourTriples(s: seq<int>, v: int)
    requires |s| == 4 && IsTripleSum(s, v)
    ensures v == s[0] + s[1] + s[2] || v == s[0] + s[1] + s[3] || v == s[0] + s[2] + s[3] || v == s[1] + s[2] + s[3]
  {
    var a, b, c :| 0 <= a < b < c < |s| && TripleSum(s, a, b, c) == v;
  }

  /** A standard example: in [-1, 2, 1, -4] the sum nearest 1
      is 2 = -1 + 2 + 1. */
  method ExampleNearest() returns (r: Option<int>)
    ensures r == Some(2)
  {
    var nums := [-1, 2, 1, -4];
    var sorted;
    r, sorted := ThreeSumClosest(nums, 1);
    assert Dist(1, r.value) <= Dist(1, TripleSum(nums, 0, 1, 2)) == 1;
    FourTriples(nums, r.value);
  }

  /** Three zeros against the target 1 give 0. */
  method ExampleZeros() returns (r: Option<int>)
    ensures r == Some(0)
  {
    var zeros := [0, 0, 0];
    var sorted;
    r, sorted := ThreeSumClosest(zeros, 1);
    ghost var a, b, c :| 0 <= a < b < c < |zeros| && TripleSum(zeros, a, b, c) == r.value;
  }

  /** Fewer than three entries give no answer. */
  method ExampleTooShort() returns (r: Option<int>)
    ensures r == None
  {
    var sorted;
    r, sorted := ThreeSumClosest([5, 7], 3);
  }
}
