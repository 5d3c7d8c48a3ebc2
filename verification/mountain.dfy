/** Longest mountain: the longest contiguous run that strictly rises to a
    peak and then strictly falls, with at least one step on each side. The
    source keeps two counters, the rising and the falling steps of the run
    in progress, and records a run's length when its descent ends. */
module Mountain {

  function Max(a: int, b: int): int
  {
    if a >= b then a else b
  }

  /** The step from arr[k] to arr[k + 1] goes strictly up. */
  predicate Rises(arr: seq<int>, k: int)
    requires 0 <= k < |arr| - 1
  {
    arr[k] < arr[k + 1]
  }

  /** The step from arr[k] to arr[k + 1] goes strictly down. */
  predicate Falls(arr: seq<int>, k: int)
    requires 0 <= k < |arr| - 1
  {
    arr[k] > arr[k + 1]
  }

  /** A mountain arr[a..b] with its peak at pk: strictly rising on [a, pk],
      strictly falling on [pk, b - 1], and at least one step each way. */
  predicate IsMountain(arr: seq<int>, a: int, pk: int, b: int)
  {
    0 <= a < pk && pk + 1 < b <= |arr| &&
    (forall k :: a <= k < pk ==> Rises(arr, k)) &&
    (forall k :: pk <= k < b - 1 ==> Falls(arr, k))
  }

  /** Number of strictly rising steps in the longest rising run ending at e. */
  function Up(arr: seq<int>, e: nat): (n: nat)
    requires e < |arr|
    ensures n <= e
    ensures forall k :: e - n <= k < e ==> Rises(arr, k)
    ensures n < e ==> !Rises(arr, e - n - 1)
  {
    if e == 0 then 0 else if arr[e - 1] < arr[e] then Up(arr, e - 1) + 1 else 0
  }

  /** Number of strictly falling steps in the longest falling run ending at e. */
  function Down(arr: seq<int>, e: nat): (n: nat)
    requires e < |arr|
    ensures n <= e
    ensures forall k :: e - n <= k < e ==> Falls(arr, k)
    ensures n < e ==> !Falls(arr, e - n - 1)
  {
    if e == 0 then 0 else if arr[e - 1] > arr[e] then Down(arr, e - 1) + 1 else 0
  }

  /** Length of the longest mountain whose last element is arr[e], or 0 when
      none ends there: the falling run into e, topped by the rising run into
      its start. */
  function EndingAt(arr: seq<int>, e: nat): (len: nat)
    requires e < |arr|
    ensures len == 0 || 3 <= len <= e + 1
  {
    var d := Down(arr, e);
    var u := Up(arr, e - d);
    if d > 0 && u > 0 then u + d + 1 else 0
  }

  /** A positive `EndingAt` is the length of an actual mountain ending at e. */
  lemma EndingAtSound(arr: seq<int>, e: nat)
    requires e < |arr| && EndingAt(arr, e) > 0
    ensures var pk := e - Down(arr, e);
      IsMountain(arr, pk - Up(arr, pk), pk, e + 1) && EndingAt(arr, e) == e + 1 - (pk - Up(arr, pk))
  {
  }

  /** A rising run [a, pk] makes the rising run into pk at least that long. */
  lemma {:induction false} UpAtLeast(arr: seq<int>, a: nat, pk: nat)
    requires a <= pk < |arr|
    requires forall k :: a <= k < pk ==> Rises(arr, k)
    ensures Up(arr, pk) >= pk - a
  {
    if a < pk {
      UpAtLeast(arr, a, pk - 1);
    }
  }

  /** A falling run [pk, e] entered by a rising step is exactly the falling
      run into e. */
  lemma {:induction false} DownExact(arr: seq<int>, pk: nat, e: nat)
    requires 0 < pk <= e < |arr| && Rises(arr, pk - 1)
    requires forall k :: pk <= k < e ==> Falls(arr, k)
    ensures Down(arr, e) == e - pk
  {
    if pk < e {
      DownExact(arr, pk, e - 1);
    }
  }

  /** No mountain ending at b - 1 is longer than `EndingAt(b - 1)`. */
  lemma EndingAtOptimal(arr: seq<int>, a: nat, pk: nat, b: nat)
    requires IsMountain(arr, a, pk, b)
    ensures b - a <= EndingAt(arr, b - 1)
  {
    DownExact(arr, pk, b - 1);
    UpAtLeast(arr, a, pk);
  }

  /** The best `EndingAt` over the end positions 0..e. */
  function BestUpTo(arr: seq<int>, e: nat): (best: nat)
    requires e < |arr|
    ensures forall f :: 0 <= f <= e ==> EndingAt(arr, f) <= best
    ensures exists f :: 0 <= f <= e && EndingAt(arr, f) == best
  {
    if e == 0 then EndingAt(arr, 0) else Max(BestUpTo(arr, e - 1), EndingAt(arr, e))
  }

  /** The answer the source computes, as a function. */
  function LongestMountainOf(arr: seq<int>): nat
  {
    if |arr| == 0 then 0 else BestUpTo(arr, |arr| - 1)
  }

  /** `LongestMountainOf` is the length of a longest mountain, or 0 when the
      array holds none. */
  lemma LongestMountainIsLongest(arr: seq<int>)
    ensures var r := LongestMountainOf(arr);
      (r == 0 || exists a, pk, b :: IsMountain(arr, a, pk, b) && b - a == r) &&
      (forall a, pk, b :: IsMountain(arr, a, pk, b) ==> b - a <= r)
  {
    var r := LongestMountainOf(arr);
    if r > 0 {
      var f :| 0 <= f <= |arr| - 1 && EndingAt(arr, f) == r;
      EndingAtSound(arr, f);
    }
    forall a, pk, b | IsMountain(arr, a, pk, b)
      ensures b - a <= r
    {
      EndingAtOptimal(arr, a, pk, b);
    }
  }

  /** What the two counters hold after reading arr[..e + 1]: inside a
      descent that follows a rise, the rise and the descent; otherwise no
      descent and the rising run into e. */
  ghost predicate Counters(arr: seq<int>, e: nat, left: nat, right: nat)
    requires e < |arr|
  {
    var d := Down(arr, e);
    if d > 0 && Up(arr, e - d) > 0 then right == d && left == Up(arr, e - d)
    else right == 0 && left == Up(arr, e)
  }

  /** The length the counters describe, 0 when no mountain is in progress. */
  function Current(left: nat, right: nat): nat
  {
    if left > 0 && right > 0 then left + right + 1 else 0
  }

  /** The counters never claim a descent without a rise, and together they
      count at most the e steps read so far. */
  lemma CountersBounds(arr: seq<int>, e: nat, left: nat, right: nat)
    requires e < |arr| && Counters(arr, e, left, right)
    ensures right > 0 ==> left > 0
    ensures left + right <= e
  {
  }

  /** The counters describe the longest mountain ending at e. */
  lemma CountersCurrent(arr: seq<int>, e: nat, left: nat, right: nat)
    requires e < |arr| && Counters(arr, e, left, right)
    ensures Current(left, right) == EndingAt(arr, e)
  {
  }

  /** A rising step ends any descent in progress and extends the rise. */
  lemma RiseStep(arr: seq<int>, i: nat, left: nat, right: nat)
    requires 1 <= i < |arr| && Counters(arr, i - 1, left, right) && arr[i] > arr[i - 1]
    ensures right > 0 ==> Counters(arr, i, 1, 0)
    ensures right == 0 ==> Counters(arr, i, left + 1, 0)
    ensures EndingAt(arr, i) == 0
  {
    assert Rises(arr, i - 1);
  }

  /** A falling step after a rise extends the descent. */
  lemma FallStep(arr: seq<int>, i: nat, left: nat, right: nat)
    requires 1 <= i < |arr| && Counters(arr, i - 1, left, right) && arr[i] < arr[i - 1] && left > 0
    ensures Counters(arr, i, left, right + 1)
  {
    assert Falls(arr, i - 1);
    if right == 0 {
      assert Up(arr, i - 1) > 0;
      assert Rises(arr, i - 2);
    }
  }

  /** A level step, or a falling step with no rise before it, leaves no
      mountain in progress. */
  lemma FlatStep(arr: seq<int>, i: nat, left: nat, right: nat)
    requires 1 <= i < |arr| && Counters(arr, i - 1, left, right)
    requires !(arr[i] > arr[i - 1]) && !(arr[i] < arr[i - 1] && left > 0)
    ensures Counters(arr, i, 0, 0)
  {
    if arr[i] < arr[i - 1] {
      assert Falls(arr, i - 1);
    } else {
      assert !Falls(arr, i - 1) && !Rises(arr, i - 1);
    }
  }

  /** The source's loop invariant after reading arr[..e + 1]: the counters
      are right, and the recorded best together with the mountain in
      progress is the best over all end positions so far. */
  ghost predicate ScanState(arr: seq<int>, e: nat, left: nat, right: nat, best: nat)
    requires e < |arr|
  {
    Counters(arr, e, left, right) && best <= BestUpTo(arr, e) &&
    Max(best, Current(left, right)) == BestUpTo(arr, e)
  }

  /** The best-so-far bookkeeping across one step: if `best` and the
      mountain in progress account for every end position before i, and the
      new pair loses nothing, they account for every end position up to i. */
  lemma BestCarried(arr: seq<int>, i: nat, best: nat, cur: nat, best': nat, cur': nat)
    requires 1 <= i < |arr|
    requires best <= BestUpTo(arr, i - 1) && Max(best, cur) == BestUpTo(arr, i - 1)
    requires cur' == EndingAt(arr, i)
    requires best' <= Max(best, cur) && Max(best', cur') == Max(Max(best, cur), cur')
    ensures best' <= BestUpTo(arr, i) && Max(best', cur') == BestUpTo(arr, i)
  {
  }

  /** A rising step keeps the scan state: a finished mountain is recorded
      and a new rise starts, or the rise in progress grows. */
  lemma RiseState(arr: seq<int>, i: nat, left: nat, right: nat, best: nat)
    requires 1 <= i < |arr| && ScanState(arr, i - 1, left, right, best) && arr[i] > arr[i - 1]
    ensures right > 0 ==> ScanState(arr, i, 1, 0, Max(best, left + right + 1))
    ensures right == 0 ==> ScanState(arr, i, left + 1, 0, best)
  {
    RiseStep(arr, i, left, right);
    if right > 0 {
      CountersCurrent(arr, i, 1, 0);
      BestCarried(arr, i, best, Current(left, right), Max(best, left + right + 1), 0);
    } else {
      CountersCurrent(arr, i, left + 1, 0);
      BestCarried(arr, i, best, Current(left, right), best, 0);
    }
  }

  /** A falling step after a rise keeps the scan state with one more
      falling step. */
  lemma FallState(arr: seq<int>, i: nat, left: nat, right: nat, best: nat)
    requires 1 <= i < |arr| && ScanState(arr, i - 1, left, right, best)
    requires arr[i] < arr[i - 1] && left > 0
    ensures ScanState(arr, i, left, right + 1, best)
  {
    FallStep(arr, i, left, right);
    CountersCurrent(arr, i, left, right + 1);
    BestCarried(arr, i, best, Current(left, right), best, Current(left, right + 1));
  }

  /** Any other step records the mountain in progress, if any, and clears
      both counters. */
  lemma FlatState(arr: seq<int>, i: nat, left: nat, right: nat, best: nat)
    requires 1 <= i < |arr| && ScanState(arr, i - 1, left, right, best)
    requires !(arr[i] > arr[i - 1]) && !(arr[i] < arr[i - 1] && left > 0)
    ensures ScanState(arr, i, 0, 0, if left > 0 && right > 0 then Max(best, left + right + 1) else best)
  {
    FlatStep(arr, i, left, right);
    CountersCurrent(arr, i, 0, 0);
    var best' := if left > 0 && right > 0 then Max(best, left + right + 1) else best;
    BestCarried(arr, i, best, Current(left, right), best', 0);
  }

  /** One iteration of the source's loop: the step from arr[i - 1] to arr[i]. */
  method Advance(arr: seq<int>, i: nat, left: nat, right: nat, best: nat)
    returns (left': nat, right': nat, best': nat)
    requires 1 <= i < |arr| && ScanState(arr, i - 1, left, right, best)
    ensures ScanState(arr, i, left', right', best')
    ensures arr[i] == arr[i - 1] ==> left' == 0 && right' == 0
    ensures arr[i] > arr[i - 1] ==> left' > 0 && right' == 0
    ensures best' == best || best' == Current(left, right)
  {
    left', right', best' := left, right, best;
    var prev := arr[i - 1];
    var curr := arr[i];
    if curr > prev {
      RiseState(arr, i, left, right, best);
      if right' > 0 {
        best' := Max(best', left' + right' + 1);
        right' := 0;
        left' := 0;
      }
      left' := left' + 1;
    } else if curr < prev && left' > 0 {
      FallState(arr, i, left, right, best);
      right' := right' + 1;
    } else {
      FlatState(arr, i, left, right, best);
      if left' > 0 && right' > 0 {
        best' := Max(best', left' + right' + 1);
      }
      left' := 0;
      right' := 0;
    }
  }

  /** The source's single pass. The result is the length of a longest
      mountain, 0 when there is none, and never between 1 and 2. */
  method LongestMountain(arr: seq<int>) returns (maxMountain: nat)
    ensures maxMountain == LongestMountainOf(arr)
    ensures maxMountain == 0 || 3 <= maxMountain <= |arr|
    ensures maxMountain == 0 || exists a, pk, b :: IsMountain(arr, a, pk, b) && b - a == maxMountain
    ensures forall a, pk, b :: IsMountain(arr, a, pk, b) ==> b - a <= maxMountain
  {
    LongestMountainIsLongest(arr);
    if |arr| < 3 {
      if |arr| > 0 {
        ghost var f :| 0 <= f <= |arr| - 1 && EndingAt(arr, f) == LongestMountainOf(arr);
      }
      return 0;
    }
    maxMountain := 0;
    var leftCount: nat := 0;
    var rightCount: nat := 0;
    for i := 1 to |arr|
      invariant ScanState(arr, i - 1, leftCount, rightCount, maxMountain)
    {
      leftCount, rightCount, maxMountain := Advance(arr, i, leftCount, rightCount, maxMountain);
    }
    if leftCount > 0 && rightCount > 0 {
      maxMountain := Max(maxMountain, leftCount + rightCount + 1);
    }
  }

  /** In a strictly falling array the falling run into e reaches back to 0. */
  lemma {:induction false} FallingAll(arr: seq<int>, e: nat)
    requires e < |arr| && forall k :: 0 <= k < |arr| - 1 ==> Falls(arr, k)
    ensures Down(arr, e) == e
  {
    if e > 0 {
      FallingAll(arr, e - 1);
      assert Falls(arr, e - 1);
    }
  }

  /** A strictly rising or strictly falling array holds no mountain. */
  lemma MonotoneHasNoMountain(arr: seq<int>)
    requires (forall k :: 0 <= k < |arr| - 1 ==> Rises(arr, k)) || (forall k :: 0 <= k < |arr| - 1 ==> Falls(arr, k))
    ensures LongestMountainOf(arr) == 0
  {
    forall e | 0 < e < |arr|
      ensures EndingAt(arr, e) == 0
    {
      if forall k :: 0 <= k < |arr| - 1 ==> Rises(arr, k) {
        assert Rises(arr, e - 1);
      } else {
        FallingAll(arr, e);
      }
    }
  }

  /** A standard example: [2,1,4,7,3,2,5] holds
      the mountain [1,4,7,3,2] and nothing longer. */
  lemma MountainExample()
    ensures LongestMountainOf([2, 1, 4, 7, 3, 2, 5]) == 5
    ensures LongestMountainOf([2, 2, 2]) == 0
  {
    var arr := [2, 1, 4, 7, 3, 2, 5];
    assert EndingAt(arr, 5) == 5;
    assert EndingAt(arr, 4) == 4;
    assert EndingAt(arr, 6) == 0;
  }
}
