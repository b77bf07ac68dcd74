/**
 * The two inversion counters of InversionCounter.java, over arrays.
 *
 * Both work on a private copy of the caller's array: neither method has a
 * `modifies` clause, so the caller's array is provably left as it was.
 * Both are proved to return `Inv` of the input, hence to agree.
 */
module InversionCounter {
  import opened Inversions

  /** System.arraycopy(src, 0, dst, 0, src.length), as an element-wise loop. */
  method ArrayCopy(src: array<int>, dst: array<int>)
    requires src.Length == dst.Length
    modifies dst
    ensures dst[..] == old(src[..])
  {
    ghost var original := src[..];
    var k := 0;
    while k < src.Length
      invariant 0 <= k <= src.Length
      invariant forall p :: 0 <= p < k ==> dst[p] == original[p]
      invariant forall p :: k <= p < src.Length ==> src[p] == original[p]
    {
      dst[k] := src[k];
      k := k + 1;
    }
  }

  /**
   * Quadratic counter: an insertion sort on a copy, where the number of
   * places each new element is shifted is added to the total.
   */
  method CountInversionsSlow(a: array<int>) returns (inversions: int)
    ensures inversions == Inv(a[..]) == |InversionPairs(a[..])|
  {
    ghost var input := a[..];
    var n := a.Length;
    var arrayCopy := new int[n];
    ArrayCopy(a, arrayCopy);
    inversions := 0;
    var i := 1;
    // `done` is the number of elements already processed: i, or 0 for the empty array.
    ghost var done := if n == 0 then 0 else 1;
    InsertionPassStart(input);
    while i < n
      invariant 1 <= i && 0 <= done <= n && done == (if n == 0 then 0 else i)
      invariant arrayCopy[..] == InsertionPass(input, done)
      invariant inversions == Inv(input[..done])
    {
      assert a[i] == input[i] && done == i;
      var count := Insert(arrayCopy, i, a[i]);
      InsertionPassStep(input, i);
      inversions := inversions + count;
      i := i + 1;
      done := i;
    }
    assert input[..done] == input;
    InvCountsPairs(input);
  }

  /**
   * One pass of the inner loop of the quadratic counter: shifts the trailing
   * elements of arrayCopy[..i] that are greater than x one place to the
   * right, stopping at the first one that is not, puts x in the slot this
   * frees, and returns how many elements it shifted.
   */
  method Insert(arrayCopy: array<int>, i: int, x: int) returns (count: int)
    requires 0 <= i < arrayCopy.Length
    modifies arrayCopy
    ensures count == ShiftCount(old(arrayCopy[..])[..i], x)
    ensures arrayCopy[..] == InsertAt(old(arrayCopy[..]), i, x)
  {
    ghost var before := arrayCopy[..];
    count := 0;
    while count < i && arrayCopy[i - 1 - count] > x
      invariant 0 <= count <= i
      invariant forall p :: 0 <= p < arrayCopy.Length && !(i - count <= p <= i) ==> arrayCopy[p] == before[p]
      invariant forall p :: i - count < p <= i ==> arrayCopy[p] == before[p - 1]
      invariant forall p :: i - count <= p < i ==> before[p] > x
    {
      arrayCopy[i - count] := arrayCopy[i - 1 - count];
      count := count + 1;
    }
    ShiftCountIs(before, i, x, count);
    arrayCopy[i - count] := x;
    InsertAtIs(before, i, x, count, arrayCopy[..]);
  }

  /** Linearithmic counter: a top-down merge sort on a copy, with one shared scratch buffer. */
  method CountInversionsFast(a: array<int>) returns (inversions: int)
    ensures inversions == Inv(a[..]) == |InversionPairs(a[..])|
  {
    var arrayCopy, scratch := new int[a.Length], new int[a.Length];
    ArrayCopy(a, arrayCopy);
    assert arrayCopy[0..a.Length] == a[..];
    inversions := CountInversionsFastHelper(arrayCopy, scratch, 0, a.Length - 1);
    InvCountsPairs(a[..]);
  }

  /**
   * The two counters agree on every array, and neither changes it: both
   * return its number of inverted index pairs.
   */
  method CountersAgree(a: array<int>) returns (slow: int, fast: int)
    ensures slow == fast == |InversionPairs(a[..])|
  {
    slow := CountInversionsSlow(a);
    fast := CountInversionsFast(a);
  }

  /**
   * Sorts a[low..high] (inclusive) in place, as `MergeSort` does, and returns
   * the number of inversions it held; the rest of `a` is left as it was, and
   * scratch[low..high] stages each merge. `MergeSortSorts` shows the block
   * ends sorted and a permutation of what it held.
   */
  method CountInversionsFastHelper(a: array<int>, scratch: array<int>, low: int, high: int)
    returns (inversions: int)
    requires a != scratch
    requires 0 <= low <= high + 1 <= a.Length && high + 1 <= scratch.Length
    modifies a, scratch
    ensures inversions == Inv(old(a[..])[low..high + 1])
    ensures a[..] == SortBlock(old(a[..]), low, high)
    decreases high - low
  {
    inversions := 0;
    if low < high {
      var mid := low + (high - low) / 2;
      var leftInversions := CountInversionsFastHelper(a, scratch, low, mid);
      assert a[..] == SortBlock(old(a[..]), low, mid);
      var rightInversions := CountInversionsFastHelper(a, scratch, mid + 1, high);
      assert rightInversions == Inv(SortBlock(old(a[..]), low, mid)[mid + 1..high + 1]);
      assert a[..] == SortBlock(SortBlock(old(a[..]), low, mid), mid + 1, high);
      var crossInversions := Merge(a, scratch, low, mid, high);
      inversions := leftInversions + rightInversions + crossInversions;
      MergeSortLevel(old(a[..]), low, mid, high);
      SortBothHalves(old(a[..]), low, mid, high);
      MergeSortLevelCounts(old(a[..]), low, mid, high);
    } else {
      SortBlockShort(a[..], low, high);
    }
  }

  /**
   * The merge step of the linearithmic counter: merges the sorted blocks
   * a[low..mid] and a[mid + 1..high] (inclusive) back into a[low..high],
   * through scratch, and returns the cross inversions it tallies; the rest
   * of `a` is left as it was.
   */
  method Merge(a: array<int>, scratch: array<int>, low: int, mid: int, high: int)
    returns (crossInversions: int)
    requires a != scratch
    requires 0 <= low <= mid < high < a.Length && high < scratch.Length
    modifies a, scratch
    ensures a[..] == MergeBlock(old(a[..]), low, mid, high)
    ensures crossInversions == TallyRun(old(a[..])[low..mid + 1], old(a[..])[mid + 1..high + 1], 0, 0, 0)
  {
    crossInversions := MergeIntoScratch(a, scratch, low, mid, high);
    CopyBack(scratch, a, low, high);
  }

  /**
   * The merge loop: merges the blocks a[low..mid] and a[mid + 1..high]
   * (inclusive) into scratch[low..high], taking from the left block on ties,
   * and returns the cross inversions it tallies.
   */
  method MergeIntoScratch(a: array<int>, scratch: array<int>, low: int, mid: int, high: int)
    returns (crossInversions: int)
    requires a != scratch
    requires 0 <= low <= mid < high < a.Length && high < scratch.Length
    modifies scratch
    ensures scratch[low..high + 1] == MergeRun(a[low..mid + 1], a[mid + 1..high + 1], 0, 0, [])
    ensures crossInversions == TallyRun(a[low..mid + 1], a[mid + 1..high + 1], 0, 0, 0)
  {
    ghost var left, right := a[low..mid + 1], a[mid + 1..high + 1];
    // `out` is what the loop has written to scratch[low..k].
    ghost var out: seq<int> := [];
    crossInversions := 0;
    var i, j := low, mid + 1;
    for k := low to high + 1
      invariant low <= i <= mid + 1 <= j <= high + 1 && k - low == (i - low) + (j - mid - 1)
      invariant |out| == k - low && forall t :: low <= t < k ==> scratch[t] == out[t - low]
      invariant MergeRun(left, right, i - low, j - mid - 1, out) == MergeRun(left, right, 0, 0, [])
      invariant TallyRun(left, right, i - low, j - mid - 1, crossInversions) == TallyRun(left, right, 0, 0, 0)
    {
      assert i <= mid ==> left[i - low] == a[i];
      assert j <= high ==> right[j - mid - 1] == a[j];
      if i <= mid && (j > high || a[i] <= a[j]) {
        scratch[k] := a[i];
        i := i + 1;
      } else {
        scratch[k] := a[j];
        j := j + 1;
        crossInversions := crossInversions + mid - i + 1;
      }
      out := out + [scratch[k]];
    }
    assert scratch[low..high + 1] == out;
  }

  /** Copies scratch[low..high] (inclusive) back into a[low..high], leaving the rest of `a` as it was. */
  method CopyBack(scratch: array<int>, a: array<int>, low: int, high: int)
    requires a != scratch
    requires 0 <= low <= high < a.Length && high < scratch.Length
    modifies a
    ensures a[..] == old(a[..low]) + scratch[low..high + 1] + old(a[high + 1..])
  {
    for k := low to high + 1
      invariant forall p :: low <= p < k ==> a[p] == scratch[p]
      invariant forall p :: 0 <= p < a.Length && !(low <= p < k) ==> a[p] == old(a[p])
    {
      a[k] := scratch[k];
    }
  }
}
