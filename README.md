# Inversion counter, verified in Dafny

`InversionCounter.java` counts the inversions of an `int[]`: the index pairs
i < j with `array[i] > array[j]`. It has two counters. Neither changes the
caller's array. Each works on a private copy made with `System.arraycopy`.

- `countInversionsSlow` is an insertion sort on the copy. Each new element is
  shifted left past the earlier elements that are strictly greater than it.
  The number of places it is shifted is added to the total.
- `countInversionsFast` is a top-down merge sort on the copy, done by the
  recursive `countInversionsFastHelper`, with one shared scratch buffer. The
  merge takes the left element on ties. Whenever it takes a right-half
  element, it adds `mid - i + 1`, the number of left-half elements not yet
  taken.

The model has two modules.

- `Inversions` (`inversions.dfy`) is the ghost specification.
  - `Inv(s)` is the inversion count, defined by peeling off the last element:
    `Inv(s[..n-1])` plus the number of earlier elements greater than `s[n-1]`.
  - `InversionPairs(s)` is the literal set of inverted index pairs. The lemma
    `InvCountsPairs` proves that `Inv` is its size.
  - `InsertionSort`, `ShiftCount`, `InsertAt` and `InsertionPass` describe
    the insertion sort as functions on sequences.
  - `MergeSort`, `MergeRun`, `TallyRun`, `SortBlock` and `MergeBlock`
    describe the merge sort, the merge and its cross-inversion tally the
    same way.
  - The lemmas prove that these functions sort, permute and count
    inversions.
  - `Rev` (the reverse of a sequence) and `Ties` (the number of pairs of
    equal elements) state the reversal duality of the count.
- `InversionCounter` (`inversion_counter.dfy`) holds the Java methods as
  imperative Dafny over `array<int>`, with the same loops, guards and index
  arithmetic.
  - Each method's postcondition ties the array it leaves and the count it
    returns to the specification functions.
  - The inner `while` loop of the slow counter is the method `Insert`.
  - The two `for` loops of the helper are the methods `MergeIntoScratch` and
    `CopyBack`, joined by `Merge`.

## Model

| member | source | states |
|---|---|---|
| InversionCounter.CountInversionsSlow | InversionCounter.java:22-43 | returns the inversion count `Inv(a[..])`, which is the number of index pairs i < j with a[i] > a[j]; it has no `modifies` clause, so the caller's array is left as it was |
| InversionCounter.Insert | InversionCounter.java:30-38 | one pass of the inner loop: the count is the number of places x is shifted, and the array becomes `InsertAt` of the old array (the trailing run of elements greater than x moved one place right, x in the freed slot, the rest untouched) |
| InversionCounter.ArrayCopy | InversionCounter.java:25 | `System.arraycopy` of a whole array: the destination holds the source's elements |
| InversionCounter.CountInversionsFast | InversionCounter.java:51-56 | returns the inversion count `Inv(a[..])`, which is the number of inverted index pairs; also covers the empty array, where the helper is called with high = -1; the caller's array is left as it was |
| InversionCounter.CountInversionsFastHelper | InversionCounter.java:58-88 | returns the inversion count of the old block a[low..high], and leaves `a` equal to the old array with that block replaced by its merge sort (the block sorted and a permutation of itself, by `SortBlockSorts`, with everything outside it unchanged) |
| InversionCounter.Merge | InversionCounter.java:68-84 | merging the two sorted halves through scratch leaves `a` equal to the old array with a[low..high] replaced by their merge; the returned count is the merge's cross-inversion tally |
| InversionCounter.MergeIntoScratch | InversionCounter.java:68-80 | scratch[low..high] receives the merge of a[low..mid] and a[mid+1..high], taking from the left on ties; the returned count is the sum of `mid - i + 1` over the steps that take from the right |
| InversionCounter.CopyBack | InversionCounter.java:81-84 | a[low..high] becomes scratch[low..high], and the rest of `a` is unchanged |
| InversionCounter.CountersAgree | InversionCounter.java:22-56 | the slow and the fast counter return the same value on every array: its number of inverted index pairs |
| Inversions.InvCountsPairs | InversionCounter.java:16-20 | `Inv(s)` equals the size of the set of index pairs i < j with s[i] > s[j] |
| Inversions.InvBound | InversionCounter.java:26 | a sequence of n elements has at most n(n-1)/2 inversions (stated as 2·Inv ≤ n(n-1)); `Inv` is a `nat`, so it is never negative |
| Inversions.InvZeroIffSorted | InversionCounter.java:16-20 | a sequence has no inversions exactly when it is ascending (ties allowed), in both directions |
| Inversions.InvMaxIffStrictlyDescending | InversionCounter.java:16-20 | a sequence has exactly n(n-1)/2 inversions exactly when it is strictly descending, in both directions |
| Inversions.InvReverse | InversionCounter.java:16-20 | reversal duality: the inversions of s, the inversions of its reverse and its tied pairs (i < j with s[i] == s[j]) add up to n(n-1)/2, stated as 2·(Inv(s) + Inv(Rev(s)) + Ties(s)) == n(n-1) |
| Inversions.InvReverseDistinct | InversionCounter.java:16-20 | with no two elements equal, a sequence and its reverse have n(n-1)/2 inversions between them |
| Inversions.InvFitsInLong | InversionCounter.java:22-26 | for fewer than 2^31 elements (the most a Java array holds) the count is below 2^62, so the `long` accumulators cannot overflow |
| Inversions.InvExample | InversionCounter.java:16-20 | [2, 4, 1, 3, 5] has 3 inversions |
| Inversions.ShiftCount | InversionCounter.java:30-36 | the inner `while` loop's count: scanning back from the end of the prefix, the number of elements strictly greater than x (strict `>`, so an equal element stops the scan) before the first one that is not; never more than the prefix length |
| Inversions.InsertShifted | InversionCounter.java:32-38 | the prefix after the inner loop and the final store: x placed in front of its last `ShiftCount` elements, one element longer |
| Inversions.InsertAt | InversionCounter.java:30-38 | the whole array after one pass of the inner loop: `InsertShifted` of arrayCopy[0..i) followed by arrayCopy[i+1..], index i having been overwritten by the shift; the length is unchanged |
| Inversions.InsertionSort | InversionCounter.java:28-40 | what the outer loop makes of a prefix: each element in turn inserted with `InsertShifted` into the result for the elements before it; same length as its input |
| Inversions.InsertionPass | InversionCounter.java:28-40 | arrayCopy after the first k elements are processed: the insertion sort of array[0..k) followed by the untouched array[k..]; same length as the input |
| Inversions.ShiftCountIs | InversionCounter.java:32-36 | the inner loop's stopping condition determines its count: if the last c elements of the prefix exceed x and the one before them (if any) does not, x is shifted exactly c places |
| Inversions.InsertAtIs | InversionCounter.java:32-38 | the array state the inner loop and the final store leave (x at i - count, the passed elements one place right, all else unchanged) is exactly `InsertAt` |
| Inversions.ShiftCountSorted | InversionCounter.java:32-36 | on a sorted prefix, the shifted elements are exactly those strictly greater than x (equal elements are not shifted), the count equals their number, and inserting x keeps the prefix sorted |
| Inversions.InsertShiftedPerm | InversionCounter.java:32-38 | inserting x adds exactly x to the elements of the prefix |
| Inversions.InsertionSortSorted | InversionCounter.java:28-40 | the insertion sort's result is sorted |
| Inversions.InsertionSortPerm | InversionCounter.java:28-40 | the insertion sort's result is a permutation of its input |
| Inversions.InsertionSortStep | InversionCounter.java:28-40 | inserting s[i] into the sorted s[..i] gives the sorted s[..i+1], and the places it is shifted are the inversions that s[i] closes |
| Inversions.InsertionPassStart | InversionCounter.java:24-28 | before the outer loop (which starts at i = 1) the copy already is the state after one pass |
| Inversions.InsertionPassStep | InversionCounter.java:28-40 | one iteration of the outer loop turns the array state after i elements into the state after i + 1 and adds that element's inversions to the count |
| Inversions.InsertionPassSorted | InversionCounter.java:28-40 | outer-loop invariant: after i passes arrayCopy[0..i) is a sorted permutation of array[0..i), and the rest is the input as it was |
| Inversions.TakesLeft | InversionCounter.java:71 | the merge's branch condition `i <= mid && (j > high || array[i] <= array[j])`, with `<=`: it takes from the left only when the left has an element, always on a tie, and gives way to the right only when the left is used up or the right element is strictly smaller |
| Inversions.MergeRun | InversionCounter.java:69-80 | the merge loop's output, run on from any cursor state (p elements of the left block and q of the right taken, `out` written); its length is the output so far plus every element not yet taken |
| Inversions.TallyRun | InversionCounter.java:69-80 | the merge loop's additions to `inversions`: for each element taken from the right, the number of left elements not yet taken, which is `mid - i + 1`; the total never falls below its start |
| Inversions.RightStepCounts | InversionCounter.java:71-78 | when the merge takes a right element, the `mid - i + 1` left elements not yet taken are exactly the left elements greater than it; an equal left element is taken first and never counted |
| Inversions.MergeRunSorted | InversionCounter.java:68-80 | the merge of two sorted blocks is sorted |
| Inversions.MergeRunPerm | InversionCounter.java:68-80 | the merge outputs exactly the elements of both blocks |
| Inversions.TallyRunCounts | InversionCounter.java:68-80 | the tally of the `mid - i + 1` additions equals the number of cross inversions between the two sorted blocks |
| Inversions.MergeSortedPerm | InversionCounter.java:68-84 | merging two sorted blocks gives a sorted permutation of their concatenation |
| Inversions.MergeCounts | InversionCounter.java:62-79 | the inversions of a block are those of its two halves plus the merge tally of their sorted forms |
| Inversions.SplitPoint | InversionCounter.java:64 | the size of the left half, `mid - low + 1` for a block of n = high - low + 1 elements; for n ≥ 2 both halves are non-empty and smaller than the block, which is why the recursion ends |
| Inversions.MergeSort | InversionCounter.java:58-88 | the helper's recursion as a function: a block of at most one element is unchanged, and a longer block becomes the merge of its two halves, split at `SplitPoint` and sorted; same length as the block |
| Inversions.SortBlock | InversionCounter.java:58-88 | the array after the helper: the block a[low..high] replaced by its merge sort, the rest unchanged; same length |
| Inversions.MergeBlock | InversionCounter.java:68-84 | the array after the merge loop and the copy-back: a[low..high] replaced by `MergeRun` of its two halves, the rest unchanged; same length |
| Inversions.MergeSortSorts | InversionCounter.java:58-88 | the merge sort's result is sorted and a permutation of its input |
| Inversions.MergeSortStep | InversionCounter.java:62-84 | splitting at `mid = low + (high - low) / 2`, the sorted block is the merge of the sorted halves, and its inversions are the halves' plus the merge tally |
| Inversions.SortBlockShort | InversionCounter.java:60-62 | base case: a block of at most one element is already sorted and has no inversions |
| Inversions.SortBlockSorts | InversionCounter.java:58-88 | after the helper, a[low..high] is sorted and a permutation of its old contents, and the elements outside [low, high] are unchanged |
| Inversions.MergeSortLevel | InversionCounter.java:62-84 | sorting the left half in place, then the right half, then merging the halves in place leaves the array holding the merge sort of the block, with the rest untouched |
| Inversions.SortBothHalves | InversionCounter.java:62-66 | after the two recursive calls the array holds the merge sort of each half side by side, the right half untouched by the first call, and everything outside the block as it was |
| Inversions.MergeSortLevelCounts | InversionCounter.java:62-79 | the block's inversion count is the left half's count plus the right half's count plus the tally of merging the two sorted halves |
| Inversions.InvAppend | InversionCounter.java:62-79 | the inversions of l + r are those within l, those within r, and those between them |
| Inversions.CountGreaterPerm | InversionCounter.java:32-36 | the number of elements greater than x does not depend on their order, so counting in the sorted copy gives the count for the original prefix |
| Inversions.CrossPerm | InversionCounter.java:68-80 | the number of cross inversions between two blocks does not depend on the order within each block, so counting between the sorted halves gives the count for the original halves |

## Left out

- `readArrayFromStdin` (InversionCounter.java:97-132) and `main` (InversionCounter.java:134-179) are not modelled. They read standard input, handle command-line arguments, print and exit: input/output and process control, not counting.
- `System.arraycopy` is modelled by the element-wise loop `ArrayCopy`, not as the JVM library routine.
- Java `int` elements and `long` counts are modelled as unbounded Dafny integers.
  - The counters only compare elements, so every `int` input behaves the same in the model.
  - Instead of modelling 64-bit wrap-around, `InvFitsInLong` shows that the count stays below 2^62.
  - The index arithmetic (`mid - i + 1`, `low + (high - low) / 2` with `high >= low`) has no negative operands and no overflow, so Dafny's division agrees with Java's.
- InversionCounter.CountInversionsFastHelper: requires `0 <= low <= high + 1 <= a.Length` and `high + 1 <= scratch.Length`, with `a` and `scratch` distinct arrays.
  - These hold for every call the Java code makes: from `countInversionsFast`, with the whole range (`high = -1` for an empty array), and from the helper itself, with the two halves.
  - For other ranges with `low >= high`, the Java method returns 0 without reading the arrays. The model does not cover those calls.
- InversionCounter.CountInversionsFastHelper, InversionCounter.Merge, InversionCounter.MergeIntoScratch: say nothing about what `scratch` holds outside the merged block or after the merge. The source makes no promise about it, and nothing reads it before writing.
