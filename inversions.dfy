/**
 * The inversion count of a finite sequence of integers, as a specification:
 * the number of index pairs i < j with s[i] > s[j].
 *
 * `Inv` is defined by peeling off the last element, which is exactly the
 * accounting an insertion sort performs; `InversionPairs` is the literal set
 * of inverted index pairs, and `InvCountsPairs` ties the two together.
 */
module Inversions {

  /** Ascending order, allowing equal neighbours. */
  ghost predicate Sorted(s: seq<int>)
  {
    forall i, j :: 0 <= i < j < |s| ==> s[i] <= s[j]
  }

  /** Every earlier element strictly greater than every later one. */
  ghost predicate StrictlyDescending(s: seq<int>)
  {
    forall i, j :: 0 <= i < j < |s| ==> s[i] > s[j]
  }

  /** The number of elements of `t` strictly greater than `x`. */
  ghost function CountGreater(t: seq<int>, x: int): (c: nat)
    ensures c <= |t|
  {
    if |t| == 0 then 0
    else CountGreater(t[..|t| - 1], x) + (if t[|t| - 1] > x then 1 else 0)
  }

  /** The inversion count: each element contributes the number of earlier elements greater than it. */
  ghost function Inv(s: seq<int>): nat
  {
    if |s| == 0 then 0
    else Inv(s[..|s| - 1]) + CountGreater(s[..|s| - 1], s[|s| - 1])
  }

  /** The inversions between two blocks: pairs of an element of `l` and a smaller element of `r`. */
  ghost function Cross(l: seq<int>, r: seq<int>): nat
  {
    if |r| == 0 then 0
    else Cross(l, r[..|r| - 1]) + CountGreater(l, r[|r| - 1])
  }

  /** The inverted index pairs themselves. */
  ghost function InversionPairs(s: seq<int>): set<(int, int)>
  {
    set i, j | 0 <= i < j < |s| && s[i] > s[j] :: (i, j)
  }

  /** The pairs (i, j) for the indices i of `t` holding an element greater than `x`. */
  ghost function PairsEndingAt(t: seq<int>, x: int, j: int): set<(int, int)>
  {
    set i | 0 <= i < |t| && t[i] > x :: (i, j)
  }

  // ---------------------------------------------------------------------------
  // CountGreater

  lemma {:induction false} CountGreaterAppend(a: seq<int>, b: seq<int>, x: int)
    ensures CountGreater(a + b, x) == CountGreater(a, x) + CountGreater(b, x)
    decreases |b|
  {
    if |b| == 0 {
      assert a + b == a;
    } else {
      var b' := b[..|b| - 1];
      assert (a + b)[..|a + b| - 1] == a + b';
      CountGreaterAppend(a, b', x);
    }
  }

  /** Taking out the element at index k lowers the count by that element's own contribution. */
  lemma CountGreaterRemove(t: seq<int>, k: int, x: int)
    requires 0 <= k < |t|
    ensures CountGreater(t, x) == CountGreater(t[..k] + t[k + 1..], x) + (if t[k] > x then 1 else 0)
  {
    assert t == (t[..k] + [t[k]]) + t[k + 1..];
    CountGreaterAppend(t[..k] + [t[k]], t[k + 1..], x);
    CountGreaterAppend(t[..k], [t[k]], x);
    CountGreaterAppend(t[..k], t[k + 1..], x);
    assert [t[k]][..0] == [];
  }

  /**
   * When a and b hold the same elements, b has an index k holding the last
   * element of a, and what remains of the two after taking those out again
   * holds the same elements.
   */
  lemma RemoveMatching(a: seq<int>, b: seq<int>) returns (k: int)
    requires |a| > 0 && multiset(a) == multiset(b)
    ensures 0 <= k < |b| && b[k] == a[|a| - 1]
    ensures multiset(a[..|a| - 1]) == multiset(b[..k] + b[k + 1..])
  {
    var a', v := a[..|a| - 1], a[|a| - 1];
    assert a == a' + [v];
    assert v in multiset(b);
    k :| 0 <= k < |b| && b[k] == v;
    var b' := b[..k] + b[k + 1..];
    assert b == b[..k] + [v] + b[k + 1..];
    assert multiset(b) == multiset(b') + multiset{v};
    assert multiset(a) == multiset(a') + multiset{v};
    assert multiset(b') == multiset(b) - multiset{v} == multiset(a');
  }

  /** The count depends only on the multiset of elements, not on their order. */
  lemma {:induction false} CountGreaterPerm(a: seq<int>, b: seq<int>, x: int)
    requires multiset(a) == multiset(b)
    ensures CountGreater(a, x) == CountGreater(b, x)
    decreases |a|
  {
    if |a| == 0 {
      assert |b| == |multiset(b)| == 0;
    } else {
      var k := RemoveMatching(a, b);
      CountGreaterPerm(a[..|a| - 1], b[..k] + b[k + 1..], x);
      CountGreaterRemove(b, k, x);
    }
  }

  /**
   * When the elements before position p are at most x and those from p on
   * exceed x, exactly |t| - p elements are greater than x.
   */
  lemma {:induction false} CountGreaterSplit(t: seq<int>, x: int, p: int)
    requires 0 <= p <= |t|
    requires forall q :: 0 <= q < p ==> t[q] <= x
    requires forall q :: p <= q < |t| ==> t[q] > x
    ensures CountGreater(t, x) == |t| - p
    decreases |t|
  {
    if |t| > 0 {
      CountGreaterSplit(t[..|t| - 1], x, if p < |t| then p else |t| - 1);
    }
  }

  // ---------------------------------------------------------------------------
  // Cross

  lemma {:induction false} CrossAppend(l: seq<int>, r1: seq<int>, r2: seq<int>)
    ensures Cross(l, r1 + r2) == Cross(l, r1) + Cross(l, r2)
    decreases |r2|
  {
    if |r2| == 0 {
      assert r1 + r2 == r1;
    } else {
      var r2' := r2[..|r2| - 1];
      assert (r1 + r2)[..|r1 + r2| - 1] == r1 + r2';
      CrossAppend(l, r1, r2');
    }
  }

  lemma CrossRemove(l: seq<int>, r: seq<int>, k: int)
    requires 0 <= k < |r|
    ensures Cross(l, r) == Cross(l, r[..k] + r[k + 1..]) + CountGreater(l, r[k])
  {
    assert r == (r[..k] + [r[k]]) + r[k + 1..];
    CrossAppend(l, r[..k] + [r[k]], r[k + 1..]);
    CrossAppend(l, r[..k], [r[k]]);
    CrossAppend(l, r[..k], r[k + 1..]);
    assert [r[k]][..0] == [];
  }

  lemma {:induction false} CrossPermRight(l: seq<int>, r: seq<int>, r': seq<int>)
    requires multiset(r) == multiset(r')
    ensures Cross(l, r) == Cross(l, r')
    decreases |r|
  {
    if |r| == 0 {
      assert |r'| == |multiset(r')| == 0;
    } else {
      var k := RemoveMatching(r, r');
      CrossPermRight(l, r[..|r| - 1], r'[..k] + r'[k + 1..]);
      CrossRemove(l, r', k);
    }
  }

  lemma {:induction false} CrossPermLeft(l: seq<int>, l': seq<int>, r: seq<int>)
    requires multiset(l) == multiset(l')
    ensures Cross(l, r) == Cross(l', r)
    decreases |r|
  {
    if |r| > 0 {
      CrossPermLeft(l, l', r[..|r| - 1]);
      CountGreaterPerm(l, l', r[|r| - 1]);
    }
  }

  /** Reordering either block leaves the number of inversions between the blocks unchanged. */
  lemma CrossPerm(l: seq<int>, l': seq<int>, r: seq<int>, r': seq<int>)
    requires multiset(l) == multiset(l') && multiset(r) == multiset(r')
    ensures Cross(l, r) == Cross(l', r')
  {
    CrossPermLeft(l, l', r);
    CrossPermRight(l', r, r');
  }

  // ---------------------------------------------------------------------------
  // Inv

  /** Divide and conquer: the inversions of l + r are those inside each block plus those across. */
  lemma {:induction false} InvAppend(l: seq<int>, r: seq<int>)
    ensures Inv(l + r) == Inv(l) + Inv(r) + Cross(l, r)
    decreases |r|
  {
    if |r| == 0 {
      assert l + r == l;
    } else {
      var r', y := r[..|r| - 1], r[|r| - 1];
      assert (l + r)[..|l + r| - 1] == l + r';
      InvAppend(l, r');
      CountGreaterAppend(l, r', y);
    }
  }

  // ---------------------------------------------------------------------------
  // Insertion sort

  /**
   * How many elements of t, scanning from its end, are greater than x before
   * the first one that is at most x: the number of places x is shifted past.
   */
  ghost function ShiftCount(t: seq<int>, x: int): (c: nat)
    ensures c <= |t|
  {
    if |t| == 0 || t[|t| - 1] <= x then 0
    else 1 + ShiftCount(t[..|t| - 1], x)
  }

  /** t with x placed in front of its last ShiftCount(t, x) elements. */
  ghost function InsertShifted(t: seq<int>, x: int): (r: seq<int>)
    ensures |r| == |t| + 1
  {
    t[..|t| - ShiftCount(t, x)] + [x] + t[|t| - ShiftCount(t, x)..]
  }

  /**
   * The scan's result is characterised by where it stops: if the last c
   * elements of s[..i] are greater than x and the one before them (if any)
   * is not, then ShiftCount(s[..i], x) is c.
   */
  lemma {:induction false} ShiftCountIs(s: seq<int>, i: int, x: int, c: int)
    requires 0 <= c <= i <= |s|
    requires forall p :: i - c <= p < i ==> s[p] > x
    requires c < i ==> s[i - 1 - c] <= x
    ensures ShiftCount(s[..i], x) == c
    decreases i
  {
    if i > 0 {
      assert s[..i][..i - 1] == s[..i - 1];
    }
    if c > 0 {
      ShiftCountIs(s, i - 1, x, c - 1);
    }
  }

  /**
   * One pass of the inner loop on a whole array s: x is shifted into s[..i]
   * and the element at index i is overwritten, the rest staying as it was.
   */
  ghost function InsertAt(s: seq<int>, i: int, x: int): (t: seq<int>)
    requires 0 <= i < |s|
    ensures |t| == |s|
  {
    InsertShifted(s[..i], x) + s[i + 1..]
  }

  /**
   * An array state that agrees with s outside s[i - c..i], holds x at index
   * i - c and the elements s[i - c..i - 1] one place further right is
   * InsertAt(s, i, x), when c is the number of places x is shifted.
   */
  lemma InsertAtIs(s: seq<int>, i: int, x: int, c: int, after: seq<int>)
    requires 0 <= i < |s| && |after| == |s| && c == ShiftCount(s[..i], x)
    requires forall p :: 0 <= p < |s| && !(i - c <= p <= i) ==> after[p] == s[p]
    requires after[i - c] == x
    requires forall p :: i - c < p <= i ==> after[p] == s[p - 1]
    ensures after == InsertAt(s, i, x)
  {
    var front, moved, back := s[..i - c], s[i - c..i], s[i + 1..];
    assert InsertAt(s, i, x) == front + [x] + moved + back by {
      assert s[..i][..i - c] == front;
      assert s[..i][i - c..] == moved;
    }
    forall p | 0 <= p < |s|
      ensures after[p] == (front + [x] + moved + back)[p]
    {
      if i - c < p <= i {
        assert moved[p - (i - c) - 1] == s[p - 1];
      } else if p > i {
        assert back[p - i - 1] == s[p];
      }
    }
  }

  /** Insertion sort: each element in turn is shifted into the sorted prefix before it. */
  ghost function InsertionSort(s: seq<int>): (sorted: seq<int>)
    ensures |sorted| == |s|
  {
    if |s| == 0 then []
    else InsertShifted(InsertionSort(s[..|s| - 1]), s[|s| - 1])
  }

  /** The scan stops at the first element at most x: everything it passes is greater than x. */
  lemma {:induction false} ShiftCountStops(t: seq<int>, x: int)
    ensures forall p :: |t| - ShiftCount(t, x) <= p < |t| ==> t[p] > x
    ensures ShiftCount(t, x) < |t| ==> t[|t| - 1 - ShiftCount(t, x)] <= x
    decreases |t|
  {
    if |t| > 0 && t[|t| - 1] > x {
      var t' := t[..|t| - 1];
      ShiftCountStops(t', x);
    }
  }

  /**
   * In a sorted t, the elements in front of the insertion point are at most
   * x, so the result stays sorted, and x passes exactly the elements greater
   * than it.
   */
  lemma ShiftCountSorted(t: seq<int>, x: int)
    requires Sorted(t)
    ensures forall p :: 0 <= p < |t| - ShiftCount(t, x) ==> t[p] <= x
    ensures Sorted(InsertShifted(t, x))
    ensures ShiftCount(t, x) == CountGreater(t, x)
  {
    ShiftCountStops(t, x);
    var p := |t| - ShiftCount(t, x);
    assert forall q :: 0 <= q < p ==> t[q] <= x by {
      if p > 0 {
        assert forall q :: 0 <= q < p ==> t[q] <= t[p - 1];
      }
    }
    CountGreaterSplit(t, x, p);
  }

  /** Inserting x adds exactly x to the multiset of elements. */
  lemma InsertShiftedPerm(t: seq<int>, x: int)
    ensures multiset(InsertShifted(t, x)) == multiset(t) + multiset{x}
  {
    var p := |t| - ShiftCount(t, x);
    assert t == t[..p] + t[p..];
  }

  /** The elements of a non-empty s are those before its last one, plus the last one. */
  lemma MultisetLast(s: seq<int>)
    requires |s| > 0
    ensures multiset(s) == multiset(s[..|s| - 1]) + multiset{s[|s| - 1]}
  {
    assert s == s[..|s| - 1] + [s[|s| - 1]];
  }

  /** Insertion sort returns a sorted sequence. */
  lemma {:induction false} InsertionSortSorted(s: seq<int>)
    ensures Sorted(InsertionSort(s))
    decreases |s|
  {
    if |s| > 0 {
      InsertionSortSorted(s[..|s| - 1]);
      ShiftCountSorted(InsertionSort(s[..|s| - 1]), s[|s| - 1]);
    }
  }

  /** Insertion sort returns a permutation of its input. */
  lemma {:induction false} InsertionSortPerm(s: seq<int>)
    ensures multiset(InsertionSort(s)) == multiset(s)
    decreases |s|
  {
    if |s| > 0 {
      var s', x := s[..|s| - 1], s[|s| - 1];
      InsertionSortPerm(s');
      InsertShiftedPerm(InsertionSort(s'), x);
      MultisetLast(s);
    }
  }

  /**
   * One step of insertion sort, for the count: extending the prefix s[..i]
   * by s[i] inserts s[i] into the sorted form of s[..i], and the number of
   * places it is shifted is the number of inversions it closes.
   */
  lemma InsertionSortStep(s: seq<int>, i: int)
    requires 0 <= i < |s|
    ensures InsertionSort(s[..i + 1]) == InsertShifted(InsertionSort(s[..i]), s[i])
    ensures Inv(s[..i + 1]) == Inv(s[..i]) + ShiftCount(InsertionSort(s[..i]), s[i])
  {
    var t := InsertionSort(s[..i]);
    assert s[..i + 1][..i] == s[..i];
    InsertionSortSorted(s[..i]);
    ShiftCountSorted(t, s[i]);
    InsertionSortPerm(s[..i]);
    CountGreaterPerm(t, s[..i], s[i]);
  }

  /** The array state of the insertion-sort counter once its first k elements have been processed. */
  ghost function InsertionPass(s: seq<int>, k: int): (t: seq<int>)
    requires 0 <= k <= |s|
    ensures |t| == |s|
  {
    InsertionSort(s[..k]) + s[k..]
  }

  /** Before the first pass the array holds its input: a single element is already sorted. */
  lemma InsertionPassStart(s: seq<int>)
    ensures InsertionPass(s, if |s| == 0 then 0 else 1) == s
  {
    if |s| > 0 {
      var first := s[..1];
      assert first[..0] == [];
      assert InsertionSort(first[..0]) == [];
      assert InsertShifted([], s[0]) == [s[0]];
      assert InsertionSort(first) == [s[0]];
      assert s == [s[0]] + s[1..];
    }
  }

  /**
   * One pass of the inner loop, on the array state: inserting s[i] turns the
   * state after i elements into the state after i + 1, and the number of
   * places s[i] is shifted is the number of inversions it closes.
   */
  lemma InsertionPassStep(s: seq<int>, i: int)
    requires 0 <= i < |s|
    ensures InsertAt(InsertionPass(s, i), i, s[i]) == InsertionPass(s, i + 1)
    ensures Inv(s[..i + 1]) == Inv(s[..i]) + ShiftCount(InsertionPass(s, i)[..i], s[i])
  {
    var pass := InsertionPass(s, i);
    assert pass[..i] == InsertionSort(s[..i]);
    assert pass[i + 1..] == s[i + 1..];
    InsertionSortStep(s, i);
  }

  /**
   * The invariant of the outer loop of the insertion sort: after k passes
   * the first k places hold a sorted permutation of the first k input
   * elements, and the rest is the input as it was.
   */
  lemma InsertionPassSorted(s: seq<int>, k: int)
    requires 0 <= k <= |s|
    ensures Sorted(InsertionPass(s, k)[..k])
    ensures multiset(InsertionPass(s, k)[..k]) == multiset(s[..k])
    ensures InsertionPass(s, k)[k..] == s[k..]
  {
    var pass := InsertionPass(s, k);
    assert pass[..k] == InsertionSort(s[..k]);
    InsertionSortSorted(s[..k]);
    InsertionSortPerm(s[..k]);
  }

  // ---------------------------------------------------------------------------
  // Inversion pairs

  /** The pairs ending at j number as many as the elements of t greater than x. */
  lemma {:induction false} PairsEndingAtCount(t: seq<int>, x: int, j: int)
    ensures |PairsEndingAt(t, x, j)| == CountGreater(t, x)
    decreases |t|
  {
    if |t| == 0 {
      assert PairsEndingAt(t, x, j) == {};
    } else {
      var t', m := t[..|t| - 1], |t| - 1;
      PairsEndingAtCount(t', x, j);
      if t[m] > x {
        assert PairsEndingAt(t, x, j) == PairsEndingAt(t', x, j) + {(m, j)};
      } else {
        assert PairsEndingAt(t, x, j) == PairsEndingAt(t', x, j);
      }
    }
  }

  /** `Inv` counts exactly the index pairs i < j with s[i] > s[j]. */
  lemma {:induction false} InvCountsPairs(s: seq<int>)
    ensures Inv(s) == |InversionPairs(s)|
    decreases |s|
  {
    if |s| == 0 {
      assert InversionPairs(s) == {};
    } else {
      var n := |s| - 1;
      InvCountsPairs(s[..n]);
      PairsEndingAtCount(s[..n], s[n], n);
      InversionPairsLast(s);
    }
  }

  /** The inverted pairs of a non-empty s are those of s without its last element, plus those ending at it. */
  lemma InversionPairsLast(s: seq<int>)
    requires |s| > 0
    ensures InversionPairs(s) == InversionPairs(s[..|s| - 1]) + PairsEndingAt(s[..|s| - 1], s[|s| - 1], |s| - 1)
    ensures InversionPairs(s[..|s| - 1]) !! PairsEndingAt(s[..|s| - 1], s[|s| - 1], |s| - 1)
  {
    var n := |s| - 1;
    var s' := s[..n];
    forall pr | pr in InversionPairs(s)
      ensures pr in InversionPairs(s') + PairsEndingAt(s', s[n], n)
    {
      var (i, j) := pr;
      if j < n {
        assert s'[i] > s'[j];
      } else {
        assert s'[i] > s[n];
      }
    }
  }

  // ---------------------------------------------------------------------------
  // Bounds

  /** None of t is counted exactly when no element of t exceeds x. */
  lemma {:induction false} CountGreaterNone(t: seq<int>, x: int)
    ensures CountGreater(t, x) == 0 <==> forall i :: 0 <= i < |t| ==> t[i] <= x
    decreases |t|
  {
    if |t| > 0 {
      var t' := t[..|t| - 1];
      CountGreaterNone(t', x);
      assert forall i :: 0 <= i < |t'| ==> t'[i] == t[i];
    }
  }

  /** All of t is counted exactly when every element of t exceeds x. */
  lemma {:induction false} CountGreaterAll(t: seq<int>, x: int)
    ensures CountGreater(t, x) == |t| <==> forall i :: 0 <= i < |t| ==> t[i] > x
    decreases |t|
  {
    if |t| > 0 {
      var t' := t[..|t| - 1];
      CountGreaterAll(t', x);
      assert forall i :: 0 <= i < |t'| ==> t'[i] == t[i];
    }
  }

  /** Adding an n-th element adds n - 1 pairs: (n - 1)(n - 2) + 2(n - 1) == n(n - 1). */
  lemma PairsGrow(n: int)
    ensures (n - 1) * (n - 2) + 2 * (n - 1) == n * (n - 1)
  {
  }

  /** A sequence of n elements has at most n(n - 1)/2 inversions. */
  lemma {:induction false} InvBound(s: seq<int>)
    ensures 2 * Inv(s) <= |s| * (|s| - 1)
    decreases |s|
  {
    if |s| > 0 {
      var n := |s|;
      InvBound(s[..n - 1]);
      PairsGrow(n);
    }
  }

  /** A non-empty sequence is ascending when the rest is and no earlier element exceeds the last. */
  lemma SortedLast(s: seq<int>)
    requires |s| > 0
    ensures Sorted(s) <==> Sorted(s[..|s| - 1]) && forall i :: 0 <= i < |s| - 1 ==> s[i] <= s[|s| - 1]
  {
    var s' := s[..|s| - 1];
    if Sorted(s') && forall i :: 0 <= i < |s| - 1 ==> s[i] <= s[|s| - 1] {
      forall i, j | 0 <= i < j < |s|
        ensures s[i] <= s[j]
      {
        assert s[i] == s'[i];
        if j < |s'| {
          assert s[j] == s'[j];
        }
      }
    }
  }

  /** A non-empty sequence is strictly descending when the rest is and every earlier element exceeds the last. */
  lemma StrictlyDescendingLast(s: seq<int>)
    requires |s| > 0
    ensures StrictlyDescending(s) <==> StrictlyDescending(s[..|s| - 1]) && forall i :: 0 <= i < |s| - 1 ==> s[i] > s[|s| - 1]
  {
    var s' := s[..|s| - 1];
    if StrictlyDescending(s') && forall i :: 0 <= i < |s| - 1 ==> s[i] > s[|s| - 1] {
      forall i, j | 0 <= i < j < |s|
        ensures s[i] > s[j]
      {
        assert s[i] == s'[i];
        if j < |s'| {
          assert s[j] == s'[j];
        }
      }
    }
  }

  /** Exactly the ascending sequences have no inversions. */
  lemma {:induction false} InvZeroIffSorted(s: seq<int>)
    ensures Inv(s) == 0 <==> Sorted(s)
    decreases |s|
  {
    if |s| > 0 {
      InvZeroIffSorted(s[..|s| - 1]);
      CountGreaterNone(s[..|s| - 1], s[|s| - 1]);
      SortedLast(s);
    }
  }

  /** Exactly the strictly descending sequences reach the bound of n(n - 1)/2 inversions. */
  lemma {:induction false} InvMaxIffStrictlyDescending(s: seq<int>)
    ensures 2 * Inv(s) == |s| * (|s| - 1) <==> StrictlyDescending(s)
    decreases |s|
  {
    if |s| > 0 {
      var n := |s|;
      InvMaxIffStrictlyDescending(s[..n - 1]);
      InvBound(s[..n - 1]);
      CountGreaterAll(s[..n - 1], s[n - 1]);
      StrictlyDescendingLast(s);
      PairsGrow(n);
    }
  }

  /** Multiplying by a non-negative factor keeps order. */
  lemma MulMonotone(x: int, y: int, c: int)
    requires 0 <= x && y <= c
    ensures x * y <= x * c
  {
    assert x * c - x * y == x * (c - y);
  }

  /**
   * A Java array holds fewer than 2^31 elements, so its inversion count is
   * below 2^62 and fits in the signed 64-bit `long` the counters return.
   */
  lemma InvFitsInLong(s: seq<int>)
    requires |s| < 0x8000_0000
    ensures 0 <= Inv(s) < 0x4000_0000_0000_0000
  {
    InvBound(s);
    var n := |s|;
    if n > 0 {
      MulMonotone(n, n - 1, 0x7FFF_FFFF);
      MulMonotone(0x7FFF_FFFF, n, 0x7FFF_FFFF);
    }
  }

  /** The inversions of [2, 4, 1, 3, 5]: (2, 1), (4, 1) and (4, 3). */
  lemma InvExample()
    ensures Inv([2, 4, 1, 3, 5]) == 3
  {
    var s := [2, 4, 1, 3, 5];
    assert s[..4] == [2, 4, 1, 3] && s[..4][..3] == [2, 4, 1];
    assert s[..4][..3][..2] == [2, 4] && s[..4][..3][..2][..1] == [2];
    assert [2][..0] == [] && [2, 4][..1] == [2] && [2, 4, 1][..2] == [2, 4];
    assert [2, 4, 1, 3][..3] == [2, 4, 1];
  }

  // ---------------------------------------------------------------------------
  // Reversal

  /** s read back to front. */
  ghost function Rev(s: seq<int>): seq<int>
  {
    seq(|s|, i requires 0 <= i < |s| => s[|s| - 1 - i])
  }

  /** The number of elements of `t` strictly less than `x`. */
  ghost function CountLess(t: seq<int>, x: int): nat
  {
    if |t| == 0 then 0
    else CountLess(t[..|t| - 1], x) + (if t[|t| - 1] < x then 1 else 0)
  }

  /** The number of elements of `t` equal to `x`. */
  ghost function CountEqual(t: seq<int>, x: int): nat
  {
    if |t| == 0 then 0
    else CountEqual(t[..|t| - 1], x) + (if t[|t| - 1] == x then 1 else 0)
  }

  /** The tied pairs i < j with s[i] == s[j], counted as `Inv` counts the inverted ones. */
  ghost function Ties(s: seq<int>): nat
  {
    if |s| == 0 then 0
    else Ties(s[..|s| - 1]) + CountEqual(s[..|s| - 1], s[|s| - 1])
  }

  /** Each element of t is greater than, less than or equal to x. */
  lemma {:induction false} CountTrichotomy(t: seq<int>, x: int)
    ensures CountGreater(t, x) + CountLess(t, x) + CountEqual(t, x) == |t|
    decreases |t|
  {
    if |t| > 0 {
      CountTrichotomy(t[..|t| - 1], x);
    }
  }

  /** Reversing a non-empty s puts its last element first. */
  lemma RevLast(s: seq<int>)
    requires |s| > 0
    ensures Rev(s) == [s[|s| - 1]] + Rev(s[..|s| - 1])
  {
  }

  /** Reversing keeps the elements. */
  lemma {:induction false} RevPerm(s: seq<int>)
    ensures multiset(Rev(s)) == multiset(s)
    decreases |s|
  {
    if |s| > 0 {
      RevLast(s);
      RevPerm(s[..|s| - 1]);
      MultisetLast(s);
    }
  }

  /** A single element x in front of r is inverted with exactly the elements of r less than x. */
  lemma {:induction false} CrossSingle(x: int, r: seq<int>)
    ensures Cross([x], r) == CountLess(r, x)
    decreases |r|
  {
    if |r| > 0 {
      CrossSingle(x, r[..|r| - 1]);
      assert [x][..0] == [];
    }
  }

  /** Moving the last element of s to the front of the reverse adds the elements of s less than it. */
  lemma InvRevLast(s: seq<int>)
    requires |s| > 0
    ensures Inv(Rev(s)) == Inv(Rev(s[..|s| - 1])) + CountLess(s[..|s| - 1], s[|s| - 1])
  {
    var s', x := s[..|s| - 1], s[|s| - 1];
    RevLast(s);
    InvAppend([x], Rev(s'));
    assert [x][..0] == [];
    RevPerm(s');
    CrossPermRight([x], Rev(s'), s');
    CrossSingle(x, s');
  }

  /**
   * Reversal duality: every pair i < j of s is inverted in s, inverted in
   * the reverse of s, or tied, and exactly one of these.
   */
  lemma {:induction false} InvReverse(s: seq<int>)
    ensures 2 * (Inv(s) + Inv(Rev(s)) + Ties(s)) == |s| * (|s| - 1)
    decreases |s|
  {
    if |s| > 0 {
      var n := |s|;
      InvReverse(s[..n - 1]);
      InvRevLast(s);
      CountTrichotomy(s[..n - 1], s[n - 1]);
      PairsGrow(n);
    }
  }

  /** With no two elements equal there are no ties. */
  lemma {:induction false} TiesDistinct(s: seq<int>)
    requires forall i, j :: 0 <= i < j < |s| ==> s[i] != s[j]
    ensures Ties(s) == 0
    decreases |s|
  {
    if |s| > 0 {
      var s', x := s[..|s| - 1], s[|s| - 1];
      TiesDistinct(s');
      CountEqualNone(s', x);
    }
  }

  /** None of t is counted when no element of t equals x. */
  lemma {:induction false} CountEqualNone(t: seq<int>, x: int)
    requires forall i :: 0 <= i < |t| ==> t[i] != x
    ensures CountEqual(t, x) == 0
    decreases |t|
  {
    if |t| > 0 {
      CountEqualNone(t[..|t| - 1], x);
    }
  }

  /** For distinct elements, a sequence and its reverse together have n(n - 1)/2 inversions. */
  lemma InvReverseDistinct(s: seq<int>)
    requires forall i, j :: 0 <= i < j < |s| ==> s[i] != s[j]
    ensures 2 * (Inv(s) + Inv(Rev(s))) == |s| * (|s| - 1)
  {
    InvReverse(s);
    TiesDistinct(s);
  }

  // ---------------------------------------------------------------------------
  // Merge

  /** The merge takes its next element from l: l has one, and r is used up or r's next element is not smaller. */
  ghost predicate TakesLeft(l: seq<int>, r: seq<int>, p: nat, q: nat): (b: bool)
    requires p <= |l| && q <= |r|
    ensures b ==> p < |l|
    ensures p < |l| && q < |r| && l[p] == r[q] ==> b
    ensures !b && p < |l| ==> q < |r| && r[q] < l[p]
  {
    p < |l| && (q == |r| || l[p] <= r[q])
  }

  /**
   * The output of merging the blocks l and r, run on from the point where
   * p elements of l and q of r have been taken and `out` written.
   */
  ghost function MergeRun(l: seq<int>, r: seq<int>, p: nat, q: nat, out: seq<int>): (merged: seq<int>)
    requires p <= |l| && q <= |r|
    ensures |merged| == |out| + (|l| - p) + (|r| - q)
    decreases |l| - p + |r| - q
  {
    if TakesLeft(l, r, p, q) then MergeRun(l, r, p + 1, q, out + [l[p]])
    else if q < |r| then MergeRun(l, r, p, q + 1, out + [r[q]])
    else out
  }

  /**
   * The cross-inversion tally of the same run, started at `tally`: each
   * element taken from r adds the |l| - p elements of l not yet taken.
   */
  ghost function TallyRun(l: seq<int>, r: seq<int>, p: nat, q: nat, tally: int): (total: int)
    requires p <= |l| && q <= |r|
    ensures tally <= total
    decreases |l| - p + |r| - q
  {
    if TakesLeft(l, r, p, q) then TallyRun(l, r, p + 1, q, tally)
    else if q < |r| then TallyRun(l, r, p, q + 1, tally + (|l| - p))
    else tally
  }

  /** Moving the next element of l to the output keeps the elements of output and remainders together. */
  lemma TakeLeftPerm(out: seq<int>, l: seq<int>, p: int, rest: seq<int>)
    requires 0 <= p < |l|
    ensures multiset(out + [l[p]]) + multiset(l[p + 1..]) + multiset(rest)
            == multiset(out) + multiset(l[p..]) + multiset(rest)
  {
    assert l[p..] == [l[p]] + l[p + 1..];
  }

  /** Moving the next element of r to the output keeps the elements of output and remainders together. */
  lemma TakeRightPerm(out: seq<int>, rest: seq<int>, r: seq<int>, q: int)
    requires 0 <= q < |r|
    ensures multiset(out + [r[q]]) + multiset(rest) + multiset(r[q + 1..])
            == multiset(out) + multiset(rest) + multiset(r[q..])
  {
    assert r[q..] == [r[q]] + r[q + 1..];
  }

  /** The merge adds exactly the elements not yet taken to its output. */
  lemma {:induction false} MergeRunPerm(l: seq<int>, r: seq<int>, p: nat, q: nat, out: seq<int>)
    requires p <= |l| && q <= |r|
    ensures multiset(MergeRun(l, r, p, q, out)) == multiset(out) + multiset(l[p..]) + multiset(r[q..])
    decreases |l| - p + |r| - q
  {
    if TakesLeft(l, r, p, q) {
      MergeRunPerm(l, r, p + 1, q, out + [l[p]]);
      TakeLeftPerm(out, l, p, r[q..]);
    } else if q < |r| {
      MergeRunPerm(l, r, p, q + 1, out + [r[q]]);
      TakeRightPerm(out, l[p..], r, q);
    }
  }

  /**
   * Merging sorted blocks keeps the output sorted, provided what was
   * written so far is sorted and no greater than the next elements of
   * either block.
   */
  lemma {:induction false} MergeRunSorted(l: seq<int>, r: seq<int>, p: nat, q: nat, out: seq<int>)
    requires Sorted(l) && Sorted(r) && Sorted(out)
    requires p <= |l| && q <= |r|
    requires out != [] && p < |l| ==> out[|out| - 1] <= l[p]
    requires out != [] && q < |r| ==> out[|out| - 1] <= r[q]
    ensures Sorted(MergeRun(l, r, p, q, out))
    decreases |l| - p + |r| - q
  {
    if TakesLeft(l, r, p, q) {
      MergeRunSorted(l, r, p + 1, q, out + [l[p]]);
    } else if q < |r| {
      MergeRunSorted(l, r, p, q + 1, out + [r[q]]);
    }
  }

  /**
   * The tally counts the cross inversions still ahead: when the elements of
   * l taken so far are no greater than r's next element, it grows by the
   * number of inversions between l and the rest of r.
   */
  lemma {:induction false} TallyRunCounts(l: seq<int>, r: seq<int>, p: nat, q: nat, tally: int)
    requires Sorted(l) && Sorted(r)
    requires p <= |l| && q <= |r|
    requires q < |r| ==> forall m :: 0 <= m < p ==> l[m] <= r[q]
    ensures TallyRun(l, r, p, q, tally) == tally + Cross(l, r[q..])
    decreases |l| - p + |r| - q
  {
    if TakesLeft(l, r, p, q) {
      TallyRunCounts(l, r, p + 1, q, tally);
    } else if q < |r| {
      TallyRunCounts(l, r, p, q + 1, tally + (|l| - p));
      CountGreaterSplit(l, r[q], p);
      assert r[q..] == [r[q]] + r[q + 1..];
      CrossAppend(l, [r[q]], r[q + 1..]);
      assert [r[q]][..0] == [];
    } else {
      assert r[q..] == [];
    }
  }

  /**
   * When the merge takes r[q] instead of l[p], the |l| - p elements of l not
   * yet taken are exactly the elements of l[p..] greater than r[q]; an equal
   * l[p] is taken first, so it is never counted.
   */
  lemma RightStepCounts(l: seq<int>, r: seq<int>, p: nat, q: nat)
    requires Sorted(l) && p <= |l| && q < |r| && !TakesLeft(l, r, p, q)
    ensures |l| - p == CountGreater(l[p..], r[q])
  {
    forall m | 0 <= m < |l[p..]|
      ensures l[p..][m] > r[q]
    {
      assert l[p] <= l[p + m];
    }
    CountGreaterAll(l[p..], r[q]);
  }

  /** Merging two sorted blocks yields a sorted permutation of their concatenation. */
  lemma MergeSortedPerm(l0: seq<int>, r0: seq<int>, l: seq<int>, r: seq<int>)
    requires Sorted(l) && Sorted(r)
    requires multiset(l) == multiset(l0) && multiset(r) == multiset(r0)
    ensures Sorted(MergeRun(l, r, 0, 0, []))
    ensures multiset(MergeRun(l, r, 0, 0, [])) == multiset(l0 + r0)
  {
    MergeRunSorted(l, r, 0, 0, []);
    MergeRunPerm(l, r, 0, 0, []);
    assert l[0..] == l && r[0..] == r;
  }

  /**
   * The merge tally of the sorted forms of two blocks is the number of
   * inversions between them, so the inversions of their concatenation split
   * into those within each block plus the tally.
   */
  lemma MergeCounts(l0: seq<int>, r0: seq<int>, l: seq<int>, r: seq<int>)
    requires Sorted(l) && Sorted(r)
    requires multiset(l) == multiset(l0) && multiset(r) == multiset(r0)
    ensures Inv(l0 + r0) == Inv(l0) + Inv(r0) + TallyRun(l, r, 0, 0, 0)
  {
    TallyRunCounts(l, r, 0, 0, 0);
    assert r[0..] == r;
    CrossPerm(l, l0, r, r0);
    InvAppend(l0, r0);
  }

  // ---------------------------------------------------------------------------
  // Merge sort

  /** Where a block of length n > 1 is split: the left half gets the extra element when n is odd. */
  function SplitPoint(n: int): (m: int)
    ensures 2 <= n ==> 0 < m < n
  {
    (n - 1) / 2 + 1
  }

  /** The top-down merge sort the linearithmic counter performs on a block. */
  ghost function MergeSort(s: seq<int>): (sorted: seq<int>)
    ensures |sorted| == |s|
    decreases |s|
  {
    if |s| <= 1 then s
    else MergeRun(MergeSort(s[..SplitPoint(|s|)]), MergeSort(s[SplitPoint(|s|)..]), 0, 0, [])
  }

  /** Merge sort returns a sorted permutation of its input. */
  lemma {:induction false} MergeSortSorts(s: seq<int>)
    ensures Sorted(MergeSort(s))
    ensures multiset(MergeSort(s)) == multiset(s)
    decreases |s|
  {
    if |s| > 1 {
      var m := SplitPoint(|s|);
      var l, r := MergeSort(s[..m]), MergeSort(s[m..]);
      MergeSortSorts(s[..m]);
      MergeSortSorts(s[m..]);
      MergeSortedPerm(s[..m], s[m..], l, r);
      assert s == s[..m] + s[m..];
    }
  }

  /**
   * One level of the merge sort on a block split into l0 and r0: the block
   * sorts to the merge of the sorted halves, and its inversions are those of
   * the halves plus the tally of that merge.
   */
  lemma MergeSortStep(l0: seq<int>, r0: seq<int>)
    requires |r0| > 0 && |l0| == SplitPoint(|l0| + |r0|)
    ensures MergeSort(l0 + r0) == MergeRun(MergeSort(l0), MergeSort(r0), 0, 0, [])
    ensures Inv(l0 + r0) == Inv(l0) + Inv(r0) + TallyRun(MergeSort(l0), MergeSort(r0), 0, 0, 0)
  {
    var s := l0 + r0;
    assert s[..|l0|] == l0 && s[|l0|..] == r0;
    MergeSortSorts(l0);
    MergeSortSorts(r0);
    MergeCounts(l0, r0, MergeSort(l0), MergeSort(r0));
  }

  /** The whole array s with its block s[low..high] (inclusive) replaced by the block's merge sort. */
  ghost function SortBlock(s: seq<int>, low: int, high: int): (t: seq<int>)
    requires 0 <= low <= high + 1 <= |s|
    ensures |t| == |s|
  {
    s[..low] + MergeSort(s[low..high + 1]) + s[high + 1..]
  }

  /** The whole array s with its blocks s[low..mid] and s[mid + 1..high] replaced by their merge. */
  ghost function MergeBlock(s: seq<int>, low: int, mid: int, high: int): (t: seq<int>)
    requires 0 <= low <= mid < high < |s|
    ensures |t| == |s|
  {
    s[..low] + MergeRun(s[low..mid + 1], s[mid + 1..high + 1], 0, 0, []) + s[high + 1..]
  }

  /** A block of at most one element is already sorted and holds no inversions. */
  lemma SortBlockShort(s: seq<int>, low: int, high: int)
    requires 0 <= low <= high + 1 <= |s| && high <= low
    ensures SortBlock(s, low, high) == s
    ensures Inv(s[low..high + 1]) == 0
  {
    assert s == s[..low] + s[low..high + 1] + s[high + 1..];
    if low == high {
      assert s[low..high + 1][..0] == [];
    }
  }

  /**
   * What sorting a block leaves: the block sorted and a permutation of what
   * it held, the rest of s as it was.
   */
  lemma SortBlockSorts(s: seq<int>, low: int, high: int)
    requires 0 <= low <= high + 1 <= |s|
    ensures Sorted(SortBlock(s, low, high)[low..high + 1])
    ensures multiset(SortBlock(s, low, high)[low..high + 1]) == multiset(s[low..high + 1])
    ensures SortBlock(s, low, high)[..low] == s[..low] && SortBlock(s, low, high)[high + 1..] == s[high + 1..]
  {
    var t := SortBlock(s, low, high);
    MergeSortSorts(s[low..high + 1]);
    assert t[low..high + 1] == MergeSort(s[low..high + 1]);
  }

  /**
   * After sorting the left half of a0[low..high] in place and then the right
   * half, the array holds the two sorted halves side by side, with the rest
   * as it was.
   */
  lemma SortBothHalves(a0: seq<int>, low: int, mid: int, high: int)
    requires 0 <= low <= mid < high < |a0|
    ensures SortBlock(a0, low, mid)[mid + 1..high + 1] == a0[mid + 1..high + 1]
    ensures SortBlock(SortBlock(a0, low, mid), mid + 1, high)[..low] == a0[..low]
    ensures SortBlock(SortBlock(a0, low, mid), mid + 1, high)[low..mid + 1] == MergeSort(a0[low..mid + 1])
    ensures SortBlock(SortBlock(a0, low, mid), mid + 1, high)[mid + 1..high + 1] == MergeSort(a0[mid + 1..high + 1])
    ensures SortBlock(SortBlock(a0, low, mid), mid + 1, high)[high + 1..] == a0[high + 1..]
  {
    var a1 := SortBlock(a0, low, mid);
    var a2 := SortBlock(a1, mid + 1, high);
    assert a1[mid + 1..high + 1] == a0[mid + 1..high + 1];
    assert a1[..low] == a0[..low] && a1[high + 1..] == a0[high + 1..];
    assert a1[low..mid + 1] == MergeSort(a0[low..mid + 1]);
    assert a2[low..mid + 1] == a1[low..mid + 1];
  }

  /**
   * One level of the in-place merge sort on the block a0[low..high] of a
   * whole array: sorting the left half in place, then the right half, then
   * merging the two halves in place leaves the array holding the merge sort
   * of the block, with the rest as it was.
   */
  lemma MergeSortLevel(a0: seq<int>, low: int, mid: int, high: int)
    requires 0 <= low <= mid < high < |a0| && mid == low + (high - low) / 2
    ensures MergeBlock(SortBlock(SortBlock(a0, low, mid), mid + 1, high), low, mid, high) == SortBlock(a0, low, high)
  {
    var left0, right0 := a0[low..mid + 1], a0[mid + 1..high + 1];
    SortBothHalves(a0, low, mid, high);
    assert a0[low..high + 1] == left0 + right0;
    MergeSortStep(left0, right0);
  }

  /**
   * The counts of the same level: the inversions of the block are those of
   * its left half, those of its right half, and the tally of the merge of
   * the two sorted halves.
   */
  lemma MergeSortLevelCounts(a0: seq<int>, low: int, mid: int, high: int)
    requires 0 <= low <= mid < high < |a0| && mid == low + (high - low) / 2
    ensures Inv(a0[low..high + 1])
            == Inv(a0[low..mid + 1]) + Inv(a0[mid + 1..high + 1])
               + TallyRun(MergeSort(a0[low..mid + 1]), MergeSort(a0[mid + 1..high + 1]), 0, 0, 0)
  {
    var left0, right0 := a0[low..mid + 1], a0[mid + 1..high + 1];
    assert a0[low..high + 1] == left0 + right0;
    MergeSortStep(left0, right0);
  }
}
