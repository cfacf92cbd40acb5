/**
 * `quick_part` and `quick_sort` of A4/huffman.py: Lomuto quicksort of the
 * entries of `raw_data` by weight, in place.
 */
module HuffmanSort {
  import opened HuffmanTree

  /** Positions lo..hi of s are in nondecreasing order of weight. */
  ghost predicate SortedBetween(s: seq<Entry>, lo: int, hi: int)
    requires 0 <= lo && hi < |s|
  {
    forall x, y :: lo <= x < y <= hi ==> WeightAt(s, x) <= WeightAt(s, y)
  }

  /** t is s with positions lo..hi rearranged and every other position kept. */
  ghost predicate Rearranged(s: seq<Entry>, t: seq<Entry>, lo: int, hi: int)
    requires 0 <= lo <= hi + 1 <= |s|
  {
    Outside(s, t, lo, hi) && multiset(s) == multiset(t)
  }

  /** t has the length of s and agrees with it outside lo..hi. */
  ghost predicate Outside(s: seq<Entry>, t: seq<Entry>, lo: int, hi: int)
    requires 0 <= lo <= hi + 1 <= |s|
  {
    && |t| == |s|
    && s[..lo] == t[..lo]
    && s[hi + 1..] == t[hi + 1..]
  }

  /**
   * `quick_part`: puts the last entry of lo..hi at the returned position,
   * the lighter entries before it and the others after it.
   */
  method QuickPart(a: array<Entry>, lo: int, hi: int) returns (p: int)
    requires 0 <= lo <= hi < a.Length
    modifies a
    ensures lo <= p <= hi
    ensures Split(a[..], lo, p, hi + 1, a[p].weight)
    ensures Rearranged(old(a[..]), a[..], lo, hi)
  {
    ghost var s0 := a[..];
    var i := lo - 1;
    var pivot := a[hi];
    for j := lo to hi
      invariant Partitioning(s0, a[..], lo, hi, i, j, pivot)
      invariant multiset(a[..]) == multiset(s0)
    {
      if a[j].weight < pivot.weight {
        PartGrow(s0, a[..], lo, hi, i, j, pivot);
        i := i + 1;
        Swap(a, i, j);
      } else {
        PartKeep(s0, a[..], lo, hi, i, j, pivot);
      }
    }
    PartDone(s0, a[..], lo, hi, i, pivot);
    Swap(a, i + 1, hi);
    p := i + 1;
  }

  /** Exchanges two entries of the array, the tuple assignment of the source. */
  method Swap(a: array<Entry>, x: int, y: int)
    requires 0 <= x < a.Length && 0 <= y < a.Length
    modifies a
    ensures a[..] == old(a[..])[x := old(a[y])][y := old(a[x])]
    ensures multiset(a[..]) == multiset(old(a[..]))
  {
    a[x], a[y] := a[y], a[x];
  }

  /**
   * Positions lo..m-1 of s weigh less than w and positions m..j-1 at least w.
   */
  ghost predicate Split(s: seq<Entry>, lo: int, m: int, j: int, w: int)
    requires 0 <= lo <= m <= j <= |s|
  {
    && (forall k :: lo <= k < m ==> WeightAt(s, k) < w)
    && (forall k :: m <= k < j ==> WeightAt(s, k) >= w)
  }

  /** The weight of the entry at position k. */
  ghost function WeightAt(s: seq<Entry>, k: int): int
    requires 0 <= k < |s|
  {
    s[k].weight
  }

  /**
   * The loop invariant of `quick_part` after the entries lo..j-1 have been
   * looked at: s rearranges lo..hi of s0, the pivot is still at hi, and
   * lo..i are lighter than it and i+1..j-1 are not.
   */
  ghost predicate Partitioning(s0: seq<Entry>, s: seq<Entry>, lo: int, hi: int, i: int, j: int, pivot: Entry)
  {
    && 0 <= lo <= j <= hi < |s0|
    && lo - 1 <= i < j
    && Outside(s0, s, lo, hi)
    && s[hi] == pivot
    && Split(s, lo, i + 1, j, pivot.weight)
  }

  /** A lighter entry at j is swapped to the end of the lighter part. */
  lemma PartGrow(s0: seq<Entry>, s: seq<Entry>, lo: int, hi: int, i: int, j: int, pivot: Entry)
    requires Partitioning(s0, s, lo, hi, i, j, pivot) && j < hi && s[j].weight < pivot.weight
    ensures Partitioning(s0, s[i + 1 := s[j]][j := s[i + 1]], lo, hi, i + 1, j + 1, pivot)
  {
    SwapOutside(s0, s, lo, hi, i + 1, j);
    SplitGrow(s, lo, i + 1, j, pivot.weight);
  }

  /** An entry at j that is not lighter extends the heavier part. */
  lemma PartKeep(s0: seq<Entry>, s: seq<Entry>, lo: int, hi: int, i: int, j: int, pivot: Entry)
    requires Partitioning(s0, s, lo, hi, i, j, pivot) && j < hi && s[j].weight >= pivot.weight
    ensures Partitioning(s0, s, lo, hi, i, j + 1, pivot)
  {
    SplitKeep(s, lo, i + 1, j, pivot.weight);
  }

  /** The final swap puts the pivot between the two parts. */
  lemma PartDone(s0: seq<Entry>, s: seq<Entry>, lo: int, hi: int, i: int, pivot: Entry)
    requires Partitioning(s0, s, lo, hi, i, hi, pivot)
    ensures var t := s[i + 1 := s[hi]][hi := s[i + 1]];
      Outside(s0, t, lo, hi) && t[i + 1] == pivot && Split(t, lo, i + 1, hi + 1, pivot.weight)
  {
    SwapOutside(s0, s, lo, hi, i + 1, hi);
    SplitPivot(s, lo, i + 1, hi, pivot);
  }

  /** A light entry at j swaps to the end of the light part. */
  lemma SplitGrow(s: seq<Entry>, lo: int, m: int, j: int, w: int)
    requires 0 <= lo <= m <= j < |s| && Split(s, lo, m, j, w) && s[j].weight < w
    ensures Split(s[m := s[j]][j := s[m]], lo, m + 1, j + 1, w)
  {
    var t := s[m := s[j]][j := s[m]];
    forall k | lo <= k <= j
      ensures WeightAt(t, k) == if k == m then WeightAt(s, j) else if k == j then WeightAt(s, m) else WeightAt(s, k)
    {
    }
  }

  /** A heavy entry at j extends the heavy part. */
  lemma SplitKeep(s: seq<Entry>, lo: int, m: int, j: int, w: int)
    requires 0 <= lo <= m <= j < |s| && Split(s, lo, m, j, w) && s[j].weight >= w
    ensures Split(s, lo, m, j + 1, w)
  {
  }

  /** Swapping the pivot at hi into position m separates the two parts. */
  lemma SplitPivot(s: seq<Entry>, lo: int, m: int, hi: int, pivot: Entry)
    requires 0 <= lo <= m <= hi < |s| && Split(s, lo, m, hi, pivot.weight) && s[hi] == pivot
    ensures Split(s[m := s[hi]][hi := s[m]], lo, m, hi + 1, pivot.weight)
  {
    var t := s[m := s[hi]][hi := s[m]];
    forall k | lo <= k <= hi
      ensures WeightAt(t, k) == if k == m then WeightAt(s, hi) else if k == hi then WeightAt(s, m) else WeightAt(s, k)
    {
    }
  }

  /**
   * `quick_sort`: sorts positions lo..hi by weight, leaving the rest of the
   * array alone; a range of at most one entry is left as it is.
   */
  method QuickSort(a: array<Entry>, lo: int, hi: int)
    requires 0 <= lo && hi < a.Length
    modifies a
    ensures lo < hi ==> Rearranged(old(a[..]), a[..], lo, hi) && SortedBetween(a[..], lo, hi)
    ensures lo >= hi ==> a[..] == old(a[..])
    decreases hi - lo
  {
    if lo < hi {
      var p := QuickPart(a, lo, hi);
      ghost var parted := a[..];
      QuickSort(a, lo, p - 1);
      ghost var left := a[..];
      QuickSort(a, p + 1, hi);
      SortedParts(old(a[..]), parted, left, a[..], lo, p, hi);
    }
  }

  /**
   * Partitioning around position p and then sorting both sides sorts lo..hi
   * and only rearranges it.
   */
  lemma SortedParts(s: seq<Entry>, parted: seq<Entry>, left: seq<Entry>, t: seq<Entry>, lo: int, p: int, hi: int)
    requires 0 <= lo <= p <= hi < |s|
    requires Rearranged(s, parted, lo, hi)
    requires Split(parted, lo, p, hi + 1, parted[p].weight)
    requires lo < p - 1 ==> Rearranged(parted, left, lo, p - 1) && SortedBetween(left, lo, p - 1)
    requires lo >= p - 1 ==> left == parted
    requires p + 1 < hi ==> Rearranged(left, t, p + 1, hi) && SortedBetween(t, p + 1, hi)
    requires p + 1 >= hi ==> t == left
    ensures Rearranged(s, t, lo, hi) && SortedBetween(t, lo, hi)
  {
    LeftSorted(parted, left, lo, p, hi);
    RightSorted(left, t, lo, p, hi);
    SortedJoin(t, lo, p, hi);
    RearrangedTrans(s, parted, left, lo, hi);
    RearrangedTrans(s, left, t, lo, hi);
  }

  /** Sorting the lighter side keeps the partition around p. */
  lemma LeftSorted(parted: seq<Entry>, left: seq<Entry>, lo: int, p: int, hi: int)
    requires 0 <= lo <= p <= hi < |parted|
    requires Split(parted, lo, p, hi + 1, parted[p].weight)
    requires lo < p - 1 ==> Rearranged(parted, left, lo, p - 1)
    requires lo >= p - 1 ==> left == parted
    ensures Rearranged(parted, left, lo, hi) && left[p] == parted[p]
    ensures Split(left, lo, p, hi + 1, parted[p].weight)
  {
    if lo < p - 1 {
      LighterStay(parted, left, lo, p - 1, parted[p].weight);
      Widen(parted, left, lo, hi, lo, p - 1);
      assert left[p..] == parted[p..];
      forall k | p <= k <= hi
        ensures WeightAt(left, k) == WeightAt(parted, k)
      {
        assert left[k] == left[p..][k - p];
      }
    }
  }

  /** Sorting the heavier side keeps the partition and the sorted lighter side. */
  lemma RightSorted(left: seq<Entry>, t: seq<Entry>, lo: int, p: int, hi: int)
    requires 0 <= lo <= p <= hi < |left|
    requires Split(left, lo, p, hi + 1, left[p].weight)
    requires lo < p - 1 ==> SortedBetween(left, lo, p - 1)
    requires p + 1 < hi ==> Rearranged(left, t, p + 1, hi)
    requires p + 1 >= hi ==> t == left
    ensures Rearranged(left, t, lo, hi) && t[p] == left[p]
    ensures Split(t, lo, p, hi + 1, left[p].weight)
    ensures lo < p - 1 ==> SortedBetween(t, lo, p - 1)
  {
    if p + 1 < hi {
      HeavierStay(left, t, p + 1, hi, left[p].weight);
      Widen(left, t, lo, hi, p + 1, hi);
      assert t[..p + 1] == left[..p + 1];
      forall k | lo <= k <= p
        ensures WeightAt(t, k) == WeightAt(left, k)
      {
        assert t[k] == t[..p + 1][k];
      }
    }
  }

  /** A rearrangement of lo..hi keeps the entries of lo..hi. */
  lemma RearrangedMiddle(s: seq<Entry>, t: seq<Entry>, lo: int, hi: int)
    requires 0 <= lo <= hi + 1 <= |s|
    requires Rearranged(s, t, lo, hi)
    ensures multiset(s[lo..hi + 1]) == multiset(t[lo..hi + 1])
  {
    var outer := multiset(s[..lo]) + multiset(s[hi + 1..]);
    assert s == s[..lo] + s[lo..hi + 1] + s[hi + 1..];
    assert t == t[..lo] + t[lo..hi + 1] + t[hi + 1..];
    assert multiset(s) == outer + multiset(s[lo..hi + 1]);
    assert multiset(t) == outer + multiset(t[lo..hi + 1]);
    Cancel(outer, multiset(s[lo..hi + 1]), multiset(t[lo..hi + 1]));
  }

  /** Rearranging twice is rearranging. */
  lemma RearrangedTrans(s: seq<Entry>, t: seq<Entry>, u: seq<Entry>, lo: int, hi: int)
    requires 0 <= lo <= hi + 1 <= |s|
    requires Rearranged(s, t, lo, hi) && Rearranged(t, u, lo, hi)
    ensures Rearranged(s, u, lo, hi)
  {
  }

  /** Two sorted halves around an entry that separates them are sorted. */
  lemma SortedJoin(s: seq<Entry>, lo: int, p: int, hi: int)
    requires 0 <= lo <= p <= hi < |s|
    requires lo < p - 1 ==> SortedBetween(s, lo, p - 1)
    requires p + 1 < hi ==> SortedBetween(s, p + 1, hi)
    requires Split(s, lo, p, hi + 1, s[p].weight)
    ensures SortedBetween(s, lo, hi)
  {
  }

  /** Swapping two positions inside lo..hi keeps the rest of s0. */
  lemma SwapOutside(s0: seq<Entry>, s: seq<Entry>, lo: int, hi: int, x: int, y: int)
    requires 0 <= lo <= x <= hi && lo <= y <= hi && hi < |s0|
    requires Outside(s0, s, lo, hi)
    ensures Outside(s0, s[x := s[y]][y := s[x]], lo, hi)
  {
    var t := s[x := s[y]][y := s[x]];
    assert t[..lo] == s[..lo];
    assert t[hi + 1..] == s[hi + 1..];
  }

  /** Rearranging a part of lo..hi rearranges lo..hi. */
  lemma Widen(s: seq<Entry>, t: seq<Entry>, lo: int, hi: int, lo': int, hi': int)
    requires 0 <= lo <= lo' <= hi' + 1 <= hi + 1 <= |s|
    requires Rearranged(s, t, lo', hi')
    ensures Rearranged(s, t, lo, hi)
  {
    assert s[lo..hi + 1] == s[lo..lo'] + s[lo'..hi' + 1] + s[hi' + 1..hi + 1];
    assert t[lo..hi + 1] == t[lo..lo'] + t[lo'..hi' + 1] + t[hi' + 1..hi + 1];
    assert s[lo..lo'] == s[..lo'][lo..];
    assert t[lo..lo'] == t[..lo'][lo..];
    assert s[hi' + 1..hi + 1] == s[hi' + 1..][..hi - hi'];
    assert t[hi' + 1..hi + 1] == t[hi' + 1..][..hi - hi'];
  }

  /** Entries lighter than w stay lighter than w when rearranged among themselves. */
  lemma LighterStay(s: seq<Entry>, t: seq<Entry>, lo: int, hi: int, w: int)
    requires 0 <= lo <= hi < |s|
    requires Rearranged(s, t, lo, hi)
    requires forall k :: lo <= k <= hi ==> WeightAt(s, k) < w
    ensures forall k :: lo <= k <= hi ==> WeightAt(t, k) < w
  {
    RearrangedMiddle(s, t, lo, hi);
    forall k | lo <= k <= hi
      ensures WeightAt(t, k) < w
    {
      assert t[k] == t[lo..hi + 1][k - lo];
      assert t[k] in multiset(s[lo..hi + 1]);
      var k' :| lo <= k' <= hi && s[k'] == t[k];
      assert WeightAt(s, k') == WeightAt(t, k);
    }
  }

  /** Entries at least as heavy as w stay so when rearranged among themselves. */
  lemma HeavierStay(s: seq<Entry>, t: seq<Entry>, lo: int, hi: int, w: int)
    requires 0 <= lo <= hi < |s|
    requires Rearranged(s, t, lo, hi)
    requires forall k :: lo <= k <= hi ==> WeightAt(s, k) >= w
    ensures forall k :: lo <= k <= hi ==> WeightAt(t, k) >= w
  {
    RearrangedMiddle(s, t, lo, hi);
    forall k | lo <= k <= hi
      ensures WeightAt(t, k) >= w
    {
      assert t[k] == t[lo..hi + 1][k - lo];
      assert t[k] in multiset(s[lo..hi + 1]);
      var k' :| lo <= k' <= hi && s[k'] == t[k];
      assert WeightAt(s, k') == WeightAt(t, k);
    }
  }
}
