/**
  The bid-sorting benchmark: selection sort and quicksort over a vector of
  bids, both ordering the records by `title` alone, in place. The vector is
  an `array<Bid>`; `std::swap` of two elements is `Swap`.
 */
module VectorSorting {
  import opened StringOrder

  /** A bid record. `amount` is carried along unchanged; its parsing is not modelled. */
  datatype Bid = Bid(bidId: string, title: string, fund: string, amount: real)

  /** Titles are non-decreasing over the whole sequence. */
  predicate Sorted(s: seq<Bid>) {
    forall i, j :: 0 <= i < j < |s| ==> LessEq(s[i].title, s[j].title)
  }

  /** Every title in `s` is at most `p`. */
  predicate AllAtMost(s: seq<Bid>, p: string) {
    forall k :: 0 <= k < |s| ==> LessEq(s[k].title, p)
  }

  /** Every title in `s` is at least `p`. */
  predicate AllAtLeast(s: seq<Bid>, p: string) {
    forall k :: 0 <= k < |s| ==> LessEq(p, s[k].title)
  }

  /** `std::swap(bids.at(i), bids.at(j))` */
  method Swap(a: array<Bid>, i: int, j: int)
    requires 0 <= i < a.Length && 0 <= j < a.Length
    modifies a
    ensures a[..] == old(a[..])[i := old(a[j])][j := old(a[i])]
    ensures multiset(a[..]) == multiset(old(a[..]))
  {
    a[i], a[j] := a[j], a[i];
  }

  // ---------------------------------------------------------------------
  // Selection sort
  // ---------------------------------------------------------------------

  /**
    The inner loop of `selectionSort`: the index of the least title in
    `a[pos..]`. A later element replaces the current minimum only when it is
    strictly smaller, so among equal titles the first one wins.
   */
  method MinimumFrom(a: array<Bid>, pos: int) returns (min: int)
    requires 0 <= pos < a.Length
    ensures pos <= min < a.Length
    ensures forall k :: pos <= k < a.Length ==> LessEq(a[min].title, a[k].title)
    ensures forall k :: pos <= k < min ==> Less(a[min].title, a[k].title)
  {
    min := pos;
    for i := pos + 1 to a.Length
      invariant pos <= min < i
      invariant forall k :: pos <= k < i ==> LessEq(a[min].title, a[k].title)
      invariant forall k :: pos <= k < min ==> Less(a[min].title, a[k].title)
    {
      NotLessIsLessEq(a[i].title, a[min].title);
      if Compare(a[i].title, a[min].title) < 0 {
        forall k | pos <= k < i
          ensures Less(a[i].title, a[k].title)
        {
          LessLessEqTransitive(a[i].title, a[min].title, a[k].title);
        }
        min := i;
      }
    }
  }

  /** When `a[pos..]` is already sorted, the minimum found is `a[pos]` itself. */
  lemma MinimumOfSortedIsFirst(s: seq<Bid>, pos: int, min: int)
    requires 0 <= pos <= min < |s|
    requires Sorted(s)
    requires forall k :: pos <= k < min ==> Less(s[min].title, s[k].title)
    ensures min == pos
  {
    if pos < min {
      NotLessIsLessEq(s[min].title, s[pos].title);
    }
  }

  /** Everything before `pos` is sorted and at most everything from `pos` on. */
  ghost predicate SelectionDone(s: seq<Bid>, pos: int)
    requires 0 <= pos <= |s|
  {
    && (forall i, j :: 0 <= i < j < pos ==> LessEq(s[i].title, s[j].title))
    && (forall i, j :: 0 <= i < pos <= j < |s| ==> LessEq(s[i].title, s[j].title))
  }

  /** Swapping the least title of `s[pos..]` into `pos` extends the sorted prefix by one. */
  lemma SwapMinimumExtends(s: seq<Bid>, pos: int, min: int)
    requires 0 <= pos <= min < |s|
    requires SelectionDone(s, pos)
    requires forall k :: pos <= k < |s| ==> LessEq(s[min].title, s[k].title)
    ensures SelectionDone(s[pos := s[min]][min := s[pos]], pos + 1)
  {
    var t := s[pos := s[min]][min := s[pos]];
    forall i, j | 0 <= i < pos + 1 <= j < |t|
      ensures LessEq(t[i].title, t[j].title)
    {
      if i == pos {
        assert t[j] == s[j] || (j == min && t[j] == s[pos]);
      } else {
        assert t[j] == s[j] || t[j] == s[pos];
      }
    }
  }

  /**
    `selectionSort`: for every position, swap the least remaining title into
    it (only when it is not already there). The result is sorted and a
    permutation of the input, and an already sorted vector is left exactly
    as it was.
   */
  method SelectionSort(a: array<Bid>)
    modifies a
    ensures Sorted(a[..])
    ensures multiset(a[..]) == multiset(old(a[..]))
    ensures Sorted(old(a[..])) ==> a[..] == old(a[..])
  {
    var n := a.Length;
    for pos := 0 to n
      invariant SelectionDone(a[..], pos)
      invariant multiset(a[..]) == multiset(old(a[..]))
      invariant Sorted(old(a[..])) ==> a[..] == old(a[..])
    {
      var min := MinimumFrom(a, pos);
      if Sorted(old(a[..])) {
        MinimumOfSortedIsFirst(a[..], pos, min);
      }
      SwapMinimumExtends(a[..], pos, min);
      if min != pos {
        Swap(a, pos, min);
      } else {
        assert a[..][pos := a[min]][min := a[pos]] == a[..];
      }
    }
    assert SelectionDone(a[..], n);
  }

  // ---------------------------------------------------------------------
  // Quicksort
  // ---------------------------------------------------------------------

  /**
    `begin + (end - begin) / 2`: the lower middle of `[begin, end]`, so it
    lies in `[begin, end)` and splits the range as evenly as possible.
   */
  function Midpoint(begin: int, end: int): (m: int)
    requires begin < end
    ensures begin <= m < end
    ensures m - begin <= end - m <= m - begin + 1
  {
    begin + (end - begin) / 2
  }

  /** Titles are non-decreasing over the positions `[lo, hi)` of `s`. */
  ghost predicate SortedRange(s: seq<Bid>, lo: int, hi: int)
    requires 0 <= lo <= hi <= |s|
  {
    forall i, j :: lo <= i < j < hi ==> LessEq(s[i].title, s[j].title)
  }

  /**
    `s` is `t` with the positions `[lo, hi)` rearranged: both agree outside
    them, and the elements inside form the same multiset.
   */
  ghost predicate RangePermuted(s: seq<Bid>, t: seq<Bid>, lo: int, hi: int)
    requires 0 <= lo <= hi <= |s| == |t|
  {
    && s[..lo] == t[..lo]
    && s[hi..] == t[hi..]
    && multiset(s[lo..hi]) == multiset(t[lo..hi])
  }

  lemma RangePermutedTransitive(s: seq<Bid>, t: seq<Bid>, u: seq<Bid>, lo: int, hi: int)
    requires 0 <= lo <= hi <= |s| == |t| == |u|
    requires RangePermuted(s, t, lo, hi) && RangePermuted(t, u, lo, hi)
    ensures RangePermuted(s, u, lo, hi)
  {
  }

  /** Rearranging one range keeps the multiset of the whole sequence. */
  lemma RangePermutedWhole(s: seq<Bid>, t: seq<Bid>, lo: int, hi: int)
    requires 0 <= lo <= hi <= |s| == |t|
    requires RangePermuted(s, t, lo, hi)
    ensures multiset(s) == multiset(t)
  {
    assert s == s[..lo] + s[lo..hi] + s[hi..];
    assert t == t[..lo] + t[lo..hi] + t[hi..];
  }

  /** The titles at positions `[begin, low)` are at most `p`. */
  ghost predicate AtMostBelow(s: seq<Bid>, begin: int, low: int, p: string)
    requires 0 <= begin && low <= |s|
  {
    forall k :: begin <= k < low ==> LessEq(s[k].title, p)
  }

  /** The titles at positions `(high, end]` are at least `p`. */
  ghost predicate AtLeastAbove(s: seq<Bid>, high: int, end: int, p: string)
    requires -1 <= high && end < |s|
  {
    forall k :: high < k <= end ==> LessEq(p, s[k].title)
  }

  /**
    Exchanging two positions inside `[lo, hi)` of `s`, itself `s0` with only
    that range rearranged, gives `s0` with only that range rearranged.
   */
  lemma SwapRangePermuted(s0: seq<Bid>, s: seq<Bid>, t: seq<Bid>, lo: int, hi: int, i: int, j: int)
    requires 0 <= lo <= i < j < hi <= |s| == |s0|
    requires RangePermuted(s, s0, lo, hi)
    requires t == s[i := s[j]][j := s[i]]
    ensures RangePermuted(t, s0, lo, hi)
  {
    assert t[lo..hi] == s[lo..hi][i - lo := s[j]][j - lo := s[i]];
    assert t[..lo] == s[..lo];
    assert t[hi..] == s[hi..];
  }

  /**
    What `partition` keeps while it runs, for the scan positions `low` and
    `high`: the titles it has passed on the left are at most the pivot, those
    it has passed on the right at least the pivot, and `s` is `s0` with only
    `[begin, end]` rearranged.
   */
  ghost predicate Partitioning(s: seq<Bid>, s0: seq<Bid>, begin: int, end: int, low: int, high: int, p: string)
    requires 0 <= begin <= end < |s| == |s0| && low <= |s| && -1 <= high
  {
    && AtMostBelow(s, begin, low, p)
    && AtLeastAbove(s, high, end, p)
    && RangePermuted(s, s0, begin, end + 1)
  }

  /**
    The bounds half of one exchange of `partition`: with `s[low]` at least
    and `s[high]` at most the pivot, swapping them lets both scanned regions
    grow by one and leaves a title at least the pivot at `high` and one at
    most the pivot at `low` for the next scans to stop at.
   */
  lemma SwapExtendsBounds(s: seq<Bid>, t: seq<Bid>, begin: int, end: int, low: int, high: int, p: string)
    requires 0 <= begin <= low < high <= end < |s|
    requires AtMostBelow(s, begin, low, p) && AtLeastAbove(s, high, end, p)
    requires LessEq(p, s[low].title) && LessEq(s[high].title, p)
    requires t == s[low := s[high]][high := s[low]]
    ensures AtMostBelow(t, begin, low + 1, p) && AtLeastAbove(t, high - 1, end, p)
    ensures LessEq(p, t[high].title) && LessEq(t[low].title, p)
  {
  }

  /** One exchange of `partition` keeps what it maintains, for the next scan positions. */
  lemma PartitionSwapStep(s0: seq<Bid>, s: seq<Bid>, t: seq<Bid>, begin: int, end: int, low: int, high: int, p: string)
    requires 0 <= begin <= low < high <= end < |s| == |s0|
    requires AtMostBelow(s, begin, low, p) && AtLeastAbove(s, high, end, p)
    requires RangePermuted(s, s0, begin, end + 1)
    requires LessEq(p, s[low].title) && LessEq(s[high].title, p)
    requires t == s[low := s[high]][high := s[low]]
    ensures Partitioning(t, s0, begin, end, low + 1, high - 1, p)
    ensures LessEq(p, t[high].title) && LessEq(t[low].title, p)
  {
    SwapExtendsBounds(s, t, begin, end, low, high, p);
    SwapRangePermuted(s0, s, t, begin, end + 1, low, high);
  }

  /**
    The first scan of `partition`: `++low` while the title at `low` is below
    the pivot. A title at least the pivot at `stop` makes it halt there at
    the latest, so it never leaves `[low, stop]`.
   */
  method ScanUp(a: array<Bid>, begin: int, low: int, ghost stop: int, pivot: string) returns (l: int)
    requires 0 <= begin <= low <= stop < a.Length
    requires LessEq(pivot, a[stop].title)
    requires AtMostBelow(a[..], begin, low, pivot)
    ensures low <= l <= stop
    ensures AtMostBelow(a[..], begin, l, pivot)
    ensures LessEq(pivot, a[l].title)
  {
    l := low;
    NotLessIsLessEq(a[stop].title, pivot);
    while Compare(a[l].title, pivot) < 0
      invariant low <= l <= stop
      invariant AtMostBelow(a[..], begin, l, pivot)
      decreases stop - l
    {
      l := l + 1;
    }
    NotLessIsLessEq(a[l].title, pivot);
  }

  /**
    The second scan of `partition`: `--high` while the pivot is below the
    title at `high`. A title at most the pivot at `stop` makes it halt there
    at the latest, so it never leaves `[stop, high]`.
   */
  method ScanDown(a: array<Bid>, end: int, high: int, ghost stop: int, pivot: string) returns (h: int)
    requires 0 <= stop <= high <= end < a.Length
    requires LessEq(a[stop].title, pivot)
    requires AtLeastAbove(a[..], high, end, pivot)
    ensures stop <= h <= high
    ensures AtLeastAbove(a[..], h, end, pivot)
    ensures LessEq(a[h].title, pivot)
  {
    h := high;
    NotLessIsLessEq(pivot, a[stop].title);
    while Compare(pivot, a[h].title) < 0
      invariant stop <= h <= high
      invariant AtLeastAbove(a[..], h, end, pivot)
      decreases h - stop
    {
      h := h - 1;
    }
    NotLessIsLessEq(pivot, a[h].title);
  }

  /**
    `partition` for `begin < end`: a Hoare partition around the title found
    at the midpoint. The scans carry no bounds checks of their own; they stay
    inside `[begin, end]` because a title at least (respectively at most) the
    pivot always remains ahead of them, at the ghost indices `lstop` and
    `hstop`. The split returned lies in `[begin, end - 1]`, so both halves
    handed to the recursion are shorter than the range. Afterwards every
    title up to the split is at most the pivot, every title after it at
    least the pivot, and only `[begin, end]` has been rearranged.
   */
  method Partition(a: array<Bid>, begin: int, end: int) returns (high: int)
    requires 0 <= begin < end < a.Length
    modifies a
    ensures begin <= high < end
    ensures AtMostBelow(a[..], begin, high + 1, old(a[Midpoint(begin, end)].title))
    ensures AtLeastAbove(a[..], high, end, old(a[Midpoint(begin, end)].title))
    ensures RangePermuted(a[..], old(a[..]), begin, end + 1)
  {
    var midpoint := Midpoint(begin, end);
    var pivot := a[midpoint].title;
    var low := begin;
    high := end;
    var done := false;
    ghost var lstop, hstop := midpoint, midpoint;
    while !done
      invariant begin <= low <= lstop <= end
      invariant begin <= hstop <= high <= end
      invariant LessEq(pivot, a[lstop].title) && LessEq(a[hstop].title, pivot)
      invariant high == end ==> lstop < end
      invariant Partitioning(a[..], old(a[..]), begin, end, low, high, pivot)
      invariant !done ==> low <= high + 1
      invariant done ==> high <= low && high < end && LessEq(a[high].title, pivot)
      decreases if done then 0 else high - low + 2
    {
      low := ScanUp(a, begin, low, lstop, pivot);
      high := ScanDown(a, end, high, hstop, pivot);
      if low >= high {
        done := true;
      } else {
        ghost var before := a[..];
        Swap(a, low, high);
        PartitionSwapStep(old(a[..]), before, a[..], begin, end, low, high, pivot);
        lstop, hstop := high, low;
        low := low + 1;
        high := high - 1;
      }
    }
  }

  /** A range of at most one position is trivially a sorted rearrangement of itself. */
  lemma ShortRangeSorted(s: seq<Bid>, lo: int, hi: int)
    requires 0 <= lo <= hi <= |s| && hi <= lo + 1
    ensures SortedRange(s, lo, hi) && RangePermuted(s, s, lo, hi)
  {
  }

  /** Bounds on every title survive any permutation. */
  lemma PermutationKeepsBounds(s: seq<Bid>, t: seq<Bid>, p: string)
    requires multiset(s) == multiset(t)
    ensures AllAtMost(s, p) ==> AllAtMost(t, p)
    ensures AllAtLeast(s, p) ==> AllAtLeast(t, p)
  {
    forall k | 0 <= k < |t|
      ensures exists i :: 0 <= i < |s| && s[i] == t[k]
    {
      assert t[k] in multiset(t);
    }
  }

  /**
    The step that makes quicksort correct: `s1` is partitioned at `mid`
    around `p`; `s2` sorts `[begin, mid]` of it and `s3` sorts
    `[mid + 1, end]` of that. Then `[begin, end]` of `s3` is sorted and a
    rearrangement of `[begin, end]` of `s1`.
   */
  lemma SortedHalvesCombine(s1: seq<Bid>, s2: seq<Bid>, s3: seq<Bid>, begin: int, mid: int, end: int, p: string)
    requires 0 <= begin <= mid < end < |s1| == |s2| == |s3|
    requires AtMostBelow(s1, begin, mid + 1, p) && AtLeastAbove(s1, mid, end, p)
    requires SortedRange(s2, begin, mid + 1) && RangePermuted(s2, s1, begin, mid + 1)
    requires SortedRange(s3, mid + 1, end + 1) && RangePermuted(s3, s2, mid + 1, end + 1)
    ensures SortedRange(s3, begin, end + 1) && RangePermuted(s3, s1, begin, end + 1)
  {
    HalvesSorted(s1, s2, s3, begin, mid, end, p);
    HalvesPermuted(s1, s2, s3, begin, mid, end);
  }

  /** The sortedness half of `SortedHalvesCombine`. */
  lemma HalvesSorted(s1: seq<Bid>, s2: seq<Bid>, s3: seq<Bid>, begin: int, mid: int, end: int, p: string)
    requires 0 <= begin <= mid < end < |s1| == |s2| == |s3|
    requires AtMostBelow(s1, begin, mid + 1, p) && AtLeastAbove(s1, mid, end, p)
    requires SortedRange(s2, begin, mid + 1) && RangePermuted(s2, s1, begin, mid + 1)
    requires SortedRange(s3, mid + 1, end + 1) && RangePermuted(s3, s2, mid + 1, end + 1)
    ensures SortedRange(s3, begin, end + 1)
  {
    assert AllAtMost(s1[begin..mid + 1], p);
    assert AllAtLeast(s1[mid + 1..end + 1], p);
    PermutationKeepsBounds(s1[begin..mid + 1], s2[begin..mid + 1], p);
    assert s2[mid + 1..end + 1] == s1[mid + 1..end + 1] by {
      assert s2[mid + 1..] == s1[mid + 1..];
    }
    PermutationKeepsBounds(s2[mid + 1..end + 1], s3[mid + 1..end + 1], p);
    assert s3[begin..mid + 1] == s2[begin..mid + 1] by {
      assert s3[..mid + 1] == s2[..mid + 1];
    }
    forall i, j | begin <= i < j <= end
      ensures LessEq(s3[i].title, s3[j].title)
    {
      if j <= mid {
        assert s3[i] == s2[i] && s3[j] == s2[j];
      } else if mid < i {
      } else {
        assert s3[i] == s2[begin..mid + 1][i - begin];
        assert s3[j] == s3[mid + 1..end + 1][j - mid - 1];
        LessEqTransitive(s3[i].title, p, s3[j].title);
      }
    }
  }

  /** Rearranging two adjacent ranges one after the other rearranges their union. */
  lemma HalvesPermuted(s1: seq<Bid>, s2: seq<Bid>, s3: seq<Bid>, begin: int, mid: int, end: int)
    requires 0 <= begin <= mid < end < |s1| == |s2| == |s3|
    requires RangePermuted(s2, s1, begin, mid + 1)
    requires RangePermuted(s3, s2, mid + 1, end + 1)
    ensures RangePermuted(s3, s1, begin, end + 1)
  {
    assert s2[mid + 1..end + 1] == s1[mid + 1..end + 1] by {
      assert s2[mid + 1..] == s1[mid + 1..];
    }
    assert s3[begin..mid + 1] == s2[begin..mid + 1] by {
      assert s3[..mid + 1] == s2[..mid + 1];
    }
    assert s3[..begin] == s1[..begin] by {
      assert s3[..begin] == s3[..mid + 1][..begin];
      assert s2[..begin] == s2[..mid + 1][..begin];
    }
    assert s3[end + 1..] == s1[end + 1..] by {
      assert s2[end + 1..] == s2[mid + 1..][end - mid..];
      assert s1[end + 1..] == s1[mid + 1..][end - mid..];
    }
    calc {
      multiset(s3[begin..end + 1]);
      { assert s3[begin..end + 1] == s3[begin..mid + 1] + s3[mid + 1..end + 1]; }
      multiset(s2[begin..mid + 1]) + multiset(s2[mid + 1..end + 1]);
      multiset(s1[begin..mid + 1]) + multiset(s1[mid + 1..end + 1]);
      { assert s1[begin..end + 1] == s1[begin..mid + 1] + s1[mid + 1..end + 1]; }
      multiset(s1[begin..end + 1]);
    }
  }

  /**
    What a recursive `quickSort` call on `[lo, hi)` leaves behind, whether
    it sorted the range or returned at once on a range of one element.
   */
  lemma RecursionDone(s: seq<Bid>, t: seq<Bid>, lo: int, hi: int)
    requires 0 <= lo < hi <= |s| == |t|
    requires lo + 1 < hi ==> SortedRange(t, lo, hi) && RangePermuted(t, s, lo, hi)
    requires lo + 1 >= hi ==> t == s
    ensures SortedRange(t, lo, hi) && RangePermuted(t, s, lo, hi)
  {
    if lo + 1 == hi {
      ShortRangeSorted(t, lo, hi);
    }
  }

  /**
    The facts `quickSort` has after its three calls, with the two recursive
    calls' postconditions as they are stated (a range of at most one element
    is left alone): `[begin, end]` of `s3` is then sorted and a rearrangement
    of `[begin, end]` of `s0`.
   */
  lemma QuickSortStep(s0: seq<Bid>, s1: seq<Bid>, s2: seq<Bid>, s3: seq<Bid>,
                      begin: int, mid: int, end: int, p: string)
    requires 0 <= begin <= mid < end < |s0| == |s1| == |s2| == |s3|
    requires RangePermuted(s1, s0, begin, end + 1)
    requires AtMostBelow(s1, begin, mid + 1, p) && AtLeastAbove(s1, mid, end, p)
    requires begin < mid ==> SortedRange(s2, begin, mid + 1)
    requires begin < mid ==> RangePermuted(s2, s1, begin, mid + 1)
    requires begin >= mid ==> s2 == s1
    requires mid + 1 < end ==> SortedRange(s3, mid + 1, end + 1)
    requires mid + 1 < end ==> RangePermuted(s3, s2, mid + 1, end + 1)
    requires mid + 1 >= end ==> s3 == s2
    ensures SortedRange(s3, begin, end + 1) && RangePermuted(s3, s0, begin, end + 1)
  {
    RecursionDone(s1, s2, begin, mid + 1);
    RecursionDone(s2, s3, mid + 1, end + 1);
    SortedHalvesCombine(s1, s2, s3, begin, mid, end, p);
    RangePermutedTransitive(s3, s1, s0, begin, end + 1);
  }

  /**
    `quickSort(bids, begin, end)` with `end` inclusive. A range of at most
    one element (`begin >= end`, which includes the call with `end = -1` on
    an empty vector) is returned untouched; otherwise the range is
    partitioned and both halves are sorted recursively. Afterwards
    `[begin, end]` is sorted by title and a rearrangement of what it held,
    and nothing outside it has changed.
   */
  method QuickSort(a: array<Bid>, begin: int, end: int)
    requires begin < end ==> 0 <= begin && end < a.Length
    modifies a
    ensures begin < end ==> SortedRange(a[..], begin, end + 1)
    ensures begin < end ==> RangePermuted(a[..], old(a[..]), begin, end + 1)
    ensures begin >= end ==> a[..] == old(a[..])
    decreases end - begin
  {
    if begin >= end {
      return;
    }
    ghost var s0 := a[..];
    ghost var pivot := a[Midpoint(begin, end)].title;
    var mid := Partition(a, begin, end);
    ghost var s1 := a[..];
    QuickSort(a, begin, mid);
    ghost var s2 := a[..];
    QuickSort(a, mid + 1, end);
    QuickSortStep(s0, s1, s2, a[..], begin, mid, end, pivot);
  }

  /**
    The call in the menu, `quickSort(bids, 0, bids.size() - 1)`: the whole
    vector ends sorted by title and a permutation of what it held.
   */
  method QuickSortAll(a: array<Bid>)
    modifies a
    ensures Sorted(a[..])
    ensures multiset(a[..]) == multiset(old(a[..]))
  {
    QuickSort(a, 0, a.Length - 1);
    if a.Length > 1 {
      RangePermutedWhole(a[..], old(a[..]), 0, a.Length);
    }
  }

  // ---------------------------------------------------------------------
  // The strip step of strToDouble
  // ---------------------------------------------------------------------

  /**
    `str.erase(remove(str.begin(), str.end(), ch), str.end())`: `s` with
    every occurrence of `ch` removed. No `ch` is left, and every other
    character occurs exactly as often as before.
   */
  function Strip(s: string, ch: char): (r: string)
    ensures |r| <= |s|
    ensures ch !in r
    ensures multiset(r) == multiset(s)[ch := 0]
  {
    if s == [] then []
    else
      assert s == [s[0]] + s[1..];
      if s[0] == ch then Strip(s[1..], ch) else [s[0]] + Strip(s[1..], ch)
  }

  /**
    Stripping works character by character: it distributes over
    concatenation. With `StripOne` this pins down the order too, since
    every string is a concatenation of single characters.
   */
  lemma {:induction false} StripAppend(s: string, t: string, ch: char)
    ensures Strip(s + t, ch) == Strip(s, ch) + Strip(t, ch)
  {
    if s == [] {
      assert s + t == t;
    } else {
      assert (s + t)[1..] == s[1..] + t;
      StripAppend(s[1..], t, ch);
    }
  }

  /** A single character is dropped when it is `ch` and kept otherwise. */
  lemma StripOne(c: char, ch: char)
    ensures Strip([c], ch) == if c == ch then [] else [c]
  {
    assert [c][1..] == [];
  }

  /** A string without `ch` is returned unchanged. */
  lemma {:induction false} StripAbsent(s: string, ch: char)
    requires ch !in s
    ensures Strip(s, ch) == s
  {
    if s != [] {
      assert s == [s[0]] + s[1..];
      StripAbsent(s[1..], ch);
    }
  }

  /** Stripping twice is stripping once. */
  lemma StripIdempotent(s: string, ch: char)
    ensures Strip(Strip(s, ch), ch) == Strip(s, ch)
  {
    StripAbsent(Strip(s, ch), ch);
  }
}
