/** Algorithem/sort/fastsort.c, the version after #else: quicksort with two closing indices. */
module FastSort {
  import opened Sorting

  method Swap(a: array<int>, x: nat, y: nat)
    requires x < a.Length && y < a.Length
    modifies a
    ensures a[..] == old(a[..])[x := old(a[y])][y := old(a[x])]
  {
    var t := a[x];
    a[x] := a[y];
    a[y] := t;
  }

  lemma SwapInRange(s: seq<int>, t: seq<int>, lo: nat, hi: nat, p: nat, q: nat)
    requires RangePermuted(s, t, lo, hi) && lo <= p <= q < hi
    ensures RangePermuted(s, t[p := t[q]][q := t[p]], lo, hi)
  {
    var u := t[p := t[q]][q := t[p]];
    if p == q {
      assert u == t;
    } else {
      ExchangedIsPermuted(t, u, p, q);
    }
  }

  /** Everything from lo up to mid is at most the pivot, which is at most everything from mid up to hi. */
  ghost predicate SplitAt(t: seq<int>, lo: nat, mid: nat, hi: nat, pivot: int) {
    && lo < mid < hi <= |t|
    && (forall x | lo <= x < mid :: t[x] <= pivot)
    && (forall x | mid <= x < hi :: pivot <= t[x])
  }

  /** Lines 70-80 and 88-89: the pivot is the first element. An iteration of the outer loop that
      moves neither index exchanges a[left] >= pivot with a[right] < pivot, so the next one moves. */
  method Partition(a: array<int>, start: nat, end: nat) returns (mid: nat)
    requires start < end < a.Length
    modifies a
    ensures RangePermuted(old(a[..]), a[..], start, end + 1)
    ensures SplitAt(a[..], start, mid, end + 1, old(a[start]))
  {
    ghost var s := a[..];
    var temp := a[start];
    var left, right := start + 1, end;
    while left < right
      invariant start < left <= right <= end && a[start] == temp
      invariant forall x | start < x < left :: a[x] < temp
      invariant forall x | right < x <= end :: a[x] >= temp
      invariant RangePermuted(s, a[..], start, end + 1)
      decreases right - left, if a[left] >= temp then 1 else 0
    {
      while a[left] < temp && left < right
        invariant start < left <= right
        invariant forall x | start < x < left :: a[x] < temp
        decreases right - left
      {
        left := left + 1;
      }
      while a[right] >= temp && left < right
        invariant left <= right <= end
        invariant forall x | right < x <= end :: a[x] >= temp
        decreases right - left
      {
        right := right - 1;
      }
      SwapInRange(s, a[..], start, end + 1, left, right);
      Swap(a, left, right);
    }
    if a[left] < temp {
      SwapInRange(s, a[..], start, end + 1, start, left);
      Swap(a, start, left);
    }
    mid := left;
  }

  /** Sorting both sides of a split sorts the whole stretch. */
  lemma SidesSorted(s: seq<int>, t: seq<int>, u: seq<int>, w: seq<int>, lo: nat, mid: nat, hi: nat, pivot: int)
    requires RangePermuted(s, t, lo, hi) && SplitAt(t, lo, mid, hi, pivot)
    requires RangePermuted(t, u, lo, mid) && SortedRange(u, lo, mid)
    requires RangePermuted(u, w, mid, hi) && SortedRange(w, mid, hi)
    ensures RangePermuted(s, w, lo, hi) && SortedRange(w, lo, hi)
  {
    RangeKeepsBounds(t, u, lo, mid, pivot);
    RangeKeepsBounds(u, w, mid, hi, pivot);
    forall i, j | lo <= i < j < hi ensures w[i] <= w[j] {
      if i < mid <= j {
        assert w[i] <= pivot <= w[j];
      }
    }
  }

  /** _fastsort: sorts the cells from start to end inclusive and touches no others. */
  method SortRange(a: array<int>, start: int, end: int)
    requires 0 <= start <= end + 1 <= a.Length
    modifies a
    ensures RangePermuted(old(a[..]), a[..], start, end + 1)
    ensures SortedRange(a[..], start, end + 1)
    decreases end - start
  {
    if start >= end {
      return;
    }
    ghost var s := a[..];
    var mid := Partition(a, start, end);
    ghost var t := a[..];
    SortRange(a, start, mid - 1);
    ghost var u := a[..];
    SortRange(a, mid, end);
    SidesSorted(s, t, u, a[..], start, mid, end + 1, s[start]);
  }

  method FastSort(a: array<int>)
    modifies a
    ensures a[..] == SortedOf(old(a[..]))
  {
    SortRange(a, 0, a.Length - 1);
    WholeRangeSorted(old(a[..]), a[..]);
  }
}
