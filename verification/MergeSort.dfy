/** Algorithem/sort/mergesort.c: top-down mergesort through a scratch array. */
module MergeSort {
  import opened Sorting

  /** The merge of the stretches ls..le and rs..re of a; on a tie the element of the second goes first. */
  function Merged(a: seq<int>, ls: nat, le: nat, rs: nat, re: nat): (m: seq<int>)
    requires ls <= le <= |a| && rs <= re <= |a|
    ensures |m| == (le - ls) + (re - rs)
    decreases (le - ls) + (re - rs)
  {
    if ls == le then a[rs..re]
    else if rs == re then a[ls..le]
    else if a[ls] < a[rs] then [a[ls]] + Merged(a, ls + 1, le, rs, re)
    else [a[rs]] + Merged(a, ls, le, rs + 1, re)
  }

  lemma {:induction false} MergedCounts(a: seq<int>, ls: nat, le: nat, rs: nat, re: nat, v: int)
    requires ls <= le <= |a| && rs <= re <= |a|
    ensures CountLe(Merged(a, ls, le, rs, re), v) == CountLe(a[ls..le], v) + CountLe(a[rs..re], v)
    decreases (le - ls) + (re - rs)
  {
    var m := Merged(a, ls, le, rs, re);
    if ls < le && rs < re {
      if a[ls] < a[rs] {
        assert m[1..] == Merged(a, ls + 1, le, rs, re) && a[ls..le][1..] == a[ls + 1..le];
        MergedCounts(a, ls + 1, le, rs, re, v);
      } else {
        assert m[1..] == Merged(a, ls, le, rs + 1, re) && a[rs..re][1..] == a[rs + 1..re];
        MergedCounts(a, ls, le, rs + 1, re, v);
      }
    }
  }

  lemma {:induction false} MergedIsSorted(a: seq<int>, ls: nat, le: nat, rs: nat, re: nat)
    requires SortedRange(a, ls, le) && SortedRange(a, rs, re)
    ensures Sorted(Merged(a, ls, le, rs, re))
    decreases (le - ls) + (re - rs)
  {
    if ls < le && rs < re {
      if a[ls] < a[rs] {
        MergedIsSorted(a, ls + 1, le, rs, re);
        ConsSorted(a[ls], Merged(a, ls + 1, le, rs, re));
      } else {
        MergedIsSorted(a, ls, le, rs + 1, re);
        ConsSorted(a[rs], Merged(a, ls, le, rs + 1, re));
      }
    }
  }

  /** memcpy between two arrays: n cells, no others. */
  method Copy(dst: array<int>, to: nat, src: array<int>, from: nat, n: nat)
    requires dst != src && to + n <= dst.Length && from + n <= src.Length
    modifies dst
    ensures forall x | 0 <= x < dst.Length :: dst[x] == if to <= x < to + n then src[from + (x - to)] else old(dst[x])
  {
    var k := 0;
    while k < n
      invariant 0 <= k <= n
      invariant forall x | 0 <= x < dst.Length :: dst[x] == if to <= x < to + k then src[from + (x - to)] else old(dst[x])
    {
      dst[to + k] := src[from + k];
      k := k + 1;
    }
  }

  /** The cells of t from lo on hold out. */
  ghost predicate Holds(t: seq<int>, lo: nat, out: seq<int>) {
    lo + |out| <= |t| && forall x | lo <= x < lo + |out| :: t[x] == out[x - lo]
  }

  /** t is t0 with its cells from lo on holding the first k elements of goal. */
  ghost predicate Written(t0: seq<int>, t: seq<int>, lo: nat, k: nat, goal: seq<int>) {
    && |t| == |t0| && k <= |goal| && lo + k <= |t|
    && forall x | 0 <= x < |t| :: t[x] == if lo <= x < lo + k then goal[x - lo] else t0[x]
  }

  /** k elements of goal are in temp, the merge of what ls and rs have left is the rest of it. */
  ghost predicate Merging(a: seq<int>, goal: seq<int>, t0: seq<int>, t: seq<int>,
                          start: nat, mid: nat, end: nat, ls: nat, rs: nat, k: nat) {
    && start <= ls <= mid + 1 <= rs <= end + 1 <= |a|
    && k == (ls - start) + (rs - (mid + 1))
    && Written(t0, t, start, k, goal)
    && Merged(a, ls, mid + 1, rs, end + 1) == goal[k..]
  }

  lemma MergedAdvances(a: seq<int>, ls: nat, le: nat, rs: nat, re: nat, goal: seq<int>, k: nat)
    requires ls < le <= |a| && rs < re <= |a| && k <= |goal| && Merged(a, ls, le, rs, re) == goal[k..]
    ensures k < |goal|
    ensures a[ls] < a[rs] ==> goal[k] == a[ls] && Merged(a, ls + 1, le, rs, re) == goal[k + 1..]
    ensures a[ls] >= a[rs] ==> goal[k] == a[rs] && Merged(a, ls, le, rs + 1, re) == goal[k + 1..]
  {
    var m := Merged(a, ls, le, rs, re);
    assert goal[k] == m[0] && goal[k + 1..] == m[1..];
  }

  lemma WriteNext(t0: seq<int>, t: seq<int>, lo: nat, k: nat, goal: seq<int>)
    requires Written(t0, t, lo, k, goal) && k < |goal| && lo + k < |t|
    ensures Written(t0, t[lo + k := goal[k]], lo, k + 1, goal)
  {
  }

  lemma MergingStarts(a: seq<int>, t: seq<int>, start: nat, mid: nat, end: nat)
    requires start <= mid < end < |a| && end < |t|
    ensures Merging(a, Merged(a, start, mid + 1, mid + 1, end + 1), t, t, start, mid, end, start, mid + 1, 0)
  {
  }

  lemma InBounds(a: seq<int>, goal: seq<int>, t0: seq<int>, t: seq<int>,
                 start: nat, mid: nat, end: nat, ls: nat, rs: nat, k: nat)
    requires Merging(a, goal, t0, t, start, mid, end, ls, rs, k) && ls <= mid && rs <= end < |t|
    ensures start <= start + k < |t| && k < |goal|
  {
  }

  lemma TakeLeft(a: seq<int>, goal: seq<int>, t0: seq<int>, t: seq<int>,
                 start: nat, mid: nat, end: nat, ls: nat, rs: nat, k: nat)
    requires Merging(a, goal, t0, t, start, mid, end, ls, rs, k) && ls <= mid && rs <= end && a[ls] < a[rs]
    requires start + k < |t|
    ensures Merging(a, goal, t0, t[start + k := a[ls]], start, mid, end, ls + 1, rs, k + 1)
  {
    MergedAdvances(a, ls, mid + 1, rs, end + 1, goal, k);
    WriteNext(t0, t, start, k, goal);
  }

  lemma TakeRight(a: seq<int>, goal: seq<int>, t0: seq<int>, t: seq<int>,
                  start: nat, mid: nat, end: nat, ls: nat, rs: nat, k: nat)
    requires Merging(a, goal, t0, t, start, mid, end, ls, rs, k) && ls <= mid && rs <= end && a[ls] >= a[rs]
    requires start + k < |t|
    ensures Merging(a, goal, t0, t[start + k := a[rs]], start, mid, end, ls, rs + 1, k + 1)
  {
    MergedAdvances(a, ls, mid + 1, rs, end + 1, goal, k);
    WriteNext(t0, t, start, k, goal);
  }

  /** Lines 24-26: merges two neighbouring stretches of arr into temp until one is used up. */
  method MergeWhileBoth(arr: array<int>, temp: array<int>, start: nat, mid: nat, end: nat)
    returns (i: nat, ls: nat, rs: nat, ghost k: nat)
    requires arr != temp && start <= mid < end < arr.Length && end < temp.Length
    modifies temp
    ensures i == start + k && (ls == mid + 1 || rs == end + 1)
    ensures Merging(arr[..], Merged(arr[..], start, mid + 1, mid + 1, end + 1), old(temp[..]), temp[..],
                    start, mid, end, ls, rs, k)
  {
    ghost var a, t0 := arr[..], temp[..];
    ghost var goal := Merged(a, start, mid + 1, mid + 1, end + 1);
    i, ls, rs, k := start, start, mid + 1, 0;
    MergingStarts(a, t0, start, mid, end);
    while ls <= mid && rs <= end
      invariant i == start + k && ls <= mid + 1 <= rs <= end + 1
      invariant Merging(a, goal, t0, temp[..], start, mid, end, ls, rs, k)
      decreases mid + end - ls - rs
    {
      ghost var t := temp[..];
      InBounds(a, goal, t0, t, start, mid, end, ls, rs, k);
      if arr[ls] < arr[rs] {
        TakeLeft(a, goal, t0, t, start, mid, end, ls, rs, k);
        temp[i] := arr[ls];
        assert temp[..] == t[start + k := a[ls]];
        ls := ls + 1;
      } else {
        TakeRight(a, goal, t0, t, start, mid, end, ls, rs, k);
        temp[i] := arr[rs];
        assert temp[..] == t[start + k := a[rs]];
        rs := rs + 1;
      }
      i, k := i + 1, k + 1;
    }
  }

  /** Lines 24-31: the whole merge into temp; at most one of the two tails is not empty. */
  method MergeInto(arr: array<int>, temp: array<int>, start: nat, mid: nat, end: nat)
    requires arr != temp && start <= mid < end < arr.Length && end < temp.Length
    modifies temp
    ensures Holds(temp[..], start, Merged(arr[..], start, mid + 1, mid + 1, end + 1))
    ensures forall x | 0 <= x < temp.Length && !(start <= x <= end) :: temp[x] == old(temp[x])
  {
    var i, ls, rs, k := MergeWhileBoth(arr, temp, start, mid, end);
    ghost var a := arr[..];
    if ls <= mid {
      Copy(temp, i, arr, ls, mid - ls + 1);
    }
    if rs <= end {
      Copy(temp, i, arr, rs, end - rs + 1);
    }
    TailsComplete(a, temp[..], start, i, ls, mid + 1, rs, end + 1, Merged(a, start, mid + 1, mid + 1, end + 1));
  }

  lemma TailsComplete(a: seq<int>, t: seq<int>, lo: nat, i: nat, ls: nat, le: nat, rs: nat, re: nat, goal: seq<int>)
    requires ls <= le <= |a| && rs <= re <= |a| && (ls == le || rs == re)
    requires lo <= i && lo + |goal| <= |t| && i - lo <= |goal| && Merged(a, ls, le, rs, re) == goal[i - lo..]
    requires forall x | lo <= x < i :: t[x] == goal[x - lo]
    requires forall x | i <= x < i + (le - ls) :: t[x] == a[ls + (x - i)]
    requires rs < re ==> forall x | i <= x < i + (re - rs) :: t[x] == a[rs + (x - i)]
    ensures Holds(t, lo, goal)
  {
    forall x | lo <= x < lo + |goal| ensures t[x] == goal[x - lo] {
      if x >= i { assert goal[x - lo] == goal[i - lo..][x - i]; }
    }
  }

  lemma SlicePermuted(s: seq<int>, t: seq<int>, lo: nat, hi: nat)
    requires lo <= hi <= |s| == |t| && Permuted(s[lo..hi], t[lo..hi])
    requires forall x | 0 <= x < |s| && !(lo <= x < hi) :: t[x] == s[x]
    ensures Permuted(s, t)
  {
    assert s[..lo] == t[..lo] && s[hi..] == t[hi..];
    assert s == s[..lo] + (s[lo..hi] + s[hi..]) && t == t[..lo] + (t[lo..hi] + t[hi..]);
    forall v ensures CountLe(s, v) == CountLe(t, v) {
      CountLeConcat(s[..lo], s[lo..hi] + s[hi..], v);
      CountLeConcat(s[lo..hi], s[hi..], v);
      CountLeConcat(t[..lo], t[lo..hi] + t[hi..], v);
      CountLeConcat(t[lo..hi], t[hi..], v);
      assert CountLe(s[lo..hi], v) == CountLe(t[lo..hi], v);
    }
  }

  /** Replacing two neighbouring sorted stretches by their merge rearranges and sorts them. */
  lemma MergeStep(u: seq<int>, w: seq<int>, lo: nat, mid: nat, hi: nat)
    requires lo <= mid <= hi <= |u| == |w| && SortedRange(u, lo, mid) && SortedRange(u, mid, hi)
    requires Holds(w, lo, Merged(u, lo, mid, mid, hi))
    requires forall x | 0 <= x < |u| && !(lo <= x < hi) :: w[x] == u[x]
    ensures RangePermuted(u, w, lo, hi) && SortedRange(w, lo, hi)
  {
    var m := Merged(u, lo, mid, mid, hi);
    MergedIsSorted(u, lo, mid, mid, hi);
    assert w[lo..hi] == m && u[lo..hi] == u[lo..mid] + u[mid..hi];
    forall v ensures CountLe(u[lo..hi], v) == CountLe(w[lo..hi], v) {
      CountLeConcat(u[lo..mid], u[mid..hi], v);
      MergedCounts(u, lo, mid, mid, hi, v);
    }
    SlicePermuted(u, w, lo, hi);
    assert forall x | lo <= x < hi :: w[x] == m[x - lo];
  }

  /** Lines 24-39: merges into temp and copies the result back over the two stretches. */
  method MergeAndCopy(arr: array<int>, temp: array<int>, start: nat, mid: nat, end: nat)
    requires arr != temp && start <= mid < end < arr.Length && end < temp.Length
    modifies arr, temp
    ensures Holds(arr[..], start, Merged(old(arr[..]), start, mid + 1, mid + 1, end + 1))
    ensures forall x | 0 <= x < arr.Length && !(start <= x <= end) :: arr[x] == old(arr[x])
    ensures forall x | 0 <= x < temp.Length :: temp[x] == if start <= x <= end then arr[x] else old(temp[x])
  {
    MergeInto(arr, temp, start, mid, end);
    Copy(arr, start, temp, start, end - start + 1);
  }

  /** The two stretches, each sorted before, become one sorted stretch. */
  method MergeBack(arr: array<int>, temp: array<int>, start: nat, mid: nat, end: nat)
    requires arr != temp && start <= mid < end < arr.Length && end < temp.Length
    requires SortedRange(arr[..], start, mid + 1) && SortedRange(arr[..], mid + 1, end + 1)
    modifies arr, temp
    ensures RangePermuted(old(arr[..]), arr[..], start, end + 1) && SortedRange(arr[..], start, end + 1)
    ensures forall x | 0 <= x < temp.Length :: temp[x] == if start <= x <= end then arr[x] else old(temp[x])
  {
    ghost var u := arr[..];
    MergeAndCopy(arr, temp, start, mid, end);
    MergeStep(u, arr[..], start, mid + 1, end + 1);
  }

  /** _mergesort: sorts the cells of arr from start to end inclusive; in both arrays no other cell
      changes, and when there is anything to merge temp ends with a copy of the sorted stretch. */
  method SortRange(arr: array<int>, temp: array<int>, start: int, end: int)
    requires arr != temp && 0 <= start <= end + 1 <= arr.Length && end < temp.Length
    modifies arr, temp
    ensures RangePermuted(old(arr[..]), arr[..], start, end + 1) && SortedRange(arr[..], start, end + 1)
    ensures forall x | 0 <= x < temp.Length ::
              temp[x] == if start <= x <= end && start < end then arr[x] else old(temp[x])
    decreases end - start
  {
    if start >= end {
      return;
    }
    var mid := start + (end - start) / 2;
    SortRange(arr, temp, start, mid);
    SortRange(arr, temp, mid + 1, end);
    MergeBack(arr, temp, start, mid, end);
  }

  method MergeSort(arr: array<int>)
    modifies arr
    ensures arr[..] == SortedOf(old(arr[..]))
  {
    var temp := new int[arr.Length];
    SortRange(arr, temp, 0, arr.Length - 1);
    WholeRangeSorted(old(arr[..]), arr[..]);
  }
}
