/** What the three sorting programs compute: the one sorted permutation of their input. */
module Sorting {

  ghost predicate Sorted(s: seq<int>) {
    forall i, j :: 0 <= i < j < |s| ==> s[i] <= s[j]
  }

  lemma MultisetOfTail(s: seq<int>)
    requires s != []
    ensures multiset(s[1..]) == multiset(s)[s[0] := multiset(s)[s[0]] - 1]
  {
    assert s == [s[0]] + s[1..];
  }

  lemma ConsSorted(x: int, s: seq<int>)
    requires Sorted(s) && (s != [] ==> x <= s[0])
    ensures Sorted([x] + s)
  {
  }

  /** Puts x into a sorted sequence, before the first element that is not smaller. */
  function Insert(x: int, s: seq<int>): (r: seq<int>)
    requires Sorted(s)
    ensures Sorted(r)
    ensures |r| == |s| + 1 && r[0] == if s == [] || x <= s[0] then x else s[0]
    ensures multiset(r) == multiset{x} + multiset(s)
  {
    if s == [] then
      [x]
    else if x <= s[0] then
      [x] + s
    else
      var tail := Insert(x, s[1..]);
      ConsSorted(s[0], tail);
      MultisetOfTail(s);
      [s[0]] + tail
  }

  /** The sorted permutation of s. */
  function SortedOf(s: seq<int>): (r: seq<int>)
    ensures Sorted(r)
    ensures multiset(r) == multiset(s)
    ensures |r| == |s|
  {
    if s == [] then
      []
    else
      assert [s[0]] + s[1..] == s;
      Insert(s[0], SortedOf(s[1..]))
  }

  lemma HeadIsLeast(s: seq<int>, t: seq<int>)
    requires Sorted(s) && multiset(s) == multiset(t) && t != []
    ensures s != [] && s[0] <= t[0]
  {
    assert t[0] in multiset(t);
    var i :| 0 <= i < |s| && s[i] == t[0];
  }

  lemma SameHeadAndTail(s: seq<int>, t: seq<int>)
    requires Sorted(s) && Sorted(t)
    requires multiset(s) == multiset(t) && s != []
    ensures t != [] && s[0] == t[0] && multiset(s[1..]) == multiset(t[1..])
  {
    assert s[0] in multiset(t);
    HeadIsLeast(s, t);
    HeadIsLeast(t, s);
    MultisetOfTail(s);
    MultisetOfTail(t);
  }

  /** Two sorted sequences with the same elements are the same sequence. */
  lemma {:induction false} SortedPermutationUnique(s: seq<int>, t: seq<int>)
    requires Sorted(s) && Sorted(t)
    requires multiset(s) == multiset(t)
    ensures s == t
  {
    if s == [] {
      assert |multiset(t)| == 0;
    } else {
      SameHeadAndTail(s, t);
      SortedPermutationUnique(s[1..], t[1..]);
      assert s == [s[0]] + s[1..] && t == [t[0]] + t[1..];
    }
  }

  /** SortedOf is the only sorting function: any sorted permutation of s is SortedOf(s). */
  lemma SortedOfUnique(s: seq<int>, t: seq<int>)
    requires Sorted(t) && multiset(t) == multiset(s)
    ensures t == SortedOf(s)
  {
    SortedPermutationUnique(t, SortedOf(s));
  }

  // ---------- permutations, by counting ----------

  /** How many elements of s are at most v. */
  function CountLe(s: seq<int>, v: int): (n: nat)
    ensures n <= |s|
  {
    if s == [] then 0 else (if s[0] <= v then 1 else 0) + CountLe(s[1..], v)
  }

  /** t has the elements of s, in some order (see PermutedIsSameMultiset). */
  ghost predicate Permuted(s: seq<int>, t: seq<int>) {
    |s| == |t| && forall v {:trigger CountLe(t, v)} :: CountLe(s, v) == CountLe(t, v)
  }

  lemma PermutedCons(x: int, s: seq<int>, t: seq<int>)
    requires Permuted(s, t)
    ensures Permuted([x] + s, [x] + t)
  {
    forall v ensures CountLe([x] + s, v) == CountLe([x] + t, v) {
      assert ([x] + s)[1..] == s && ([x] + t)[1..] == t;
    }
  }

  lemma PermutedSwap(x: int, y: int, s: seq<int>)
    ensures Permuted([x] + ([y] + s), [y] + ([x] + s))
  {
    forall v ensures CountLe([x] + ([y] + s), v) == CountLe([y] + ([x] + s), v) {
      assert ([x] + ([y] + s))[1..] == [y] + s && ([y] + ([x] + s))[1..] == [x] + s;
      assert ([y] + s)[1..] == s && ([x] + s)[1..] == s;
    }
  }

  lemma {:induction false} MultiplicityByCount(s: seq<int>, v: int)
    ensures multiset(s)[v] == CountLe(s, v) - CountLe(s, v - 1)
  {
    if s != [] {
      MultiplicityByCount(s[1..], v);
      MultisetOfTail(s);
    }
  }

  /** Counting sees exactly the elements: equal counts mean equal multisets. */
  lemma PermutedIsSameMultiset(s: seq<int>, t: seq<int>)
    requires Permuted(s, t)
    ensures multiset(s) == multiset(t)
  {
    forall v ensures multiset(s)[v] == multiset(t)[v] {
      MultiplicityByCount(s, v);
      MultiplicityByCount(t, v);
      assert CountLe(s, v - 1) == CountLe(t, v - 1);
    }
  }

  lemma {:induction false} CountLeConcat(s: seq<int>, t: seq<int>, v: int)
    ensures CountLe(s + t, v) == CountLe(s, v) + CountLe(t, v)
  {
    if s == [] {
      assert s + t == t;
    } else {
      assert (s + t)[1..] == s[1..] + t;
      CountLeConcat(s[1..], t, v);
    }
  }

  lemma {:induction false} CountLeUpdate(s: seq<int>, p: nat, x: int, v: int)
    requires p < |s|
    ensures CountLe(s[p := x], v) == CountLe(s, v) - (if s[p] <= v then 1 else 0) + if x <= v then 1 else 0
  {
    if p == 0 {
      assert s[0 := x][1..] == s[1..];
    } else {
      assert s[p := x][1..] == s[1..][p - 1 := x];
      CountLeUpdate(s[1..], p - 1, x, v);
    }
  }

  /** t is s with positions p and q exchanged. */
  ghost predicate Exchanged(s: seq<int>, t: seq<int>, p: nat, q: nat) {
    && |s| == |t|
    && p < q < |s|
    && t[p] == s[q] && t[q] == s[p]
    && forall x | 0 <= x < |s| && x != p && x != q :: t[x] == s[x]
  }

  lemma ExchangedIsPermuted(s: seq<int>, t: seq<int>, p: nat, q: nat)
    requires Exchanged(s, t, p, q)
    ensures Permuted(s, t)
  {
    assert t == s[p := s[q]][q := s[p]];
    forall v ensures CountLe(s, v) == CountLe(t, v) {
      CountLeUpdate(s, p, s[q], v);
      CountLeUpdate(s[p := s[q]], q, s[p], v);
    }
  }

  lemma {:induction false} AllCounted(s: seq<int>, v: int)
    ensures CountLe(s, v) == |s| <==> forall i | 0 <= i < |s| :: s[i] <= v
    ensures CountLe(s, v) == 0 <==> forall i | 0 <= i < |s| :: s[i] > v
  {
    if s != [] {
      AllCounted(s[1..], v);
      assert forall i | 0 < i < |s| :: s[i] == s[1..][i - 1];
      assert forall i | 0 <= i < |s| - 1 :: s[1..][i] == s[i + 1];
    }
  }

  /** t is s with the cells from lo up to hi rearranged among themselves. */
  ghost predicate RangePermuted(s: seq<int>, t: seq<int>, lo: nat, hi: nat) {
    && lo <= hi <= |s|
    && Permuted(s, t)
    && forall x | 0 <= x < |s| && !(lo <= x < hi) :: t[x] == s[x]
  }

  ghost predicate SortedRange(s: seq<int>, lo: nat, hi: nat) {
    lo <= hi <= |s| && forall i, j :: lo <= i < j < hi ==> s[i] <= s[j]
  }

  lemma RangeSlicesPermuted(s: seq<int>, t: seq<int>, lo: nat, hi: nat)
    requires RangePermuted(s, t, lo, hi)
    ensures Permuted(s[lo..hi], t[lo..hi])
  {
    assert s[..lo] == t[..lo] && s[hi..] == t[hi..];
    assert s == s[..lo] + (s[lo..hi] + s[hi..]) && t == t[..lo] + (t[lo..hi] + t[hi..]);
    forall v ensures CountLe(s[lo..hi], v) == CountLe(t[lo..hi], v) {
      CountLeConcat(s[..lo], s[lo..hi] + s[hi..], v);
      CountLeConcat(s[lo..hi], s[hi..], v);
      CountLeConcat(t[..lo], t[lo..hi] + t[hi..], v);
      CountLeConcat(t[lo..hi], t[hi..], v);
      assert CountLe(s, v) == CountLe(t, v);
    }
  }

  /** Rearranging a stretch keeps its bounds. */
  lemma RangeKeepsBounds(s: seq<int>, t: seq<int>, lo: nat, hi: nat, v: int)
    requires RangePermuted(s, t, lo, hi)
    ensures (forall x | lo <= x < hi :: s[x] <= v) ==> forall x | lo <= x < hi :: t[x] <= v
    ensures (forall x | lo <= x < hi :: v <= s[x]) ==> forall x | lo <= x < hi :: v <= t[x]
  {
    RangeSlicesPermuted(s, t, lo, hi);
    var s', t' := s[lo..hi], t[lo..hi];
    assert forall x | lo <= x < hi :: t[x] == t'[x - lo];
    AllCounted(s', v);
    AllCounted(t', v);
    AllCounted(s', v - 1);
    AllCounted(t', v - 1);
  }

  lemma WholeRangeSorted(s: seq<int>, t: seq<int>)
    requires Permuted(s, t) && SortedRange(t, 0, |t|)
    ensures t == SortedOf(s)
  {
    PermutedIsSameMultiset(s, t);
    SortedOfUnique(s, t);
  }
}
