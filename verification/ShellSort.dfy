/** Algorithem/sort/shellsort.c: gapped insertion sorts with halving gaps. */
module ShellSort {
  import opened Sorting

  // ---------- columns: the elements r, r + h, r + 2h, ... of an array ----------

  function Col(s: seq<int>, r: nat, h: nat): seq<int>
    requires h > 0
    decreases |s| - r
  {
    if r >= |s| then [] else [s[r]] + Col(s, r + h, h)
  }

  /** The position of entry i of column r: r + i * h, by repeated addition. */
  function Pos(r: nat, h: nat, i: nat): (p: nat)
    ensures p >= r
    decreases i
  {
    if i == 0 then r else Pos(r + h, h, i - 1)
  }

  /** p is one of the positions r, r + h, r + 2h, ... */
  predicate InCol(p: int, r: nat, h: nat)
    requires h > 0
    decreases p - r
  {
    p == r || (p > r && InCol(p - h, r, h))
  }

  lemma {:induction false} ColAt(s: seq<int>, r: nat, h: nat, i: nat)
    requires h > 0
    ensures i < |Col(s, r, h)| <==> Pos(r, h, i) < |s|
    ensures i < |Col(s, r, h)| ==> Col(s, r, h)[i] == s[Pos(r, h, i)]
    decreases i
  {
    if i > 0 { ColAt(s, r + h, h, i - 1); }
  }

  lemma {:induction false} PosNext(r: nat, h: nat, i: nat)
    ensures Pos(r, h, i + 1) == Pos(r, h, i) + h
    decreases i
  {
    if i > 0 { PosNext(r + h, h, i - 1); }
  }

  /** Shifting a column entry by k leads to entry i + c of the column of Pos(r', h, c) == r + k. */
  lemma {:induction false} PosShift(r: nat, h: nat, i: nat, k: nat, r': nat, c: nat)
    requires Pos(r', h, c) == r + k
    ensures Pos(r', h, i + c) == Pos(r, h, i) + k
    decreases i
  {
    if i > 0 {
      PosShift(r, h, i - 1, k, r', c);
      PosNext(r', h, i - 1 + c);
      PosNext(r, h, i - 1);
    }
  }

  /** Every position belongs to a column: p is entry i of column r. */
  lemma {:induction false} Locate(p: nat, h: nat) returns (r: nat, i: nat)
    requires h > 0
    ensures r < h && p == Pos(r, h, i)
  {
    if p < h {
      r, i := p, 0;
    } else {
      r, i := Locate(p - h, h);
      PosNext(r, h, i);
      i := i + 1;
    }
  }

  lemma {:induction false} PosInCol(r: nat, h: nat, i: nat)
    requires h > 0
    ensures InCol(Pos(r, h, i), r, h)
  {
    if i > 0 {
      PosInCol(r, h, i - 1);
      PosNext(r, h, i - 1);
    }
  }

  /** Members of a column past its first entry form the column that starts one step later. */
  lemma {:induction false} InColFromNext(p: int, r: nat, h: nat)
    requires h > 0 && p != r
    ensures InCol(p, r, h) <==> InCol(p, r + h, h)
    decreases p - r
  {
    if p > r && p != r + h {
      InColFromNext(p - h, r, h);
      if p <= r + h { NotBefore(p - h, r, h); }
    }
  }

  lemma NotBefore(p: int, r: nat, h: nat)
    requires h > 0 && p < r
    ensures !InCol(p, r, h)
  {
  }

  /** Different columns share no position. */
  lemma {:induction false} ColumnsDisjoint(p: int, r: nat, r': nat, h: nat)
    requires r < h && r' < h && InCol(p, r, h) && InCol(p, r', h)
    ensures r == r'
    decreases p
  {
    if p >= h { ColumnsDisjoint(p - h, r, r', h); }
  }

  /** Consecutive members of a column are h apart. */
  lemma {:induction false} NextInCol(i: int, q: int, r: nat, h: nat)
    requires r < h && InCol(i, r, h) && InCol(q, r, h) && i < q
    ensures i + h <= q
    decreases q
  {
    if i != r && q != r { NextInCol(i - h, q - h, r, h); }
  }

  lemma {:induction false} ColFrame(s: seq<int>, t: seq<int>, r: nat, h: nat)
    requires h > 0 && |s| == |t|
    requires forall p | 0 <= p < |s| && InCol(p, r, h) :: s[p] == t[p]
    ensures Col(s, r, h) == Col(t, r, h)
    decreases |s| - r
  {
    if r < |s| {
      forall p | 0 <= p < |s| && InCol(p, r + h, h) ensures InCol(p, r, h) {
        InColFromNext(p, r, h);
      }
      ColFrame(s, t, r + h, h);
    }
  }

  lemma {:induction false} ExchangeFirstTwo(s: seq<int>, t: seq<int>, r: nat, h: nat)
    requires h > 0 && Exchanged(s, t, r, r + h)
    ensures Permuted(Col(s, r, h), Col(t, r, h))
  {
    var rest := Col(s, r + h + h, h);
    NotBefore(r, r + h + h, h);
    NotBefore(r + h, r + h + h, h);
    ColFrame(s, t, r + h + h, h);
    assert Col(s, r, h) == [s[r]] + ([s[r + h]] + rest);
    assert Col(t, r, h) == [s[r + h]] + ([s[r]] + rest);
    PermutedSwap(s[r], s[r + h], rest);
  }

  /** Exchanging two neighbours of a column rearranges that column and nothing else. */
  lemma {:induction false} ExchangeInCol(s: seq<int>, t: seq<int>, r: nat, h: nat, p: nat)
    requires h > 0 && InCol(p, r, h) && Exchanged(s, t, p, p + h)
    ensures Permuted(Col(s, r, h), Col(t, r, h))
    decreases p - r
  {
    if p == r {
      ExchangeFirstTwo(s, t, r, h);
    } else {
      InColFromNext(p, r, h);
      ExchangeInCol(s, t, r + h, h, p);
      PermutedCons(s[r], Col(s, r + h, h), Col(t, r + h, h));
    }
  }

  // ---------- one gap: every column sorted, separately ----------

  ghost predicate KOrdered(s: seq<int>, k: nat) {
    forall p, q | 0 <= p < |s| && 0 <= q < |s| && q == p + k :: s[p] <= s[q]
  }

  /** Column r of s is in order, as far as position hi. */
  ghost predicate ColOrdered(s: seq<int>, r: nat, h: nat, hi: int)
    requires h > 0
  {
    forall p {:trigger InCol(p, r, h)} | InCol(p, r, h) && 0 <= p && p + h < |s| && p + h < hi :: s[p] <= s[p + h]
  }

  /** t comes from s by sorting each of the h interleaved columns of s. */
  ghost predicate GapPass(s: seq<int>, t: seq<int>, h: nat) {
    && h > 0
    && Permuted(s, t)
    && KOrdered(t, h)
    && forall r: nat | r < h :: Permuted(Col(s, r, h), Col(t, r, h))
  }

  /** Order up to a member i of the column is order up to the next member. */
  lemma OrderedToNext(s: seq<int>, r: nat, h: nat, i: nat)
    requires r < h && InCol(i, r, h) && ColOrdered(s, r, h, i + 1)
    ensures ColOrdered(s, r, h, i + h)
  {
    forall p | InCol(p, r, h) && 0 <= p && p + h < |s| && p + h < i + h ensures s[p] <= s[p + h] {
      assert InCol(p + h, r, h);
      if p + h > i { NextInCol(i, p + h, r, h); }
    }
  }

  lemma OrderedAtFirst(s: seq<int>, r: nat, h: nat)
    requires r < h
    ensures ColOrdered(s, r, h, r + h)
  {
    forall p | 0 <= p < r ensures !InCol(p, r, h) { NotBefore(p, r, h); }
  }

  /** t is a rearrangement of column r of s, all else unmoved. */
  ghost predicate Rearranged(s: seq<int>, t: seq<int>, r: nat, h: nat)
    requires h > 0
  {
    && Permuted(s, t)
    && Permuted(Col(s, r, h), Col(t, r, h))
    && forall p {:trigger InCol(p, r, h)} | 0 <= p < |s| && !InCol(p, r, h) :: t[p] == s[p]
  }

  lemma RearrangedByExchange(s: seq<int>, t: seq<int>, u: seq<int>, r: nat, h: nat, p: nat)
    requires r < h && InCol(p, r, h) && Rearranged(s, t, r, h) && Exchanged(t, u, p, p + h)
    ensures Rearranged(s, u, r, h)
  {
    assert InCol(p + h, r, h);
    ExchangeInCol(t, u, r, h, p);
    ExchangedIsPermuted(t, u, p, p + h);
  }

  /** Order of t while temp, taken from position i, looks for its place in column r: the gap is at p. */
  ghost predicate GapOrder(t: seq<int>, r: nat, h: nat, i: int, p: int, temp: int)
    requires h > 0
  {
    && 0 <= p <= i < |t|
    && InCol(p, r, h)
    && ColOrdered(t, r, h, if p == i then i else i + 1)
    && (p == i || (p + h <= i && temp <= t[p + h]))
  }

  /** s is being rearranged into t, with temp still to be put into the gap at p. */
  ghost predicate Inserting(s: seq<int>, t: seq<int>, r: nat, h: nat, i: int, p: int, temp: int)
    requires h > 0
  {
    GapOrder(t, r, h, i, p, temp) && Rearranged(s, t[p := temp], r, h)
  }

  lemma GapOrderMoves(t: seq<int>, r: nat, h: nat, i: int, p: int, temp: int)
    requires 0 < h <= p && p != r && GapOrder(t, r, h, i, p, temp) && temp <= t[p - h]
    ensures GapOrder(t[p := t[p - h]], r, h, i, p - h, temp)
  {
    assert InCol(p - h, r, h);
  }

  lemma InsertStarts(s: seq<int>, r: nat, h: nat, i: nat)
    requires r < h <= i < |s| && InCol(i, r, h) && ColOrdered(s, r, h, i)
    ensures Inserting(s, s, r, h, i, i, s[i])
  {
    assert s[i := s[i]] == s;
  }

  lemma GapMoves(s: seq<int>, t: seq<int>, r: nat, h: nat, i: int, p: int, temp: int)
    requires r < h <= p && Inserting(s, t, r, h, i, p, temp) && temp <= t[p - h]
    ensures Inserting(s, t[p := t[p - h]], r, h, i, p - h, temp)
  {
    GapOrderMoves(t, r, h, i, p, temp);
    RearrangedByExchange(s, t[p := temp], t[p := t[p - h]][p - h := temp], r, h, p - h);
  }

  lemma GapCloses(s: seq<int>, t: seq<int>, r: nat, h: nat, i: int, p: int, temp: int)
    requires r < h && Inserting(s, t, r, h, i, p, temp)
    requires p >= h ==> t[p - h] < temp
    ensures ColOrdered(t[p := temp], r, h, i + 1)
    ensures Rearranged(s, t[p := temp], r, h)
  {
  }

  lemma RearrangedTwice(s: seq<int>, t: seq<int>, u: seq<int>, r: nat, h: nat)
    requires h > 0 && Rearranged(s, t, r, h) && Rearranged(t, u, r, h)
    ensures Rearranged(s, u, r, h)
  {
  }

  method InsertBack(a: array<int>, start: nat, step: nat, i: nat)
    requires start < step <= i < a.Length && InCol(i, start, step)
    requires ColOrdered(a[..], start, step, i)
    modifies a
    ensures ColOrdered(a[..], start, step, i + 1)
    ensures Rearranged(old(a[..]), a[..], start, step)
  {
    ghost var s := a[..];
    var temp := a[i];
    var j: int := i - step;
    InsertStarts(s, start, step, i);
    while j >= 0
      invariant 0 <= j + step <= i
      invariant Inserting(s, a[..], start, step, i, j + step, temp)
      decreases j
    {
      if temp > a[j] {
        break;
      }
      GapMoves(s, a[..], start, step, i, j + step, temp);
      ghost var t := a[..];
      a[j + step] := a[j];
      assert a[..] == t[j + step := t[j]];
      j := j - step;
    }
    GapCloses(s, a[..], start, step, i, j + step, temp);
    ghost var t := a[..];
    a[j + step] := temp;
    assert a[..] == t[j + step := temp];
  }

  /** groupsort: column start of the array is sorted in place, every other cell is left alone. */
  method GroupSort(a: array<int>, start: nat, step: nat)
    requires start < step
    modifies a
    ensures ColOrdered(a[..], start, step, a.Length)
    ensures Rearranged(old(a[..]), a[..], start, step)
  {
    ghost var s := a[..];
    var i := start + step;
    OrderedAtFirst(a[..], start, step);
    while i < a.Length
      invariant start + step <= i && InCol(i, start, step)
      invariant Rearranged(s, a[..], start, step)
      invariant ColOrdered(a[..], start, step, i)
      decreases a.Length - i
    {
      ghost var t := a[..];
      InsertBack(a, start, step, i);
      RearrangedTwice(s, t, a[..], start, step);
      OrderedToNext(a[..], start, step, i);
      i := i + step;
    }
  }

  /** The array after the columns below `done` have been sorted. */
  ghost predicate PartPass(s: seq<int>, t: seq<int>, h: nat, done: nat) {
    && h > 0
    && Permuted(s, t)
    && (forall r: nat | r < h :: Permuted(Col(s, r, h), Col(t, r, h)))
    && (forall r: nat | r < done :: ColOrdered(t, r, h, |t|))
  }

  lemma PartPassNext(s: seq<int>, t: seq<int>, u: seq<int>, h: nat, r: nat)
    requires r < h && PartPass(s, t, h, r)
    requires Rearranged(t, u, r, h) && ColOrdered(u, r, h, |u|)
    ensures PartPass(s, u, h, r + 1)
  {
    forall r': nat | r' < h && r' != r
      ensures Col(t, r', h) == Col(u, r', h)
      ensures r' < r ==> ColOrdered(u, r', h, |u|)
    {
      OtherColumn(t, u, h, r, r');
    }
  }

  lemma OtherColumn(t: seq<int>, u: seq<int>, h: nat, r: nat, r': nat)
    requires r < h && r' < h && r != r' && Rearranged(t, u, r, h)
    ensures Col(t, r', h) == Col(u, r', h)
    ensures ColOrdered(t, r', h, |t|) ==> ColOrdered(u, r', h, |u|)
  {
    forall p | 0 <= p < |t| && InCol(p, r', h) ensures t[p] == u[p] {
      if InCol(p, r, h) { ColumnsDisjoint(p, r, r', h); }
    }
    ColFrame(t, u, r', h);
    if ColOrdered(t, r', h, |t|) {
      forall p | InCol(p, r', h) && 0 <= p && p + h < |u| ensures u[p] <= u[p + h] {
        assert InCol(p + h, r', h);
        assert t[p] <= t[p + h];
      }
    }
  }

  lemma PartPassDone(s: seq<int>, t: seq<int>, h: nat)
    requires h > 0 && PartPass(s, t, h, h)
    ensures GapPass(s, t, h)
  {
    forall p, q | 0 <= p < |t| && 0 <= q < |t| && q == p + h ensures t[p] <= t[q] {
      var r, i := Locate(p, h);
      PosInCol(r, h, i);
      assert ColOrdered(t, r, h, |t|);
    }
  }

  // ---------- a pass for one gap keeps every other order ----------

  lemma {:induction false} CountLeDominated(x: seq<int>, y: seq<int>, v: int)
    requires |x| == |y| && forall i | 0 <= i < |x| :: x[i] <= y[i]
    ensures CountLe(y, v) <= CountLe(x, v)
  {
    if x != [] { CountLeDominated(x[1..], y[1..], v); }
  }

  lemma CountLeSorted(s: seq<int>, m: nat)
    requires Sorted(s) && m < |s|
    ensures CountLe(s, s[m]) >= m + 1
  {
    var v, l, r := s[m], s[..m + 1], s[m + 1..];
    assert s == l + r;
    AllCounted(l, v);
    CountLeConcat(l, r, v);
  }

  lemma CountLeBefore(s: seq<int>, i: nat, v: int)
    requires Sorted(s) && i < |s| && s[i] > v
    ensures CountLe(s, v) <= i
  {
    assert s == s[..i] + s[i..];
    AllCounted(s[i..], v);
    CountLeConcat(s[..i], s[i..], v);
  }

  /** All but c of the elements of y that are at most v have a partner in x that is at most v. */
  lemma CountLePartners(x: seq<int>, y: seq<int>, c: nat, v: int)
    requires c < |y| && |y| - c <= |x| && forall j | c <= j < |y| :: x[j - c] <= y[j]
    ensures CountLe(y, v) <= c + CountLe(x, v)
  {
    var n := |y| - c;
    assert y == y[..c] + y[c..] && x == x[..n] + x[n..];
    CountLeConcat(y[..c], y[c..], v);
    CountLeConcat(x[..n], x[n..], v);
    CountLeDominated(x[..n], y[c..], v);
  }

  /** Sorting two columns keeps an order between them: if the element of x that lies c places before
      each element of y was no larger, it still is after both are sorted. */
  lemma SortingKeepsDominance(x: seq<int>, y: seq<int>, x': seq<int>, y': seq<int>, c: nat, m: nat)
    requires Permuted(x, x') && Sorted(x')
    requires Permuted(y, y') && Sorted(y')
    requires forall j | c <= j < |y| :: j - c < |x| && x[j - c] <= y[j]
    requires c <= m < |y'| && m - c < |x'|
    ensures x'[m - c] <= y'[m]
  {
    var v, i := y'[m], m - c;
    var last := y[|y| - 1];
    CountLeSorted(y', m);
    CountLePartners(x, y, c, v);
    if x'[i] > v {
      CountLeBefore(x', i, v);
    }
  }

  lemma ColSortedWhenOrdered(s: seq<int>, r: nat, h: nat)
    requires h > 0 && KOrdered(s, h)
    ensures Sorted(Col(s, r, h))
  {
    var c := Col(s, r, h);
    forall i: nat, j: nat | i < j < |c| ensures c[i] <= c[j] { ColStepwise(s, r, h, i, j); }
  }

  lemma {:induction false} ColStepwise(s: seq<int>, r: nat, h: nat, i: nat, j: nat)
    requires h > 0 && KOrdered(s, h) && i <= j < |Col(s, r, h)|
    ensures Col(s, r, h)[i] <= Col(s, r, h)[j]
    decreases j - i
  {
    if i < j {
      ColStepwise(s, r, h, i, j - 1);
      ColAt(s, r, h, j - 1);
      ColAt(s, r, h, j);
      PosNext(r, h, j - 1);
    }
  }

  /** The heart of Shell's algorithm: sorting the columns for gap h destroys no k-order. */
  lemma GapPassKeepsOrder(s: seq<int>, t: seq<int>, h: nat, k: nat)
    requires GapPass(s, t, h) && KOrdered(s, k)
    ensures KOrdered(t, k) && KOrdered(t, h)
  {
    forall p, q | 0 <= p < |t| && 0 <= q < |t| && q == p + k ensures t[p] <= t[q] {
      PairKeepsOrder(s, t, h, k, p);
    }
  }

  lemma ColumnsDominate(s: seq<int>, r: nat, h: nat, k: nat, r': nat, c: nat, j: nat)
    requires h > 0 && KOrdered(s, k) && Pos(r', h, c) == r + k
    requires c <= j < |Col(s, r', h)|
    ensures j - c < |Col(s, r, h)| && Col(s, r, h)[j - c] <= Col(s, r', h)[j]
  {
    ColAt(s, r', h, j);
    ColAt(s, r, h, j - c);
    PosShift(r, h, j - c, k, r', c);
  }

  lemma PairKeepsOrder(s: seq<int>, t: seq<int>, h: nat, k: nat, p: nat)
    requires GapPass(s, t, h) && KOrdered(s, k) && p + k < |t|
    ensures t[p] <= t[p + k]
  {
    var r, i := Locate(p, h);
    var r', c := Locate(r + k, h);
    PosShift(r, h, i, k, r', c);
    ColAt(t, r, h, i);
    ColAt(t, r', h, i + c);
    SortedColumnsDominate(s, t, h, k, r, r', c, i + c);
  }

  lemma SortedColumnsDominate(s: seq<int>, t: seq<int>, h: nat, k: nat, r: nat, r': nat, c: nat, m: nat)
    requires GapPass(s, t, h) && KOrdered(s, k)
    requires r < h && r' < h && Pos(r', h, c) == r + k
    requires c <= m < |Col(t, r', h)| && m - c < |Col(t, r, h)|
    ensures Col(t, r, h)[m - c] <= Col(t, r', h)[m]
  {
    var x, y := Col(s, r, h), Col(s, r', h);
    forall j | c <= j < |y| ensures j - c < |x| && x[j - c] <= y[j] {
      ColumnsDominate(s, r, h, k, r', c, j);
    }
    ColSortedWhenOrdered(t, r, h);
    ColSortedWhenOrdered(t, r', h);
    SortingKeepsDominance(x, y, Col(t, r, h), Col(t, r', h), c, m);
  }

  // ---------- whole runs ----------

  /** The gaps of a run whose first gap is step: step, step / 2, step / 4, ... down to 1. */
  function Gaps(step: nat): seq<nat> {
    if step == 0 then [] else [step] + Gaps(step / 2)
  }

  /** The array contents at the start and after each gap of a run. */
  ghost predicate IsRun(trace: seq<seq<int>>, gaps: seq<nat>) {
    var n := |gaps|;
    && |trace| == n + 1
    && (n > 0 ==> IsRun(trace[..n], gaps[..n - 1]) && GapPass(trace[n - 1], trace[n], gaps[n - 1]))
  }

  /** Once a gap has been used its order holds for the rest of the run. */
  lemma {:induction false} UsedGapsStayOrdered(trace: seq<seq<int>>, gaps: seq<nat>, i: nat, j: nat)
    requires IsRun(trace, gaps) && i < j <= |gaps|
    ensures KOrdered(trace[j], gaps[i])
    decreases |gaps|
  {
    var n := |gaps|;
    if j < n {
      UsedGapsStayOrdered(trace[..n], gaps[..n - 1], i, j);
    } else if i < n - 1 {
      UsedGapsStayOrdered(trace[..n], gaps[..n - 1], i, n - 1);
      GapPassKeepsOrder(trace[n - 1], trace[n], gaps[n - 1], gaps[i]);
    }
  }

  /** The gaps start at half the length and halve down to 1. */
  lemma {:induction false} GapsHalve(step: nat)
    ensures var g := Gaps(step);
            && (step == 0 ==> g == []) && (step > 0 ==> g != [] && g[0] == step && g[|g| - 1] == 1)
            && forall i | 0 <= i < |g| - 1 :: g[i + 1] == g[i] / 2
  {
    if step > 0 {
      GapsHalve(step / 2);
      var g, h := Gaps(step), Gaps(step / 2);
      assert g == [step] + h;
      forall i | 0 <= i < |g| - 1 ensures g[i + 1] == g[i] / 2 {
        assert g[i + 1] == h[i] && (i > 0 ==> g[i] == h[i - 1]);
      }
    }
  }

  lemma {:induction false} OneOrderedIsSorted(s: seq<int>)
    requires KOrdered(s, 1)
    ensures Sorted(s)
  {
    forall i: nat, j: nat | i < j < |s| ensures s[i] <= s[j] { OneOrderedPair(s, i, j); }
  }

  lemma {:induction false} OneOrderedPair(s: seq<int>, i: nat, j: nat)
    requires KOrdered(s, 1) && i <= j < |s|
    ensures s[i] <= s[j]
    decreases j - i
  {
    if i < j { OneOrderedPair(s, i, j - 1); }
  }

  method SortForGap(a: array<int>, step: nat)
    requires step > 0
    modifies a
    ensures GapPass(old(a[..]), a[..], step)
  {
    ghost var s := a[..];
    var i := 0;
    while i < step
      invariant 0 <= i <= step && PartPass(s, a[..], step, i)
    {
      ghost var t := a[..];
      GroupSort(a, i, step);
      PartPassNext(s, t, a[..], step, i);
      i := i + 1;
    }
    PartPassDone(s, a[..], step);
  }

  lemma RunExtends(trace: seq<seq<int>>, used: seq<nat>, step: nat, t: seq<int>)
    requires step > 0 && IsRun(trace, used) && GapPass(trace[|trace| - 1], t, step)
    ensures IsRun(trace + [t], used + [step])
    ensures used + Gaps(step) == (used + [step]) + Gaps(step / 2)
  {
    var tr, us := trace + [t], used + [step];
    assert |tr| - 1 == |trace| && tr[..|trace|] == trace && tr[|trace|] == t;
    assert |us| - 1 == |used| && us[..|used|] == used && us[|used|] == step;
  }

  lemma {:induction false} RunPermutes(trace: seq<seq<int>>, gaps: seq<nat>)
    requires IsRun(trace, gaps)
    ensures Permuted(trace[0], trace[|gaps|])
    decreases |gaps|
  {
    var n := |gaps|;
    if n > 0 {
      RunPermutes(trace[..n], gaps[..n - 1]);
      assert GapPass(trace[n - 1], trace[n], gaps[n - 1]);
    }
  }

  /** A complete run ends in the sorted permutation of its first array. */
  lemma RunSorts(trace: seq<seq<int>>, n: nat)
    requires IsRun(trace, Gaps(n / 2)) && |trace[0]| == n
    ensures trace[|trace| - 1] == SortedOf(trace[0])
  {
    var gaps := Gaps(n / 2);
    RunPermutes(trace, gaps);
    if n >= 2 {
      GapsHalve(n / 2);
      UsedGapsStayOrdered(trace, gaps, |gaps| - 1, |gaps|);
      OneOrderedIsSorted(trace[|gaps|]);
    }
    PermutedIsSameMultiset(trace[0], trace[|gaps|]);
    SortedOfUnique(trace[0], trace[|gaps|]);
  }

  /** shellsort. The ghost trace records the array after each gap. */
  method ShellSort(a: array<int>) returns (ghost trace: seq<seq<int>>)
    modifies a
    ensures IsRun(trace, Gaps(a.Length / 2)) && trace[0] == old(a[..]) && trace[|trace| - 1] == a[..]
    ensures a[..] == SortedOf(old(a[..]))
  {
    ghost var gaps := Gaps(a.Length / 2);
    ghost var used: seq<nat> := [];
    trace := [a[..]];
    var step: nat := a.Length / 2;
    while step > 0
      invariant used + Gaps(step) == gaps
      invariant IsRun(trace, used) && trace[0] == old(a[..]) && trace[|trace| - 1] == a[..]
    {
      SortForGap(a, step);
      RunExtends(trace, used, step, a[..]);
      used, trace := used + [step], trace + [a[..]];
      step := step / 2;
    }
    assert used == gaps;
    RunSorts(trace, a.Length);
  }
}
