/** `quickSort(arr)`: Lomuto quicksort on a copy of the input, taking the last
    entry of each range as its pivot and recording a snapshot after every
    exchange. */
module QuickSort {
  import opened Sorting

  /** A step after the first exchanges the two highlighted positions `i <= j`
      of the previous snapshot (the same position twice leaves it as it was). */
  ghost predicate QuickMove(prev: Step, cur: Step) {
    && |cur.highlights| == 2
    && 0 <= cur.highlights[0] <= cur.highlights[1] < |prev.values|
    && cur.values == Swapped(prev.values, cur.highlights[0], cur.highlights[1])
  }

  /** The steps recorded so far, ending with the snapshot `cur`. */
  ghost predicate Recorded(steps: seq<Step>, arr: seq<int>, cur: seq<int>) {
    && |steps| >= 1 && steps[0] == Step(arr, [])
    && steps[|steps| - 1].values == cur
    && AllPermute(steps, arr)
    && (forall k :: 1 <= k < |steps| ==> QuickMove(steps[k - 1], steps[k]))
  }

  /** Positions `lo..hi-1` are ascending. */
  ghost predicate SortedRange(s: seq<int>, lo: int, hi: int) {
    forall i, j :: lo <= i < j < hi && 0 <= i && j < |s| ==> s[i] <= s[j]
  }

  /** `s` is `s0` with positions `lo..hi-1` rearranged and every other position kept. */
  ghost predicate Rearranged(s: seq<int>, s0: seq<int>, lo: int, hi: int) {
    && |s| == |s0| && 0 <= lo <= hi <= |s|
    && s[..lo] == s0[..lo] && s[hi..] == s0[hi..]
    && multiset(s) == multiset(s0)
  }

  /** `s` is `s0` with positions `l..r` sorted in place. */
  ghost predicate SortedIn(s: seq<int>, s0: seq<int>, l: int, r: int) {
    Rearranged(s, s0, l, r + 1) && SortedRange(s, l, r + 1)
  }

  /** `s` is `s0` with positions `l..r` rearranged so that the entry at `p`
      is at least every entry before it and below every entry after it. */
  ghost predicate PartitionedAt(s: seq<int>, s0: seq<int>, l: int, p: int, r: int) {
    && l <= p <= r && Rearranged(s, s0, l, r + 1)
    && (forall k :: l <= k < p ==> s[k] <= s[p])
    && (forall k :: p < k <= r ==> s[p] < s[k])
  }

  /** An empty or one-entry range is sorted as it stands. */
  lemma Unsorted(s: seq<int>, l: int, r: int)
    requires 0 <= l <= r + 1 <= |s| && r <= l
    ensures SortedIn(s, s, l, r)
  {
  }

  /** The number of entries of `t` that are at most `x`. */
  function CountAtMost(x: int, t: seq<int>): (n: nat)
    ensures n <= |t|
  {
    if t == [] then 0 else CountAtMost(x, t[..|t| - 1]) + (if t[|t| - 1] <= x then 1 else 0)
  }

  /** The exchange steps of one partition, from index `base` on: the `m`-th
      highlights `[l + m, j_m]`, where `j_m` is a position below `j` holding,
      before the partition, an entry at most `pivot`, and the `j_m` increase. */
  ghost predicate Exchanges(steps: seq<Step>, base: int, l: int, j: int, pivot: int, s0: seq<int>) {
    && 0 <= base <= |steps| && 0 <= l && j <= |s0|
    && (forall m :: base <= m < |steps| ==>
          && |steps[m].highlights| == 2
          && steps[m].highlights[0] == l + (m - base)
          && l + (m - base) <= steps[m].highlights[1] < j
          && s0[steps[m].highlights[1]] <= pivot)
    && (forall m, m' :: base <= m < m' < |steps| ==> steps[m].highlights[1] < steps[m'].highlights[1])
  }

  /** `s[l..i]` are at most `x` and `s[i+1..j-1]` are above it. */
  ghost predicate Split(s: seq<int>, l: int, i: int, j: int, x: int) {
    && (forall k :: l <= k <= i && 0 <= k < |s| ==> s[k] <= x)
    && (forall k :: i < k < j && 0 <= k < |s| ==> s[k] > x)
  }

  /** The invariant of the partition loop at `j`: `s[l..i]` are at most the
      pivot `s0[r]`, `s[i+1..j-1]` are above it, only `l..j-1` were touched,
      `i + 1 - l` entries of `s0[l..j-1]` are at most the pivot, and one
      exchange step was recorded for each of them. */
  ghost predicate Partitioning(s: seq<int>, s0: seq<int>, l: int, r: int, i: int, j: int,
                               steps: seq<Step>, base: int, arr: seq<int>) {
    && 0 <= l <= j <= r < |s0| && l - 1 <= i < j
    && Rearranged(s, s0, l, j)
    && Split(s, l, i, j, s0[r])
    && i + 1 - l == CountAtMost(s0[r], s0[l..j])
    && Recorded(steps, arr, s)
    && |steps| == base + (i + 1 - l)
    && Exchanges(steps, base, l, j, s0[r], s0)
  }

  /** The steps: the input, one snapshot per exchange, and the sorted array
      again. The last snapshot is the ascending rearrangement of the input,
      every step rearranges the input, and every step between the first and
      the last exchanges two positions of the one before. */
  method QuickSort(arr: seq<int>) returns (steps: seq<Step>)
    ensures |steps| >= 2 && steps[0] == Step(arr, [])
    ensures steps[|steps| - 1] == Step(steps[|steps| - 2].values, [])
    ensures Sorted(steps[|steps| - 1].values)
    ensures AllPermute(steps, arr)
    ensures forall k :: 1 <= k < |steps| - 1 ==> QuickMove(steps[k - 1], steps[k])
  {
    var a := new int[|arr|](k requires 0 <= k < |arr| => arr[k]);
    assert a[..] == arr;
    steps := [Step(a[..], [])];
    steps := Quick(a, 0, a.Length - 1, arr, steps);
    Close(steps, arr, a[..]);
    steps := steps + [Step(a[..], [])];
  }

  /** The closing snapshot completes the record. */
  lemma Close(steps: seq<Step>, arr: seq<int>, s: seq<int>)
    requires Recorded(steps, arr, s) && SortedRange(s, 0, |s|)
    ensures var steps' := steps + [Step(s, [])];
      && Sorted(s) && AllPermute(steps', arr)
      && (forall k :: 1 <= k < |steps'| - 1 ==> QuickMove(steps'[k - 1], steps'[k]))
  {
    AppendPermute(steps, arr, s, []);
  }

  /** `quick(l, r)`: sort positions `l..r`, leaving the others alone, and
      extend the steps recorded so far. */
  method Quick(a: array<int>, l: int, r: int, ghost arr: seq<int>, steps0: seq<Step>) returns (steps: seq<Step>)
    requires 0 <= l <= r + 1 <= a.Length
    requires Recorded(steps0, arr, a[..])
    modifies a
    ensures SortedIn(a[..], old(a[..]), l, r)
    ensures Recorded(steps, arr, a[..])
    ensures |steps| >= |steps0| && steps[..|steps0|] == steps0
    decreases r - l
  {
    steps := steps0;
    if l < r {
      ghost var s0 := a[..];
      var p;
      p, steps := Partition(a, l, r, arr, steps);
      ghost var s1, t1 := a[..], steps;
      assert t1[..|t1| - 1][..|steps0|] == t1[..|steps0|];
      steps := Quick(a, l, p - 1, arr, steps);
      ghost var s2, t2 := a[..], steps;
      PrefixTrans(steps0, t1, t2);
      SortedLow(s0, s1, s2, l, p, r);
      steps := Quick(a, p + 1, r, arr, steps);
      PrefixTrans(steps0, t2, steps);
      SortedHigh(s0, s2, a[..], l, p, r);
    } else {
      Unsorted(a[..], l, r);
    }
  }

  /** Steps that extend steps extending `a` extend `a`. */
  lemma PrefixTrans(a: seq<Step>, b: seq<Step>, c: seq<Step>)
    requires |b| >= |a| && b[..|a|] == a
    requires |c| >= |b| && c[..|b|] == b
    ensures |c| >= |a| && c[..|a|] == a
  {
    assert c[..|a|] == c[..|b|][..|a|];
  }

  /** Sorting the low side of a partitioned range in place keeps it partitioned. */
  lemma SortedLow(s0: seq<int>, s1: seq<int>, s2: seq<int>, l: int, p: int, r: int)
    requires PartitionedAt(s1, s0, l, p, r) && SortedIn(s2, s1, l, p - 1)
    ensures PartitionedAt(s2, s0, l, p, r) && SortedRange(s2, l, p)
  {
    AtMostKept(s2, s1, l, p, s1[p]);
    Kept(s2, s1, l, p);
    RearrangedWiden(s2, s1, l, r + 1, l, p);
    RearrangedTrans(s2, s1, s0, l, r + 1);
  }

  /** Sorting the high side as well sorts the whole range. */
  lemma SortedHigh(s0: seq<int>, s2: seq<int>, s3: seq<int>, l: int, p: int, r: int)
    requires PartitionedAt(s2, s0, l, p, r) && SortedRange(s2, l, p) && SortedIn(s3, s2, p + 1, r)
    ensures SortedIn(s3, s0, l, r)
  {
    AboveKept(s3, s2, p + 1, r + 1, s2[p]);
    Kept(s3, s2, p + 1, r + 1);
    JoinSorted(s3, l, p, r, s2[p]);
    RearrangedWiden(s3, s2, l, r + 1, p + 1, r + 1);
    RearrangedTrans(s3, s2, s0, l, r + 1);
  }

  /** Outside the rearranged range nothing moved. */
  lemma Kept(s: seq<int>, s0: seq<int>, lo: int, hi: int)
    requires Rearranged(s, s0, lo, hi)
    ensures forall k :: 0 <= k < |s| && !(lo <= k < hi) ==> s[k] == s0[k]
  {
    forall k | 0 <= k < |s| && !(lo <= k < hi) ensures s[k] == s0[k] {
      if k < lo {
        assert s[..lo][k] == s0[..lo][k];
      } else {
        assert s[hi..][k - hi] == s0[hi..][k - hi];
      }
    }
  }

  /** Two sorted sides around an entry between them make a sorted range. */
  lemma JoinSorted(s: seq<int>, l: int, p: int, r: int, x: int)
    requires 0 <= l <= p <= r < |s| && s[p] == x
    requires SortedRange(s, l, p) && SortedRange(s, p + 1, r + 1)
    requires forall k :: l <= k < p ==> s[k] <= x
    requires forall k :: p < k <= r ==> s[k] > x
    ensures SortedRange(s, l, r + 1)
  {
  }

  /** `partition(l, r)`: move the entries at most the pivot `a[r]` to the
      front of the range, then the pivot right after them. It returns the
      pivot's position `p`, which is `l` plus the number of entries of
      `a[l..r-1]` at most the pivot; everything before `p` in the range is at
      most the pivot and everything after it is above; only the range is
      rearranged. One step `[i, j]` was recorded for each such entry in
      ascending order of position (also when `i == j`), then one `[p, r]`. */
  method Partition(a: array<int>, l: int, r: int, ghost arr: seq<int>, steps0: seq<Step>)
    returns (p: int, steps: seq<Step>)
    requires 0 <= l <= r < a.Length
    requires Recorded(steps0, arr, a[..])
    modifies a
    ensures PartitionedAt(a[..], old(a[..]), l, p, r) && a[p] == old(a[r])
    ensures p - l == CountAtMost(old(a[r]), old(a[l..r]))
    ensures Recorded(steps, arr, a[..])
    ensures |steps| == |steps0| + (p - l) + 1 && steps[..|steps| - 1][..|steps0|] == steps0
    ensures Exchanges(steps[..|steps| - 1], |steps0|, l, r, old(a[r]), old(a[..]))
    ensures steps[|steps| - 1].highlights == [p, r]
  {
    ghost var s0 := a[..];
    var pivot := a[r];
    var i := l - 1;
    steps := steps0;
    assert s0[l..l] == [];
    for j := l to r
      invariant Partitioning(a[..], s0, l, r, i, j, steps, |steps0|, arr)
      invariant steps[..|steps0|] == steps0
    {
      i, steps := Examine(a, l, r, i, j, s0, arr, steps, |steps0|);
    }
    ghost var before := steps;
    p, steps := Pivot(a, l, r, i, s0, arr, steps, |steps0|);
    assert steps[..|steps| - 1] == before;
  }

  /** The last exchange of a partition: the pivot moves to `i + 1`. */
  method Pivot(a: array<int>, l: int, r: int, i: int, ghost s0: seq<int>, ghost arr: seq<int>,
               steps0: seq<Step>, ghost base: int)
    returns (p: int, steps: seq<Step>)
    requires Partitioning(a[..], s0, l, r, i, r, steps0, base, arr)
    modifies a
    ensures p == i + 1 && PartitionedAt(a[..], s0, l, p, r) && a[p] == s0[r]
    ensures Recorded(steps, arr, a[..]) && steps == steps0 + [Step(a[..], [p, r])]
  {
    ghost var s := a[..];
    PlacePivot(s, s0, l, r, i, steps0, base, arr);
    p := i + 1;
    a[p], a[r] := a[r], a[p];
    assert a[..] == Swapped(s, p, r);
    steps := steps0 + [Step(a[..], [p, r])];
  }

  /** One round of the partition loop: an entry at most the pivot is
      exchanged to position `i + 1` and recorded. */
  method Examine(a: array<int>, l: int, r: int, i: int, j: int, ghost s0: seq<int>,
                 ghost arr: seq<int>, steps0: seq<Step>, ghost base: int)
    returns (i': int, steps: seq<Step>)
    requires j < r && Partitioning(a[..], s0, l, r, i, j, steps0, base, arr)
    modifies a
    ensures Partitioning(a[..], s0, l, r, i', j + 1, steps, base, arr)
    ensures |steps| >= |steps0| && steps[..|steps0|] == steps0
  {
    i' := i;
    steps := steps0;
    if a[j] <= a[r] {
      ghost var s := a[..];
      TakeLow(s, s0, l, r, i, j, steps, base, arr);
      i' := i + 1;
      a[i'], a[j] := a[j], a[i'];
      assert a[..] == Swapped(s, i', j);
      steps := steps + [Step(a[..], [i', j])];
    } else {
      SkipHigh(a[..], s0, l, r, i, j, steps, base, arr);
    }
  }

  /** An entry at most the pivot joins the low side by an exchange with the
      first entry of the high side. */
  lemma TakeLow(s: seq<int>, s0: seq<int>, l: int, r: int, i: int, j: int,
                steps: seq<Step>, base: int, arr: seq<int>)
    requires j < r && Partitioning(s, s0, l, r, i, j, steps, base, arr) && s[j] <= s0[r]
    ensures var s' := Swapped(s, i + 1, j);
      Partitioning(s', s0, l, r, i + 1, j + 1, steps + [Step(s', [i + 1, j])], base, arr)
  {
    var s' := Swapped(s, i + 1, j);
    SplitLow(s, l, i, j, s0[r]);
    SwapRearranged(s, i + 1, j, l, j + 1);
    RearrangedWiden(s, s0, l, j + 1, l, j);
    RearrangedTrans(s', s, s0, l, j + 1);
    CountStep(s0[r], s0, l, j);
    RecordSwap(steps, arr, s, i + 1, j);
    ExchangesStep(steps, base, l, j, s0[r], s0, [i + 1, j], s');
  }

  /** An entry above the pivot stays where it is, extending the high side. */
  lemma SkipHigh(s: seq<int>, s0: seq<int>, l: int, r: int, i: int, j: int,
                 steps: seq<Step>, base: int, arr: seq<int>)
    requires j < r && Partitioning(s, s0, l, r, i, j, steps, base, arr) && s[j] > s0[r]
    ensures Partitioning(s, s0, l, r, i, j + 1, steps, base, arr)
  {
    RearrangedWiden(s, s0, l, j + 1, l, j);
    CountStep(s0[r], s0, l, j);
  }

  /** Once the loop has passed every entry, exchanging the pivot to `i + 1`
      splits the range. */
  lemma PlacePivot(s: seq<int>, s0: seq<int>, l: int, r: int, i: int,
                   steps: seq<Step>, base: int, arr: seq<int>)
    requires Partitioning(s, s0, l, r, i, r, steps, base, arr)
    ensures var s' := Swapped(s, i + 1, r);
      && PartitionedAt(s', s0, l, i + 1, r) && s'[i + 1] == s0[r]
      && Recorded(steps + [Step(s', [i + 1, r])], arr, s')
  {
    var s' := Swapped(s, i + 1, r);
    SplitPivot(s, l, i, r, s0[r]);
    SwapRearranged(s, i + 1, r, l, r + 1);
    RearrangedWiden(s, s0, l, r + 1, l, r);
    RearrangedTrans(s', s, s0, l, r + 1);
    RecordSwap(steps, arr, s, i + 1, r);
  }

  /** Exchanging an entry at most `x` with the first entry above `x` moves
      the boundary between the two sides up by one. */
  lemma SplitLow(s: seq<int>, l: int, i: int, j: int, x: int)
    requires l - 1 <= i < j < |s| && 0 <= l && Split(s, l, i, j, x) && s[j] <= x
    ensures Split(Swapped(s, i + 1, j), l, i + 1, j + 1, x)
  {
  }

  /** Exchanging the pivot, kept at `r`, with the first entry above it. */
  lemma SplitPivot(s: seq<int>, l: int, i: int, r: int, x: int)
    requires 0 <= l && l - 1 <= i < r < |s| && Split(s, l, i, r, x) && s[r] == x
    ensures var s' := Swapped(s, i + 1, r);
      && s'[i + 1] == x
      && (forall k :: l <= k < i + 1 ==> s'[k] <= x)
      && (forall k :: i + 1 < k <= r ==> x < s'[k])
  {
  }

  /** Counting one more entry of `s0`. */
  lemma CountStep(x: int, s0: seq<int>, l: int, j: int)
    requires 0 <= l <= j < |s0|
    ensures CountAtMost(x, s0[l..j + 1]) == CountAtMost(x, s0[l..j]) + (if s0[j] <= x then 1 else 0)
  {
    assert s0[l..j + 1][..j - l] == s0[l..j];
  }

  /** Recording an exchange step. */
  lemma RecordSwap(steps: seq<Step>, arr: seq<int>, s: seq<int>, i: int, j: int)
    requires Recorded(steps, arr, s) && 0 <= i <= j < |s|
    ensures Recorded(steps + [Step(Swapped(s, i, j), [i, j])], arr, Swapped(s, i, j))
  {
    var steps' := steps + [Step(Swapped(s, i, j), [i, j])];
    assert QuickMove(steps'[|steps| - 1], steps'[|steps|]);
    AppendPermute(steps, arr, Swapped(s, i, j), [i, j]);
  }

  /** The exchange step for position `j` extends the record of the partition. */
  lemma ExchangesStep(steps: seq<Step>, base: int, l: int, j: int, pivot: int, s0: seq<int>,
                      h: seq<int>, s': seq<int>)
    requires Exchanges(steps, base, l, j, pivot, s0) && 0 <= j < |s0|
    requires h == [l + (|steps| - base), j] && l + (|steps| - base) <= j && s0[j] <= pivot
    ensures Exchanges(steps + [Step(s', h)], base, l, j + 1, pivot, s0)
  {
    var steps' := steps + [Step(s', h)];
    assert forall m :: base <= m < |steps| ==> steps'[m] == steps[m];
  }

  /** Exchanging two positions of a range rearranges that range. */
  lemma SwapRearranged(s: seq<int>, i: int, j: int, lo: int, hi: int)
    requires 0 <= lo <= i < hi <= |s| && lo <= j < hi
    ensures Rearranged(Swapped(s, i, j), s, lo, hi)
  {
    var t := Swapped(s, i, j);
    assert t[..lo] == s[..lo] && t[hi..] == s[hi..];
  }

  /** A rearrangement of a range is one of any range around it. */
  lemma RearrangedWiden(s: seq<int>, s0: seq<int>, lo: int, hi: int, lo': int, hi': int)
    requires Rearranged(s, s0, lo', hi') && 0 <= lo <= lo' && hi' <= hi <= |s|
    ensures Rearranged(s, s0, lo, hi)
  {
    assert s[..lo] == s[..lo'][..lo] && s0[..lo] == s0[..lo'][..lo];
    assert s[hi..] == s[hi'..][hi - hi'..] && s0[hi..] == s0[hi'..][hi - hi'..];
  }

  lemma RearrangedTrans(s2: seq<int>, s1: seq<int>, s0: seq<int>, lo: int, hi: int)
    requires Rearranged(s2, s1, lo, hi) && Rearranged(s1, s0, lo, hi)
    ensures Rearranged(s2, s0, lo, hi)
  {
  }

  /** A rearranged range holds the entries it held before. */
  lemma RangeMultiset(s: seq<int>, s0: seq<int>, lo: int, hi: int)
    requires Rearranged(s, s0, lo, hi)
    ensures multiset(s[lo..hi]) == multiset(s0[lo..hi])
  {
    assert s == s[..lo] + s[lo..hi] + s[hi..];
    assert s0 == s0[..lo] + s0[lo..hi] + s0[hi..];
    assert multiset(s[lo..hi]) == multiset(s) - multiset(s[..lo]) - multiset(s[hi..]);
    assert multiset(s0[lo..hi]) == multiset(s0) - multiset(s0[..lo]) - multiset(s0[hi..]);
  }

  /** Rearranging a range keeps every entry of it at most `x`. */
  lemma AtMostKept(s: seq<int>, s0: seq<int>, lo: int, hi: int, x: int)
    requires Rearranged(s, s0, lo, hi) && forall k :: lo <= k < hi ==> s0[k] <= x
    ensures forall k :: lo <= k < hi ==> s[k] <= x
  {
    RangeMultiset(s, s0, lo, hi);
    forall k | lo <= k < hi ensures s[k] <= x {
      assert s[lo..hi][k - lo] == s[k];
      assert s[k] in multiset(s0[lo..hi]);
      var k' :| lo <= k' < hi && s0[k'] == s[k] by {
        assert s[k] in s0[lo..hi];
        var m :| 0 <= m < hi - lo && s0[lo..hi][m] == s[k];
        assert s0[lo + m] == s[k];
      }
    }
  }

  /** Rearranging a range keeps every entry of it above `x`. */
  lemma AboveKept(s: seq<int>, s0: seq<int>, lo: int, hi: int, x: int)
    requires Rearranged(s, s0, lo, hi) && forall k :: lo <= k < hi ==> s0[k] > x
    ensures forall k :: lo <= k < hi ==> s[k] > x
  {
    RangeMultiset(s, s0, lo, hi);
    forall k | lo <= k < hi ensures s[k] > x {
      assert s[lo..hi][k - lo] == s[k];
      assert s[k] in multiset(s0[lo..hi]);
      var k' :| lo <= k' < hi && s0[k'] == s[k] by {
        assert s[k] in s0[lo..hi];
        var m :| 0 <= m < hi - lo && s0[lo..hi][m] == s[k];
        assert s0[lo + m] == s[k];
      }
    }
  }
}
