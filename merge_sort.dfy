/** `mergeSort(arr)`: bottom-up merge sort on a copy of the input. Each pass
    merges neighbouring runs of `width` entries into runs of `2 * width`,
    recording a snapshot after every merged pair; `width` doubles until it
    covers the array. */
module MergeSort {
  import opened Sorting

  function Min(a: int, b: int): int {
    if a <= b then a else b
  }

  /** Every entry of `s` is at most every entry of `t`. */
  ghost predicate NoneAbove(s: seq<int>, t: seq<int>) {
    forall p, q :: 0 <= p < |s| && 0 <= q < |t| ==> s[p] <= t[q]
  }

  /** `merge(left, right)`: repeatedly move the smaller head (the left one on
      ties) to the result, then append what remains. The result rearranges
      the two inputs together, and is ascending when both inputs are. */
  method Merge(left: seq<int>, right: seq<int>) returns (result: seq<int>)
    ensures multiset(result) == multiset(left) + multiset(right)
    ensures Sorted(left) && Sorted(right) ==> Sorted(result)
  {
    var l, r := left, right;
    result := [];
    while l != [] && r != []
      invariant MergeInv(left, right, result, l, r)
      decreases |l| + |r|
    {
      if l[0] <= r[0] {
        TakeLeft(left, right, result, l, r);
        result := result + [l[0]];
        l := l[1..];
      } else {
        TakeRight(left, right, result, l, r);
        result := result + [r[0]];
        r := r[1..];
      }
    }
    Drain(left, right, result, l, r);
    result := result + l + r;
  }

  /** The state of `merge`: `l` and `r` are what is left of `left` and
      `right`, nothing has been lost, and (for ascending inputs) the result so
      far is ascending and below everything left. */
  ghost predicate MergeInv(left: seq<int>, right: seq<int>, result: seq<int>, l: seq<int>, r: seq<int>) {
    && |l| <= |left| && l == left[|left| - |l|..]
    && |r| <= |right| && r == right[|right| - |r|..]
    && multiset(result) + multiset(l) + multiset(r) == multiset(left) + multiset(right)
    && (Sorted(left) && Sorted(right) ==> Sorted(result) && NoneAbove(result, l) && NoneAbove(result, r))
  }

  /** Two rearrangements of each other have the same length. */
  lemma MergedLength(merged: seq<int>, left: seq<int>, right: seq<int>)
    requires multiset(merged) == multiset(left) + multiset(right)
    ensures |merged| == |left| + |right|
  {
    assert multiset(left + right) == multiset(left) + multiset(right);
    assert |multiset(merged)| == |merged|;
    assert |multiset(left + right)| == |left + right|;
  }

  /** `result.push(left.shift())` when the left head is no larger. */
  lemma TakeLeft(left: seq<int>, right: seq<int>, result: seq<int>, l: seq<int>, r: seq<int>)
    requires MergeInv(left, right, result, l, r) && l != [] && r != [] && l[0] <= r[0]
    ensures MergeInv(left, right, result + [l[0]], l[1..], r)
  {
    MoveHead(result, l);
    SuffixTail(left, l);
    if Sorted(left) && Sorted(right) {
      SuffixSorted(left, l);
      SuffixSorted(right, r);
      Advance(result, l, r);
    }
  }

  /** `result.push(right.shift())` when the right head is smaller. */
  lemma TakeRight(left: seq<int>, right: seq<int>, result: seq<int>, l: seq<int>, r: seq<int>)
    requires MergeInv(left, right, result, l, r) && l != [] && r != [] && r[0] < l[0]
    ensures MergeInv(left, right, result + [r[0]], l, r[1..])
  {
    MoveRightHead(result, l, r);
    SuffixTail(right, r);
    if Sorted(left) && Sorted(right) {
      SuffixSorted(left, l);
      SuffixSorted(right, r);
      Advance(result, r, l);
    }
  }

  /** `result.push(from.shift())` moves one entry and loses none. */
  lemma MoveHead(result: seq<int>, from: seq<int>)
    requires from != []
    ensures multiset(result + [from[0]]) + multiset(from[1..]) == multiset(result) + multiset(from)
  {
    assert from == [from[0]] + from[1..];
  }

  /** `result.push(right.shift())` moves one entry and loses none. */
  lemma MoveRightHead(result: seq<int>, l: seq<int>, r: seq<int>)
    requires r != []
    ensures multiset(result + [r[0]]) + multiset(l) + multiset(r[1..]) == multiset(result) + multiset(l) + multiset(r)
  {
    assert r == [r[0]] + r[1..];
    assert multiset(r) == multiset{r[0]} + multiset(r[1..]);
    assert multiset(result + [r[0]]) == multiset(result) + multiset{r[0]};
  }

  /** Moving the head of `from`, no larger than the head of `other`, keeps the
      result ascending and below both remainders. */
  lemma Advance(result: seq<int>, from: seq<int>, other: seq<int>)
    requires from != [] && Sorted(from) && Sorted(other)
    requires other != [] ==> from[0] <= other[0]
    requires Sorted(result) && NoneAbove(result, from) && NoneAbove(result, other)
    ensures Sorted(result + [from[0]])
    ensures NoneAbove(result + [from[0]], from[1..]) && NoneAbove(result + [from[0]], other)
  {
  }

  lemma SuffixTail(xs: seq<int>, l: seq<int>)
    requires l != [] && |l| <= |xs| && l == xs[|xs| - |l|..]
    ensures |l[1..]| <= |xs| && l[1..] == xs[|xs| - |l[1..]|..]
  {
  }

  lemma SuffixSorted(xs: seq<int>, l: seq<int>)
    requires Sorted(xs) && |l| <= |xs| && l == xs[|xs| - |l|..]
    ensures Sorted(l)
  {
  }

  /** `result.concat(left).concat(right)` once one side is empty. */
  lemma Drain(left: seq<int>, right: seq<int>, result: seq<int>, l: seq<int>, r: seq<int>)
    requires MergeInv(left, right, result, l, r) && (l == [] || r == [])
    ensures multiset(result + l + r) == multiset(left) + multiset(right)
    ensures Sorted(left) && Sorted(right) ==> Sorted(result + l + r)
  {
  }

  // ---------------------------------------------------------------------------
  // Runs, passes and counts

  /** The blocks `[lo, lo+b)`, `[lo+b, lo+2b)`, ... of `s` (cut off at the end
      of `s`) that start before `hi` are each ascending. */
  ghost predicate Runs(s: seq<int>, b: nat, lo: nat, hi: nat)
    requires b >= 1
    decreases hi - lo
  {
    lo >= hi || lo >= |s| || (Sorted(s[lo..Min(lo + b, |s|)]) && Runs(s, b, lo + b, hi))
  }

  /** `hi` is `lo` plus a multiple of `b`. */
  ghost predicate Aligned(lo: nat, hi: nat, b: nat)
    requires b >= 1
    decreases hi - lo
  {
    lo == hi || (lo + b <= hi && Aligned(lo + b, hi, b))
  }

  /** No step highlights anything. */
  ghost predicate Quiet(steps: seq<Step>) {
    forall k :: 0 <= k < |steps| ==> steps[k].highlights == []
  }

  /** The snapshots recorded so far: the input first, the array as it now is
      (`cur`) last, each a rearrangement of the input, none highlighting anything. */
  ghost predicate Snapshots(steps: seq<Step>, arr: seq<int>, cur: seq<int>) {
    && |steps| >= 1 && steps[0] == Step(arr, []) && steps[|steps| - 1] == Step(cur, [])
    && AllPermute(steps, arr) && Quiet(steps)
  }

  /** `snapshot(a)` of a rearrangement of the input. */
  lemma Snapshot(steps: seq<Step>, arr: seq<int>, cur: seq<int>, next: seq<int>)
    requires Snapshots(steps, arr, cur) && multiset(next) == multiset(arr)
    ensures Snapshots(steps + [Step(next, [])], arr, next)
  {
    var steps' := steps + [Step(next, [])];
    assert forall k :: 0 <= k < |steps| ==> steps'[k] == steps[k];
    AppendPermute(steps, arr, next, []);
  }

  /** The number of blocks of width `b` that start in `[lo, n)`. */
  function Chunks(lo: nat, n: nat, b: nat): nat
    requires b >= 1
    decreases n - lo
  {
    if lo >= n then 0 else 1 + Chunks(lo + b, n, b)
  }

  /** The number of merged pairs over all passes, starting from `width`. */
  function MergeCount(n: nat, width: nat): nat
    requires width >= 1
    decreases n - width
  {
    if width >= n then 0 else Chunks(0, n, 2 * width) + MergeCount(n, 2 * width)
  }

  /** `Chunks(lo, n, b)` is the ceiling of `(n - lo) / b`: one block pair per
      started stretch of `b` entries. */
  lemma {:induction false} ChunksCeil(lo: nat, n: nat, b: nat)
    requires b >= 1 && lo < n
    ensures b * (Chunks(lo, n, b) - 1) < n - lo <= b * Chunks(lo, n, b)
    decreases n - lo
  {
    if lo + b < n {
      ChunksCeil(lo + b, n, b);
      var c := Chunks(lo + b, n, b);
      assert b * c == b * (c - 1) + b;
      assert b * (c + 1) == b * c + b;
    }
  }

  /** One-entry blocks are always ascending. */
  lemma {:induction false} RunsSingles(s: seq<int>, lo: nat, hi: nat)
    ensures Runs(s, 1, lo, hi)
    decreases hi - lo
  {
    if lo < hi && lo < |s| {
      RunsSingles(s, lo + 1, hi);
    }
  }

  /** Appending an ascending block at an aligned position `i`. */
  lemma {:induction false} RunsExtend(s: seq<int>, s': seq<int>, b: nat, lo: nat, i: nat)
    requires b >= 1 && |s'| == |s| && lo <= i < |s|
    requires Aligned(lo, i, b) && Runs(s, b, lo, i)
    requires s'[lo..i] == s[lo..i]
    requires Sorted(s'[i..Min(i + b, |s|)])
    ensures Aligned(lo, i + b, b) && Runs(s', b, lo, i + b)
    decreases i - lo
  {
    if lo < i {
      assert s'[lo..lo + b] == s[lo..i][..b] == s[lo..lo + b];
      assert s'[lo + b..i] == s[lo..i][b..] == s[lo + b..i];
      RunsExtend(s, s', b, lo + b, i);
    }
  }

  /** Runs from `lo` on depend only on the entries from `lo` on. */
  lemma {:induction false} RunsFrame(s: seq<int>, s': seq<int>, b: nat, lo: nat, hi: nat)
    requires b >= 1 && |s'| == |s| && lo <= |s|
    requires s'[lo..] == s[lo..] && Runs(s, b, lo, hi)
    ensures Runs(s', b, lo, hi)
    decreases hi - lo
  {
    if lo < hi && lo < |s| {
      var e := Min(lo + b, |s|);
      assert s'[lo..e] == s'[lo..][..e - lo] == s[lo..][..e - lo] == s[lo..e];
      assert s'[e..] == s'[lo..][e - lo..] == s[lo..][e - lo..] == s[e..];
      RunsFrame(s, s', b, e, hi);
    }
  }

  /** Blocks starting at or past the end say nothing. */
  lemma {:induction false} RunsBeyond(s: seq<int>, b: nat, lo: nat, hi: nat)
    requires b >= 1 && hi >= |s| && Runs(s, b, lo, hi)
    ensures Runs(s, b, lo, |s|)
    decreases hi - lo
  {
    if lo < hi && lo < |s| {
      RunsBeyond(s, b, lo + b, hi);
    }
  }

  /** One block covering the whole array: it is ascending. */
  lemma RunsWhole(s: seq<int>, b: nat)
    requires b >= 1 && b >= |s| && Runs(s, b, 0, |s|)
    ensures Sorted(s)
  {
    if s != [] {
      assert s[0..Min(b, |s|)] == s;
    }
  }

  /** Merging the pair of `width`-blocks at `i` into `s'` keeps the runs of
      `2 * width` before the pair and of `width` after it. */
  lemma MergeStep(s: seq<int>, s': seq<int>, width: nat, i: nat, merged: seq<int>)
    requires 1 <= width && i < |s| && Aligned(0, i, 2 * width)
    requires Runs(s, 2 * width, 0, i) && Runs(s, width, i, |s|)
    requires Sorted(merged) && |merged| == Min(i + 2 * width, |s|) - i
    requires s' == s[..i] + merged + s[Min(i + 2 * width, |s|)..]
    ensures |s'| == |s| && Aligned(0, i + 2 * width, 2 * width)
    ensures Runs(s', 2 * width, 0, i + 2 * width) && Runs(s', width, i + 2 * width, |s|)
  {
    var hi := Min(i + 2 * width, |s|);
    assert s'[0..i] == s[0..i];
    assert s'[i..hi] == merged;
    RunsExtend(s, s', 2 * width, 0, i);
    if hi < |s| {
      assert Runs(s, width, i + width, |s|);
      assert s'[hi..] == s[hi..];
      RunsFrame(s, s', width, hi, |s|);
    }
  }

  /** Writing back a rearrangement of the pair rearranges the whole array. */
  lemma MergePermutes(s: seq<int>, i: nat, mid: nat, hi: nat, merged: seq<int>)
    requires i <= mid <= hi <= |s|
    requires multiset(merged) == multiset(s[i..mid]) + multiset(s[mid..hi])
    ensures multiset(s[..i] + merged + s[hi..]) == multiset(s)
  {
    assert s == s[..i] + s[i..mid] + s[mid..hi] + s[hi..];
  }

  /** The ascending blocks `left` and `right` of the pair at `i`. */
  lemma PairSorted(s: seq<int>, width: nat, i: nat)
    requires 1 <= width && i < |s| && Runs(s, width, i, |s|)
    ensures Sorted(s[i..Min(i + width, |s|)])
    ensures Sorted(s[Min(i + width, |s|)..Min(i + 2 * width, |s|)])
  {
    if i + width < |s| {
      assert Runs(s, width, i + width, |s|);
    }
  }

  /** `for (k = 0; k < merged.length; k++) a[i + k] = merged[k]`. */
  method WriteBack(a: array<int>, i: nat, merged: seq<int>)
    requires i + |merged| <= a.Length
    modifies a
    ensures a[..] == old(a[..i]) + merged + old(a[i + |merged|..])
  {
    for k := 0 to |merged|
      invariant forall p :: 0 <= p < a.Length ==> a[p] == if i <= p < i + k then merged[p - i] else old(a[p])
    {
      a[i + k] := merged[k];
    }
    ghost var t := old(a[..i]) + merged + old(a[i + |merged|..]);
    assert forall p :: 0 <= p < a.Length ==> a[..][p] == t[p];
  }

  /** Partway through the pass at `width`: the runs before `i` have been
      merged to width `2 * width`, those from `i` on are still of `width`. */
  ghost predicate Merging(s: seq<int>, width: nat, i: nat)
    requires width >= 1
  {
    Aligned(0, i, 2 * width) && Runs(s, 2 * width, 0, i) && Runs(s, width, i, |s|)
  }

  /** One pass at `width`: merge each pair of neighbouring runs, recording a
      snapshot after each. */
  method Pass(a: array<int>, width: nat, ghost arr: seq<int>, steps0: seq<Step>) returns (steps: seq<Step>)
    requires 1 <= width < a.Length
    requires multiset(a[..]) == multiset(arr) && Runs(a[..], width, 0, a.Length)
    requires Snapshots(steps0, arr, a[..])
    modifies a
    ensures multiset(a[..]) == multiset(arr) && Runs(a[..], 2 * width, 0, a.Length)
    ensures Snapshots(steps, arr, a[..])
    ensures |steps| == |steps0| + Chunks(0, a.Length, 2 * width)
  {
    steps := steps0;
    var i := 0;
    while i < a.Length
      invariant multiset(a[..]) == multiset(arr) && Merging(a[..], width, i)
      invariant Snapshots(steps, arr, a[..])
      invariant |steps| - |steps0| + Chunks(i, a.Length, 2 * width) == Chunks(0, a.Length, 2 * width)
      decreases a.Length - i
    {
      steps := MergePair(a, width, i, arr, steps);
      i := i + 2 * width;
    }
    RunsBeyond(a[..], 2 * width, 0, i);
  }

  /** `left = a.slice(i, i + width)`, `right = a.slice(i + width, i + 2 * width)`:
      merge them, write the result back at `i`, and record a snapshot. */
  method MergePair(a: array<int>, width: nat, i: nat, ghost arr: seq<int>, steps0: seq<Step>) returns (steps: seq<Step>)
    requires 1 <= width && i < a.Length
    requires multiset(a[..]) == multiset(arr) && Merging(a[..], width, i)
    requires Snapshots(steps0, arr, a[..])
    modifies a
    ensures multiset(a[..]) == multiset(arr) && Merging(a[..], width, i + 2 * width)
    ensures Snapshots(steps, arr, a[..]) && |steps| == |steps0| + 1
  {
    var mid := Min(i + width, a.Length);
    var hi := Min(i + 2 * width, a.Length);
    PairSorted(a[..], width, i);
    var merged := Merge(a[i..mid], a[mid..hi]);
    MergedLength(merged, a[i..mid], a[mid..hi]);
    MergePermutes(a[..], i, mid, hi, merged);
    steps := Place(a, width, i, merged, arr, steps0);
  }

  /** Write the merged pair back at `i` and record the snapshot. */
  method Place(a: array<int>, width: nat, i: nat, merged: seq<int>, ghost arr: seq<int>, steps0: seq<Step>)
    returns (steps: seq<Step>)
    requires 1 <= width && i < a.Length && Merging(a[..], width, i)
    requires Sorted(merged) && |merged| == Min(i + 2 * width, a.Length) - i
    requires multiset(a[..i] + merged + a[Min(i + 2 * width, a.Length)..]) == multiset(arr)
    requires Snapshots(steps0, arr, a[..])
    modifies a
    ensures multiset(a[..]) == multiset(arr) && Merging(a[..], width, i + 2 * width)
    ensures Snapshots(steps, arr, a[..]) && |steps| == |steps0| + 1
  {
    ghost var before := a[..];
    WriteBack(a, i, merged);
    ghost var after := a[..];
    MergeStep(before, after, width, i, merged);
    Snapshot(steps0, arr, before, after);
    steps := steps0 + [Step(a[..], [])];
  }

  /** The steps: the input, one snapshot per merged pair in every pass, and
      the final array, which is the ascending rearrangement of the input. No
      step highlights anything. */
  method MergeSort(arr: seq<int>) returns (steps: seq<Step>)
    ensures |steps| >= 2 && steps[0] == Step(arr, [])
    ensures steps[|steps| - 1] == steps[|steps| - 2] && Sorted(steps[|steps| - 1].values)
    ensures AllPermute(steps, arr) && Quiet(steps)
    ensures |steps| == 2 + MergeCount(|arr|, 1)
  {
    var a := new int[|arr|](k requires 0 <= k < |arr| => arr[k]);
    assert a[..] == arr;
    steps := Passes(a, arr);
    Snapshot(steps, arr, a[..], a[..]);
    steps := steps + [Step(a[..], [])];
  }

  /** The state between passes: `s` is the array, its runs have width
      `width`, and the snapshots so far number one plus the merges of the
      passes below `width`. */
  ghost predicate Progress(s: seq<int>, arr: seq<int>, steps: seq<Step>, width: nat) {
    && width >= 1
    && multiset(s) == multiset(arr) && Runs(s, width, 0, |s|)
    && Snapshots(steps, arr, s)
    && |steps| + MergeCount(|s|, width) == 1 + MergeCount(|s|, 1)
  }

  /** `while (width < a.length) { ...; width *= 2 }` over the copy `a` of `arr`. */
  method Passes(a: array<int>, ghost arr: seq<int>) returns (steps: seq<Step>)
    requires a[..] == arr
    modifies a
    ensures multiset(a[..]) == multiset(arr) && Sorted(a[..])
    ensures Snapshots(steps, arr, a[..])
    ensures |steps| == 1 + MergeCount(a.Length, 1)
  {
    steps := [Step(a[..], [])];
    var width := 1;
    RunsSingles(a[..], 0, a.Length);
    while width < a.Length
      invariant Progress(a[..], arr, steps, width)
      decreases a.Length - width
    {
      steps := Pass(a, width, arr, steps);
      width := 2 * width;
    }
    RunsWhole(a[..], width);
  }
}
