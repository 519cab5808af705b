/** `bubbleSort(arr)`: bubble sort on a copy of the input, recording a step
    before every comparison and another after every exchange. */
module BubbleSort {
  import opened Sorting

  /** A step after the first: it highlights a pair of neighbours `[j, j+1]`,
      and either repeats the previous snapshot (a comparison) or, right after
      the comparison of the same pair, exchanges that pair because it was out
      of order. */
  ghost predicate BubbleMove(prev: Step, cur: Step) {
    && |cur.highlights| == 2
    && 0 <= cur.highlights[0] && cur.highlights[1] == cur.highlights[0] + 1 && cur.highlights[1] < |prev.values|
    && (|| cur.values == prev.values
        || (&& prev.highlights == cur.highlights
            && prev.values[cur.highlights[0]] > prev.values[cur.highlights[1]]
            && cur.values == Swapped(prev.values, cur.highlights[0], cur.highlights[1])))
  }

  /** The steps recorded so far, ending with the snapshot `cur`. */
  ghost predicate Recorded(steps: seq<Step>, arr: seq<int>, cur: seq<int>) {
    && |steps| >= 1 && steps[0] == Step(arr, [])
    && steps[|steps| - 1].values == cur
    && AllPermute(steps, arr)
    && (forall k :: 1 <= k < |steps| ==> BubbleMove(steps[k - 1], steps[k]))
  }

  /** The last `|s| - m` entries are in ascending order and none is below an
      entry before them. */
  ghost predicate Placed(s: seq<int>, m: int) {
    && 0 <= m <= |s|
    && (forall p, q :: m <= p < q < |s| ==> s[p] <= s[q])
    && (forall p, q :: 0 <= p < m <= q < |s| ==> s[p] <= s[q])
  }

  /** The steps: the input, then the comparisons and exchanges, then the
      sorted array. The last snapshot is the ascending rearrangement of the
      input, every step rearranges the input, and the number of steps is 2,
      plus one per comparison (n(n-1)/2 of them), plus one per exchange (as
      many as the input has inversions). */
  method BubbleSort(arr: seq<int>) returns (steps: seq<Step>)
    ensures |steps| >= 2 && steps[0] == Step(arr, [])
    ensures steps[|steps| - 1] == Step(steps[|steps| - 2].values, [])
    ensures Sorted(steps[|steps| - 1].values)
    ensures AllPermute(steps, arr)
    ensures forall k :: 1 <= k < |steps| - 1 ==> BubbleMove(steps[k - 1], steps[k])
    ensures |steps| == 2 + |arr| * (|arr| - 1) / 2 + Inversions(arr)
  {
    var a := new int[|arr|](k requires 0 <= k < |arr| => arr[k]);
    assert a[..] == arr;
    steps := Passes(a, arr);
    Finish(steps, arr, a[..]);
    steps := steps + [Step(a[..], [])];
  }

  /** The outer loop: `n - 1` passes over the copy `a` of `arr`. */
  method Passes(a: array<int>, ghost arr: seq<int>) returns (steps: seq<Step>)
    requires a[..] == arr
    modifies a
    ensures multiset(a[..]) == multiset(arr) && Placed(a[..], if a.Length == 0 then 0 else 1)
    ensures Recorded(steps, arr, a[..])
    ensures |steps| + Inversions(a[..]) == 1 + Triangle(a.Length - 1) + Inversions(arr)
  {
    var n := a.Length;
    steps := [Step(a[..], [])];
    var i := 0;
    while i < n - 1
      invariant 0 <= i && (n >= 1 ==> i <= n - 1)
      invariant multiset(a[..]) == multiset(arr)
      invariant Placed(a[..], n - i)
      invariant Recorded(steps, arr, a[..])
      invariant |steps| + Inversions(a[..]) + Triangle(n - 1 - i) == 1 + Triangle(n - 1) + Inversions(arr)
    {
      steps := Pass(a, n - i, arr, steps);
      i := i + 1;
    }
  }

  /** After the last pass, the closing step completes the promised record. */
  lemma Finish(steps: seq<Step>, arr: seq<int>, s: seq<int>)
    requires |s| == |arr| && multiset(s) == multiset(arr)
    requires Placed(s, if |s| == 0 then 0 else 1) && Recorded(steps, arr, s)
    requires |steps| + Inversions(s) == 1 + Triangle(|s| - 1) + Inversions(arr)
    ensures var steps' := steps + [Step(s, [])];
      && steps'[0] == Step(arr, [])
      && Sorted(s) && AllPermute(steps', arr)
      && (forall k :: 1 <= k < |steps'| - 1 ==> BubbleMove(steps'[k - 1], steps'[k]))
      && |steps'| == 2 + |arr| * (|arr| - 1) / 2 + Inversions(arr)
  {
    SortedNoInversions(s);
    TriangleClosed(|s|);
    AppendPermute(steps, arr, s, []);
  }

  /** No entry among the first `j + 1` is above the one at `j`. */
  ghost predicate MaxAt(s: seq<int>, j: int)
    requires 0 <= j < |s|
  {
    forall k :: 0 <= k <= j ==> s[k] <= s[j]
  }

  /** The inner loop: bubble the largest of the first `m` entries to position `m - 1`. */
  method Pass(a: array<int>, m: int, ghost arr: seq<int>, steps0: seq<Step>) returns (steps: seq<Step>)
    requires 2 <= m <= a.Length
    requires multiset(a[..]) == multiset(arr) && Placed(a[..], m)
    requires Recorded(steps0, arr, a[..])
    modifies a
    ensures multiset(a[..]) == multiset(arr) && Placed(a[..], m - 1)
    ensures Recorded(steps, arr, a[..])
    ensures |steps| + Inversions(a[..]) == |steps0| + (m - 1) + old(Inversions(a[..]))
  {
    steps := steps0;
    var j := 0;
    while j < m - 1
      invariant 0 <= j <= m - 1
      invariant multiset(a[..]) == multiset(arr) && Placed(a[..], m) && MaxAt(a[..], j)
      invariant Recorded(steps, arr, a[..])
      invariant |steps| + Inversions(a[..]) == |steps0| + j + old(Inversions(a[..]))
    {
      steps := Visit(a, j, m, arr, steps);
      j := j + 1;
    }
    PassDone(a[..], m);
  }

  /** The largest of the first `m` entries has reached `m - 1`. */
  lemma PassDone(s: seq<int>, m: int)
    requires 2 <= m <= |s| && Placed(s, m) && MaxAt(s, m - 1)
    ensures Placed(s, m - 1)
  {
  }

  /** One comparison of `a[j]` and `a[j+1]`, and the exchange when `a[j] > a[j+1]`. */
  method Visit(a: array<int>, j: int, m: int, ghost arr: seq<int>, steps0: seq<Step>) returns (steps: seq<Step>)
    requires 0 <= j && j + 1 < m <= a.Length
    requires multiset(a[..]) == multiset(arr) && Placed(a[..], m) && MaxAt(a[..], j)
    requires Recorded(steps0, arr, a[..])
    modifies a
    ensures multiset(a[..]) == multiset(arr) && Placed(a[..], m) && MaxAt(a[..], j + 1)
    ensures Recorded(steps, arr, a[..])
    ensures |steps| + Inversions(a[..]) == |steps0| + 1 + old(Inversions(a[..]))
  {
    Compare(steps0, arr, a[..], j);
    steps := steps0 + [Step(a[..], [j, j + 1])];
    if a[j] > a[j + 1] {
      ghost var s := a[..];
      SwapInversions(s, j);
      RecordExchange(steps, arr, s, j);
      SwapKeeps(s, j, m);
      a[j], a[j + 1] := a[j + 1], a[j];
      assert a[..] == Swapped(s, j, j + 1);
      steps := steps + [Step(a[..], [j, j + 1])];
    }
  }

  /** Recording the comparison of `j` and `j + 1`. */
  lemma Compare(steps: seq<Step>, arr: seq<int>, cur: seq<int>, j: int)
    requires Recorded(steps, arr, cur) && 0 <= j && j + 1 < |cur|
    ensures Recorded(steps + [Step(cur, [j, j + 1])], arr, cur)
  {
    var steps' := steps + [Step(cur, [j, j + 1])];
    assert BubbleMove(steps'[|steps| - 1], steps'[|steps|]);
  }

  /** Recording the exchange that follows the comparison of an out-of-order pair. */
  lemma RecordExchange(steps: seq<Step>, arr: seq<int>, cur: seq<int>, j: int)
    requires Recorded(steps, arr, cur) && 0 <= j && j + 1 < |cur| && cur[j] > cur[j + 1]
    requires steps[|steps| - 1].highlights == [j, j + 1]
    ensures Recorded(steps + [Step(Swapped(cur, j, j + 1), [j, j + 1])], arr, Swapped(cur, j, j + 1))
  {
    var steps' := steps + [Step(Swapped(cur, j, j + 1), [j, j + 1])];
    assert BubbleMove(steps'[|steps| - 1], steps'[|steps|]);
    AppendPermute(steps, arr, Swapped(cur, j, j + 1), [j, j + 1]);
  }

  /** Exchanging an out-of-order pair `j, j + 1` below `m` moves the larger one up. */
  lemma SwapKeeps(s: seq<int>, j: int, m: int)
    requires 0 <= j && j + 1 < m <= |s| && s[j] > s[j + 1]
    requires Placed(s, m) && MaxAt(s, j)
    ensures Placed(Swapped(s, j, j + 1), m) && MaxAt(Swapped(s, j, j + 1), j + 1)
  {
  }
}
