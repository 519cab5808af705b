/** What the three step-recording sorts share: the recorded step, ascending
    order, and the counts their step totals are stated in. */
module Sorting {

  /** One recorded step: a snapshot of the array being sorted and the
      positions highlighted in it (the `array` and `highlights` fields). */
  datatype Step = Step(values: seq<int>, highlights: seq<int>)

  predicate Sorted(s: seq<int>) {
    forall i, j :: 0 <= i < j < |s| ==> s[i] <= s[j]
  }

  /** `s` with the entries at `i` and `j` exchanged. */
  function Swapped(s: seq<int>, i: int, j: int): (t: seq<int>)
    requires 0 <= i < |s| && 0 <= j < |s|
    ensures |t| == |s| && multiset(t) == multiset(s)
    ensures t[i] == s[j] && t[j] == s[i]
    ensures forall k :: 0 <= k < |s| && k != i && k != j ==> t[k] == s[k]
  {
    s[i := s[j]][j := s[i]]
  }

  /** Every step's snapshot is a rearrangement of `arr`. */
  ghost predicate AllPermute(steps: seq<Step>, arr: seq<int>) {
    forall k :: 0 <= k < |steps| ==> multiset(steps[k].values) == multiset(arr)
  }

  lemma AppendPermute(steps: seq<Step>, arr: seq<int>, s: seq<int>, h: seq<int>)
    requires AllPermute(steps, arr) && multiset(s) == multiset(arr)
    ensures AllPermute(steps + [Step(s, h)], arr)
  {
    var steps' := steps + [Step(s, h)];
    assert forall k :: 0 <= k < |steps| ==> steps'[k] == steps[k];
  }

  /** The number of entries of `t` smaller than `x`. */
  function CountBelow(x: int, t: seq<int>): nat {
    if t == [] then 0 else (if t[0] < x then 1 else 0) + CountBelow(x, t[1..])
  }

  /** The number of pairs `i < j` with `s[i] > s[j]`. */
  function Inversions(s: seq<int>): nat {
    if s == [] then 0 else CountBelow(s[0], s[1..]) + Inversions(s[1..])
  }

  /** Exchanging two neighbours does not change how many entries lie below `x`. */
  lemma {:induction false} CountBelowSwap(x: int, t: seq<int>, j: nat)
    requires j + 1 < |t|
    ensures CountBelow(x, Swapped(t, j, j + 1)) == CountBelow(x, t)
  {
    var t' := Swapped(t, j, j + 1);
    if j == 0 {
      assert t'[1..][1..] == t[1..][1..];
    } else {
      assert t'[1..] == Swapped(t[1..], j - 1, j);
      CountBelowSwap(x, t[1..], j - 1);
    }
  }

  /** Exchanging an out-of-order pair of neighbours removes exactly one inversion. */
  lemma {:induction false} SwapInversions(s: seq<int>, j: nat)
    requires j + 1 < |s| && s[j] > s[j + 1]
    ensures Inversions(Swapped(s, j, j + 1)) + 1 == Inversions(s)
  {
    var s' := Swapped(s, j, j + 1);
    if j == 0 {
      var t := s[2..];
      assert s[1..] == [s[1]] + t && s[1..][1..] == t;
      assert s'[1..] == [s[0]] + t && s'[1..][1..] == t;
    } else {
      assert s'[1..] == Swapped(s[1..], j - 1, j);
      CountBelowSwap(s[0], s[1..], j - 1);
      SwapInversions(s[1..], j - 1);
    }
  }

  lemma {:induction false} CountBelowNone(x: int, t: seq<int>)
    requires forall k :: 0 <= k < |t| ==> x <= t[k]
    ensures CountBelow(x, t) == 0
  {
    if t != [] {
      CountBelowNone(x, t[1..]);
    }
  }

  /** An ascending sequence has no inversions. */
  lemma {:induction false} SortedNoInversions(s: seq<int>)
    requires Sorted(s)
    ensures Inversions(s) == 0
  {
    if s != [] {
      CountBelowNone(s[0], s[1..]);
      SortedNoInversions(s[1..]);
    }
  }

  /** `1 + 2 + ... + k`, and 0 for `k <= 0`. */
  function Triangle(k: int): nat {
    if k <= 0 then 0 else Triangle(k - 1) + k
  }

  /** `1 + 2 + ... + (n - 1) == n(n - 1)/2`. */
  lemma {:induction false} TriangleClosed(n: nat)
    ensures Triangle(n - 1) == n * (n - 1) / 2
  {
    if n > 1 {
      TriangleClosed(n - 1);
      assert (n - 1) * (n - 2) + 2 * (n - 1) == n * (n - 1);
    }
  }
}
