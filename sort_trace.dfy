/**
 * The snapshots the sorting visualiser replays, and what a well-formed
 * trace of them is.
 */
module SortTrace {
  import opened Util
  import opened SortSpec

  /** One snapshot; `values` is the array as it stood when the snapshot was taken. */
  datatype SortingStep = SortingStep(values: seq<int>, comparing: seq<int>, sorted: seq<int>, current: seq<int>)

  /** A snapshot of an array of length `n` whose index lists all address that array. */
  predicate StepOk(s: SortingStep, n: nat)
  {
    |s.values| == n && InRange(s.comparing, n) && InRange(s.sorted, n) && InRange(s.current, n)
  }

  /** Every snapshot of `r` is well formed for length `n`. */
  predicate TraceOk(r: seq<SortingStep>, n: nat)
  {
    forall k :: 0 <= k < |r| ==> StepOk(r[k], n)
  }

  /** Between any two snapshots, the later `sorted` list holds every index of the earlier one. */
  predicate SortedMonotone(r: seq<SortingStep>)
  {
    forall i, j :: 0 <= i <= j < |r| ==> Grows(r[i].sorted, r[j].sorted)
  }

  /**
   * The same two properties stated snapshot by snapshot, as the trace is
   * built: each appended snapshot is well formed, and its `sorted` list
   * contains its predecessor's.
   */
  predicate BuiltOk(r: seq<SortingStep>, n: nat)
    decreases |r|
  {
    if r == [] then true
    else
      && BuiltOk(r[..|r| - 1], n)
      && StepOk(r[|r| - 1], n)
      && (|r| > 1 ==> Grows(r[|r| - 2].sorted, r[|r| - 1].sorted))
  }

  /** A trace built snapshot by snapshot is well formed everywhere and its `sorted` lists only grow. */
  lemma {:induction false} BuiltOkMeans(r: seq<SortingStep>, n: nat)
    requires BuiltOk(r, n)
    ensures TraceOk(r, n) && SortedMonotone(r)
    decreases |r|
  {
    if r != [] {
      var front := r[..|r| - 1];
      BuiltOkMeans(front, n);
      assert forall k :: 0 <= k < |front| ==> front[k] == r[k];
      forall i, j | 0 <= i <= j < |r|
        ensures Grows(r[i].sorted, r[j].sorted)
      {
        if j == |r| - 1 && i < j {
          assert Grows(front[i].sorted, front[j - 1].sorted);
        }
      }
    }
  }

  /**
   * The outcome a complete trace of a sort of `input` has: the last
   * snapshot's array is `input` in ascending order, and its `sorted` list
   * names every index exactly once.
   */
  predicate Finished(r: seq<SortingStep>, input: seq<int>)
  {
    && |r| > 0
    && IsSorted(Last(r).values)
    && multiset(Last(r).values) == multiset(input)
    && NoDup(Last(r).sorted)
    && InRange(Last(r).sorted, |input|)
    && (forall x :: 0 <= x < |input| ==> x in Last(r).sorted)
  }

  /** Everything a sort promises about a trace of a non-trivial input. */
  predicate Complete(r: seq<SortingStep>, input: seq<int>)
  {
    TraceOk(r, |input|) && SortedMonotone(r) && Finished(r, input)
  }

  /**
   * A trace built snapshot by snapshot whose last snapshot shows `input`
   * sorted and names every index once is complete.
   */
  lemma FinishedTrace(r: seq<SortingStep>, input: seq<int>)
    requires BuiltOk(r, |input|) && |r| > 0
    requires IsSorted(Last(r).values) && multiset(Last(r).values) == multiset(input)
    requires NoDup(Last(r).sorted) && (forall x :: 0 <= x < |input| ==> x in Last(r).sorted)
    ensures Complete(r, input)
  {
    BuiltOkMeans(r, |input|);
  }

  /** FinishedTrace for a last `sorted` list that is 0, 1, ..., n-1. */
  lemma FinishedInOrder(r: seq<SortingStep>, input: seq<int>)
    requires BuiltOk(r, |input|) && |r| > 0
    requires IsSorted(Last(r).values) && multiset(Last(r).values) == multiset(input)
    requires Last(r).sorted == Range(0, |input|)
    ensures Complete(r, input)
  {
    RangeCovers(0, |input|);
    FinishedTrace(r, input);
  }
}
