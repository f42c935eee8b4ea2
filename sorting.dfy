/**
 * The sorting trace generator. Each sort runs on a private working copy of
 * the input (an array) and appends a snapshot of the array and of the
 * `comparing`, `sorted` and `current` index lists to `steps` whenever the
 * picture should change.
 *
 * The `sorted` list of the merge and quick sort helpers is one mutable list
 * shared by every recursive call; here each helper receives the list and
 * returns the grown list, which is what its caller observes afterwards.
 */
module Sorting {
  import opened Util
  import opened SortSpec
  import opened SortTrace

  /** A fresh array holding the values of `input` (the spread copy `[...array]`). */
  method CopyOf(input: seq<int>) returns (arr: array<int>)
    ensures fresh(arr) && arr[..] == input
  {
    arr := new int[|input|](k requires 0 <= k < |input| => input[k]);
    assert arr[..] == input;
  }

  /** Swaps two cells of an array. */
  method Swap(arr: array<int>, i: int, j: int)
    requires 0 <= i < arr.Length && 0 <= j < arr.Length
    modifies arr
    ensures arr[..] == Swapped(old(arr[..]), i, j)
  {
    arr[i], arr[j] := arr[j], arr[i];
  }

  class SortingAlgorithms {
    var steps: seq<SortingStep>

    constructor ()
      ensures steps == []
    {
      steps := [];
    }

    /**
     * What a running sort keeps true of the trace: every snapshot is well
     * formed for arrays of length `n`, `sorted` has only grown so far, and
     * the list the sort now holds contains the last snapshot's.
     */
    ghost predicate Tracing(n: nat, sorted: seq<int>)
      reads this
    {
      && BuiltOk(steps, n)
      && (|steps| > 0 ==> Grows(Last(steps).sorted, sorted))
      && InRange(sorted, n)
    }

    /** Adding an index of the array to the list keeps the trace going. */
    lemma TracingSnoc(n: nat, sorted: seq<int>, x: int)
      requires Tracing(n, sorted) && 0 <= x < n
      ensures Tracing(n, sorted + [x])
    {
    }

    /** The last snapshot shows the working array as it is now, and the list `sorted`. */
    ghost predicate Shows(arr: array<int>, sorted: seq<int>)
      reads this, arr
    {
      |steps| > 0 && Last(steps).values == arr[..] && Last(steps).sorted == sorted
    }

    /** Records a copy of the array and of the three index lists. */
    method AddStep(arr: array<int>, comparing: seq<int> := [], sorted: seq<int> := [], current: seq<int> := [])
      modifies this
      ensures steps == old(steps) + [SortingStep(arr[..], comparing, sorted, current)]
      ensures old(Tracing(arr.Length, sorted)) && InRange(comparing, arr.Length) && InRange(current, arr.Length)
        ==> Tracing(arr.Length, sorted)
    {
      var s := SortingStep(arr[..], comparing, sorted, current);
      steps := steps + [s];
      assert steps[..|steps| - 1] == old(steps);
    }

    // ------------------------------------------------------------ bubble

    /** Bubble sort; `sorted` grows from the right with `unshift`. */
    method BubbleSort(input: seq<int>) returns (r: seq<SortingStep>)
      modifies this
      ensures r == steps
      ensures |input| == 0 ==> r == [SortingStep([], [], [0], [])]
      ensures |input| > 0 ==> Complete(r, input) && Last(r).sorted == Range(0, |input|)
    {
      steps := [];
      var arr := CopyOf(input);
      var n := arr.Length;
      var sorted: seq<int> := [];
      var i := 0;
      while i < n - 1
        invariant 0 <= i <= if n > 0 then n - 1 else 0
        invariant multiset(arr[..]) == multiset(input)
        invariant Bubbled(arr[..], n - i)
        invariant sorted == Range(n - i, n)
        invariant Tracing(n, sorted)
        invariant n == 0 ==> steps == []
      {
        sorted := BubbleRound(arr, i, sorted);
        i := i + 1;
      }
      sorted := [0] + sorted;
      if n > 0 {
        RangeCovers(0, n);
      }
      AddStep(arr, [], sorted);
      r := steps;
      if n > 0 {
        BubbledSorted(arr[..]);
        FinishedInOrder(r, input);
      } else {
        assert arr[..] == [] && sorted == [0];
      }
    }

    /** One round of the outer loop of bubble sort: a pass, then index n-i-1 is sorted. */
    method BubbleRound(arr: array<int>, i: int, sorted: seq<int>) returns (sorted': seq<int>)
      requires 0 <= i < arr.Length - 1
      requires Bubbled(arr[..], arr.Length - i) && sorted == Range(arr.Length - i, arr.Length)
      requires Tracing(arr.Length, sorted)
      modifies this, arr
      ensures Bubbled(arr[..], arr.Length - i - 1) && sorted' == Range(arr.Length - i - 1, arr.Length)
      ensures multiset(arr[..]) == old(multiset(arr[..]))
      ensures Tracing(arr.Length, sorted')
    {
      BubblePass(arr, i, sorted);
      sorted' := [arr.Length - i - 1] + sorted;
      RangeCovers(arr.Length - i - 1, arr.Length);
      AddStep(arr, [], sorted');
    }

    /**
     * One pass of the inner loop of bubble sort over arr[0..n-i-1]: compares
     * each adjacent pair, swaps it when out of order, and so carries the
     * largest value of the unsorted prefix to position n-i-1.
     */
    method BubblePass(arr: array<int>, i: int, sorted: seq<int>)
      requires 0 <= i < arr.Length - 1
      requires Bubbled(arr[..], arr.Length - i)
      requires Tracing(arr.Length, sorted)
      modifies this, arr
      ensures Bubbled(arr[..], arr.Length - i - 1)
      ensures multiset(arr[..]) == old(multiset(arr[..]))
      ensures Tracing(arr.Length, sorted)
    {
      var n := arr.Length;
      var j := 0;
      while j < n - i - 1
        invariant 0 <= j <= n - i - 1
        invariant multiset(arr[..]) == old(multiset(arr[..]))
        invariant CarriesMax(arr[..], j)
        invariant Bubbled(arr[..], n - i)
        invariant Tracing(n, sorted)
      {
        ghost var a := arr[..];
        BubbleCompare(arr, j, sorted);
        if a[j] > a[j + 1] {
          SwapAdjacent(a, j, n - i);
        } else {
          NoSwapAdjacent(a, j);
        }
        j := j + 1;
      }
      PassDone(arr[..], n - i);
    }

    /** One comparison of bubble sort, with its snapshots: before, and after a swap. */
    method BubbleCompare(arr: array<int>, j: int, sorted: seq<int>)
      requires 0 <= j < arr.Length - 1
      requires Tracing(arr.Length, sorted)
      modifies this, arr
      ensures arr[..] == if old(arr[j]) > old(arr[j + 1]) then Swapped(old(arr[..]), j, j + 1) else old(arr[..])
      ensures Tracing(arr.Length, sorted)
    {
      AddStep(arr, [j, j + 1], sorted);
      if arr[j] > arr[j + 1] {
        Swap(arr, j, j + 1);
        AddStep(arr, [j, j + 1], sorted);
      }
    }

    // --------------------------------------------------------- selection

    /** Selection sort; `sorted` grows from the left with `push`. */
    method SelectionSort(input: seq<int>) returns (r: seq<SortingStep>)
      modifies this
      ensures r == steps
      ensures |input| == 0 ==> r == [SortingStep([], [], [-1], [])]
      ensures |input| > 0 ==> Complete(r, input) && Last(r).sorted == Range(0, |input|)
    {
      steps := [];
      var arr := CopyOf(input);
      var n := arr.Length;
      var sorted: seq<int> := [];
      var i := 0;
      while i < n - 1
        invariant 0 <= i <= if n > 0 then n - 1 else 0
        invariant multiset(arr[..]) == multiset(input)
        invariant SelectedUpTo(arr[..], i)
        invariant sorted == Range(0, i)
        invariant Tracing(n, sorted)
        invariant n == 0 ==> steps == []
      {
        sorted := SelectRound(arr, i, sorted);
        i := i + 1;
      }
      sorted := sorted + [n - 1];
      if n > 0 {
        RangeSnoc(0, n - 1);
        RangeCovers(0, n);
      }
      AddStep(arr, [], sorted);
      r := steps;
      if n > 0 {
        SelectedSorted(arr[..]);
        FinishedInOrder(r, input);
      } else {
        assert arr[..] == [] && sorted == [-1];
      }
    }

    /** One round of the outer loop of selection sort: the minimum of arr[i..] moves to i. */
    method SelectRound(arr: array<int>, i: int, sorted: seq<int>) returns (sorted': seq<int>)
      requires 0 <= i < arr.Length - 1
      requires SelectedUpTo(arr[..], i) && sorted == Range(0, i)
      requires Tracing(arr.Length, sorted)
      modifies this, arr
      ensures SelectedUpTo(arr[..], i + 1) && sorted' == Range(0, i + 1)
      ensures multiset(arr[..]) == old(multiset(arr[..]))
      ensures Tracing(arr.Length, sorted')
    {
      var minIdx := SelectScan(arr, i, sorted);
      ghost var a := arr[..];
      if minIdx != i {
        Swap(arr, i, minIdx);
        AddStep(arr, [i, minIdx], sorted);
      } else {
        assert Swapped(a, i, i) == a;
      }
      SelectSwap(a, i, minIdx);
      RangeSnoc(0, i);
      sorted' := sorted + [i];
      RangeCovers(0, i + 1);
      AddStep(arr, [], sorted');
    }

    /** The inner loop of selection sort: finds the first minimum of arr[i..], with its snapshots. */
    method SelectScan(arr: array<int>, i: int, sorted: seq<int>) returns (minIdx: int)
      requires 0 <= i < arr.Length
      requires Tracing(arr.Length, sorted)
      modifies this
      ensures IsFirstMin(arr[..], i, minIdx)
      ensures Tracing(arr.Length, sorted)
    {
      minIdx := i;
      AddStep(arr, [i], sorted, [minIdx]);
      var j := i + 1;
      while j < arr.Length
        invariant i < j <= arr.Length
        invariant i <= minIdx < j
        invariant forall k :: i <= k < j ==> arr[minIdx] <= arr[k]
        invariant forall k :: i <= k < minIdx ==> arr[minIdx] < arr[k]
        invariant Tracing(arr.Length, sorted)
      {
        AddStep(arr, [i, j], sorted, [minIdx]);
        if arr[j] < arr[minIdx] {
          minIdx := j;
          AddStep(arr, [i, j], sorted, [minIdx]);
        }
        j := j + 1;
      }
    }

    // --------------------------------------------------------- insertion

    /** Insertion sort; `sorted` starts as [0] and grows from the left. */
    method InsertionSort(input: seq<int>) returns (r: seq<SortingStep>)
      modifies this
      ensures r == steps
      ensures |input| == 0 ==> r == [SortingStep([], [], [0], [])]
      ensures |input| > 0 ==> Complete(r, input) && Last(r).sorted == Range(0, |input|)
    {
      steps := [];
      var arr := CopyOf(input);
      var n := arr.Length;
      var sorted := [0];
      if n > 0 {
        RangeCovers(0, 1);
      }
      AddStep(arr, [], sorted);
      var i := 1;
      while i < n
        invariant 1 <= i && (n > 0 ==> i <= n)
        invariant multiset(arr[..]) == multiset(input)
        invariant i <= n ==> IsSorted(arr[..i])
        invariant i <= n ==> PrefixPermuted(arr[..], input, i)
        invariant sorted == Range(0, i)
        invariant n > 0 ==> Tracing(n, sorted) && Shows(arr, sorted)
        invariant n == 0 ==> steps == [SortingStep([], [], [0], [])]
      {
        ghost var before := arr[..];
        sorted := InsertRound(arr, i, sorted);
        PrefixPermutedStep(before, arr[..], input, i);
        i := i + 1;
      }
      r := steps;
      if n > 0 {
        assert arr[..] == arr[..n];
        FinishedInOrder(r, input);
      }
    }

    /** One round of the outer loop of insertion sort: arr[i] joins the ascending prefix. */
    method InsertRound(arr: array<int>, i: int, sorted: seq<int>) returns (sorted': seq<int>)
      requires 1 <= i < arr.Length
      requires IsSorted(arr[..i]) && sorted == Range(0, i)
      requires Tracing(arr.Length, sorted)
      modifies this, arr
      ensures IsSorted(arr[..i + 1]) && sorted' == Range(0, i + 1)
      ensures multiset(arr[..]) == old(multiset(arr[..]))
      ensures arr[i + 1..] == old(arr[i + 1..]) && multiset(arr[..i + 1]) == old(multiset(arr[..i + 1]))
      ensures Tracing(arr.Length, sorted') && Shows(arr, sorted')
    {
      ghost var a := arr[..];
      var pos := Insert(arr, i, sorted);
      InsertedPermutes(a, i, pos);
      InsertedSorted(a, i, pos);
      InsertedPrefix(a, i, pos);
      RangeSnoc(0, i);
      sorted' := sorted + [i];
      RangeCovers(0, i + 1);
      AddStep(arr, [], sorted');
    }

    /**
     * The inner loop of insertion sort: moves the values of arr[..i] above
     * arr[i] one place right and drops arr[i] into the gap, at `pos`.
     */
    method Insert(arr: array<int>, i: int, sorted: seq<int>) returns (pos: int)
      requires 1 <= i < arr.Length
      requires Tracing(arr.Length, sorted)
      modifies this, arr
      ensures 0 <= pos <= i
      ensures arr[..] == Inserted(old(arr[..]), i, pos)
      ensures forall k :: pos <= k < i ==> old(arr[k]) > old(arr[i])
      ensures pos > 0 ==> old(arr[pos - 1]) <= old(arr[i])
      ensures Tracing(arr.Length, sorted)
    {
      var key := arr[i];
      AddStep(arr, [i], sorted, [i]);
      ghost var a := arr[..];
      var j := ShiftRun(arr, i, key, sorted);
      ShiftedPlace(a, i, j);
      arr[j + 1] := key;
      pos := j + 1;
    }

    /** The shifting loop of insertion sort; it stops at the last value not above `key`. */
    method ShiftRun(arr: array<int>, i: int, key: int, sorted: seq<int>) returns (j: int)
      requires 1 <= i < arr.Length && arr[i] == key
      requires Tracing(arr.Length, sorted)
      modifies this, arr
      ensures -1 <= j < i
      ensures arr[..] == Shifted(old(arr[..]), i, j)
      ensures forall k :: j + 1 <= k < i ==> old(arr[k]) > key
      ensures j >= 0 ==> old(arr[j]) <= key
      ensures Tracing(arr.Length, sorted)
    {
      ghost var a := arr[..];
      j := i - 1;
      ShiftedNone(a, i);
      while j >= 0 && arr[j] > key
        invariant -1 <= j <= i - 1
        invariant arr[..] == Shifted(a, i, j)
        invariant forall k :: j + 1 <= k < i ==> a[k] > key
        invariant Tracing(arr.Length, sorted)
        decreases j
      {
        ShiftedMore(a, i, j);
        Shift(arr, j, sorted);
        j := j - 1;
      }
      if j >= 0 {
        ShiftedPlace(a, i, j);
      }
    }

    /** One shift of insertion sort, arr[j + 1] = arr[j], with its snapshots before and after. */
    method Shift(arr: array<int>, j: int, sorted: seq<int>)
      requires 0 <= j < arr.Length - 1
      requires Tracing(arr.Length, sorted)
      modifies this, arr
      ensures arr[..] == old(arr[..])[j + 1 := old(arr[j])]
      ensures Tracing(arr.Length, sorted)
    {
      AddStep(arr, [j, j + 1], sorted);
      arr[j + 1] := arr[j];
      AddStep(arr, [j, j + 1], sorted);
    }

    // ------------------------------------------------------------- merge

    /** Merge sort; the shared `sorted` list starts empty. */
    method MergeSort(input: seq<int>) returns (r: seq<SortingStep>)
      modifies this
      ensures r == steps
      ensures |input| <= 1 ==> r == []
      ensures |input| > 1 ==> Complete(r, input) && Last(r).sorted == Range(0, |input|)
    {
      steps := [];
      var arr := CopyOf(input);
      var sorted := MergeSortHelper(arr, 0, arr.Length - 1, []);
      r := steps;
      if arr.Length > 1 {
        assert arr[..] == arr[0..arr.Length];
        FinishedInOrder(r, input);
      }
    }

    /**
     * Sorts arr[left..right] in place. When the range has two or more
     * elements its indices are appended to `sorted`, in increasing order,
     * and the last snapshot shows the result.
     */
    method MergeSortHelper(arr: array<int>, left: int, right: int, sorted: seq<int>) returns (sorted': seq<int>)
      requires 0 <= left <= right + 1 <= arr.Length
      requires Tracing(arr.Length, sorted) && Fresh(sorted, left, right + 1)
      modifies this, arr
      ensures IsSorted(arr[left..right + 1]) && multiset(arr[..]) == old(multiset(arr[..]))
      ensures arr[..left] == old(arr[..left]) && arr[right + 1..] == old(arr[right + 1..])
      ensures sorted' == sorted + (if left < right then Range(left, right + 1) else [])
      ensures Tracing(arr.Length, sorted')
      ensures left < right ==> Shows(arr, sorted')
      ensures left >= right ==> steps == old(steps) && arr[..] == old(arr[..])
      decreases right - left, 1
    {
      sorted' := sorted;
      if left < right {
        var mid := (left + right) / 2;
        ghost var a0 := arr[..];
        sorted' := SortHalves(arr, left, mid, right, sorted');
        ghost var a2 := arr[..];
        MergeIndices(sorted, sorted', left, mid, right);
        sorted' := Merge(arr, left, mid, right, sorted');
        MergeCombine(a0, a2, arr[..], left, mid, right);
      } else {
        assert sorted' == sorted + [];
      }
    }

    /** The two recursive calls of the merge sort helper: sorts arr[left..mid], then arr[mid+1..right]. */
    method SortHalves(arr: array<int>, left: int, mid: int, right: int, sorted: seq<int>) returns (sorted': seq<int>)
      requires 0 <= left < right < arr.Length && mid == (left + right) / 2
      requires Tracing(arr.Length, sorted) && Fresh(sorted, left, right + 1)
      modifies this, arr
      ensures IsSorted(arr[left..mid + 1]) && IsSorted(arr[mid + 1..right + 1])
      ensures multiset(arr[..]) == old(multiset(arr[..]))
      ensures arr[..left] == old(arr[..left]) && arr[right + 1..] == old(arr[right + 1..])
      ensures sorted' == LeftHalf(sorted, left, mid) + (if mid + 1 < right then Range(mid + 1, right + 1) else [])
      ensures Tracing(arr.Length, sorted')
      decreases right - left, 0
    {
      ghost var a0 := arr[..];
      MergeHalvesFresh(sorted, left, mid, right);
      sorted' := MergeSortHelper(arr, left, mid, sorted);
      ghost var a1 := arr[..];
      assert sorted' == LeftHalf(sorted, left, mid);
      sorted' := MergeSortHelper(arr, mid + 1, right, sorted');
      HalvesFrames(a0, a1, arr[..], left, mid, right);
    }

    /**
     * Merges the ascending runs arr[left..mid] and arr[mid+1..right] in
     * place, then appends to `sorted` the indices of the range it lacks.
     */
    method Merge(arr: array<int>, left: int, mid: int, right: int, sorted: seq<int>) returns (sorted': seq<int>)
      requires 0 <= left <= mid + 1 <= right + 1 <= arr.Length
      requires Tracing(arr.Length, sorted)
      modifies this, arr
      ensures arr[left..right + 1] == MergeSeq(old(arr[..])[left..mid + 1], old(arr[..])[mid + 1..right + 1])
      ensures arr[..left] == old(arr[..])[..left] && arr[right + 1..] == old(arr[..])[right + 1..]
      ensures sorted' == sorted + Missing(sorted, left, right + 1)
      ensures Tracing(arr.Length, sorted') && Shows(arr, sorted')
    {
      var leftArr := arr[left..mid + 1];
      var rightArr := arr[mid + 1..right + 1];
      MergeRuns(arr, left, mid, right, leftArr, rightArr, sorted);
      sorted' := IncludeRange(sorted, left, right);
      RangeCovers(left, right + 1);
      MissingMember(sorted, left, right + 1);
      AddStep(arr, [], sorted');
    }

    /**
     * The three merging loops: writes the merge of the two runs over
     * arr[left..right], first while both runs have values left, then the rest
     * of the left run, then the rest of the right run.
     */
    method MergeRuns(arr: array<int>, left: int, mid: int, right: int, leftArr: seq<int>, rightArr: seq<int>, sorted: seq<int>)
      requires 0 <= left <= mid + 1 <= right + 1 <= arr.Length
      requires |leftArr| == mid + 1 - left && |rightArr| == right - mid
      requires Tracing(arr.Length, sorted)
      modifies this, arr
      ensures arr[left..right + 1] == MergeSeq(leftArr, rightArr)
      ensures arr[..left] == old(arr[..left]) && arr[right + 1..] == old(arr[right + 1..])
      ensures Tracing(arr.Length, sorted)
    {
      ghost var merged := MergeSeq(leftArr, rightArr);
      MergeLength(leftArr, rightArr);
      var i, j := MergeHeads(arr, left, mid, right, leftArr, rightArr, sorted, merged);
      MergeRest(leftArr, rightArr, i, j);
      var k := CopyRest(arr, left, right, leftArr, i, left + i + j, sorted, merged);
      k := CopyRest(arr, left, right, rightArr, j, k, sorted, merged);
      assert merged[..k - left] == merged;
    }

    /**
     * The first merging loop: while both runs have values left, compares
     * their heads and writes the smaller one, the left one on a tie.
     */
    method MergeHeads(arr: array<int>, left: int, mid: int, right: int, leftArr: seq<int>, rightArr: seq<int>, sorted: seq<int>, ghost merged: seq<int>)
      returns (i: int, j: int)
      requires 0 <= left <= mid + 1 <= right + 1 <= arr.Length
      requires |leftArr| == mid + 1 - left && |rightArr| == right - mid
      requires merged == MergeSeq(leftArr, rightArr) && |merged| == |leftArr| + |rightArr|
      requires Tracing(arr.Length, sorted)
      modifies this, arr
      ensures 0 <= i <= |leftArr| && 0 <= j <= |rightArr| && (i == |leftArr| || j == |rightArr|)
      ensures arr[left..left + i + j] == merged[..i + j]
      ensures merged[i + j..] == MergeSeq(leftArr[i..], rightArr[j..])
      ensures arr[..left] == old(arr[..left]) && arr[right + 1..] == old(arr[right + 1..])
      ensures Tracing(arr.Length, sorted)
    {
      i, j := 0, 0;
      var k := left;
      while i < |leftArr| && j < |rightArr|
        invariant 0 <= i <= |leftArr| && 0 <= j <= |rightArr| && k == left + i + j
        invariant arr[left..k] == merged[..i + j]
        invariant merged[i + j..] == MergeSeq(leftArr[i..], rightArr[j..])
        invariant arr[..left] == old(arr[..left]) && arr[right + 1..] == old(arr[right + 1..])
        invariant Tracing(arr.Length, sorted)
        decreases |leftArr| - i + |rightArr| - j
      {
        MergeNext(leftArr, rightArr, i, j, merged);
        i, j := MergeStep(arr, left, mid, right, leftArr, rightArr, i, j, sorted, merged);
        k := k + 1;
      }
    }

    /** One comparison of the first merging loop, with its snapshots before and after the write. */
    method MergeStep(arr: array<int>, left: int, mid: int, right: int, leftArr: seq<int>, rightArr: seq<int>,
                     i: int, j: int, sorted: seq<int>, ghost merged: seq<int>)
      returns (i': int, j': int)
      requires 0 <= left <= mid + 1 <= right + 1 <= arr.Length
      requires |leftArr| == mid + 1 - left && |rightArr| == right - mid && |merged| == |leftArr| + |rightArr|
      requires 0 <= i < |leftArr| && 0 <= j < |rightArr|
      requires arr[left..left + i + j] == merged[..i + j]
      requires merged[i + j] == if leftArr[i] <= rightArr[j] then leftArr[i] else rightArr[j]
      requires Tracing(arr.Length, sorted)
      modifies this, arr
      ensures if leftArr[i] <= rightArr[j] then i' == i + 1 && j' == j else i' == i && j' == j + 1
      ensures arr[left..left + i' + j'] == merged[..i' + j']
      ensures arr[..left] == old(arr[..left]) && arr[right + 1..] == old(arr[right + 1..])
      ensures Tracing(arr.Length, sorted)
    {
      AddStep(arr, [left + i, mid + 1 + j], sorted);
      var k := left + i + j;
      if leftArr[i] <= rightArr[j] {
        Put(arr, left, k, right, leftArr[i], sorted, merged);
        i', j' := i + 1, j;
      } else {
        Put(arr, left, k, right, rightArr[j], sorted, merged);
        i', j' := i, j + 1;
      }
    }

    /**
     * One of the two draining loops of the merge: copies run[i..] to
     * arr[k..], one value and one snapshot at a time, and returns the next
     * free position.
     */
    method CopyRest(arr: array<int>, left: int, right: int, run: seq<int>, i: int, k: int, sorted: seq<int>, ghost merged: seq<int>)
      returns (k': int)
      requires 0 <= left <= k <= right + 1 <= arr.Length && 0 <= i <= |run|
      requires |merged| == right + 1 - left && arr[left..k] == merged[..k - left]
      requires i == |run| || merged[k - left..] == run[i..]
      requires Tracing(arr.Length, sorted)
      modifies this, arr
      ensures k' == k + |run| - i && k' <= right + 1
      ensures arr[left..k'] == merged[..k' - left]
      ensures arr[..left] == old(arr[..left]) && arr[right + 1..] == old(arr[right + 1..])
      ensures Tracing(arr.Length, sorted)
    {
      var n := i;
      k' := k;
      while n < |run|
        invariant i <= n <= |run| && k' == k + n - i && k' <= right + 1
        invariant arr[left..k'] == merged[..k' - left]
        invariant n < |run| ==> merged[k' - left..] == run[n..]
        invariant arr[..left] == old(arr[..left]) && arr[right + 1..] == old(arr[right + 1..])
        invariant Tracing(arr.Length, sorted)
      {
        assert merged[k' - left] == run[n] && merged[k' - left + 1..] == run[n + 1..] by {
          assert merged[k' - left..][0] == run[n..][0];
          assert merged[k' - left + 1..] == merged[k' - left..][1..];
        }
        Put(arr, left, k', right, run[n], sorted, merged);
        n := n + 1;
        k' := k' + 1;
      }
    }

    /** Writes the next merged value, arr[k] = v, and records the new picture. */
    method Put(arr: array<int>, left: int, k: int, right: int, v: int, sorted: seq<int>, ghost merged: seq<int>)
      requires 0 <= left <= k <= right < arr.Length
      requires k - left < |merged| && merged[k - left] == v && arr[left..k] == merged[..k - left]
      requires Tracing(arr.Length, sorted)
      modifies this, arr
      ensures arr[left..k + 1] == merged[..k + 1 - left]
      ensures arr[..left] == old(arr[..left]) && arr[right + 1..] == old(arr[right + 1..])
      ensures Tracing(arr.Length, sorted)
    {
      WriteExtends(arr[..], left, k, right + 1, v);
      assert merged[..k + 1 - left] == merged[..k - left] + [v];
      arr[k] := v;
      AddStep(arr, [], sorted);
    }

    /** The loop at the end of a merge: every index of left..right not yet in `sorted` is appended. */
    method IncludeRange(sorted: seq<int>, left: int, right: int) returns (sorted': seq<int>)
      requires left <= right + 1
      ensures sorted' == sorted + Missing(sorted, left, right + 1)
    {
      sorted' := sorted;
      var idx := left;
      while idx <= right
        invariant left <= idx <= right + 1
        invariant sorted' == sorted + Missing(sorted, left, idx)
      {
        MissingMember(sorted, left, idx);
        if idx !in sorted' {
          sorted' := sorted' + [idx];
        }
        idx := idx + 1;
      }
    }

    // ------------------------------------------------------------- quick

    /** Quick sort (Lomuto partition, last element as pivot); `sorted` starts empty. */
    method QuickSort(input: seq<int>) returns (r: seq<SortingStep>)
      modifies this
      ensures r == steps
      ensures |input| == 0 ==> r == []
      ensures |input| > 0 ==> Complete(r, input)
    {
      steps := [];
      var arr := CopyOf(input);
      var sorted := QuickSortHelper(arr, 0, arr.Length - 1, []);
      r := steps;
      if arr.Length > 0 {
        assert arr[..] == arr[0..arr.Length];
        FinishedTrace(r, input);
      }
    }

    /**
     * Sorts arr[low..high] in place. Every index of the range joins
     * `sorted` exactly once (a pivot when it is placed, a one-element range
     * when it is reached), and when the range is not empty the last snapshot
     * shows the result.
     */
    method QuickSortHelper(arr: array<int>, low: int, high: int, sorted: seq<int>) returns (sorted': seq<int>)
      requires 0 <= low <= high + 1 <= arr.Length
      requires Tracing(arr.Length, sorted) && NoDup(sorted) && Fresh(sorted, low, high + 1)
      modifies this, arr
      ensures IsSorted(arr[low..high + 1]) && multiset(arr[..]) == old(multiset(arr[..]))
      ensures arr[..low] == old(arr[..low]) && arr[high + 1..] == old(arr[high + 1..])
      ensures AddsRange(sorted', sorted, low, high + 1) && Tracing(arr.Length, sorted')
      ensures low <= high ==> Shows(arr, sorted')
      ensures low > high ==> sorted' == sorted && steps == old(steps) && arr[..] == old(arr[..])
      decreases high - low, 1
    {
      sorted' := sorted;
      if low < high {
        ghost var a0 := arr[..];
        var pi := Partition(arr, low, high, sorted);
        ghost var a1 := arr[..];
        PivotJoins(sorted, low, pi, high + 1);
        TracingSnoc(arr.Length, sorted, pi);
        var s2;
        s2, sorted' := QuickSides(arr, low, pi, high, sorted + [pi]);
        QuickCombine(a0, a1, arr[..], low, pi, high);
        QuickIndices(sorted, sorted + [pi], s2, sorted', low, pi, high + 1);
      } else if low == high {
        sorted' := MarkSingle(arr, low, sorted);
      }
    }

    /**
     * The two recursive calls of the quick sort helper: sorts the values left
     * of the pivot at `pi`, then those right of it. `half` is the list between
     * the two calls.
     */
    method QuickSides(arr: array<int>, low: int, pi: int, high: int, sorted: seq<int>) returns (half: seq<int>, sorted': seq<int>)
      requires 0 <= low <= pi <= high < arr.Length
      requires Tracing(arr.Length, sorted) && NoDup(sorted) && Fresh(sorted, low, pi) && Fresh(sorted, pi + 1, high + 1)
      modifies this, arr
      ensures IsSorted(arr[low..pi]) && multiset(arr[low..pi]) == old(multiset(arr[low..pi]))
      ensures IsSorted(arr[pi + 1..high + 1]) && multiset(arr[pi + 1..high + 1]) == old(multiset(arr[pi + 1..high + 1]))
      ensures arr[pi] == old(arr[pi]) && multiset(arr[..]) == old(multiset(arr[..]))
      ensures arr[..low] == old(arr[..low]) && arr[high + 1..] == old(arr[high + 1..])
      ensures AddsRange(half, sorted, low, pi) && AddsRange(sorted', half, pi + 1, high + 1)
      ensures Tracing(arr.Length, sorted') && (pi < high || low < pi ==> Shows(arr, sorted'))
      ensures pi == high && low == pi ==> steps == old(steps)
      decreases high - low, 0
    {
      ghost var a1 := arr[..];
      half := QuickSortHelper(arr, low, pi - 1, sorted);
      ghost var a2 := arr[..];
      RightStillFresh(sorted, half, low, pi, high + 1);
      sorted' := QuickSortHelper(arr, pi + 1, high, half);
      QuickSidesFrames(a1, a2, arr[..], low, pi, high);
    }

    /**
     * A one-element range is sorted: its index joins `sorted`. The source
     * guards this with "not already in `sorted`"; `Fresh` shows that guard
     * always holds where quick sort calls it.
     */
    method MarkSingle(arr: array<int>, low: int, sorted: seq<int>) returns (sorted': seq<int>)
      requires 0 <= low < arr.Length
      requires Tracing(arr.Length, sorted) && NoDup(sorted) && Fresh(sorted, low, low + 1)
      modifies this
      ensures AddsRange(sorted', sorted, low, low + 1) && Tracing(arr.Length, sorted')
      ensures Shows(arr, sorted')
    {
      assert low !in sorted;
      NoDupSnoc(sorted, low);
      sorted' := sorted + [low];
      AddStep(arr, [], sorted');
    }

    /**
     * Lomuto partition of arr[low..high] around the pivot arr[high]: returns
     * the pivot's final position, with smaller values before it and the others
     * after it.
     */
    method Partition(arr: array<int>, low: int, high: int, sorted: seq<int>) returns (p: int)
      requires 0 <= low <= high < arr.Length
      requires Tracing(arr.Length, sorted)
      modifies this, arr
      ensures PivotPlaced(arr[..], low, p, high) && arr[p] == old(arr[high])
      ensures multiset(arr[..]) == old(multiset(arr[..]))
      ensures arr[..low] == old(arr[..low]) && arr[high + 1..] == old(arr[high + 1..])
      ensures Tracing(arr.Length, sorted)
    {
      var pivot := arr[high];
      AddStep(arr, [], sorted, [high]);
      var i := PartitionScan(arr, low, high, pivot, sorted);
      p := PlacePivot(arr, low, i, high, sorted);
    }

    /** Swaps the pivot from `high` to the end of the low block, i + 1, with its snapshot. */
    method PlacePivot(arr: array<int>, low: int, i: int, high: int, sorted: seq<int>) returns (p: int)
      requires 0 <= high < arr.Length && Partitioned(arr[..], low, i, high, arr[high])
      requires Tracing(arr.Length, sorted)
      modifies this, arr
      ensures p == i + 1 && PivotPlaced(arr[..], low, p, high) && arr[p] == old(arr[high])
      ensures multiset(arr[..]) == old(multiset(arr[..]))
      ensures arr[..low] == old(arr[..low]) && arr[high + 1..] == old(arr[high + 1..])
      ensures Tracing(arr.Length, sorted)
    {
      ghost var b := arr[..];
      Swap(arr, i + 1, high);
      PartitionPlace(b, arr[..], low, i, high);
      AddStep(arr, [i + 1, high], sorted);
      p := i + 1;
    }

    /** The loop of the partition: moves the values below `pivot` to the front of arr[low..high-1]. */
    method PartitionScan(arr: array<int>, low: int, high: int, pivot: int, sorted: seq<int>) returns (i: int)
      requires 0 <= low <= high < arr.Length && arr[high] == pivot
      requires Tracing(arr.Length, sorted)
      modifies this, arr
      ensures Partitioned(arr[..], low, i, high, pivot) && arr[high] == pivot
      ensures multiset(arr[..]) == old(multiset(arr[..]))
      ensures arr[..low] == old(arr[..low]) && arr[high + 1..] == old(arr[high + 1..])
      ensures Tracing(arr.Length, sorted)
    {
      ghost var a := arr[..];
      i := low - 1;
      var j := low;
      while j < high
        invariant low <= j <= high
        invariant Partitioned(arr[..], low, i, j, pivot)
        invariant arr[high] == pivot
        invariant multiset(arr[..]) == multiset(a)
        invariant arr[..low] == a[..low] && arr[high + 1..] == a[high + 1..]
        invariant Tracing(arr.Length, sorted)
      {
        ghost var b := arr[..];
        i := PartitionCompare(arr, low, i, j, high, pivot, sorted);
        if b[j] < pivot {
          PartitionTake(b, low, i - 1, j, pivot);
        } else {
          PartitionSkip(b, low, i, j, pivot);
        }
        j := j + 1;
      }
    }

    /** One comparison of the partition loop, with its snapshots; returns the new end of the low block. */
    method PartitionCompare(arr: array<int>, low: int, i: int, j: int, high: int, pivot: int, sorted: seq<int>) returns (i': int)
      requires 0 <= low <= i + 1 <= j < high < arr.Length
      requires Tracing(arr.Length, sorted)
      modifies this, arr
      ensures old(arr[j]) < pivot ==> i' == i + 1 && arr[..] == Swapped(old(arr[..]), i + 1, j)
      ensures pivot <= old(arr[j]) ==> i' == i && arr[..] == old(arr[..])
      ensures Tracing(arr.Length, sorted)
    {
      AddStep(arr, [j, high], sorted, [high]);
      i' := i;
      if arr[j] < pivot {
        i' := i + 1;
        Swap(arr, i', j);
        AddStep(arr, [i', j], sorted, [high]);
      }
    }

    /** The sort named by `algorithm`; an unknown name selects bubble sort. */
    method GetSteps(algorithm: string, input: seq<int>) returns (r: seq<SortingStep>)
      modifies this
      ensures r == steps
      ensures |input| > 1 || (|input| == 1 && algorithm != "merge") ==> Complete(r, input)
      ensures algorithm == "merge" && |input| <= 1 ==> r == []
      ensures algorithm == "quick" && |input| == 0 ==> r == []
      ensures algorithm == "selection" && |input| == 0 ==> r == [SortingStep([], [], [-1], [])]
      ensures algorithm !in ["selection", "merge", "quick"] && |input| == 0
        ==> r == [SortingStep([], [], [0], [])]
    {
      match algorithm {
        case "bubble" => r := BubbleSort(input);
        case "selection" => r := SelectionSort(input);
        case "insertion" => r := InsertionSort(input);
        case "merge" => r := MergeSort(input);
        case "quick" => r := QuickSort(input);
        case _ => r := BubbleSort(input);
      }
    }
  }
}
