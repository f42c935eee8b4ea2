/**
 * Specification functions for the sorting traces: ascending order, the
 * two-pointer merge, index ranges, and the "sorted only grows" relation
 * between the `sorted` lists of consecutive snapshots.
 */
module SortSpec {
  import opened Util

  /** `s` is in ascending order. */
  predicate IsSorted(s: seq<int>)
  {
    forall i, j :: 0 <= i < j < |s| ==> s[i] <= s[j]
  }

  /** Every index in `xs` addresses an element of an array of length `n`. */
  predicate InRange(xs: seq<int>, n: int)
  {
    forall x :: x in xs ==> 0 <= x < n
  }

  /** Every index held in `a` is still held in `b`. */
  predicate Grows(a: seq<int>, b: seq<int>)
  {
    forall x :: x in a ==> x in b
  }

  /** The indices lo, lo + 1, ..., hi - 1, in increasing order. */
  function Range(lo: int, hi: int): (r: seq<int>)
    ensures |r| == if lo < hi then hi - lo else 0
    ensures forall k :: 0 <= k < |r| ==> r[k] == lo + k
    decreases hi - lo
  {
    if lo >= hi then [] else [lo] + Range(lo + 1, hi)
  }

  /** A range holds exactly the integers between its bounds, once each. */
  lemma RangeCovers(lo: int, hi: int)
    requires 0 <= lo
    ensures forall x :: lo <= x < hi ==> x in Range(lo, hi)
    ensures InRange(Range(lo, hi), hi) && NoDup(Range(lo, hi))
  {
    var r := Range(lo, hi);
    forall x | lo <= x < hi
      ensures x in r
    {
      assert r[x - lo] == x;
    }
  }

  /** Extending a range by its next index on the right. */
  lemma RangeSnoc(lo: int, hi: int)
    requires lo <= hi
    ensures Range(lo, hi) + [hi] == Range(lo, hi + 1)
  {
  }

  /**
   * The merge of two runs with two cursors: the smaller head is taken and,
   * on a tie, the head of the left run (the comparison is `<=`).
   */
  function MergeSeq(a: seq<int>, b: seq<int>): seq<int>
    decreases |a| + |b|
  {
    if a == [] then b
    else if b == [] then a
    else if a[0] <= b[0] then [a[0]] + MergeSeq(a[1..], b)
    else [b[0]] + MergeSeq(a, b[1..])
  }

  /** The merge holds exactly the elements of both runs. */
  lemma {:induction false} MergePermutes(a: seq<int>, b: seq<int>)
    ensures multiset(MergeSeq(a, b)) == multiset(a) + multiset(b)
    decreases |a| + |b|
  {
    if a == [] || b == [] {
    } else if a[0] <= b[0] {
      calc {
        multiset(MergeSeq(a, b));
        multiset([a[0]] + MergeSeq(a[1..], b));
        multiset([a[0]]) + multiset(MergeSeq(a[1..], b));
        { MergePermutes(a[1..], b); }
        multiset([a[0]]) + multiset(a[1..]) + multiset(b);
        { assert a == [a[0]] + a[1..]; }
        multiset(a) + multiset(b);
      }
    } else {
      calc {
        multiset(MergeSeq(a, b));
        multiset([b[0]] + MergeSeq(a, b[1..]));
        multiset([b[0]]) + multiset(MergeSeq(a, b[1..]));
        { MergePermutes(a, b[1..]); }
        multiset([b[0]]) + multiset(a) + multiset(b[1..]);
        { assert b == [b[0]] + b[1..]; }
        multiset(a) + multiset(b);
      }
    }
  }

  /** The first element of a merge is the head of one of its runs. */
  lemma MergeHead(a: seq<int>, b: seq<int>)
    requires MergeSeq(a, b) != []
    ensures (a != [] && MergeSeq(a, b)[0] == a[0]) || (b != [] && MergeSeq(a, b)[0] == b[0])
  {
  }

  /** Merging two ascending runs gives an ascending sequence. */
  lemma {:induction false} MergeSorted(a: seq<int>, b: seq<int>)
    requires IsSorted(a) && IsSorted(b)
    ensures IsSorted(MergeSeq(a, b))
    decreases |a| + |b|
  {
    if a == [] || b == [] {
    } else if a[0] <= b[0] {
      var rest := MergeSeq(a[1..], b);
      MergeSorted(a[1..], b);
      if rest != [] {
        MergeHead(a[1..], b);
      }
      SortedCons(a[0], rest);
    } else {
      var rest := MergeSeq(a, b[1..]);
      MergeSorted(a, b[1..]);
      if rest != [] {
        MergeHead(a, b[1..]);
      }
      SortedCons(b[0], rest);
    }
  }

  /** Prepending an element no larger than the head keeps a sequence ascending. */
  lemma SortedCons(x: int, s: seq<int>)
    requires IsSorted(s) && (s != [] ==> x <= s[0])
    ensures IsSorted([x] + s)
  {
  }

  /**
   * Two ascending ranges separated by a pivot form one ascending range:
   * everything left of `p` is below `s[p]` and everything right of it is at
   * least `s[p]`.
   */
  lemma SortedAroundPivot(s: seq<int>, lo: int, p: int, hi: int)
    requires 0 <= lo <= p < hi <= |s|
    requires IsSorted(s[lo..p]) && IsSorted(s[p + 1..hi])
    requires forall k :: lo <= k < p ==> s[k] < s[p]
    requires forall k :: p < k < hi ==> s[p] <= s[k]
    ensures IsSorted(s[lo..hi])
  {
    forall i, j | lo <= i < j < hi
      ensures s[i] <= s[j]
    {
      if j < p {
        assert s[lo..p][i - lo] == s[i] && s[lo..p][j - lo] == s[j];
      } else if i > p {
        assert s[p + 1..hi][i - p - 1] == s[i] && s[p + 1..hi][j - p - 1] == s[j];
      }
    }
  }

  /** Every element of a range with the same multiset as `t` satisfies what all of `t` satisfies. */
  lemma BoundByMultiset(s: seq<int>, t: seq<int>, bound: int, below: bool)
    requires multiset(s) == multiset(t)
    requires forall k :: 0 <= k < |t| ==> if below then t[k] < bound else bound <= t[k]
    ensures forall k :: 0 <= k < |s| ==> if below then s[k] < bound else bound <= s[k]
  {
    forall k | 0 <= k < |s|
      ensures if below then s[k] < bound else bound <= s[k]
    {
      assert s[k] in multiset(t);
      var m :| 0 <= m < |t| && t[m] == s[k];
    }
  }

  /** Two ascending runs where every element of the first is at most every element of the second. */
  lemma SortedConcat(a: seq<int>, b: seq<int>)
    requires IsSorted(a) && IsSorted(b)
    requires forall i, j :: 0 <= i < |a| && 0 <= j < |b| ==> a[i] <= b[j]
    ensures IsSorted(a + b)
  {
  }

  /**
   * Two sequences that agree outside [lo, hi) hold the same values exactly
   * when their parts inside the range do.
   */
  lemma FramedMultiset(a: seq<int>, b: seq<int>, lo: int, hi: int)
    requires 0 <= lo <= hi <= |a| && |b| == |a|
    requires b[..lo] == a[..lo] && b[hi..] == a[hi..]
    ensures multiset(b) == multiset(a) <==> multiset(b[lo..hi]) == multiset(a[lo..hi])
  {
    assert a == a[..lo] + a[lo..hi] + a[hi..];
    assert b == b[..lo] + b[lo..hi] + b[hi..];
    var outside := multiset(a[..lo]) + multiset(a[hi..]);
    assert multiset(a) == outside + multiset(a[lo..hi]);
    assert multiset(b) == outside + multiset(b[lo..hi]);
    if multiset(b) == multiset(a) {
      assert multiset(b[lo..hi]) == multiset(b) - outside;
      assert multiset(a[lo..hi]) == multiset(a) - outside;
    }
  }

  /** No index of [lo, hi) is held in `s`. */
  predicate Fresh(s: seq<int>, lo: int, hi: int)
  {
    forall x :: lo <= x < hi ==> x !in s
  }

  /** `t` holds, each once, the indices of `s` and those of [lo, hi). */
  ghost predicate AddsRange(t: seq<int>, s: seq<int>, lo: int, hi: int)
  {
    NoDup(t) && forall x :: x in t <==> x in s || lo <= x < hi
  }

  /** Quick sort's pivot p joins `s`, leaving what lies either side of it unheld. */
  lemma PivotJoins(s: seq<int>, lo: int, p: int, hi: int)
    requires NoDup(s) && Fresh(s, lo, hi) && lo <= p < hi
    ensures NoDup(s + [p]) && Fresh(s + [p], lo, p) && Fresh(s + [p], p + 1, hi)
    ensures AddsRange(s + [p], s, p, p + 1)
  {
    NoDupSnoc(s, p);
  }

  /** The indices right of the pivot are still unheld once the left side has joined. */
  lemma RightStillFresh(s: seq<int>, t: seq<int>, lo: int, p: int, hi: int)
    requires Fresh(s, p + 1, hi) && lo <= p && AddsRange(t, s, lo, p)
    ensures Fresh(t, p + 1, hi)
  {
  }

  /** Quick sort's indices: the pivot, then the left side, then the right side cover the range. */
  lemma QuickIndices(s: seq<int>, sp: seq<int>, t: seq<int>, u: seq<int>, lo: int, p: int, hi: int)
    requires lo <= p < hi
    requires AddsRange(sp, s, p, p + 1) && AddsRange(t, sp, lo, p) && AddsRange(u, t, p + 1, hi)
    ensures AddsRange(u, s, lo, hi)
  {
  }

  /** `s` with the elements at positions i and j exchanged. */
  function Swapped(s: seq<int>, i: int, j: int): (t: seq<int>)
    requires 0 <= i < |s| && 0 <= j < |s|
    ensures |t| == |s| && t[i] == s[j] && t[j] == s[i]
    ensures forall k :: 0 <= k < |s| && k != i && k != j ==> t[k] == s[k]
    ensures multiset(t) == multiset(s)
  {
    s[i := s[j]][j := s[i]]
  }

  // ---------------------------------------------------------------- bubble

  /**
   * The state bubble sort keeps between outer passes: from position m on,
   * every value is at least every value before it (so the suffix is
   * ascending and in its final place).
   */
  predicate Bubbled(a: seq<int>, m: int)
  {
    0 <= m <= |a| && forall x, y :: 0 <= x < y < |a| && m <= y ==> a[x] <= a[y]
  }

  /** Among the first j+1 values, the largest sits at position j. */
  predicate CarriesMax(a: seq<int>, j: int)
  {
    0 <= j < |a| && forall k :: 0 <= k <= j ==> a[k] <= a[j]
  }

  /** Swapping an out-of-order adjacent pair carries the running maximum one place right. */
  lemma SwapAdjacent(a: seq<int>, j: int, m: int)
    requires 0 <= j && j + 1 < m <= |a|
    requires CarriesMax(a, j) && a[j] > a[j + 1] && Bubbled(a, m)
    ensures CarriesMax(Swapped(a, j, j + 1), j + 1) && Bubbled(Swapped(a, j, j + 1), m)
  {
  }

  /** An adjacent pair already in order also carries the running maximum one place right. */
  lemma NoSwapAdjacent(a: seq<int>, j: int)
    requires 0 <= j && j + 1 < |a|
    requires CarriesMax(a, j) && a[j] <= a[j + 1]
    ensures CarriesMax(a, j + 1)
  {
  }

  /** Once the maximum of the unsorted prefix reaches its end, the sorted suffix is one longer. */
  lemma PassDone(a: seq<int>, m: int)
    requires 0 < m <= |a| && CarriesMax(a, m - 1) && Bubbled(a, m)
    ensures Bubbled(a, m - 1)
  {
  }

  /** A sequence bubbled from position 1 (or shorter than two) is ascending. */
  lemma BubbledSorted(a: seq<int>)
    requires |a| <= 1 || Bubbled(a, 1)
    ensures IsSorted(a)
  {
  }

  // -------------------------------------------------------------- selection

  /**
   * The state selection sort keeps between outer passes: every value among
   * the first i is at most every value after it.
   */
  predicate SelectedUpTo(a: seq<int>, i: int)
  {
    0 <= i <= |a| && forall x, y :: 0 <= x < y < |a| && x < i ==> a[x] <= a[y]
  }

  /** m is the first position of a minimum of a[i..]. */
  predicate IsFirstMin(a: seq<int>, i: int, m: int)
  {
    && 0 <= i <= m < |a|
    && (forall k :: i <= k < |a| ==> a[m] <= a[k])
    && (forall k :: i <= k < m ==> a[m] < a[k])
  }

  /** Moving the minimum of the rest to position i extends the selected prefix by one. */
  lemma SelectSwap(a: seq<int>, i: int, m: int)
    requires SelectedUpTo(a, i) && IsFirstMin(a, i, m)
    ensures SelectedUpTo(Swapped(a, i, m), i + 1)
  {
  }

  /** A sequence selected up to its last position (or shorter than two) is ascending. */
  lemma SelectedSorted(a: seq<int>)
    requires |a| <= 1 || SelectedUpTo(a, |a| - 1)
    ensures IsSorted(a)
  {
  }

  // -------------------------------------------------------------- insertion

  /** a[i] taken out and placed at position p <= i, the values a[p..i] moved one place right. */
  function Inserted(a: seq<int>, i: int, p: int): (b: seq<int>)
    requires 0 <= p <= i < |a|
    ensures |b| == |a|
  {
    a[..p] + [a[i]] + a[p..i] + a[i + 1..]
  }

  /** Inserting rearranges: the multiset of values is unchanged. */
  lemma InsertedPermutes(a: seq<int>, i: int, p: int)
    requires 0 <= p <= i < |a|
    ensures multiset(Inserted(a, i, p)) == multiset(a)
  {
    assert a == a[..p] + a[p..i] + [a[i]] + a[i + 1..];
  }

  /**
   * Inserting a[i] after the last value not above it, into an ascending
   * prefix a[..i], gives an ascending prefix of length i+1 and leaves the
   * rest alone.
   */
  lemma InsertedSorted(a: seq<int>, i: int, p: int)
    requires 0 <= p <= i < |a| && IsSorted(a[..i])
    requires forall k :: p <= k < i ==> a[k] > a[i]
    requires p > 0 ==> a[p - 1] <= a[i]
    ensures IsSorted(Inserted(a, i, p)[..i + 1])
    ensures Inserted(a, i, p)[i + 1..] == a[i + 1..]
  {
    var b := Inserted(a, i, p);
    assert forall k :: 0 <= k < p ==> b[k] == a[k];
    assert b[p] == a[i];
    assert forall k :: p < k <= i ==> b[k] == a[k - 1];
    forall x, y | 0 <= x < y <= i
      ensures b[x] <= b[y]
    {
      assert a[..i][x] == a[x] || x >= i;
      if y < p {
        assert a[..i][y] == a[y];
      } else if y == p {
        if x < p {
          assert a[..i][x] == a[x] && a[..i][p - 1] == a[p - 1];
        }
      } else if x < p {
        assert a[..i][x] == a[x] && a[..i][y - 1] == a[y - 1];
      } else if x > p {
        assert a[..i][x - 1] == a[x - 1] && a[..i][y - 1] == a[y - 1];
      }
    }
  }

  /**
   * The state of the shifting loop of insertion sort once the values
   * a[j+1..i-1] have each been copied one place right: positions up to j+1
   * and after i still hold their own values.
   */
  function Shifted(a: seq<int>, i: int, j: int): (b: seq<int>)
    requires -1 <= j < i < |a|
    ensures |b| == |a|
  {
    a[..j + 2] + a[j + 1..i] + a[i + 1..]
  }

  /** Before any shift, the array is untouched. */
  lemma ShiftedNone(a: seq<int>, i: int)
    requires 0 <= i < |a|
    ensures Shifted(a, i, i - 1) == a
  {
  }

  /** Copying a[j] into position j+1 shifts one more value. */
  lemma ShiftedMore(a: seq<int>, i: int, j: int)
    requires 0 <= j < i < |a|
    ensures Shifted(a, i, j)[j + 1 := a[j]] == Shifted(a, i, j - 1)
    ensures Shifted(a, i, j)[j] == a[j]
  {
  }

  /** Writing the saved value a[i] into the gap at j+1 completes the insertion. */
  lemma ShiftedPlace(a: seq<int>, i: int, j: int)
    requires -1 <= j < i < |a|
    ensures Shifted(a, i, j)[j + 1 := a[i]] == Inserted(a, i, j + 1)
    ensures j >= 0 ==> Shifted(a, i, j)[j] == a[j]
  {
  }

  /** Inserting only rearranges the prefix a[..i+1] among itself. */
  lemma InsertedPrefix(a: seq<int>, i: int, p: int)
    requires 0 <= p <= i < |a|
    ensures multiset(Inserted(a, i, p)[..i + 1]) == multiset(a[..i + 1])
  {
    assert Inserted(a, i, p)[..i + 1] == a[..p] + [a[i]] + a[p..i];
    assert a[..i + 1] == a[..p] + a[p..i] + [a[i]];
  }

  /**
   * After i rounds of insertion sort: the first i places hold the first i
   * input values in some order, and the rest of the input is untouched.
   */
  predicate PrefixPermuted(a: seq<int>, input: seq<int>, i: int)
  {
    && |a| == |input| && 0 <= i <= |a|
    && a[i..] == input[i..] && multiset(a[..i]) == multiset(input[..i])
  }

  /** A round that permutes a[..i+1] and keeps a[i+1..] extends the permuted prefix by one. */
  lemma PrefixPermutedStep(before: seq<int>, after: seq<int>, input: seq<int>, i: int)
    requires PrefixPermuted(before, input, i) && i < |before| && |after| == |before|
    requires after[i + 1..] == before[i + 1..] && multiset(after[..i + 1]) == multiset(before[..i + 1])
    ensures PrefixPermuted(after, input, i + 1)
  {
    assert before[..i + 1] == before[..i] + [before[i]];
    assert input[..i + 1] == input[..i] + [input[i]];
    assert before[i] == before[i..][0] == input[i..][0] == input[i];
    assert input[i + 1..] == input[i..][1..];
  }

  // --------------------------------------------------------------- merging

  /** The integers lo, lo + 1, ..., hi - 1, in increasing order, that do not occur in `s`. */
  function Missing(s: seq<int>, lo: int, hi: int): seq<int>
    decreases hi - lo
  {
    if hi <= lo then [] else Missing(s, lo, hi - 1) + (if hi - 1 in s then [] else [hi - 1])
  }

  /** Missing holds exactly the integers of [lo, hi) absent from `s`, each once. */
  lemma {:induction false} MissingMember(s: seq<int>, lo: int, hi: int)
    ensures forall x :: x in Missing(s, lo, hi) <==> lo <= x < hi && x !in s
    ensures NoDup(Missing(s, lo, hi))
    decreases hi - lo
  {
    if hi > lo {
      MissingMember(s, lo, hi - 1);
      NoDupConcat(Missing(s, lo, hi - 1), if hi - 1 in s then [] else [hi - 1]);
    }
  }

  /** Exactly the integers between the bounds occur in a range. */
  lemma RangeMember(lo: int, hi: int, x: int)
    ensures x in Range(lo, hi) <==> lo <= x < hi
  {
    if lo <= x < hi {
      assert Range(lo, hi)[x - lo] == x;
    }
  }

  /**
   * Once the merges below have entered the indices lo..m-1 after a list `s`
   * that holds no index of lo..hi-1, the indices still missing from lo..hi-1
   * are exactly m..hi-1.
   */
  lemma {:induction false} MissingRange(s: seq<int>, lo: int, m: int, hi: int)
    requires lo <= m <= hi
    requires forall x :: lo <= x < hi ==> x !in s
    ensures Missing(s + Range(lo, m), lo, hi) == Range(m, hi)
    decreases hi - lo
  {
    if hi > lo {
      var t := s + Range(lo, m);
      RangeMember(lo, m, hi - 1);
      assert hi - 1 in t <==> hi - 1 < m;
      if m == hi {
        assert hi - 1 in t;
        RangeSnoc(lo, hi - 1);
        MissingRange(s, lo, m - 1, hi - 1);
        assert Missing(t, lo, hi - 1) == Missing(s + Range(lo, m - 1), lo, hi - 1) by {
          MissingExtend(s + Range(lo, m - 1), hi - 1, lo, hi - 1);
          assert t == s + Range(lo, m - 1) + [hi - 1];
        }
      } else {
        MissingRange(s, lo, m, hi - 1);
        RangeSnoc(m, hi - 1);
      }
    }
  }

  /** Adding to `s` an integer outside [lo, hi) changes nothing missing from it. */
  lemma {:induction false} MissingExtend(s: seq<int>, x: int, lo: int, hi: int)
    requires !(lo <= x < hi)
    ensures Missing(s + [x], lo, hi) == Missing(s, lo, hi)
    decreases hi - lo
  {
    if hi > lo {
      MissingExtend(s, x, lo, hi - 1);
      assert hi - 1 in s + [x] <==> hi - 1 in s;
    }
  }

  /** A list without duplicates extended by fresh elements has none either. */
  lemma NoDupConcat(s: seq<int>, t: seq<int>)
    requires NoDup(s) && NoDup(t)
    requires forall x :: x in t ==> x !in s
    ensures NoDup(s + t)
  {
    forall i, j | 0 <= i < j < |s + t|
      ensures (s + t)[i] != (s + t)[j]
    {
      if i < |s| && j >= |s| {
        assert (s + t)[j] == t[j - |s|] && t[j - |s|] in t;
      } else if i >= |s| {
        assert (s + t)[i] == t[i - |s|] && (s + t)[j] == t[j - |s|];
      }
    }
  }

  /** A merge is as long as its two inputs together. */
  lemma MergeLength(a: seq<int>, b: seq<int>)
    ensures |MergeSeq(a, b)| == |a| + |b|
  {
    MergePermutes(a, b);
    assert |multiset(MergeSeq(a, b))| == |multiset(a) + multiset(b)|;
  }

  /**
   * One step of merging: when `ms` continues as the merge of l[i..] and
   * r[j..], its next value is the smaller head (the left one on a tie), and
   * the merge continues with that head dropped.
   */
  lemma MergeNext(l: seq<int>, r: seq<int>, i: int, j: int, ms: seq<int>)
    requires 0 <= i < |l| && 0 <= j < |r| && i + j <= |ms|
    requires ms[i + j..] == MergeSeq(l[i..], r[j..])
    ensures i + j < |ms|
    ensures l[i] <= r[j] ==> ms[i + j] == l[i] && ms[i + j + 1..] == MergeSeq(l[i + 1..], r[j..])
    ensures r[j] < l[i] ==> ms[i + j] == r[j] && ms[i + j + 1..] == MergeSeq(l[i..], r[j + 1..])
  {
    assert ms[i + j + 1..] == ms[i + j..][1..];
    if l[i] <= r[j] {
      MergeTakeLeft(l, r, i, j);
    } else {
      MergeTakeRight(l, r, i, j);
    }
  }

  /** Once either run is exhausted, what is left to merge is the rest of the other run. */
  lemma MergeRest(l: seq<int>, r: seq<int>, i: int, j: int)
    requires 0 <= i <= |l| && 0 <= j <= |r| && (i == |l| || j == |r|)
    ensures i < |l| ==> MergeSeq(l[i..], r[j..]) == l[i..]
    ensures i == |l| ==> MergeSeq(l[i..], r[j..]) == r[j..]
  {
  }

  /** The indices merge sort's left half adds to `s`: all of it, when it has two or more. */
  function LeftHalf(s: seq<int>, lo: int, mid: int): seq<int>
  {
    s + (if lo < mid then Range(lo, mid + 1) else [])
  }

  /** Sorting the left half of lo..hi leaves the indices of the right half unheld. */
  lemma MergeHalvesFresh(s: seq<int>, lo: int, mid: int, hi: int)
    requires Fresh(s, lo, hi + 1) && lo <= mid < hi
    ensures Fresh(s, lo, mid + 1) && Fresh(LeftHalf(s, lo, mid), mid + 1, hi + 1)
  {
    forall x | mid + 1 <= x < hi + 1
      ensures x !in LeftHalf(s, lo, mid)
    {
      RangeMember(lo, mid + 1, x);
    }
  }

  /** Where the indices merge sort's two halves of lo..hi have added to `s` end. */
  function HalvesEnd(lo: int, mid: int, hi: int): int
  {
    if mid + 1 < hi then hi + 1 else if lo < mid then mid + 1 else lo
  }

  /** Both halves of lo..hi together add a prefix lo, ..., HalvesEnd - 1 of the range. */
  lemma HalvesAdd(s: seq<int>, lo: int, mid: int, hi: int)
    requires lo < hi && mid == (lo + hi) / 2
    ensures LeftHalf(s, lo, mid) + (if mid + 1 < hi then Range(mid + 1, hi + 1) else [])
      == s + Range(lo, HalvesEnd(lo, mid, hi))
  {
    if mid + 1 < hi {
      RangeSplit(lo, mid + 1, hi + 1);
      assert LeftHalf(s, lo, mid) + Range(mid + 1, hi + 1) == s + (Range(lo, mid + 1) + Range(mid + 1, hi + 1));
    } else if lo == mid {
      assert LeftHalf(s, lo, mid) == s + Range(lo, lo);
    }
  }

  /** The indices of lo..hi the two halves have not added are HalvesEnd, ..., hi. */
  lemma HalvesMissing(s: seq<int>, t: seq<int>, lo: int, mid: int, hi: int)
    requires Fresh(s, lo, hi + 1) && lo < hi && mid == (lo + hi) / 2
    requires t == LeftHalf(s, lo, mid) + (if mid + 1 < hi then Range(mid + 1, hi + 1) else [])
    ensures Missing(t, lo, hi + 1) == Range(HalvesEnd(lo, mid, hi), hi + 1)
  {
    HalvesAdd(s, lo, mid, hi);
    MissingRange(s, lo, HalvesEnd(lo, mid, hi), hi + 1);
  }

  /**
   * Merge sort's indices: after both halves of lo..hi, and the indices the
   * merge finds missing, `s` has grown by exactly lo, ..., hi in order.
   */
  lemma MergeIndices(s: seq<int>, t: seq<int>, lo: int, mid: int, hi: int)
    requires Fresh(s, lo, hi + 1) && lo < hi && mid == (lo + hi) / 2
    requires t == LeftHalf(s, lo, mid) + (if mid + 1 < hi then Range(mid + 1, hi + 1) else [])
    ensures t + Missing(t, lo, hi + 1) == s + Range(lo, hi + 1)
  {
    var m := HalvesEnd(lo, mid, hi);
    calc {
      t + Missing(t, lo, hi + 1);
      == { HalvesMissing(s, t, lo, mid, hi); }
      t + Range(m, hi + 1);
      == { HalvesAdd(s, lo, mid, hi); }
      s + Range(lo, m) + Range(m, hi + 1);
      == 
      s + (Range(lo, m) + Range(m, hi + 1));
      == { RangeSplit(lo, m, hi + 1); }
      s + Range(lo, hi + 1);
    }
  }

  lemma MergeTakeLeft(l: seq<int>, r: seq<int>, i: int, j: int)
    requires 0 <= i < |l| && 0 <= j <= |r|
    requires j == |r| || l[i] <= r[j]
    ensures MergeSeq(l[i..], r[j..]) == [l[i]] + MergeSeq(l[i + 1..], r[j..])
  {
    assert l[i..][1..] == l[i + 1..];
  }

  /** One step of the two-cursor merge taking from the right run. */
  lemma MergeTakeRight(l: seq<int>, r: seq<int>, i: int, j: int)
    requires 0 <= i <= |l| && 0 <= j < |r|
    requires i == |l| || l[i] > r[j]
    ensures MergeSeq(l[i..], r[j..]) == [r[j]] + MergeSeq(l[i..], r[j + 1..])
  {
    assert r[j..][1..] == r[j + 1..];
  }

  // ------------------------------------------------------------- partition

  /**
   * The state of the partition loop over [lo, hi): values at lo..i are
   * below the pivot, values at i+1..j-1 are not.
   */
  predicate Partitioned(a: seq<int>, lo: int, i: int, j: int, pivot: int)
  {
    && 0 <= lo && lo - 1 <= i < j <= |a|
    && (forall k :: lo <= k <= i ==> a[k] < pivot)
    && (forall k :: i < k < j ==> pivot <= a[k])
  }

  /** A value below the pivot is swapped to the end of the low block. */
  lemma PartitionTake(a: seq<int>, lo: int, i: int, j: int, pivot: int)
    requires Partitioned(a, lo, i, j, pivot) && j < |a| && a[j] < pivot
    ensures Partitioned(Swapped(a, i + 1, j), lo, i + 1, j + 1, pivot)
  {
  }

  /** A value not below the pivot stays where it is, at the end of the high block. */
  lemma PartitionSkip(a: seq<int>, lo: int, i: int, j: int, pivot: int)
    requires Partitioned(a, lo, i, j, pivot) && j < |a| && pivot <= a[j]
    ensures Partitioned(a, lo, i, j + 1, pivot)
  {
  }

  /** Position p of s[lo..hi] holds a pivot: smaller values before it, the others after it. */
  predicate PivotPlaced(s: seq<int>, lo: int, p: int, hi: int)
  {
    && 0 <= lo <= p <= hi < |s|
    && (forall k :: lo <= k < p ==> s[k] < s[p])
    && (forall k :: p < k <= hi ==> s[p] <= s[k])
  }

  /** Swapping the pivot from `hi` into position i+1 puts it between the two blocks. */
  lemma PartitionPlace(a: seq<int>, b: seq<int>, lo: int, i: int, hi: int)
    requires 0 <= hi < |a| && Partitioned(a, lo, i, hi, a[hi])
    requires b == Swapped(a, i + 1, hi)
    ensures b[i + 1] == a[hi] && PivotPlaced(b, lo, i + 1, hi)
    ensures multiset(b) == multiset(a) && b[..lo] == a[..lo] && b[hi + 1..] == a[hi + 1..]
  {
  }

  /** Two adjacent ranges form one range. */
  lemma RangeSplit(lo: int, mid: int, hi: int)
    requires lo <= mid <= hi
    ensures Range(lo, mid) + Range(mid, hi) == Range(lo, hi)
    decreases mid - lo
  {
    if lo < mid {
      RangeSplit(lo + 1, mid, hi);
    }
  }

  /** Writing position k of a run that has grown up to k extends it by the written value. */
  lemma WriteExtends(s: seq<int>, lo: int, k: int, hi: int, v: int)
    requires 0 <= lo <= k < hi <= |s|
    ensures s[k := v][lo..k + 1] == s[lo..k] + [v]
    ensures s[k := v][..lo] == s[..lo] && s[k := v][hi..] == s[hi..]
  {
  }

  /**
   * Merge sort's combination step on the array: once both halves of lo..hi
   * are sorted in place and then merged, the range is sorted, the array holds
   * the values it held first, and nothing outside the range moved.
   */
  lemma MergeCombine(a0: seq<int>, a2: seq<int>, a3: seq<int>, lo: int, mid: int, hi: int)
    requires 0 <= lo <= mid < hi < |a0| && |a2| == |a0| && |a3| == |a0|
    requires multiset(a2) == multiset(a0) && a2[..lo] == a0[..lo] && a2[hi + 1..] == a0[hi + 1..]
    requires IsSorted(a2[lo..mid + 1]) && IsSorted(a2[mid + 1..hi + 1])
    requires a3[lo..hi + 1] == MergeSeq(a2[lo..mid + 1], a2[mid + 1..hi + 1])
    requires a3[..lo] == a2[..lo] && a3[hi + 1..] == a2[hi + 1..]
    ensures IsSorted(a3[lo..hi + 1])
    ensures multiset(a3) == multiset(a0) && a3[..lo] == a0[..lo] && a3[hi + 1..] == a0[hi + 1..]
  {
    MergedSorted(a2[lo..mid + 1], a2[mid + 1..hi + 1], a3[lo..hi + 1]);
    MergePermutes(a2[lo..mid + 1], a2[mid + 1..hi + 1]);
    MergedInPlace(a2, a3, lo, mid, hi);
  }

  /** A range of the array that holds the merge of two ascending runs is ascending. */
  lemma MergedSorted(l: seq<int>, r: seq<int>, m: seq<int>)
    requires IsSorted(l) && IsSorted(r) && m == MergeSeq(l, r)
    ensures IsSorted(m)
  {
    MergeSorted(l, r);
  }

  /** Merging two adjacent runs in place keeps the values the array holds. */
  lemma MergedInPlace(a2: seq<int>, a3: seq<int>, lo: int, mid: int, hi: int)
    requires 0 <= lo <= mid < hi < |a2| && |a3| == |a2|
    requires multiset(a3[lo..hi + 1]) == multiset(a2[lo..mid + 1]) + multiset(a2[mid + 1..hi + 1])
    requires a3[..lo] == a2[..lo] && a3[hi + 1..] == a2[hi + 1..]
    ensures multiset(a3) == multiset(a2)
  {
    assert a2[lo..hi + 1] == a2[lo..mid + 1] + a2[mid + 1..hi + 1];
    FramedMultiset(a2, a3, lo, hi + 1);
  }

  /**
   * What sorting the two halves of lo..hi one after the other leaves: the
   * first half still sorted, the same values, nothing outside lo..hi moved.
   */
  lemma HalvesFrames(a0: seq<int>, a1: seq<int>, a2: seq<int>, lo: int, mid: int, hi: int)
    requires 0 <= lo <= mid < hi < |a0| && |a1| == |a0| && |a2| == |a0|
    requires multiset(a1) == multiset(a0) && a1[..lo] == a0[..lo] && a1[mid + 1..] == a0[mid + 1..]
    requires IsSorted(a1[lo..mid + 1])
    requires multiset(a2) == multiset(a1) && a2[..mid + 1] == a1[..mid + 1] && a2[hi + 1..] == a1[hi + 1..]
    ensures IsSorted(a2[lo..mid + 1])
    ensures multiset(a2) == multiset(a0) && a2[..lo] == a0[..lo] && a2[hi + 1..] == a0[hi + 1..]
  {
    assert a2[lo..mid + 1] == a2[..mid + 1][lo..];
    assert a1[lo..mid + 1] == a1[..mid + 1][lo..];
    assert a2[..lo] == a2[..mid + 1][..lo];
    assert a1[..lo] == a1[..mid + 1][..lo];
    assert a1[hi + 1..] == a1[mid + 1..][hi - mid..];
    assert a0[hi + 1..] == a0[mid + 1..][hi - mid..];
  }

  /**
   * What sorting both sides of the pivot at p, one after the other, leaves:
   * each side sorted and holding the values it held, the pivot in place,
   * nothing outside lo..hi moved.
   */
  lemma QuickSidesFrames(a1: seq<int>, a2: seq<int>, a3: seq<int>, lo: int, p: int, hi: int)
    requires 0 <= lo <= p <= hi < |a1| && |a2| == |a1| && |a3| == |a1|
    requires multiset(a2) == multiset(a1) && a2[..lo] == a1[..lo] && a2[p..] == a1[p..]
    requires IsSorted(a2[lo..p])
    requires multiset(a3) == multiset(a2) && a3[..p + 1] == a2[..p + 1] && a3[hi + 1..] == a2[hi + 1..]
    requires IsSorted(a3[p + 1..hi + 1])
    ensures IsSorted(a3[lo..p]) && multiset(a3[lo..p]) == multiset(a1[lo..p])
    ensures IsSorted(a3[p + 1..hi + 1]) && multiset(a3[p + 1..hi + 1]) == multiset(a1[p + 1..hi + 1])
    ensures a3[p] == a1[p]
    ensures multiset(a3) == multiset(a1) && a3[..lo] == a1[..lo] && a3[hi + 1..] == a1[hi + 1..]
  {
    QuickFrames(a1, a2, a3, lo, p, hi);
    FramedMultiset(a1, a2, lo, p);
    FramedMultiset(a2, a3, p + 1, hi + 1);
  }

  /** What each of the two recursive sorts leaves alone, in the terms QuickSidesFrames needs. */
  lemma QuickFrames(a1: seq<int>, a2: seq<int>, a3: seq<int>, lo: int, p: int, hi: int)
    requires 0 <= lo <= p <= hi < |a1| && |a2| == |a1| && |a3| == |a1|
    requires a2[..lo] == a1[..lo] && a2[p..] == a1[p..]
    requires a3[..p + 1] == a2[..p + 1] && a3[hi + 1..] == a2[hi + 1..]
    ensures a3[p] == a1[p] && a3[lo..p] == a2[lo..p] && a2[p + 1..hi + 1] == a1[p + 1..hi + 1]
    ensures a3[..lo] == a1[..lo] && a3[hi + 1..] == a1[hi + 1..]
  {
    assert a2[p] == a2[p..][0] && a1[p] == a1[p..][0];
    assert a3[p] == a3[..p + 1][p] && a2[p] == a2[..p + 1][p];
    assert a3[lo..p] == a3[..p + 1][lo..p] && a2[lo..p] == a2[..p + 1][lo..p];
    assert a2[p + 1..hi + 1] == a2[p..][1..hi + 1 - p] && a1[p + 1..hi + 1] == a1[p..][1..hi + 1 - p];
    assert a2[hi + 1..] == a2[p..][hi + 1 - p..] && a1[hi + 1..] == a1[p..][hi + 1 - p..];
    assert a3[..lo] == a3[..p + 1][..lo] && a2[..lo] == a2[..p + 1][..lo];
  }

  /**
   * Quick sort's combination step on the array: after a partition around
   * position p and sorting both sides in place, the range lo..hi is sorted,
   * the array holds the values it held first, and nothing outside the range
   * moved.
   */
  lemma QuickCombine(a0: seq<int>, a1: seq<int>, a3: seq<int>, lo: int, p: int, hi: int)
    requires 0 <= lo <= p <= hi < |a0| && |a1| == |a0| && |a3| == |a0|
    requires multiset(a1) == multiset(a0) && a1[..lo] == a0[..lo] && a1[hi + 1..] == a0[hi + 1..]
    requires PivotPlaced(a1, lo, p, hi)
    requires IsSorted(a3[lo..p]) && multiset(a3[lo..p]) == multiset(a1[lo..p])
    requires IsSorted(a3[p + 1..hi + 1]) && multiset(a3[p + 1..hi + 1]) == multiset(a1[p + 1..hi + 1])
    requires a3[p] == a1[p]
    requires multiset(a3) == multiset(a1) && a3[..lo] == a1[..lo] && a3[hi + 1..] == a1[hi + 1..]
    ensures IsSorted(a3[lo..hi + 1])
    ensures multiset(a3) == multiset(a0) && a3[..lo] == a0[..lo] && a3[hi + 1..] == a0[hi + 1..]
  {
    var pivot, left, right := a1[p], a1[lo..p], a1[p + 1..hi + 1];
    forall k | 0 <= k < |left|
      ensures left[k] < pivot
    {
      assert left[k] == a1[lo + k];
    }
    forall k | 0 <= k < |right|
      ensures pivot <= right[k]
    {
      assert right[k] == a1[p + 1 + k];
    }
    BoundByMultiset(a3[lo..p], left, pivot, true);
    BoundByMultiset(a3[p + 1..hi + 1], right, pivot, false);
    forall k | lo <= k < p
      ensures a3[k] < a3[p]
    {
      assert a3[k] == a3[lo..p][k - lo];
    }
    forall k | p < k <= hi
      ensures a3[p] <= a3[k]
    {
      assert a3[k] == a3[p + 1..hi + 1][k - p - 1];
    }
    SortedAroundPivot(a3, lo, p, hi + 1);
  }
}
