/** The result sorter: a three-way quicksort with a median-of-three pivot
    on a numeric key, the in-place Lomuto quicksort (descending), the stable
    descending merge sort, and `sortPollResults`, which picks one of them
    by the requested key. */
module QuickSort {
  import opened Polls
  import StableSort
  import opened Seqs

  /** The numeric keys a tally can be sorted on. */
  datatype NumKey = VoteCount | Percentage

  function Val(t: OptionTally, key: NumKey): int
  {
    match key
    case VoteCount => t.voteCount
    case Percentage => t.percentage
  }

  /** `compare(a, b, order)`: negative when `a` belongs before `b`. Only the
      string "desc" means descending; every other order is ascending. */
  function Compare(a: int, b: int, order: string): (r: int)
    ensures order == "desc" ==> (r < 0 <==> a > b) && (r > 0 <==> a < b)
    ensures order != "desc" ==> (r < 0 <==> a < b) && (r > 0 <==> a > b)
  {
    if order == "desc" then b - a else a - b
  }

  /** Non-increasing by `key` for "desc", non-decreasing for any other order. */
  predicate InOrder(s: seq<OptionTally>, key: NumKey, order: string)
  {
    if order == "desc" then forall i, j :: 0 <= i < j < |s| ==> Val(s[i], key) >= Val(s[j], key)
    else forall i, j :: 0 <= i < j < |s| ==> Val(s[i], key) <= Val(s[j], key)
  }

  // ---------------------------------------------------------------------
  // quickSort
  // ---------------------------------------------------------------------

  /** `m` is the median of `a`, `b` and `c`: at least two of them are at or
      below it and at least two at or above it. */
  predicate IsMedian(m: int, a: int, b: int, c: int)
  {
    (if a <= m then 1 else 0) + (if b <= m then 1 else 0) + (if c <= m then 1 else 0) >= 2 &&
    (if a >= m then 1 else 0) + (if b >= m then 1 else 0) + (if c >= m then 1 else 0) >= 2
  }

  /** `medianOfThree`: the one of the first, middle and last positions that
      holds the median of their three keys. */
  function MedianOfThree(arr: seq<OptionTally>, key: NumKey): (r: nat)
    requires |arr| > 0
    ensures r == 0 || r == |arr| / 2 || r == |arr| - 1
    ensures r < |arr|
    ensures IsMedian(Val(arr[r], key), Val(arr[0], key), Val(arr[|arr| / 2], key), Val(arr[|arr| - 1], key))
  {
    var first, mid, last := 0, |arr| / 2, |arr| - 1;
    var a, b, c := Val(arr[first], key), Val(arr[mid], key), Val(arr[last], key);
    if (a <= b && b <= c) || (c <= b && b <= a) then mid
    else if (b <= a && a <= c) || (c <= a && a <= b) then first
    else last
  }

  /** Which of the three filters of `quickSort` keeps `x`. */
  datatype Band = Ahead | Level | Behind

  function BandOf(x: OptionTally, pivot: OptionTally, key: NumKey, order: string): (b: Band)
    ensures b == Ahead <==> Compare(Val(x, key), Val(pivot, key), order) < 0
    ensures b == Level <==> Val(x, key) == Val(pivot, key)
    ensures b == Behind <==> Compare(Val(x, key), Val(pivot, key), order) > 0
  {
    var c := Compare(Val(x, key), Val(pivot, key), order);
    if c < 0 then Ahead else if Val(x, key) == Val(pivot, key) then Level else Behind
  }

  /** `arr.filter(...)` for one band. */
  function Keep(s: seq<OptionTally>, pivot: OptionTally, key: NumKey, order: string, band: Band)
    : (r: seq<OptionTally>)
    ensures |r| <= |s|
    ensures forall x :: x in r ==> x in s && BandOf(x, pivot, key, order) == band
  {
    if s == [] then []
    else (if BandOf(s[0], pivot, key, order) == band then [s[0]] else []) + Keep(s[1..], pivot, key, order, band)
  }

  /** The three bands split `s` without loss or duplication. */
  lemma {:induction false} KeepPartitions(s: seq<OptionTally>, pivot: OptionTally, key: NumKey, order: string)
    ensures multiset(Keep(s, pivot, key, order, Ahead)) + multiset(Keep(s, pivot, key, order, Level))
          + multiset(Keep(s, pivot, key, order, Behind)) == multiset(s)
  {
    if s != [] {
      var t := s[1..];
      KeepPartitions(t, pivot, key, order);
      assert s == [s[0]] + t;
      var ahead, level, behind := Keep(t, pivot, key, order, Ahead), Keep(t, pivot, key, order, Level),
                                  Keep(t, pivot, key, order, Behind);
      match BandOf(s[0], pivot, key, order)
      case Ahead =>
        assert Keep(s, pivot, key, order, Ahead) == [s[0]] + ahead;
        assert Keep(s, pivot, key, order, Level) == level;
        assert Keep(s, pivot, key, order, Behind) == behind;
      case Level =>
        assert Keep(s, pivot, key, order, Ahead) == ahead;
        assert Keep(s, pivot, key, order, Level) == [s[0]] + level;
        assert Keep(s, pivot, key, order, Behind) == behind;
      case Behind =>
        assert Keep(s, pivot, key, order, Ahead) == ahead;
        assert Keep(s, pivot, key, order, Level) == level;
        assert Keep(s, pivot, key, order, Behind) == [s[0]] + behind;
    }
  }

  lemma JoinInOrder(left: seq<OptionTally>, pivot: OptionTally, middle: seq<OptionTally>,
                    right: seq<OptionTally>, key: NumKey, order: string)
    requires InOrder(left, key, order) && InOrder(right, key, order)
    requires forall x :: x in left ==> BandOf(x, pivot, key, order) == Ahead
    requires forall x :: x in middle ==> BandOf(x, pivot, key, order) == Level
    requires forall x :: x in right ==> BandOf(x, pivot, key, order) == Behind
    ensures InOrder(left + [pivot] + middle + right, key, order)
  {
    var r := left + [pivot] + middle + right;
    var lp := |left| + 1;
    var lpm := lp + |middle|;
    var pv := Val(pivot, key);
    forall i | 0 <= i < lpm
      ensures Compare(Val(r[i], key), pv, order) <= 0
    {
      if i < |left| {
        assert r[i] == left[i] && left[i] in left;
      } else if i >= lp {
        assert r[i] == middle[i - lp] && middle[i - lp] in middle;
      }
    }
    forall j | |left| <= j < |r|
      ensures Compare(Val(r[j], key), pv, order) >= 0
    {
      if lpm <= j {
        assert r[j] == right[j - lpm] && right[j - lpm] in right;
      } else if j >= lp {
        assert r[j] == middle[j - lp] && middle[j - lp] in middle;
      }
    }
    forall i, j | 0 <= i < j < |r|
      ensures if order == "desc" then Val(r[i], key) >= Val(r[j], key) else Val(r[i], key) <= Val(r[j], key)
    {
      if j < |left| {
        assert r[i] == left[i] && r[j] == left[j];
      } else if lpm <= i {
        assert r[i] == right[i - lpm] && r[j] == right[j - lpm];
      }
    }
  }

  lemma SameElements(a: seq<OptionTally>, b: seq<OptionTally>)
    requires multiset(a) == multiset(b)
    ensures forall x :: x in a <==> x in b
  {
    forall x ensures x in a <==> x in b {
      assert x in a <==> x in multiset(a);
      assert x in b <==> x in multiset(b);
    }
  }

  /** The elements other than the one at `p`. */
  function Without(arr: seq<OptionTally>, p: int): (r: seq<OptionTally>)
    requires 0 <= p < |arr|
    ensures |r| == |arr| - 1 && multiset(r) + multiset{arr[p]} == multiset(arr)
  {
    assert arr == arr[..p] + [arr[p]] + arr[p + 1..];
    arr[..p] + arr[p + 1..]
  }

  /** Joining the sorted bands around the pivot loses and adds nothing. */
  lemma StepMultiset(arr: seq<OptionTally>, p: int, key: NumKey, order: string,
                     sortedLeft: seq<OptionTally>, sortedRight: seq<OptionTally>)
    requires 0 <= p < |arr|
    requires multiset(sortedLeft) == multiset(Keep(Without(arr, p), arr[p], key, order, Ahead))
    requires multiset(sortedRight) == multiset(Keep(Without(arr, p), arr[p], key, order, Behind))
    ensures multiset(sortedLeft + [arr[p]] + Keep(Without(arr, p), arr[p], key, order, Level) + sortedRight)
         == multiset(arr)
  {
    var rest := Without(arr, p);
    KeepPartitions(rest, arr[p], key, order);
    var middle := Keep(rest, arr[p], key, order, Level);
    assert multiset(sortedLeft + [arr[p]] + middle + sortedRight)
        == multiset(sortedLeft) + multiset{arr[p]} + multiset(middle) + multiset(sortedRight);
  }

  /** Joining the sorted bands around the pivot gives the requested order. */
  lemma StepInOrder(arr: seq<OptionTally>, p: int, key: NumKey, order: string,
                    sortedLeft: seq<OptionTally>, sortedRight: seq<OptionTally>)
    requires 0 <= p < |arr|
    requires multiset(sortedLeft) == multiset(Keep(Without(arr, p), arr[p], key, order, Ahead))
    requires multiset(sortedRight) == multiset(Keep(Without(arr, p), arr[p], key, order, Behind))
    requires InOrder(sortedLeft, key, order) && InOrder(sortedRight, key, order)
    ensures InOrder(sortedLeft + [arr[p]] + Keep(Without(arr, p), arr[p], key, order, Level) + sortedRight, key, order)
  {
    var rest := Without(arr, p);
    SameElements(sortedLeft, Keep(rest, arr[p], key, order, Ahead));
    SameElements(sortedRight, Keep(rest, arr[p], key, order, Behind));
    JoinInOrder(sortedLeft, arr[p], Keep(rest, arr[p], key, order, Level), sortedRight, key, order);
  }

  /** `quickSort`: a permutation of the input in the requested order; an
      input of at most one element is returned as it is. */
  function QuickSort(arr: seq<OptionTally>, key: NumKey, order: string): (r: seq<OptionTally>)
    ensures multiset(r) == multiset(arr)
    ensures InOrder(r, key, order)
    ensures |arr| <= 1 ==> r == arr
    decreases |arr|
  {
    if |arr| <= 1 then arr
    else
      var p := MedianOfThree(arr, key);
      var rest := Without(arr, p);
      var sortedLeft := QuickSort(Keep(rest, arr[p], key, order, Ahead), key, order);
      var sortedRight := QuickSort(Keep(rest, arr[p], key, order, Behind), key, order);
      StepMultiset(arr, p, key, order, sortedLeft, sortedRight);
      StepInOrder(arr, p, key, order, sortedLeft, sortedRight);
      sortedLeft + [arr[p]] + Keep(rest, arr[p], key, order, Level) + sortedRight
  }

  // ---------------------------------------------------------------------
  // quickSortInPlace and partition (Lomuto, descending)
  // ---------------------------------------------------------------------

  method Swap(a: array<OptionTally>, i: int, j: int)
    requires 0 <= i < a.Length && 0 <= j < a.Length
    modifies a
    ensures a[..] == old(a[..])[i := old(a[j])][j := old(a[i])]
    ensures multiset(a[..]) == old(multiset(a[..]))
  {
    a[i], a[j] := a[j], a[i];
  }

  /** `partition(arr, key, low, high)`: moves every element at or above the
      pivot `arr[high]` in front of it and every element below it behind it,
      and returns the pivot's new position. */
  method Partition(a: array<OptionTally>, key: NumKey, low: int, high: int) returns (p: int)
    requires 0 <= low <= high < a.Length
    modifies a
    ensures low <= p <= high
    ensures Val(a[p], key) == old(Val(a[high], key))
    ensures forall k :: low <= k < p ==> Val(a[k], key) >= Val(a[p], key)
    ensures forall k :: p < k <= high ==> Val(a[k], key) < Val(a[p], key)
    ensures forall k :: 0 <= k < a.Length && !(low <= k <= high) ==> a[k] == old(a[k])
    ensures multiset(a[..]) == old(multiset(a[..]))
  {
    ghost var a0 := a[..];
    var pivot := Val(a[high], key);
    var i := Scan(a, key, low, high, pivot);
    ghost var s := a[..];
    Swap(a, i + 1, high);
    p := i + 1;
    PartitionFinish(a0, s, a[..], key, low, i, high, pivot);
  }

  /** The loop of `partition`: swaps every element of `arr[low..high)` at or
      above `pivot` to the front of the range and returns the last position
      of that front part. */
  method Scan(a: array<OptionTally>, key: NumKey, low: int, high: int, pivot: int) returns (i: int)
    requires 0 <= low <= high < a.Length
    modifies a
    ensures Split3(a[..], key, low, i, high, pivot)
    ensures a[..low] == old(a[..low]) && a[high..] == old(a[high..])
    ensures multiset(a[..]) == old(multiset(a[..]))
  {
    i := low - 1;
    for j := low to high
      invariant low - 1 <= i < j
      invariant Split3(a[..], key, low, i, j, pivot)
      invariant a[..low] == old(a[..low]) && a[high..] == old(a[high..])
      invariant multiset(a[..]) == old(multiset(a[..]))
    {
      ghost var s := a[..];
      if Val(a[j], key) >= pivot {
        i := i + 1;
        Swap(a, i, j);
        PartitionSwap(s, a[..], key, low, i - 1, j, high, pivot);
      } else {
        PartitionSkip(s, key, low, i, j, pivot);
      }
    }
  }

  /** The scanned part `[low, j)` of `s` holds the elements at or above the
      pivot value up to `i` and those below it after. */
  ghost predicate Split3(s: seq<OptionTally>, key: NumKey, low: int, i: int, j: int, pivot: int)
  {
    0 <= low && low - 1 <= i < j <= |s|
    && (forall k :: low <= k <= i ==> Val(s[k], key) >= pivot)
    && (forall k :: i < k < j ==> Val(s[k], key) < pivot)
  }

  /** One step of the scan that swaps an element at or above the pivot value
      into the front part. */
  lemma PartitionSwap(s: seq<OptionTally>, t: seq<OptionTally>, key: NumKey, low: int, i: int, j: int,
                      high: int, pivot: int)
    requires Split3(s, key, low, i, j, pivot) && j < high <= |s| && Val(s[j], key) >= pivot
    requires t == s[i + 1 := s[j]][j := s[i + 1]]
    ensures Split3(t, key, low, i + 1, j + 1, pivot)
    ensures t[..low] == s[..low] && t[high..] == s[high..]
  {
  }

  /** One step of the scan that leaves an element below the pivot value
      where it is. */
  lemma PartitionSkip(s: seq<OptionTally>, key: NumKey, low: int, i: int, j: int, pivot: int)
    requires Split3(s, key, low, i, j, pivot) && j < |s| && Val(s[j], key) < pivot
    ensures Split3(s, key, low, i, j + 1, pivot)
  {
  }

  /** The final swap puts the pivot between the two parts. */
  lemma PartitionFinish(a0: seq<OptionTally>, s: seq<OptionTally>, t: seq<OptionTally>, key: NumKey,
                        low: int, i: int, high: int, pivot: int)
    requires Split3(s, key, low, i, high, pivot) && high < |s| == |a0|
    requires s[..low] == a0[..low] && s[high..] == a0[high..] && pivot == Val(a0[high], key)
    requires t == s[i + 1 := s[high]][high := s[i + 1]]
    ensures Val(t[i + 1], key) == pivot
    ensures forall k :: low <= k < i + 1 ==> Val(t[k], key) >= pivot
    ensures forall k :: i + 1 < k <= high ==> Val(t[k], key) < pivot
    ensures forall k :: 0 <= k < |t| && !(low <= k <= high) ==> t[k] == a0[k]
  {
    assert s[high] == s[high..][0];
    forall k | 0 <= k < |t| && !(low <= k <= high)
      ensures t[k] == a0[k]
    {
      if k < low {
        assert s[k] == s[..low][k];
      } else {
        assert s[k] == s[high..][k - high];
      }
    }
  }

  /** Equal multisets and equal ends give equal middles. */
  lemma MiddleMultiset(s: seq<OptionTally>, t: seq<OptionTally>, lo: int, hi: int)
    requires 0 <= lo <= hi <= |s| == |t|
    requires s[..lo] == t[..lo] && s[hi..] == t[hi..]
    requires multiset(s) == multiset(t)
    ensures multiset(s[lo..hi]) == multiset(t[lo..hi])
  {
    assert s == s[..lo] + s[lo..hi] + s[hi..];
    assert t == t[..lo] + t[lo..hi] + t[hi..];
    assert multiset(s) == multiset(s[..lo]) + multiset(s[lo..hi]) + multiset(s[hi..]);
    assert multiset(t) == multiset(t[..lo]) + multiset(t[lo..hi]) + multiset(t[hi..]);
    forall x
      ensures multiset(s[lo..hi])[x] == multiset(t[lo..hi])[x]
    {
      assert multiset(s)[x] == multiset(t)[x];
    }
  }

  /** A rearranged range keeps every bound its elements met. */
  lemma BoundKept(s: seq<OptionTally>, t: seq<OptionTally>, lo: int, hi: int, key: NumKey, v: int, atLeast: bool)
    requires 0 <= lo <= hi <= |s| == |t|
    requires multiset(s[lo..hi]) == multiset(t[lo..hi])
    requires forall k :: lo <= k < hi ==> if atLeast then Val(t[k], key) >= v else Val(t[k], key) < v
    ensures forall k :: lo <= k < hi ==> if atLeast then Val(s[k], key) >= v else Val(s[k], key) < v
  {
    forall k | lo <= k < hi
      ensures if atLeast then Val(s[k], key) >= v else Val(s[k], key) < v
    {
      assert s[lo..hi][k - lo] == s[k];
      assert s[k] in multiset(t[lo..hi]);
      var m :| 0 <= m < hi - lo && t[lo..hi][m] == s[k];
      assert t[lo + m] == s[k];
    }
  }

  /** `quickSortInPlace(arr, key, low, high)`: sorts `arr[low..high]` in
      place into non-increasing order and leaves the rest of `arr` alone. A
      range with `low >= high` is left as it is. */
  method QuickSortInPlace(a: array<OptionTally>, key: NumKey, low: int, high: int)
    requires low < high ==> 0 <= low && high < a.Length
    modifies a
    ensures multiset(a[..]) == old(multiset(a[..]))
    ensures forall k :: 0 <= k < a.Length && !(low <= k <= high) ==> a[k] == old(a[k])
    ensures forall i, j :: low <= i < j <= high ==> Val(a[i], key) >= Val(a[j], key)
    decreases high - low
  {
    if low < high {
      var p := Partition(a, key, low, high);
      ghost var a0 := a[..];
      QuickSortInPlace(a, key, low, p - 1);
      ghost var a1 := a[..];
      QuickSortInPlace(a, key, p + 1, high);
      ghost var a2 := a[..];
      InPlaceStep(a0, a1, a2, low, p, high, key);
    }
  }

  /** After the partition around position `p` and the sorting of both sides,
      the whole range is in non-increasing order. */
  lemma InPlaceStep(a0: seq<OptionTally>, a1: seq<OptionTally>, a2: seq<OptionTally>,
                    low: int, p: int, high: int, key: NumKey)
    requires 0 <= low <= p <= high < |a0| == |a1| == |a2|
    requires forall k :: low <= k < p ==> Val(a0[k], key) >= Val(a0[p], key)
    requires forall k :: p < k <= high ==> Val(a0[k], key) < Val(a0[p], key)
    requires multiset(a1) == multiset(a0)
    requires forall k :: 0 <= k < |a0| && !(low <= k <= p - 1) ==> a1[k] == a0[k]
    requires forall i, j :: low <= i < j <= p - 1 ==> Val(a1[i], key) >= Val(a1[j], key)
    requires multiset(a2) == multiset(a1)
    requires forall k :: 0 <= k < |a0| && !(p + 1 <= k <= high) ==> a2[k] == a1[k]
    requires forall i, j :: p + 1 <= i < j <= high ==> Val(a2[i], key) >= Val(a2[j], key)
    ensures forall i, j :: low <= i < j <= high ==> Val(a2[i], key) >= Val(a2[j], key)
  {
    var v := Val(a0[p], key);
    LeftSideKept(a0, a1, a2, low, p, high, key);
    RightSideKept(a0, a1, a2, low, p, high, key);
    forall i, j | low <= i < j <= high
      ensures Val(a2[i], key) >= Val(a2[j], key)
    {
      if j < p {
        assert a2[i] == a1[i] && a2[j] == a1[j];
      }
    }
  }

  /** The first recursive call leaves everything left of the pivot at least
      the pivot's value, and the second call does not touch that side. */
  lemma LeftSideKept(a0: seq<OptionTally>, a1: seq<OptionTally>, a2: seq<OptionTally>,
                     low: int, p: int, high: int, key: NumKey)
    requires 0 <= low <= p <= high < |a0| == |a1| == |a2|
    requires forall k :: low <= k < p ==> Val(a0[k], key) >= Val(a0[p], key)
    requires multiset(a1) == multiset(a0)
    requires forall k :: 0 <= k < |a0| && !(low <= k <= p - 1) ==> a1[k] == a0[k]
    requires forall k :: 0 <= k < |a0| && !(p + 1 <= k <= high) ==> a2[k] == a1[k]
    ensures a2[p] == a0[p]
    ensures forall k :: low <= k < p ==> Val(a2[k], key) >= Val(a0[p], key)
  {
    assert a1[..low] == a0[..low] && a1[p..] == a0[p..];
    MiddleMultiset(a1, a0, low, p);
    BoundKept(a1, a0, low, p, key, Val(a0[p], key), true);
    forall k | low <= k < p
      ensures Val(a2[k], key) >= Val(a0[p], key)
    {
      assert a2[k] == a1[k];
    }
  }

  /** The second recursive call leaves everything right of the pivot below
      the pivot's value. */
  lemma RightSideKept(a0: seq<OptionTally>, a1: seq<OptionTally>, a2: seq<OptionTally>,
                      low: int, p: int, high: int, key: NumKey)
    requires 0 <= low <= p <= high < |a0| == |a1| == |a2|
    requires forall k :: p < k <= high ==> Val(a0[k], key) < Val(a0[p], key)
    requires forall k :: 0 <= k < |a0| && !(low <= k <= p - 1) ==> a1[k] == a0[k]
    requires multiset(a2) == multiset(a1)
    requires forall k :: 0 <= k < |a0| && !(p + 1 <= k <= high) ==> a2[k] == a1[k]
    ensures forall k :: p < k <= high ==> Val(a2[k], key) < Val(a0[p], key)
  {
    assert a2[..p + 1] == a1[..p + 1] && a2[high + 1..] == a1[high + 1..];
    MiddleMultiset(a2, a1, p + 1, high + 1);
    assert a1[p + 1..high + 1] == a0[p + 1..high + 1];
    BoundKept(a2, a0, p + 1, high + 1, key, Val(a0[p], key), false);
  }

  // ---------------------------------------------------------------------
  // mergeSort and merge (descending, stable)
  // ---------------------------------------------------------------------

  /** What `merge(left, right, key)` returns: repeatedly the larger head,
      taking from `left` on ties, then whatever remains. */
  function Merged(left: seq<OptionTally>, right: seq<OptionTally>, key: NumKey): seq<OptionTally>
    decreases |left| + |right|
  {
    if |left| == 0 then right
    else if |right| == 0 then left
    else if Val(left[0], key) >= Val(right[0], key) then [left[0]] + Merged(left[1..], right, key)
    else [right[0]] + Merged(left, right[1..], key)
  }

  /** Merging loses and invents nothing. */
  lemma {:induction false} MergedMultiset(left: seq<OptionTally>, right: seq<OptionTally>, key: NumKey)
    ensures multiset(Merged(left, right, key)) == multiset(left) + multiset(right)
    decreases |left| + |right|
  {
    if |left| == 0 || |right| == 0 {
      MergedRest(left, right, key);
    } else if Val(left[0], key) >= Val(right[0], key) {
      MergedMultiset(left[1..], right, key);
      TakeLeftMultiset(left, right, key);
    } else {
      MergedMultiset(left, right[1..], key);
      TakeRightMultiset(left, right, key);
    }
  }

  lemma TakeLeftMultiset(left: seq<OptionTally>, right: seq<OptionTally>, key: NumKey)
    requires |left| != 0 && |right| != 0 && Val(left[0], key) >= Val(right[0], key)
    requires multiset(Merged(left[1..], right, key)) == multiset(left[1..]) + multiset(right)
    ensures multiset(Merged(left, right, key)) == multiset(left) + multiset(right)
  {
    MergedStep(left, right, key);
    assert left == [left[0]] + left[1..];
  }

  lemma TakeRightMultiset(left: seq<OptionTally>, right: seq<OptionTally>, key: NumKey)
    requires |left| != 0 && |right| != 0 && Val(left[0], key) < Val(right[0], key)
    requires multiset(Merged(left, right[1..], key)) == multiset(left) + multiset(right[1..])
    ensures multiset(Merged(left, right, key)) == multiset(left) + multiset(right)
  {
    MergedStep(left, right, key);
    assert right == [right[0]] + right[1..];
  }

  lemma MergedStep(left: seq<OptionTally>, right: seq<OptionTally>, key: NumKey)
    requires |left| != 0 && |right| != 0
    ensures Merged(left, right, key) ==
      if Val(left[0], key) >= Val(right[0], key) then [left[0]] + Merged(left[1..], right, key)
      else [right[0]] + Merged(left, right[1..], key)
  {
  }

  lemma MergedRest(left: seq<OptionTally>, right: seq<OptionTally>, key: NumKey)
    requires |left| == 0 || |right| == 0
    ensures Merged(left, right, key) == left + right
  {
    if |left| == 0 {
      assert left + right == right;
    } else {
      assert left + right == left;
    }
  }

  /** One pass of `merge`'s loop keeps the output plus what is left to merge
      equal to the whole merge. */
  lemma MergeStep(result: seq<OptionTally>, left: seq<OptionTally>, right: seq<OptionTally>,
                  i: int, j: int, key: NumKey)
    requires 0 <= i < |left| && 0 <= j < |right|
    ensures Val(left[i], key) >= Val(right[j], key) ==>
      result + Merged(left[i..], right[j..], key) == (result + [left[i]]) + Merged(left[i + 1..], right[j..], key)
    ensures Val(left[i], key) < Val(right[j], key) ==>
      result + Merged(left[i..], right[j..], key) == (result + [right[j]]) + Merged(left[i..], right[j + 1..], key)
  {
    var l', r' := left[i..], right[j..];
    MergedStep(l', r', key);
    assert l'[1..] == left[i + 1..] && r'[1..] == right[j + 1..];
    if Val(left[i], key) >= Val(right[j], key) {
      var m := Merged(left[i + 1..], r', key);
      assert result + ([left[i]] + m) == (result + [left[i]]) + m;
    } else {
      var m := Merged(l', right[j + 1..], key);
      assert result + ([right[j]] + m) == (result + [right[j]]) + m;
    }
  }

  /** `merge`, with its loop. */
  method Merge(left: seq<OptionTally>, right: seq<OptionTally>, key: NumKey) returns (r: seq<OptionTally>)
    ensures r == Merged(left, right, key)
  {
    var result := [];
    var i, j := 0, 0;
    while i < |left| && j < |right|
      invariant 0 <= i <= |left| && 0 <= j <= |right|
      invariant result + Merged(left[i..], right[j..], key) == Merged(left, right, key)
      decreases |left| - i + |right| - j
    {
      MergeStep(result, left, right, i, j, key);
      if Val(left[i], key) >= Val(right[j], key) {
        result := result + [left[i]];
        i := i + 1;
      } else {
        result := result + [right[j]];
        j := j + 1;
      }
    }
    MergedRest(left[i..], right[j..], key);
    r := result + left[i..] + right[j..];
  }

  lemma ConsInOrder(head: OptionTally, tail: seq<OptionTally>, key: NumKey)
    requires InOrder(tail, key, "desc")
    requires forall k :: 0 <= k < |tail| ==> Val(tail[k], key) <= Val(head, key)
    ensures InOrder([head] + tail, key, "desc")
  {
    var r := [head] + tail;
    forall i, j | 0 <= i < j < |r|
      ensures Val(r[i], key) >= Val(r[j], key)
    {
      assert r[j] == tail[j - 1];
      if i > 0 {
        assert r[i] == tail[i - 1];
      }
    }
  }

  /** Every element of a non-increasing sequence is at most its head. */
  lemma HeadIsMax(s: seq<OptionTally>, key: NumKey, x: OptionTally)
    requires InOrder(s, key, "desc") && x in s
    ensures Val(x, key) <= Val(s[0], key)
  {
    var k :| 0 <= k < |s| && s[k] == x;
  }

  lemma InOrderTail(s: seq<OptionTally>, key: NumKey)
    requires |s| != 0 && InOrder(s, key, "desc")
    ensures InOrder(s[1..], key, "desc")
  {
    var t := s[1..];
    forall i, j | 0 <= i < j < |t|
      ensures Val(t[i], key) >= Val(t[j], key)
    {
      assert t[i] == s[i + 1] && t[j] == s[j + 1];
    }
  }

  /** Merging two non-increasing sequences gives a non-increasing one. */
  lemma {:induction false} MergedInOrder(left: seq<OptionTally>, right: seq<OptionTally>, key: NumKey)
    requires InOrder(left, key, "desc") && InOrder(right, key, "desc")
    ensures InOrder(Merged(left, right, key), key, "desc")
    decreases |left| + |right|
  {
    if |left| == 0 {
      assert Merged(left, right, key) == right;
    } else if |right| == 0 {
      assert Merged(left, right, key) == left;
    } else if Val(left[0], key) >= Val(right[0], key) {
      InOrderTail(left, key);
      MergedInOrder(left[1..], right, key);
      TakeInOrder(left, right, key, true);
    } else {
      InOrderTail(right, key);
      MergedInOrder(left, right[1..], key);
      TakeInOrder(left, right, key, false);
    }
  }

  /** Putting the larger head in front of the merge of the rest keeps the
      order. */
  lemma TakeInOrder(left: seq<OptionTally>, right: seq<OptionTally>, key: NumKey, fromLeft: bool)
    requires |left| != 0 && |right| != 0 && fromLeft == (Val(left[0], key) >= Val(right[0], key))
    requires InOrder(left, key, "desc") && InOrder(right, key, "desc")
    requires fromLeft ==> InOrder(Merged(left[1..], right, key), key, "desc")
    requires !fromLeft ==> InOrder(Merged(left, right[1..], key), key, "desc")
    ensures InOrder(Merged(left, right, key), key, "desc")
  {
    var head := if fromLeft then left[0] else right[0];
    var l' := if fromLeft then left[1..] else left;
    var r' := if fromLeft then right else right[1..];
    MergedMultiset(l', r', key);
    var tail := Merged(l', r', key);
    MergedStep(left, right, key);
    assert Merged(left, right, key) == [head] + tail;
    forall k | 0 <= k < |tail|
      ensures Val(tail[k], key) <= Val(head, key)
    {
      var x := tail[k];
      assert x in multiset(tail);
      if x in l' {
        assert x in left;
        HeadIsMax(left, key, x);
      } else {
        assert x in r';
        assert x in right;
        HeadIsMax(right, key, x);
      }
    }
    ConsInOrder(head, tail, key);
  }

  /** The elements of `s` whose key value is `v`, in their order in `s`. */
  function WithValue(s: seq<OptionTally>, key: NumKey, v: int): (r: seq<OptionTally>)
    ensures |r| <= |s|
  {
    if |s| == 0 then []
    else (if Val(s[0], key) == v then [s[0]] else []) + WithValue(s[1..], key, v)
  }

  lemma WithValueCons(x: OptionTally, s: seq<OptionTally>, key: NumKey, v: int)
    ensures WithValue([x] + s, key, v) == (if Val(x, key) == v then [x] else []) + WithValue(s, key, v)
  {
    assert ([x] + s)[1..] == s;
  }

  lemma {:induction false} WithValueAppend(a: seq<OptionTally>, b: seq<OptionTally>, key: NumKey, v: int)
    ensures WithValue(a + b, key, v) == WithValue(a, key, v) + WithValue(b, key, v)
  {
    if |a| != 0 {
      assert (a + b)[1..] == a[1..] + b;
      WithValueAppend(a[1..], b, key, v);
    } else {
      assert a + b == b;
    }
  }

  /** A non-increasing sequence whose head is below `v` holds no element of value `v`. */
  lemma {:induction false} WithValueBelow(s: seq<OptionTally>, key: NumKey, v: int)
    requires InOrder(s, key, "desc") && (|s| == 0 || Val(s[0], key) < v)
    ensures WithValue(s, key, v) == []
  {
    if |s| != 0 {
      assert InOrder(s[1..], key, "desc");
      if |s| > 1 {
        assert s[1..][0] == s[1];
      }
      WithValueBelow(s[1..], key, v);
    }
  }

  /** Merging keeps, for every value, the elements of `left` carrying it
      ahead of those of `right`: the merge is stable. */
  lemma {:induction false} MergedStable(left: seq<OptionTally>, right: seq<OptionTally>, key: NumKey, v: int)
    requires InOrder(left, key, "desc") && InOrder(right, key, "desc")
    ensures WithValue(Merged(left, right, key), key, v) == WithValue(left, key, v) + WithValue(right, key, v)
    decreases |left| + |right|
  {
    if |left| == 0 || |right| == 0 {
      MergedRest(left, right, key);
      WithValueAppend(left, right, key, v);
    } else if Val(left[0], key) >= Val(right[0], key) {
      InOrderTail(left, key);
      MergedStable(left[1..], right, key, v);
      TakeLeftStable(left, right, key, v);
    } else {
      InOrderTail(right, key);
      MergedStable(left, right[1..], key, v);
      TakeRightStable(left, right, key, v);
    }
  }

  lemma TakeLeftStable(left: seq<OptionTally>, right: seq<OptionTally>, key: NumKey, v: int)
    requires |left| != 0 && |right| != 0 && Val(left[0], key) >= Val(right[0], key)
    requires WithValue(Merged(left[1..], right, key), key, v) == WithValue(left[1..], key, v) + WithValue(right, key, v)
    ensures WithValue(Merged(left, right, key), key, v) == WithValue(left, key, v) + WithValue(right, key, v)
  {
    var t := left[1..];
    var m := Merged(t, right, key);
    MergedStep(left, right, key);
    assert Merged(left, right, key) == [left[0]] + m;
    WithValueAppend(t, right, key, v);
    assert WithValue(m, key, v) == WithValue(t + right, key, v);
    WithValueCons(left[0], m, key, v);
    WithValueCons(left[0], t + right, key, v);
    assert left == [left[0]] + t;
    ConsAppend(left[0], t, right);
    WithValueAppend(left, right, key, v);
  }

  lemma TakeRightStable(left: seq<OptionTally>, right: seq<OptionTally>, key: NumKey, v: int)
    requires |left| != 0 && |right| != 0 && Val(left[0], key) < Val(right[0], key)
    requires InOrder(left, key, "desc")
    requires WithValue(Merged(left, right[1..], key), key, v) == WithValue(left, key, v) + WithValue(right[1..], key, v)
    ensures WithValue(Merged(left, right, key), key, v) == WithValue(left, key, v) + WithValue(right, key, v)
  {
    var u := right[1..];
    var m := Merged(left, u, key);
    MergedStep(left, right, key);
    assert Merged(left, right, key) == [right[0]] + m;
    WithValueCons(right[0], m, key, v);
    WithValueCons(right[0], u, key, v);
    assert right == [right[0]] + u;
    if Val(right[0], key) == v {
      WithValueBelow(left, key, v);
      assert WithValue(m, key, v) == WithValue(u, key, v);
      assert WithValue(left, key, v) + WithValue(right, key, v) == WithValue(right, key, v);
    } else {
      assert WithValue(right, key, v) == WithValue(u, key, v);
      assert WithValue(Merged(left, right, key), key, v) == WithValue(m, key, v);
    }
  }

  /** `mergeSort(arr, key)`: a permutation of the input in non-increasing
      order; an input of at most one element is returned as it is. */
  function MergeSort(arr: seq<OptionTally>, key: NumKey): (r: seq<OptionTally>)
    ensures multiset(r) == multiset(arr)
    ensures InOrder(r, key, "desc")
    ensures |arr| <= 1 ==> r == arr
    decreases |arr|
  {
    if |arr| <= 1 then arr
    else
      var mid := |arr| / 2;
      SplitAt(arr, mid);
      var left := MergeSort(arr[..mid], key);
      var right := MergeSort(arr[mid..], key);
      MergedMultiset(left, right, key);
      MergedInOrder(left, right, key);
      Merged(left, right, key)
  }

  /** Stability of `mergeSort`: the elements sharing a key value keep their
      input order. */
  lemma {:induction false} MergeSortStable(arr: seq<OptionTally>, key: NumKey, v: int)
    ensures WithValue(MergeSort(arr, key), key, v) == WithValue(arr, key, v)
    decreases |arr|
  {
    if |arr| > 1 {
      var mid := |arr| / 2;
      var l, r := arr[..mid], arr[mid..];
      MergeSortStable(l, key, v);
      MergeSortStable(r, key, v);
      var sl, sr := MergeSort(l, key), MergeSort(r, key);
      MergedStable(sl, sr, key, v);
      MergeSortUnfold(arr, key);
      WithValueAppend(l, r, key, v);
    }
  }

  lemma MergeSortUnfold(arr: seq<OptionTally>, key: NumKey)
    requires |arr| > 1
    ensures MergeSort(arr, key) == Merged(MergeSort(arr[..|arr| / 2], key), MergeSort(arr[|arr| / 2..], key), key)
    ensures arr == arr[..|arr| / 2] + arr[|arr| / 2..]
  {
    SplitAt(arr, |arr| / 2);
  }

  // ---------------------------------------------------------------------
  // sortPollResults
  // ---------------------------------------------------------------------

  /** The object `sortPollResults` returns (its two constant description
      strings are left out). */
  datatype SortedResults = SortedResults(results: seq<OptionTally>, sortedBy: string, order: string)

  function Label(t: OptionTally): string
  {
    t.optionText
  }

  /** The key actually used: any key other than the three known ones falls
      back to "vote_count". */
  function EffectiveKey(sortBy: string): (k: string)
    ensures k == "vote_count" || k == "percentage" || k == "option_text"
    ensures sortBy in ["vote_count", "percentage", "option_text"] ==> k == sortBy
    ensures sortBy !in ["vote_count", "percentage", "option_text"] ==> k == "vote_count"
  {
    if sortBy in ["vote_count", "percentage", "option_text"] then sortBy else "vote_count"
  }

  /** `sortPollResults(results, sortBy, order)`. An option-text sort is
      ascending only for "asc" and is stable; a numeric sort is descending
      only for "desc". */
  function SortPollResults(results: seq<OptionTally>, sortBy: string, order: string): (r: SortedResults)
    ensures r.sortedBy == EffectiveKey(sortBy) && r.order == order
    ensures multiset(r.results) == multiset(results)
    ensures r.sortedBy == "option_text" ==>
      StableSort.SortedBy(r.results, Label, order != "asc")
      && forall t :: StableSort.WithKey(r.results, Label, t) == StableSort.WithKey(results, Label, t)
    ensures r.sortedBy == "vote_count" ==> InOrder(r.results, VoteCount, order)
    ensures r.sortedBy == "percentage" ==> InOrder(r.results, Percentage, order)
  {
    var k := EffectiveKey(sortBy);
    var sorted :=
      if k == "option_text" then
        var s := StableSort.Sort(results, Label, order != "asc");
        forall t ensures StableSort.WithKey(s, Label, t) == StableSort.WithKey(results, Label, t) {
          StableSort.SortIsStable(results, Label, order != "asc", t);
        }
        s
      else QuickSort(results, if k == "percentage" then Percentage else VoteCount, order);
    SortedResults(sorted, k, order)
  }
}
