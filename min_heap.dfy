/** The trending ranker: an array-backed binary min-heap of scored polls. */
module Heaps {
  import opened Polls

  /** A heap entry: a poll and the score the heap is ordered on. */
  datatype Scored = Scored(poll: Poll, score: int)

  /** `_parentIdx`; the children of `i` are `2 * i + 1` and `2 * i + 2`. */
  function Parent(i: int): (r: int)
    ensures i > 0 ==> 0 <= r < i
    ensures i > 0 ==> i == 2 * r + 1 || i == 2 * r + 2
  {
    (i - 1) / 2
  }

  /** Every element with a parent scores at least as much as that parent. */
  predicate IsHeap(h: seq<Scored>)
  {
    forall c :: 0 < c < |h| ==> h[Parent(c)].score <= h[c].score
  }

  /** The heap edges whose parent is at or after position `k` hold. */
  predicate HeapFrom(h: seq<Scored>, k: int)
  {
    forall c :: 0 < c < |h| && Parent(c) >= k ==> h[Parent(c)].score <= h[c].score
  }

  /** The state while an element rises from position `i`: every edge holds
      except possibly the one into `i`, and `i`'s parent is below `i`'s children. */
  predicate RisingAt(h: seq<Scored>, i: int)
  {
    (forall c :: 0 < c < |h| && c != i ==> h[Parent(c)].score <= h[c].score)
    && (i > 0 ==> forall c :: 0 < c < |h| && Parent(c) == i ==> h[Parent(i)].score <= h[c].score)
  }

  /** The state while an element sinks from position `i`, having started at
      `k`: the edges from `k` on hold except those out of `i`, and `i`'s
      parent is below `i`'s children. */
  predicate SinkingAt(h: seq<Scored>, k: int, i: int)
  {
    0 <= k <= i
    && (i > k ==> k <= Parent(i))
    && (forall c :: 0 < c < |h| && Parent(c) >= k && Parent(c) != i ==> h[Parent(c)].score <= h[c].score)
    && (i > k ==> forall c :: 0 < c < |h| && Parent(c) == i ==> h[Parent(i)].score <= h[c].score)
  }

  /** `_swap(i, j)` on a value. */
  function Swapped(h: seq<Scored>, i: int, j: int): (r: seq<Scored>)
    requires 0 <= i < |h| && 0 <= j < |h|
    ensures |r| == |h| && r[i] == h[j] && r[j] == h[i]
    ensures forall k :: 0 <= k < |h| && k != i && k != j ==> r[k] == h[k]
    ensures multiset(r) == multiset(h)
  {
    h[i := h[j]][j := h[i]]
  }

  lemma RiseStep(h: seq<Scored>, i: int)
    requires 0 < i < |h| && RisingAt(h, i)
    requires h[Parent(i)].score > h[i].score
    ensures RisingAt(Swapped(h, Parent(i), i), Parent(i))
  {
    var p := Parent(i);
    var r := Swapped(h, p, i);
    forall c | 0 < c < |r| && c != p
      ensures r[Parent(c)].score <= r[c].score
    {
      if c == i {
      } else if Parent(c) == i {
      } else if Parent(c) == p {
        assert p == 0 || h[Parent(p)].score <= h[p].score;
      } else if c == p {
      }
    }
    if p > 0 {
      forall c | 0 < c < |r| && Parent(c) == p
        ensures r[Parent(p)].score <= r[c].score
      {
        assert h[Parent(p)].score <= h[p].score;
      }
    }
  }

  lemma SinkStep(h: seq<Scored>, k: int, i: int, s: int)
    requires SinkingAt(h, k, i) && 0 <= i < s < |h| && Parent(s) == i
    requires h[s].score < h[i].score
    requires forall c :: 0 < c < |h| && Parent(c) == i ==> h[s].score <= h[c].score
    ensures SinkingAt(Swapped(h, s, i), k, s)
  {
    var r := Swapped(h, s, i);
    forall c | 0 < c < |r| && Parent(c) >= k && Parent(c) != s
      ensures r[Parent(c)].score <= r[c].score
    {
      if c == i {
        assert h[Parent(i)].score <= h[s].score;
      }
    }
    forall c | 0 < c < |r| && Parent(c) == s
      ensures r[Parent(s)].score <= r[c].score
    {
      assert h[s].score <= h[c].score;
    }
  }

  /** Moving the last element of a heap to the root keeps every edge below the root. */
  lemma RootReplaced(h: seq<Scored>)
    requires IsHeap(h) && |h| >= 2
    ensures HeapFrom([h[|h| - 1]] + h[1..|h| - 1], 1)
    ensures multiset([h[|h| - 1]] + h[1..|h| - 1]) == multiset(h) - multiset{h[0]}
  {
    var t := [h[|h| - 1]] + h[1..|h| - 1];
    assert forall c :: 1 <= c < |t| ==> t[c] == h[c];
    assert h == [h[0]] + h[1..|h| - 1] + [h[|h| - 1]];
  }

  /** No edge has its parent at or after `|h| / 2`. */
  lemma HeapFromHalf(h: seq<Scored>)
    ensures HeapFrom(h, |h| / 2)
  {
  }

  /** The root of a heap scores no more than any element. */
  lemma {:induction false} RootBelow(h: seq<Scored>, i: int)
    requires IsHeap(h) && 0 <= i < |h|
    ensures h[0].score <= h[i].score
    decreases i
  {
    if i > 0 {
      RootBelow(h, Parent(i));
    }
  }

  lemma HeapRootIsMin(h: seq<Scored>)
    requires IsHeap(h) && |h| > 0
    ensures forall x :: x in h ==> h[0].score <= x.score
  {
    forall x | x in h
      ensures h[0].score <= x.score
    {
      var i :| 0 <= i < |h| && h[i] == x;
      RootBelow(h, i);
    }
  }

  /** Non-decreasing by score. */
  predicate Ascending(s: seq<Scored>)
  {
    forall i, j :: 0 <= i < j < |s| ==> s[i].score <= s[j].score
  }

  /** One round of `getTopN`: taking the minimum of what is left keeps the
      taken prefix ascending and below everything left. */
  lemma TopStep(before: seq<Scored>, after: seq<Scored>, taken: seq<Scored>, m: Scored, all: seq<Scored>)
    requires m in before && multiset(after) == multiset(before) - multiset{m}
    requires forall x :: x in before ==> m.score <= x.score
    requires Ascending(taken)
    requires forall k, x :: 0 <= k < |taken| && x in before ==> taken[k].score <= x.score
    requires multiset(before) + multiset(taken) == multiset(all)
    ensures Ascending(taken + [m])
    ensures forall k, x :: 0 <= k < |taken + [m]| && x in after ==> (taken + [m])[k].score <= x.score
    ensures multiset(after) + multiset(taken + [m]) == multiset(all)
  {
    var t := taken + [m];
    forall k, x | 0 <= k < |t| && x in after
      ensures t[k].score <= x.score
    {
      assert x in multiset(after);
      assert x in before;
    }
  }

  /** When `getTopN` stops, what it took is the answer. */
  lemma TopDone(rest: seq<Scored>, taken: seq<Scored>, all: seq<Scored>, n: int)
    requires multiset(rest) + multiset(taken) == multiset(all)
    requires forall k, x :: 0 <= k < |taken| && x in rest ==> taken[k].score <= x.score
    requires |taken| <= (if n <= 0 then 0 else n)
    requires |taken| >= n || rest == []
    ensures |taken| == if n <= 0 then 0 else if n < |all| then n else |all|
    ensures multiset(taken) <= multiset(all)
    ensures forall k, x :: 0 <= k < |taken| && x in multiset(all) - multiset(taken) ==> taken[k].score <= x.score
  {
    assert multiset(all) - multiset(taken) == multiset(rest);
    assert |multiset(all)| == |multiset(rest)| + |multiset(taken)|;
    forall k, x | 0 <= k < |taken| && x in multiset(all) - multiset(taken)
      ensures taken[k].score <= x.score
    {
      assert x in rest;
    }
  }

  class MinHeap {
    var heap: seq<Scored>

    predicate Valid()
      reads this
    {
      IsHeap(heap)
    }

    constructor()
      ensures heap == [] && Valid()
    {
      heap := [];
    }

    function Size(): nat
      reads this
    {
      |heap|
    }

    function IsEmpty(): (r: bool)
      reads this
      ensures r <==> heap == []
    {
      Size() == 0
    }

    /** `peek`: the root, which scores no more than any element, or `None`. */
    function Peek(): (r: Option<Scored>)
      reads this
      requires Valid()
      ensures r.None? <==> IsEmpty()
      ensures r.Some? ==> r.value in heap && forall x :: x in heap ==> r.value.score <= x.score
    {
      if Size() == 0 then None
      else
        HeapRootIsMin(heap);
        Some(heap[0])
    }

    /** `toArray`: a copy of the backing array. */
    function ToArray(): (r: seq<Scored>)
      reads this
      ensures multiset(r) == multiset(heap) && |r| == Size()
      ensures Valid() ==> IsHeap(r)
    {
      heap
    }

    method Swap(i: int, j: int)
      requires 0 <= i < |heap| && 0 <= j < |heap|
      modifies this
      ensures heap == Swapped(old(heap), i, j)
    {
      heap := Swapped(heap, i, j);
    }

    /** `_bubbleUp(index)`: moves the element at `index` up until its parent
        is no larger. */
    method BubbleUp(index: int)
      requires 0 <= index < |heap| && RisingAt(heap, index)
      modifies this
      ensures Valid()
      ensures multiset(heap) == old(multiset(heap)) && |heap| == old(|heap|)
    {
      var i := index;
      while i > 0
        invariant 0 <= i < |heap| && RisingAt(heap, i)
        invariant multiset(heap) == old(multiset(heap)) && |heap| == old(|heap|)
        decreases i
      {
        var parent := Parent(i);
        if heap[parent].score <= heap[i].score {
          break;
        }
        RiseStep(heap, i);
        Swap(parent, i);
        i := parent;
      }
    }

    /** `insert(item)`: push, then bubble up. */
    method Insert(item: Scored)
      requires Valid()
      modifies this
      ensures Valid()
      ensures multiset(heap) == old(multiset(heap)) + multiset{item}
      ensures Size() == old(Size()) + 1
    {
      heap := heap + [item];
      BubbleUp(|heap| - 1);
    }

    /** `_sinkDown(index)`: moves the element at `index` down, swapping it
        with its smaller child, until no child is smaller. The edges out of
        the positions after `index` must already hold; afterwards so do the
        edges out of `index`. */
    method SinkDown(index: int)
      requires 0 <= index && HeapFrom(heap, index + 1)
      modifies this
      ensures HeapFrom(heap, index)
      ensures multiset(heap) == old(multiset(heap)) && |heap| == old(|heap|)
    {
      var i := index;
      while true
        invariant SinkingAt(heap, index, i)
        invariant multiset(heap) == old(multiset(heap)) && |heap| == old(|heap|)
        decreases |heap| - i
      {
        var smallest := i;
        var left, right := 2 * i + 1, 2 * i + 2;
        if left < |heap| && heap[left].score < heap[smallest].score {
          smallest := left;
        }
        if right < |heap| && heap[right].score < heap[smallest].score {
          smallest := right;
        }
        if smallest == i {
          break;
        }
        SinkStep(heap, index, i, smallest);
        Swap(smallest, i);
        i := smallest;
      }
    }

    /** `extractMin`: `None` on an empty heap; otherwise removes and returns
        the root, which scores no more than any element. */
    method ExtractMin() returns (r: Option<Scored>)
      requires Valid()
      modifies this
      ensures Valid()
      ensures old(heap) == [] ==> r == None && heap == old(heap)
      ensures old(heap) != [] ==>
        r == Some(old(heap[0]))
        && multiset(heap) == old(multiset(heap)) - multiset{old(heap[0])}
        && Size() == old(Size()) - 1
      ensures r.Some? ==> forall x :: x in old(heap) ==> r.value.score <= x.score
    {
      if |heap| == 0 {
        return None;
      }
      HeapRootIsMin(heap);
      if |heap| == 1 {
        r := Some(heap[0]);
        heap := [];
        return;
      }
      var min := heap[0];
      RootReplaced(heap);
      heap := [heap[|heap| - 1]] + heap[1..|heap| - 1];
      SinkDown(0);
      r := Some(min);
    }

    /** `getTopN(n)`: the `n` lowest-scoring elements in ascending order,
        taken from a copy, so the heap itself is untouched. */
    method GetTopN(n: int) returns (result: seq<Scored>)
      requires Valid()
      ensures |result| == if n <= 0 then 0 else if n < |heap| then n else |heap|
      ensures Ascending(result)
      ensures multiset(result) <= multiset(heap)
      ensures forall k, x :: 0 <= k < |result| && x in multiset(heap) - multiset(result) ==> result[k].score <= x.score
    {
      var clone := new MinHeap();
      clone.heap := heap;
      result := [];
      var i := 0;
      while i < n && !clone.IsEmpty()
        invariant clone != this && clone.Valid()
        invariant i == |result|
        invariant multiset(clone.heap) + multiset(result) == multiset(heap)
        invariant Ascending(result)
        invariant forall k, x :: 0 <= k < |result| && x in clone.heap ==> result[k].score <= x.score
        invariant |result| <= (if n <= 0 then 0 else n)
        decreases |clone.heap|
      {
        ghost var before := clone.heap;
        var m := clone.ExtractMin();
        TopStep(before, clone.heap, result, m.value, heap);
        result := result + [m.value];
        i := i + 1;
      }
      TopDone(clone.heap, result, heap, n);
    }

    /** `buildFromArray(arr)`: Floyd's construction, sinking every inner
        node from the last one back to the root. */
    method BuildFromArray(arr: seq<Scored>)
      modifies this
      ensures Valid()
      ensures multiset(heap) == multiset(arr) && Size() == |arr|
    {
      heap := arr;
      HeapFromHalf(heap);
      var i := |heap| / 2 - 1;
      while i >= 0
        invariant -1 <= i < |heap| / 2
        invariant HeapFrom(heap, i + 1)
        invariant multiset(heap) == multiset(arr) && |heap| == |arr|
        decreases i + 1
      {
        SinkDown(i);
        i := i - 1;
      }
    }
  }
}
