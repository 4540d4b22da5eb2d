/** A FIFO queue kept in a map from positions to items, with a `front` and a
    `back` cursor instead of an array that shifts on removal, and the expiry
    tracker that sweeps polls nearing their deadline into it. */
module Queues {
  import opened Polls
  import opened Seqs

  /** Every position in `[lo, hi)` holds an item. */
  ghost predicate Covers<T>(m: map<int, T>, lo: int, hi: int)
  {
    forall i :: lo <= i < hi ==> i in m
  }

  /** The items at positions `lo`, `lo + 1`, ..., `hi - 1`, in that order. */
  ghost function Window<T>(m: map<int, T>, lo: int, hi: int): (r: seq<T>)
    requires Covers(m, lo, hi)
    ensures |r| == if lo <= hi then hi - lo else 0
    decreases hi - lo
  {
    if hi <= lo then [] else [m[lo]] + Window(m, lo + 1, hi)
  }

  /** Two maps that agree on `[lo, hi)` have the same window there. */
  lemma {:induction false} WindowAgree<T>(m: map<int, T>, m': map<int, T>, lo: int, hi: int)
    requires Covers(m, lo, hi) && Covers(m', lo, hi)
    requires forall i :: lo <= i < hi ==> m[i] == m'[i]
    ensures Window(m, lo, hi) == Window(m', lo, hi)
    decreases hi - lo
  {
    if lo < hi {
      WindowAgree(m, m', lo + 1, hi);
    }
  }

  /** Extending the window by one position at the back appends that item. */
  lemma {:induction false} WindowSnoc<T>(m: map<int, T>, lo: int, hi: int)
    requires lo <= hi && Covers(m, lo, hi + 1)
    ensures Window(m, lo, hi + 1) == Window(m, lo, hi) + [m[hi]]
    decreases hi - lo
  {
    if lo < hi {
      WindowSnoc(m, lo + 1, hi);
      assert Window(m, lo, hi + 1) == [m[lo]] + Window(m, lo + 1, hi + 1);
    }
  }

  class Queue<T> {
    var items: map<int, T>
    var front: int
    var back: int

    /** Exactly the positions between the cursors hold items. */
    ghost predicate Valid()
      reads this
    {
      front <= back && forall i :: i in items <==> front <= i < back
    }

    /** The items from front to back. */
    ghost function Contents(): seq<T>
      reads this
      requires Valid()
    {
      Window(items, front, back)
    }

    constructor()
      ensures Valid() && Contents() == []
    {
      items, front, back := map[], 0, 0;
    }

    /** `enqueue(item)`: stores the item at `back` and advances `back`. */
    method Enqueue(item: T)
      requires Valid()
      modifies this
      ensures Valid() && Contents() == old(Contents()) + [item]
      ensures Size() == old(Size()) + 1
    {
      ghost var before := items;
      items := items[back := item];
      back := back + 1;
      WindowAgree(before, items, front, back - 1);
      WindowSnoc(items, front, back - 1);
    }

    /** `dequeue()`: `None` on an empty queue, otherwise the oldest item,
        which is deleted while `front` advances. */
    method Dequeue() returns (r: Option<T>)
      requires Valid()
      modifies this
      ensures Valid()
      ensures old(Contents()) == [] ==> r == None && Contents() == []
      ensures old(Contents()) != [] ==> r == Some(old(Contents())[0]) && Contents() == old(Contents())[1..]
    {
      if IsEmpty() {
        return None;
      }
      r := Some(items[front]);
      ghost var before := items;
      items := items - {front};
      front := front + 1;
      WindowAgree(before, items, front, back);
    }

    /** `peek()`: the front item, without removing it. */
    function Peek(): (r: Option<T>)
      reads this
      requires Valid()
      ensures r.None? <==> Contents() == []
      ensures r.Some? ==> r.value == Contents()[0]
    {
      if front == back then None else Some(items[front])
    }

    function IsEmpty(): (r: bool)
      reads this
      requires Valid()
      ensures r <==> Contents() == []
    {
      front == back
    }

    function Size(): (r: int)
      reads this
      requires Valid()
      ensures r == |Contents()|
    {
      back - front
    }

    /** `processAll(callback)`: dequeues every item, oldest first, pairing
        each with the callback's result, and leaves the queue empty. */
    method ProcessAll<R>(callback: T -> R) returns (processed: seq<(T, R)>)
      requires Valid()
      modifies this
      ensures Valid() && Contents() == []
      ensures |processed| == |old(Contents())|
      ensures forall i :: 0 <= i < |processed| ==>
                processed[i] == (old(Contents())[i], callback(old(Contents())[i]))
    {
      processed := [];
      ghost var all := Contents();
      while !IsEmpty()
        invariant Valid()
        invariant |processed| + |Contents()| == |all|
        invariant all == Window(old(items), old(front), old(back))
        invariant Contents() == all[|processed|..]
        invariant forall i :: 0 <= i < |processed| ==> processed[i] == (all[i], callback(all[i]))
        decreases |Contents()|
      {
        var item := Dequeue();
        assert item == Some(all[|processed|]);
        processed := processed + [(item.value, callback(item.value))];
      }
    }

    /** `toArray()`: the items from front to back; the queue is unchanged. */
    method ToArray() returns (result: seq<T>)
      requires Valid()
      ensures result == Contents()
    {
      result := [];
      var i := front;
      while i < back
        invariant front <= i <= back
        invariant result + Window(items, i, back) == Contents()
        decreases back - i
      {
        assert Window(items, i, back) == [items[i]] + Window(items, i + 1, back);
        AppendAssoc(result, [items[i]], Window(items, i + 1, back));
        result := result + [items[i]];
        i := i + 1;
      }
    }
  }

  /** A queued expiry notice: poll id, title, deadline and the time it was
      queued. */
  datatype ExpiryItem = ExpiryItem(pollId: int, title: string, expiresAt: int, queuedAt: int)

  /** `new Date(poll.expires_at)`: a missing deadline reads as the epoch. */
  function Deadline(poll: Poll): (r: int)
    ensures poll.expiresAt.Some? ==> r == poll.expiresAt.value
    ensures poll.expiresAt.None? ==> r == 0
  {
    match poll.expiresAt
    case Some(e) => e
    case None => 0
  }

  function ItemOf(poll: Poll, now: int): (r: ExpiryItem)
    ensures r.pollId == poll.id && r.title == poll.title && r.queuedAt == now
  {
    ExpiryItem(poll.id, poll.title, Deadline(poll), now)
  }

  /** The sweep window: a deadline after `now` and no later than
      `withinMinutes` minutes after it. */
  predicate Due(poll: Poll, withinMinutes: int, now: int)
    ensures Due(poll, withinMinutes, now) ==> poll.expiresAt.Some? && now < Deadline(poll) <= now + withinMinutes * 60000
    ensures withinMinutes <= 0 ==> !Due(poll, withinMinutes, now)
  {
    poll.expiresAt.Some? && now < poll.expiresAt.value <= now + withinMinutes * 60 * 1000
  }

  /** What one sweep over `polls` enqueues, given the ids already processed. */
  function Swept(polls: seq<Poll>, processed: set<int>, withinMinutes: int, now: int): (r: seq<ExpiryItem>)
    ensures |r| <= |polls|
  {
    if polls == [] then []
    else
      (if Due(polls[0], withinMinutes, now) && polls[0].id !in processed then [ItemOf(polls[0], now)] else [])
      + Swept(polls[1..], processed, withinMinutes, now)
  }

  /** A sweep enqueues a notice for a poll exactly when that poll is due and
      its id has not been processed. */
  lemma {:induction false} SweptExactly(polls: seq<Poll>, processed: set<int>, withinMinutes: int, now: int, x: ExpiryItem)
    ensures x in Swept(polls, processed, withinMinutes, now) <==>
      exists i :: 0 <= i < |polls| && Due(polls[i], withinMinutes, now) && polls[i].id !in processed
                  && x == ItemOf(polls[i], now)
  {
    if polls != [] {
      SweptExactly(polls[1..], processed, withinMinutes, now, x);
      var rest := Swept(polls[1..], processed, withinMinutes, now);
      if exists i :: 0 <= i < |polls| && Due(polls[i], withinMinutes, now) && polls[i].id !in processed
                     && x == ItemOf(polls[i], now) {
        var i :| 0 <= i < |polls| && Due(polls[i], withinMinutes, now) && polls[i].id !in processed
                 && x == ItemOf(polls[i], now);
        if i > 0 {
          assert polls[1..][i - 1] == polls[i];
        }
      }
      if x in rest {
        var i :| 0 <= i < |polls[1..]| && Due(polls[1..][i], withinMinutes, now) && polls[1..][i].id !in processed
                 && x == ItemOf(polls[1..][i], now);
        assert polls[i + 1] == polls[1..][i];
      }
    }
  }

  /** One poll of the sweep: its own notice, if any, then the rest's. */
  lemma SweptStep(polls: seq<Poll>, k: int, processed: set<int>, withinMinutes: int, now: int)
    requires 0 <= k < |polls|
    ensures Swept(polls[k..], processed, withinMinutes, now)
         == (if Due(polls[k], withinMinutes, now) && polls[k].id !in processed then [ItemOf(polls[k], now)] else [])
            + Swept(polls[k + 1..], processed, withinMinutes, now)
  {
    assert polls[k..][1..] == polls[k + 1..];
  }

  /** Two sweeps before anything is processed, at times `now1` and `now2`
      (with windows `within1` and `within2`), queue two notices for a poll
      that is due at both: `processed` holds only dequeued ids, so the
      tracker does not notice that the poll is already waiting. */
  lemma DoubleSweepDuplicates(queued: seq<ExpiryItem>, polls: seq<Poll>, processed: set<int>,
                              within1: int, now1: int, within2: int, now2: int, p: Poll)
    requires p in polls && p.id !in processed
    requires Due(p, within1, now1) && Due(p, within2, now2)
    ensures var q := queued + Swept(polls, processed, within1, now1) + Swept(polls, processed, within2, now2);
      exists i, j :: 0 <= i < j < |q| && q[i] == ItemOf(p, now1) && q[j] == ItemOf(p, now2)
                     && q[i].pollId == q[j].pollId == p.id
  {
    var s1 := Swept(polls, processed, within1, now1);
    var s2 := Swept(polls, processed, within2, now2);
    var k :| 0 <= k < |polls| && polls[k] == p;
    SweptExactly(polls, processed, within1, now1, ItemOf(p, now1));
    SweptExactly(polls, processed, within2, now2, ItemOf(p, now2));
    var i :| 0 <= i < |s1| && s1[i] == ItemOf(p, now1);
    var j :| 0 <= j < |s2| && s2[j] == ItemOf(p, now2);
    var q := queued + s1 + s2;
    assert q[|queued| + i] == s1[i];
    assert q[|queued| + |s1| + j] == s2[j];
  }

  /** The expiry tracker: a queue of notices and the set of poll ids that
      have been taken off it, which only ever grows. */
  class PollExpiryQueue {
    var queue: Queue<ExpiryItem>
    var processed: set<int>

    ghost predicate Valid()
      reads this, queue
    {
      queue.Valid()
    }

    ghost function Queued(): seq<ExpiryItem>
      reads this, queue
      requires Valid()
    {
      queue.Contents()
    }

    constructor()
      ensures Valid() && fresh(queue) && Queued() == [] && processed == {}
    {
      queue := new Queue();
      processed := {};
    }

    /** `enqueueExpiring(poll)`: queues a notice stamped `now` unless the
        poll's id has been processed; a poll already waiting is queued again. */
    method EnqueueExpiring(poll: Poll, now: int)
      requires Valid()
      modifies queue
      ensures Valid() && processed == old(processed)
      ensures Queued() == if poll.id in processed then old(Queued()) else old(Queued()) + [ItemOf(poll, now)]
    {
      if poll.id !in processed {
        queue.Enqueue(ItemOf(poll, now));
      }
    }

    /** `processNext()`: `None` on an empty queue, otherwise the oldest
        notice, whose poll id joins `processed`. */
    method ProcessNext() returns (r: Option<ExpiryItem>)
      requires Valid()
      modifies this, queue
      ensures Valid() && queue == old(queue)
      ensures old(Queued()) == [] ==> r == None && Queued() == [] && processed == old(processed)
      ensures old(Queued()) != [] ==>
        r == Some(old(Queued())[0]) && Queued() == old(Queued())[1..]
        && processed == old(processed) + {r.value.pollId}
    {
      r := queue.Dequeue();
      if r.None? {
        return;
      }
      processed := processed + {r.value.pollId};
    }

    /** `checkExpiring(polls, withinMinutes)`: queues the due polls in input
        order and returns the queue size. */
    method CheckExpiring(polls: seq<Poll>, withinMinutes: int, now: int) returns (size: int)
      requires Valid()
      modifies queue
      ensures Valid() && processed == old(processed)
      ensures Queued() == old(Queued()) + Swept(polls, processed, withinMinutes, now)
      ensures size == |Queued()|
    {
      var k := 0;
      while k < |polls|
        invariant 0 <= k <= |polls| && Valid()
        invariant Queued() + Swept(polls[k..], processed, withinMinutes, now)
               == old(Queued()) + Swept(polls, processed, withinMinutes, now)
        decreases |polls| - k
      {
        SweptStep(polls, k, processed, withinMinutes, now);
        ghost var q := Queued();
        if Due(polls[k], withinMinutes, now) {
          EnqueueExpiring(polls[k], now);
          AppendAssoc(q, [ItemOf(polls[k], now)], Swept(polls[k + 1..], processed, withinMinutes, now));
        }
        k := k + 1;
      }
      size := queue.Size();
    }

    function GetQueueSize(): (r: int)
      reads this, queue
      requires Valid()
      ensures r == |Queued()|
    {
      queue.Size()
    }

    method GetQueueItems() returns (result: seq<ExpiryItem>)
      requires Valid()
      ensures result == Queued()
    {
      result := queue.ToArray();
    }
  }
}
