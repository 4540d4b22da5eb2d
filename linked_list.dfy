/** The activity log: a doubly linked list capped at a maximum size, which
    drops its oldest entry when an append takes it past the cap, and the
    process-wide vote activity feed built on it. */
module LinkedLists {
  import opened Polls

  /** One vote event (`userId`, `poll_id`, `pollTitle`, `optionText` and the
      time it was recorded). */
  datatype Activity = Activity(userId: int, pollId: int, pollTitle: string, optionText: string, timestamp: int)

  /** The sequence read back to front. */
  function Reversed<T>(s: seq<T>): (r: seq<T>)
    ensures |r| == |s|
    ensures forall i :: 0 <= i < |s| ==> r[i] == s[|s| - 1 - i]
  {
    if s == [] then [] else Reversed(s[1..]) + [s[0]]
  }

  class Node {
    var data: Activity
    var prev: Node?
    var next: Node?

    constructor(data: Activity)
      ensures this.data == data && prev == null && next == null
    {
      this.data := data;
      prev := null;
      next := null;
    }
  }

  class DoublyLinkedList {
    var head: Node?
    var tail: Node?
    var size: int
    var maxSize: int

    /** The nodes from head to tail, and the data they hold. */
    ghost var Nodes: seq<Node>
    ghost var Contents: seq<Activity>
    ghost var Repr: set<object>

    ghost predicate Valid()
      reads this, Repr
      ensures Valid() ==> this in Repr
    {
      this in Repr
      && (forall i :: 0 <= i < |Nodes| ==> Nodes[i] in Repr)
      && size == |Nodes| == |Contents|
      && (forall i :: 0 <= i < |Nodes| ==> Nodes[i].data == Contents[i])
      && (if Nodes == [] then head == null && tail == null
          else head == Nodes[0] && tail == Nodes[|Nodes| - 1])
      && (Nodes != [] ==> Nodes[0].prev == null && Nodes[|Nodes| - 1].next == null)
      && (forall i, j :: 0 <= i && j == i + 1 && j < |Nodes| ==> Nodes[i].next == Nodes[j] && Nodes[j].prev == Nodes[i])
      && (forall i, j :: 0 <= i < j < |Nodes| ==> Nodes[i] != Nodes[j])
    }

    constructor(maxSize: int)
      ensures Valid() && fresh(Repr)
      ensures Contents == [] && this.maxSize == maxSize
    {
      head, tail, size := null, null, 0;
      this.maxSize := maxSize;
      Nodes, Contents := [], [];
      Repr := {this};
    }

    /** `append(data)`: adds `data` at the tail; if the size then exceeds
        `maxSize`, the head is dropped. */
    method Append(data: Activity)
      requires Valid()
      modifies Repr
      ensures Valid() && fresh(Repr - old(Repr)) && maxSize == old(maxSize)
      ensures Contents == if |old(Contents)| + 1 > maxSize then (old(Contents) + [data])[1..]
                          else old(Contents) + [data]
      ensures |old(Contents)| <= maxSize ==> |Contents| <= maxSize
    {
      PushBack(data);
      if size > maxSize {
        var _ := RemoveHead();
      }
    }

    /** The linking half of `append`: the new node becomes the tail. */
    method PushBack(data: Activity)
      requires Valid()
      modifies Repr
      ensures Valid() && fresh(Repr - old(Repr)) && maxSize == old(maxSize)
      ensures Contents == old(Contents) + [data]
    {
      var node := new Node(data);
      ghost var before := Nodes;
      if head == null {
        head, tail := node, node;
      } else {
        node.prev := tail;
        tail.next := node;
        tail := node;
      }
      Nodes, Contents, Repr := Nodes + [node], Contents + [data], Repr + {node};
      size := size + 1;
      forall i | 0 <= i < |before|
        ensures Nodes[i].data == Contents[i] && Nodes[i].prev == old(before[i].prev)
        ensures i < |before| - 1 ==> Nodes[i].next == old(before[i].next)
      {
        assert Nodes[i] == before[i];
        if i < |before| - 1 {
          assert before[i] != before[|before| - 1];
        }
      }
    }

    /** `prepend(data)`: adds `data` at the head, with no size check. */
    method Prepend(data: Activity)
      requires Valid()
      modifies Repr
      ensures Valid() && fresh(Repr - old(Repr)) && maxSize == old(maxSize)
      ensures Contents == [data] + old(Contents)
    {
      var node := new Node(data);
      if head == null {
        head, tail := node, node;
        Nodes, Contents, Repr := [node], [data], Repr + {node};
        size := 1;
      } else {
        ghost var before := Nodes;
        node.next := head;
        head.prev := node;
        head := node;
        Nodes, Contents, Repr := [node] + Nodes, [data] + Contents, Repr + {node};
        size := size + 1;
        forall i | 0 <= i < |before|
          ensures Nodes[i + 1] == before[i] && Nodes[i + 1].data == Contents[i + 1]
          ensures Nodes[i + 1].next == old(before[i].next)
          ensures i > 0 ==> Nodes[i + 1].prev == old(before[i].prev)
        {
          if i > 0 {
            assert before[i] != before[0];
          }
        }
        forall i, j | 0 <= i < j < |Nodes|
          ensures Nodes[i] != Nodes[j]
        {
          if i == 0 {
            assert Nodes[j] in old(Repr);
          }
        }
      }
    }

    /** `removeHead`: `None` on an empty list, otherwise the oldest entry,
        which is removed. */
    method RemoveHead() returns (r: Option<Activity>)
      requires Valid()
      modifies Repr
      ensures Valid() && Repr == old(Repr) && maxSize == old(maxSize)
      ensures old(Contents) == [] ==> r == None && Contents == []
      ensures old(Contents) != [] ==> r == Some(old(Contents)[0]) && Contents == old(Contents)[1..]
    {
      if head == null {
        return None;
      }
      r := Some(head.data);
      if head == tail {
        head, tail := null, null;
      } else {
        assert |Nodes| > 1 && head.next == Nodes[1];
        head := head.next;
        head.prev := null;
      }
      Nodes, Contents := Nodes[1..], Contents[1..];
      size := size - 1;
    }

    /** `removeTail`: `None` on an empty list, otherwise the newest entry,
        which is removed. */
    method RemoveTail() returns (r: Option<Activity>)
      requires Valid()
      modifies Repr
      ensures Valid() && Repr == old(Repr) && maxSize == old(maxSize)
      ensures old(Contents) == [] ==> r == None && Contents == []
      ensures old(Contents) != [] ==>
        r == Some(old(Contents)[|old(Contents)| - 1]) && Contents == old(Contents)[..|old(Contents)| - 1]
    {
      if tail == null {
        return None;
      }
      r := Some(tail.data);
      if head == tail {
        head, tail := null, null;
      } else {
        assert |Nodes| > 1 && tail.prev == Nodes[|Nodes| - 2];
        tail := tail.prev;
        tail.next := null;
      }
      Nodes, Contents := Nodes[..|Nodes| - 1], Contents[..|Contents| - 1];
      size := size - 1;
    }

    /** `getRecent(n)`: the newest `n` entries (all of them when `n` exceeds
        the size, none when `n <= 0`), oldest first. */
    method GetRecent(n: int) returns (result: seq<Activity>)
      requires Valid()
      ensures |result| == if n <= 0 then 0 else if n < |Contents| then n else |Contents|
      ensures result == Contents[|Contents| - |result|..]
    {
      result := [];
      var current := tail;
      var count := 0;
      while current != null && count < n
        invariant Valid() && 0 <= count <= |Nodes|
        invariant current == if count < |Nodes| then Nodes[|Nodes| - 1 - count] else null
        invariant result == Contents[|Contents| - count..]
        invariant count <= if n <= 0 then 0 else n
        decreases |Nodes| - count
      {
        assert current == Nodes[|Nodes| - 1 - count];
        result := [current.data] + result;
        current := current.prev;
        count := count + 1;
      }
    }

    /** `toArray`: the entries from head to tail. */
    method ToArray() returns (result: seq<Activity>)
      requires Valid()
      ensures result == Contents && |result| == size
    {
      result := [];
      var current := head;
      var i := 0;
      while current != null
        invariant Valid() && 0 <= i <= |Nodes|
        invariant current == if i < |Nodes| then Nodes[i] else null
        invariant result == Contents[..i]
        decreases |Nodes| - i
      {
        assert current == Nodes[i];
        result := result + [current.data];
        current := current.next;
        i := i + 1;
      }
    }

    /** `toArrayReverse`: the entries from tail to head. */
    method ToArrayReverse() returns (result: seq<Activity>)
      requires Valid()
      ensures result == Reversed(Contents) && |result| == size
    {
      result := [];
      var current := tail;
      var i := 0;
      while current != null
        invariant Valid() && 0 <= i <= |Nodes|
        invariant current == if i < |Nodes| then Nodes[|Nodes| - 1 - i] else null
        invariant |result| == i
        invariant forall k :: 0 <= k < i ==> result[k] == Contents[|Contents| - 1 - k]
        decreases |Nodes| - i
      {
        assert current == Nodes[|Nodes| - 1 - i];
        result := result + [current.data];
        current := current.prev;
        i := i + 1;
      }
    }

    /** `findByPollId(pollId)`: the earliest entry for the poll, or `None`. */
    method FindByPollId(pollId: int) returns (r: Option<Activity>)
      requires Valid()
      ensures r.None? <==> forall i :: 0 <= i < |Contents| ==> Contents[i].pollId != pollId
      ensures r.Some? ==> exists i :: 0 <= i < |Contents| && Contents[i] == r.value && r.value.pollId == pollId
                                      && forall j :: 0 <= j < i ==> Contents[j].pollId != pollId
    {
      var current := head;
      ghost var i := 0;
      while current != null
        invariant Valid() && 0 <= i <= |Nodes|
        invariant current == if i < |Nodes| then Nodes[i] else null
        invariant forall j :: 0 <= j < i ==> Contents[j].pollId != pollId
        decreases |Nodes| - i
      {
        assert current == Nodes[i];
        if current.data.pollId == pollId {
          return Some(current.data);
        }
        current := current.next;
        i := i + 1;
      }
      return None;
    }

    function IsEmpty(): (r: bool)
      reads this, Repr
      ensures Valid() ==> (r <==> Contents == [])
    {
      size == 0
    }
  }

  /** The capacity of the vote activity feed. */
  const FeedCapacity := 50

  /** The process-wide feed: a list capped at `FeedCapacity` that is only
      ever appended to, so it never holds more than `FeedCapacity` entries. */
  class ActivityFeed {
    var log: DoublyLinkedList
    ghost var Repr: set<object>

    ghost predicate Valid()
      reads this, Repr
      ensures Valid() ==> this in Repr
    {
      this in Repr && log in Repr && log.Repr <= Repr && this !in log.Repr
      && log.Valid() && log.maxSize == FeedCapacity && |log.Contents| <= FeedCapacity
    }

    ghost function Contents(): seq<Activity>
      reads this, log
    {
      log.Contents
    }

    constructor()
      ensures Valid() && fresh(Repr) && Contents() == []
    {
      log := new DoublyLinkedList(FeedCapacity);
      new;
      Repr := {this} + log.Repr;
    }

    /** `addActivity(activity)`: appends the event stamped with the current
        time `now`, dropping the oldest event once the feed is full. */
    method AddActivity(activity: Activity, now: int)
      requires Valid()
      modifies Repr
      ensures Valid() && fresh(Repr - old(Repr))
      ensures var stamped := activity.(timestamp := now);
        Contents() == if |old(Contents())| + 1 > FeedCapacity then (old(Contents()) + [stamped])[1..]
                      else old(Contents()) + [stamped]
    {
      log.Append(activity.(timestamp := now));
      Repr := Repr + log.Repr;
    }

    /** `getRecentActivity(n)`: the newest `n` events, oldest first, never
        more than `FeedCapacity` of them. */
    method GetRecentActivity(n: int) returns (result: seq<Activity>)
      requires Valid()
      ensures |result| <= FeedCapacity
      ensures |result| == if n <= 0 then 0 else if n < |Contents()| then n else |Contents()|
      ensures result == Contents()[|Contents()| - |result|..]
    {
      result := log.GetRecent(n);
    }
  }
}
