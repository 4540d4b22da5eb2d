/** The title index: polls sorted case-insensitively by title, the leftmost
    prefix match found by binary search, the forward scan that collects the
    whole run of matches, the search entry point and the exact-title search.
    Titles are compared by their lower-cased form under the code-point order
    of `Text.LexLess`, for sorting and for searching alike. */
module BinarySearch {
  import opened Polls
  import opened Text
  import StableSort
  import opened Seqs

  /** The lower-cased title every comparison uses. */
  function TitleKey(p: Poll): string
  {
    Lower(p.title)
  }

  predicate SortedByTitle(s: seq<Poll>)
  {
    forall i, j :: 0 <= i < j < |s| ==> LexLe(TitleKey(s[i]), TitleKey(s[j]))
  }

  /** The poll's lower-cased title starts with the lower-cased query `q`. */
  predicate Matches(p: Poll, q: string)
  {
    HasPrefix(TitleKey(p), q)
  }

  /** The polls of `s` that match `q`, in their order in `s`. */
  function Matching(s: seq<Poll>, q: string): (r: seq<Poll>)
    ensures |r| <= |s|
  {
    if s == [] then [] else (if Matches(s[0], q) then [s[0]] else []) + Matching(s[1..], q)
  }

  lemma {:induction false} MatchingAppend(a: seq<Poll>, b: seq<Poll>, q: string)
    ensures Matching(a + b, q) == Matching(a, q) + Matching(b, q)
  {
    if a != [] {
      assert (a + b)[1..] == a[1..] + b;
      MatchingAppend(a[1..], b, q);
    } else {
      assert a + b == b;
    }
  }

  lemma {:induction false} MatchingNone(s: seq<Poll>, q: string)
    requires forall k :: 0 <= k < |s| ==> !Matches(s[k], q)
    ensures Matching(s, q) == []
  {
    if s != [] {
      MatchingNone(s[1..], q);
    }
  }

  lemma {:induction false} MatchingAll(s: seq<Poll>, q: string)
    requires forall k :: 0 <= k < |s| ==> Matches(s[k], q)
    ensures Matching(s, q) == s
  {
    if s != [] {
      MatchingAll(s[1..], q);
      assert s == [s[0]] + s[1..];
    }
  }

  /** `Matching` keeps each matching poll as often as it occurs and drops the rest. */
  lemma {:induction false} MatchingCount(s: seq<Poll>, q: string, p: Poll)
    ensures multiset(Matching(s, q))[p] == if Matches(p, q) then multiset(s)[p] else 0
  {
    if s != [] {
      MatchingCount(s[1..], q, p);
      var head := if Matches(s[0], q) then [s[0]] else [];
      assert Matching(s, q) == head + Matching(s[1..], q);
      assert multiset(Matching(s, q)) == multiset(head) + multiset(Matching(s[1..], q));
      assert s == [s[0]] + s[1..];
      assert multiset(s) == multiset([s[0]]) + multiset(s[1..]);
    }
  }

  /** Every poll `Matching` returns comes from its input. */
  lemma {:induction false} MatchingFrom(s: seq<Poll>, q: string, p: Poll)
    requires p in Matching(s, q)
    ensures p in s[1..] || (s != [] && p == s[0])
  {
    if s != [] && p != s[0] {
      var head := if Matches(s[0], q) then [s[0]] else [];
      assert Matching(s, q) == head + Matching(s[1..], q);
      assert p in Matching(s[1..], q);
      MatchingFrom(s[1..], q, p);
      assert s[1..] == [s[1]] + s[2..];
    }
  }

  /** `sortPollsByTitle`: a sorted copy; polls with equal lower-cased titles
      keep their input order. */
  function SortPollsByTitle(polls: seq<Poll>): (r: seq<Poll>)
    ensures multiset(r) == multiset(polls)
    ensures SortedByTitle(r)
    ensures forall t :: StableSort.WithKey(r, TitleKey, t) == StableSort.WithKey(polls, TitleKey, t)
  {
    var r := StableSort.Sort(polls, TitleKey, false);
    SortedAscending(r);
    SortIsStableForAllKeys(polls);
    r
  }

  lemma SortedAscending(r: seq<Poll>)
    requires StableSort.SortedBy(r, TitleKey, false)
    ensures SortedByTitle(r)
  {
    forall i, j | 0 <= i < j < |r|
      ensures LexLe(TitleKey(r[i]), TitleKey(r[j]))
    {
      assert !StableSort.Before(TitleKey, false, r[j], r[i]);
      LexNotLessIsLe(TitleKey(r[j]), TitleKey(r[i]));
    }
  }

  lemma SortIsStableForAllKeys(polls: seq<Poll>)
    ensures forall t :: StableSort.WithKey(StableSort.Sort(polls, TitleKey, false), TitleKey, t)
                     == StableSort.WithKey(polls, TitleKey, t)
  {
    forall t
      ensures StableSort.WithKey(StableSort.Sort(polls, TitleKey, false), TitleKey, t)
           == StableSort.WithKey(polls, TitleKey, t)
    {
      StableSort.SortIsStable(polls, TitleKey, false, t);
    }
  }

  /** No title at or below one that is below the query can start with it. */
  lemma BelowQueryNoMatch(q: string, t: string, u: string)
    requires LexLe(u, t) && LexLess(t, q)
    ensures !HasPrefix(u, q)
  {
    if HasPrefix(u, q) {
      PrefixIsLe(u, q);
      LexLeTransitive(q, u, t);
      LexLeLessTransitive(q, t, q);
      LexLessIrreflexive(q);
    }
  }

  /** A title that neither starts with the query nor is below it is above it. */
  lemma AboveQuery(q: string, t: string)
    requires !HasPrefix(t, q) && !LexLess(t, q)
    ensures LexLess(q, t)
  {
    assert HasPrefix(q, q);
    LexTotal(q, t);
  }

  /** Matching titles are contiguous in a sorted array. */
  lemma MatchesContiguous(s: seq<Poll>, q: string, i: int, j: int, k: int)
    requires SortedByTitle(s)
    requires 0 <= i < j < k < |s|
    requires Matches(s[i], q) && Matches(s[k], q)
    ensures Matches(s[j], q)
  {
    if !Matches(s[j], q) {
      PrefixIsLe(TitleKey(s[i]), q);
      LexLeTransitive(q, TitleKey(s[i]), TitleKey(s[j]));
      assert TitleKey(s[j]) != q by {
        assert HasPrefix(q, q);
      }
      PastPrefixBlock(q, TitleKey(s[j]), TitleKey(s[k]));
    }
  }

  /** `binarySearchFirst`: -1 or the index of a matching poll; on a sorted
      array, the least such index, and -1 exactly when nothing matches. */
  method BinarySearchFirst(sortedPolls: seq<Poll>, query: string) returns (result: int)
    ensures result == -1 || (0 <= result < |sortedPolls| && Matches(sortedPolls[result], Lower(query)))
    ensures SortedByTitle(sortedPolls) && result != -1 ==>
              forall k :: 0 <= k < result ==> !Matches(sortedPolls[k], Lower(query))
    ensures SortedByTitle(sortedPolls) ==>
              (result == -1 <==> forall k :: 0 <= k < |sortedPolls| ==> !Matches(sortedPolls[k], Lower(query)))
  {
    var s := sortedPolls;
    var q := Lower(query);
    var left := 0;
    var right := |s| - 1;
    result := -1;
    while left <= right
      invariant 0 <= left <= right + 1 <= |s|
      invariant result == -1 || (right < result < |s| && Matches(s[result], q))
      invariant SortedByTitle(s) ==> forall k :: 0 <= k < left ==> !Matches(s[k], q)
      invariant SortedByTitle(s) ==>
                  forall k :: right < k < |s| && (result == -1 || k < result) ==> !Matches(s[k], q)
    {
      var mid := (left + right) / 2;
      var title := TitleKey(s[mid]);
      if HasPrefix(title, q) {
        result := mid;
        right := mid - 1;
      } else if LexLess(title, q) {
        if SortedByTitle(s) {
          forall k | 0 <= k <= mid
            ensures !Matches(s[k], q)
          {
            if k < mid {
              BelowQueryNoMatch(q, title, TitleKey(s[k]));
            }
          }
        }
        left := mid + 1;
      } else {
        if SortedByTitle(s) {
          AboveQuery(q, title);
          forall k | mid <= k < |s|
            ensures !Matches(s[k], q)
          {
            if k > mid {
              PastPrefixBlock(q, title, TitleKey(s[k]));
            }
          }
        }
        right := mid - 1;
      }
    }
  }

  /** `findAllMatches`: every returned poll matches; on a sorted array the
      result is exactly the matching polls in order, which form one run. */
  method FindAllMatches(sortedPolls: seq<Poll>, query: string) returns (matches: seq<Poll>)
    ensures forall p :: p in matches ==> Matches(p, Lower(query))
    ensures SortedByTitle(sortedPolls) ==> matches == Matching(sortedPolls, Lower(query))
  {
    var s := sortedPolls;
    var q := Lower(query);
    var first := BinarySearchFirst(s, query);
    if first == -1 {
      if SortedByTitle(s) {
        MatchingNone(s, q);
      }
      return [];
    }
    matches := [];
    var i := first;
    while i < |s| && HasPrefix(TitleKey(s[i]), q)
      invariant first <= i <= |s|
      invariant matches == s[first..i]
      invariant forall k :: first <= k < i ==> Matches(s[k], q)
    {
      matches := matches + [s[i]];
      i := i + 1;
    }
    if SortedByTitle(s) {
      RunIsMatching(s, q, first, i);
    }
  }

  /** On a sorted array, the run that starts at the leftmost match and ends
      at the first poll after it that does not match is the whole set of
      matches. */
  lemma RunIsMatching(s: seq<Poll>, q: string, first: int, i: int)
    requires SortedByTitle(s)
    requires 0 <= first < i <= |s|
    requires forall k :: 0 <= k < first ==> !Matches(s[k], q)
    requires forall k :: first <= k < i ==> Matches(s[k], q)
    requires i == |s| || !Matches(s[i], q)
    ensures Matching(s, q) == s[first..i]
  {
    forall k | i <= k < |s|
      ensures !Matches(s[k], q)
    {
      if k > i && Matches(s[k], q) {
        MatchesContiguous(s, q, first, i, k);
      }
    }
    MatchingThreeParts(s, q, first, i);
  }

  /** A prefix with no match, a run of matches and a suffix with no match:
      the matches are exactly the run. */
  lemma MatchingThreeParts(s: seq<Poll>, q: string, first: int, i: int)
    requires 0 <= first <= i <= |s|
    requires forall k :: 0 <= k < first ==> !Matches(s[k], q)
    requires forall k :: first <= k < i ==> Matches(s[k], q)
    requires forall k :: i <= k < |s| ==> !Matches(s[k], q)
    ensures Matching(s, q) == s[first..i]
  {
    MatchingSplit(s, first, q);
    MatchingNone(s[..first], q);
    var t := s[first..];
    MatchingSplit(t, i - first, q);
    assert t[..i - first] == s[first..i] && t[i - first..] == s[i..];
    MatchingAll(s[first..i], q);
    MatchingNone(s[i..], q);
  }

  lemma MatchingSplit(s: seq<Poll>, k: int, q: string)
    requires 0 <= k <= |s|
    ensures Matching(s, q) == Matching(s[..k], q) + Matching(s[k..], q)
  {
    SplitAt(s, k);
    MatchingAppend(s[..k], s[k..], q);
  }

  /** What `searchPolls` returns: the input itself for a blank query,
      otherwise the result object (its constant `algorithm` and
      `timeComplexity` strings are not modelled). */
  datatype SearchOutcome =
    | Unfiltered(polls: seq<Poll>)
    | Found(results: seq<Poll>, totalFound: int, totalPolls: int)

  /** `searchPolls`: a blank query returns the polls unchanged; otherwise the
      polls whose title starts with the trimmed query, each as often as it
      occurs, sorted by title, with the two counts. */
  method SearchPolls(polls: seq<Poll>, query: string) returns (r: SearchOutcome)
    ensures Blank(query) ==> r == Unfiltered(polls)
    ensures !Blank(query) ==> r.Found?
    ensures r.Found? ==> r.totalFound == |r.results| && r.totalPolls == |polls|
    ensures r.Found? ==> SortedByTitle(r.results)
    ensures r.Found? ==> forall p :: multiset(r.results)[p]
                                     == if Matches(p, Lower(Trim(query))) then multiset(polls)[p] else 0
    ensures r.Found? ==> r.results == Matching(SortPollsByTitle(polls), Lower(Trim(query)))
  {
    if Trim(query) == [] {
      return Unfiltered(polls);
    }
    var sorted := SortPollsByTitle(polls);
    var matches := FindAllMatches(sorted, Trim(query));
    var q := Lower(Trim(query));
    forall p
      ensures multiset(matches)[p] == if Matches(p, q) then multiset(polls)[p] else 0
    {
      MatchingCount(sorted, q, p);
    }
    MatchingSorted(sorted, q);
    r := Found(matches, |matches|, |polls|);
  }

  lemma {:induction false} MatchingSorted(s: seq<Poll>, q: string)
    requires SortedByTitle(s)
    ensures SortedByTitle(Matching(s, q))
  {
    if s != [] {
      MatchingSorted(s[1..], q);
      var rest := Matching(s[1..], q);
      if Matches(s[0], q) {
        forall j | 0 <= j < |rest|
          ensures LexLe(TitleKey(s[0]), TitleKey(rest[j]))
        {
          assert rest[j] in rest;
          MatchingFrom(s[1..], q, rest[j]);
          var m :| 0 <= m < |s[1..]| && s[1..][m] == rest[j];
          assert s[m + 1] == rest[j];
        }
        assert Matching(s, q) == [s[0]] + rest;
      }
    }
  }

  /** `binarySearchExact`: a poll of the array whose lower-cased title equals
      the lower-cased `title`; on a sorted array, `None` exactly when there is
      no such poll. */
  method BinarySearchExact(sortedPolls: seq<Poll>, title: string) returns (r: Option<Poll>)
    ensures r.Some? ==> r.value in sortedPolls && TitleKey(r.value) == Lower(title)
    ensures SortedByTitle(sortedPolls) ==>
              (r.None? <==> forall k :: 0 <= k < |sortedPolls| ==> TitleKey(sortedPolls[k]) != Lower(title))
  {
    var s := sortedPolls;
    var t := Lower(title);
    var left := 0;
    var right := |s| - 1;
    while left <= right
      invariant 0 <= left <= right + 1 <= |s|
      invariant SortedByTitle(s) ==> forall k :: 0 <= k < left ==> TitleKey(s[k]) != t
      invariant SortedByTitle(s) ==> forall k :: right < k < |s| ==> TitleKey(s[k]) != t
    {
      var mid := (left + right) / 2;
      var current := TitleKey(s[mid]);
      if current == t {
        return Some(s[mid]);
      } else if LexLess(current, t) {
        if SortedByTitle(s) {
          forall k | 0 <= k <= mid
            ensures TitleKey(s[k]) != t
          {
            LexLeLessTransitive(TitleKey(s[k]), current, t);
            LexLessIrreflexive(t);
          }
        }
        left := mid + 1;
      } else {
        if SortedByTitle(s) {
          LexTotal(current, t);
          forall k | mid <= k < |s|
            ensures TitleKey(s[k]) != t
          {
            LexLessLeTransitive(t, current, TitleKey(s[k]));
            LexLessIrreflexive(t);
          }
        }
        right := mid - 1;
      }
    }
    return None;
  }
}
