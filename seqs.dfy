/** Small facts about sequences that several proofs rely on, stated once so
    that each proof can cite them instead of rediscovering them. */
module Seqs {

  lemma SplitAt<T>(s: seq<T>, k: int)
    requires 0 <= k <= |s|
    ensures s == s[..k] + s[k..]
  {
  }

  lemma TakeTake<T>(s: seq<T>, i: int, j: int)
    requires 0 <= j <= i <= |s|
    ensures s[..i][..j] == s[..j]
  {
  }

  lemma ConsAppend<T>(x: T, t: seq<T>, u: seq<T>)
    ensures [x] + (t + u) == ([x] + t) + u
  {
  }

  lemma AppendAssoc<T>(a: seq<T>, b: seq<T>, c: seq<T>)
    ensures (a + b) + c == a + (b + c)
  {
  }

  lemma SnocParts<T>(s: seq<T>, x: T)
    requires s != []
    ensures (s + [x])[0] == s[0] && (s + [x])[1..] == s[1..] + [x]
  {
  }

  lemma MemberCons<T>(s: seq<T>, x: T)
    requires s != []
    ensures x in s <==> x == s[0] || x in s[1..]
  {
    assert s == [s[0]] + s[1..];
  }

  /** Taking the last element of `a` and an equal element of `b` out of two
      permutations of each other leaves permutations of each other. */
  lemma MultisetRemoveLast<T>(a: seq<T>, b: seq<T>, k: int)
    requires multiset(a) == multiset(b)
    requires a != [] && 0 <= k < |b| && b[k] == a[|a| - 1]
    ensures multiset(a[..|a| - 1]) == multiset(b[..k] + b[k + 1..])
  {
    var x := b[k];
    var b' := b[..k] + b[k + 1..];
    assert a == a[..|a| - 1] + [x];
    assert b == b[..k] + [x] + b[k + 1..];
    assert multiset(a) == multiset(a[..|a| - 1]) + multiset{x};
    assert multiset(b) == multiset(b[..k]) + multiset{x} + multiset(b[k + 1..]);
    assert multiset(b') == multiset(b[..k]) + multiset(b[k + 1..]);
    forall y
      ensures multiset(a[..|a| - 1])[y] == multiset(b')[y]
    {
      assert multiset(a)[y] == multiset(b)[y];
    }
  }
}
