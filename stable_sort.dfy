/** The stable comparison sort that `Array.prototype.sort` provides, used
    with a string key compared in ascending or descending lexicographic
    order. Elements with equal keys keep their input order. */
module StableSort {
  import opened Text

  /** `x` goes strictly before `y`: its key is below `y`'s (above it when
      `desc`). */
  predicate Before<T>(key: T -> string, desc: bool, x: T, y: T)
  {
    if desc then LexLess(key(y), key(x)) else LexLess(key(x), key(y))
  }

  predicate SortedBy<T>(s: seq<T>, key: T -> string, desc: bool)
  {
    forall i, j :: 0 <= i < j < |s| ==> !Before(key, desc, s[j], s[i])
  }

  /** The elements whose key is `k`, in their order in `s`. */
  function WithKey<T>(s: seq<T>, key: T -> string, k: string): (r: seq<T>)
    ensures |r| <= |s|
  {
    if s == [] then []
    else WithKey(s[..|s| - 1], key, k) + (if key(s[|s| - 1]) == k then [s[|s| - 1]] else [])
  }

  lemma {:induction false} WithKeyAppend<T>(a: seq<T>, b: seq<T>, key: T -> string, k: string)
    ensures WithKey(a + b, key, k) == WithKey(a, key, k) + WithKey(b, key, k)
  {
    if b != [] {
      assert (a + b)[..|a + b| - 1] == a + b[..|b| - 1];
      WithKeyAppend(a, b[..|b| - 1], key, k);
    } else {
      assert a + b == a;
    }
  }

  lemma BeforeAsymmetric<T>(key: T -> string, desc: bool, x: T, y: T)
    ensures Before(key, desc, x, y) ==> !Before(key, desc, y, x)
  {
    LexLessAsymmetric(key(x), key(y));
    LexLessAsymmetric(key(y), key(x));
  }

  /** Strictly before one that is not after a third is strictly before that third. */
  lemma BeforeNotAfter<T>(key: T -> string, desc: bool, x: T, y: T, z: T)
    requires Before(key, desc, x, y) && !Before(key, desc, z, y)
    ensures Before(key, desc, x, z)
  {
    if desc {
      LexNotLessIsLe(key(y), key(z));
      LexLeLessTransitive(key(z), key(y), key(x));
    } else {
      LexNotLessIsLe(key(z), key(y));
      LexLessLeTransitive(key(x), key(y), key(z));
    }
  }

  lemma BeforeDistinctKeys<T>(key: T -> string, desc: bool, x: T, y: T)
    requires Before(key, desc, x, y)
    ensures key(x) != key(y)
  {
    LexLessIrreflexive(key(x));
  }

  /** Puts `x` after every element of `r` that it does not strictly precede. */
  function Insert<T>(r: seq<T>, x: T, key: T -> string, desc: bool): (o: seq<T>)
    ensures multiset(o) == multiset(r) + multiset{x}
  {
    if r == [] then [x]
    else
      assert r == r[..|r| - 1] + [r[|r| - 1]];
      if Before(key, desc, x, r[|r| - 1]) then Insert(r[..|r| - 1], x, key, desc) + [r[|r| - 1]]
      else r + [x]
  }

  lemma {:induction false} InsertSorted<T>(r: seq<T>, x: T, key: T -> string, desc: bool)
    requires SortedBy(r, key, desc)
    ensures SortedBy(Insert(r, x, key, desc), key, desc)
  {
    if r != [] {
      var last := r[|r| - 1];
      var init := r[..|r| - 1];
      var o := Insert(r, x, key, desc);
      if Before(key, desc, x, last) {
        assert SortedBy(init, key, desc);
        InsertSorted(init, x, key, desc);
        var o' := Insert(init, x, key, desc);
        assert o == o' + [last];
        forall i | 0 <= i < |o'|
          ensures !Before(key, desc, last, o'[i])
        {
          assert o'[i] in multiset(init) + multiset{x};
          if o'[i] == x {
            BeforeAsymmetric(key, desc, x, last);
          } else {
            assert o'[i] in init;
            var k :| 0 <= k < |init| && init[k] == o'[i];
            assert r[k] == o'[i];
          }
        }
        SortedAppend(o', last, key, desc);
      } else {
        assert o == r + [x];
        forall i | 0 <= i < |r|
          ensures !Before(key, desc, x, r[i])
        {
          if i < |r| - 1 && Before(key, desc, x, r[i]) {
            BeforeNotAfter(key, desc, x, r[i], last);
          }
        }
        SortedAppend(r, x, key, desc);
      }
    }
  }

  lemma SortedAppend<T>(r: seq<T>, y: T, key: T -> string, desc: bool)
    requires SortedBy(r, key, desc)
    requires forall i :: 0 <= i < |r| ==> !Before(key, desc, y, r[i])
    ensures SortedBy(r + [y], key, desc)
  {
  }

  /** Insertion sort: a stable sort compatible with `sort((a, b) => cmp)`. */
  function Sort<T>(s: seq<T>, key: T -> string, desc: bool): (r: seq<T>)
    ensures multiset(r) == multiset(s)
    ensures SortedBy(r, key, desc)
  {
    if s == [] then []
    else
      assert s == s[..|s| - 1] + [s[|s| - 1]];
      InsertSorted(Sort(s[..|s| - 1], key, desc), s[|s| - 1], key, desc);
      Insert(Sort(s[..|s| - 1], key, desc), s[|s| - 1], key, desc)
  }

  lemma WithKeySingle<T>(x: T, key: T -> string, k: string)
    ensures WithKey([x], key, k) == if key(x) == k then [x] else []
  {
    assert [x][..0] == [];
  }

  lemma {:induction false} InsertWithKey<T>(r: seq<T>, x: T, key: T -> string, desc: bool, k: string)
    ensures WithKey(Insert(r, x, key, desc), key, k)
         == WithKey(r, key, k) + (if key(x) == k then [x] else [])
    decreases |r|, 1
  {
    if r == [] || !Before(key, desc, x, r[|r| - 1]) {
      InsertAtEndWithKey(r, x, key, desc, k);
    } else {
      InsertBeforeLastWithKey(r, x, key, desc, k);
    }
  }

  lemma {:induction false} InsertBeforeLastWithKey<T>(r: seq<T>, x: T, key: T -> string, desc: bool, k: string)
    requires r != [] && Before(key, desc, x, r[|r| - 1])
    ensures WithKey(Insert(r, x, key, desc), key, k)
         == WithKey(r, key, k) + (if key(x) == k then [x] else [])
    decreases |r|, 0
  {
    var last := r[|r| - 1];
    var init := r[..|r| - 1];
    var o' := Insert(init, x, key, desc);
    var o := o' + [last];
    assert Insert(r, x, key, desc) == o;
    assert o[..|o| - 1] == o';
    InsertWithKey(init, x, key, desc, k);
    var head := WithKey(init, key, k);
    if key(x) == k {
      BeforeDistinctKeys(key, desc, x, last);
      assert WithKey(o, key, k) == head + [x];
      assert WithKey(r, key, k) == head;
    } else {
      assert WithKey(o', key, k) == head;
      assert WithKey(o, key, k) == WithKey(r, key, k);
    }
  }

  lemma InsertAtEndWithKey<T>(r: seq<T>, x: T, key: T -> string, desc: bool, k: string)
    requires r == [] || !Before(key, desc, x, r[|r| - 1])
    ensures WithKey(Insert(r, x, key, desc), key, k)
         == WithKey(r, key, k) + (if key(x) == k then [x] else [])
  {
    assert Insert(r, x, key, desc) == r + [x];
    WithKeySingle(x, key, k);
    WithKeyAppend(r, [x], key, k);
  }

  /** Stability: for every key, the elements carrying it appear in the output
      in the order they had in the input. */
  lemma {:induction false} SortIsStable<T>(s: seq<T>, key: T -> string, desc: bool, k: string)
    ensures WithKey(Sort(s, key, desc), key, k) == WithKey(s, key, k)
  {
    if s != [] {
      SortIsStable(s[..|s| - 1], key, desc, k);
      InsertWithKey(Sort(s[..|s| - 1], key, desc), s[|s| - 1], key, desc, k);
    }
  }
}
