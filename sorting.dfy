/**
 * Python's `sorted(xs, key=...)` for the name keys the file organizer sorts
 * by (utils/structures.py:267 and 278-279): a stable insertion sort under
 * the string order `Text.LexLess`.
 */
module Sorting {
  import opened Text

  /** `xs` is in ascending key order; equal keys may sit side by side. */
  ghost predicate SortedBy<T>(xs: seq<T>, key: T -> string)
  {
    forall i, j :: 0 <= i < j < |xs| ==> !LexLess(key(xs[j]), key(xs[i]))
  }

  /** No two elements of `xs` share a key. */
  ghost predicate DistinctKeys<T>(xs: seq<T>, key: T -> string)
  {
    forall i, j :: 0 <= i < j < |xs| ==> key(xs[i]) != key(xs[j])
  }

  /** Dropping the first element keeps a sequence in order. */
  lemma TailSorted<T>(xs: seq<T>, key: T -> string)
    requires xs != [] && SortedBy(xs, key)
    ensures SortedBy(xs[1..], key)
  {
    forall i, j | 0 <= i < j < |xs| - 1
      ensures !LexLess(key(xs[1..][j]), key(xs[1..][i]))
    {
      assert xs[1..][j] == xs[j + 1] && xs[1..][i] == xs[i + 1];
    }
  }

  /** Insert `x` before the first element whose key is not smaller. */
  function InsertBy<T>(x: T, xs: seq<T>, key: T -> string): (r: seq<T>)
    ensures multiset(r) == multiset(xs) + multiset{x}
  {
    if xs == [] then [x]
    else if LexLess(key(xs[0]), key(x)) then
      assert xs == [xs[0]] + xs[1..];
      [xs[0]] + InsertBy(x, xs[1..], key)
    else [x] + xs
  }

  /** `sorted(xs, key=key)`: a stable insertion sort. */
  function SortBy<T>(xs: seq<T>, key: T -> string): (r: seq<T>)
    ensures multiset(r) == multiset(xs)
  {
    if xs == [] then []
    else
      assert xs == [xs[0]] + xs[1..];
      InsertBy(xs[0], SortBy(xs[1..], key), key)
  }

  /** Inserting into a sorted sequence keeps it sorted. */
  lemma {:induction false} InsertSorted<T>(x: T, xs: seq<T>, key: T -> string)
    requires SortedBy(xs, key)
    ensures SortedBy(InsertBy(x, xs, key), key)
    decreases |xs|
  {
    if xs != [] {
      if LexLess(key(xs[0]), key(x)) {
        InsertSorted(x, xs[1..], key);
        var r := InsertBy(x, xs, key);
        var rest := InsertBy(x, xs[1..], key);
        assert r == [xs[0]] + rest;
        forall j | 0 < j < |r|
          ensures !LexLess(key(r[j]), key(r[0]))
        {
          assert r[j] in multiset(rest);
          assert r[j] in multiset(xs[1..]) + multiset{x};
          if r[j] == x {
            LexTotal(key(xs[0]), key(x));
          } else {
            var k :| 0 <= k < |xs[1..]| && xs[1..][k] == r[j];
            assert r[j] == xs[k + 1];
          }
        }
      } else {
        var r := InsertBy(x, xs, key);
        forall j | 0 < j < |r|
          ensures !LexLess(key(r[j]), key(x))
        {
          assert r[j] == xs[j - 1];
          if LexLess(key(xs[j - 1]), key(x)) {
            LexTotal(key(xs[0]), key(x));
            if j - 1 > 0 {
              LexTotal(key(xs[0]), key(xs[j - 1]));
              LexTransitive(key(xs[0]), key(xs[j - 1]), key(x));
            }
          }
        }
      }
    }
  }

  /** The result of the sort is in ascending key order. */
  lemma {:induction false} SortSorted<T>(xs: seq<T>, key: T -> string)
    ensures SortedBy(SortBy(xs, key), key)
    decreases |xs|
  {
    if xs != [] {
      SortSorted(xs[1..], key);
      InsertSorted(xs[0], SortBy(xs[1..], key), key);
    }
  }

  /** Sorting a sequence that is already in order changes nothing. */
  lemma {:induction false} SortOfSorted<T>(xs: seq<T>, key: T -> string)
    requires SortedBy(xs, key)
    ensures SortBy(xs, key) == xs
    decreases |xs|
  {
    if xs != [] {
      SortOfSorted(xs[1..], key);
      assert xs == [xs[0]] + xs[1..];
    }
  }

  /** Two such sequences start with the same element. */
  lemma SameHead<T>(a: seq<T>, b: seq<T>, key: T -> string)
    requires SortedBy(a, key) && SortedBy(b, key) && DistinctKeys(a, key)
    requires multiset(a) == multiset(b) && a != [] && b != []
    ensures a[0] == b[0]
  {
    assert a[0] in multiset(b) && b[0] in multiset(a);
    var i :| 0 <= i < |b| && b[i] == a[0];
    var k :| 0 <= k < |a| && a[k] == b[0];
    if k != 0 {
      // a[0] comes no later than b[0] in `a`, and b[0] no later than a[0] in `b`.
      assert !LexLess(key(a[k]), key(a[0]));
      if i != 0 {
        assert !LexLess(key(b[i]), key(b[0]));
      }
      LexTotal(key(a[0]), key(a[k]));
      assert false;
    }
  }

  /** Removing the same first element from equal multisets leaves equal multisets. */
  lemma TailMultiset<T>(a: seq<T>, b: seq<T>)
    requires a != [] && b != [] && a[0] == b[0] && multiset(a) == multiset(b)
    ensures multiset(a[1..]) == multiset(b[1..])
  {
    assert a == [a[0]] + a[1..] && b == [b[0]] + b[1..];
    assert multiset(a[1..]) == multiset(a) - multiset{a[0]};
    assert multiset(b[1..]) == multiset(b) - multiset{b[0]};
  }

  /**
   * Two sequences in key order with the same elements and no repeated key
   * are the same sequence: the sorted order of such elements is unique.
   */
  lemma {:induction false} SortedUnique<T>(a: seq<T>, b: seq<T>, key: T -> string)
    requires SortedBy(a, key) && SortedBy(b, key) && DistinctKeys(a, key)
    requires multiset(a) == multiset(b)
    ensures a == b
    decreases |a|
  {
    assert |a| == |multiset(a)| == |multiset(b)| == |b|;
    if a != [] {
      SameHead(a, b, key);
      TailMultiset(a, b);
      TailSorted(a, key);
      TailSorted(b, key);
      assert DistinctKeys(a[1..], key);
      SortedUnique(a[1..], b[1..], key);
      assert a == [a[0]] + a[1..] && b == [b[0]] + b[1..];
    }
  }

  /** Sorting depends only on which elements there are, when no key repeats. */
  lemma SortCanonical<T>(xs: seq<T>, ys: seq<T>, key: T -> string)
    requires multiset(xs) == multiset(ys) && DistinctKeys(SortBy(xs, key), key)
    ensures SortBy(xs, key) == SortBy(ys, key)
  {
    SortSorted(xs, key);
    SortSorted(ys, key);
    SortedUnique(SortBy(xs, key), SortBy(ys, key), key);
  }

  /** Inserting an element whose key is new keeps the keys distinct. */
  lemma {:induction false} InsertDistinct<T>(x: T, ys: seq<T>, key: T -> string)
    requires DistinctKeys(ys, key)
    requires forall i :: 0 <= i < |ys| ==> key(ys[i]) != key(x)
    ensures DistinctKeys(InsertBy(x, ys, key), key)
    decreases |ys|
  {
    if ys != [] && LexLess(key(ys[0]), key(x)) {
      InsertDistinct(x, ys[1..], key);
      var rest := InsertBy(x, ys[1..], key);
      var r := InsertBy(x, ys, key);
      assert r == [ys[0]] + rest;
      forall j | 0 < j < |r|
        ensures key(r[j]) != key(r[0])
      {
        assert r[j] in multiset(rest);
        if r[j] != x {
          assert r[j] in multiset(ys[1..]);
          var k :| 0 <= k < |ys[1..]| && ys[1..][k] == r[j];
          assert r[j] == ys[k + 1];
        }
      }
    }
  }

  /** Sorting keeps distinct keys distinct. */
  lemma {:induction false} SortDistinct<T>(xs: seq<T>, key: T -> string)
    requires DistinctKeys(xs, key)
    ensures DistinctKeys(SortBy(xs, key), key)
    decreases |xs|
  {
    if xs != [] {
      assert DistinctKeys(xs[1..], key);
      SortDistinct(xs[1..], key);
      var s := SortBy(xs[1..], key);
      forall i | 0 <= i < |s|
        ensures key(s[i]) != key(xs[0])
      {
        assert s[i] in multiset(xs[1..]);
        var k :| 0 <= k < |xs[1..]| && xs[1..][k] == s[i];
        assert s[i] == xs[k + 1];
      }
      InsertDistinct(xs[0], s, key);
    }
  }
}
