/**
 * Python's `sorted(xs, key=k)` for string keys: a stable insertion sort whose
 * result is an ascending permutation of its input.
 */
module Sorting {
  import opened Text

  /** xs is in ascending order of key. */
  predicate SortedBy<T>(xs: seq<T>, key: T -> string)
  {
    forall i, j :: 0 <= i < j < |xs| ==> LexLe(key(xs[i]), key(xs[j]))
  }

  /** ys with x placed after every element whose key is not above x's and before the rest. */
  function Insert<T(==)>(ys: seq<T>, x: T, key: T -> string): (r: seq<T>)
    ensures |r| == |ys| + 1
    ensures multiset(r) == multiset(ys) + multiset{x}
  {
    if |ys| == 0 then [x]
    else if LexLe(key(ys[|ys| - 1]), key(x)) then
      assert ys == ys[..|ys| - 1] + [ys[|ys| - 1]];
      ys + [x]
    else
      assert ys == ys[..|ys| - 1] + [ys[|ys| - 1]];
      Insert(ys[..|ys| - 1], x, key) + [ys[|ys| - 1]]
  }

  /** Inserting into a sorted sequence keeps it sorted. */
  lemma {:induction false} InsertSorted<T>(ys: seq<T>, x: T, key: T -> string)
    requires SortedBy(ys, key)
    ensures SortedBy(Insert(ys, x, key), key)
    decreases |ys|
  {
    if |ys| > 0 {
      var last := ys[|ys| - 1];
      var init := ys[..|ys| - 1];
      if LexLe(key(last), key(x)) {
        var r := ys + [x];
        forall i, j | 0 <= i < j < |r|
          ensures LexLe(key(r[i]), key(r[j]))
        {
          if j == |ys| && i < |ys| - 1 {
            LexLeTransitive(key(r[i]), key(last), key(x));
          }
        }
      } else {
        LexLeTotal(key(last), key(x));
        InsertSorted(init, x, key);
        var m := Insert(init, x, key);
        var r := m + [last];
        forall i | 0 <= i < |m|
          ensures LexLe(key(m[i]), key(last))
        {
          assert m[i] in multiset(m);
          if m[i] != x {
            assert m[i] in multiset(init);
            var k :| 0 <= k < |init| && init[k] == m[i];
            assert ys[k] == m[i];
          }
        }
        forall i, j | 0 <= i < j < |r|
          ensures LexLe(key(r[i]), key(r[j]))
        {
          if j == |m| {
            assert r[i] == m[i];
          } else {
            assert r[i] == m[i] && r[j] == m[j];
          }
        }
      }
    }
  }

  /** `sorted(xs, key=key)`: the elements of xs in ascending key order, equal keys in their input order. */
  function SortBy<T(==)>(xs: seq<T>, key: T -> string): (r: seq<T>)
    ensures |r| == |xs|
    ensures multiset(r) == multiset(xs)
    ensures SortedBy(r, key)
  {
    if |xs| == 0 then []
    else
      var init := xs[..|xs| - 1];
      var s := SortBy(init, key);
      InsertSorted(s, xs[|xs| - 1], key);
      assert xs == init + [xs[|xs| - 1]];
      Insert(s, xs[|xs| - 1], key)
  }

  /** Two sequences holding the same multiset hold the same elements. */
  lemma SameMembers<T>(a: seq<T>, b: seq<T>)
    requires multiset(a) == multiset(b)
    ensures forall x :: x in a <==> x in b
  {
    assert forall x :: x in a <==> x in multiset(a);
    assert forall x :: x in b <==> x in multiset(b);
  }

  /** The first element of a sorted sequence has the least key. */
  lemma SortedHeadLeast<T>(a: seq<T>, key: T -> string, i: nat)
    requires SortedBy(a, key) && i < |a|
    ensures LexLe(key(a[0]), key(a[i]))
  {
    LexLeReflexive(key(a[0]));
  }

  /** Dropping the first element keeps a sequence sorted. */
  lemma SortedTail<T>(a: seq<T>, key: T -> string)
    requires SortedBy(a, key) && |a| > 0
    ensures SortedBy(a[1..], key)
  {
    assert forall i :: 0 <= i < |a| - 1 ==> a[1..][i] == a[i + 1];
  }

  /** Two arrangements of the same elements that start alike agree on the rest. */
  lemma MultisetTail<T>(a: seq<T>, b: seq<T>)
    requires multiset(a) == multiset(b) && |a| > 0 && |b| > 0 && a[0] == b[0]
    ensures multiset(a[1..]) == multiset(b[1..])
  {
    assert a == [a[0]] + a[1..] && b == [b[0]] + b[1..];
    assert multiset(a[1..]) == multiset(a) - multiset{a[0]};
    assert multiset(b[1..]) == multiset(b) - multiset{b[0]};
  }

  /**
   * When no two elements share a key, the sorted order is the only one: two
   * sorted arrangements of the same elements coincide.
   */
  lemma {:induction false} SortedUnique<T>(a: seq<T>, b: seq<T>, key: T -> string)
    requires multiset(a) == multiset(b)
    requires SortedBy(a, key) && SortedBy(b, key)
    requires forall i, j :: 0 <= i < j < |a| ==> key(a[i]) != key(a[j])
    ensures a == b
    decreases |a|
  {
    assert |a| == |multiset(a)| == |b|;
    if |a| > 0 {
      assert b[0] in multiset(a);
      var i :| 0 <= i < |a| && a[i] == b[0];
      assert a[0] in multiset(b);
      var j :| 0 <= j < |b| && b[j] == a[0];
      SortedHeadLeast(a, key, i);
      SortedHeadLeast(b, key, j);
      LexLeAntisymmetric(key(a[0]), key(b[0]));
      assert i == 0;
      MultisetTail(a, b);
      SortedTail(a, key);
      SortedTail(b, key);
      assert forall i, j :: 0 <= i < j < |a| - 1 ==> a[1..][i] == a[i + 1] && a[1..][j] == a[j + 1];
      SortedUnique(a[1..], b[1..], key);
      assert a == [a[0]] + a[1..] && b == [b[0]] + b[1..];
    }
  }
}
