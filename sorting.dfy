/**
 * `Array.prototype.sort` with a consistent comparator. Since ES2019 the sort is
 * stable, and a stable sort's result is fully determined by the comparator and
 * the input order, so it is modelled here as a stable insertion sort on a key:
 * `le(key(a), key(b))` means `a` may stay before `b`.
 */
module Sorting {

  /** `le` is total and transitive (so also reflexive): what a consistent comparator induces. */
  ghost predicate TotalPreorder<K(!new)>(le: (K, K) -> bool) {
    && (forall x, y :: le(x, y) || le(y, x))
    && (forall x, y, z :: le(x, y) && le(y, z) ==> le(x, z))
  }

  /** Every element may stay before every later element. */
  ghost predicate SortedBy<T, K>(s: seq<T>, key: T -> K, le: (K, K) -> bool) {
    forall i, j :: 0 <= i < j < |s| ==> le(key(s[i]), key(s[j]))
  }

  /** Places `x` before the first element it may precede. */
  function Insert<T, K>(x: T, s: seq<T>, key: T -> K, le: (K, K) -> bool): (r: seq<T>)
    ensures |r| == |s| + 1
    ensures multiset(r) == multiset{x} + multiset(s)
  {
    if s == [] || le(key(x), key(s[0])) then [x] + s
    else
      assert s == [s[0]] + s[1..];
      [s[0]] + Insert(x, s[1..], key, le)
  }

  /** The stable sort of `s`: its result is a permutation of `s`. */
  function Sort<T, K>(s: seq<T>, key: T -> K, le: (K, K) -> bool): (r: seq<T>)
    ensures |r| == |s|
    ensures multiset(r) == multiset(s)
  {
    if s == [] then []
    else
      assert s == [s[0]] + s[1..];
      Insert(s[0], Sort(s[1..], key, le), key, le)
  }

  lemma {:induction false} InsertSorted<T, K(!new)>(x: T, s: seq<T>, key: T -> K, le: (K, K) -> bool)
    requires TotalPreorder(le) && SortedBy(s, key, le)
    ensures SortedBy(Insert(x, s, key, le), key, le)
  {
    if s == [] || le(key(x), key(s[0])) {
      var r := [x] + s;
      forall i, j | 0 <= i < j < |r| ensures le(key(r[i]), key(r[j])) {
        if i == 0 && j > 1 {
          assert le(key(s[0]), key(s[j - 1]));
        }
      }
    } else {
      var t := s[1..];
      InsertSorted(x, t, key, le);
      var u := Insert(x, t, key, le);
      var r := [s[0]] + u;
      assert le(key(s[0]), key(x));
      forall j | 0 <= j < |u| ensures le(key(s[0]), key(u[j])) {
        assert u[j] in multiset(u);
        if u[j] != x {
          assert u[j] in multiset(t);
          var k :| 0 <= k < |t| && t[k] == u[j];
          assert t[k] == s[k + 1];
        }
      }
      forall i, j | 0 <= i < j < |r| ensures le(key(r[i]), key(r[j])) {
        if i > 0 {
          assert r[i] == u[i - 1] && r[j] == u[j - 1];
        } else {
          assert r[j] == u[j - 1];
        }
      }
    }
  }

  /** The result of `Sort` is in order. */
  lemma {:induction false} SortSorted<T, K(!new)>(s: seq<T>, key: T -> K, le: (K, K) -> bool)
    requires TotalPreorder(le)
    ensures SortedBy(Sort(s, key, le), key, le)
  {
    if s != [] {
      SortSorted(s[1..], key, le);
      InsertSorted(s[0], Sort(s[1..], key, le), key, le);
    }
  }

  /** The elements of `s` whose key is `v`, in their order in `s`. */
  function KeyFilter<T, K(==)>(s: seq<T>, key: T -> K, v: K): seq<T> {
    if s == [] then [] else (if key(s[0]) == v then [s[0]] else []) + KeyFilter(s[1..], key, v)
  }

  lemma KeyFilterCons<T, K>(x: T, s: seq<T>, key: T -> K, v: K)
    ensures KeyFilter([x] + s, key, v) == (if key(x) == v then [x] else []) + KeyFilter(s, key, v)
  {
    assert ([x] + s)[1..] == s;
  }

  /** Inserting only needs `le` to be reflexive to keep equal keys in order. */
  lemma {:induction false} InsertStable<T, K(!new)>(x: T, s: seq<T>, key: T -> K, le: (K, K) -> bool, v: K)
    requires forall k :: le(k, k)
    ensures KeyFilter(Insert(x, s, key, le), key, v)
         == (if key(x) == v then [x] else []) + KeyFilter(s, key, v)
  {
    if s == [] || le(key(x), key(s[0])) {
      assert Insert(x, s, key, le) == [x] + s;
      KeyFilterCons(x, s, key, v);
    } else {
      var t := Insert(x, s[1..], key, le);
      var kx := if key(x) == v then [x] else [];
      var k0 := if key(s[0]) == v then [s[0]] else [];
      assert kx == [] || k0 == [] by {
        assert le(key(x), key(x));
      }
      calc {
        KeyFilter(Insert(x, s, key, le), key, v);
        { assert Insert(x, s, key, le) == [s[0]] + t; }
        KeyFilter([s[0]] + t, key, v);
        { KeyFilterCons(s[0], t, key, v); }
        k0 + KeyFilter(t, key, v);
        { InsertStable(x, s[1..], key, le, v); }
        k0 + (kx + KeyFilter(s[1..], key, v));
        kx + (k0 + KeyFilter(s[1..], key, v));
        { KeyFilterCons(s[0], s[1..], key, v); assert [s[0]] + s[1..] == s; }
        kx + KeyFilter(s, key, v);
      }
    }
  }

  /**
   * Stability: for every key value, the elements with that key appear in the
   * result in the same order as in the input.
   */
  lemma {:induction false} SortStable<T, K(!new)>(s: seq<T>, key: T -> K, le: (K, K) -> bool, v: K)
    requires TotalPreorder(le)
    ensures KeyFilter(Sort(s, key, le), key, v) == KeyFilter(s, key, v)
  {
    if s != [] {
      assert forall k :: le(k, k);
      SortStable(s[1..], key, le, v);
      InsertStable(s[0], Sort(s[1..], key, le), key, le, v);
    }
  }
}
