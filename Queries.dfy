/**
  The query pipeline the list handlers build over a table:
  enumerate the rows, keep those matching a `Where` predicate,
  `OrderBy(...).ThenBy(...)` on string keys, and `Select` a projection.

  A table is a finite map from key to row. Enumeration visits rows in
  ascending key order; the model promises nothing about it beyond that
  every row is visited once, because the sort decides the order of the result
  except among rows whose sort keys are equal.
 */
module Queries {
  import opened Text

  /** No element occurs twice. */
  predicate Distinct<T(==)>(xs: seq<T>) {
    forall i, j :: 0 <= i < j < |xs| ==> xs[i] != xs[j]
  }

  /** Lexicographic order on tuples of string keys: `OrderBy` on the first key,
      `ThenBy` on the next one, and so on. */
  predicate KeyLessOrEqual(a: seq<string>, b: seq<string>) {
    a == [] || (b != [] && ((LessOrEqual(a[0], b[0]) && a[0] != b[0]) || (a[0] == b[0] && KeyLessOrEqual(a[1..], b[1..]))))
  }

  lemma {:induction false} KeyLessOrEqualTotal(a: seq<string>, b: seq<string>)
    ensures KeyLessOrEqual(a, b) || KeyLessOrEqual(b, a)
  {
    if a != [] && b != [] {
      LessOrEqualTotal(a[0], b[0]);
      if a[0] == b[0] {
        KeyLessOrEqualTotal(a[1..], b[1..]);
      }
    }
  }

  lemma {:induction false} KeyLessOrEqualTransitive(a: seq<string>, b: seq<string>, c: seq<string>)
    requires KeyLessOrEqual(a, b) && KeyLessOrEqual(b, c)
    ensures KeyLessOrEqual(a, c)
  {
    if a != [] {
      assert b != [] && c != [];
      if a[0] == b[0] && b[0] == c[0] {
        KeyLessOrEqualTransitive(a[1..], b[1..], c[1..]);
      } else if a[0] != b[0] && b[0] != c[0] {
        LessOrEqualTransitive(a[0], b[0], c[0]);
        if a[0] == c[0] {
          LessOrEqualAntisymmetric(a[0], b[0]);
        }
      }
    }
  }

  /** `xs` is ordered by `key`. */
  predicate SortedBy<T>(xs: seq<T>, key: T -> seq<string>) {
    forall i, j :: 0 <= i < j < |xs| ==> KeyLessOrEqual(key(xs[i]), key(xs[j]))
  }

  lemma {:induction false} Multiplicity<T>(xs: seq<T>)
    ensures Distinct(xs) <==> forall x :: multiset(xs)[x] <= 1
  {
    if xs != [] {
      var t := xs[1..];
      assert xs == [xs[0]] + t;
      Multiplicity(t);
      if Distinct(xs) {
        assert Distinct(t) by {
          forall i, j | 0 <= i < j < |t| ensures t[i] != t[j] {
            assert t[i] == xs[i + 1] && t[j] == xs[j + 1];
          }
        }
        assert xs[0] !in t by {
          forall j | 0 <= j < |t| ensures t[j] != xs[0] {
            assert t[j] == xs[j + 1];
          }
        }
      } else if forall x :: multiset(xs)[x] <= 1 {
        assert forall x :: multiset(t)[x] <= multiset(xs)[x];
        assert multiset(t)[xs[0]] == 0;
        forall i, j | 0 <= i < j < |xs| ensures xs[i] != xs[j] {
          if i == 0 {
            assert xs[j] == t[j - 1];
          } else {
            assert xs[i] == t[i - 1] && xs[j] == t[j - 1];
          }
        }
        assert false;
      }
    }
  }

  /** A sequence whose elements all occur in a sequence without repetitions,
      no more often than there, has no repetitions either. */
  lemma DistinctSubMultiset<T>(xs: seq<T>, ys: seq<T>)
    requires Distinct(xs) && multiset(ys) <= multiset(xs)
    ensures Distinct(ys)
  {
    Multiplicity(xs);
    Multiplicity(ys);
  }

  /** The smallest key of a non-empty set. */
  function Min(ks: set<nat>): (k: nat)
    requires ks != {}
    ensures k in ks && forall j :: j in ks ==> k <= j
  {
    MinExists(ks);
    var k :| IsMin(k, ks);
    k
  }

  predicate IsMin(k: nat, ks: set<nat>) {
    k in ks && forall j :: j in ks ==> k <= j
  }

  lemma {:induction false} MinExists(ks: set<nat>)
    requires ks != {}
    ensures exists k :: IsMin(k, ks)
    decreases ks
  {
    var a :| a in ks;
    var rest := ks - {a};
    if rest == {} {
      assert ks == {a};
      assert IsMin(a, ks);
    } else {
      MinExists(rest);
      var b :| IsMin(b, rest);
      forall j | j in ks ensures j == a || j in rest {}
      if a < b {
        assert IsMin(a, ks);
      } else {
        assert IsMin(b, ks);
      }
    }
  }

  /** The keys of a table in ascending order, each once. */
  function SortedKeys(ks: set<nat>): (r: seq<nat>)
    ensures |r| == |ks|
    ensures forall k :: k in r <==> k in ks
    ensures forall i, j :: 0 <= i < j < |r| ==> r[i] < r[j]
    decreases ks
  {
    if ks == {} then []
    else
      var k := Min(ks);
      var rest := SortedKeys(ks - {k});
      PrependMin(ks, k, rest);
      [k] + rest
  }

  lemma PrependMin(ks: set<nat>, k: nat, rest: seq<nat>)
    requires IsMin(k, ks)
    requires |rest| == |ks - {k}|
    requires forall j :: j in rest <==> j in ks - {k}
    requires forall i, j :: 0 <= i < j < |rest| ==> rest[i] < rest[j]
    ensures |[k] + rest| == |ks|
    ensures forall j :: j in [k] + rest <==> j in ks
    ensures forall i, j :: 0 <= i < j < |[k] + rest| ==> ([k] + rest)[i] < ([k] + rest)[j]
  {
    var r := [k] + rest;
    forall i, j | 0 <= i < j < |r| ensures r[i] < r[j] {
      if i == 0 {
        assert r[j] == rest[j - 1] && r[j] in ks - {k};
      } else {
        assert r[i] == rest[i - 1] && r[j] == rest[j - 1];
      }
    }
  }

  /** Enumerates a table: one row per key, in ascending key order. */
  function Rows<E(==)>(m: map<nat, E>): (r: seq<E>)
    ensures |r| == |m|
    ensures forall k :: k in m ==> m[k] in r
    ensures forall e :: e in r ==> e in m.Values
  {
    var ks := SortedKeys(m.Keys);
    var r := RowsAt(m, ks);
    assert forall k :: k in m ==> m[k] in r by {
      forall k | k in m ensures m[k] in r {
        var i :| 0 <= i < |ks| && ks[i] == k;
        assert r[i] == m[k];
      }
    }
    assert forall e :: e in r ==> e in m.Values by {
      forall e | e in r ensures e in m.Values {
        var i :| 0 <= i < |r| && r[i] == e;
        assert m[ks[i]] == e;
      }
    }
    r
  }

  /** The rows stored under the keys `ks`, in that order. */
  function RowsAt<E>(m: map<nat, E>, ks: seq<nat>): (r: seq<E>)
    requires forall k :: k in ks ==> k in m
    ensures |r| == |ks| && forall i :: 0 <= i < |ks| ==> r[i] == m[ks[i]]
  {
    if ks == [] then [] else [m[ks[0]]] + RowsAt(m, ks[1..])
  }

  /** When every row carries its own key, enumeration yields no row twice. */
  lemma RowsDistinct<E>(m: map<nat, E>, id: E -> nat)
    requires forall k :: k in m ==> id(m[k]) == k
    ensures Distinct(Rows(m))
  {
    var ks := SortedKeys(m.Keys);
    var r := Rows(m);
    assert r == RowsAt(m, ks);
    forall i, j | 0 <= i < j < |r| ensures r[i] != r[j] {
      assert id(r[i]) == ks[i] && id(r[j]) == ks[j];
    }
  }

  /** `Where`: the elements satisfying `p`, in their original order. */
  function Where<T(!new)>(xs: seq<T>, p: T -> bool): (r: seq<T>)
    ensures multiset(r) <= multiset(xs)
    ensures forall x :: x in r <==> x in xs && p(x)
    ensures (forall i :: 0 <= i < |xs| ==> p(xs[i])) ==> r == xs
  {
    if xs == [] then []
    else
      assert xs == [xs[0]] + xs[1..];
      (if p(xs[0]) then [xs[0]] else []) + Where(xs[1..], p)
  }

  /** Two successive `Where` clauses keep what their conjunction keeps. */
  lemma {:induction false} WhereWhere<T(!new)>(xs: seq<T>, p: T -> bool, q: T -> bool, pq: T -> bool)
    requires forall x :: pq(x) == (p(x) && q(x))
    ensures Where(Where(xs, p), q) == Where(xs, pq)
  {
    if xs != [] {
      WhereWhere(xs[1..], p, q, pq);
      var rest := Where(xs[1..], p);
      if p(xs[0]) {
        assert Where(xs, p) == [xs[0]] + rest;
        assert ([xs[0]] + rest)[1..] == rest;
      } else {
        assert Where(xs, p) == rest;
      }
    }
  }

  /** Inserts `x` before the first element whose key is not below `x`'s. */
  function InsertByKey<T>(x: T, xs: seq<T>, key: T -> seq<string>): (r: seq<T>)
    ensures multiset(r) == multiset(xs) + multiset{x}
    ensures SortedBy(xs, key) ==> SortedBy(r, key)
  {
    if xs == [] || KeyLessOrEqual(key(x), key(xs[0])) then
      InsertFrontSorted(x, xs, key);
      [x] + xs
    else
      var rest := InsertByKey(x, xs[1..], key);
      assert xs == [xs[0]] + xs[1..];
      InsertBehindSorted(x, xs, rest, key);
      [xs[0]] + rest
  }

  lemma InsertFrontSorted<T>(x: T, xs: seq<T>, key: T -> seq<string>)
    requires xs == [] || KeyLessOrEqual(key(x), key(xs[0]))
    ensures SortedBy(xs, key) ==> SortedBy([x] + xs, key)
  {
    if SortedBy(xs, key) {
      var r := [x] + xs;
      forall i, j | 0 <= i < j < |r| ensures KeyLessOrEqual(key(r[i]), key(r[j])) {
        if i == 0 && j > 1 {
          KeyLessOrEqualTransitive(key(x), key(xs[0]), key(xs[j - 1]));
        }
      }
    }
  }

  lemma InsertBehindSorted<T>(x: T, xs: seq<T>, rest: seq<T>, key: T -> seq<string>)
    requires xs != [] && !KeyLessOrEqual(key(x), key(xs[0]))
    requires multiset(rest) == multiset(xs[1..]) + multiset{x}
    requires SortedBy(xs[1..], key) ==> SortedBy(rest, key)
    ensures SortedBy(xs, key) ==> SortedBy([xs[0]] + rest, key)
  {
    if SortedBy(xs, key) {
      KeyLessOrEqualTotal(key(x), key(xs[0]));
      var r := [xs[0]] + rest;
      forall i, j | 0 <= i < j < |r| ensures KeyLessOrEqual(key(r[i]), key(r[j])) {
        if i == 0 {
          var y := r[j];
          assert y in multiset(rest);
          if y != x {
            assert y in xs[1..];
            var k :| 0 <= k < |xs[1..]| && xs[1..][k] == y;
            assert xs[k + 1] == y;
          }
        }
      }
    }
  }

  /** `OrderBy` (stable insertion sort): a permutation of `xs` ordered by `key`. */
  function OrderBy<T>(xs: seq<T>, key: T -> seq<string>): (r: seq<T>)
    ensures multiset(r) == multiset(xs)
    ensures SortedBy(r, key)
  {
    if xs == [] then []
    else
      assert xs == [xs[0]] + xs[1..];
      InsertByKey(xs[0], OrderBy(xs[1..], key), key)
  }

  /** `Select`: the projection of each element, in order. */
  function Select<T, U>(xs: seq<T>, f: T -> U): seq<U> {
    seq(|xs|, i requires 0 <= i < |xs| => f(xs[i]))
  }

  /** Two sequences that are permutations of each other have the same elements. */
  lemma SameElements<T>(a: seq<T>, b: seq<T>)
    requires multiset(a) == multiset(b)
    ensures forall x :: x in a <==> x in b
  {
    forall x ensures x in a <==> x in b {
      assert x in a <==> x in multiset(a);
      assert x in b <==> x in multiset(b);
    }
  }

  /** The rows of `m` satisfying `p`, ordered by `key`. */
  function Query<E(!new,==)>(m: map<nat, E>, p: E -> bool, key: E -> seq<string>): (r: seq<E>)
    ensures SortedBy(r, key)
    ensures forall e :: e in r <==> e in m.Values && p(e)
    ensures multiset(r) <= multiset(Rows(m))
  {
    var w := Where(Rows(m), p);
    var r := OrderBy(w, key);
    SameElements(w, r);
    r
  }

  /** With a predicate every row satisfies, the query keeps every row. */
  lemma QueryKeepsAll<E(!new)>(m: map<nat, E>, p: E -> bool, key: E -> seq<string>)
    requires forall e :: p(e)
    ensures |Query(m, p, key)| == |m|
  {
    var rows := Rows(m);
    var w := Where(rows, p);
    assert w == rows;
    var r := OrderBy(w, key);
    assert |r| == |multiset(r)| == |multiset(w)| == |w|;
  }

  /** When every row carries its own key, each row a query returns is the row stored under its key. */
  lemma QueryRowsStored<E(!new)>(m: map<nat, E>, p: E -> bool, key: E -> seq<string>, id: E -> nat)
    requires forall k :: k in m ==> id(m[k]) == k
    ensures forall e :: e in Query(m, p, key) ==> id(e) in m && m[id(e)] == e
  {
    forall e | e in Query(m, p, key) ensures id(e) in m && m[id(e)] == e {
      var k :| k in m && m[k] == e;
    }
  }

  /** A projection that keeps the sort key keeps the query result sorted. */
  lemma QueryProjectionSorted<E(!new), D>(m: map<nat, E>, p: E -> bool, key: E -> seq<string>,
                                          dto: E -> D, dtoKey: D -> seq<string>)
    requires forall e :: dtoKey(dto(e)) == key(e)
    ensures SortedBy(Select(Query(m, p, key), dto), dtoKey)
  {
    var q := Query(m, p, key);
    var r := Select(q, dto);
    forall i, j | 0 <= i < j < |r| ensures KeyLessOrEqual(dtoKey(r[i]), dtoKey(r[j])) {
      assert dtoKey(r[i]) == key(q[i]) && dtoKey(r[j]) == key(q[j]);
    }
  }

  /**
    Over a table whose rows carry their own key (`id`), with a projection that
    keeps that key (`dtoId`), the projected result holds no key twice.
   */
  lemma QueryProjectionKeysDistinct<E(!new), D>(m: map<nat, E>, p: E -> bool, key: E -> seq<string>,
                                                id: E -> nat, dto: E -> D, dtoId: D -> nat)
    requires forall k :: k in m ==> id(m[k]) == k
    requires forall e :: dtoId(dto(e)) == id(e)
    ensures var r := Select(Query(m, p, key), dto); forall i, j :: 0 <= i < j < |r| ==> dtoId(r[i]) != dtoId(r[j])
  {
    var q := Query(m, p, key);
    var r := Select(q, dto);
    QueryRowsStored(m, p, key, id);
    assert Distinct(q) by {
      RowsDistinct(m, id);
      DistinctSubMultiset(Rows(m), q);
    }
    forall i, j | 0 <= i < j < |r| ensures dtoId(r[i]) != dtoId(r[j]) {
      assert q[i] in q && q[j] in q;
      assert dtoId(r[i]) == id(q[i]) && dtoId(r[j]) == id(q[j]);
    }
  }

  /**
    Under the same conditions, the projected result holds exactly the
    projections of the rows satisfying `p`.
   */
  lemma QueryProjectionMembers<E(!new), D>(m: map<nat, E>, p: E -> bool, key: E -> seq<string>,
                                           id: E -> nat, dto: E -> D, dtoId: D -> nat)
    requires forall k :: k in m ==> id(m[k]) == k
    requires forall e :: dtoId(dto(e)) == id(e)
    ensures forall d :: d in Select(Query(m, p, key), dto) <==> dtoId(d) in m && p(m[dtoId(d)]) && d == dto(m[dtoId(d)])
  {
    var q := Query(m, p, key);
    var r := Select(q, dto);
    QueryRowsStored(m, p, key, id);
    forall d | d in r ensures dtoId(d) in m && p(m[dtoId(d)]) && d == dto(m[dtoId(d)]) {
      var i :| 0 <= i < |r| && r[i] == d;
      assert q[i] in q;
      assert dtoId(d) == id(q[i]);
    }
    forall d | dtoId(d) in m && p(m[dtoId(d)]) && d == dto(m[dtoId(d)]) ensures d in r {
      var e := m[dtoId(d)];
      assert e in m.Values;
      assert e in q;
      var i :| 0 <= i < |q| && q[i] == e;
      assert r[i] == d;
    }
  }
}
