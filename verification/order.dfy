/**
 * Python's ordering of `str` values (code point by code point, a proper prefix
 * first) and the sorts built on it: `sorted(...)` of a list or a set and
 * pandas' `sort_values` on one string column.
 */
module StringOrder {
  import opened Seqs

  /** `a < b` on Python strings. */
  predicate Lt(a: string, b: string) {
    if a == [] then b != []
    else if b == [] then false
    else if a[0] != b[0] then a[0] < b[0]
    else Lt(a[1..], b[1..])
  }

  /** `a <= b` on Python strings. */
  predicate Le(a: string, b: string) {
    a == b || Lt(a, b)
  }

  lemma {:induction false} LtIrreflexive(a: string)
    ensures !Lt(a, a)
  {
    if a != [] { LtIrreflexive(a[1..]); }
  }

  lemma {:induction false} LtAsymmetric(a: string, b: string)
    requires Lt(a, b)
    ensures !Lt(b, a)
  {
    if a != [] && b != [] && a[0] == b[0] { LtAsymmetric(a[1..], b[1..]); }
  }

  lemma {:induction false} LtTransitive(a: string, b: string, c: string)
    requires Lt(a, b) && Lt(b, c)
    ensures Lt(a, c)
  {
    if a != [] && a[0] == b[0] && b[0] == c[0] { LtTransitive(a[1..], b[1..], c[1..]); }
  }

  /** The order is total: two different strings are always comparable. */
  lemma {:induction false} LtTotal(a: string, b: string)
    requires a != b
    ensures Lt(a, b) || Lt(b, a)
  {
    if a != [] && b != [] && a[0] == b[0] {
      assert a == [a[0]] + a[1..] && b == [b[0]] + b[1..];
      LtTotal(a[1..], b[1..]);
    }
  }

  lemma LeTransitive(a: string, b: string, c: string)
    requires Le(a, b) && Le(b, c)
    ensures Le(a, c)
  {
    if a != b && b != c { LtTransitive(a, b, c); }
  }

  lemma LeTotal(a: string, b: string)
    ensures Le(a, b) || Le(b, a)
  {
    if a != b { LtTotal(a, b); }
  }

  /** Ascending and duplicate-free. */
  predicate StrictlySorted(s: seq<string>) {
    forall i, j :: 0 <= i < j < |s| ==> Lt(s[i], s[j])
  }

  /** Ascending by `key`, ties allowed. */
  predicate SortedBy<T>(s: seq<T>, key: T -> string) {
    forall i, j :: 0 <= i < j < |s| ==> Le(key(s[i]), key(s[j]))
  }

  /** Inserts `x` before the first element whose key is not smaller. */
  function InsertBy<T>(x: T, ys: seq<T>, key: T -> string): (r: seq<T>)
    ensures multiset(r) == multiset(ys) + multiset{x}
    ensures Elems(r) == Elems(ys) + {x}
    ensures |r| == |ys| + 1
  {
    if ys == [] || Le(key(x), key(ys[0])) then [x] + ys
    else
      assert ys == [ys[0]] + ys[1..];
      var t := InsertBy(x, ys[1..], key);
      assert Elems([ys[0]] + t) == {ys[0]} + Elems(t);
      assert Elems(ys) == {ys[0]} + Elems(ys[1..]);
      [ys[0]] + t
  }

  lemma {:induction false} InsertBySorted<T>(x: T, ys: seq<T>, key: T -> string)
    requires SortedBy(ys, key)
    ensures SortedBy(InsertBy(x, ys, key), key)
  {
    var r := InsertBy(x, ys, key);
    if ys == [] || Le(key(x), key(ys[0])) {
      forall i, j | 0 <= i < j < |r| ensures Le(key(r[i]), key(r[j])) {
        if i == 0 && j > 1 { LeTransitive(key(x), key(ys[0]), key(ys[j - 1])); }
      }
    } else {
      var tail := InsertBy(x, ys[1..], key);
      InsertBySorted(x, ys[1..], key);
      LeTotal(key(x), key(ys[0]));
      forall k | 0 <= k < |tail| ensures Le(key(ys[0]), key(tail[k])) {
        assert tail[k] in multiset(tail);
        if tail[k] != x {
          assert tail[k] in multiset(ys[1..]);
          var m :| 0 <= m < |ys[1..]| && ys[1..][m] == tail[k];
          assert ys[m + 1] == tail[k];
        }
      }
    }
  }

  /** Insertion sort by `key`, stable. */
  function SortBy<T>(s: seq<T>, key: T -> string): (r: seq<T>)
    ensures multiset(r) == multiset(s)
    ensures SortedBy(r, key)
  {
    if s == [] then []
    else
      assert s == [s[0]] + s[1..];
      var t := SortBy(s[1..], key);
      InsertBySorted(s[0], t, key);
      InsertBy(s[0], t, key)
  }

  /** Sorting an already sorted sequence leaves it unchanged. */
  lemma {:induction false} SortBySortedIsIdentity<T>(s: seq<T>, key: T -> string)
    requires SortedBy(s, key)
    ensures SortBy(s, key) == s
  {
    if s != [] {
      SortBySortedIsIdentity(s[1..], key);
      assert s == [s[0]] + s[1..];
    }
  }

  function Id(s: string): string { s }

  /**
   * A strictly sorted sequence is determined by its set of elements, so
   * `sorted(some_set)` does not depend on how the set was filled.
   */
  lemma {:induction false} StrictlySortedUnique(a: seq<string>, b: seq<string>)
    requires StrictlySorted(a) && StrictlySorted(b)
    requires Elems(a) == Elems(b)
    ensures a == b
  {
    if a == [] || b == [] {
      ElemsEmpty(a);
      ElemsEmpty(b);
    } else {
      if a[0] != b[0] {
        assert a[0] in Elems(b);
        var j :| 0 <= j < |b| && b[j] == a[0];
        assert b[0] in Elems(a);
        var i :| 0 <= i < |a| && a[i] == b[0];
        assert Lt(b[0], a[0]) && Lt(a[0], b[0]);
        LtAsymmetric(a[0], b[0]);
      }
      forall x | x in a[1..] ensures x != a[0] {
        var k :| 0 <= k < |a[1..]| && a[1..][k] == x;
        assert a[k + 1] == x;
        LtIrreflexive(a[0]);
      }
      forall x | x in b[1..] ensures x != b[0] {
        var k :| 0 <= k < |b[1..]| && b[1..][k] == x;
        assert b[k + 1] == x;
        LtIrreflexive(b[0]);
      }
      assert a == [a[0]] + a[1..] && b == [b[0]] + b[1..];
      assert Elems(a) == {a[0]} + Elems(a[1..]);
      assert Elems(b) == {b[0]} + Elems(b[1..]);
      StrictlySortedUnique(a[1..], b[1..]);
    }
  }

  lemma {:induction false} MinExists(s: set<string>)
    requires s != {}
    ensures exists m :: m in s && forall y :: y in s ==> Le(m, y)
    decreases |s|
  {
    var x :| x in s;
    var rest := s - {x};
    if rest == {} {
      assert s == {x};
    } else {
      MinExists(rest);
      var m :| m in rest && forall y :: y in rest ==> Le(m, y);
      LeTotal(m, x);
      if Le(m, x) {
        assert forall y :: y in s ==> Le(m, y);
      } else {
        forall y | y in s ensures Le(x, y) {
          if y != x { LeTransitive(x, m, y); }
        }
      }
    }
  }

  /** The ascending list of the elements of a set: Python's `sorted(s)`. */
  ghost function SortedSeq(s: set<string>): (r: seq<string>)
    ensures StrictlySorted(r) && Elems(r) == s
    decreases |s|
  {
    if s == {} then []
    else
      MinExists(s);
      var m :| m in s && IsLeast(m, s);
      var rest := SortedSeq(s - {m});
      LeastFirst(m, s, rest);
      [m] + rest
  }

  ghost predicate IsLeast(m: string, s: set<string>) {
    forall y :: y in s ==> Le(m, y)
  }

  lemma LeastFirst(m: string, s: set<string>, rest: seq<string>)
    requires m in s && IsLeast(m, s)
    requires StrictlySorted(rest) && Elems(rest) == s - {m}
    ensures StrictlySorted([m] + rest) && Elems([m] + rest) == s
  {
    var r := [m] + rest;
    forall i, j | 0 <= i < j < |r| ensures Lt(r[i], r[j]) {
      if i == 0 {
        assert r[j] == rest[j - 1] && r[j] in Elems(rest);
      }
    }
    assert Elems(r) == {m} + Elems(rest);
  }

  /** Inserting a new element into a strictly sorted sequence keeps it strictly sorted. */
  lemma {:induction false} InsertStrictlySorted(x: string, ys: seq<string>)
    requires StrictlySorted(ys) && x !in ys
    ensures StrictlySorted(InsertBy(x, ys, Id))
  {
    var r := InsertBy(x, ys, Id);
    if ys == [] || Le(Id(x), Id(ys[0])) {
      forall i, j | 0 <= i < j < |r| ensures Lt(r[i], r[j]) {
        if i == 0 && j > 1 { LtTransitive(x, ys[0], ys[j - 1]); }
      }
    } else {
      var tail := InsertBy(x, ys[1..], Id);
      assert x !in ys[1..];
      InsertStrictlySorted(x, ys[1..]);
      LtTotal(x, ys[0]);
      forall k | 0 <= k < |tail| ensures Lt(ys[0], tail[k]) {
        assert tail[k] in Elems(tail);
        if tail[k] != x {
          var m :| 0 <= m < |ys[1..]| && ys[1..][m] == tail[k];
          assert ys[m + 1] == tail[k];
        }
      }
    }
  }

  /** `sorted(s)` for a set of strings, by insertion. */
  method SortSet(s: set<string>) returns (r: seq<string>)
    ensures r == SortedSeq(s)
  {
    r := [];
    var rest := s;
    while rest != {}
      invariant rest <= s
      invariant StrictlySorted(r)
      invariant Elems(r) == s - rest
      decreases |rest|
    {
      var x :| x in rest;
      assert x !in Elems(r);
      InsertStrictlySorted(x, r);
      r := InsertBy(x, r, Id);
      rest := rest - {x};
    }
    StrictlySortedUnique(r, SortedSeq(s));
  }

  /** Keeping only some elements of an ascending sequence leaves it ascending. */
  lemma {:induction false} FilterSorted(p: string -> bool, s: seq<string>)
    requires SortedBy(s, Id)
    ensures SortedBy(Filter(p, s), Id)
  {
    if s != [] {
      FilterSorted(p, s[1..]);
      var tail := Filter(p, s[1..]);
      forall k | 0 <= k < |tail| ensures Le(s[0], tail[k]) {
        assert tail[k] in s[1..];
      }
    }
  }
}
