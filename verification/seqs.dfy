/**
 * Generic sequence helpers: concatenating pages of payloads, order-preserving
 * deduplication (the `seen` set idiom and pandas' `drop_duplicates`), filtering.
 */
module Seqs {

  /** The set of elements of a sequence. */
  function Elems<T>(s: seq<T>): set<T> {
    set x | x in s
  }

  lemma ElemsEmpty<T>(s: seq<T>)
    ensures Elems(s) == {} <==> s == []
  {
    if s != [] { assert s[0] in Elems(s); }
  }

  /** No element occurs twice. */
  predicate NoDup<T(==)>(s: seq<T>) {
    forall i, j :: 0 <= i < j < |s| ==> s[i] != s[j]
  }

  /** Concatenation of the inner sequences, in order (pages, then payloads of a page). */
  function Flatten<T>(pages: seq<seq<T>>): (r: seq<T>)
  {
    if pages == [] then [] else Flatten(pages[..|pages| - 1]) + pages[|pages| - 1]
  }

  lemma FlattenSnoc<T>(pages: seq<seq<T>>, page: seq<T>)
    ensures Flatten(pages + [page]) == Flatten(pages) + page
  {
    assert (pages + [page])[..|pages|] == pages;
  }

  lemma {:induction false} FlattenMember<T>(pages: seq<seq<T>>, x: T)
    ensures x in Flatten(pages) <==> exists p :: p in pages && x in p
  {
    if pages != [] {
      var init := pages[..|pages| - 1];
      FlattenMember(init, x);
      assert pages == init + [pages[|pages| - 1]];
      if x in Flatten(pages) && x !in Flatten(init) {
        assert x in pages[|pages| - 1];
      }
      if p :| p in pages && x in p {
        if p !in init { assert p == pages[|pages| - 1]; }
      }
    }
  }

  /** Index of the first occurrence of `x` in `s`. */
  function FirstIndex<T(==)>(s: seq<T>, x: T): (k: nat)
    requires x in s
    ensures k < |s| && s[k] == x && x !in s[..k]
  {
    if s[0] == x then 0 else 1 + FirstIndex(s[1..], x)
  }

  lemma {:induction false} FirstIndexAppend<T>(s: seq<T>, t: seq<T>, x: T)
    requires x in s
    ensures FirstIndex(s + t, x) == FirstIndex(s, x)
  {
    if s[0] != x {
      assert (s + t)[1..] == s[1..] + t;
      FirstIndexAppend(s[1..], t, x);
    }
  }

  /**
   * Order-preserving deduplication: walk the sequence left to right and keep an
   * element only the first time it is seen.
   */
  function Dedup<T(==)>(s: seq<T>): (r: seq<T>)
    ensures Elems(r) == Elems(s)
  {
    if s == [] then []
    else
      var init, x := s[..|s| - 1], s[|s| - 1];
      assert s == init + [x];
      assert Elems(s) == Elems(init) + {x};
      var d := Dedup(init);
      assert Elems(d + [x]) == Elems(d) + {x};
      if x in d then d else d + [x]
  }

  lemma DedupSnoc<T>(s: seq<T>, x: T)
    ensures Dedup(s + [x]) == if x in Dedup(s) then Dedup(s) else Dedup(s) + [x]
  {
    assert (s + [x])[..|s|] == s;
  }

  /** Deduplication keeps exactly the elements of its input, each once. */
  lemma {:induction false} DedupElems<T>(s: seq<T>)
    ensures Elems(Dedup(s)) == Elems(s)
    ensures NoDup(Dedup(s))
  {
    if s != [] {
      var init, x := s[..|s| - 1], s[|s| - 1];
      assert s == init + [x];
      DedupElems(init);
      DedupSnoc(init, x);
      assert Elems(s) == Elems(init) + {x};
      var d := Dedup(init);
      if x !in d {
        assert Elems(d + [x]) == Elems(d) + {x};
      }
    }
  }

  /**
   * The elements of `r` appear in the order of their first occurrence in `s`.
   */
  ghost predicate InFirstOccurrenceOrder<T>(r: seq<T>, s: seq<T>) {
    forall i, j :: 0 <= i < j < |r| && r[i] in s && r[j] in s ==>
      FirstIndex(s, r[i]) < FirstIndex(s, r[j])
  }

  /** Deduplication keeps first occurrences, in order. */
  lemma {:induction false} DedupFirstOccurrenceOrder<T>(s: seq<T>)
    ensures InFirstOccurrenceOrder(Dedup(s), s)
  {
    if s != [] {
      var init, x := s[..|s| - 1], s[|s| - 1];
      assert s == init + [x];
      DedupFirstOccurrenceOrder(init);
      DedupSnoc(init, x);
      var d := Dedup(init);
      var r := Dedup(s);
      forall i, j | 0 <= i < j < |r| && r[i] in s && r[j] in s
        ensures FirstIndex(s, r[i]) < FirstIndex(s, r[j])
      {
        assert r[i] in Elems(d) by { assert r[i] == d[i]; }
        FirstIndexAppend(init, [x], r[i]);
        if j < |d| {
          assert r[j] == d[j] && r[j] in Elems(d);
          FirstIndexAppend(init, [x], r[j]);
        } else {
          assert r[j] == x && x !in Elems(init);
          assert FirstIndex(s, x) == |init| by {
            assert x !in s[..|init|];
          }
        }
      }
    }
  }

  /** A sequence without duplicates is left unchanged. */
  lemma {:induction false} DedupNoDup<T>(s: seq<T>)
    requires NoDup(s)
    ensures Dedup(s) == s
  {
    if s != [] {
      var init, x := s[..|s| - 1], s[|s| - 1];
      assert s == init + [x];
      DedupNoDup(init);
      DedupSnoc(init, x);
      assert x !in init;
    }
  }

  /** Order-preserving filter (a Python list comprehension with an `if`). */
  function Filter<T(!new)>(p: T -> bool, s: seq<T>): (r: seq<T>)
    ensures |r| <= |s|
    ensures forall x :: x in r <==> x in s && p(x)
  {
    if s == [] then [] else (if p(s[0]) then [s[0]] else []) + Filter(p, s[1..])
  }

  lemma {:induction false} FilterAppend<T(!new)>(p: T -> bool, s: seq<T>, t: seq<T>)
    ensures Filter(p, s + t) == Filter(p, s) + Filter(p, t)
  {
    if s == [] {
      assert s + t == t;
    } else {
      assert (s + t)[1..] == s[1..] + t;
      FilterAppend(p, s[1..], t);
    }
  }

  /** A duplicate-free sequence has as many elements as its set. */
  lemma {:induction false} NoDupCardinality<T>(s: seq<T>)
    requires NoDup(s)
    ensures |Elems(s)| == |s|
  {
    if s != [] {
      var init, x := s[..|s| - 1], s[|s| - 1];
      assert s == init + [x];
      NoDupCardinality(init);
      assert x !in Elems(init);
      assert Elems(s) == Elems(init) + {x};
    }
  }
}
