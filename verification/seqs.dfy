/** The array combinators the engine is built from (`filter`, summing
    `forEach` loops, `includes`), as functions on sequences. */
module Seqs {

  import opened Domain

  /** `xs.filter(p)`: the elements of `s` that satisfy `p`, in their order. */
  function Filter<T>(s: seq<T>, p: T -> bool): (r: seq<T>)
    ensures |r| <= |s|
  {
    if s == [] then []
    else Filter(s[..|s| - 1], p) + (if p(s[|s| - 1]) then [s[|s| - 1]] else [])
  }

  /** An element survives the filter exactly when it occurs and passes. */
  lemma {:induction false} FilterMembership<T>(s: seq<T>, p: T -> bool, x: T)
    ensures x in Filter(s, p) <==> x in s && p(x)
  {
    if s != [] {
      var s' := s[..|s| - 1];
      FilterMembership(s', p, x);
      assert s == s' + [s[|s| - 1]];
    }
  }

  /** Filtering a concatenation filters each part and keeps the parts in
      order: this is what "filtering preserves relative order" means. */
  lemma {:induction false} FilterConcat<T>(a: seq<T>, b: seq<T>, p: T -> bool)
    ensures Filter(a + b, p) == Filter(a, p) + Filter(b, p)
    decreases |b|
  {
    if b == [] {
      assert a + b == a;
    } else {
      var b' := b[..|b| - 1];
      assert (a + b)[..|a + b| - 1] == a + b';
      assert (a + b)[|a + b| - 1] == b[|b| - 1];
      FilterConcat(a, b', p);
    }
  }

  /** Filtering one more element at the end. */
  lemma FilterSnoc<T>(s: seq<T>, x: T, p: T -> bool)
    ensures Filter(s + [x], p) == Filter(s, p) + (if p(x) then [x] else [])
  {
    assert (s + [x])[..|s|] == s;
  }

  /** A filter that every element passes changes nothing. */
  lemma {:induction false} FilterKeepsAll<T>(s: seq<T>, p: T -> bool)
    requires forall x :: x in s ==> p(x)
    ensures Filter(s, p) == s
  {
    if s != [] {
      var s', y := s[..|s| - 1], s[|s| - 1];
      assert s == s' + [y];
      FilterKeepsAll(s', p);
    }
  }

  /** Every element keeps its multiplicity or is dropped entirely. */
  lemma {:induction false} FilterMultiset<T>(s: seq<T>, p: T -> bool, x: T)
    ensures multiset(Filter(s, p))[x] == if p(x) then multiset(s)[x] else 0
  {
    if s != [] {
      var s' := s[..|s| - 1];
      assert s == s' + [s[|s| - 1]];
      FilterMultiset(s', p, x);
    }
  }

  /** No element occurs twice. */
  predicate Distinct<T(==)>(s: seq<T>)
  {
    forall i, j :: 0 <= i < j < |s| ==> s[i] != s[j]
  }

  /** Filtering a list without duplicates yields a list without duplicates. */
  lemma {:induction false} FilterDistinct<T>(s: seq<T>, p: T -> bool)
    requires Distinct(s)
    ensures Distinct(Filter(s, p))
  {
    if s != [] {
      var s', x := s[..|s| - 1], s[|s| - 1];
      assert Distinct(s') by {
        forall i, j | 0 <= i < j < |s'| ensures s'[i] != s'[j] {
          assert s'[i] == s[i] && s'[j] == s[j];
        }
      }
      FilterDistinct(s', p);
      FilterMembership(s', p, x);
      assert x !in s' by {
        forall i | 0 <= i < |s'| ensures s'[i] != x {
          assert s'[i] == s[i];
        }
      }
    }
  }

  /** The left-to-right sum `total += f(x)` over `s`. */
  function SumOf<T>(s: seq<T>, f: T -> real): real
  {
    if s == [] then 0.0 else SumOf(s[..|s| - 1], f) + f(s[|s| - 1])
  }

  /** The ids of a list of records, in order (`xs.map(r => r.id)`). */
  function Map<T, U>(s: seq<T>, f: T -> U): (r: seq<U>)
    ensures |r| == |s|
  {
    if s == [] then [] else Map(s[..|s| - 1], f) + [f(s[|s| - 1])]
  }

  /** Each mapped value is `f` of the element at the same index. */
  lemma {:induction false} MapAt<T, U>(s: seq<T>, f: T -> U)
    ensures forall k :: 0 <= k < |s| ==> Map(s, f)[k] == f(s[k])
  {
    if s != [] {
      var s' := s[..|s| - 1];
      MapAt(s', f);
      assert forall k :: 0 <= k < |s'| ==> s'[k] == s[k];
    }
  }

  /** Mapping one more element at the end. */
  lemma MapSnoc<T, U>(s: seq<T>, x: T, f: T -> U)
    ensures Map(s + [x], f) == Map(s, f) + [f(x)]
  {
    assert (s + [x])[..|s|] == s;
  }

  /** Mapping a prefix one element longer. */
  lemma MapPrefix<T, U>(s: seq<T>, i: int, f: T -> U)
    requires 0 <= i < |s|
    ensures Map(s[..i + 1], f) == Map(s[..i], f) + [f(s[i])]
  {
    assert s[..i + 1] == s[..i] + [s[i]];
    MapSnoc(s[..i], s[i], f);
  }

  /** `xs.find(p)`: the first element that satisfies `p`, if any. */
  function Find<T>(s: seq<T>, p: T -> bool): (r: Option<T>)
    ensures r.None? <==> forall k :: 0 <= k < |s| ==> !p(s[k])
    ensures r.Some? ==> exists k :: 0 <= k < |s| && s[k] == r.value && p(s[k]) &&
                                    forall j :: 0 <= j < k ==> !p(s[j])
  {
    if s == [] then None
    else if p(s[0]) then Some(s[0])
    else
      var r := Find(s[1..], p);
      assert r.Some? ==> exists k :: 1 <= k < |s| && s[k] == r.value && p(s[k]) &&
                                     forall j :: 1 <= j < k ==> !p(s[j]) by {
        if r.Some? {
          var k :| 0 <= k < |s[1..]| && s[1..][k] == r.value && p(s[1..][k]) &&
                   forall j :: 0 <= j < k ==> !p(s[1..][j]);
          assert forall j :: 1 <= j < k + 1 ==> s[j] == s[1..][j - 1];
        }
      }
      r
  }

  /** A value occurs among the mapped values exactly when some element maps to it. */
  lemma {:induction false} MapMembership<T, U>(s: seq<T>, f: T -> U, y: U)
    ensures y in Map(s, f) <==> exists k :: 0 <= k < |s| && f(s[k]) == y
  {
    if s != [] {
      var s' := s[..|s| - 1];
      MapMembership(s', f, y);
      assert Map(s, f) == Map(s', f) + [f(s[|s| - 1])];
      if y in Map(s', f) {
        var k :| 0 <= k < |s'| && f(s'[k]) == y;
        assert s[k] == s'[k];
      }
      if exists k :: 0 <= k < |s| && f(s[k]) == y {
        var k :| 0 <= k < |s| && f(s[k]) == y;
        if k < |s'| {
          assert s'[k] == s[k];
        }
      }
    }
  }
}
