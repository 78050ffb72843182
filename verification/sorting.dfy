/** The in-place, stable `Array.prototype.sort` the engine calls twice: on the
    merge requests by merge time (src/App.jsx:156) and on the contributor rows
    by the chosen column (src/App.jsx:314-327). Both comparators answer
    "negative / positive / zero" from JavaScript's `<` on one key per element,
    in one direction; the result is specified by `SortSeq`, an insertion sort
    on sequences. */
module Sorting {

  import opened Seqs

  /** The value a comparator reads from an element: a number, a string, or
      something that compares neither below nor above anything (`undefined`,
      or an object). */
  datatype SortValue = Missing | Num(n: real) | Text(s: string)

  /** The UTF-16 code units of one character: itself below U+10000, and
      otherwise its high and low surrogates. */
  function Utf16(c: char): (u: seq<int>)
    ensures |u| == 1 <==> c as int < 0x10000
    ensures |u| == 1 ==> u[0] == c as int
    ensures |u| == 2 <==> c as int >= 0x10000
    ensures |u| == 2 ==> 0xD800 <= u[0] < 0xDC00 <= u[1] < 0xE000
    ensures |u| == 2 ==> 0x10000 + (u[0] - 0xD800) * 0x400 + (u[1] - 0xDC00) == c as int
  {
    if c as int < 0x10000 then [c as int]
    else
      var v := c as int - 0x10000;
      [0xD800 + v / 0x400, 0xDC00 + v % 0x400]
  }

  /** The string as JavaScript stores it: its sequence of UTF-16 code units. */
  function CodeUnits(s: string): (u: seq<int>)
    ensures |u| >= |s|
  {
    if s == [] then [] else Utf16(s[0]) + CodeUnits(s[1..])
  }

  /** The code units of two strings one after the other are the code units of
      their concatenation: each character contributes its own units, in order. */
  lemma {:induction false} CodeUnitsConcat(x: string, y: string)
    ensures CodeUnits(x + y) == CodeUnits(x) + CodeUnits(y)
    decreases |x|
  {
    if x == [] {
      assert x + y == y;
    } else {
      assert (x + y)[0] == x[0] && (x + y)[1..] == x[1..] + y;
      CodeUnitsConcat(x[1..], y);
    }
  }

  /** The code units of a one-character string are that character's units. */
  lemma CodeUnitsOfChar(c: char)
    ensures CodeUnits([c]) == Utf16(c)
  {
    assert [c][1..] == [];
  }

  /** Lexicographic order on code-unit sequences, a proper prefix before its
      extensions: JavaScript `<` on two strings. */
  predicate LexLess(a: seq<int>, b: seq<int>)
  {
    |b| > 0 && (|a| == 0 || a[0] < b[0] || (a[0] == b[0] && LexLess(a[1..], b[1..])))
  }

  /** Where a character falls in code-unit order: the characters from U+E000
      to U+FFFF come after every character above U+FFFF, whose high
      surrogates are smaller than them. */
  function UnitRank(c: char): int
  {
    if 0xE000 <= c as int < 0x10000 then c as int + 0x110000 else c as int
  }

  /** JavaScript `<` on two strings, one character at a time by `UnitRank`;
      `TextLessIsCodeUnitOrder` shows it is `LexLess` on the code units. */
  predicate TextLess(x: string, y: string)
  {
    |y| > 0 && (|x| == 0 || UnitRank(x[0]) < UnitRank(y[0]) || (x[0] == y[0] && TextLess(x[1..], y[1..])))
  }

  /** JavaScript `<` on two sort values; values of different kinds never compare below. */
  predicate Less(a: SortValue, b: SortValue)
  {
    match (a, b)
    case (Num(x), Num(y)) => x < y
    case (Text(x), Text(y)) => TextLess(x, y)
    case _ => false
  }

  /** Comparing strings character by character is comparing their UTF-16
      code units. */
  lemma {:induction false} TextLessIsCodeUnitOrder(x: string, y: string)
    ensures TextLess(x, y) <==> LexLess(CodeUnits(x), CodeUnits(y))
    decreases |x|
  {
    if |x| > 0 && |y| > 0 {
      var xs, ys := CodeUnits(x[1..]), CodeUnits(y[1..]);
      assert CodeUnits(x) == Utf16(x[0]) + xs;
      assert CodeUnits(y) == Utf16(y[0]) + ys;
      if x[0] == y[0] {
        TextLessIsCodeUnitOrder(x[1..], y[1..]);
        CommonPrefix(Utf16(x[0]), xs, ys);
      } else {
        FirstUnitsDecide(x[0], y[0], xs, ys);
      }
    } else if |y| > 0 {
      assert CodeUnits(y) == Utf16(y[0]) + CodeUnits(y[1..]);
    }
  }

  /** A common prefix does not change the order. */
  lemma {:induction false} CommonPrefix(p: seq<int>, xs: seq<int>, ys: seq<int>)
    ensures LexLess(p + xs, p + ys) <==> LexLess(xs, ys)
    decreases |p|
  {
    if |p| > 0 {
      assert (p + xs)[1..] == p[1..] + xs;
      assert (p + ys)[1..] == p[1..] + ys;
      CommonPrefix(p[1..], xs, ys);
    } else {
      assert p + xs == xs && p + ys == ys;
    }
  }

  /** Two different characters are ordered by their code units as by `UnitRank`. */
  lemma FirstUnitsDecide(a: char, b: char, xs: seq<int>, ys: seq<int>)
    requires a != b
    ensures LexLess(Utf16(a) + xs, Utf16(b) + ys) <==> UnitRank(a) < UnitRank(b)
  {
    var ua, ub := Utf16(a), Utf16(b);
    var sa, sb := ua + xs, ub + ys;
    assert sa[0] == ua[0] && sb[0] == ub[0];
    if |ua| == 2 && |ub| == 2 && ua[0] == ub[0] {
      assert sa[1..][0] == ua[1] && sb[1..][0] == ub[1];
      var va, vb := a as int - 0x10000, b as int - 0x10000;
      assert va / 0x400 == vb / 0x400;
      assert va % 0x400 != vb % 0x400;
      assert ua[1] < ub[1] <==> a < b;
    } else if |ua| == 2 && |ub| == 2 {
      assert ua[0] < ub[0] <==> a < b;
    }
  }

  lemma {:induction false} LexLessIrreflexive(a: seq<int>)
    ensures !LexLess(a, a)
  {
    if |a| > 0 {
      LexLessIrreflexive(a[1..]);
    }
  }

  lemma {:induction false} LexLessAsymmetric(a: seq<int>, b: seq<int>)
    requires LexLess(a, b)
    ensures !LexLess(b, a)
  {
    if |a| > 0 && a[0] == b[0] {
      LexLessAsymmetric(a[1..], b[1..]);
    }
  }

  /** A character above U+FFFF sorts before U+FFFF, as its high surrogate
      does, although its code point is the larger one. */
  lemma SurrogateOrderExample()
    ensures TextLess("\U{1F600}", "\U{FFFF}") && !TextLess("\U{FFFF}", "\U{1F600}")
    ensures LexLess(CodeUnits("\U{1F600}"), CodeUnits("\U{FFFF}"))
    ensures '\U{FFFF}' < '\U{1F600}'
  {
    assert Utf16('\U{1F600}') == [0xD83D, 0xDE00];
    assert CodeUnits("\U{1F600}") == [0xD83D, 0xDE00] + CodeUnits("");
    assert CodeUnits("\U{FFFF}") == [0xFFFF] + CodeUnits("");
  }

  /** `Less` is a strict order on each kind: never both ways. */
  lemma LessAsymmetric(a: SortValue, b: SortValue)
    requires Less(a, b)
    ensures !Less(b, a) && a != b
  {
    if a.Text? {
      TextLessIsCodeUnitOrder(a.s, b.s);
      TextLessIsCodeUnitOrder(b.s, a.s);
      TextLessIsCodeUnitOrder(a.s, a.s);
      LexLessAsymmetric(CodeUnits(a.s), CodeUnits(b.s));
      LexLessIrreflexive(CodeUnits(a.s));
    }
  }

  /** The comparator in the chosen direction is negative: `x` goes before `y`. */
  predicate Precedes(x: SortValue, y: SortValue, asc: bool)
  {
    if asc then Less(x, y) else Less(y, x)
  }

  lemma PrecedesAsymmetric(x: SortValue, y: SortValue, asc: bool)
    requires Precedes(x, y, asc)
    ensures !Precedes(y, x, asc) && x != y
  {
    if asc { LessAsymmetric(x, y); } else { LessAsymmetric(y, x); }
  }

  /** Inserts `x` behind a sorted run, moving it left past every element it precedes. */
  function InsertBack<T>(s: seq<T>, x: T, key: T -> SortValue, asc: bool): seq<T>
  {
    if s == [] || !Precedes(key(x), key(s[|s| - 1]), asc) then s + [x]
    else InsertBack(s[..|s| - 1], x, key, asc) + [s[|s| - 1]]
  }

  /** The stable sort of `s` by `key` in the chosen direction (insertion sort). */
  function SortSeq<T>(s: seq<T>, key: T -> SortValue, asc: bool): seq<T>
  {
    if s == [] then [] else InsertBack(SortSeq(s[..|s| - 1], key, asc), s[|s| - 1], key, asc)
  }

  /** No element is preceded by the one after it. */
  predicate Ordered<T>(s: seq<T>, key: T -> SortValue, asc: bool)
  {
    forall k :: 0 <= k < |s| - 1 ==> !Precedes(key(s[k + 1]), key(s[k]), asc)
  }

  /** The elements whose key is `v`, in order. */
  function SameKey<T>(s: seq<T>, key: T -> SortValue, v: SortValue): seq<T>
  {
    Filter(s, KeyIs(key, v))
  }

  function KeyIs<T>(key: T -> SortValue, v: SortValue): T -> bool
  {
    (x: T) => key(x) == v
  }

  lemma {:induction false} InsertBackMultiset<T>(s: seq<T>, x: T, key: T -> SortValue, asc: bool)
    ensures multiset(InsertBack(s, x, key, asc)) == multiset(s) + multiset{x}
  {
    if s != [] && Precedes(key(x), key(s[|s| - 1]), asc) {
      var s' := s[..|s| - 1];
      InsertBackMultiset(s', x, key, asc);
      assert s == s' + [s[|s| - 1]];
    }
  }

  /** Sorting is a permutation. */
  lemma {:induction false} SortSeqPermutation<T>(s: seq<T>, key: T -> SortValue, asc: bool)
    ensures |SortSeq(s, key, asc)| == |s|
    ensures multiset(SortSeq(s, key, asc)) == multiset(s)
  {
    SortSeqMultiset(s, key, asc);
    assert |multiset(SortSeq(s, key, asc))| == |SortSeq(s, key, asc)|;
    assert |multiset(s)| == |s|;
  }

  lemma {:induction false} SortSeqMultiset<T>(s: seq<T>, key: T -> SortValue, asc: bool)
    ensures multiset(SortSeq(s, key, asc)) == multiset(s)
  {
    if s != [] {
      var s', x := s[..|s| - 1], s[|s| - 1];
      SortSeqMultiset(s', key, asc);
      InsertBackMultiset(SortSeq(s', key, asc), x, key, asc);
      assert s == s' + [x];
      assert multiset(s) == multiset(s') + multiset{x};
    }
  }

  lemma {:induction false} InsertBackOrdered<T>(s: seq<T>, x: T, key: T -> SortValue, asc: bool)
    requires Ordered(s, key, asc)
    ensures Ordered(InsertBack(s, x, key, asc), key, asc)
    ensures |InsertBack(s, x, key, asc)| == |s| + 1
    ensures var r := InsertBack(s, x, key, asc);
            r[|r| - 1] == x || (s != [] && r[|r| - 1] == s[|s| - 1])
  {
    if s != [] && Precedes(key(x), key(s[|s| - 1]), asc) {
      var s', y := s[..|s| - 1], s[|s| - 1];
      assert Ordered(s', key, asc) by {
        forall k | 0 <= k < |s'| - 1 ensures !Precedes(key(s'[k + 1]), key(s'[k]), asc) {
          assert s'[k] == s[k] && s'[k + 1] == s[k + 1];
        }
      }
      InsertBackOrdered(s', x, key, asc);
      var r' := InsertBack(s', x, key, asc);
      var z := r'[|r'| - 1];
      if z == x {
        PrecedesAsymmetric(key(x), key(y), asc);
      } else {
        assert z == s[|s| - 2];
      }
      assert !Precedes(key(y), key(z), asc);
      var r := r' + [y];
      forall k | 0 <= k < |r| - 1 ensures !Precedes(key(r[k + 1]), key(r[k]), asc) {
        if k < |r'| - 1 {
          assert r[k] == r'[k] && r[k + 1] == r'[k + 1];
        }
      }
    }
  }

  /** A sorted result: no entry goes before its predecessor. */
  lemma {:induction false} SortSeqOrdered<T>(s: seq<T>, key: T -> SortValue, asc: bool)
    ensures Ordered(SortSeq(s, key, asc), key, asc)
  {
    if s != [] {
      SortSeqOrdered(s[..|s| - 1], key, asc);
      InsertBackOrdered(SortSeq(s[..|s| - 1], key, asc), s[|s| - 1], key, asc);
    }
  }

  lemma {:induction false} InsertBackSameKey<T>(s: seq<T>, x: T, key: T -> SortValue, asc: bool, v: SortValue)
    ensures SameKey(InsertBack(s, x, key, asc), key, v) ==
            SameKey(s, key, v) + (if key(x) == v then [x] else [])
  {
    if s == [] || !Precedes(key(x), key(s[|s| - 1]), asc) {
      FilterSnoc(s, x, KeyIs(key, v));
    } else {
      var s', y := s[..|s| - 1], s[|s| - 1];
      InsertBackSameKey(s', x, key, asc, v);
      assert s == s' + [y];
      PrecedesAsymmetric(key(x), key(y), asc);
      PassedKeepsSameKey(s', x, y, InsertBack(s', x, key, asc), KeyIs(key, v));
    }
  }

  /** `x` moved left past `y`, and at most one of the two passes the filter. */
  lemma PassedKeepsSameKey<T>(s': seq<T>, x: T, y: T, r': seq<T>, p: T -> bool)
    requires !(p(x) && p(y))
    requires Filter(r', p) == Filter(s', p) + (if p(x) then [x] else [])
    ensures Filter(r' + [y], p) == Filter(s' + [y], p) + (if p(x) then [x] else [])
  {
    FilterSnoc(r', y, p);
    FilterSnoc(s', y, p);
  }

  /** Stability: the entries with any one key keep their input order. */
  lemma {:induction false} SortSeqStable<T>(s: seq<T>, key: T -> SortValue, asc: bool, v: SortValue)
    ensures SameKey(SortSeq(s, key, asc), key, v) == SameKey(s, key, v)
  {
    if s != [] {
      var s', x := s[..|s| - 1], s[|s| - 1];
      SortSeqStable(s', key, asc, v);
      InsertBackSameKey(SortSeq(s', key, asc), x, key, asc, v);
    }
  }

  /** Keys that never compare below one another (all `Missing`, say) leave the order as it is. */
  lemma {:induction false} SortSeqOfTies<T>(s: seq<T>, key: T -> SortValue, asc: bool)
    requires forall i, j :: 0 <= i < |s| && 0 <= j < |s| ==> !Less(key(s[i]), key(s[j]))
    ensures SortSeq(s, key, asc) == s
  {
    if s != [] {
      var s' := s[..|s| - 1];
      SortSeqOfTies(s', key, asc);
      assert s == s' + [s[|s| - 1]];
    }
  }

  /** Descending by a value 2, 5, 5: the two 5s come first, in their input order. */
  lemma DescendingExample<T>(a: T, b: T, c: T, key: T -> SortValue)
    requires key(a) == Num(2.0) && key(b) == Num(5.0) && key(c) == Num(5.0)
    ensures SortSeq([a, b, c], key, false) == [b, c, a]
  {
    assert [a, b, c][..2] == [a, b] && [a, b][..1] == [a];
    assert SortSeq([a], key, false) == [a];
    assert SortSeq([a, b], key, false) == InsertBack([a], b, key, false) == [b, a];
    assert InsertBack([b, a], c, key, false) == InsertBack([b], c, key, false) + [a];
    assert [b, a][..1] == [b];
  }

  /** `x` lands at `j` when it precedes every element from `j` on, and does
      not precede the one before `j`. */
  lemma {:induction false} InsertBackAt<T>(sorted: seq<T>, j: int, x: T, key: T -> SortValue, asc: bool)
    requires 0 <= j <= |sorted|
    requires j == 0 || !Precedes(key(x), key(sorted[j - 1]), asc)
    requires forall k :: j <= k < |sorted| ==> Precedes(key(x), key(sorted[k]), asc)
    ensures InsertBack(sorted, x, key, asc) == sorted[..j] + [x] + sorted[j..]
    decreases |sorted|
  {
    if j == |sorted| {
      assert sorted[..j] == sorted && sorted[j..] == [];
    } else {
      var s', y := sorted[..|sorted| - 1], sorted[|sorted| - 1];
      assert Precedes(key(x), key(y), asc);
      InsertBackAt(s', j, x, key, asc);
      assert sorted[..j] + [x] + sorted[j..] == s'[..j] + [x] + s'[j..] + [y];
    }
  }

  /** The inner loop: shifts the elements of `a[..i]` that `x` precedes one
      place right, from the back, and returns the hole `j` they leave. */
  method ShiftRight<T>(a: array<T>, i: int, x: T, key: T -> SortValue, asc: bool) returns (j: int)
    requires 0 <= i < a.Length
    modifies a
    ensures 0 <= j <= i
    ensures forall k :: 0 <= k < j ==> a[k] == old(a[k])
    ensures forall k :: j < k <= i ==> a[k] == old(a[k - 1])
    ensures forall k :: i < k < a.Length ==> a[k] == old(a[k])
    ensures j == 0 || !Precedes(key(x), key(old(a[j - 1])), asc)
    ensures forall k :: j <= k < i ==> Precedes(key(x), key(old(a[k])), asc)
  {
    j := i;
    while j > 0 && Precedes(key(x), key(a[j - 1]), asc)
      invariant 0 <= j <= i
      invariant forall k :: 0 <= k < j ==> a[k] == old(a[k])
      invariant forall k :: j < k <= i ==> a[k] == old(a[k - 1])
      invariant forall k :: i < k < a.Length ==> a[k] == old(a[k])
      invariant forall k :: j <= k < i ==> Precedes(key(x), key(old(a[k])), asc)
    {
      a[j] := a[j - 1];
      j := j - 1;
    }
  }

  /** The array after the shift and the store, read as a sequence. */
  lemma Spliced<T>(fin: seq<T>, s0: seq<T>, i: int, j: int, x: T)
    requires |fin| == |s0| && 0 <= j <= i < |s0|
    requires fin[j] == x
    requires forall k :: 0 <= k < j ==> fin[k] == s0[k]
    requires forall k :: j < k <= i ==> fin[k] == s0[k - 1]
    requires forall k :: i < k < |s0| ==> fin[k] == s0[k]
    ensures fin[..i + 1] == s0[..j] + [x] + s0[j..i]
    ensures fin[i + 1..] == s0[i + 1..]
  {
    var r := s0[..j] + [x] + s0[j..i];
    forall k | 0 <= k <= i ensures fin[k] == r[k] {
      if k > j {
        assert r[k] == s0[j..i][k - j - 1];
      }
    }
  }

  /** One step of the insertion sort: the sorted run `a[..i]` absorbs `a[i]`. */
  method InsertLast<T>(a: array<T>, i: int, key: T -> SortValue, asc: bool)
    requires 0 <= i < a.Length
    modifies a
    ensures a[..i + 1] == InsertBack(old(a[..i]), old(a[i]), key, asc)
    ensures a[i + 1..] == old(a[i + 1..])
  {
    var x := a[i];
    ghost var s0 := a[..];
    var j := ShiftRight(a, i, x, key, asc);
    a[j] := x;
    Spliced(a[..], s0, i, j, x);
    ghost var sorted := s0[..i];
    assert sorted[..j] == s0[..j] && sorted[j..] == s0[j..i];
    InsertBackAt(sorted, j, x, key, asc);
  }

  /** `a.sort(cmp)` in place: insertion sort, proved to leave `SortSeq` of the old contents. */
  method SortInPlace<T>(a: array<T>, key: T -> SortValue, asc: bool)
    modifies a
    ensures a[..] == SortSeq(old(a[..]), key, asc)
  {
    ghost var s0 := a[..];
    var i := 0;
    while i < a.Length
      invariant 0 <= i <= a.Length
      invariant a[..i] == SortSeq(s0[..i], key, asc)
      invariant a[i..] == s0[i..]
    {
      ghost var before, rest := a[..i], a[i + 1..];
      assert a[i] == s0[i] by { assert a[i] == a[i..][0]; }
      assert rest == s0[i + 1..] by {
        assert rest == a[i..][1..];
        assert s0[i + 1..] == s0[i..][1..];
      }
      InsertLast(a, i, key, asc);
      assert s0[..i + 1][..i] == s0[..i];
      assert SortSeq(s0[..i + 1], key, asc) == InsertBack(before, s0[i], key, asc);
      i := i + 1;
    }
    assert s0[..a.Length] == s0;
  }
}
