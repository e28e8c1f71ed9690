/** Sequence operations that stand in for SQL's WHERE, SUM and ORDER BY over
    rows kept in storage order. */
module Seqs {

  /** The elements of `s` that satisfy `p`, in their original order (WHERE). */
  function Filter<T(!new)>(s: seq<T>, p: T -> bool): (r: seq<T>)
    ensures |r| <= |s|
    ensures forall x :: x in r <==> x in s && p(x)
  {
    if s == [] then []
    else
      assert s == [s[0]] + s[1..];
      (if p(s[0]) then [s[0]] else []) + Filter(s[1..], p)
  }

  /** Filtering a concatenation filters each part. */
  lemma {:induction false} FilterConcat<T(!new)>(a: seq<T>, b: seq<T>, p: T -> bool)
    ensures Filter(a + b, p) == Filter(a, p) + Filter(b, p)
  {
    if a == [] {
      assert a + b == b;
    } else {
      assert (a + b)[0] == a[0];
      assert (a + b)[1..] == a[1..] + b;
      FilterConcat(a[1..], b, p);
    }
  }

  /** Filtering twice by the same test is filtering once. */
  lemma {:induction false} FilterTwice<T(!new)>(s: seq<T>, p: T -> bool)
    ensures Filter(Filter(s, p), p) == Filter(s, p)
  {
    if s != [] {
      FilterTwice(s[1..], p);
      if p(s[0]) {
        var r := Filter(s, p);
        assert r == [s[0]] + Filter(s[1..], p);
        assert r[0] == s[0] && r[1..] == Filter(s[1..], p);
        assert Filter(r, p) == [r[0]] + Filter(r[1..], p);
      } else {
        assert Filter(s, p) == Filter(s[1..], p);
      }
    }
  }

  /** Every element fails `p`, so nothing is kept. */
  lemma {:induction false} FilterNone<T(!new)>(s: seq<T>, p: T -> bool)
    requires forall i :: 0 <= i < |s| ==> !p(s[i])
    ensures Filter(s, p) == []
  {
    if s != [] {
      FilterNone(s[1..], p);
    }
  }

  /** The rows that pass and the rows that fail make up the whole table. */
  lemma {:induction false} FilterSplit<T(!new)>(s: seq<T>, p: T -> bool, q: T -> bool)
    requires forall x :: q(x) == !p(x)
    ensures |Filter(s, p)| + |Filter(s, q)| == |s|
  {
    if s != [] {
      FilterSplit(s[1..], p, q);
    }
  }

  /** No key repeats among the elements of `s` (a PRIMARY KEY or UNIQUE index). */
  predicate Distinct<T, K(==)>(s: seq<T>, key: T -> K) {
    forall i, j :: 0 <= i < j < |s| ==> key(s[i]) != key(s[j])
  }

  lemma {:induction false} FilterKeepsDistinct<T(!new), K>(s: seq<T>, p: T -> bool, key: T -> K)
    requires Distinct(s, key)
    ensures Distinct(Filter(s, p), key)
  {
    if s != [] {
      FilterKeepsDistinct(s[1..], p, key);
      var rest := Filter(s[1..], p);
      forall j | 0 <= j < |rest| ensures key(s[0]) != key(rest[j]) {
        assert rest[j] in s[1..];
        var k :| 0 <= k < |s[1..]| && s[1..][k] == rest[j];
        assert s[k + 1] == rest[j];
      }
    }
  }

  /** The sum of `f` over `s`, accumulated from the left as a loop does it. */
  function SumOf<T>(s: seq<T>, f: T -> real): real {
    if s == [] then 0.0 else SumOf(s[..|s| - 1], f) + f(s[|s| - 1])
  }

  lemma {:induction false} SumOfConcat<T>(a: seq<T>, b: seq<T>, f: T -> real)
    ensures SumOf(a + b, f) == SumOf(a, f) + SumOf(b, f)
  {
    if b == [] {
      assert a + b == a;
    } else {
      var ab := a + b;
      assert ab[..|ab| - 1] == a + b[..|b| - 1];
      assert ab[|ab| - 1] == b[|b| - 1];
      SumOfConcat(a, b[..|b| - 1], f);
    }
  }

  /** A sum does not depend on the order in which the rows arrive. */
  lemma {:induction false} SumOfPermutation<T>(a: seq<T>, b: seq<T>, f: T -> real)
    requires multiset(a) == multiset(b)
    ensures SumOf(a, f) == SumOf(b, f)
    decreases |a|
  {
    if a == [] {
      assert |b| == |multiset(b)| == 0;
    } else {
      var x := a[|a| - 1];
      var a' := a[..|a| - 1];
      assert a == a' + [x];
      assert x in multiset(b);
      var j :| 0 <= j < |b| && b[j] == x;
      var b' := b[..j] + b[j + 1..];
      RemoveOne(a', b, j);
      SumOfPermutation(a', b', f);
      SumOfRemove(b, j, f);
    }
  }

  /** Taking the same element off two equal multisets leaves equal ones. */
  lemma RemoveOne<T>(a': seq<T>, b: seq<T>, j: nat)
    requires j < |b| && multiset(a' + [b[j]]) == multiset(b)
    ensures multiset(a') == multiset(b[..j] + b[j + 1..])
  {
    var x, b' := b[j], b[..j] + b[j + 1..];
    assert b == b[..j] + [x] + b[j + 1..];
    assert multiset(b) == multiset(b') + multiset{x};
    assert multiset(a' + [x]) == multiset(a') + multiset{x};
    forall y ensures multiset(a')[y] == multiset(b')[y] {
      assert multiset(b)[y] == multiset(b')[y] + multiset{x}[y];
      assert multiset(a' + [x])[y] == multiset(a')[y] + multiset{x}[y];
    }
  }

  /** A sum is the sum without one element plus that element. */
  lemma SumOfRemove<T>(b: seq<T>, j: nat, f: T -> real)
    requires j < |b|
    ensures SumOf(b, f) == SumOf(b[..j] + b[j + 1..], f) + f(b[j])
  {
    var x, p, q := b[j], b[..j], b[j + 1..];
    var tail := b[j..];
    assert tail == [x] + q;
    assert b == p + tail;
    SumOfConcat(p, tail, f);
    SumOfConcat([x], q, f);
    SumOfConcat(p, q, f);
    SumOfSingle(x, f);
  }

  lemma SumOfSingle<T>(x: T, f: T -> real)
    ensures SumOf([x], f) == f(x)
  {
    assert [x][..0] == [];
  }

  /** `before` relates every two values one way or the other. */
  ghost predicate Total<T(!new)>(before: (T, T) -> bool) {
    forall x, y :: before(x, y) || before(y, x)
  }

  ghost predicate Transitive<T(!new)>(before: (T, T) -> bool) {
    forall x, y, z :: before(x, y) && before(y, z) ==> before(x, z)
  }

  /** Each element may come before the next one. */
  predicate Sorted<T>(s: seq<T>, before: (T, T) -> bool) {
    forall i :: 0 < i < |s| ==> before(s[i - 1], s[i])
  }

  /** `x` placed into `s` ahead of the first element it may come before. */
  function Insert<T(!new)>(x: T, s: seq<T>, before: (T, T) -> bool): (r: seq<T>)
    ensures multiset(r) == multiset(s) + multiset{x}
    ensures r[0] == x || (s != [] && r[0] == s[0])
  {
    if s == [] then [x]
    else if before(x, s[0]) then [x] + s
    else
      assert s == [s[0]] + s[1..];
      [s[0]] + Insert(x, s[1..], before)
  }

  lemma {:induction false} InsertKeepsSorted<T(!new)>(x: T, s: seq<T>, before: (T, T) -> bool)
    requires Total(before) && Sorted(s, before)
    ensures Sorted(Insert(x, s, before), before)
  {
    if s != [] && !before(x, s[0]) {
      var tail := s[1..];
      assert Sorted(tail, before) by {
        forall i | 0 < i < |tail| ensures before(tail[i - 1], tail[i]) {
          assert tail[i - 1] == s[i] && tail[i] == s[i + 1];
        }
      }
      InsertKeepsSorted(x, tail, before);
      var rest := Insert(x, tail, before);
      assert before(s[0], rest[0]) by {
        assert before(x, s[0]) || before(s[0], x);
        if rest[0] != x {
          assert rest[0] == s[1];
        }
      }
      var r := [s[0]] + rest;
      forall i | 0 < i < |r| ensures before(r[i - 1], r[i]) {
        if i > 1 {
          assert r[i - 1] == rest[i - 2] && r[i] == rest[i - 1];
        }
      }
    }
  }

  /** `s` ordered by `before` (ORDER BY); the sort is stable, so rows that
      tie keep their storage order. */
  function SortBy<T(!new)>(s: seq<T>, before: (T, T) -> bool): (r: seq<T>)
    ensures multiset(r) == multiset(s)
  {
    if s == [] then []
    else
      assert s == [s[0]] + s[1..];
      Insert(s[0], SortBy(s[1..], before), before)
  }

  lemma {:induction false} SortBySorted<T(!new)>(s: seq<T>, before: (T, T) -> bool)
    requires Total(before)
    ensures Sorted(SortBy(s, before), before)
  {
    if s != [] {
      SortBySorted(s[1..], before);
      InsertKeepsSorted(s[0], SortBy(s[1..], before), before);
    }
  }

  /** Under a transitive order, sorted neighbours make every pair ordered. */
  lemma {:induction false} SortedPairwise<T(!new)>(s: seq<T>, before: (T, T) -> bool)
    requires Transitive(before) && Sorted(s, before)
    ensures forall i, j :: 0 <= i < j < |s| ==> before(s[i], s[j])
  {
    if |s| > 1 {
      var s' := s[..|s| - 1];
      assert Sorted(s', before);
      SortedPairwise(s', before);
      forall i | 0 <= i < |s| - 1 ensures before(s[i], s[|s| - 1]) {
        if i < |s| - 2 {
          assert before(s'[i], s'[|s| - 2]);
        }
      }
    }
  }
}
