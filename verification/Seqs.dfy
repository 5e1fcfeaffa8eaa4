/** Filtering, counting and summing of lists. */
module Seqs {
  import opened Order

  function Filter<T(!new)>(p: T -> bool, s: seq<T>): (r: seq<T>)
    ensures forall x :: x in r <==> x in s && p(x)
  {
    if s == [] then [] else (if p(s[0]) then [s[0]] else []) + Filter(p, s[1..])
  }

  function Count<T>(p: T -> bool, s: seq<T>): (n: nat)
    ensures n <= |s|
  {
    if s == [] then 0 else (if p(s[0]) then 1 else 0) + Count(p, s[1..])
  }

  function Map<S, T>(f: S -> T, s: seq<S>): (r: seq<T>)
    ensures |r| == |s| && forall i :: 0 <= i < |s| ==> r[i] == f(s[i])
  {
    if s == [] then [] else [f(s[0])] + Map(f, s[1..])
  }

  function SumOf<T>(f: T -> nat, s: seq<T>): nat {
    if s == [] then 0 else f(s[0]) + SumOf(f, s[1..])
  }

  lemma {:induction false} FilterAppend<T(!new)>(p: T -> bool, a: seq<T>, b: seq<T>)
    ensures Filter(p, a + b) == Filter(p, a) + Filter(p, b)
  {
    if a == [] { assert a + b == b; }
    else {
      assert (a + b)[1..] == a[1..] + b;
      FilterAppend(p, a[1..], b);
    }
  }

  lemma {:induction false} CountAppend<T>(p: T -> bool, a: seq<T>, b: seq<T>)
    ensures Count(p, a + b) == Count(p, a) + Count(p, b)
  {
    if a == [] { assert a + b == b; }
    else {
      assert (a + b)[1..] == a[1..] + b;
      CountAppend(p, a[1..], b);
    }
  }

  lemma {:induction false} SumAppend<T>(f: T -> nat, a: seq<T>, b: seq<T>)
    ensures SumOf(f, a + b) == SumOf(f, a) + SumOf(f, b)
  {
    if a == [] { assert a + b == b; }
    else {
      assert (a + b)[1..] == a[1..] + b;
      SumAppend(f, a[1..], b);
    }
  }

  lemma FilterFirst<T(!new)>(p: T -> bool, x: T, s: seq<T>)
    ensures Filter(p, [x] + s) == (if p(x) then [x] else []) + Filter(p, s)
  {
    assert ([x] + s)[1..] == s;
  }

  /** A list splits into what a test accepts and what it rejects. */
  lemma {:induction false} FilterSplits<T(!new)>(p: T -> bool, q: T -> bool, s: seq<T>)
    requires forall x :: x in s ==> (p(x) <==> !q(x))
    ensures |Filter(p, s)| + |Filter(q, s)| == |s|
    ensures multiset(Filter(p, s)) + multiset(Filter(q, s)) == multiset(s)
  {
    if s != [] {
      var x, rest := s[0], s[1..];
      assert s == [x] + rest && x in s;
      FilterSplits(p, q, rest);
      FilterFirst(p, x, rest);
      FilterFirst(q, x, rest);
      if p(x) {
        assert multiset([x] + Filter(p, rest)) == multiset{x} + multiset(Filter(p, rest));
      } else {
        assert multiset([x] + Filter(q, rest)) == multiset{x} + multiset(Filter(q, rest));
      }
    }
  }

  lemma RemoveAt<T>(p: T -> bool, s: seq<T>, i: nat)
    requires i < |s|
    ensures var rest := s[..i] + s[i + 1..];
            && multiset(s) == multiset(rest) + multiset{s[i]}
            && Count(p, s) == Count(p, rest) + if p(s[i]) then 1 else 0
  {
    assert s == s[..i] + ([s[i]] + s[i + 1..]);
    CountAppend(p, s[..i], [s[i]] + s[i + 1..]);
    CountAppend(p, s[..i], s[i + 1..]);
  }

  /** Counting does not depend on the order of the list. */
  lemma {:induction false} CountPermutation<T>(p: T -> bool, a: seq<T>, b: seq<T>)
    requires multiset(a) == multiset(b)
    ensures Count(p, a) == Count(p, b) && |a| == |b|
  {
    assert |multiset(a)| == |multiset(b)|;
    if a != [] {
      assert a[0] in multiset(b);
      var i :| 0 <= i < |b| && b[i] == a[0];
      RemoveAt(p, b, i);
      assert a == [a[0]] + a[1..];
      assert multiset(a) == multiset(a[1..]) + multiset{a[0]};
      assert multiset(a[1..]) == multiset(a) - multiset{a[0]};
      assert multiset(b[..i] + b[i + 1..]) == multiset(b) - multiset{a[0]};
      CountPermutation(p, a[1..], b[..i] + b[i + 1..]);
    }
  }

  lemma SumRemoveAt<T>(f: T -> nat, s: seq<T>, i: nat)
    requires i < |s|
    ensures SumOf(f, s) == SumOf(f, s[..i] + s[i + 1..]) + f(s[i])
  {
    assert s == s[..i] + ([s[i]] + s[i + 1..]);
    SumAppend(f, s[..i], [s[i]] + s[i + 1..]);
    SumAppend(f, s[..i], s[i + 1..]);
  }

  /** Neither does a sum. */
  lemma {:induction false} SumPermutation<T>(f: T -> nat, a: seq<T>, b: seq<T>)
    requires multiset(a) == multiset(b)
    ensures SumOf(f, a) == SumOf(f, b)
  {
    assert |multiset(a)| == |multiset(b)|;
    if a != [] {
      assert a[0] in multiset(b);
      var i :| 0 <= i < |b| && b[i] == a[0];
      RemoveAt((x: T) => true, b, i);
      SumRemoveAt(f, b, i);
      assert a == [a[0]] + a[1..];
      assert multiset(a[1..]) == multiset(a) - multiset{a[0]};
      assert multiset(b[..i] + b[i + 1..]) == multiset(b) - multiset{a[0]};
      SumPermutation(f, a[1..], b[..i] + b[i + 1..]);
    }
  }

  /** Counting over a multiset union: used to split a list into two unordered parts. */
  lemma CountUnion<T>(p: T -> bool, whole: seq<T>, a: seq<T>, b: seq<T>)
    requires multiset(whole) == multiset(a) + multiset(b)
    ensures Count(p, whole) == Count(p, a) + Count(p, b) && |whole| == |a| + |b|
  {
    assert multiset(a + b) == multiset(a) + multiset(b);
    CountPermutation(p, whole, a + b);
    CountAppend(p, a, b);
  }

  lemma {:induction false} FilterDistinct<T(!new)>(p: T -> bool, s: seq<T>)
    requires Distinct(s)
    ensures Distinct(Filter(p, s))
  {
    if s != [] {
      assert forall i :: 0 <= i < |s[1..]| ==> s[1..][i] == s[i + 1];
      FilterDistinct(p, s[1..]);
      assert s[0] !in Filter(p, s[1..]);
    }
  }

  /** The concatenation of `f(x)` for all `x` of a list. */
  function FlatMap<S, T>(f: S -> seq<T>, s: seq<S>): seq<T> {
    if s == [] then [] else FlatMap(f, s[..|s| - 1]) + f(s[|s| - 1])
  }

  lemma FlatMapNext<S, T>(f: S -> seq<T>, s: seq<S>, i: nat)
    requires i < |s|
    ensures FlatMap(f, s[..i + 1]) == FlatMap(f, s[..i]) + f(s[i])
  {
    assert s[..i + 1][..i] == s[..i];
  }

  lemma {:induction false} FlatMapFirst<S, T>(f: S -> seq<T>, x: S, s: seq<S>)
    ensures FlatMap(f, [x] + s) == f(x) + FlatMap(f, s)
  {
    if s != [] {
      FlatMapFirst(f, x, s[..|s| - 1]);
      assert ([x] + s)[..|s|] == [x] + s[..|s| - 1];
    }
  }

  lemma {:induction false} FlatMapMembers<S(!new), T>(f: S -> seq<T>, s: seq<S>, x: T)
    ensures x in FlatMap(f, s) <==> exists y :: y in s && x in f(y)
  {
    if s != [] {
      var front, last := s[..|s| - 1], s[|s| - 1];
      FlatMapMembers(f, front, x);
      assert s == front + [last];
      assert x in FlatMap(f, s) <==> x in FlatMap(f, front) || x in f(last);
      assert forall y :: y in s <==> y in front || y == last;
    }
  }

  lemma {:induction false} FlatMapEmpty<S(!new), T>(f: S -> seq<T>, s: seq<S>)
    ensures FlatMap(f, s) == [] <==> forall y :: y in s ==> f(y) == []
  {
    if s != [] {
      var front, last := s[..|s| - 1], s[|s| - 1];
      FlatMapEmpty(f, front);
      assert s == front + [last];
      assert forall y :: y in s <==> y in front || y == last;
    }
  }

  /** Lists without repetitions that share nothing, one behind the other. */
  lemma {:induction false} FlatMapDistinct<S(!new), T(!new)>(f: S -> seq<T>, s: seq<S>)
    requires Distinct(s) && forall x :: x in s ==> Distinct(f(x))
    requires forall x, y, t :: x in s && y in s && t in f(x) && t in f(y) ==> x == y
    ensures Distinct(FlatMap(f, s))
  {
    if s != [] {
      var front, last := s[..|s| - 1], s[|s| - 1];
      assert s == front + [last] && last !in front;
      FlatMapDistinct(f, front);
      var a, b := FlatMap(f, front), f(last);
      forall t | t in a ensures t !in b { FlatMapMembers(f, front, t); }
      forall i, j | 0 <= i < j < |a + b| ensures (a + b)[i] != (a + b)[j] {
        if i < |a| <= j { assert a[i] in a && b[j - |a|] in b; }
      }
    }
  }

  /** Two lists related element by element. */
  ghost predicate Pairwise<T>(related: (T, T) -> bool, s: seq<T>, t: seq<T>) {
    |s| == |t| && forall i :: 0 <= i < |s| ==> related(s[i], t[i])
  }

  lemma {:induction false} FlatMapPairwise<S(!new), T>(related: (T, T) -> bool, f: S -> seq<T>, g: S -> seq<T>,
                                             s: seq<S>)
    requires forall y :: y in s ==> Pairwise(related, f(y), g(y))
    ensures Pairwise(related, FlatMap(f, s), FlatMap(g, s))
  {
    if s != [] {
      var front, last := s[..|s| - 1], s[|s| - 1];
      assert s == front + [last];
      FlatMapPairwise(related, f, g, front);
      assert Pairwise(related, f(last), g(last));
    }
  }
}
