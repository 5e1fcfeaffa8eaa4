/** Total orders, Python's `sorted`, and the code-point order on strings. */
module Order {

  /** An order by a sort key: elements with equal keys are tied. */
  ghost predicate Preorder<T(!new)>(leq: (T, T) -> bool) {
    && (forall a :: leq(a, a))
    && (forall a, b, c :: leq(a, b) && leq(b, c) ==> leq(a, c))
    && (forall a, b :: leq(a, b) || leq(b, a))
  }

  ghost predicate TotalOrder<T(!new)>(leq: (T, T) -> bool) {
    && Preorder(leq)
    && (forall a, b :: leq(a, b) && leq(b, a) ==> a == b)
  }

  ghost predicate Sorted<T>(leq: (T, T) -> bool, s: seq<T>) {
    forall i, j :: 0 <= i < j < |s| ==> leq(s[i], s[j])
  }

  ghost predicate Distinct<T>(s: seq<T>) {
    forall i, j :: 0 <= i < j < |s| ==> s[i] != s[j]
  }

  // --- sorting a list -------------------------------------------------------

  /** Puts `x` in front of the first element it does not exceed: equal elements keep their order. */
  function Insert<T>(leq: (T, T) -> bool, x: T, s: seq<T>): (r: seq<T>)
    ensures multiset(r) == multiset(s) + multiset{x}
    ensures |r| == |s| + 1
  {
    if s == [] then [x]
    else if leq(x, s[0]) then [x] + s
    else
      assert s == [s[0]] + s[1..];
      [s[0]] + Insert(leq, x, s[1..])
  }

  /** A stable sort. */
  function SortBy<T>(leq: (T, T) -> bool, s: seq<T>): (r: seq<T>)
    ensures multiset(r) == multiset(s)
    ensures |r| == |s|
  {
    if s == [] then []
    else
      assert s == [s[0]] + s[1..];
      Insert(leq, s[0], SortBy(leq, s[1..]))
  }

  lemma {:induction false} InsertSorted<T(!new)>(leq: (T, T) -> bool, x: T, s: seq<T>)
    requires Preorder(leq) && Sorted(leq, s)
    ensures Sorted(leq, Insert(leq, x, s))
  {
    if s != [] && !leq(x, s[0]) {
      InsertSorted(leq, x, s[1..]);
      var r := Insert(leq, x, s[1..]);
      forall j | 0 <= j < |r| ensures leq(s[0], r[j]) {
        assert r[j] in multiset(r);
        assert r[j] == x || r[j] in s[1..];
      }
    }
  }

  lemma {:induction false} SortBySorted<T(!new)>(leq: (T, T) -> bool, s: seq<T>)
    requires Preorder(leq)
    ensures Sorted(leq, SortBy(leq, s))
  {
    if s != [] {
      SortBySorted(leq, s[1..]);
      InsertSorted(leq, s[0], SortBy(leq, s[1..]));
    }
  }

  /** A permutation of a list without repetitions has the same elements and no repetitions. */
  lemma PermutationDistinct<T>(s: seq<T>, r: seq<T>)
    requires multiset(s) == multiset(r)
    ensures forall x :: x in s <==> x in r
    ensures Distinct(s) ==> Distinct(r)
  {
    forall x ensures x in s <==> x in r {
      assert x in s <==> x in multiset(s);
      assert x in r <==> x in multiset(r);
    }
    if Distinct(s) && !Distinct(r) {
      var i, j :| 0 <= i < j < |r| && r[i] == r[j];
      TwiceInMultiset(r, i, j);
      OnceInMultiset(s, r[i]);
    }
  }

  lemma TwiceInMultiset<T>(s: seq<T>, i: nat, j: nat)
    requires i < j < |s| && s[i] == s[j]
    ensures multiset(s)[s[i]] >= 2
  {
    assert s == s[..j] + [s[j]] + s[j + 1..];
    assert s[..j] == s[..i] + [s[i]] + s[i + 1..j];
  }

  lemma {:induction false} OnceInMultiset<T>(s: seq<T>, x: T)
    requires Distinct(s)
    ensures multiset(s)[x] <= 1
  {
    if s != [] {
      OnceInMultiset(s[1..], x);
      assert s == [s[0]] + s[1..];
      assert s[0] !in s[1..] && s[0] !in multiset(s[1..]);
    }
  }

  /** Lists without repetitions that hold the same elements are permutations of each other. */
  lemma DistinctSameElements<T>(a: seq<T>, b: seq<T>)
    requires Distinct(a) && Distinct(b) && forall x :: x in a <==> x in b
    ensures multiset(a) == multiset(b)
  {
    forall x ensures multiset(a)[x] == multiset(b)[x] {
      OnceInMultiset(a, x);
      OnceInMultiset(b, x);
      assert x in multiset(a) <==> x in a;
      assert x in multiset(b) <==> x in b;
    }
  }

  // --- strings ----------------------------------------------------------------

  /** Python's `<=` on strings: lexicographic by code point. */
  predicate StrLeq(a: string, b: string) {
    a == [] || (b != [] && (a[0] < b[0] || (a[0] == b[0] && StrLeq(a[1..], b[1..]))))
  }

  lemma {:induction false} StrReflexive(a: string)
    ensures StrLeq(a, a)
  {
    if a != [] { StrReflexive(a[1..]); }
  }

  lemma {:induction false} StrAntisymmetric(a: string, b: string)
    requires StrLeq(a, b) && StrLeq(b, a)
    ensures a == b
  {
    if a != [] && b != [] {
      StrAntisymmetric(a[1..], b[1..]);
      assert a == [a[0]] + a[1..] && b == [b[0]] + b[1..];
    }
  }

  lemma {:induction false} StrTransitive(a: string, b: string, c: string)
    requires StrLeq(a, b) && StrLeq(b, c)
    ensures StrLeq(a, c)
  {
    if a != [] && a[0] == b[0] && b[0] == c[0] { StrTransitive(a[1..], b[1..], c[1..]); }
  }

  lemma {:induction false} StrTotal(a: string, b: string)
    ensures StrLeq(a, b) || StrLeq(b, a)
  {
    if a != [] && b != [] { StrTotal(a[1..], b[1..]); }
  }

  /** The order is lexicographic: a prefix comes first, and otherwise the first difference decides. */
  lemma {:induction false} StrLeqExactly(a: string, b: string)
    ensures StrLeq(a, b) <==> a <= b || exists i :: 0 <= i < |a| && i < |b| && a[..i] == b[..i] && a[i] < b[i]
  {
    if a != [] && b != [] && a[0] == b[0] {
      StrLeqExactly(a[1..], b[1..]);
      assert a == [a[0]] + a[1..] && b == [b[0]] + b[1..];
      if i :| 0 <= i < |a[1..]| && i < |b[1..]| && a[1..][..i] == b[1..][..i] && a[1..][i] < b[1..][i] {
        assert a[..i + 1] == [a[0]] + a[1..][..i] && b[..i + 1] == [b[0]] + b[1..][..i];
        assert a[i + 1] < b[i + 1];
      }
      if i :| 0 <= i < |a| && i < |b| && a[..i] == b[..i] && a[i] < b[i] {
        assert i > 0 && a[1..][..i - 1] == a[..i][1..] && b[1..][..i - 1] == b[..i][1..];
        assert a[1..][i - 1] < b[1..][i - 1];
      }
    } else if a != [] && b != [] {
      assert a[..0] == b[..0];
      if i :| 0 <= i < |a| && i < |b| && a[..i] == b[..i] && a[i] < b[i] {
        if i > 0 { assert a[..i][0] == b[..i][0]; }
      }
    }
  }

  lemma StrLeqIsTotalOrder()
    ensures TotalOrder(StrLeq)
  {
    forall a ensures StrLeq(a, a) { StrReflexive(a); }
    forall a, b | StrLeq(a, b) && StrLeq(b, a) ensures a == b { StrAntisymmetric(a, b); }
    forall a, b, c | StrLeq(a, b) && StrLeq(b, c) ensures StrLeq(a, c) { StrTransitive(a, b, c); }
    forall a, b ensures StrLeq(a, b) || StrLeq(b, a) { StrTotal(a, b); }
  }

  lemma SubsetSmaller<T>(a: set<T>, b: set<T>)
    requires a <= b
    ensures |a| <= |b| && (a != b ==> |a| < |b|)
  {
    assert b == a + (b - a);
    assert |b| == |a| + |b - a|;
    if a != b { assert b - a != {}; }
  }

  // --- sorting a set ------------------------------------------------------------

  lemma {:induction false} HasLeast<T(!new)>(leq: (T, T) -> bool, s: set<T>)
    requires Preorder(leq) && s != {}
    ensures exists m :: m in s && forall y :: y in s ==> leq(m, y)
    decreases |s|
  {
    var x :| x in s;
    var rest := s - {x};
    if rest == {} {
      assert s == {x};
    } else {
      HasLeast(leq, rest);
      var m :| m in rest && forall y :: y in rest ==> leq(m, y);
      var least := if leq(m, x) then m else x;
      forall y | y in s ensures leq(least, y) { assert y == x || y in rest; }
    }
  }

  ghost function Least<T(!new)>(leq: (T, T) -> bool, s: set<T>): (m: T)
    requires Preorder(leq) && s != {}
    ensures m in s && forall y :: y in s ==> leq(m, y)
  {
    HasLeast(leq, s);
    var m :| m in s && forall y :: y in s ==> leq(m, y);
    m
  }

  /** The elements of a set, every one once, in ascending order. */
  ghost function SortedSet<T(!new)>(leq: (T, T) -> bool, s: set<T>): (r: seq<T>)
    requires Preorder(leq)
    ensures forall x :: x in r <==> x in s
    ensures Distinct(r) && Sorted(leq, r)
    decreases |s|
  {
    if s == {} then []
    else var m := Least(leq, s); [m] + SortedSet(leq, s - {m})
  }

  function LeastKey(s: set<string>): (m: string)
    requires s != {}
    ensures m in s && forall y :: y in s ==> StrLeq(m, y)
  {
    StrLeqIsTotalOrder();
    HasLeast(StrLeq, s);
    var m :| m in s && forall y :: y in s ==> StrLeq(m, y);
    m
  }

  /** The same for strings. */
  function SortedKeys(s: set<string>): (r: seq<string>)
    ensures forall x :: x in r <==> x in s
    ensures Distinct(r) && Sorted(StrLeq, r)
    decreases |s|
  {
    if s == {} then []
    else var m := LeastKey(s); [m] + SortedKeys(s - {m})
  }

  /** Two ascending lists of the same elements are the same list, if no two elements tie. */
  lemma {:induction false} SortedUnique<T(!new)>(leq: (T, T) -> bool, a: seq<T>, b: seq<T>)
    requires Preorder(leq)
    requires Sorted(leq, a) && Distinct(a) && Sorted(leq, b) && Distinct(b)
    requires forall x :: x in a <==> x in b
    requires forall x, y :: x in a && y in a && leq(x, y) && leq(y, x) ==> x == y
    ensures a == b
  {
    DistinctSameElements(a, b);
    assert |multiset(a)| == |multiset(b)|;
    if a != [] {
      assert a[0] in b && b[0] in a;
      var i :| 0 <= i < |b| && b[i] == a[0];
      var j :| 0 <= j < |a| && a[j] == b[0];
      assert leq(b[0], b[i]) && leq(a[0], a[j]);
      assert a[0] == b[0];
      forall x ensures x in a[1..] <==> x in b[1..] {
        if x in a[1..] { assert x in a && x != a[0]; assert x in b; }
        if x in b[1..] { assert x in b && x != b[0]; assert x in a; }
      }
      SortedUnique(leq, a[1..], b[1..]);
      assert a == [a[0]] + a[1..] && b == [b[0]] + b[1..];
    }
  }
}
