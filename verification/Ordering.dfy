/** Orders and sorting.  Python's `sorted` appears in the modelled code in two shapes:
    over the entries of a dictionary (no order of their own, distinct keys) and over a
    tuple of records with a key function (stable). */
module Ordering {

  ghost predicate TotalOrder<T(!new)>(leq: (T, T) -> bool) {
    && (forall x :: leq(x, x))
    && (forall x, y :: leq(x, y) && leq(y, x) ==> x == y)
    && (forall x, y, z :: leq(x, y) && leq(y, z) ==> leq(x, z))
    && (forall x, y :: leq(x, y) || leq(y, x))
  }

  /** Connected and transitive: enough to sort, not enough to make the result unique. */
  ghost predicate TotalPreorder<T(!new)>(leq: (T, T) -> bool) {
    && (forall x, y, z :: leq(x, y) && leq(y, z) ==> leq(x, z))
    && (forall x, y :: leq(x, y) || leq(y, x))
  }

  ghost predicate Sorted<T>(xs: seq<T>, leq: (T, T) -> bool) {
    forall i, j :: 0 <= i < j < |xs| ==> leq(xs[i], xs[j])
  }

  ghost predicate Distinct<T>(xs: seq<T>) {
    forall i, j :: 0 <= i < j < |xs| ==> xs[i] != xs[j]
  }

  // ---- strings in code point order ----

  predicate StrLeq(a: string, b: string) {
    a == [] || (b != [] && (a[0] < b[0] || (a[0] == b[0] && StrLeq(a[1..], b[1..]))))
  }

  lemma {:induction false} StrLeqReflexive(a: string)
    ensures StrLeq(a, a)
  {
    if a != [] { StrLeqReflexive(a[1..]); }
  }

  lemma {:induction false} StrLeqAntisymmetric(a: string, b: string)
    requires StrLeq(a, b) && StrLeq(b, a)
    ensures a == b
  {
    if a != [] {
      StrLeqAntisymmetric(a[1..], b[1..]);
      assert a == [a[0]] + a[1..] && b == [b[0]] + b[1..];
    }
  }

  lemma {:induction false} StrLeqTransitive(a: string, b: string, c: string)
    requires StrLeq(a, b) && StrLeq(b, c)
    ensures StrLeq(a, c)
  {
    if a != [] && a[0] == b[0] == c[0] { StrLeqTransitive(a[1..], b[1..], c[1..]); }
  }

  lemma {:induction false} StrLeqConnected(a: string, b: string)
    ensures StrLeq(a, b) || StrLeq(b, a)
  {
    if a != [] && b != [] && a[0] == b[0] { StrLeqConnected(a[1..], b[1..]); }
  }

  lemma StrLeqIsTotalOrder()
    ensures TotalOrder(StrLeq)
  {
    forall x { StrLeqReflexive(x); }
    forall x, y | StrLeq(x, y) && StrLeq(y, x) ensures x == y { StrLeqAntisymmetric(x, y); }
    forall x, y, z | StrLeq(x, y) && StrLeq(y, z) ensures StrLeq(x, z) { StrLeqTransitive(x, y, z); }
    forall x, y ensures StrLeq(x, y) || StrLeq(y, x) { StrLeqConnected(x, y); }
  }

  /** The order spelt out: a prefix, or the smaller character where the two first differ. */
  predicate Precedes(a: string, b: string) {
    a <= b || exists i :: 0 <= i < |a| && i < |b| && a[..i] == b[..i] && a[i] < b[i]
  }

  lemma {:induction false} StrLeqExactly(a: string, b: string)
    ensures StrLeq(a, b) <==> Precedes(a, b)
  {
    if a != [] && b != [] {
      StrLeqExactly(a[1..], b[1..]);
      if StrLeq(a, b) && a[0] == b[0] && !(a[1..] <= b[1..]) {
        var i :| 0 <= i < |a[1..]| && i < |b[1..]| && a[1..][..i] == b[1..][..i] && a[1..][i] < b[1..][i];
        assert a[..i + 1] == [a[0]] + a[1..][..i] && b[..i + 1] == [b[0]] + b[1..][..i];
      }
      if Precedes(a, b) && !(a <= b) {
        var i :| 0 <= i < |a| && i < |b| && a[..i] == b[..i] && a[i] < b[i];
        if i > 0 {
          assert a[0] == a[..i][0] == b[..i][0] == b[0];
          assert a[1..][..i - 1] == a[..i][1..] && b[1..][..i - 1] == b[..i][1..];
        } else {
          assert a[0] < b[0];
        }
      }
    }
  }

  /** Python's order on pairs of strings. */
  predicate PairLeq(a: (string, string), b: (string, string)) {
    if a.0 == b.0 then StrLeq(a.1, b.1) else StrLeq(a.0, b.0)
  }

  lemma PairLeqIsTotalOrder()
    ensures TotalOrder(PairLeq)
  {
    StrLeqIsTotalOrder();
  }

  /** Scored ids as the rankings sort them: the higher score first, then by id. */
  predicate Stronger(a: (string, real), b: (string, real)) { a.1 > b.1 || (a.1 == b.1 && StrLeq(a.0, b.0)) }

  lemma StrongerIsPreorder()
    ensures TotalPreorder(Stronger)
  {
    StrLeqIsTotalOrder();
  }

  // ---- sorting a set under a total order ----

  lemma {:induction false} HasLeast<T(!new)>(s: set<T>, leq: (T, T) -> bool)
    requires TotalOrder(leq) && s != {}
    ensures exists m :: m in s && forall x | x in s :: leq(m, x)
    decreases |s|
  {
    var c :| c in s;
    if s != {c} {
      var t := s - {c};
      HasLeast(t, leq);
      var m :| m in t && forall x | x in t :: leq(m, x);
      if leq(c, m) {
        assert forall x | x in s :: x == c || x in t;
        assert c in s && forall x | x in s :: leq(c, x);
      } else {
        assert m in s && forall x | x in s :: leq(m, x);
      }
    } else {
      assert c in s && forall x | x in s :: leq(c, x);
    }
  }

  /** The elements of a set in ascending order. */
  function SortSet<T(!new)>(s: set<T>, leq: (T, T) -> bool): (r: seq<T>)
    requires TotalOrder(leq)
    ensures forall x :: x in r <==> x in s
    ensures Sorted(r, leq) && Distinct(r) && |r| == |s|
    decreases |s|
  {
    if s == {} then [] else
      HasLeast(s, leq);
      var m :| m in s && forall x | x in s :: leq(m, x);
      var rest := SortSet(s - {m}, leq);
      LeastFirst(m, rest, s, leq);
      [m] + rest
  }

  lemma LeastFirst<T>(m: T, rest: seq<T>, s: set<T>, leq: (T, T) -> bool)
    requires m in s && (forall x :: x in s ==> leq(m, x)) && (forall x :: x in rest <==> x in s - {m})
    requires Sorted(rest, leq) && Distinct(rest) && |rest| == |s - {m}|
    ensures var r := [m] + rest; Sorted(r, leq) && Distinct(r) && |r| == |s| && forall x :: x in r <==> x in s
  {
    var r := [m] + rest;
    forall i, j | 0 <= i < j < |r| ensures leq(r[i], r[j]) && r[i] != r[j] {
      assert r[j] == rest[j - 1] && rest[j - 1] in rest;
    }
  }

  /** Ascending sequences with the same elements are equal: sorting forgets insertion order. */
  lemma {:induction false} SortedUnique<T(!new)>(a: seq<T>, b: seq<T>, leq: (T, T) -> bool)
    requires TotalOrder(leq)
    requires Sorted(a, leq) && Distinct(a) && Sorted(b, leq) && Distinct(b)
    requires forall x :: x in a <==> x in b
    ensures a == b
  {
    assert a != [] ==> a[0] in a;
    assert b != [] ==> b[0] in b;
    if a != [] {
      assert a[0] == b[0];
      forall x ensures x in a[1..] <==> x in b[1..] {
        assert x in a <==> x == a[0] || x in a[1..];
        assert x in b <==> x == b[0] || x in b[1..];
      }
      SortedUnique(a[1..], b[1..], leq);
      assert a == [a[0]] + a[1..] && b == [b[0]] + b[1..];
    }
  }

  // ---- filtering ----

  /** What of xs is to be kept, in its order. */
  ghost function Filter<T>(xs: seq<T>, keep: T -> bool): seq<T> {
    if xs == [] then [] else (if keep(xs[0]) then [xs[0]] else []) + Filter(xs[1..], keep)
  }

  lemma {:induction false} FilterConcat<T>(xs: seq<T>, ys: seq<T>, keep: T -> bool)
    ensures Filter(xs + ys, keep) == Filter(xs, keep) + Filter(ys, keep)
  {
    if xs == [] {
      assert xs + ys == ys;
    } else {
      assert (xs + ys)[1..] == xs[1..] + ys;
      FilterConcat(xs[1..], ys, keep);
    }
  }

  lemma FilterOne<T>(x: T, keep: T -> bool)
    ensures Filter([x], keep) == if keep(x) then [x] else []
  {
    assert [x][1..] == [];
  }

  lemma {:induction false} InFilter<T>(xs: seq<T>, keep: T -> bool, x: T)
    ensures x in Filter(xs, keep) <==> x in xs && keep(x)
  {
    if xs != [] {
      assert xs == [xs[0]] + xs[1..];
      InFilter(xs[1..], keep, x);
    }
  }

  ghost function Each<S, T>(xs: seq<S>, f: S -> T): (r: seq<T>)
    ensures |r| == |xs| && forall i :: 0 <= i < |xs| ==> r[i] == f(xs[i])
  {
    seq(|xs|, i requires 0 <= i < |xs| => f(xs[i]))
  }

  lemma EachConcat<S, T>(xs: seq<S>, ys: seq<S>, f: S -> T)
    ensures Each(xs + ys, f) == Each(xs, f) + Each(ys, f)
  {
  }

  ghost function FirstOf<T>(xs: seq<T>, n: int): seq<T> { if n < 0 then [] else if n < |xs| then xs[..n] else xs }

  /** r is the first n of all, put in order. */
  ghost predicate BestOf<T(!new)>(all: seq<T>, before: (T, T) -> bool, n: int, r: seq<T>) {
    exists listed :: IsListing(all, before, n, r, listed)
  }

  ghost predicate IsListing<T>(all: seq<T>, before: (T, T) -> bool, n: int, r: seq<T>, listed: seq<T>) {
    multiset(listed) == multiset(all) && Sorted(listed, before) && r == FirstOf(listed, n)
  }

  // ---- stable sorting of a sequence ----

  function Insert<T>(x: T, xs: seq<T>, leq: (T, T) -> bool): (r: seq<T>) {
    if xs == [] || leq(x, xs[0]) then [x] + xs else [xs[0]] + Insert(x, xs[1..], leq)
  }

  /** Insertion from the right keeps equal elements in their order, as `sorted` does. */
  function Sort<T>(xs: seq<T>, leq: (T, T) -> bool): (r: seq<T>) {
    if xs == [] then [] else Insert(xs[0], Sort(xs[1..], leq), leq)
  }

  lemma {:induction false} InsertCorrect<T(!new)>(x: T, xs: seq<T>, leq: (T, T) -> bool)
    requires TotalPreorder(leq) && Sorted(xs, leq)
    ensures Sorted(Insert(x, xs, leq), leq)
    ensures multiset(Insert(x, xs, leq)) == multiset{x} + multiset(xs)
  {
    if xs == [] || leq(x, xs[0]) {
      var r := [x] + xs;
      forall i, j | 0 <= i < j < |r| ensures leq(r[i], r[j]) {
        if i == 0 { assert j == 1 || leq(xs[0], xs[j - 1]); }
      }
    } else {
      InsertCorrect(x, xs[1..], leq);
      var t := Insert(x, xs[1..], leq);
      assert xs == [xs[0]] + xs[1..];
      forall y | y in t ensures leq(xs[0], y) {
        assert y in multiset(t);
        if y != x {
          assert y in xs[1..];
        }
      }
      assert Sorted([xs[0]] + t, leq);
    }
  }

  lemma {:induction false} SortCorrect<T(!new)>(xs: seq<T>, leq: (T, T) -> bool)
    requires TotalPreorder(leq)
    ensures Sorted(Sort(xs, leq), leq)
    ensures multiset(Sort(xs, leq)) == multiset(xs)
  {
    if xs != [] {
      SortCorrect(xs[1..], leq);
      InsertCorrect(xs[0], Sort(xs[1..], leq), leq);
      assert xs == [xs[0]] + xs[1..];
    }
  }

  /** What callers use: a sorted sequence has the same elements, each as often. */
  lemma SortElements<T(!new)>(xs: seq<T>, leq: (T, T) -> bool)
    requires TotalPreorder(leq)
    ensures |Sort(xs, leq)| == |xs|
    ensures forall x :: x in Sort(xs, leq) <==> x in xs
    ensures Distinct(xs) ==> Distinct(Sort(xs, leq))
  {
    SortCorrect(xs, leq);
    var r := Sort(xs, leq);
    assert |multiset(r)| == |multiset(xs)|;
    forall x ensures x in r <==> x in xs {
      assert x in r <==> x in multiset(r);
      assert x in xs <==> x in multiset(xs);
    }
    if Distinct(xs) {
      forall i, j | 0 <= i < j < |r| ensures r[i] != r[j] {
        if r[i] == r[j] {
          CountTwice(r, i, j);
          DistinctCount(xs, r[i]);
        }
      }
    }
  }

  lemma CountTwice<T>(r: seq<T>, i: nat, j: nat)
    requires i < j < |r| && r[i] == r[j]
    ensures multiset(r)[r[i]] >= 2
  {
    assert r == r[..j] + [r[j]] + r[j + 1..];
    assert r[i] in r[..j];
    assert r[i] in multiset(r[..j]);
  }

  lemma {:induction false} DistinctCount<T>(xs: seq<T>, x: T)
    requires Distinct(xs)
    ensures multiset(xs)[x] <= 1
  {
    if xs != [] {
      assert xs == [xs[0]] + xs[1..];
      DistinctCount(xs[1..], x);
      assert forall k :: 0 <= k < |xs[1..]| ==> xs[1..][k] == xs[k + 1];
    }
  }
}
