/**
 * Python's `sorted` / `list.sort` on values compared by a total order, and the
 * comparison orders the pipeline sorts by: strings, `(int, str)` tuples and
 * `(str, str)` tuples.
 */
module Ordering {
  import opened Text

  /** `le` is reflexive, antisymmetric, transitive and total. */
  ghost predicate TotalOrder<T(!new)>(le: (T, T) -> bool) {
    && (forall a :: le(a, a))
    && (forall a, b :: le(a, b) && le(b, a) ==> a == b)
    && (forall a, b, c :: le(a, b) && le(b, c) ==> le(a, c))
    && (forall a, b :: le(a, b) || le(b, a))
  }

  predicate Sorted<T>(s: seq<T>, le: (T, T) -> bool) {
    forall i, j :: 0 <= i < j < |s| ==> le(s[i], s[j])
  }

  /** Places `x` before the first element it is not above. */
  function Insert<T(!new)>(x: T, s: seq<T>, le: (T, T) -> bool): (r: seq<T>)
    requires TotalOrder(le) && Sorted(s, le)
    ensures multiset(r) == multiset(s) + multiset{x}
    ensures Sorted(r, le)
  {
    if s == [] then [x]
    else if le(x, s[0]) then [x] + s
    else
      var t := Insert(x, s[1..], le);
      assert s == [s[0]] + s[1..];
      FirstBelowRest(s, le);
      BelowAll(s[0], s[1..], t, x, le);
      ConsSorted(s[0], t, le);
      [s[0]] + t
  }

  /** In a sorted sequence the first element is below each later one. */
  lemma FirstBelowRest<T>(s: seq<T>, le: (T, T) -> bool)
    requires Sorted(s, le) && s != []
    ensures forall i :: 0 <= i < |s[1..]| ==> le(s[0], s[1..][i])
  {
    forall i | 0 <= i < |s[1..]| ensures le(s[0], s[1..][i]) {
      assert s[1..][i] == s[i + 1];
    }
  }

  /** What is below `x` and every element of `s` is below every element of a rearrangement of both. */
  lemma BelowAll<T>(b: T, s: seq<T>, t: seq<T>, x: T, le: (T, T) -> bool)
    requires multiset(t) == multiset(s) + multiset{x}
    requires le(b, x) && forall i :: 0 <= i < |s| ==> le(b, s[i])
    ensures forall k :: 0 <= k < |t| ==> le(b, t[k])
  {
    forall k | 0 <= k < |t| ensures le(b, t[k]) {
      assert t[k] in multiset(t);
      if t[k] != x {
        assert t[k] in multiset(s);
        var m :| 0 <= m < |s| && s[m] == t[k];
      }
    }
  }

  /** An element below every element of a sorted sequence, put first, keeps it sorted. */
  lemma ConsSorted<T>(y: T, t: seq<T>, le: (T, T) -> bool)
    requires Sorted(t, le) && forall k :: 0 <= k < |t| ==> le(y, t[k])
    ensures Sorted([y] + t, le)
  {
    var r := [y] + t;
    forall i, j | 0 <= i < j < |r| ensures le(r[i], r[j]) {
      assert r[j] == t[j - 1];
      if i > 0 {
        assert r[i] == t[i - 1];
      }
    }
  }

  /** `sorted(s)`: the elements of `s` rearranged into order. */
  function Sort<T(!new)>(s: seq<T>, le: (T, T) -> bool): (r: seq<T>)
    requires TotalOrder(le)
    ensures multiset(r) == multiset(s)
    ensures Sorted(r, le)
  {
    if s == [] then []
    else
      assert s == [s[0]] + s[1..];
      Insert(s[0], Sort(s[1..], le), le)
  }

  /** In a sorted sequence the first element is below every element. */
  lemma FirstIsLeast<T(!new)>(a: seq<T>, x: T, le: (T, T) -> bool)
    requires TotalOrder(le) && Sorted(a, le)
    requires x in a
    ensures le(a[0], x)
  {
    var i :| 0 <= i < |a| && a[i] == x;
    if i > 0 { assert le(a[0], a[i]); }
  }

  /** Under a total order there is one sorted arrangement of a multiset of values. */
  lemma {:induction false} SortedUnique<T(!new)>(a: seq<T>, b: seq<T>, le: (T, T) -> bool)
    requires TotalOrder(le)
    requires Sorted(a, le) && Sorted(b, le)
    requires multiset(a) == multiset(b)
    ensures a == b
    decreases |a|
  {
    SameLength(a, b);
    if a != [] {
      SameHead(a, b, le);
      SameTail(a, b);
      SortedTail(a, le);
      SortedTail(b, le);
      SortedUnique(a[1..], b[1..], le);
      assert a == [a[0]] + a[1..] && b == [b[0]] + b[1..];
    }
  }

  lemma SameLength<T>(a: seq<T>, b: seq<T>)
    requires multiset(a) == multiset(b)
    ensures |a| == |b|
  {
    assert |multiset(a)| == |a| && |multiset(b)| == |b|;
  }

  /** Two sorted arrangements of one multiset start with the same element. */
  lemma SameHead<T(!new)>(a: seq<T>, b: seq<T>, le: (T, T) -> bool)
    requires TotalOrder(le) && Sorted(a, le) && Sorted(b, le)
    requires a != [] && b != [] && multiset(a) == multiset(b)
    ensures a[0] == b[0]
  {
    assert a[0] in multiset(b) && b[0] in multiset(a);
    FirstIsLeast(b, a[0], le);
    FirstIsLeast(a, b[0], le);
  }

  lemma SameTail<T>(a: seq<T>, b: seq<T>)
    requires a != [] && b != [] && a[0] == b[0] && multiset(a) == multiset(b)
    ensures multiset(a[1..]) == multiset(b[1..])
  {
    assert a == [a[0]] + a[1..] && b == [b[0]] + b[1..];
    assert multiset(a[1..]) == multiset(a) - multiset([a[0]]);
    assert multiset(b[1..]) == multiset(b) - multiset([b[0]]);
  }

  lemma SortedTail<T>(a: seq<T>, le: (T, T) -> bool)
    requires a != [] && Sorted(a, le)
    ensures Sorted(a[1..], le)
  {
  }

  /** The result of `sorted` depends only on which values there are, not on their order. */
  lemma SortIgnoresOrder<T(!new)>(a: seq<T>, b: seq<T>, le: (T, T) -> bool)
    requires TotalOrder(le)
    requires multiset(a) == multiset(b)
    ensures Sort(a, le) == Sort(b, le)
  {
    SortedUnique(Sort(a, le), Sort(b, le), le);
  }

  /** Python's `filter(p, xs)` on a list: the elements satisfying `p`, in their order. */
  function Filter<T(!new)>(xs: seq<T>, p: T -> bool): (r: seq<T>)
    ensures |r| <= |xs|
    ensures forall x :: x in r <==> x in xs && p(x)
  {
    if xs == [] then [] else (if p(xs[0]) then [xs[0]] else []) + Filter(xs[1..], p)
  }

  /** Filtering keeps the order: it distributes over concatenation. */
  lemma {:induction false} FilterAppend<T(!new)>(xs: seq<T>, ys: seq<T>, p: T -> bool)
    ensures Filter(xs + ys, p) == Filter(xs, p) + Filter(ys, p)
  {
    if xs == [] {
      assert xs + ys == ys;
    } else {
      assert (xs + ys)[0] == xs[0] && (xs + ys)[1..] == xs[1..] + ys;
      FilterAppend(xs[1..], ys, p);
    }
  }

  // ---------------------------------------------------------------------------
  // the orders used

  /** Strings compared as Python compares them. */
  lemma StrOrder()
    ensures TotalOrder(StrLe)
  {
    forall a: string ensures StrLe(a, a) { StrLeRefl(a); }
    forall a: string, b: string | StrLe(a, b) && StrLe(b, a) ensures a == b { StrLeAntisym(a, b); }
    forall a: string, b: string, c: string | StrLe(a, b) && StrLe(b, c) ensures StrLe(a, c) {
      StrLeTrans(a, b, c);
    }
    forall a: string, b: string ensures StrLe(a, b) || StrLe(b, a) { StrLeTotal(a, b); }
  }

  /** Python's order on `(int, str)` tuples: by the number, then by the string. */
  predicate IntStrLe(p: (int, string), q: (int, string)) {
    p.0 < q.0 || (p.0 == q.0 && StrLe(p.1, q.1))
  }

  lemma IntStrOrder()
    ensures TotalOrder(IntStrLe)
  {
    StrOrder();
  }

  /** Python's order on `(str, str)` tuples: by the first string, then by the second. */
  predicate StrStrLe(p: (string, string), q: (string, string)) {
    (p.0 != q.0 && StrLe(p.0, q.0)) || (p.0 == q.0 && StrLe(p.1, q.1))
  }

  lemma StrStrOrder()
    ensures TotalOrder(StrStrLe)
  {
    StrOrder();
    forall p: (string, string), q: (string, string) | StrStrLe(p, q) && StrStrLe(q, p)
      ensures p == q
    {
      if p.0 != q.0 { StrLeAntisym(p.0, q.0); } else { StrLeAntisym(p.1, q.1); }
    }
    forall p: (string, string), q: (string, string), r: (string, string)
      | StrStrLe(p, q) && StrStrLe(q, r)
      ensures StrStrLe(p, r)
    {
      if p.0 == q.0 && q.0 == r.0 {
        StrLeTrans(p.1, q.1, r.1);
      } else {
        StrLeTrans(p.0, q.0, r.0);
        if p.0 == r.0 {
          if p.0 != q.0 { StrLeAntisym(p.0, q.0); } else { StrLeAntisym(q.0, r.0); }
        }
      }
    }
  }

  /** `sorted(set(s))` for a set of strings: its members in increasing order, each once. */
  function SortedSet(s: set<string>): (r: seq<string>)
    ensures |r| == |s| && (forall x :: x in s <==> x in r)
    ensures Sorted(r, StrLe)
    decreases |s|
  {
    if s == {} then []
    else
      var k := MinOf(s);
      var rest := SortedSet(s - {k});
      LeastFirst(s, k, rest);
      [k] + rest
  }

  /** The least member of `s` before the sorted others is `s` sorted. */
  lemma LeastFirst(s: set<string>, k: string, rest: seq<string>)
    requires k in s && forall x :: x in s ==> StrLe(k, x)
    requires |rest| == |s - {k}| && (forall x :: x in s - {k} <==> x in rest) && Sorted(rest, StrLe)
    ensures |[k] + rest| == |s| && (forall x :: x in s <==> x in [k] + rest)
    ensures Sorted([k] + rest, StrLe)
  {
    var r := [k] + rest;
    forall i, j | 0 <= i < j < |r| ensures StrLe(r[i], r[j]) {
      assert r[j] == rest[j - 1] && rest[j - 1] in rest;
      if i > 0 {
        assert r[i] == rest[i - 1];
      }
    }
  }

  lemma DistinctCons<T>(x: T, xs: seq<T>)
    requires x !in xs
    requires forall i, j :: 0 <= i < j < |xs| ==> xs[i] != xs[j]
    ensures forall i, j :: 0 <= i < j < |[x] + xs| ==> ([x] + xs)[i] != ([x] + xs)[j]
  {
    forall i, j | 0 <= i < j < |[x] + xs| ensures ([x] + xs)[i] != ([x] + xs)[j] {
      assert ([x] + xs)[j] == xs[j - 1];
      if i > 0 {
        assert ([x] + xs)[i] == xs[i - 1];
      }
    }
  }

  /** `sorted(set(s))` holds each member once. */
  lemma {:induction false} SortedSetDistinct(s: set<string>)
    ensures forall i, j :: 0 <= i < j < |SortedSet(s)| ==> SortedSet(s)[i] != SortedSet(s)[j]
    decreases |s|
  {
    if s != {} {
      var k := MinOf(s);
      var rest := SortedSet(s - {k});
      SortedSetDistinct(s - {k});
      assert k !in rest;
      DistinctCons(k, rest);
    }
  }

  /** A non-empty set of strings has a least member. */
  lemma HasMin(s: set<string>)
    requires s != {}
    ensures exists m :: m in s && forall x :: x in s ==> StrLe(m, x)
  {
    var m := Least(s);
  }

  /** A least member of a non-empty set of strings, found by induction on its size. */
  lemma {:induction false} Least(s: set<string>) returns (m: string)
    requires s != {}
    ensures m in s && forall x :: x in s ==> StrLe(m, x)
    decreases |s|
  {
    var x :| x in s;
    StrLeRefl(x);
    if s == {x} {
      m := x;
      forall y | y in s ensures StrLe(x, y) {
        assert y == x;
      }
    } else {
      var m' := Least(s - {x});
      StrLeTotal(x, m');
      if StrLe(x, m') {
        NewMin(s, x, m');
        m := x;
      } else {
        OldMin(s, x, m');
        m := m';
      }
    }
  }

  /** A new member below the least of the others is the least. */
  lemma NewMin(s: set<string>, x: string, m: string)
    requires x in s && StrLe(x, m) && StrLe(x, x)
    requires forall y :: y in s - {x} ==> StrLe(m, y)
    ensures forall y :: y in s ==> StrLe(x, y)
  {
    forall y | y in s ensures StrLe(x, y) {
      if y != x {
        assert y in s - {x};
        StrLeTrans(x, m, y);
      }
    }
  }

  /** The least of the others, when below the new member too, is the least. */
  lemma OldMin(s: set<string>, x: string, m: string)
    requires StrLe(m, x)
    requires forall y :: y in s - {x} ==> StrLe(m, y)
    ensures forall y :: y in s ==> StrLe(m, y)
  {
    forall y | y in s ensures StrLe(m, y) {
      if y != x {
        assert y in s - {x};
      }
    }
  }

  /** The least string of a non-empty set. */
  function MinOf(s: set<string>): (m: string)
    requires s != {}
    ensures m in s && forall x :: x in s ==> StrLe(m, x)
  {
    HasMin(s);
    StrOrder();
    var m :| m in s && forall x :: x in s ==> StrLe(m, x);
    m
  }
}
