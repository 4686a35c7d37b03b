/** Python's `sorted(...)` over the distinct items of a dict (its keys, or its
    `(key, value)` pairs): because the items are distinct and the sort key
    orders them strictly, the result is the one sequence that lists them all
    in increasing order, and stability plays no part. */
module Sorting {

  /** `less` is a strict total order on `T`. */
  ghost predicate StrictTotalOrder<T(!new)>(less: (T, T) -> bool) {
    && (forall a :: !less(a, a))
    && (forall a, b, c :: less(a, b) && less(b, c) ==> less(a, c))
    && (forall a, b :: a == b || less(a, b) || less(b, a))
  }

  predicate SortedBy<T>(s: seq<T>, less: (T, T) -> bool) {
    forall i, j :: 0 <= i < j < |s| ==> less(s[i], s[j])
  }

  /** Insertion of a new element into a sorted sequence. */
  function Insert<T(!new)>(s: seq<T>, x: T, less: (T, T) -> bool): (r: seq<T>)
    requires StrictTotalOrder(less) && SortedBy(s, less) && x !in s
    ensures SortedBy(r, less)
    ensures |r| == |s| + 1 && forall y :: y in r <==> y == x || y in s
  {
    if s == [] then [x]
    else if less(x, s[0]) then [x] + s
    else
      var t := Insert(s[1..], x, less);
      assert forall y :: y in t ==> less(s[0], y) by {
        forall y | y in t ensures less(s[0], y) {
          if y != x {
            var k :| 1 <= k < |s| && s[k] == y;
          }
        }
      }
      [s[0]] + t
  }

  predicate IsLeast<T>(m: T, s: set<T>, less: (T, T) -> bool) {
    m in s && forall y :: y in s && y != m ==> less(m, y)
  }

  /** Every non-empty set has a least element under a strict total order. */
  lemma {:induction false} LeastExists<T(!new)>(s: set<T>, less: (T, T) -> bool) returns (m: T)
    requires StrictTotalOrder(less) && s != {}
    ensures IsLeast(m, s, less)
    decreases |s|
  {
    var x :| x in s;
    if s == {x} {
      m := x;
    } else {
      var m' := LeastExists(s - {x}, less);
      if less(x, m') {
        m := x;
        LeastNew(s, x, m', less);
      } else {
        m := m';
        LeastOld(s, x, m', less);
      }
    }
  }

  lemma HasLeast<T(!new)>(s: set<T>, less: (T, T) -> bool)
    requires StrictTotalOrder(less) && s != {}
    ensures exists m :: IsLeast(m, s, less)
  {
    var m := LeastExists(s, less);
  }

  lemma LeastNew<T(!new)>(s: set<T>, x: T, m: T, less: (T, T) -> bool)
    requires StrictTotalOrder(less) && x in s && IsLeast(m, s - {x}, less) && less(x, m)
    ensures IsLeast(x, s, less)
  {
    forall y | y in s && y != x ensures less(x, y) {
      if y != m {
        assert y in s - {x};
        assert less(m, y);
      }
    }
  }

  lemma LeastOld<T(!new)>(s: set<T>, x: T, m: T, less: (T, T) -> bool)
    requires StrictTotalOrder(less) && x in s && IsLeast(m, s - {x}, less) && !less(x, m)
    ensures IsLeast(m, s, less)
  {
    assert x != m;
    assert less(m, x);
    forall y | y in s && y != m ensures less(m, y) {
      if y != x {
        assert y in s - {x};
      }
    }
  }

  /** The elements of `s` in increasing order: what `sorted` returns. */
  ghost function SortSet<T(!new)>(s: set<T>, less: (T, T) -> bool): (r: seq<T>)
    ensures StrictTotalOrder(less) ==> SortedBy(r, less) && |r| == |s| && forall y :: y in r <==> y in s
    decreases |s|
  {
    if s == {} || !StrictTotalOrder(less) then []
    else
      HasLeast(s, less);
      var m :| IsLeast(m, s, less);
      var t := SortSet(s - {m}, less);
      assert forall k :: 0 <= k < |t| ==> less(m, t[k]);
      [m] + t
  }

  /** Two increasing sequences with the same elements are equal. */
  lemma {:induction false} SortedUnique<T(!new)>(a: seq<T>, b: seq<T>, less: (T, T) -> bool)
    requires StrictTotalOrder(less) && SortedBy(a, less) && SortedBy(b, less)
    requires |a| == |b| && forall y :: y in a <==> y in b
    ensures a == b
  {
    if a != [] {
      assert a[0] in b;
      assert b != [];
      assert b[0] in a;
      if a[0] != b[0] {
        var k :| 0 <= k < |a| && a[k] == b[0];
        assert false;
      }
      forall y ensures y in a[1..] <==> y in b[1..] {
        if y in a[1..] {
          var k :| 1 <= k < |a| && a[k] == y;
          assert less(a[0], y) && y in a;
          var j :| 0 <= j < |b| && b[j] == y;
          assert j != 0;
        }
        if y in b[1..] {
          var k :| 1 <= k < |b| && b[k] == y;
          assert less(b[0], y) && y in b;
          var j :| 0 <= j < |a| && a[j] == y;
          assert j != 0;
        }
      }
      SortedUnique(a[1..], b[1..], less);
      assert a == [a[0]] + a[1..] && b == [b[0]] + b[1..];
    }
  }

  /** `sorted(s)`: inserts the elements one at a time into a sorted list. */
  method SortElements<T(==,!new)>(s: set<T>, less: (T, T) -> bool) returns (r: seq<T>)
    requires StrictTotalOrder(less)
    ensures r == SortSet(s, less)
  {
    r := [];
    var rest := s;
    while rest != {}
      invariant rest <= s
      invariant SortedBy(r, less)
      invariant forall y :: y in r <==> y in s && y !in rest
      invariant |r| + |rest| == |s|
      decreases |rest|
    {
      var x :| x in rest;
      r := Insert(r, x, less);
      rest := rest - {x};
    }
    SortedUnique(r, SortSet(s, less), less);
  }
}
