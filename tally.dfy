/** Tallies (`collections.Counter` and `dict[key, int]` used as one): a map
    from a grouping key to its number of occurrences, where an absent key
    counts as 0. */
module Tally {

  /** `m.get(k, 0)`. */
  function Get0<K(!new)>(m: map<K, int>, k: K): int {
    if k in m then m[k] else 0
  }

  /** `Counter(xs)`: one key per distinct element, counting its occurrences. */
  function Counts<K(!new)>(xs: seq<K>): map<K, int> {
    if xs == [] then map[]
    else
      var init, x := xs[..|xs| - 1], xs[|xs| - 1];
      assert xs == init + [x];
      var c := Counts(init);
      c[x := Get0(c, x) + 1]
  }

  /** `Counter(xs)` holds exactly the elements of `xs`, each with its
      number of occurrences. */
  lemma {:induction false} CountsSpec<K(!new)>(xs: seq<K>)
    ensures forall k :: k in Counts(xs) <==> k in xs
    ensures forall k :: k in Counts(xs) ==> Counts(xs)[k] == multiset(xs)[k]
  {
    if xs != [] {
      var init, x := xs[..|xs| - 1], xs[|xs| - 1];
      assert xs == init + [x];
      CountsSpec(init);
    }
  }

  /** `a.update(b)` on a `Counter`, or the `a[k] = a.get(k, 0) + b[k]` loop:
      the keys of both, with the counts added. This is the definition; what
      adding tallies means is proved in `CountsConcat` and `TotalAddCounts`. */
  function AddCounts<K(!new)>(a: map<K, int>, b: map<K, int>): (r: map<K, int>)
    ensures r.Keys == a.Keys + b.Keys
    ensures forall k :: Get0(r, k) == Get0(a, k) + Get0(b, k)
  {
    map k | k in a.Keys + b.Keys :: Get0(a, k) + Get0(b, k)
  }

  /** The sum over the files of one key's count, an absent key counting as 0. */
  function ColumnSum<K(!new)>(ms: seq<map<K, int>>, k: K): int {
    if ms == [] then 0 else ColumnSum(ms[..|ms| - 1], k) + Get0(ms[|ms| - 1], k)
  }

  /** Some file's tally has key `k`. */
  predicate InSome<K(!new)>(ms: seq<map<K, int>>, k: K) {
    ms != [] && (InSome(ms[..|ms| - 1], k) || k in ms[|ms| - 1])
  }

  lemma {:induction false} InSomeIndex<K(!new)>(ms: seq<map<K, int>>, k: K)
    ensures InSome(ms, k) <==> exists i :: 0 <= i < |ms| && k in ms[i]
  {
    if ms != [] {
      var init := ms[..|ms| - 1];
      InSomeIndex(init, k);
      if InSome(init, k) {
        var i :| 0 <= i < |init| && k in init[i];
        assert k in ms[i];
      }
      if exists i :: 0 <= i < |ms| && k in ms[i] {
        var i :| 0 <= i < |ms| && k in ms[i];
        if i < |init| {
          assert k in init[i];
        }
      }
    }
  }

  /** The tallies of several files added up, in file order. Its keys are the
      union of the files' keys, and each count is that key's column sum. */
  function SumTallies<K(!new)>(ms: seq<map<K, int>>): (r: map<K, int>)
    ensures forall k :: k in r <==> InSome(ms, k)
    ensures forall k :: Get0(r, k) == ColumnSum(ms, k)
  {
    if ms == [] then map[]
    else AddCounts(SumTallies(ms[..|ms| - 1]), ms[|ms| - 1])
  }

  /** The sum of all the counts of a tally. */
  ghost function Total<K(!new)>(m: map<K, int>): int
    decreases |m|
  {
    if m == map[] then 0
    else
      var k :| k in m;
      m[k] + Total(m - {k})
  }

  lemma {:induction false} TotalRemove<K(!new)>(m: map<K, int>, k: K)
    requires k in m
    ensures Total(m) == m[k] + Total(m - {k})
    decreases |m|
  {
    var j :| j in m && Total(m) == m[j] + Total(m - {j});
    if j != k {
      TotalRemove(m - {j}, k);
      TotalRemove(m - {k}, j);
      assert m - {j} - {k} == m - {k} - {j};
    }
  }

  /** Setting one count changes the sum by the difference. */
  lemma TotalUpdate<K(!new)>(m: map<K, int>, k: K, v: int)
    ensures Total(m[k := v]) == Total(m) - Get0(m, k) + v
  {
    TotalRemove(m[k := v], k);
    assert m[k := v] - {k} == m - {k};
    if k in m {
      TotalRemove(m, k);
    } else {
      assert m - {k} == m;
    }
  }

  /** The counts of `Counter(xs)` add up to `len(xs)`. */
  lemma {:induction false} TotalCounts<K(!new)>(xs: seq<K>)
    ensures Total(Counts(xs)) == |xs|
  {
    if xs != [] {
      var init, x := xs[..|xs| - 1], xs[|xs| - 1];
      TotalCounts(init);
      TotalUpdate(Counts(init), x, Get0(Counts(init), x) + 1);
    }
  }

  lemma {:induction false} ColumnSumConcat<K(!new)>(a: seq<map<K, int>>, b: seq<map<K, int>>, k: K)
    ensures ColumnSum(a + b, k) == ColumnSum(a, k) + ColumnSum(b, k)
  {
    if b != [] {
      assert (a + b)[..|a + b| - 1] == a + b[..|b| - 1];
      ColumnSumConcat(a, b[..|b| - 1], k);
    } else {
      assert a + b == a;
    }
  }

  /** A column sum does not depend on the order of the files. */
  lemma {:induction false} ColumnSumPermutation<K(!new)>(ms: seq<map<K, int>>, ns: seq<map<K, int>>, k: K)
    requires multiset(ms) == multiset(ns)
    ensures ColumnSum(ms, k) == ColumnSum(ns, k)
  {
    if ms == [] {
      assert |ns| == |multiset(ns)| == 0;
      assert ns == [];
    } else {
      var init, x := ms[..|ms| - 1], ms[|ms| - 1];
      assert ms == init + [x];
      assert multiset(init) == multiset(ms) - multiset{x};
      assert x in multiset(ns);
      var j :| 0 <= j < |ns| && ns[j] == x;
      var rest := ColumnSumRemoveAt(ns, j, k);
      ColumnSumPermutation(init, rest, k);
      assert ColumnSum(ms, k) == ColumnSum(init, k) + Get0(x, k);
    }
  }

  /** Taking file `j` out of the list takes its count out of the column sum. */
  lemma ColumnSumRemoveAt<K(!new)>(ns: seq<map<K, int>>, j: nat, k: K) returns (rest: seq<map<K, int>>)
    requires j < |ns|
    ensures multiset(rest) == multiset(ns) - multiset{ns[j]}
    ensures ColumnSum(ns, k) == ColumnSum(rest, k) + Get0(ns[j], k)
  {
    var before, x, after := ns[..j], ns[j], ns[j + 1..];
    rest := before + after;
    assert ns == before + [x] + after;
    assert multiset(ns) == multiset(rest) + multiset{x};
    ColumnSumConcat(before, after, k);
    ColumnSumConcat(before + [x], after, k);
    ColumnSumConcat(before, [x], k);
    assert ColumnSum([x], k) == Get0(x, k) by {
      assert [x][..0] == [];
    }
  }

  /** Adding up the files' tallies gives the same total in any file order. */
  lemma SumTalliesPermutation<K(!new)>(ms: seq<map<K, int>>, ns: seq<map<K, int>>)
    requires multiset(ms) == multiset(ns)
    ensures SumTallies(ms) == SumTallies(ns)
  {
    var a, b := SumTallies(ms), SumTallies(ns);
    forall k ensures k in a <==> k in b {
      InSomeIndex(ms, k);
      InSomeIndex(ns, k);
      if k in a {
        var i :| 0 <= i < |ms| && k in ms[i];
        assert ms[i] in multiset(ns);
        var j :| 0 <= j < |ns| && ns[j] == ms[i];
      }
      if k in b {
        var i :| 0 <= i < |ns| && k in ns[i];
        assert ns[i] in multiset(ms);
        var j :| 0 <= j < |ms| && ms[j] == ns[i];
      }
    }
    forall k | k in a ensures a[k] == b[k] {
      ColumnSumPermutation(ms, ns, k);
      assert Get0(a, k) == Get0(b, k);
    }
    assert a.Keys == b.Keys;
  }

  /** Adding two tallies adds their sums. */
  lemma {:induction false} TotalAddCounts<K(!new)>(a: map<K, int>, b: map<K, int>)
    ensures Total(AddCounts(a, b)) == Total(a) + Total(b)
    decreases |b|
  {
    if b == map[] {
      AddNothing(a, b);
    } else {
      var k :| k in b;
      TotalAddCounts(a, b - {k});
      TotalAddStep(a, b, k);
    }
  }

  lemma TotalAddStep<K(!new)>(a: map<K, int>, b: map<K, int>, k: K)
    requires k in b
    requires Total(AddCounts(a, b - {k})) == Total(a) + Total(b - {k})
    ensures Total(AddCounts(a, b)) == Total(a) + Total(b)
  {
    var rest := b - {k};
    var r, v := AddCounts(a, rest), Get0(a, k) + b[k];
    AddOneMore(a, b, k);
    assert Get0(r, k) == Get0(a, k) by {
      assert k !in rest;
    }
    TotalUpdate(r, k, v);
    TotalRemove(b, k);
  }

  lemma AddNothing<K(!new)>(a: map<K, int>, b: map<K, int>)
    requires b == map[]
    ensures AddCounts(a, b) == a
  {
    assert AddCounts(a, b).Keys == a.Keys;
  }

  lemma AddOneMore<K(!new)>(a: map<K, int>, b: map<K, int>, k: K)
    requires k in b
    ensures AddCounts(a, b) == AddCounts(a, b - {k})[k := Get0(a, k) + b[k]]
  {
    var l, r := AddCounts(a, b), AddCounts(a, b - {k})[k := Get0(a, k) + b[k]];
    assert l.Keys == r.Keys;
    forall j | j in l ensures l[j] == r[j] {
      assert Get0(l, j) == Get0(a, j) + Get0(b, j);
      if j != k {
        assert Get0(b - {k}, j) == Get0(b, j);
      }
    }
  }

  /** Counting one more element adds one to its count. */
  lemma CountsSnoc<K(!new)>(xs: seq<K>, x: K)
    ensures Counts(xs + [x]) == Counts(xs)[x := Get0(Counts(xs), x) + 1]
  {
    assert (xs + [x])[..|xs|] == xs;
  }

  /** The loop step `c[x] = c.get(x, 0) + 1` keeps `c` the count of what
      has been seen. */
  lemma CountsBump<K(!new)>(c: map<K, int>, xs: seq<K>, x: K)
    requires c == Counts(xs)
    ensures c[x := Get0(c, x) + 1] == Counts(xs + [x])
  {
    CountsSnoc(xs, x);
  }

  /** Several lists joined in order. */
  function Concat<T>(xss: seq<seq<T>>): seq<T> {
    if xss == [] then [] else Concat(xss[..|xss| - 1]) + xss[|xss| - 1]
  }

  /** The tally of each list. */
  function CountsEach<K(!new)>(xss: seq<seq<K>>): seq<map<K, int>>
  {
    seq(|xss|, i requires 0 <= i < |xss| => Counts(xss[i]))
  }

  /** Counting each list and adding the tallies up is counting all the lists
      at once. */
  lemma {:induction false} SumOfCounts<K(!new)>(xss: seq<seq<K>>)
    ensures SumTallies(CountsEach(xss)) == Counts(Concat(xss))
  {
    if xss != [] {
      var init := xss[..|xss| - 1];
      SumOfCounts(init);
      assert CountsEach(xss)[..|xss| - 1] == CountsEach(init);
      CountsConcat(Concat(init), xss[|xss| - 1]);
    }
  }

  /** Counting a concatenation is adding the two counts. */
  lemma CountsConcat<K(!new)>(xs: seq<K>, ys: seq<K>)
    ensures Counts(xs + ys) == AddCounts(Counts(xs), Counts(ys))
  {
    var l, r := Counts(xs + ys), AddCounts(Counts(xs), Counts(ys));
    assert multiset(xs + ys) == multiset(xs) + multiset(ys);
    CountsSpec(xs + ys);
    CountsSpec(xs);
    CountsSpec(ys);
    forall k ensures Get0(l, k) == Get0(r, k) {
      CountOf(xs + ys, k);
      CountOf(xs, k);
      CountOf(ys, k);
    }
    SameCounts(l, r);
  }

  /** A key's count in `Counter(xs)` is its number of occurrences. */
  lemma CountOf<K(!new)>(xs: seq<K>, k: K)
    ensures Get0(Counts(xs), k) == multiset(xs)[k]
  {
    CountsSpec(xs);
  }

  /** Two tallies with the same keys and the same counts are equal. */
  lemma SameCounts<K(!new)>(l: map<K, int>, r: map<K, int>)
    requires l.Keys == r.Keys
    requires forall k :: Get0(l, k) == Get0(r, k)
    ensures l == r
  {
    forall k | k in l ensures l[k] == r[k] {
      assert Get0(l, k) == Get0(r, k);
    }
  }
}
