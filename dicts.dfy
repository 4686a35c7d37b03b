/** A Python `dict` keyed by file path, with its insertion order: a sequence
    of `(path, value)` pairs whose paths are distinct. Assigning `d[k] = v`
    replaces the value in place when `k` is present and appends otherwise. */
module Dicts {

  type Dict<V> = seq<(string, V)>

  function Keys<V>(d: Dict<V>): seq<string>
  {
    seq(|d|, i requires 0 <= i < |d| => d[i].0)
  }

  function Values<V>(d: Dict<V>): seq<V>
  {
    seq(|d|, i requires 0 <= i < |d| => d[i].1)
  }

  predicate Distinct(ks: seq<string>) {
    forall i, j :: 0 <= i < j < |ks| ==> ks[i] != ks[j]
  }

  predicate IsDict<V>(d: Dict<V>) {
    Distinct(Keys(d))
  }

  /** Where key `k` sits in a dict that holds it. */
  function IndexOf<V>(d: Dict<V>, k: string): (j: nat)
    requires k in Keys(d)
    ensures j < |d| && d[j].0 == k
  {
    if d[0].0 == k then 0
    else
      assert k in Keys(d[1..]) by {
        var i :| 0 <= i < |d| && Keys(d)[i] == k;
        assert Keys(d[1..])[i - 1] == k;
      }
      1 + IndexOf(d[1..], k)
  }

  /** `d[k] = v`. */
  function Put<V>(d: Dict<V>, k: string, v: V): (r: Dict<V>)
    requires IsDict(d)
    ensures IsDict(r)
    ensures Keys(r) == if k in Keys(d) then Keys(d) else Keys(d) + [k]
    ensures forall i :: 0 <= i < |r| ==> r[i] == if i < |d| && d[i].0 != k then d[i] else (k, v)
  {
    if k in Keys(d) then
      var j := IndexOf(d, k);
      forall i | 0 <= i < |d| && i != j ensures d[i].0 != k {
        assert Keys(d)[i] != Keys(d)[j];
      }
      var r := d[j := (k, v)];
      assert Keys(r) == Keys(d);
      r
    else
      var r := d + [(k, v)];
      forall i | 0 <= i < |d| ensures d[i].0 != k {
        assert Keys(d)[i] == d[i].0;
      }
      assert Keys(r) == Keys(d) + [k];
      r
  }

  /** The keys a sequence of `d[k] = ...` assignments leaves, in insertion
      order: each distinct element at its first occurrence. */
  function Dedup(s: seq<string>): (r: seq<string>)
    ensures Distinct(r) && forall x :: x in r <==> x in s
  {
    if s == [] then []
    else
      var p := Dedup(s[..|s| - 1]);
      if s[|s| - 1] in p then p else p + [s[|s| - 1]]
  }
}
