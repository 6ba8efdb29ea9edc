/** A JavaScript plain object used as a dictionary: string keys in insertion
    order. Assigning to a key that is present keeps its place; assigning to a
    new key appends it. */
module Dicts {
  import opened Values

  type Dict<V> = seq<(string, V)>

  /** `Object.keys(d)`. */
  function Keys<V>(d: Dict<V>): (ks: seq<string>)
    ensures |ks| == |d|
    ensures forall i :: 0 <= i < |d| ==> ks[i] == d[i].0
  {
    seq(|d|, i requires 0 <= i < |d| => d[i].0)
  }

  /** Position of the entry for `k`, or `|d|` when there is none. */
  function IndexOf<V>(d: Dict<V>, k: string): (i: nat)
    ensures i <= |d|
    ensures i < |d| ==> d[i].0 == k
    ensures forall j :: 0 <= j < i ==> d[j].0 != k
  {
    if d == [] then 0
    else if d[0].0 == k then 0
    else 1 + IndexOf(d[1..], k)
  }

  /** `d[k]`, or None when `k` is not a key. */
  function Get<V>(d: Dict<V>, k: string): (r: Option<V>)
    ensures r.None? <==> k !in Keys(d)
  {
    var i := IndexOf(d, k);
    assert i < |d| ==> Keys(d)[i] == k;
    if i < |d| then Some(d[i].1) else None
  }

  /** `d[k] = v`. */
  function Put<V>(d: Dict<V>, k: string, v: V): (r: Dict<V>)
    ensures Keys(r) == if k in Keys(d) then Keys(d) else Keys(d) + [k]
    ensures forall i :: 0 <= i < |r| ==> r[i] == (k, v) || (i < |d| && r[i] == d[i])
  {
    var i := IndexOf(d, k);
    if i < |d| then d[i := (k, v)] else d + [(k, v)]
  }

  /** After `d[k] = v`, reading `k` gives `v` and every other key reads as before. */
  lemma GetPut<V>(d: Dict<V>, k: string, v: V, j: string)
    ensures Get(Put(d, k, v), j) == if j == k then Some(v) else Get(d, j)
  {
    var i := IndexOf(d, k);
    var r := Put(d, k, v);
    if i < |d| {
      assert forall x :: 0 <= x < |d| ==> r[x].0 == d[x].0;
      assert forall x :: 0 <= x < |d| && x != i ==> r[x] == d[x];
    } else {
      assert forall x :: 0 <= x < |d| ==> r[x] == d[x];
      assert r[|d|] == (k, v);
    }
  }

  /** Assigning a key twice keeps only the second value. */
  lemma PutPut<V>(d: Dict<V>, k: string, v: V, w: V)
    ensures Put(Put(d, k, v), k, w) == Put(d, k, w)
  {
    var i := IndexOf(d, k);
    var r := Put(d, k, v);
    if i == |d| {
      assert IndexOf(r, k) == |d| by {
        assert r[|d|].0 == k;
        assert forall x :: 0 <= x < |d| ==> r[x].0 == d[x].0;
      }
    } else {
      assert forall x :: 0 <= x < |d| ==> r[x].0 == d[x].0;
      assert IndexOf(r, k) == i;
    }
  }

  /** The values of `d`, in key order. */
  function ValueList<V>(d: Dict<V>): (vs: seq<V>)
    ensures |vs| == |d|
    ensures forall i :: 0 <= i < |d| ==> vs[i] == d[i].1
  {
    seq(|d|, i requires 0 <= i < |d| => d[i].1)
  }
}
