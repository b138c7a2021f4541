/** Python dictionaries as insertion-ordered lists of entries.

    Order matters in one place of the pipeline: `dict(zip(d.values(), d.keys()))`
    keeps, for a repeated value, the key of its LAST entry. A plain `map` would
    lose that, so a dictionary here is the list of its `(key, value)` items. */
module Dicts {
  import opened Wrappers

  type Dict<K, V> = seq<(K, V)>

  /** Every key occurs in at most one entry (true of every Python dict). */
  predicate DistinctKeys<K(==), V>(d: Dict<K, V>) {
    forall i, j :: 0 <= i < j < |d| ==> d[i].0 != d[j].0
  }

  /** No two entries carry the same value. */
  predicate DistinctValues<K, V(==)>(d: Dict<K, V>) {
    forall i, j :: 0 <= i < j < |d| ==> d[i].1 != d[j].1
  }

  function Keys<K(==), V>(d: Dict<K, V>): set<K> {
    set i | 0 <= i < |d| :: d[i].0
  }

  function Values<K, V(==)>(d: Dict<K, V>): set<V> {
    set i | 0 <= i < |d| :: d[i].1
  }

  /** `d.get(k)`: the value of the first entry with key `k`. */
  function Get<K(==), V>(d: Dict<K, V>, k: K): (r: Option<V>)
    ensures r.Some? <==> k in Keys(d)
    ensures r.Some? ==> (k, r.value) in d
  {
    if |d| == 0 then None
    else if d[0].0 == k then Some(d[0].1)
    else
      KeysCons(d[0], d[1..]);
      Get(d[1..], k)
  }

  /** `d[k] = v`: overwrite the entry for `k` in place, or append a new one. */
  function Set<K(==,!new), V>(d: Dict<K, V>, k: K, v: V): (r: Dict<K, V>)
    ensures forall k' :: Get(r, k') == if k' == k then Some(v) else Get(d, k')
    ensures Keys(r) == Keys(d) + {k}
    ensures DistinctKeys(d) ==> DistinctKeys(r)
  {
    if |d| == 0 then
      assert Keys([(k, v)]) == {k} by { assert [(k, v)][0].0 == k; }
      [(k, v)]
    else if d[0].0 == k then
      KeysCons(d[0], d[1..]);
      KeysCons((k, v), d[1..]);
      [(k, v)] + d[1..]
    else
      var rest := Set(d[1..], k, v);
      KeysCons(d[0], d[1..]);
      KeysCons(d[0], rest);
      [d[0]] + rest
  }

  lemma KeysCons<K, V>(e: (K, V), d: Dict<K, V>)
    ensures Keys([e] + d) == {e.0} + Keys(d)
  {
    var ed := [e] + d;
    assert ed[0].0 == e.0;
    forall x | x in Keys(d) ensures x in Keys(ed) {
      var i :| 0 <= i < |d| && d[i].0 == x;
      assert ed[i + 1].0 == x;
    }
  }

  /** The value of the LAST pair in `ps` whose key is `k`. */
  function LastValue<K(==), V>(ps: seq<(K, V)>, k: K): (r: Option<V>)
    ensures r.Some? <==> k in Keys(ps)
    ensures r.Some? ==> (k, r.value) in ps
  {
    if |ps| == 0 then None
    else if ps[|ps| - 1].0 == k then Some(ps[|ps| - 1].1)
    else
      assert Keys(ps) == Keys(ps[..|ps| - 1]) + {ps[|ps| - 1].0};
      LastValue(ps[..|ps| - 1], k)
  }

  /** `for k, v in ps: d[k] = v`. A key listed several times keeps its last value;
      keys not listed keep their value from `d`. */
  function SetAll<K(==,!new), V>(d: Dict<K, V>, ps: seq<(K, V)>): (r: Dict<K, V>)
    ensures forall k :: Get(r, k) == if k in Keys(ps) then LastValue(ps, k) else Get(d, k)
    ensures Keys(r) == Keys(d) + Keys(ps)
    ensures DistinctKeys(d) ==> DistinctKeys(r)
  {
    if |ps| == 0 then d
    else
      var init := ps[..|ps| - 1];
      var last := ps[|ps| - 1];
      assert Keys(ps) == Keys(init) + {last.0};
      Set(SetAll(d, init), last.0, last.1)
  }

  /** `dict(ps)` built from a list of pairs. */
  function FromPairs<K(==,!new), V>(ps: seq<(K, V)>): (r: Dict<K, V>)
    ensures DistinctKeys(r)
    ensures Keys(r) == Keys(ps)
    ensures forall k :: Get(r, k) == LastValue(ps, k)
  {
    SetAll([], ps)
  }

  /** The entries with key and value exchanged, in the same order:
      `zip(d.values(), d.keys())`. */
  function Swap<K, V>(d: Dict<K, V>): (s: seq<(V, K)>)
    ensures |s| == |d|
    ensures forall i :: 0 <= i < |d| ==> s[i] == (d[i].1, d[i].0)
  {
    seq(|d|, i requires 0 <= i < |d| => (d[i].1, d[i].0))
  }

  /** `dict(zip(d.values(), d.keys()))`: the value -> key dictionary. */
  function Invert<K(==), V(==,!new)>(d: Dict<K, V>): Dict<V, K>
  {
    FromPairs(Swap(d))
  }

  /** An entry of a dictionary with distinct keys is what `Get` finds. */
  lemma GetMember<K, V>(d: Dict<K, V>, k: K, v: V)
    requires DistinctKeys(d)
    requires (k, v) in d
    ensures Get(d, k) == Some(v)
  {
    var i :| 0 <= i < |d| && d[i] == (k, v);
    var w := Get(d, k).value;
    var j :| 0 <= j < |d| && d[j] == (k, w);
    assert i == j;
  }

  /** The inverted dictionary has exactly the original values as keys,
      and its keys are distinct. */
  lemma InvertKeys<K, V(!new)>(d: Dict<K, V>)
    ensures Keys(Invert(d)) == Values(d)
    ensures DistinctKeys(Invert(d))
  {
    var s := Swap(d);
    assert Keys(s) == Values(d) by {
      forall v | v in Values(d) ensures v in Keys(s) {
        var i :| 0 <= i < |d| && d[i].1 == v;
        assert s[i].0 == v;
      }
    }
  }

  /** Looking a value up in the inverse and then the key in the original gives
      the value back: forward(inverse(v)) == v for every value. */
  lemma InvertThenGet<K, V(!new)>(d: Dict<K, V>, v: V)
    requires DistinctKeys(d)
    requires v in Values(d)
    ensures Get(Invert(d), v).Some?
    ensures Get(d, Get(Invert(d), v).value) == Some(v)
  {
    InvertKeys(d);
    var k := Get(Invert(d), v).value;
    assert LastValue(Swap(d), v) == Some(k);
    assert (v, k) in Swap(d);
    var i :| 0 <= i < |d| && Swap(d)[i] == (v, k);
    assert d[i] == (k, v);
    GetMember(d, k, v);
  }

  /** For a dictionary whose values are distinct, the inverse undoes it:
      inverse(forward(k)) == k for every key. */
  lemma GetThenInvert<K, V(!new)>(d: Dict<K, V>, k: K)
    requires DistinctKeys(d) && DistinctValues(d)
    requires k in Keys(d)
    ensures Get(Invert(d), Get(d, k).value) == Some(k)
  {
    var v := Get(d, k).value;
    var i :| 0 <= i < |d| && d[i] == (k, v);
    assert v in Values(d);
    InvertThenGet(d, v);
    var k' := Get(Invert(d), v).value;
    assert (v, k') in Swap(d);
    var j :| 0 <= j < |d| && Swap(d)[j] == (v, k');
    assert d[j].1 == v;
    assert i == j;
  }

  /** In a list of pairs with distinct keys, each key's last value is its only value. */
  lemma LastValueDistinct<K, V>(ps: seq<(K, V)>, i: int)
    requires DistinctKeys(ps)
    requires 0 <= i < |ps|
    ensures LastValue(ps, ps[i].0) == Some(ps[i].1)
  {
    var v := LastValue(ps, ps[i].0).value;
    var j :| 0 <= j < |ps| && ps[j] == (ps[i].0, v);
    assert i == j;
  }

  /** `Series.replace(from, to)` on the values: every value equal to `from`
      becomes `to`, keys and order unchanged. */
  function ReplaceValue<K(==,!new), V(==)>(d: Dict<K, V>, from: V, to: V): (r: Dict<K, V>)
    ensures forall k :: Get(r, k) == match Get(d, k)
                                     case None => None
                                     case Some(v) => Some(if v == from then to else v)
  {
    if |d| == 0 then []
    else [(d[0].0, if d[0].1 == from then to else d[0].1)] + ReplaceValue(d[1..], from, to)
  }
}
