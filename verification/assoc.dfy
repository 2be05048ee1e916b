/**
 * A Python `dict` with string keys as an association list. Assigning to a
 * key that is already present replaces its value in place, so the key keeps
 * the position of its first insertion; a new key goes to the end.
 */
module Assoc {
  import opened Wrappers

  type Dict<V> = seq<(string, V)>

  function Keys<V>(d: Dict<V>): (ks: seq<string>)
    ensures |ks| == |d|
    ensures forall k :: 0 <= k < |d| ==> ks[k] == d[k].0
  {
    seq(|d|, k requires 0 <= k < |d| => d[k].0)
  }

  lemma KeysCons<V>(x: (string, V), d: Dict<V>)
    ensures Keys([x] + d) == [x.0] + Keys(d)
  {
    var l, r := Keys([x] + d), [x.0] + Keys(d);
    forall k | 0 <= k < |l|
      ensures l[k] == r[k]
    {
      if k > 0 {
        assert ([x] + d)[k] == d[k - 1];
      }
    }
  }

  lemma KeysSplit<V>(d: Dict<V>)
    requires d != []
    ensures Keys(d) == [d[0].0] + Keys(d[1..])
  {
    assert d == [d[0]] + d[1..];
    KeysCons(d[0], d[1..]);
  }

  predicate DistinctKeys<V>(d: Dict<V>) {
    forall a, b :: 0 <= a < b < |d| ==> d[a].0 != d[b].0
  }

  /** `d` holds the entry `key: v`. */
  ghost predicate Stores<V>(d: Dict<V>, key: string, v: V) {
    exists k :: 0 <= k < |d| && d[k].0 == key && d[k].1 == v
  }

  /** `d.get(key)`: the value stored under `key`, if any. */
  function Get<V>(d: Dict<V>, key: string): (r: Option<V>)
    ensures r.Some? <==> key in Keys(d)
    decreases |d|
  {
    if d == [] then None
    else if d[0].0 == key then Some(d[0].1)
    else
      KeysSplit(d);
      Get(d[1..], key)
  }

  /**
   * `Get` is a lookup: what it returns is stored under the key, and in a dict
   * (distinct keys) whatever is stored under the key is what it returns.
   */
  lemma {:induction false} GetStored<V>(d: Dict<V>, key: string, v: V)
    ensures Get(d, key) == Some(v) ==> Stores(d, key, v)
    ensures DistinctKeys(d) && Stores(d, key, v) ==> Get(d, key) == Some(v)
    decreases |d|
  {
    if d != [] {
      var tail := d[1..];
      GetStored(tail, key, v);
      assert forall k :: 0 <= k < |tail| ==> tail[k] == d[k + 1];
      if Get(d, key) == Some(v) && d[0].0 != key {
        var k :| 0 <= k < |tail| && tail[k].0 == key && tail[k].1 == v;
        assert d[k + 1].0 == key && d[k + 1].1 == v;
      }
      if DistinctKeys(d) && Stores(d, key, v) {
        var k :| 0 <= k < |d| && d[k].0 == key && d[k].1 == v;
        if k > 0 {
          assert d[0].0 != key;
          assert tail[k - 1].0 == key && tail[k - 1].1 == v;
          assert DistinctKeys(tail);
        }
      }
    }
  }

  /** Looking up in a list with one more entry in front. */
  lemma GetCons<V>(x: (string, V), d: Dict<V>, k: string)
    ensures Get([x] + d, k) == if x.0 == k then Some(x.1) else Get(d, k)
  {
    assert ([x] + d)[0] == x && ([x] + d)[1..] == d;
  }

  /** `d[key] = v`. */
  function Put<V>(d: Dict<V>, key: string, v: V): (r: Dict<V>)
    ensures Keys(r) == if key in Keys(d) then Keys(d) else Keys(d) + [key]
    ensures Get(r, key) == Some(v)
    ensures forall k :: k != key ==> Get(r, k) == Get(d, k)
    decreases |d|
  {
    if d == [] then [(key, v)]
    else
      var x, tail := d[0], d[1..];
      assert d == [x] + tail;
      KeysCons(x, tail);
      if x.0 == key then
        KeysCons((key, v), tail);
        forall k ensures Get([(key, v)] + tail, k) == (if k == key then Some(v) else Get(d, k)) {
          GetCons((key, v), tail, k);
          GetCons(x, tail, k);
        }
        [(key, v)] + tail
      else
        var rest := Put(tail, key, v);
        KeysCons(x, rest);
        forall k ensures Get([x] + rest, k) == (if k == key then Some(v) else Get(d, k)) {
          GetCons(x, rest, k);
          GetCons(x, tail, k);
        }
        [x] + rest
  }

  /** The key order a sequence of assignments produces: each key at the place of its first assignment. */
  function InsertionOrder(ks: seq<string>, xs: seq<string>): seq<string>
    decreases |xs|
  {
    if xs == [] then ks
    else InsertionOrder(if xs[0] in ks then ks else ks + [xs[0]], xs[1..])
  }

  /** The assignments never create a duplicate key. */
  lemma {:induction false} PutKeepsKeysDistinct<V>(d: Dict<V>, key: string, v: V)
    requires DistinctKeys(d)
    ensures DistinctKeys(Put(d, key, v))
  {
    var r := Put(d, key, v);
    assert forall a :: 0 <= a < |r| ==> r[a].0 == Keys(r)[a];
    assert forall a :: 0 <= a < |d| ==> d[a].0 == Keys(d)[a];
    if key !in Keys(d) {
      forall a, b | 0 <= a < b < |r|
        ensures r[a].0 != r[b].0
      {
        if b == |d| {
          assert Keys(r)[b] == key;
          assert Keys(r)[a] == Keys(d)[a];
        } else {
          assert Keys(r)[a] == Keys(d)[a] && Keys(r)[b] == Keys(d)[b];
        }
      }
    }
  }

  /** Assigning twice to the same key is the same as assigning the second value once. */
  lemma {:induction false} PutPut<V>(d: Dict<V>, key: string, a: V, b: V)
    ensures Put(Put(d, key, a), key, b) == Put(d, key, b)
    decreases |d|
  {
    if d != [] && d[0].0 != key {
      PutPut(d[1..], key, a, b);
      var r := Put(d[1..], key, a);
      assert ([d[0]] + r)[1..] == r;
    }
  }
}
