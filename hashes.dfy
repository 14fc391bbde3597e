/** Ruby's `Hash` as the migration scripts use it: `h[k] = v` replaces the value of
    a key already present in place and otherwise appends a new entry, and `each`
    visits the entries in insertion order, which fixes the order of the emitted
    SQL statements. A hash is its list of entries. */
module Hashes {
  import opened Text

  type Hash<K, V> = seq<(K, V)>

  function Keys<K, V>(h: Hash<K, V>): seq<K> {
    seq(|h|, i requires 0 <= i < |h| => h[i].0)
  }

  /** `h[k]`: the value of the first entry with key `k`, `nil` when there is none. */
  function Lookup<K(==), V>(h: Hash<K, V>, k: K): (r: Option<V>)
    ensures r.Some? <==> k in Keys(h)
  {
    if h == [] then None
    else if h[0].0 == k then
      assert Keys(h)[0] == k;
      Some(h[0].1)
    else
      assert Keys(h[1..]) == Keys(h)[1..];
      Lookup(h[1..], k)
  }

  predicate DistinctKeys<K(==), V>(h: Hash<K, V>) {
    forall i, j :: 0 <= i < j < |h| ==> h[i].0 != h[j].0
  }

  /** `h[k] = v`. */
  function Put<K(==, !new), V>(h: Hash<K, V>, k: K, v: V): (r: Hash<K, V>)
    ensures Keys(r) == if k in Keys(h) then Keys(h) else Keys(h) + [k]
    ensures forall k' :: Lookup(r, k') == if k' == k then Some(v) else Lookup(h, k')
  {
    if h == [] then [(k, v)]
    else if h[0].0 == k then
      var r := [(k, v)] + h[1..];
      assert Keys(r) == Keys(h) && Keys(h)[0] == k;
      assert r[1..] == h[1..];
      r
    else
      var r := [h[0]] + Put(h[1..], k, v);
      assert Keys(h[1..]) == Keys(h)[1..];
      assert Keys(r) == [h[0].0] + Keys(Put(h[1..], k, v));
      assert r[1..] == Put(h[1..], k, v);
      r
  }

  /** Writing keeps the keys distinct. */
  lemma PutDistinct<K(!new), V>(h: Hash<K, V>, k: K, v: V)
    requires DistinctKeys(h)
    ensures DistinctKeys(Put(h, k, v))
  {
    var r := Put(h, k, v);
    forall i, j | 0 <= i < j < |r| ensures r[i].0 != r[j].0 {
      assert Keys(r)[i] == r[i].0 && Keys(r)[j] == r[j].0;
      if k !in Keys(h) && j == |h| {
        assert Keys(h)[i] == r[i].0;
      } else {
        assert Keys(h)[i] == r[i].0 && Keys(h)[j] == r[j].0;
      }
    }
  }

  /** With distinct keys, `h[k]` finds the entry of `k` wherever it is. */
  lemma {:induction false} LookupEntry<K, V>(h: Hash<K, V>, j: int)
    requires DistinctKeys(h) && 0 <= j < |h|
    ensures Lookup(h, h[j].0) == Some(h[j].1)
  {
    if j > 0 {
      assert h[0].0 != h[j].0;
      var t := h[1..];
      assert t[j - 1] == h[j];
      assert DistinctKeys(t) by {
        forall a, b | 0 <= a < b < |t| ensures t[a].0 != t[b].0 {
          assert t[a] == h[a + 1] && t[b] == h[b + 1];
        }
      }
      LookupEntry(t, j - 1);
    }
  }

  /** `h[k] = v` for a key not yet present appends the entry at the end. */
  lemma {:induction false} PutNew<K(!new), V>(h: Hash<K, V>, k: K, v: V)
    requires k !in Keys(h)
    ensures Put(h, k, v) == h + [(k, v)]
  {
    if h != [] {
      assert Keys(h)[0] == h[0].0;
      assert Keys(h[1..]) == Keys(h)[1..];
      PutNew(h[1..], k, v);
      assert h == [h[0]] + h[1..];
    }
  }

  /** A value `h[k]` finds is an entry of the hash. */
  lemma {:induction false} LookupIn<K, V>(h: Hash<K, V>, k: K, v: V)
    requires Lookup(h, k) == Some(v)
    ensures (k, v) in h
  {
    if h[0].0 != k {
      LookupIn(h[1..], k, v);
    }
  }
}
