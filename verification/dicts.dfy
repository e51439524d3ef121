/** Python dicts as insertion-ordered association lists.

    A dict is a sequence of key/value pairs with pairwise distinct keys;
    iterating the dict visits the pairs in sequence order. Assigning to an
    existing key keeps its position, assigning to a new key appends it. */
module Dicts {
  import opened Common

  type Dict<K, V> = seq<(K, V)>

  function KeySet<K, V>(d: Dict<K, V>): set<K> {
    if |d| == 0 then {} else {d[0].0} + KeySet(d[1..])
  }

  lemma {:induction false} KeySetMembers<K, V>(d: Dict<K, V>)
    ensures forall i :: 0 <= i < |d| ==> d[i].0 in KeySet(d)
    ensures forall k :: k in KeySet(d) ==> exists i :: 0 <= i < |d| && d[i].0 == k
  {
    if |d| > 0 {
      KeySetMembers(d[1..]);
      forall i | 0 < i < |d| ensures d[i].0 in KeySet(d) {
        assert d[1..][i - 1] == d[i];
      }
      forall k | k in KeySet(d) ensures exists i :: 0 <= i < |d| && d[i].0 == k {
        if k != d[0].0 {
          var i :| 0 <= i < |d[1..]| && d[1..][i].0 == k;
          assert d[i + 1] == d[1..][i];
        }
      }
    }
  }

  function Keys<K, V>(d: Dict<K, V>): (ks: seq<K>)
    ensures |ks| == |d| && forall i :: 0 <= i < |d| ==> ks[i] == d[i].0
  {
    if |d| == 0 then [] else [d[0].0] + Keys(d[1..])
  }

  /** Dicts with the same key sequence have the same key set. */
  lemma {:induction false} SameKeysSameKeySet<K, V, W>(a: Dict<K, V>, b: Dict<K, W>)
    requires Keys(a) == Keys(b)
    ensures KeySet(a) == KeySet(b)
  {
    if |a| > 0 {
      assert a[0].0 == Keys(a)[0] == Keys(b)[0] == b[0].0;
      assert Keys(a[1..]) == Keys(b[1..]) by {
        forall i | 0 <= i < |a| - 1 ensures Keys(a[1..])[i] == Keys(b[1..])[i] {
          assert Keys(a[1..])[i] == a[i + 1].0 == Keys(a)[i + 1];
          assert Keys(b[1..])[i] == b[i + 1].0 == Keys(b)[i + 1];
        }
      }
      SameKeysSameKeySet(a[1..], b[1..]);
    }
  }

  predicate DistinctKeys<K(==), V>(d: Dict<K, V>) {
    forall i, j :: 0 <= i < j < |d| ==> d[i].0 != d[j].0
  }

  /** `d[k]` when present. */
  function Get<K(==), V>(d: Dict<K, V>, k: K): (r: Option<V>)
    ensures r.Some? <==> k in KeySet(d)
  {
    if |d| == 0 then None
    else if d[0].0 == k then Some(d[0].1)
    else Get(d[1..], k)
  }

  /** A value found for `k` is paired with `k` somewhere in the dict. */
  lemma {:induction false} GetFound<K, V>(d: Dict<K, V>, k: K)
    requires k in KeySet(d)
    ensures exists i :: 0 <= i < |d| && d[i] == (k, Get(d, k).value)
  {
    if d[0].0 != k {
      GetFound(d[1..], k);
      var i :| 0 <= i < |d[1..]| && d[1..][i] == (k, Get(d[1..], k).value);
      assert d[i + 1] == d[1..][i];
    }
  }

  /** In a dict, the value found for the key at position `i` is the value at `i`. */
  lemma {:induction false} GetAt<K, V>(d: Dict<K, V>, i: nat)
    requires DistinctKeys(d) && i < |d|
    ensures Get(d, d[i].0) == Some(d[i].1)
  {
    if i > 0 {
      assert d[1..][i - 1] == d[i];
      GetAt(d[1..], i - 1);
    }
  }

  /** `d[k] = v`. */
  function Put<K(==), V>(d: Dict<K, V>, k: K, v: V): (r: Dict<K, V>)
    ensures KeySet(r) == KeySet(d) + {k}
    ensures Get(r, k) == Some(v)
    ensures k in KeySet(d) ==> Keys(r) == Keys(d)
    ensures k !in KeySet(d) ==> r == d + [(k, v)]
  {
    if |d| == 0 then [(k, v)]
    else if d[0].0 == k then [(k, v)] + d[1..]
    else
      var rest := Put(d[1..], k, v);
      assert ([d[0]] + rest)[1..] == rest;
      assert k !in KeySet(d) ==> d + [(k, v)] == [d[0]] + (d[1..] + [(k, v)]);
      [d[0]] + rest
  }

  /** `d[k] = v` leaves every other key's value alone. */
  lemma {:induction false} PutOther<K, V>(d: Dict<K, V>, k: K, v: V, k': K)
    requires k' != k
    ensures Get(Put(d, k, v), k') == Get(d, k')
  {
    if |d| > 0 && d[0].0 != k {
      assert ([d[0]] + Put(d[1..], k, v))[1..] == Put(d[1..], k, v);
      PutOther(d[1..], k, v, k');
    }
  }

  /** `d[k] = v` keeps the keys pairwise distinct. */
  lemma PutDistinct<K, V>(d: Dict<K, V>, k: K, v: V)
    requires DistinctKeys(d)
    ensures DistinctKeys(Put(d, k, v))
  {
    var r := Put(d, k, v);
    if k in KeySet(d) {
      assert forall i :: 0 <= i < |r| ==> r[i].0 == Keys(r)[i] == Keys(d)[i];
    } else {
      KeySetMembers(d);
    }
  }

  /** In a dict, a lookup finds exactly the pairs the dict holds. */
  lemma GetIffMember<K, V>(d: Dict<K, V>, k: K, v: V)
    requires DistinctKeys(d)
    ensures Get(d, k) == Some(v) <==> (k, v) in d
  {
    if Get(d, k) == Some(v) {
      GetFound(d, k);
    }
    if (k, v) in d {
      var i :| 0 <= i < |d| && d[i] == (k, v);
      GetAt(d, i);
    }
  }
}
