/** Optional values, and results that carry either a value or an error. */
module Wrappers {
  datatype Option<T> = None | Some(value: T)

  datatype Result<T, E> = Ok(value: T) | Err(error: E)
}

/** Python's `dict`: an insertion-ordered mapping. It is a sequence of
    key/value pairs with pairwise distinct keys; assigning to a present key
    keeps its position, assigning to a new key appends it. */
module OrderedMap {
  import opened Wrappers

  type Dict<K, V> = seq<(K, V)>

  function Keys<K, V>(d: Dict<K, V>): (ks: seq<K>)
    ensures |ks| == |d|
    ensures forall i :: 0 <= i < |d| ==> ks[i] == d[i].0
  {
    seq(|d|, i requires 0 <= i < |d| => d[i].0)
  }

  predicate Distinct<T(==)>(s: seq<T>) {
    forall i, j :: 0 <= i < j < |s| ==> s[i] != s[j]
  }

  /** The representation invariant every Python dict satisfies. */
  predicate DistinctKeys<K(==, !new), V>(d: Dict<K, V>) {
    Distinct(Keys(d))
  }

  /** Where `k` sits in `d`, if anywhere. */
  function IndexOf<K(==, !new), V>(d: Dict<K, V>, k: K): (r: Option<nat>)
    ensures r.Some? ==> r.value < |d| && d[r.value].0 == k
    ensures r.None? <==> k !in Keys(d)
  {
    if d == [] then None
    else if d[|d| - 1].0 == k then Some(|d| - 1)
    else
      var r := IndexOf(d[..|d| - 1], k);
      assert Keys(d) == Keys(d[..|d| - 1]) + [d[|d| - 1].0];
      r
  }

  /** `d[k]` if `k in d`, as an option. */
  function Get<K(==, !new), V>(d: Dict<K, V>, k: K): (r: Option<V>)
    ensures r.None? <==> k !in Keys(d)
    ensures DistinctKeys(d) ==> forall i :: 0 <= i < |d| && d[i].0 == k ==> r == Some(d[i].1)
  {
    match IndexOf(d, k)
    case Some(i) =>
      assert DistinctKeys(d) ==> forall j :: 0 <= j < |d| && d[j].0 == k ==> j == i by {
        if DistinctKeys(d) {
          forall j | 0 <= j < |d| && d[j].0 == k ensures j == i {
            assert Keys(d)[j] == Keys(d)[i];
          }
        }
      }
      Some(d[i].1)
    case None => None
  }

  /** Python's `d.get(k, default)`. */
  function GetOr<K(==, !new), V>(d: Dict<K, V>, k: K, default: V): (r: V)
    ensures k in Keys(d) ==> Get(d, k) == Some(r)
    ensures k !in Keys(d) ==> r == default
  {
    match Get(d, k)
    case Some(v) => v
    case None => default
  }

  /** Python's `d[k] = v`. */
  function Set<K(==, !new), V>(d: Dict<K, V>, k: K, v: V): (r: Dict<K, V>)
    requires DistinctKeys(d)
    ensures DistinctKeys(r)
    ensures Get(r, k) == Some(v)
    ensures forall k' :: k' != k ==> Get(r, k') == Get(d, k')
    ensures Keys(r) == if k in Keys(d) then Keys(d) else Keys(d) + [k]
  {
    match IndexOf(d, k)
    case Some(i) =>
      var r := d[i := (k, v)];
      assert Keys(r) == Keys(d);
      r
    case None =>
      var r := d + [(k, v)];
      assert Keys(r) == Keys(d) + [k];
      r
  }

  /** Looking up in a dictionary extended at its end. */
  lemma GetSnoc<K(!new), V>(d: Dict<K, V>, k': K, v': V, k: K)
    ensures Get(d + [(k', v')], k) == if k == k' then Some(v') else Get(d, k)
  {
    assert (d + [(k', v')])[..|d|] == d;
  }

  /** A dictionary extended at its end keeps distinct keys exactly when the
      new key is new. */
  lemma DistinctSnoc<K(!new), V>(d: Dict<K, V>, k: K, v: V)
    ensures DistinctKeys(d + [(k, v)]) <==> DistinctKeys(d) && k !in Keys(d)
  {
    var e := d + [(k, v)];
    assert Keys(e) == Keys(d) + [k];
    if DistinctKeys(e) {
      forall i, j | 0 <= i < j < |d| ensures Keys(d)[i] != Keys(d)[j] {
        assert Keys(e)[i] == Keys(d)[i] && Keys(e)[j] == Keys(d)[j];
      }
      forall i | 0 <= i < |d| ensures Keys(d)[i] != k {
        assert Keys(e)[i] == Keys(d)[i] && Keys(e)[|d|] == k;
      }
    }
  }

  /** Dropping the last entry of a dictionary keeps its keys distinct, and
      the dropped key occurred nowhere else. */
  lemma DistinctInit<K(!new), V>(d: Dict<K, V>)
    requires DistinctKeys(d) && d != []
    ensures DistinctKeys(d[..|d| - 1])
    ensures d[|d| - 1].0 !in Keys(d[..|d| - 1])
    ensures Keys(d) == Keys(d[..|d| - 1]) + [d[|d| - 1].0]
  {
    var n := |d| - 1;
    var init := d[..n];
    assert Keys(d) == Keys(init) + [d[n].0];
    forall i, j | 0 <= i < j < n ensures Keys(init)[i] != Keys(init)[j] {
      assert Keys(d)[i] == Keys(init)[i] && Keys(d)[j] == Keys(init)[j];
    }
    forall i | 0 <= i < n ensures Keys(init)[i] != d[n].0 {
      assert Keys(d)[i] == Keys(init)[i] && Keys(d)[n] == d[n].0;
    }
  }

  /** Two dictionaries with the same key order and the same value at every
      key are the same dictionary. */
  lemma {:induction false} Extensionality<K(!new), V>(d: Dict<K, V>, e: Dict<K, V>)
    requires DistinctKeys(d) && DistinctKeys(e)
    requires Keys(d) == Keys(e)
    requires forall k :: Get(d, k) == Get(e, k)
    ensures d == e
  {
    assert |d| == |e|;
    forall i | 0 <= i < |d| ensures d[i] == e[i] {
      assert Keys(d)[i] == Keys(e)[i];
      var k := d[i].0;
      assert Get(d, k) == Some(d[i].1);
      assert Get(e, k) == Some(e[i].1);
    }
  }
}
