/**
 * A Python dictionary as the sequence of its items in iteration order.
 * Assigning to a key that is already present replaces its value in place
 * (the item keeps its position); assigning to a new key appends an item.
 */
module PyDict {
  import opened Wrappers

  type Dict<K, V> = seq<(K, V)>

  /** No key occurs twice: true of every dictionary's items. */
  ghost predicate DistinctKeys<K, V>(d: Dict<K, V>) {
    forall i, j :: 0 <= i < j < |d| ==> d[i].0 != d[j].0
  }

  function Keys<K, V>(d: Dict<K, V>): set<K> {
    set i | 0 <= i < |d| :: d[i].0
  }

  /** The position of key `k`, if present. */
  function Find<K(==), V>(d: Dict<K, V>, k: K): (r: Option<nat>)
    ensures r.Some? ==> r.value < |d| && d[r.value].0 == k
    ensures r.None? <==> k !in Keys(d)
  {
    if d == [] then None
    else if d[|d| - 1].0 == k then Some(|d| - 1)
    else
      assert Keys(d) == Keys(d[..|d| - 1]) + {d[|d| - 1].0};
      Find(d[..|d| - 1], k)
  }

  /** `d[k]` when present. */
  function Get<K(==), V>(d: Dict<K, V>, k: K): (r: Option<V>)
    ensures r.Some? <==> k in Keys(d)
  {
    match Find(d, k)
    case None => None
    case Some(i) => Some(d[i].1)
  }

  /** `d[k] = v`: keys gain `k`; the size grows by one exactly when `k` is new. */
  function Put<K(==), V>(d: Dict<K, V>, k: K, v: V): (r: Dict<K, V>)
    ensures Keys(r) == Keys(d) + {k}
    ensures k in Keys(d) ==> |r| == |d|
    ensures k !in Keys(d) ==> |r| == |d| + 1
  {
    match Find(d, k)
    case None =>
      assert Keys(d + [(k, v)]) == Keys(d) + {k} by {
        var r := d + [(k, v)];
        assert forall i :: 0 <= i < |d| ==> r[i] == d[i];
        assert r[|d|].0 == k;
      }
      d + [(k, v)]
    case Some(i) =>
      assert Keys(d[i := (k, v)]) == Keys(d) by {
        var r := d[i := (k, v)];
        forall x | x in Keys(d) ensures x in Keys(r) {
          var j :| 0 <= j < |d| && d[j].0 == x;
          assert r[j].0 == x;
        }
      }
      d[i := (k, v)]
  }

  lemma {:induction false} FindUnique<K, V>(d: Dict<K, V>, k: K, i: nat)
    requires DistinctKeys(d)
    requires i < |d| && d[i].0 == k
    ensures Find(d, k) == Some(i)
  {
    if i < |d| - 1 {
      FindUnique(d[..|d| - 1], k, i);
    }
  }

  /** An assignment keeps the keys distinct, and it replaces an existing item where it stands. */
  lemma PutPreservesDistinct<K, V>(d: Dict<K, V>, k: K, v: V)
    requires DistinctKeys(d)
    ensures DistinctKeys(Put(d, k, v))
    ensures forall i :: 0 <= i < |d| && d[i].0 != k ==> Put(d, k, v)[i] == d[i]
  {
  }

  /** After `d[k] = v`, reading `k` gives `v` and every other key reads as before. */
  lemma {:induction false} GetPut<K, V>(d: Dict<K, V>, k: K, v: V, k': K)
    requires DistinctKeys(d)
    ensures Get(Put(d, k, v), k) == Some(v)
    ensures k' != k ==> Get(Put(d, k, v), k') == Get(d, k')
  {
    PutPreservesDistinct(d, k, v);
    var r := Put(d, k, v);
    var i: nat := if Find(d, k).Some? then Find(d, k).value else |d|;
    assert i < |r| && r[i] == (k, v);
    FindUnique(r, k, i);
    if k' != k && k' in Keys(d) {
      var j :| 0 <= j < |d| && d[j].0 == k';
      FindUnique(d, k', j);
      assert r[j] == d[j];
      FindUnique(r, k', j);
    }
  }

  /** A dictionary with distinct keys has exactly one item per key. */
  lemma {:induction false} SizeIsKeyCount<K, V>(d: Dict<K, V>)
    requires DistinctKeys(d)
    ensures |Keys(d)| == |d|
  {
    if d != [] {
      var p := d[..|d| - 1];
      SizeIsKeyCount(p);
      assert Keys(d) == Keys(p) + {d[|d| - 1].0};
      assert d[|d| - 1].0 !in Keys(p);
    }
  }

  /** The dictionary after `d[k] = v` for every pair of `ps` in turn, starting empty. */
  function PutAll<K(==), V>(ps: seq<(K, V)>): (r: Dict<K, V>)
    ensures forall i :: 0 <= i < |ps| ==> ps[i].0 in Keys(r)
  {
    if ps == [] then []
    else Put(PutAll(ps[..|ps| - 1]), ps[|ps| - 1].0, ps[|ps| - 1].1)
  }

  /** Pairs that never give one key two different values. */
  ghost predicate Consistent<K, V>(ps: seq<(K, V)>) {
    forall i, j :: 0 <= i < |ps| && 0 <= j < |ps| && ps[i].0 == ps[j].0 ==> ps[i].1 == ps[j].1
  }

  /**
   * Assigning consistent pairs in turn yields a dictionary with distinct keys
   * in which every key reads the value its pairs give it.
   */
  lemma {:induction false} PutAllGet<K, V>(ps: seq<(K, V)>)
    requires Consistent(ps)
    ensures DistinctKeys(PutAll(ps))
    ensures forall i :: 0 <= i < |ps| ==> Get(PutAll(ps), ps[i].0) == Some(ps[i].1)
  {
    if ps != [] {
      var p := ps[..|ps| - 1];
      var (k, v) := ps[|ps| - 1];
      assert Consistent(p);
      PutAllGet(p);
      var d := PutAll(p);
      assert PutAll(ps) == Put(d, k, v);
      PutPreservesDistinct(d, k, v);
      forall i | 0 <= i < |ps|
        ensures Get(PutAll(ps), ps[i].0) == Some(ps[i].1)
      {
        if i < |p| {
          assert ps[i] == p[i];
        }
        PutGetOther(d, k, v, ps[i].0, ps[i].1);
      }
    }
  }

  /** A key that reads `v'` reads it still after an assignment that agrees with it. */
  lemma PutGetOther<K, V>(d: Dict<K, V>, k: K, v: V, k': K, v': V)
    requires DistinctKeys(d)
    requires k' == k ==> v' == v
    requires k' != k ==> Get(d, k') == Some(v')
    ensures Get(Put(d, k, v), k') == Some(v')
  {
    GetPut(d, k, v, k');
  }
}
