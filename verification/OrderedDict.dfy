/** Python's OrderedDict as the bounded memories use it: a sequence of items with distinct keys,
    where storing and then moving to the end puts an item last, and `popitem(last=False)` drops
    the first. The recency lemmas say how much other traffic an eviction presupposes. */
module OrderedDict {
  import opened Options

  datatype Item<K, V> = Item(key: K, value: V)
  type Dict<K, V> = seq<Item<K, V>>

  function Get<K(==), V>(d: Dict<K, V>, k: K): Option<V> {
    if d == [] then None
    else if d[0].key == k then Some(d[0].value)
    else Get(d[1..], k)
  }

  function Drop<K(==), V>(d: Dict<K, V>, k: K): Dict<K, V> {
    if d == [] then []
    else if d[0].key == k then d[1..]
    else [d[0]] + Drop(d[1..], k)
  }

  /** `d[k] = v` followed by `d.move_to_end(k)`. */
  function Put<K(==), V>(d: Dict<K, V>, k: K, v: V): Dict<K, V> {
    Drop(d, k) + [Item(k, v)]
  }

  /** One `popitem(last=False)` when the dictionary has outgrown its capacity. */
  function Evict<K, V>(d: Dict<K, V>, capacity: nat): Dict<K, V> {
    if |d| > capacity then d[1..] else d
  }

  ghost predicate Unique<K, V>(d: Dict<K, V>) {
    forall i, j :: 0 <= i < j < |d| ==> d[i].key != d[j].key
  }

  lemma {:induction false} GetFinds<K, V>(d: Dict<K, V>, k: K)
    ensures Get(d, k).Some? ==> exists i :: 0 <= i < |d| && d[i] == Item(k, Get(d, k).value)
    ensures Get(d, k).None? ==> forall i :: 0 <= i < |d| ==> d[i].key != k
  {
    if d != [] && d[0].key != k {
      GetFinds(d[1..], k);
      if Get(d, k).Some? {
        var i :| 0 <= i < |d[1..]| && d[1..][i] == Item(k, Get(d, k).value);
        assert d[i + 1] == Item(k, Get(d, k).value);
      } else {
        forall i | 0 <= i < |d| ensures d[i].key != k {
          assert i > 0 ==> d[i] == d[1..][i - 1];
        }
      }
    } else if d != [] {
      assert d[0] == Item(k, Get(d, k).value);
    }
  }

  lemma GetAt<K, V>(d: Dict<K, V>, i: nat)
    requires Unique(d) && i < |d|
    ensures Get(d, d[i].key) == Some(d[i].value)
  {
    GetFinds(d, d[i].key);
  }

  lemma {:induction false} GetAppend<K, V>(d: Dict<K, V>, e: Dict<K, V>, k: K)
    ensures Get(d + e, k) == if Get(d, k).Some? then Get(d, k) else Get(e, k)
  {
    if d == [] {
      assert d + e == e;
    } else {
      assert (d + e)[1..] == d[1..] + e;
      GetAppend(d[1..], e, k);
    }
  }

  lemma {:induction false} GetDrop<K, V>(d: Dict<K, V>, k: K, q: K)
    requires Unique(d)
    ensures Get(Drop(d, k), q) == if q == k then None else Get(d, q)
  {
    if d != [] {
      UniqueTail(d);
      GetFinds(d[1..], k);
      GetDrop(d[1..], k, q);
    }
  }

  lemma UniqueTail<K, V>(d: Dict<K, V>)
    requires Unique(d) && d != []
    ensures Unique(d[1..])
    ensures Get(d[1..], d[0].key).None?
  {
    GetFinds(d[1..], d[0].key);
  }

  /** What a store is observed to do. */
  lemma GetPut<K, V>(d: Dict<K, V>, k: K, v: V, q: K)
    requires Unique(d)
    ensures Get(Put(d, k, v), q) == if q == k then Some(v) else Get(d, q)
  {
    GetDrop(d, k, q);
    GetAppend(Drop(d, k), [Item(k, v)], q);
    assert [Item(k, v)][1..] == [];
  }

  lemma GetEvict<K, V>(d: Dict<K, V>, capacity: nat, q: K)
    requires Unique(d)
    ensures Unique(Evict(d, capacity))
    ensures Get(Evict(d, capacity), q) == if |d| > capacity && d[0].key == q then None else Get(d, q)
  {
    if |d| > capacity {
      UniqueTail(d);
    }
  }

  /** Items that come later in one dictionary also do so in the other. */
  lemma {:induction false} DropKeepsOrder<K, V>(d: Dict<K, V>, k: K) returns (at: seq<nat>)
    ensures |at| == |Drop(d, k)|
    ensures forall i :: 0 <= i < |at| ==> at[i] < |d| && d[at[i]] == Drop(d, k)[i]
    ensures forall i, j :: 0 <= i < j < |at| ==> at[i] < at[j]
  {
    if d == [] {
      at := [];
    } else if d[0].key == k {
      at := seq(|d| - 1, i requires 0 <= i => i + 1);
    } else {
      var rest := DropKeepsOrder(d[1..], k);
      at := [0] + seq(|rest|, i requires 0 <= i < |rest| => rest[i] + 1);
    }
  }

  lemma DropUnique<K, V>(d: Dict<K, V>, k: K)
    requires Unique(d)
    ensures Unique(Drop(d, k))
    ensures forall i :: 0 <= i < |Drop(d, k)| ==> Drop(d, k)[i].key != k
  {
    var at := DropKeepsOrder(d, k);
    GetDrop(d, k, k);
    GetFinds(Drop(d, k), k);
  }

  lemma {:induction false} DropSize<K, V>(d: Dict<K, V>, k: K)
    ensures |Drop(d, k)| == |d| - if Get(d, k).Some? then 1 else 0
  {
    if d != [] && d[0].key != k {
      DropSize(d[1..], k);
    }
  }

  lemma PutUnique<K, V>(d: Dict<K, V>, k: K, v: V)
    requires Unique(d)
    ensures Unique(Put(d, k, v))
  {
    DropUnique(d, k);
  }

  // ----- recency

  /** The keys touched after the last touch of k. */
  ghost function Since<K>(touched: seq<K>, k: K): set<K> {
    if touched == [] || touched[|touched| - 1] == k then {} else
      Since(touched[..|touched| - 1], k) + {touched[|touched| - 1]}
  }

  /** Each item was touched after every item before it. */
  ghost predicate Recent<K, V>(d: Dict<K, V>, touched: seq<K>) {
    forall i, j :: 0 <= i < j < |d| ==> d[j].key in Since(touched, d[i].key)
  }

  lemma SinceStep<K>(touched: seq<K>, x: K, k: K)
    ensures Since(touched + [x], k) == if x == k then {} else Since(touched, k) + {x}
  {
    assert (touched + [x])[..|touched|] == touched;
  }

  /** Storing keeps the order of recency. */
  lemma PutRecent<K, V>(d: Dict<K, V>, k: K, v: V, touched: seq<K>)
    requires Unique(d) && Recent(d, touched)
    ensures Recent(Put(d, k, v), touched + [k])
  {
    var at := DropKeepsOrder(d, k);
    DropUnique(d, k);
    var p := Put(d, k, v);
    forall i, j | 0 <= i < j < |p| ensures p[j].key in Since(touched + [k], p[i].key) {
      SinceStep(touched, k, p[i].key);
      if j < |at| {
        assert d[at[j]].key in Since(touched, d[at[i]].key);
      }
    }
  }

  lemma DropRecent<K, V>(d: Dict<K, V>, k: K, touched: seq<K>)
    requires Recent(d, touched)
    ensures Recent(Drop(d, k), touched)
  {
    var at := DropKeepsOrder(d, k);
    forall i, j | 0 <= i < j < |Drop(d, k)| ensures Drop(d, k)[j].key in Since(touched, Drop(d, k)[i].key) {
      assert d[at[j]].key in Since(touched, d[at[i]].key);
    }
  }

  ghost function KeySet<K, V>(d: Dict<K, V>): set<K> {
    if d == [] then {} else {d[0].key} + KeySet(d[1..])
  }

  lemma {:induction false} KeySetExactly<K, V>(d: Dict<K, V>)
    ensures forall k {:trigger k in KeySet(d)} :: k in KeySet(d) ==> exists i :: 0 <= i < |d| && d[i].key == k
    ensures Unique(d) ==> |KeySet(d)| == |d|
  {
    if d != [] {
      KeySetExactly(d[1..]);
      forall k | k in KeySet(d) ensures exists i :: 0 <= i < |d| && d[i].key == k {
        if k == d[0].key {
          assert d[0].key == k;
        } else {
          assert k in KeySet(d[1..]);
          var i :| 0 <= i < |d[1..]| && d[1..][i].key == k;
          assert d[i + 1].key == k;
        }
      }
      if Unique(d) {
        assert Unique(d[1..]);
        assert d[0].key !in KeySet(d[1..]);
      }
    }
  }

  lemma SubsetSize<T>(a: set<T>, b: set<T>)
    requires a <= b
    ensures |a| <= |b|
  {
    assert b == a + (b - a);
  }

  /** The first item can only be evicted after as many other keys were touched as follow it. */
  lemma EvictionNeedsTraffic<K, V>(d: Dict<K, V>, touched: seq<K>)
    requires Unique(d) && Recent(d, touched) && d != []
    ensures |Since(touched, d[0].key)| >= |d| - 1
  {
    var others := d[1..];
    KeySetExactly(others);
    assert Unique(others);
    forall k | k in KeySet(others) ensures k in Since(touched, d[0].key) {
      var i :| 0 <= i < |others| && others[i].key == k;
      assert d[i + 1].key == k;
    }
    SubsetSize(KeySet(others), Since(touched, d[0].key));
  }

  /** `d[k] = v; d.move_to_end(k)`, then one eviction if the capacity is exceeded. */
  function Remember<K(==), V>(d: Dict<K, V>, k: K, v: V, capacity: nat): Dict<K, V> {
    Evict(Put(d, k, v), capacity)
  }

  /** A bounded memory after one store: in shape again, and every other key is as before, or was
      evicted because `capacity` other keys have been stored since it was. */
  lemma RememberStep<K, V>(d: Dict<K, V>, k: K, v: V, capacity: nat, touched: seq<K>)
    requires Unique(d) && Recent(d, touched) && 1 <= capacity && |d| <= capacity
    ensures var e := Remember(d, k, v, capacity);
            Unique(e) && Recent(e, touched + [k]) && |e| <= capacity
  {
    var p := Put(d, k, v);
    PutUnique(d, k, v);
    PutRecent(d, k, v, touched);
    DropSize(d, k);
    GetEvict(p, capacity, k);
  }

  lemma RememberGet<K, V>(d: Dict<K, V>, k: K, v: V, capacity: nat, touched: seq<K>, q: K)
    requires Unique(d) && Recent(d, touched) && 1 <= capacity && |d| <= capacity
    ensures var e := Remember(d, k, v, capacity);
            if q == k then Get(e, q) == Some(v)
            else Get(e, q) == Get(d, q) || (Get(e, q).None? && |Since(touched + [k], q)| >= capacity)
  {
    var p := Put(d, k, v);
    PutUnique(d, k, v);
    GetPut(d, k, v, q);
    PutRecent(d, k, v, touched);
    DropSize(d, k);
    GetEvict(p, capacity, q);
    if |p| > capacity {
      assert p[|p| - 1] == Item(k, v);
      EvictionNeedsTraffic(p, touched + [k]);
    }
  }

  /** What was touched since a key is still so after more touches of other keys. */
  lemma SinceGrows<K>(touched: seq<K>, x: K, k: K)
    requires x != k
    ensures |Since(touched, k)| <= |Since(touched + [x], k)|
  {
    SinceStep(touched, x, k);
    SubsetSize(Since(touched, k), Since(touched + [x], k));
  }
}
