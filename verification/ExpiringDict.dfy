/** Ordered dictionaries whose entries expire: the sweep that the mDNS cache and the neighbour
    tracker share. */
module ExpiringDict {
  import opened Options
  import opened OrderedDict

  datatype Timed<V> = Timed(value: V, expiresAt: int)

  /** The entries that are still valid after `now`, and those that are due, each in order. */
  function Alive<K, V>(d: Dict<K, Timed<V>>, now: int): Dict<K, Timed<V>> {
    if d == [] then [] else
      if d[0].value.expiresAt > now then [d[0]] + Alive(d[1..], now) else Alive(d[1..], now)
  }

  function Due<K, V>(d: Dict<K, Timed<V>>, now: int): Dict<K, Timed<V>> {
    if d == [] then [] else
      if d[0].value.expiresAt > now then Due(d[1..], now) else [d[0]] + Due(d[1..], now)
  }

  lemma {:induction false} AliveGet<K, V>(d: Dict<K, Timed<V>>, now: int, k: K)
    requires Unique(d)
    ensures Get(Alive(d, now), k)
         == if Get(d, k).Some? && Get(d, k).value.expiresAt > now then Get(d, k) else None
  {
    if d != [] {
      UniqueTail(d);
      AliveGet(d[1..], now, k);
      assert ([d[0]] + Alive(d[1..], now))[1..] == Alive(d[1..], now);
    }
  }

  lemma {:induction false} DueGet<K, V>(d: Dict<K, Timed<V>>, now: int, k: K)
    requires Unique(d)
    ensures Get(Due(d, now), k)
         == if Get(d, k).Some? && Get(d, k).value.expiresAt <= now then Get(d, k) else None
  {
    if d != [] {
      UniqueTail(d);
      DueGet(d[1..], now, k);
      assert ([d[0]] + Due(d[1..], now))[1..] == Due(d[1..], now);
    }
  }

  /** Where the entries that stay came from. */
  lemma {:induction false} AliveKeepsOrder<K, V>(d: Dict<K, Timed<V>>, now: int) returns (at: seq<nat>)
    ensures |at| == |Alive(d, now)|
    ensures forall i :: 0 <= i < |at| ==> at[i] < |d| && d[at[i]] == Alive(d, now)[i] && d[at[i]].value.expiresAt > now
    ensures forall i, j :: 0 <= i < j < |at| ==> at[i] < at[j]
  {
    if d == [] {
      at := [];
    } else {
      var rest := AliveKeepsOrder(d[1..], now);
      var moved := seq(|rest|, i requires 0 <= i < |rest| => rest[i] + 1);
      at := if d[0].value.expiresAt > now then [0] + moved else moved;
    }
  }

  lemma {:induction false} SweepSplits<K, V>(d: Dict<K, Timed<V>>, now: int)
    ensures |Alive(d, now)| + |Due(d, now)| == |d|
  {
    if d != [] {
      SweepSplits(d[1..], now);
    }
  }

  lemma AliveIsShaped<K, V>(d: Dict<K, Timed<V>>, now: int, touched: seq<K>)
    requires Unique(d) && Recent(d, touched)
    ensures Unique(Alive(d, now)) && Recent(Alive(d, now), touched)
  {
    var at := AliveKeepsOrder(d, now);
    var a := Alive(d, now);
    forall i, j | 0 <= i < j < |a| ensures a[j].key in Since(touched, a[i].key) {
      assert d[at[j]].key in Since(touched, d[at[i]].key);
    }
  }

  // ----- the loop

  lemma {:induction false} AliveStep<K, V>(d: Dict<K, Timed<V>>, x: Item<K, Timed<V>>, now: int)
    ensures Alive(d + [x], now) == Alive(d, now) + if x.value.expiresAt > now then [x] else []
    ensures Due(d + [x], now) == Due(d, now) + if x.value.expiresAt > now then [] else [x]
  {
    if d == [] {
      assert d + [x] == [x] && [x][1..] == [];
    } else {
      assert (d + [x])[1..] == d[1..] + [x];
      AliveStep(d[1..], x, now);
    }
  }

  lemma {:induction false} DropMiddle<K, V>(a: Dict<K, V>, x: Item<K, V>, b: Dict<K, V>)
    requires Get(a, x.key).None?
    ensures Drop(a + [x] + b, x.key) == a + b
  {
    if a == [] {
      assert a + [x] + b == [x] + b && ([x] + b)[1..] == b && a + b == b;
    } else {
      assert (a + [x] + b)[1..] == a[1..] + [x] + b;
      DropMiddle(a[1..], x, b);
      assert [a[0]] + (a[1..] + b) == a + b;
    }
  }

  lemma SweptKeyIsGone<K, V>(d: Dict<K, Timed<V>>, i: nat, now: int)
    requires Unique(d) && i < |d|
    ensures Get(Alive(d[..i], now), d[i].key).None?
  {
    var before := d[..i];
    assert Unique(before);
    AliveGet(before, now, d[i].key);
    GetFinds(before, d[i].key);
  }

  /** The dictionary and the list after the first `i` items of the snapshot. */
  function Kept<K, V>(d: Dict<K, Timed<V>>, i: nat, now: int): Dict<K, Timed<V>> {
    if i <= |d| then Alive(d[..i], now) + d[i..] else []
  }

  function Removed<K, V>(d: Dict<K, Timed<V>>, i: nat, now: int): Dict<K, Timed<V>> {
    if i <= |d| then Due(d[..i], now) else []
  }

  lemma SweepStep<K, V>(d: Dict<K, Timed<V>>, i: nat, now: int)
    requires Unique(d) && i < |d|
    ensures Kept(d, i + 1, now)
         == if d[i].value.expiresAt <= now then Drop(Kept(d, i, now), d[i].key) else Kept(d, i, now)
    ensures Removed(d, i + 1, now) == Removed(d, i, now) + if d[i].value.expiresAt <= now then [d[i]] else []
  {
    hide Alive, Due, Drop, Get;
    var x, before, after := d[i], Alive(d[..i], now), d[i + 1..];
    assert d[..i + 1] == d[..i] + [x];
    AliveStep(d[..i], x, now);
    assert Kept(d, i, now) == before + [x] + after;
    if x.value.expiresAt <= now {
      SweptKeyIsGone(d, i, now);
      DropMiddle(before, x, after);
      assert before + [] == before;
    }
  }

  lemma SweepEnds<K, V>(d: Dict<K, Timed<V>>, now: int)
    ensures Kept(d, 0, now) == d && Removed(d, 0, now) == []
    ensures Kept(d, |d|, now) == Alive(d, now) && Removed(d, |d|, now) == Due(d, now)
  {
    assert d[..0] == [] && [] + d[0..] == d;
    assert d[..|d|] == d && d[|d|..] == [] && Alive(d, now) + [] == Alive(d, now);
  }

  /** The sweep: over a snapshot of the items, every due one is removed and listed. */
  method Sweep<K(==), V>(d: Dict<K, Timed<V>>, now: int) returns (kept: Dict<K, Timed<V>>, due: Dict<K, Timed<V>>)
    requires Unique(d)
    ensures kept == Alive(d, now) && due == Due(d, now)
  {
    kept, due := d, [];
    SweepEnds(d, now);
    hide Kept, Removed, Drop, Unique;
    for i := 0 to |d|
      invariant kept == Kept(d, i, now) && due == Removed(d, i, now)
    {
      SweepStep(d, i, now);
      if d[i].value.expiresAt <= now {
        kept := Drop(kept, d[i].key);
        due := due + [d[i]];
      }
    }
  }
}
