/** Stable sorting as Python's `sorted` performs it, and what a sort preserves. */
module Sorting {
  function Insert<T>(before: (T, T) -> bool, x: T, s: seq<T>): seq<T> {
    if s == [] || before(x, s[0]) then [x] + s else [s[0]] + Insert(before, x, s[1..])
  }

  /** Equal elements keep their order, because a later one is inserted behind them. */
  function SortBy<T>(before: (T, T) -> bool, s: seq<T>): seq<T> {
    if s == [] then [] else Insert(before, s[|s| - 1], SortBy(before, s[..|s| - 1]))
  }

  lemma {:induction false} InsertKeeps<T>(before: (T, T) -> bool, x: T, s: seq<T>)
    ensures multiset(Insert(before, x, s)) == multiset(s) + multiset{x}
  {
    if s != [] && !before(x, s[0]) {
      InsertKeeps(before, x, s[1..]);
      assert s == [s[0]] + s[1..];
    }
  }

  /** Sorting loses nothing and invents nothing. */
  lemma {:induction false} SortKeeps<T>(before: (T, T) -> bool, s: seq<T>)
    ensures multiset(SortBy(before, s)) == multiset(s)
    ensures |SortBy(before, s)| == |s|
    ensures forall x :: x in SortBy(before, s) <==> x in s
  {
    if s != [] {
      var n := |s| - 1;
      SortKeeps(before, s[..n]);
      InsertKeeps(before, s[n], SortBy(before, s[..n]));
      assert s == s[..n] + [s[n]];
    }
    SameElements(SortBy(before, s), s);
  }

  lemma SameElements<T>(s: seq<T>, t: seq<T>)
    requires multiset(s) == multiset(t)
    ensures |s| == |t| && forall x :: x in s <==> x in t
  {
    assert |s| == |multiset(s)| && |t| == |multiset(t)|;
    forall x ensures x in s <==> x in t {
      assert x in s <==> x in multiset(s);
      assert x in t <==> x in multiset(t);
    }
  }

  /** A symmetric relation between all pairs of elements does not depend on their order. */
  ghost predicate Pairwise<T>(rel: (T, T) -> bool, s: seq<T>) {
    forall i, j :: 0 <= i < j < |s| ==> rel(s[i], s[j]) && rel(s[j], s[i])
  }

  lemma {:induction false} InsertPairwise<T>(rel: (T, T) -> bool, before: (T, T) -> bool, x: T, s: seq<T>)
    requires Pairwise(rel, s) && forall y :: y in s ==> rel(x, y) && rel(y, x)
    ensures Pairwise(rel, Insert(before, x, s))
  {
    var r := Insert(before, x, s);
    if s != [] && !before(x, s[0]) {
      var rest := Insert(before, x, s[1..]);
      InsertPairwise(rel, before, x, s[1..]);
      InsertKeeps(before, x, s[1..]);
      forall j | 0 <= j < |rest| ensures rel(s[0], rest[j]) && rel(rest[j], s[0]) {
        assert rest[j] in multiset(rest);
        if rest[j] in s[1..] {
          var k :| 0 <= k < |s[1..]| && s[1..][k] == rest[j];
          assert s[k + 1] == rest[j];
        } else {
          assert s[0] in s;
        }
      }
    } else {
      forall j | 0 <= j < |s| ensures rel(x, s[j]) && rel(s[j], x) {
        assert s[j] in s;
      }
    }
  }

  lemma {:induction false} SortPairwise<T>(rel: (T, T) -> bool, before: (T, T) -> bool, s: seq<T>)
    requires Pairwise(rel, s)
    ensures Pairwise(rel, SortBy(before, s))
  {
    if s != [] {
      var rest, x := s[..|s| - 1], s[|s| - 1];
      LastRelates(rel, s, rest, x);
      hide Pairwise;
      SortPairwise(rel, before, rest);
      SortKeeps(before, rest);
      forall y | y in SortBy(before, rest) ensures rel(x, y) && rel(y, x) {
        assert y in multiset(SortBy(before, rest));
        assert y in multiset(rest);
      }
      InsertPairwise(rel, before, x, SortBy(before, rest));
    }
  }

  lemma LastRelates<T>(rel: (T, T) -> bool, s: seq<T>, rest: seq<T>, x: T)
    requires Pairwise(rel, s) && s != [] && rest == s[..|s| - 1] && x == s[|s| - 1]
    ensures Pairwise(rel, rest) && forall y :: y in rest ==> rel(x, y) && rel(y, x)
  {
    forall y | y in rest ensures rel(x, y) && rel(y, x) {
      var i :| 0 <= i < |rest| && rest[i] == y;
      assert s[i] == y;
    }
  }

  ghost predicate SortedBy<T>(key: T -> int, s: seq<T>) {
    forall i, j :: 0 <= i < j < |s| ==> key(s[i]) <= key(s[j])
  }

  ghost predicate OrdersBy<T(!new)>(key: T -> int, before: (T, T) -> bool) {
    forall a, b :: before(a, b) <==> key(a) < key(b)
  }

  lemma {:induction false} InsertSorts<T(!new)>(key: T -> int, before: (T, T) -> bool, x: T, s: seq<T>)
    requires OrdersBy(key, before) && SortedBy(key, s)
    ensures SortedBy(key, Insert(before, x, s))
  {
    if s != [] && !before(x, s[0]) {
      InsertSorts(key, before, x, s[1..]);
      var rest := Insert(before, x, s[1..]);
      InsertKeeps(before, x, s[1..]);
      forall i | 0 <= i < |rest| ensures key(s[0]) <= key(rest[i]) {
        assert rest[i] in multiset(rest);
        TailAbove(key, s, rest[i], x);
      }
      SortedCons(key, s[0], rest);
    }
  }

  lemma SortedCons<T>(key: T -> int, x: T, s: seq<T>)
    requires SortedBy(key, s) && forall i :: 0 <= i < |s| ==> key(x) <= key(s[i])
    ensures SortedBy(key, [x] + s)
  {
  }

  lemma TailAbove<T>(key: T -> int, s: seq<T>, y: T, x: T)
    requires SortedBy(key, s) && s != [] && key(s[0]) <= key(x)
    requires y in multiset(s[1..]) + multiset{x}
    ensures key(s[0]) <= key(y)
  {
    if y in s[1..] {
      var j :| 0 <= j < |s[1..]| && s[1..][j] == y;
      assert s[j + 1] == y;
    }
  }

  lemma {:induction false} SortBySorts<T(!new)>(key: T -> int, before: (T, T) -> bool, s: seq<T>)
    requires OrdersBy(key, before)
    ensures SortedBy(key, SortBy(before, s))
  {
    if s != [] {
      var n := |s| - 1;
      SortBySorts(key, before, s[..n]);
      InsertSorts(key, before, s[n], SortBy(before, s[..n]));
    }
  }

  ghost predicate KeyDetermines<T>(key: T -> int, s: seq<T>) {
    forall i, j :: 0 <= i < j < |s| && key(s[i]) == key(s[j]) ==> s[i] == s[j]
  }

  lemma TailMultiset<T>(s: seq<T>)
    requires s != []
    ensures multiset(s[1..]) == multiset(s) - multiset{s[0]}
  {
    assert s == [s[0]] + s[1..];
  }

  lemma HeadsAgree<T>(key: T -> int, s: seq<T>, t: seq<T>)
    requires |s| == |t| > 0 && s[0] in t && t[0] in s
    requires SortedBy(key, s) && SortedBy(key, t) && KeyDetermines(key, s)
    ensures s[0] == t[0]
  {
    var i :| 0 <= i < |s| && s[i] == t[0];
    var j :| 0 <= j < |t| && t[j] == s[0];
    assert key(s[0]) <= key(s[i]) && key(t[0]) <= key(t[j]);
  }

  /** When a key determines its element, the sorted order of a collection is unique. */
  lemma {:induction false} SortedIsUnique<T>(key: T -> int, s: seq<T>, t: seq<T>)
    requires multiset(s) == multiset(t)
    requires SortedBy(key, s) && SortedBy(key, t) && KeyDetermines(key, s)
    ensures s == t
  {
    SameElements(s, t);
    if s != [] {
      HeadsAgree(key, s, t);
      TailMultiset(s);
      TailMultiset(t);
      SortedIsUnique(key, s[1..], t[1..]);
      assert s == [s[0]] + s[1..] && t == [t[0]] + t[1..];
    }
  }

  /** The ascending enumeration of a finite set. */
  function Ascending(s: set<nat>): seq<nat> {
    if s == {} then [] else [Least(s)] + Ascending(s - {Least(s)})
  }

  lemma {:induction false} AscendingEnumerates(s: set<nat>)
    ensures forall x :: x in Ascending(s) <==> x in s
    ensures forall i, j :: 0 <= i < j < |Ascending(s)| ==> Ascending(s)[i] < Ascending(s)[j]
  {
    if s != {} {
      var m, rest := Least(s), Ascending(s - {Least(s)});
      AscendingEnumerates(s - {m});
      forall i | 0 <= i < |rest| ensures m < rest[i] {
        assert rest[i] in rest;
      }
    }
  }

  predicate IsLeast(m: nat, s: set<nat>) {
    m in s && forall x :: x in s ==> m <= x
  }

  function Least(s: set<nat>): (m: nat)
    requires s != {}
    ensures IsLeast(m, s)
  {
    LeastExists(s);
    var m :| IsLeast(m, s);
    m
  }

  lemma {:induction false} LeastExists(s: set<nat>)
    requires s != {}
    ensures exists m :: IsLeast(m, s)
  {
    var y :| y in s;
    var rest := s - {y};
    var least := y;
    if rest != {} {
      LeastExists(rest);
      var m :| IsLeast(m, rest);
      least := if m <= y then m else y;
    }
    forall x | x in s ensures least <= x {
      assert x == y || x in rest;
    }
    assert IsLeast(least, s);
  }

  // ----- sorting by a comparison alone

  /** A comparison by which elements can be ranked. */
  ghost predicate Ranks<T(!new)>(before: (T, T) -> bool) {
    && (forall a, b {:trigger before(a, b)} :: before(a, b) ==> !before(b, a))
    && (forall a, b, c {:trigger before(a, b), before(b, c)} :: before(a, b) && before(b, c) ==> before(a, c))
    && (forall a, b, c {:trigger before(b, a), before(c, b)} :: !before(b, a) && !before(c, b) ==> !before(c, a))
  }

  /** Nothing stands behind what it comes before. */
  ghost predicate Ordered<T>(before: (T, T) -> bool, s: seq<T>) {
    forall i, j :: 0 <= i < j < |s| ==> !before(s[j], s[i])
  }

  lemma {:induction false} InsertOrders<T(!new)>(before: (T, T) -> bool, x: T, s: seq<T>)
    requires Ranks(before) && Ordered(before, s)
    ensures Ordered(before, Insert(before, x, s))
  {
    if s != [] && !before(x, s[0]) {
      var rest := Insert(before, x, s[1..]);
      InsertOrders(before, x, s[1..]);
      forall j | 0 <= j < |rest| ensures !before(rest[j], s[0]) {
        Inserted(before, x, s[1..], j);
      }
    } else if s != [] {
      forall j | 0 <= j < |s| ensures !before(s[j], x) {
        assert j > 0 ==> !before(s[j], s[0]);
      }
    }
  }

  lemma Inserted<T(!new)>(before: (T, T) -> bool, x: T, s: seq<T>, j: nat)
    requires j < |Insert(before, x, s)|
    ensures Insert(before, x, s)[j] == x || exists i :: 0 <= i < |s| && s[i] == Insert(before, x, s)[j]
  {
    InsertKeeps(before, x, s);
    var y := Insert(before, x, s)[j];
    assert y in multiset(Insert(before, x, s));
    assert y in multiset(s) || y == x;
  }

  lemma {:induction false} SortOrders<T(!new)>(before: (T, T) -> bool, s: seq<T>)
    requires Ranks(before)
    ensures Ordered(before, SortBy(before, s))
  {
    if s != [] {
      SortOrders(before, s[..|s| - 1]);
      InsertOrders(before, s[|s| - 1], SortBy(before, s[..|s| - 1]));
    }
  }

  /** An element in front of which everything comes before it. */
  ghost predicate LeadsAt<T>(before: (T, T) -> bool, s: seq<T>, x: T, i: nat) {
    i < |s| && s[i] == x && forall j :: 0 <= j < i ==> before(s[j], x)
  }

  lemma {:induction false} InsertBehindLeader<T(!new)>(before: (T, T) -> bool, y: T, s: seq<T>, x: T, i: nat)
    returns (k: nat)
    requires Ranks(before) && LeadsAt(before, s, x, i)
    ensures LeadsAt(before, Insert(before, y, s), x, k)
  {
    if before(y, s[0]) {
      k := i + 1;
      assert before(y, x);
    } else if i == 0 {
      k := 0;
    } else {
      assert forall j :: 0 <= j < i - 1 ==> s[1..][j] == s[j + 1];
      var m := InsertBehindLeader(before, y, s[1..], x, i - 1);
      k := m + 1;
    }
  }

  /** Sorting leaves the first element in front of all others of its rank. */
  lemma {:induction false} FirstLeads<T(!new)>(before: (T, T) -> bool, s: seq<T>) returns (k: nat)
    requires Ranks(before) && s != []
    ensures LeadsAt(before, SortBy(before, s), s[0], k)
  {
    if |s| == 1 {
      assert s[..0] == [] && SortBy(before, s) == [s[0]];
      k := 0;
    } else {
      var i := FirstLeads(before, s[..|s| - 1]);
      k := InsertBehindLeader(before, s[|s| - 1], SortBy(before, s[..|s| - 1]), s[0], i);
    }
  }
}
