/** The bounded duplicate window of the passive pipeline (`_is_duplicate`, passive.py). The table
    is an ordered dictionary from fingerprints to expiry times. A duplicate moves its entry to the
    end without renewing the expiry, so the table is not sorted by expiry. */
module DedupeWindow {
  import opened Options
  import opened OrderedDict

  type Table = Dict<nat, int>
  datatype Config = Config(window: nat, capacity: nat)
  datatype Window = Window(entries: Table, evictions: nat)
  datatype Call = Call(now: int, fingerprint: nat)

  // ----- one call

  function Purge(t: Table, now: int): Table {
    if t != [] && t[0].value <= now then Purge(t[1..], now) else t
  }

  predicate Duplicate(t: Table, c: Call) {
    Get(t, c.fingerprint).Some? && Get(t, c.fingerprint).value > c.now
  }

  predicate Answered(cfg: Config, w: Window, c: Call) {
    cfg.window != 0 && Duplicate(Purge(w.entries, c.now), c)
  }

  /** The table after one call. */
  function Step(cfg: Config, w: Window, c: Call): Window {
    if cfg.window == 0 then w else
      var t := Purge(w.entries, c.now);
      if Duplicate(t, c) then
        Window(Put(t, c.fingerprint, Get(t, c.fingerprint).value), w.evictions)
      else
        var u := Put(t, c.fingerprint, c.now + cfg.window);
        Window(Evict(u, cfg.capacity), if |u| > cfg.capacity then w.evictions + 1 else w.evictions)
  }

  /** The dictionary and its method as the pipeline runs them. */
  class DedupeTable {
    const config: Config
    var entries: Table
    var evictions: nat

    ghost function State(): Window
      reads this
    {
      Window(entries, evictions)
    }

    constructor (config: Config)
      ensures this.config == config && State() == Window([], 0)
    {
      this.config := config;
      entries, evictions := [], 0;
    }

    method IsDuplicate(now: int, fingerprint: nat) returns (duplicate: bool)
      modifies this
      ensures duplicate == Answered(config, old(State()), Call(now, fingerprint))
      ensures State() == Step(config, old(State()), Call(now, fingerprint))
    {
      if config.window == 0 {
        return false;
      }
      while entries != [] && entries[0].value <= now
        invariant Purge(entries, now) == Purge(old(entries), now)
        invariant evictions == old(evictions)
        decreases |entries|
      {
        entries := entries[1..];
      }
      var expiry := Get(entries, fingerprint);
      if expiry.Some? && expiry.value > now {
        entries := Put(entries, fingerprint, expiry.value);
        return true;
      }
      entries := Put(entries, fingerprint, now + config.window);
      if |entries| > config.capacity {
        entries := entries[1..];
        evictions := evictions + 1;
      }
      duplicate := false;
    }
  }

  // ----- runs

  function After(cfg: Config, calls: seq<Call>): Window {
    if calls == [] then Window([], 0) else Step(cfg, After(cfg, calls[..|calls| - 1]), calls[|calls| - 1])
  }

  /** The answer to the last call. */
  predicate Answer(cfg: Config, calls: seq<Call>)
    requires calls != []
  {
    Answered(cfg, After(cfg, calls[..|calls| - 1]), calls[|calls| - 1])
  }

  /** When a fingerprint was last accepted, that is, answered as new. */
  ghost function LastAccepted(cfg: Config, calls: seq<Call>, f: nat): Option<int> {
    if calls == [] then None
    else if calls[|calls| - 1].fingerprint == f && !Answer(cfg, calls) then Some(calls[|calls| - 1].now)
    else LastAccepted(cfg, calls[..|calls| - 1], f)
  }

  /** The ideal window with unlimited memory: a duplicate is a fingerprint whose last accepted copy
      is less than one window old. */
  ghost predicate IdealAnswer(cfg: Config, calls: seq<Call>)
    requires calls != []
  {
    var c := calls[|calls| - 1];
    var last := IdealLast(cfg, calls[..|calls| - 1], c.fingerprint);
    last.Some? && c.now < last.value + cfg.window
  }

  ghost function IdealLast(cfg: Config, calls: seq<Call>, f: nat): Option<int>
    decreases |calls|, 0
  {
    if calls == [] then None
    else
      var n := |calls| - 1;
      var before := IdealLast(cfg, calls[..n], f);
      if calls[n].fingerprint == f && !(before.Some? && calls[n].now < before.value + cfg.window)
      then Some(calls[n].now) else before
  }

  ghost predicate Nondecreasing(calls: seq<Call>) {
    forall i, j :: 0 <= i < j < |calls| ==> calls[i].now <= calls[j].now
  }

  function Keys(calls: seq<Call>): seq<nat> {
    if calls == [] then [] else Keys(calls[..|calls| - 1]) + [calls[|calls| - 1].fingerprint]
  }

  // ----- what the table remembers

  lemma {:induction false} PurgeGet(t: Table, now: int, f: nat)
    requires Unique(t)
    ensures Get(Purge(t, now), f) == Get(t, f)
         || (Get(Purge(t, now), f).None? && Get(t, f).Some? && Get(t, f).value <= now)
  {
    if t != [] && t[0].value <= now {
      UniqueTail(t);
      PurgeGet(t[1..], now, f);
    }
  }

  lemma {:induction false} PurgeUnique(t: Table, now: int)
    requires Unique(t)
    ensures Unique(Purge(t, now)) && |Purge(t, now)| <= |t|
  {
    if t != [] && t[0].value <= now {
      PurgeUnique(t[1..], now);
    }
  }

  lemma {:induction false} PurgeRecent(t: Table, now: int, touched: seq<nat>)
    requires Recent(t, touched)
    ensures Recent(Purge(t, now), touched)
  {
    if t != [] && t[0].value <= now {
      PurgeRecent(t[1..], now, touched);
    }
  }

  /** Structure of the reachable tables: distinct keys, least recently touched first, bounded. */
  ghost predicate Shaped(cfg: Config, calls: seq<Call>) {
    var t := After(cfg, calls).entries;
    Unique(t) && Recent(t, Keys(calls)) && |t| <= cfg.capacity && (cfg.window == 0 ==> t == [])
  }

  lemma {:induction false} AlwaysShaped(cfg: Config, calls: seq<Call>)
    requires cfg.capacity >= 1
    ensures Shaped(cfg, calls)
  {
    if calls != [] {
      var n := |calls| - 1;
      var before, c := calls[..n], calls[n];
      AlwaysShaped(cfg, before);
      StepShaped(cfg, After(cfg, before), c, Keys(before));
    }
  }

  lemma StepShaped(cfg: Config, w: Window, c: Call, touched: seq<nat>)
    requires cfg.capacity >= 1 && Unique(w.entries) && Recent(w.entries, touched) && |w.entries| <= cfg.capacity
    requires cfg.window == 0 ==> w.entries == []
    ensures var t := Step(cfg, w, c).entries;
            Unique(t) && Recent(t, touched + [c.fingerprint]) && |t| <= cfg.capacity
    ensures cfg.window == 0 ==> Step(cfg, w, c).entries == []
  {
    var t := Purge(w.entries, c.now);
    PurgeUnique(w.entries, c.now);
    PurgeRecent(w.entries, c.now, touched);
    var v := if Duplicate(t, c) then Get(t, c.fingerprint).value else c.now + cfg.window;
    PutUnique(t, c.fingerprint, v);
    PutRecent(t, c.fingerprint, v, touched);
    DropSize(t, c.fingerprint);
  }

  /** What one call leaves under each fingerprint, when the table is in use. */
  lemma StepGet(cfg: Config, w: Window, c: Call, f: nat)
    requires cfg.window != 0 && cfg.capacity >= 1 && Unique(w.entries)
    ensures var t, after := Purge(w.entries, c.now), Get(Step(cfg, w, c).entries, f);
            if f == c.fingerprint then
              after == Some(if Duplicate(t, c) then Get(t, f).value else c.now + cfg.window)
            else
              after == Get(t, f) || (after.None? && Step(cfg, w, c).evictions == w.evictions + 1)
  {
    var t := Purge(w.entries, c.now);
    PurgeUnique(w.entries, c.now);
    var v := if Duplicate(t, c) then Get(t, c.fingerprint).value else c.now + cfg.window;
    GetPut(t, c.fingerprint, v, f);
    PutUnique(t, c.fingerprint, v);
    if !Duplicate(t, c) {
      GetEvict(Put(t, c.fingerprint, v), cfg.capacity, f);
      DropUnique(t, c.fingerprint);
    }
  }

  /** Every entry expires exactly one window after the last acceptance of its fingerprint. */
  lemma {:induction false} EntriesRememberAcceptance(cfg: Config, calls: seq<Call>, f: nat)
    requires cfg.capacity >= 1 && Get(After(cfg, calls).entries, f).Some?
    ensures LastAccepted(cfg, calls, f) == Some(Get(After(cfg, calls).entries, f).value - cfg.window)
  {
    var n := |calls| - 1;
    var before, c := calls[..n], calls[n];
    AlwaysShaped(cfg, calls);
    AlwaysShaped(cfg, before);
    var w := After(cfg, before);
    StepGet(cfg, w, c, f);
    PurgeGet(w.entries, c.now, f);
    if f != c.fingerprint || Answer(cfg, calls) {
      EntriesRememberAcceptance(cfg, before, f);
    }
  }

  /** A fingerprint accepted less than a window ago is in the table, unless evictions have happened
      and at least `capacity` other fingerprints were seen since it was last seen itself. */
  lemma {:induction false} RecentlyAcceptedIsKept(cfg: Config, calls: seq<Call>, f: nat)
    requires cfg.capacity >= 1 && Nondecreasing(calls) && LastAccepted(cfg, calls, f).Some?
    requires LastAccepted(cfg, calls, f).value + cfg.window > calls[|calls| - 1].now
    ensures Get(After(cfg, calls).entries, f).Some?
         || (After(cfg, calls).evictions > 0 && |Since(Keys(calls), f)| >= cfg.capacity)
  {
    var n := |calls| - 1;
    var before, c := calls[..n], calls[n];
    var w := After(cfg, before);
    AlwaysShaped(cfg, before);
    if cfg.window == 0 {
      AcceptedInThePast(cfg, calls, f);
    } else {
      StepGet(cfg, w, c, f);
      if f != c.fingerprint {
        assert before != [] by { assert LastAccepted(cfg, calls, f) == LastAccepted(cfg, before, f); }
        RecentlyAcceptedIsKept(cfg, before, f);
        SinceGrows(cfg, before, c, f);
        if Get(w.entries, f).Some? && Get(After(cfg, calls).entries, f).None? {
          EntriesRememberAcceptance(cfg, before, f);
          PurgeGet(w.entries, c.now, f);
          EvictedNow(cfg, before, c, f);
        }
      }
    }
  }

  lemma {:induction false} AcceptedInThePast(cfg: Config, calls: seq<Call>, f: nat)
    requires Nondecreasing(calls) && LastAccepted(cfg, calls, f).Some?
    ensures LastAccepted(cfg, calls, f).value <= calls[|calls| - 1].now
  {
    var n := |calls| - 1;
    if !(calls[n].fingerprint == f && !Answer(cfg, calls)) {
      AcceptedInThePast(cfg, calls[..n], f);
    }
  }

  lemma SinceGrows(cfg: Config, before: seq<Call>, c: Call, f: nat)
    requires f != c.fingerprint
    ensures |Since(Keys(before + [c]), f)| >= |Since(Keys(before), f)|
    ensures Keys(before + [c]) == Keys(before) + [c.fingerprint]
  {
    assert (before + [c])[..|before|] == before;
    SinceStep(Keys(before), c.fingerprint, f);
    SubsetSize(Since(Keys(before), f), Since(Keys(before + [c]), f));
  }

  /** An entry that a call pushes out was the least recently seen of capacity + 1. */
  lemma EvictedNow(cfg: Config, before: seq<Call>, c: Call, f: nat)
    requires cfg.window != 0 && cfg.capacity >= 1 && f != c.fingerprint && Shaped(cfg, before)
    requires Get(Purge(After(cfg, before).entries, c.now), f).Some?
    requires Get(Step(cfg, After(cfg, before), c).entries, f).None?
    ensures |Since(Keys(before) + [c.fingerprint], f)| >= cfg.capacity
    ensures Step(cfg, After(cfg, before), c).evictions > 0
  {
    var w := After(cfg, before);
    var t := Purge(w.entries, c.now);
    var v := if Duplicate(t, c) then Get(t, c.fingerprint).value else c.now + cfg.window;
    var u := Put(t, c.fingerprint, v);
    PurgeUnique(w.entries, c.now);
    PurgeRecent(w.entries, c.now, Keys(before));
    PutUnique(t, c.fingerprint, v);
    PutRecent(t, c.fingerprint, v, Keys(before));
    GetPut(t, c.fingerprint, v, f);
    GetEvict(u, cfg.capacity, f);
    EvictionNeedsTraffic(u, Keys(before) + [c.fingerprint]);
  }

  // ----- what leaves the table

  /** Purging drops from the front, up to the first entry that is still valid. */
  lemma {:induction false} PurgeIsExact(t: Table, now: int) returns (k: nat)
    ensures k <= |t| && Purge(t, now) == t[k..]
    ensures forall i :: 0 <= i < k ==> t[i].value <= now
    ensures k < |t| ==> now < t[k].value
  {
    if t != [] && t[0].value <= now {
      k := PurgeIsExact(t[1..], now);
      k := k + 1;
      assert t[1..][k - 1..] == t[k..];
      assert forall i :: 0 < i < k ==> t[i] == t[1..][i - 1];
    } else {
      k := 0;
    }
  }

  /** Every new fingerprint that the table takes in is still in it, or was purged, or is counted as an eviction;
      an eviction is counted when, and only when, a fingerprint comes to a table that is full after the purge. */
  lemma CallIsAccounted(cfg: Config, calls: seq<Call>, c: Call) returns (purged: nat)
    requires cfg.window != 0 && cfg.capacity >= 1
    ensures var w, after := After(cfg, calls), After(cfg, calls + [c]);
            var rest := if purged <= |w.entries| then w.entries[purged..] else [];
            && purged <= |w.entries| && (forall i :: 0 <= i < purged ==> w.entries[i].value <= c.now)
            && (rest != [] ==> c.now < rest[0].value)
            && var novel, full := Get(rest, c.fingerprint).None?, |rest| == cfg.capacity;
            && after.evictions == w.evictions + (if novel && full then 1 else 0)
            && |after.entries| == |rest| + (if novel && !full then 1 else 0)
  {
    var w := After(cfg, calls);
    assert (calls + [c])[..|calls|] == calls;
    AlwaysShaped(cfg, calls);
    PurgeUnique(w.entries, c.now);
    purged := PurgeIsExact(w.entries, c.now);
    var t := Purge(w.entries, c.now);
    DropSize(t, c.fingerprint);
    hide Purge, After, Get, Drop;
  }

  // ----- the answers

  /** "Duplicate" is never wrong, whatever the clock does and however small the table is: the last
      accepted copy is less than one window old. */
  lemma DuplicateIsRight(cfg: Config, calls: seq<Call>, c: Call)
    requires cfg.capacity >= 1 && Answer(cfg, calls + [c])
    ensures var last := LastAccepted(cfg, calls, c.fingerprint);
            last.Some? && c.now < last.value + cfg.window
  {
    assert (calls + [c])[..|calls|] == calls;
    AlwaysShaped(cfg, calls);
    PurgeGet(After(cfg, calls).entries, c.now, c.fingerprint);
    EntriesRememberAcceptance(cfg, calls, c.fingerprint);
  }

  /** "New" is wrong only when the table was too small: some entry had been evicted and at least
      `capacity` other fingerprints came after the last copy. */
  lemma NewIsRightWithinCapacity(cfg: Config, calls: seq<Call>, c: Call)
    requires cfg.capacity >= 1 && Nondecreasing(calls + [c]) && !Answer(cfg, calls + [c])
    ensures var last := LastAccepted(cfg, calls, c.fingerprint);
            last.Some? && c.now < last.value + cfg.window ==>
              After(cfg, calls).evictions > 0 && |Since(Keys(calls), c.fingerprint)| >= cfg.capacity
  {
    assert (calls + [c])[..|calls|] == calls;
    var f, last := c.fingerprint, LastAccepted(cfg, calls, c.fingerprint);
    forall i, j | 0 <= i < j < |calls| ensures calls[i].now <= calls[j].now {
      assert (calls + [c])[i].now <= (calls + [c])[j].now;
    }
    if last.Some? && c.now < last.value + cfg.window {
      AlwaysShaped(cfg, calls);
      assert (calls + [c])[|calls| - 1].now <= (calls + [c])[|calls|].now;
      if cfg.window == 0 {
        AcceptedInThePast(cfg, calls, f);
        assert false;
      }
      RecentlyAcceptedIsKept(cfg, calls, f);
      PurgeGet(After(cfg, calls).entries, c.now, f);
      if Get(After(cfg, calls).entries, f).Some? {
        EntriesRememberAcceptance(cfg, calls, f);
      }
    }
  }

  lemma {:induction false} EvictionsOnlyGrow(cfg: Config, calls: seq<Call>, k: nat)
    requires k <= |calls|
    ensures After(cfg, calls[..k]).evictions <= After(cfg, calls).evictions
  {
    if k < |calls| {
      var n := |calls| - 1;
      assert calls[..n][..k] == calls[..k];
      EvictionsOnlyGrow(cfg, calls[..n], k);
    } else {
      assert calls[..k] == calls;
    }
  }

  /** Until the first counted eviction the bounded table is the ideal unbounded window: both
      accept the same copies, hence give the same answer to every call. */
  lemma {:induction false} RefinesIdealWindow(cfg: Config, calls: seq<Call>)
    requires cfg.capacity >= 1 && Nondecreasing(calls) && After(cfg, calls).evictions == 0
    ensures forall f :: LastAccepted(cfg, calls, f) == IdealLast(cfg, calls, f)
    ensures calls != [] ==> (Answer(cfg, calls) <==> IdealAnswer(cfg, calls))
  {
    if calls != [] {
      var n := |calls| - 1;
      var before, c := calls[..n], calls[n];
      assert before + [c] == calls;
      EvictionsOnlyGrow(cfg, calls, n);
      RefinesIdealWindow(cfg, before);
      if Answer(cfg, calls) {
        DuplicateIsRight(cfg, before, c);
      } else {
        NewIsRightWithinCapacity(cfg, before, c);
      }
    }
  }

  /** The table never holds more than `capacity` entries. */
  lemma SizeIsBounded(cfg: Config, calls: seq<Call>)
    requires cfg.capacity >= 1
    ensures |After(cfg, calls).entries| <= cfg.capacity
  {
    AlwaysShaped(cfg, calls);
  }

  /** The table is not sorted by expiry, and purging from the front leaves dead entries behind:
      with a window of 10, the calls a at 0, b at 5, a at 6 leave [b until 15, a until 10], and at
      time 12 a further call keeps the dead entry of a. */
  lemma TableIsNotSortedByExpiry()
    ensures var calls := [Call(0, 1), Call(5, 2), Call(6, 1)];
            After(Config(10, 4), calls).entries == [Item(2, 15), Item(1, 10)]
    ensures var calls := [Call(0, 1), Call(5, 2), Call(6, 1), Call(12, 3)];
            After(Config(10, 4), calls).entries == [Item(2, 15), Item(1, 10), Item(3, 22)]
  {
    var cfg, a, b := Config(10, 4), Call(0, 1), Call(5, 2);
    assert [a, b, Call(6, 1), Call(12, 3)][..3] == [a, b, Call(6, 1)];
    assert [a, b, Call(6, 1)][..2] == [a, b];
    assert [a, b][..1] == [a] && [a][..0] == [];
    assert After(cfg, [a]).entries == [Item(1, 10)];
    assert After(cfg, [a, b]).entries == [Item(1, 10), Item(2, 15)];
  }
}
