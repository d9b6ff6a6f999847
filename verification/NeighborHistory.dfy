/** What the neighbour tracker guarantees over every run of observations and expiry sweeps. */
module NeighborHistory {
  import opened Options
  import opened OrderedDict
  import opened ExpiringDict
  import opened NeighborTracker

  datatype Event = Observe(e: Evidence) | Expire(now: int)

  function Step(cfg: Config, d: Entries, event: Event): Entries {
    if event.Observe? then Observed(cfg, d, event.e) else Alive(d, event.now)
  }

  function After(cfg: Config, events: seq<Event>): Entries {
    if events == [] then [] else Step(cfg, After(cfg, events[..|events| - 1]), events[|events| - 1])
  }

  function KeysOf(event: Event): seq<Key> {
    if event.Observe? then [event.e.key] else []
  }

  /** The keys observed, in order. */
  function Touches(events: seq<Event>): seq<Key> {
    if events == [] then [] else Touches(events[..|events| - 1]) + KeysOf(events[|events| - 1])
  }

  ghost predicate Shaped(cfg: Config, d: Entries, touched: seq<Key>) {
    Unique(d) && Recent(d, touched) && |d| <= cfg.capacity
  }

  lemma StepShaped(cfg: Config, d: Entries, event: Event, touched: seq<Key>)
    requires Positive(cfg) && Shaped(cfg, d, touched)
    ensures Shaped(cfg, Step(cfg, d, event), touched + KeysOf(event))
  {
    if event.Observe? {
      RememberStep(d, event.e.key, Updated(cfg, d, event.e), cfg.capacity, touched);
    } else {
      assert touched + [] == touched;
      AliveIsShaped(d, event.now, touched);
      SweepSplits(d, event.now);
    }
  }

  /** In every run the table has distinct keys, least recently observed first, and never more than
      `capacity` of them. */
  lemma {:induction false} TableIsShaped(cfg: Config, events: seq<Event>)
    requires Positive(cfg)
    ensures Shaped(cfg, After(cfg, events), Touches(events))
  {
    if events != [] {
      var before, event := events[..|events| - 1], events[|events| - 1];
      TableIsShaped(cfg, before);
      hide Shaped, Step, KeysOf;
      StepShaped(cfg, After(cfg, before), event, Touches(before));
    }
  }

  // ----- against an unbounded history

  /** When a key was last observed, unless a sweep has found it too old since. */
  function LastSeen(cfg: Config, events: seq<Event>, k: Key): Option<int> {
    if events == [] then None else
      var before, event := LastSeen(cfg, events[..|events| - 1], k), events[|events| - 1];
      if event.Observe? then if event.e.key == k then Some(event.e.observedAt) else before
      else if before.Some? && before.value + cfg.maxAge <= event.now then None else before
  }

  /** An entry that agrees with the history of its key. */
  predicate Agrees(cfg: Config, entry: Option<Timed<Tracked>>, k: Key, last: Option<int>) {
    entry.Some? && last == Some(entry.value.value.lastSeen)
    && entry.value.expiresAt == entry.value.value.lastSeen + cfg.maxAge && entry.value.value.evidence.key == k
  }

  lemma SinceOnlyGrows(touched: seq<Key>, event: Event, k: Key)
    requires event.Observe? ==> event.e.key != k
    ensures |Since(touched, k)| <= |Since(touched + KeysOf(event), k)|
  {
    if event.Observe? {
      SinceGrows(touched, event.e.key, k);
    } else {
      assert touched + [] == touched;
    }
  }

  /** A tracked key expires one maximum age after it was last observed; an observed key that no
      sweep has removed is tracked, unless `capacity` other keys have been observed since. */
  lemma {:induction false} TableAgreesWithHistory(cfg: Config, events: seq<Event>, k: Key)
    requires Positive(cfg)
    ensures var entry, last := Get(After(cfg, events), k), LastSeen(cfg, events, k);
            Agrees(cfg, entry, k, last)
            || (entry.None? && (last.None? || |Since(Touches(events), k)| >= cfg.capacity))
  {
    if events != [] {
      var before, event := events[..|events| - 1], events[|events| - 1];
      var d, touched := After(cfg, before), Touches(before);
      TableIsShaped(cfg, before);
      TableAgreesWithHistory(cfg, before, k);
      if !(event.Observe? && event.e.key == k) {
        SinceOnlyGrows(touched, event, k);
      }
      hide Reported, Unique, Recent;
      if event.Observe? {
        RememberGet(d, event.e.key, Updated(cfg, d, event.e), cfg.capacity, touched, k);
      } else {
        AliveGet(d, event.now, k);
      }
    }
  }

  /** A time that is known and at least a span back. */
  predicate Past(time: Option<int>, span: nat, now: int) {
    time.Some? && time.value + span <= now
  }

  // ----- reports

  /** When a key was last reported. */
  function LastReport(cfg: Config, events: seq<Event>, k: Key): Option<int> {
    if events == [] then None else
      var before, event := events[..|events| - 1], events[|events| - 1];
      if event.Observe? && event.e.key == k && Reported(cfg, After(cfg, before), event.e) then Some(event.e.observedAt)
      else LastReport(cfg, before, k)
  }

  /** When a key was last observed while it was not tracked. */
  function LastCreated(cfg: Config, events: seq<Event>, k: Key): Option<int> {
    if events == [] then None else
      var before, event := events[..|events| - 1], events[|events| - 1];
      if event.Observe? && event.e.key == k && Get(After(cfg, before), k).None? then Some(event.e.observedAt)
      else LastCreated(cfg, before, k)
  }

  /** A tracked entry remembers when it was created and when it was last reported. */
  lemma {:induction false} EntriesRemember(cfg: Config, events: seq<Event>, k: Key)
    requires Positive(cfg) && Get(After(cfg, events), k).Some?
    ensures var t := Get(After(cfg, events), k).value.value;
            LastReport(cfg, events, k) == Some(t.lastEmitted) && LastCreated(cfg, events, k) == Some(t.firstSeen)
  {
    var before, event := events[..|events| - 1], events[|events| - 1];
    var d := After(cfg, before);
    TableIsShaped(cfg, before);
    if event.Observe? {
      RememberGet(d, event.e.key, Updated(cfg, d, event.e), cfg.capacity, Touches(before), k);
      if event.e.key != k || Get(d, k).Some? {
        EntriesRemember(cfg, before, k);
      }
    } else {
      AliveGet(d, event.now, k);
      EntriesRemember(cfg, before, k);
    }
  }

  /** An observation of a tracked key is reported exactly when the last report of that key is at
      least one window old; an untracked key is always reported. */
  lemma ReportsAreSpaced(cfg: Config, events: seq<Event>, e: Evidence)
    requires Positive(cfg)
    ensures var d := After(cfg, events);
            Reports(cfg, d, e) != [] <==>
              Get(d, e.key).None? || Past(LastReport(cfg, events, e.key), cfg.window, e.observedAt)
  {
    if Get(After(cfg, events), e.key).Some? {
      EntriesRemember(cfg, events, e.key);
    }
  }

  // ----- conflicts

  lemma ClaimsAreTracked(cfg: Config, events: seq<Event>, k: Key, mac: nat)
    requires Positive(cfg) && k.mac != Some(mac)
    ensures ClaimedBy(After(cfg, events), k, mac)
       <==> Get(After(cfg, events), Key(k.address, Some(mac), k.interface)).Some?
  {
    var d, other := After(cfg, events), Key(k.address, Some(mac), k.interface);
    TableIsShaped(cfg, events);
    GetFinds(d, other);
    if Get(d, other).Some? {
      TableAgreesWithHistory(cfg, events, other);
      var i :| 0 <= i < |d| && d[i] == Item(other, Get(d, other).value);
      assert ClaimsAddress(d[i].value.value, k);
    }
    if ClaimedBy(d, k, mac) {
      var i :| 0 <= i < |d| && ClaimsAddress(d[i].value.value, k) && d[i].value.value.evidence.key.mac == Some(mac);
      GetAt(d, i);
      TableAgreesWithHistory(cfg, events, d[i].key);
    }
  }

  lemma MovesAreTracked(cfg: Config, events: seq<Event>, k: Key, address: nat)
    requires Positive(cfg) && k.address != address
    ensures ClaimedAt(After(cfg, events), k, address)
       <==> Get(After(cfg, events), Key(address, k.mac, k.interface)).Some?
  {
    var d, other := After(cfg, events), Key(address, k.mac, k.interface);
    TableIsShaped(cfg, events);
    GetFinds(d, other);
    if Get(d, other).Some? {
      TableAgreesWithHistory(cfg, events, other);
      var i :| 0 <= i < |d| && d[i] == Item(other, Get(d, other).value);
      assert ClaimsMac(d[i].value.value, k);
    }
    if ClaimedAt(d, k, address) {
      var i :| 0 <= i < |d| && ClaimsMac(d[i].value.value, k) && d[i].value.value.evidence.key.address == address;
      GetAt(d, i);
      TableAgreesWithHistory(cfg, events, d[i].key);
    }
  }

  lemma {:induction false} NoSelfConflict(d: Entries, k: Key)
    requires k.mac.Some?
    ensures !ClaimedBy(d, k, k.mac.value) && !ClaimedAt(d, k, k.address)
  {
  }

  /** The MACs and addresses named in conflicts are, each once and in order, exactly those that are
      tracked for the same address (MAC) on the same interface. */
  lemma ConflictsAreExact(cfg: Config, events: seq<Event>, k: Key, x: nat)
    requires Positive(cfg) && k.mac.Some?
    ensures var d := After(cfg, events);
            && StrictlyAscending(PriorMacs(d, k)) && StrictlyAscending(PriorAddresses(d, k))
            && (x in PriorMacs(d, k) <==> k.mac != Some(x) && Get(d, Key(k.address, Some(x), k.interface)).Some?)
            && (x in PriorAddresses(d, k) <==> k.address != x && Get(d, Key(x, k.mac, k.interface)).Some?)
  {
    var d := After(cfg, events);
    PriorMacsAreExact(d, k, x);
    PriorAddressesAreExact(d, k, x);
    hide ClaimedBy, ClaimedAt, After, PriorMacs, PriorAddresses, StrictlyAscending;
    NoSelfConflict(d, k);
    if k.mac != Some(x) {
      ClaimsAreTracked(cfg, events, k, x);
    }
    if k.address != x {
      MovesAreTracked(cfg, events, k, x);
    }
  }

  /** A conflict is reported exactly with a reported new key that has a MAC and a tracked rival. */
  lemma ConflictsAreReported(cfg: Config, events: seq<Event>, e: Evidence)
    requires Positive(cfg)
    ensures var d, k := After(cfg, events), e.key;
            var novel := Get(d, k).None? && k.mac.Some?;
            && ((exists r :: r in Reports(cfg, d, e) && r.AddressReuse?) <==> novel && PriorMacs(d, k) != [])
            && ((exists r :: r in Reports(cfg, d, e) && r.MacMovement?) <==> novel && PriorAddresses(d, k) != [])
  {
    var d, k := After(cfg, events), e.key;
    var conflicts := Conflicts(d, k);
    if Get(d, k).None? && k.mac.Some? {
      var all := Reports(cfg, d, e);
      assert all[0].Seen? && all[1..] == conflicts;
      if PriorMacs(d, k) != [] {
        assert all[1].AddressReuse? && all[1] in all;
      }
      if PriorAddresses(d, k) != [] {
        assert all[|all| - 1].MacMovement? && all[|all| - 1] in all;
      }
    }
  }

  lemma {:induction false} AscendingIsUnique(s: seq<nat>, t: seq<nat>)
    requires StrictlyAscending(s) && StrictlyAscending(t)
    requires forall x :: x in s <==> x in t
    ensures s == t
  {
    if s == [] {
      HasNone(t);
    } else if t == [] {
      HasNone(s);
    } else {
      assert s[0] in t && t[0] in s;
      assert s[0] == t[0];
      forall x ensures x in s[1..] <==> x in t[1..] {
        InTail(s, x);
        InTail(t, x);
      }
      AscendingIsUnique(s[1..], t[1..]);
      assert s == [s[0]] + s[1..] && t == [t[0]] + t[1..];
    }
  }

  lemma HasNone(s: seq<nat>)
    ensures s == [] || exists x :: x in s
  {
    if s != [] {
      assert s[0] in s;
    }
  }

  lemma InTail(s: seq<nat>, x: nat)
    requires StrictlyAscending(s) && s != []
    ensures x in s[1..] <==> x in s && x != s[0]
  {
    assert s == [s[0]] + s[1..];
  }

  /** The list names, in ascending order, exactly the other MACs tracked for the address of a key. */
  ghost predicate ListsRivals(d: Entries, k: Key, macs: seq<nat>) {
    && macs != [] && StrictlyAscending(macs)
    && forall x :: x in macs <==> k.mac != Some(x) && Get(d, Key(k.address, Some(x), k.interface)).Some?
  }

  /** The list names, in ascending order, exactly the other addresses tracked for the MAC of a key. */
  ghost predicate ListsMoves(d: Entries, k: Key, addresses: seq<nat>) {
    && addresses != [] && StrictlyAscending(addresses)
    && forall x :: x in addresses <==> k.address != x && Get(d, Key(x, k.mac, k.interface)).Some?
  }

  lemma ListsArePrior(cfg: Config, events: seq<Event>, k: Key, s: seq<nat>)
    requires Positive(cfg) && k.mac.Some?
    ensures ListsRivals(After(cfg, events), k, s) <==> s != [] && s == PriorMacs(After(cfg, events), k)
    ensures ListsMoves(After(cfg, events), k, s) <==> s != [] && s == PriorAddresses(After(cfg, events), k)
  {
    hide PriorMacs, PriorAddresses, After, Get, StrictlyAscending;
    var d := After(cfg, events);
    forall x
      ensures StrictlyAscending(PriorMacs(d, k)) && StrictlyAscending(PriorAddresses(d, k))
      ensures x in PriorMacs(d, k) <==> k.mac != Some(x) && Get(d, Key(k.address, Some(x), k.interface)).Some?
      ensures x in PriorAddresses(d, k) <==> k.address != x && Get(d, Key(x, k.mac, k.interface)).Some?
    {
      ConflictsAreExact(cfg, events, k, x);
    }
    ConflictsAreExact(cfg, events, k, 0);
    if ListsRivals(d, k, s) {
      AscendingIsUnique(s, PriorMacs(d, k));
    }
    if ListsMoves(d, k, s) {
      AscendingIsUnique(s, PriorAddresses(d, k));
    }
  }

  /** What is reported of an observation comes first: this very observation, with the time from which
      its key has been tracked, its own time, and the time it expires. */
  lemma ReportSaysItsEvidence(cfg: Config, events: seq<Event>, e: Evidence)
    requires Positive(cfg)
    ensures var d := After(cfg, events);
            var output := Reports(cfg, d, e);
            && (output != [] ==>
                  var first := if Get(d, e.key).None? then Some(e.observedAt) else LastCreated(cfg, events, e.key);
                  first.Some? && output[0] == Seen(e, first.value, e.observedAt, e.observedAt + cfg.maxAge))
            && forall i :: 1 <= i < |output| ==> output[i].AddressReuse? || output[i].MacMovement?
  {
    if Get(After(cfg, events), e.key).Some? {
      EntriesRemember(cfg, events, e.key);
    }
    hide After, Get, PriorMacs, PriorAddresses;
  }

  /** Reported conflicts are exactly these: for a key that was not tracked and has a MAC, the list of all
      rival MACs of its address if there are any, and then the list of all other addresses of its MAC if
      there are any. */
  lemma ConflictsSayExactly(cfg: Config, events: seq<Event>, e: Evidence, k: Key, listed: seq<nat>)
    requires Positive(cfg)
    ensures var d := After(cfg, events);
            var output, novel := Reports(cfg, d, e), Get(d, e.key).None? && e.key.mac.Some?;
            && (AddressReuse(k, listed) in output <==> k == e.key && novel && ListsRivals(d, k, listed))
            && (MacMovement(k, listed) in output <==> k == e.key && novel && ListsMoves(d, k, listed))
            && |output| <= 3 && (|output| == 3 ==> output[1].AddressReuse? && output[2].MacMovement?)
  {
    var d := After(cfg, events);
    if e.key.mac.Some? {
      ListsArePrior(cfg, events, e.key, listed);
    }
    hide After, Get, PriorMacs, PriorAddresses, ListsRivals, ListsMoves;
    var output := Reports(cfg, d, e);
    if Get(d, e.key).None? && e.key.mac.Some? {
      ConflictsAre(d, e.key, k, listed);
      assert output == [output[0]] + Conflicts(d, e.key);
    }
  }

  lemma ConflictsAre(d: Entries, own: Key, k: Key, listed: seq<nat>)
    requires own.mac.Some?
    ensures AddressReuse(k, listed) in Conflicts(d, own) <==> k == own && listed != [] && listed == PriorMacs(d, own)
    ensures MacMovement(k, listed) in Conflicts(d, own) <==> k == own && listed != [] && listed == PriorAddresses(d, own)
  {
    hide PriorMacs, PriorAddresses;
  }

  /** The last observation of a key. */
  function Latest(events: seq<Event>, k: Key): Option<Evidence> {
    if events == [] then None else
      var event := events[|events| - 1];
      if event.Observe? && event.e.key == k then Some(event.e) else Latest(events[..|events| - 1], k)
  }

  /** A tracked key holds its last observation. */
  lemma {:induction false} TrackedIsLatest(cfg: Config, events: seq<Event>, k: Key)
    requires Positive(cfg) && Get(After(cfg, events), k).Some?
    ensures Latest(events, k) == Some(Get(After(cfg, events), k).value.value.evidence)
  {
    hide Reported;
    var before, event := events[..|events| - 1], events[|events| - 1];
    var d := After(cfg, before);
    TableIsShaped(cfg, before);
    if event.Observe? {
      RememberGet(d, event.e.key, Updated(cfg, d, event.e), cfg.capacity, Touches(before), k);
      if event.e.key != k {
        TrackedIsLatest(cfg, before, k);
      }
    } else {
      AliveGet(d, event.now, k);
      TrackedIsLatest(cfg, before, k);
    }
  }

  // ----- expiry and conservation

  /** A sweep removes and returns exactly the tracked keys last observed a maximum age ago. */
  lemma ExpireIsExact(cfg: Config, events: seq<Event>, now: int, k: Key)
    requires Positive(cfg)
    ensures var d := After(cfg, events);
            var due := Get(d, k).Some? && Past(LastSeen(cfg, events, k), cfg.maxAge, now);
            && Get(Due(d, now), k) == (if due then Get(d, k) else None)
            && Get(Alive(d, now), k) == (if due then None else Get(d, k))
  {
    TableIsShaped(cfg, events);
    TableAgreesWithHistory(cfg, events, k);
    AliveGet(After(cfg, events), now, k);
    DueGet(After(cfg, events), now, k);
  }

  function CreatedBy(d: Entries, event: Event): nat {
    if event.Observe? && Get(d, event.e.key).None? then 1 else 0
  }

  function ExpiredBy(d: Entries, event: Event): nat {
    if event.Expire? then |Due(d, event.now)| else 0
  }

  function EvictedBy(cfg: Config, d: Entries, event: Event): nat {
    if event.Observe? && |Put(d, event.e.key, Updated(cfg, d, event.e))| > cfg.capacity then 1 else 0
  }

  datatype Tally = Tally(created: nat, expired: nat, evicted: nat)

  function Count(cfg: Config, events: seq<Event>): Tally {
    if events == [] then Tally(0, 0, 0) else
      var t, d, event := Count(cfg, events[..|events| - 1]), After(cfg, events[..|events| - 1]), events[|events| - 1];
      Tally(t.created + CreatedBy(d, event), t.expired + ExpiredBy(d, event), t.evicted + EvictedBy(cfg, d, event))
  }

  /** Every entry ever created is still tracked, or was disclosed as expired, or was evicted. */
  lemma {:induction false} EntriesAreConserved(cfg: Config, events: seq<Event>)
    requires Positive(cfg)
    ensures var t := Count(cfg, events); t.created == |After(cfg, events)| + t.expired + t.evicted
  {
    if events != [] {
      var before, event := events[..|events| - 1], events[|events| - 1];
      EntriesAreConserved(cfg, before);
      if event.Observe? {
        DropSize(After(cfg, before), event.e.key);
      } else {
        SweepSplits(After(cfg, before), event.now);
      }
    }
  }
}
