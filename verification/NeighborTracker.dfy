/** The neighbour tracker (`NeighborTracker.observe` and `expire`, neighbor.py): a bounded table of
    address/MAC claims per interface, with a report at most once per window, conflicts with other
    claims, and expiry. Addresses, MACs and interfaces are natural numbers in text order. */
module NeighborTracker {
  import opened Options
  import opened OrderedDict
  import opened ExpiringDict

  datatype Config = Config(maxAge: nat, window: nat, capacity: nat)
  datatype Key = Key(address: nat, mac: Option<nat>, interface: nat)
  datatype Evidence = Evidence(key: Key, observedAt: int, detail: nat)
  datatype Tracked = Tracked(evidence: Evidence, firstSeen: int, lastSeen: int, lastEmitted: int)
  type Entries = Dict<Key, Timed<Tracked>>

  datatype Report =
    | Seen(evidence: Evidence, firstSeen: int, lastSeen: int, expiresAt: int)
    | AddressReuse(key: Key, previousMacs: seq<nat>)
    | MacMovement(key: Key, previousAddresses: seq<nat>)

  predicate Positive(cfg: Config) {
    cfg.maxAge >= 1 && cfg.capacity >= 1
  }

  // ----- conflicts

  /** A set kept as an ascending list. */
  function Include(s: seq<nat>, x: nat): seq<nat> {
    if s == [] then [x]
    else if x < s[0] then [x] + s
    else if x == s[0] then s
    else [s[0]] + Include(s[1..], x)
  }

  /** Another MAC claims the same address on the same interface. */
  predicate ClaimsAddress(t: Tracked, k: Key) {
    var e := t.evidence.key;
    e.address == k.address && e.interface == k.interface && e.mac.Some? && e.mac != k.mac
  }

  /** The same MAC claims another address on the same interface. */
  predicate ClaimsMac(t: Tracked, k: Key) {
    var e := t.evidence.key;
    e.mac == k.mac && e.interface == k.interface && e.address != k.address
  }

  function PriorMacs(d: Entries, k: Key): seq<nat> {
    if d == [] then [] else
      var before, t := PriorMacs(d[..|d| - 1], k), d[|d| - 1].value.value;
      if ClaimsAddress(t, k) then Include(before, t.evidence.key.mac.value) else before
  }

  function PriorAddresses(d: Entries, k: Key): seq<nat> {
    if d == [] then [] else
      var before, t := PriorAddresses(d[..|d| - 1], k), d[|d| - 1].value.value;
      if ClaimsMac(t, k) then Include(before, t.evidence.key.address) else before
  }

  function Conflicts(d: Entries, k: Key): seq<Report> {
    if k.mac.None? then [] else
      (if PriorMacs(d, k) == [] then [] else [AddressReuse(k, PriorMacs(d, k))])
      + (if PriorAddresses(d, k) == [] then [] else [MacMovement(k, PriorAddresses(d, k))])
  }

  // ----- one observation

  /** Whether an observation is reported: its key is new or was last reported a window ago. */
  predicate Reported(cfg: Config, d: Entries, e: Evidence) {
    var known := Get(d, e.key);
    known.None? || e.observedAt - known.value.value.lastEmitted >= cfg.window
  }

  function Updated(cfg: Config, d: Entries, e: Evidence): Timed<Tracked> {
    var known, now := Get(d, e.key), e.observedAt;
    Timed(Tracked(e, if known.None? then now else known.value.value.firstSeen, now,
                  if Reported(cfg, d, e) then now else known.value.value.lastEmitted), now + cfg.maxAge)
  }

  function Observed(cfg: Config, d: Entries, e: Evidence): Entries {
    Remember(d, e.key, Updated(cfg, d, e), cfg.capacity)
  }

  function ReportOf(t: Timed<Tracked>): Report {
    Seen(t.value.evidence, t.value.firstSeen, t.value.lastSeen, t.expiresAt)
  }

  function Reports(cfg: Config, d: Entries, e: Evidence): seq<Report> {
    if !Reported(cfg, d, e) then []
    else [ReportOf(Updated(cfg, d, e))] + if Get(d, e.key).None? then Conflicts(d, e.key) else []
  }

  class Tracker {
    const config: Config
    var entries: Entries

    ghost predicate Valid()
      reads this
    {
      Positive(config) && Unique(entries) && |entries| <= config.capacity
    }

    constructor (config: Config)
      requires Positive(config)
      ensures Valid() && this.config == config && entries == []
    {
      this.config := config;
      entries := [];
    }

    method Observe(e: Evidence) returns (output: seq<Report>)
      requires Valid()
      modifies this
      ensures Valid()
      ensures entries == Observed(config, old(entries), e)
      ensures output == Reports(config, old(entries), e)
    {
      var now := e.observedAt;
      ObservedIsValid(config, entries, e);
      var existing := Get(entries, e.key);
      hide Put, Get, Unique, PriorMacs, PriorAddresses;
      if existing.Some? {
        var t := existing.value.value;
        KnownFits(entries, e.key, config.capacity, Updated(config, entries, e));
        if now - t.lastEmitted < config.window {
          entries := Put(entries, e.key, Timed(Tracked(e, t.firstSeen, now, t.lastEmitted), now + config.maxAge));
          return [];
        }
        var tracked := Timed(Tracked(e, t.firstSeen, now, now), now + config.maxAge);
        entries := Put(entries, e.key, tracked);
        return [ReportOf(tracked)];
      }
      output := [];
      if e.key.mac.Some? {
        var macs, addresses := Prior(e.key);
        if macs != [] {
          output := output + [AddressReuse(e.key, macs)];
        }
        if addresses != [] {
          output := output + [MacMovement(e.key, addresses)];
        }
      }
      var tracked := Timed(Tracked(e, now, now, now), now + config.maxAge);
      entries := Put(entries, e.key, tracked);
      if |entries| > config.capacity {
        entries := entries[1..];
      }
      output := [ReportOf(tracked)] + output;
    }

    method Prior(k: Key) returns (macs: seq<nat>, addresses: seq<nat>)
      ensures macs == PriorMacs(entries, k) && addresses == PriorAddresses(entries, k)
    {
      macs, addresses := [], [];
      assert entries[..0] == [];
      for i := 0 to |entries|
        invariant macs == PriorMacs(entries[..i], k) && addresses == PriorAddresses(entries[..i], k)
      {
        assert entries[..i + 1][..i] == entries[..i];
        var t := entries[i].value.value;
        if ClaimsAddress(t, k) {
          macs := Include(macs, t.evidence.key.mac.value);
        }
        if ClaimsMac(t, k) {
          addresses := Include(addresses, t.evidence.key.address);
        }
      }
      assert entries[..|entries|] == entries;
    }

    method Expire(now: int) returns (expired: Entries)
      requires Valid()
      modifies this
      ensures Valid()
      ensures entries == Alive(old(entries), now) && expired == Due(old(entries), now)
    {
      SweepSplits(entries, now);
      var at := AliveKeepsOrder(entries, now);
      entries, expired := Sweep(entries, now);
    }
  }

  lemma ObservedIsValid(cfg: Config, d: Entries, e: Evidence)
    requires Positive(cfg) && Unique(d) && |d| <= cfg.capacity
    ensures Unique(Observed(cfg, d, e)) && |Observed(cfg, d, e)| <= cfg.capacity
  {
    PutUnique(d, e.key, Updated(cfg, d, e));
    DropSize(d, e.key);
    GetEvict(Put(d, e.key, Updated(cfg, d, e)), cfg.capacity, e.key);
  }

  /** Renewing a known key evicts nothing. */
  lemma KnownFits(d: Entries, k: Key, capacity: nat, t: Timed<Tracked>)
    requires Get(d, k).Some? && |d| <= capacity
    ensures Remember(d, k, t, capacity) == Put(d, k, t) && |Put(d, k, t)| == |d|
  {
    DropSize(d, k);
  }

  // ----- conflicts are exact

  lemma {:induction false} IncludeIsExact(s: seq<nat>, x: nat, y: nat)
    ensures y in Include(s, x) <==> y == x || y in s
  {
    if s != [] && x > s[0] {
      IncludeIsExact(s[1..], x, y);
    }
  }

  ghost predicate StrictlyAscending(s: seq<nat>) {
    forall i, j :: 0 <= i < j < |s| ==> s[i] < s[j]
  }

  lemma {:induction false} IncludeAscends(s: seq<nat>, x: nat)
    requires StrictlyAscending(s)
    ensures StrictlyAscending(Include(s, x))
  {
    if s != [] && x > s[0] {
      IncludeAscends(s[1..], x);
      var rest := Include(s[1..], x);
      forall j | 0 <= j < |rest| ensures s[0] < rest[j] {
        IncludeIsExact(s[1..], x, rest[j]);
      }
    }
  }

  /** Some tracked claim of MAC `mac` for the same address and interface. */
  ghost predicate ClaimedBy(d: Entries, k: Key, mac: nat) {
    exists i :: 0 <= i < |d| && ClaimsAddress(d[i].value.value, k) && d[i].value.value.evidence.key.mac == Some(mac)
  }

  ghost predicate ClaimedAt(d: Entries, k: Key, address: nat) {
    exists i :: 0 <= i < |d| && ClaimsMac(d[i].value.value, k) && d[i].value.value.evidence.key.address == address
  }

  lemma ClaimedByStep(d: Entries, k: Key, mac: nat)
    requires d != []
    ensures var t := d[|d| - 1].value.value;
            ClaimedBy(d, k, mac)
            <==> ClaimedBy(d[..|d| - 1], k, mac) || (ClaimsAddress(t, k) && t.evidence.key.mac == Some(mac))
  {
    var n := |d| - 1;
    if ClaimedBy(d, k, mac) {
      var i :| 0 <= i < |d| && ClaimsAddress(d[i].value.value, k) && d[i].value.value.evidence.key.mac == Some(mac);
      assert i < n ==> d[..n][i] == d[i];
    }
    if ClaimedBy(d[..n], k, mac) {
      var i :| 0 <= i < n && ClaimsAddress(d[..n][i].value.value, k) && d[..n][i].value.value.evidence.key.mac == Some(mac);
      assert d[..n][i] == d[i];
    }
  }

  lemma ClaimedAtStep(d: Entries, k: Key, address: nat)
    requires d != []
    ensures var t := d[|d| - 1].value.value;
            ClaimedAt(d, k, address)
            <==> ClaimedAt(d[..|d| - 1], k, address) || (ClaimsMac(t, k) && t.evidence.key.address == address)
  {
    var n := |d| - 1;
    if ClaimedAt(d, k, address) {
      var i :| 0 <= i < |d| && ClaimsMac(d[i].value.value, k) && d[i].value.value.evidence.key.address == address;
      assert i < n ==> d[..n][i] == d[i];
    }
    if ClaimedAt(d[..n], k, address) {
      var i :| 0 <= i < n && ClaimsMac(d[..n][i].value.value, k) && d[..n][i].value.value.evidence.key.address == address;
      assert d[..n][i] == d[i];
    }
  }

  lemma {:induction false} PriorMacsAreExact(d: Entries, k: Key, mac: nat)
    ensures mac in PriorMacs(d, k) <==> ClaimedBy(d, k, mac)
    ensures StrictlyAscending(PriorMacs(d, k))
  {
    if d != [] {
      var n := |d| - 1;
      var t := d[n].value.value;
      PriorMacsAreExact(d[..n], k, mac);
      ClaimedByStep(d, k, mac);
      if ClaimsAddress(t, k) {
        IncludeIsExact(PriorMacs(d[..n], k), t.evidence.key.mac.value, mac);
        IncludeAscends(PriorMacs(d[..n], k), t.evidence.key.mac.value);
      }
    }
  }

  lemma {:induction false} PriorAddressesAreExact(d: Entries, k: Key, address: nat)
    ensures address in PriorAddresses(d, k) <==> ClaimedAt(d, k, address)
    ensures StrictlyAscending(PriorAddresses(d, k))
  {
    if d != [] {
      var n := |d| - 1;
      var t := d[n].value.value;
      PriorAddressesAreExact(d[..n], k, address);
      ClaimedAtStep(d, k, address);
      if ClaimsMac(t, k) {
        IncludeIsExact(PriorAddresses(d[..n], k), t.evidence.key.address, address);
        IncludeAscends(PriorAddresses(d[..n], k), t.evidence.key.address);
      }
    }
  }
}
