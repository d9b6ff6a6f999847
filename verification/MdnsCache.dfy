/** The TTL cache of the mDNS parser (`MDNSParser.__call__`, `expire`, mdns.py; goodbye records,
    section 10.1 of RFC 6762). An observation without its action is its identity, a natural number. */
module MdnsCache {
  import opened Options
  import opened Numbers
  import opened OrderedDict
  import opened ExpiringDict

  datatype Config = Config(capacity: nat, maxTtl: nat)
  datatype Heard = Heard(identity: nat, ttl: nat)
  datatype Disclosed = Expired(identity: nat, at: int) | Goodbye(identity: nat) | Announced(identity: nat, expiresAt: int)
  type Cache = Dict<nat, Timed<nat>>

  /** What happens to the cache: a sweep, an announcement that lasts, a goodbye. */
  datatype Op = Sweeping(now: int) | Announcing(identity: nat, expiresAt: int) | Leaving(identity: nat)

  function Apply(cfg: Config, d: Cache, op: Op): Cache {
    match op
    case Sweeping(now) => Alive(d, now)
    case Announcing(identity, expiresAt) => Remember(d, identity, Timed(identity, expiresAt), cfg.capacity)
    case Leaving(identity) => Drop(d, identity)
  }

  function Run(cfg: Config, d: Cache, ops: seq<Op>): Cache {
    if ops == [] then d else Apply(cfg, Run(cfg, d, ops[..|ops| - 1]), ops[|ops| - 1])
  }

  function OpOf(cfg: Config, now: int, r: Heard): Op {
    if r.ttl == 0 then Leaving(r.identity) else Announcing(r.identity, now + Min(r.ttl, cfg.maxTtl))
  }

  /** What one call does: a sweep, and one step for each record that was parsed. */
  function OpsOf(cfg: Config, now: int, records: seq<Heard>): seq<Op> {
    if records == [] then [Sweeping(now)] else
      OpsOf(cfg, now, records[..|records| - 1]) + [OpOf(cfg, now, records[|records| - 1])]
  }

  function DisclosedBy(cfg: Config, now: int, r: Heard): Disclosed {
    if r.ttl == 0 then Goodbye(r.identity) else Announced(r.identity, now + Min(r.ttl, cfg.maxTtl))
  }

  function Expiries(due: Cache, now: int): seq<Disclosed> {
    if due == [] then [] else Expiries(due[..|due| - 1], now) + [Expired(due[|due| - 1].value.value, now)]
  }

  function Output(cfg: Config, d: Cache, now: int, records: seq<Heard>): seq<Disclosed> {
    if records == [] then Expiries(Due(d, now), now) else
      Output(cfg, d, now, records[..|records| - 1]) + [DisclosedBy(cfg, now, records[|records| - 1])]
  }

  lemma RunStep(cfg: Config, d: Cache, ops: seq<Op>, op: Op)
    ensures Run(cfg, d, ops + [op]) == Apply(cfg, Run(cfg, d, ops), op)
  {
    assert (ops + [op])[..|ops|] == ops;
  }

  class Parser {
    const config: Config
    var cache: Cache

    ghost predicate Valid()
      reads this
    {
      Unique(cache) && |cache| <= config.capacity && config.capacity >= 1 && config.maxTtl >= 1
    }

    constructor (config: Config)
      requires config.capacity >= 1 && config.maxTtl >= 1
      ensures Valid() && this.config == config && cache == []
    {
      this.config := config;
      cache := [];
    }

    method Expire(now: int) returns (expired: seq<Disclosed>)
      requires Valid()
      modifies this
      ensures Valid() && cache == Alive(old(cache), now)
      ensures expired == Expiries(Due(old(cache), now), now)
    {
      AliveIsValid(cache, now);
      var kept, due := Sweep(cache, now);
      cache := kept;
      expired := [];
      assert due[..0] == [];
      for i := 0 to |due|
        invariant expired == Expiries(due[..i], now)
      {
        assert due[..i + 1][..i] == due[..i];
        expired := expired + [Expired(due[i].value.value, now)];
      }
      assert due[..|due|] == due;
    }

    /** A call with the records parsed from its frame, or none if parsing raised an error. */
    method Receive(now: int, records: Option<seq<Heard>>) returns (output: Option<seq<Disclosed>>)
      requires Valid()
      modifies this
      ensures Valid()
      ensures cache == Run(config, old(cache), OpsOf(config, now, if records.Some? then records.value else []))
      ensures output == if records.None? then None else Some(Output(config, old(cache), now, records.value))
    {
      ghost var before := cache;
      var expired := Expire(now);
      SweepRuns(config, before, now);
      if records.None? {
        return None;
      }
      var heard := records.value;
      var disclosed := expired;
      assert heard[..0] == [];
      hide Run, OpsOf, Output, Apply, OpOf, DisclosedBy;
      for i := 0 to |heard|
        invariant Valid()
        invariant cache == Run(config, before, OpsOf(config, now, heard[..i]))
        invariant disclosed == Output(config, before, now, heard[..i])
      {
        Heed(now, heard[i]);
        CallStep(config, before, now, heard, i);
        disclosed := disclosed + [if heard[i].ttl == 0 then Goodbye(heard[i].identity)
                                  else Announced(heard[i].identity, now + Min(heard[i].ttl, config.maxTtl))];
      }
      assert heard[..|heard|] == heard;
      return Some(disclosed);
    }

    method Heed(now: int, r: Heard)
      requires Valid()
      modifies this
      ensures Valid() && cache == Apply(config, old(cache), OpOf(config, now, r))
    {
      if r.ttl == 0 {
        DropUnique(cache, r.identity);
        DropSize(cache, r.identity);
        cache := Drop(cache, r.identity);
        return;
      }
      var entry := Timed(r.identity, now + Min(r.ttl, config.maxTtl));
      PutUnique(cache, r.identity, entry);
      DropSize(cache, r.identity);
      cache := Put(cache, r.identity, entry);
      GetEvict(cache, config.capacity, r.identity);
      while |cache| > config.capacity
        invariant |cache| <= config.capacity + 1
        invariant Evict(cache, config.capacity) == Evict(Put(old(cache), r.identity, entry), config.capacity)
        invariant |cache| <= config.capacity ==> cache == Evict(Put(old(cache), r.identity, entry), config.capacity)
        decreases |cache|
      {
        cache := cache[1..];
      }
    }
  }

  lemma AliveIsValid(d: Cache, now: int)
    requires Unique(d)
    ensures Unique(Alive(d, now)) && |Alive(d, now)| <= |d|
  {
    var at := AliveKeepsOrder(d, now);
    SweepSplits(d, now);
  }

  lemma SweepRuns(cfg: Config, d: Cache, now: int)
    ensures Run(cfg, d, OpsOf(cfg, now, [])) == Alive(d, now)
  {
    assert [] + [Sweeping(now)] == [Sweeping(now)];
    RunStep(cfg, d, [], Sweeping(now));
  }

  lemma CallStep(cfg: Config, d: Cache, now: int, records: seq<Heard>, i: nat)
    requires i < |records|
    ensures Run(cfg, d, OpsOf(cfg, now, records[..i + 1]))
         == Apply(cfg, Run(cfg, d, OpsOf(cfg, now, records[..i])), OpOf(cfg, now, records[i]))
    ensures Output(cfg, d, now, records[..i + 1])
         == Output(cfg, d, now, records[..i]) + [DisclosedBy(cfg, now, records[i])]
  {
    hide Apply, OpOf, DisclosedBy;
    assert records[..i + 1][..i] == records[..i];
    RunStep(cfg, d, OpsOf(cfg, now, records[..i]), OpOf(cfg, now, records[i]));
  }

  // ----- against an unbounded history

  /** The identities announced, in order. */
  function Announcements(ops: seq<Op>): seq<nat> {
    if ops == [] then [] else
      var op := ops[|ops| - 1];
      Announcements(ops[..|ops| - 1]) + if op.Announcing? then [op.identity] else []
  }

  /** The live record of an identity if nothing were ever evicted: announced, and since then neither
      withdrawn nor found expired. */
  function Live(ops: seq<Op>, id: nat): Option<Timed<nat>> {
    if ops == [] then None else
      var before, op := Live(ops[..|ops| - 1], id), ops[|ops| - 1];
      match op
      case Sweeping(now) => if before.Some? && before.value.expiresAt <= now then None else before
      case Announcing(identity, expiresAt) => if identity == id then Some(Timed(id, expiresAt)) else before
      case Leaving(identity) => if identity == id then None else before
  }

  ghost predicate Shaped(cfg: Config, d: Cache, touched: seq<nat>) {
    Unique(d) && Recent(d, touched) && |d| <= cfg.capacity
  }

  lemma StepShaped(cfg: Config, d: Cache, op: Op, touched: seq<nat>)
    requires cfg.capacity >= 1 && Shaped(cfg, d, touched)
    ensures Shaped(cfg, Apply(cfg, d, op), touched + if op.Announcing? then [op.identity] else [])
  {
    assert touched + [] == touched;
    match op {
      case Sweeping(now) =>
        AliveIsShaped(d, now, touched);
        SweepSplits(d, now);
      case Announcing(identity, expiresAt) =>
        RememberStep(d, identity, Timed(identity, expiresAt), cfg.capacity, touched);
      case Leaving(identity) =>
        DropUnique(d, identity);
        DropRecent(d, identity, touched);
        DropSize(d, identity);
    }
  }

  lemma {:induction false} CacheIsShaped(cfg: Config, ops: seq<Op>)
    requires cfg.capacity >= 1
    ensures Shaped(cfg, Run(cfg, [], ops), Announcements(ops))
  {
    if ops != [] {
      var before, op := ops[..|ops| - 1], ops[|ops| - 1];
      CacheIsShaped(cfg, before);
      hide Shaped, Apply;
      StepShaped(cfg, Run(cfg, [], before), op, Announcements(before));
    }
  }

  lemma SinceOnlyGrows(touched: seq<nat>, op: Op, id: nat)
    requires op.Announcing? ==> op.identity != id
    ensures |Since(touched, id)| <= |Since(touched + if op.Announcing? then [op.identity] else [], id)|
  {
    if op.Announcing? {
      SinceGrows(touched, op.identity, id);
    } else {
      assert touched + [] == touched;
    }
  }

  /** The cache agrees with the unbounded history, except that it may miss a live record, and then
      at least `capacity` other identities have been announced since that record was. */
  lemma {:induction false} CacheAgreesWithHistory(cfg: Config, ops: seq<Op>, id: nat)
    requires cfg.capacity >= 1
    ensures Get(Run(cfg, [], ops), id) == Live(ops, id)
         || (Get(Run(cfg, [], ops), id).None? && |Since(Announcements(ops), id)| >= cfg.capacity)
  {
    if ops != [] {
      var before, op := ops[..|ops| - 1], ops[|ops| - 1];
      var d, touched := Run(cfg, [], before), Announcements(before);
      CacheAgreesWithHistory(cfg, before, id);
      CacheIsShaped(cfg, before);
      if !(op.Announcing? && op.identity == id) {
        SinceOnlyGrows(touched, op, id);
      }
      match op {
        case Sweeping(now) => AliveGet(d, now, id);
        case Announcing(identity, expiresAt) =>
          RememberGet(d, identity, Timed(identity, expiresAt), cfg.capacity, touched, id);
        case Leaving(identity) => GetDrop(d, identity, id);
      }
    }
  }

  /** Entries stand under the identity of their own observation. */
  lemma {:induction false} LiveIsItself(ops: seq<Op>, id: nat)
    ensures Live(ops, id).Some? ==> Live(ops, id).value.value == id
  {
    if ops != [] {
      LiveIsItself(ops[..|ops| - 1], id);
    }
  }

  lemma {:induction false} LiveAfterCall(ops: seq<Op>, cfg: Config, now: int, records: seq<Heard>, id: nat)
    requires cfg.maxTtl >= 1
    ensures var live := Live(ops + OpsOf(cfg, now, records), id); live.Some? ==> live.value.expiresAt > now
  {
    var all := OpsOf(cfg, now, records);
    assert (ops + all)[..|ops + all| - 1] == ops + all[..|all| - 1];
    if records != [] {
      LiveAfterCall(ops, cfg, now, records[..|records| - 1], id);
    }
  }

  lemma {:induction false} RunAppend(cfg: Config, d: Cache, a: seq<Op>, b: seq<Op>)
    ensures Run(cfg, d, a + b) == Run(cfg, Run(cfg, d, a), b)
  {
    if b == [] {
      assert a + b == a;
    } else {
      assert (a + b)[..|a + b| - 1] == a + b[..|b| - 1];
      RunAppend(cfg, d, a, b[..|b| - 1]);
    }
  }

  /** After a call at time `now`, whatever came before it, every cached entry expires later than
      `now` and stands under its own identity. */
  lemma CachedEntriesAreLive(cfg: Config, ops: seq<Op>, now: int, records: seq<Heard>, i: nat)
    requires cfg.capacity >= 1 && cfg.maxTtl >= 1
    requires i < |Run(cfg, Run(cfg, [], ops), OpsOf(cfg, now, records))|
    ensures var entry := Run(cfg, Run(cfg, [], ops), OpsOf(cfg, now, records))[i];
            entry.value.expiresAt > now && entry.value.value == entry.key
  {
    var all := ops + OpsOf(cfg, now, records);
    RunAppend(cfg, [], ops, OpsOf(cfg, now, records));
    CacheIsShaped(cfg, all);
    var d := Run(cfg, [], all);
    GetAt(d, i);
    CacheAgreesWithHistory(cfg, all, d[i].key);
    LiveIsItself(all, d[i].key);
    LiveAfterCall(ops, cfg, now, records, d[i].key);
  }

  // ----- what is disclosed

  lemma {:induction false} ExpiriesAreDue(due: Cache, now: int, id: nat)
    requires forall i :: 0 <= i < |due| ==> due[i].value.value == due[i].key
    ensures Expired(id, now) in Expiries(due, now) <==> exists i :: 0 <= i < |due| && due[i].key == id
  {
    if due != [] {
      var n := |due| - 1;
      ExpiriesAreDue(due[..n], now, id);
      if due[n].key == id {
        assert Expiries(due, now)[|Expiries(due[..n], now)|] == Expired(id, now);
      } else if exists i :: 0 <= i < |due| && due[i].key == id {
        var i :| 0 <= i < |due| && due[i].key == id;
        assert due[..n][i].key == id;
      }
    }
  }

  lemma {:induction false} DueItems(d: Cache, now: int) returns (at: seq<nat>)
    ensures |at| == |Due(d, now)|
    ensures forall i :: 0 <= i < |at| ==> at[i] < |d| && d[at[i]] == Due(d, now)[i]
  {
    if d == [] {
      at := [];
    } else {
      var rest := DueItems(d[1..], now);
      var moved := seq(|rest|, i requires 0 <= i < |rest| => rest[i] + 1);
      at := if d[0].value.expiresAt > now then moved else [0] + moved;
    }
  }

  /** `expire` discloses exactly the cached records that are due, and removes exactly those. */
  lemma ExpireIsExact(cfg: Config, ops: seq<Op>, now: int, id: nat)
    requires cfg.capacity >= 1
    ensures var d := Run(cfg, [], ops);
            && (Expired(id, now) in Expiries(Due(d, now), now)
                <==> Get(d, id).Some? && Get(d, id).value.expiresAt <= now)
            && Get(Alive(d, now), id)
               == if Expired(id, now) in Expiries(Due(d, now), now) then None else Get(d, id)
  {
    var d := Run(cfg, [], ops);
    CacheIsShaped(cfg, ops);
    var at := DueItems(d, now);
    var due := Due(d, now);
    forall i | 0 <= i < |due| ensures due[i].value.value == due[i].key {
      GetAt(d, at[i]);
      CacheAgreesWithHistory(cfg, ops, due[i].key);
      LiveIsItself(ops, due[i].key);
    }
    AliveGet(d, now, id);
    DueGet(d, now, id);
    GetFinds(due, id);
    ExpiriesAreDue(due, now, id);
  }

  lemma {:induction false} ExpiriesComeFirst(cfg: Config, d: Cache, now: int, records: seq<Heard>, id: nat)
    requires Expired(id, now) in Expiries(Due(d, now), now)
    ensures Expired(id, now) in Output(cfg, d, now, records)
  {
    if records != [] {
      ExpiriesComeFirst(cfg, d, now, records[..|records| - 1], id);
    }
  }

  /** The identities whose cached record is due. */
  ghost predicate IsDue(d: Cache, now: int, id: nat) {
    Get(d, id).Some? && Get(d, id).value.expiresAt <= now
  }

  ghost predicate Tells(output: Option<seq<Disclosed>>, now: int, id: nat) {
    output.Some? && Expired(id, now) in output.value
  }

  /** A call removes every due record, but a call whose frame cannot be parsed discloses none of
      them: it tells of every expiry exactly when its frame parses or nothing was due. */
  lemma CallDisclosesExpiriesUnlessItFails(cfg: Config, ops: seq<Op>, now: int, records: Option<seq<Heard>>)
    requires cfg.capacity >= 1
    ensures var d := Run(cfg, [], ops);
            var output := if records.None? then None else Some(Output(cfg, d, now, records.value));
            (forall id: nat :: IsDue(d, now, id) ==> Tells(output, now, id)) <==> records.Some? || Due(d, now) == []
  {
    var d := Run(cfg, [], ops);
    var output := if records.None? then None else Some(Output(cfg, d, now, records.value));
    if records.Some? {
      forall id: nat | IsDue(d, now, id) ensures Tells(output, now, id) {
        ExpireIsExact(cfg, ops, now, id);
        ExpiriesComeFirst(cfg, d, now, records.value, id);
      }
    } else {
      CacheIsShaped(cfg, ops);
      if Due(d, now) != [] {
        var id := Due(d, now)[0].key;
        DueGet(d, now, id);
        assert IsDue(d, now, id) && !Tells(output, now, id);
      }
      forall id: nat | Due(d, now) == [] ensures !IsDue(d, now, id) {
        DueGet(d, now, id);
      }
    }
  }

  /** A history that loses an expiry: a record announced at 0 for ten units, a call at 20 whose frame cannot
      be parsed, and a good one at 30, which has nothing left to tell. */
  lemma ExpiryCanBeLost()
    ensures var cfg := Config(4, 100);
            var announced := Run(cfg, [], OpsOf(cfg, 0, [Heard(1, 10)]));
            var failed := Run(cfg, announced, OpsOf(cfg, 20, []));
            && IsDue(announced, 20, 1) && !Tells(None, 20, 1)
            && failed == [] && Output(cfg, failed, 30, []) == []
  {
    var cfg := Config(4, 100);
    var r := [Heard(1, 10)];
    assert r[..0] == [];
    RunStep(cfg, [], [Sweeping(0)], Announcing(1, 10));
    SweepRuns(cfg, [], 0);
    assert OpsOf(cfg, 0, []) == [] + [Sweeping(0)];
    assert Run(cfg, [], OpsOf(cfg, 0, r)) == Remember([], 1, Timed(1, 10), 4) == [Item(1, Timed(1, 10))];
    var announced := [Item(1, Timed(1, 10))];
    SweepRuns(cfg, announced, 20);
    assert announced[1..] == [] && Alive(announced, 20) == [];
  }

  // ----- what a call tells

  /** The disclosure of one record: a goodbye for a TTL of zero, else an announcement until the TTL, or the
      longest allowed one, has passed. */
  predicate IsToldAs(cfg: Config, now: int, r: Heard, x: Disclosed) {
    if r.ttl == 0 then x == Goodbye(r.identity)
    else if r.ttl <= cfg.maxTtl then x == Announced(r.identity, now + r.ttl)
    else x == Announced(r.identity, now + cfg.maxTtl)
  }

  lemma {:induction false} ExpiriesAreInOrder(due: Cache, now: int)
    ensures |Expiries(due, now)| == |due|
    ensures forall i :: 0 <= i < |due| ==> Expiries(due, now)[i] == Expired(due[i].value.value, now)
  {
    if due != [] {
      ExpiriesAreInOrder(due[..|due| - 1], now);
    }
  }

  /** A call that parses tells of the expiries, in cache order, and behind them of each record, in order, by one
      disclosure. */
  lemma {:induction false} CallTellsEachRecord(cfg: Config, d: Cache, now: int, records: seq<Heard>)
    ensures var out, n := Output(cfg, d, now, records), |Due(d, now)|;
            && |out| == n + |records|
            && (forall i :: 0 <= i < n ==> out[i] == Expired(Due(d, now)[i].value.value, now))
            && forall i :: 0 <= i < |records| ==> IsToldAs(cfg, now, records[i], out[n + i])
  {
    hide Due;
    if records == [] {
      ExpiriesAreInOrder(Due(d, now), now);
    } else {
      var m, n := |records| - 1, |Due(d, now)|;
      var before := Output(cfg, d, now, records[..m]);
      CallTellsEachRecord(cfg, d, now, records[..m]);
      assert Output(cfg, d, now, records) == before + [DisclosedBy(cfg, now, records[m])];
      forall i | 0 <= i < |records| ensures IsToldAs(cfg, now, records[i], Output(cfg, d, now, records)[n + i]) {
        assert i < m ==> records[..m][i] == records[i];
      }
    }
  }

  /** So a goodbye is told if and only if a record of the identity has TTL zero, and an announcement until a
      time if and only if a record of the identity lasts until then. */
  lemma DisclosuresAreExact(cfg: Config, d: Cache, now: int, records: seq<Heard>, id: nat, until: int)
    ensures Goodbye(id) in Output(cfg, d, now, records) <==> exists r :: r in records && r.identity == id && r.ttl == 0
    ensures Announced(id, until) in Output(cfg, d, now, records) <==>
              exists r :: r in records && r.identity == id && r.ttl > 0
                          && until == now + if r.ttl <= cfg.maxTtl then r.ttl else cfg.maxTtl
  {
    var out, n := Output(cfg, d, now, records), |Due(d, now)|;
    CallTellsEachRecord(cfg, d, now, records);
    hide Output, Due;
    forall x | x in out && !x.Expired? ensures exists r :: r in records && IsToldAs(cfg, now, r, x) {
      var i :| 0 <= i < |out| && out[i] == x;
      assert i >= n && IsToldAs(cfg, now, records[i - n], out[n + (i - n)]);
    }
    forall r | r in records ensures exists x :: x in out && IsToldAs(cfg, now, r, x) {
      var i :| 0 <= i < |records| && records[i] == r;
      assert IsToldAs(cfg, now, r, out[n + i]);
    }
  }

  // ----- what a call leaves in the cache

  /** The last record of an identity in a call. */
  function LastHeard(records: seq<Heard>, id: nat): Option<Heard> {
    if records == [] then None
    else if records[|records| - 1].identity == id then Some(records[|records| - 1])
    else LastHeard(records[..|records| - 1], id)
  }

  lemma {:induction false} LiveIsLastHeard(ops: seq<Op>, cfg: Config, now: int, records: seq<Heard>, id: nat)
    ensures var live, last := Live(ops + OpsOf(cfg, now, records), id), LastHeard(records, id);
            if last.None? then
              live == (var l := Live(ops, id); if l.Some? && l.value.expiresAt <= now then None else l)
            else if last.value.ttl == 0 then live == None
            else live == Some(Timed(id, now + if last.value.ttl <= cfg.maxTtl then last.value.ttl else cfg.maxTtl))
  {
    var all := OpsOf(cfg, now, records);
    assert (ops + all)[..|ops + all| - 1] == ops + all[..|all| - 1];
    if records == [] {
      assert ops + [] == ops;
    } else {
      LiveIsLastHeard(ops, cfg, now, records[..|records| - 1], id);
    }
  }

  /** Without a new announcement an entry stays as it is or goes. */
  lemma {:induction false} NothingReappears(cfg: Config, ops: seq<Op>, more: seq<Op>, id: nat)
    requires cfg.capacity >= 1 && forall op :: op in more ==> !(op.Announcing? && op.identity == id)
    ensures Get(Run(cfg, [], ops + more), id).None? || Get(Run(cfg, [], ops + more), id) == Get(Run(cfg, [], ops), id)
  {
    if more == [] {
      assert ops + more == ops;
    } else {
      var n := |more| - 1;
      var before, op := ops + more[..n], more[n];
      assert (ops + more)[..|ops + more| - 1] == before;
      NothingReappears(cfg, ops, more[..n], id);
      CacheIsShaped(cfg, before);
      var d := Run(cfg, [], before);
      match op {
        case Sweeping(now) => AliveGet(d, now, id);
        case Announcing(identity, expiresAt) =>
          RememberGet(d, identity, Timed(identity, expiresAt), cfg.capacity, Announcements(before), id);
        case Leaving(identity) => GetDrop(d, identity, id);
      }
    }
  }

  lemma {:induction false} UnheardIsNotAnnounced(cfg: Config, now: int, records: seq<Heard>, id: nat, op: Op)
    requires LastHeard(records, id).None? && op in OpsOf(cfg, now, records)
    ensures !(op.Announcing? && op.identity == id)
  {
    if records != [] && op in OpsOf(cfg, now, records[..|records| - 1]) {
      UnheardIsNotAnnounced(cfg, now, records[..|records| - 1], id, op);
    }
  }

  /** After a call, whatever came before: an identity whose last record was a goodbye is not cached; one whose
      last record lasts stands with the expiry announced last; one that was not heard stands as before, unless
      it was due. Only `capacity` other announcements since can have driven a record out. */
  lemma CallLeavesLastHeard(cfg: Config, ops: seq<Op>, now: int, records: seq<Heard>, id: nat)
    requires cfg.capacity >= 1
    ensures var before, after := Run(cfg, [], ops), Run(cfg, Run(cfg, [], ops), OpsOf(cfg, now, records));
            var last, others := LastHeard(records, id), Since(Announcements(ops + OpsOf(cfg, now, records)), id);
            var expected :=
              if last.None? then (if IsDue(before, now, id) then None else Get(before, id))
              else if last.value.ttl == 0 then None
              else Some(Timed(id, now + if last.value.ttl <= cfg.maxTtl then last.value.ttl else cfg.maxTtl));
            Get(after, id) == expected || (Get(after, id).None? && |others| >= cfg.capacity)
  {
    var all := ops + OpsOf(cfg, now, records);
    RunAppend(cfg, [], ops, OpsOf(cfg, now, records));
    CacheAgreesWithHistory(cfg, all, id);
    CacheAgreesWithHistory(cfg, ops, id);
    LiveIsLastHeard(ops, cfg, now, records, id);
    if LastHeard(records, id).None? {
      forall op | op in OpsOf(cfg, now, records) ensures !(op.Announcing? && op.identity == id) {
        UnheardIsNotAnnounced(cfg, now, records, id, op);
      }
      NothingReappears(cfg, ops, OpsOf(cfg, now, records), id);
    }
  }
}
