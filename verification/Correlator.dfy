/** The body of `correlate` (correlation.py) as it runs: dictionaries filled in loops, and
    union-find queried and updated while decisions accumulate. Each stage is proved to compute
    its specification in module Correlation. */
module Correlator {
  import opened Options
  import opened Numbers
  import opened UnionFind
  import opened Sorting
  import opened Correlation

  lemma {:induction false} DuplicatePersists(s: seq<Observation>, k: nat)
    requires k <= |s| && FirstDuplicate(s[..k]).Some?
    ensures FirstDuplicate(s) == FirstDuplicate(s[..k])
    decreases |s|
  {
    if k < |s| {
      var n := |s| - 1;
      assert s[..n][..k] == s[..k];
      DuplicatePersists(s[..n], k);
    } else {
      assert s[..k] == s;
    }
  }

  /** The dictionary `identifiers_by_observation` after a prefix without repeated ids. */
  ghost predicate Registered(m: map<Id, seq<Identity>>, prefix: seq<Observation>) {
    && m.Keys == IdSet(prefix)
    && forall o :: o in prefix ==> m[o.id] == AllIdentifiers(o)
  }

  lemma RegisterStep(m: map<Id, seq<Identity>>, prefix: seq<Observation>, o: Observation)
    requires Registered(m, prefix) && FirstDuplicate(prefix).None?
    ensures FirstDuplicate(prefix + [o]) == if o.id in m then Some(o.id) else None
    ensures o.id !in m ==> Registered(m[o.id := AllIdentifiers(o)], prefix + [o])
  {
    hide AllIdentifiers;
    assert (prefix + [o])[..|prefix|] == prefix;
    if o.id !in m {
      IdSetStep(prefix, o);
      hide IdSet;
      assert Registered(m[o.id := AllIdentifiers(o)], prefix + [o]);
    }
  }

  lemma IdSetStep(prefix: seq<Observation>, o: Observation)
    ensures IdSet(prefix + [o]) == IdSet(prefix) + {o.id}
    ensures forall p :: p in prefix ==> p.id in IdSet(prefix)
  {
  }

  /** Fills `identifiers_by_observation`, stopping at the first repeated id. */
  method Register(ordered: seq<Observation>)
    returns (duplicate: Option<Id>, identifiersOf: map<Id, seq<Identity>>)
    ensures duplicate == FirstDuplicate(ordered)
    ensures duplicate.None? ==> Registered(identifiersOf, ordered)
  {
    identifiersOf := map[];
    for k := 0 to |ordered|
      invariant FirstDuplicate(ordered[..k]).None?
      invariant Registered(identifiersOf, ordered[..k])
    {
      hide FirstDuplicate, Registered, AllIdentifiers, IdSet;
      var o := ordered[k];
      RegisterStep(identifiersOf, ordered[..k], o);
      assert ordered[..k] + [o] == ordered[..k + 1];
      if o.id in identifiersOf {
        DuplicatePersists(ordered, k + 1);
        return Some(o.id), identifiersOf;
      }
      identifiersOf := identifiersOf[o.id := AllIdentifiers(o)];
    }
    duplicate := None;
    assert ordered[..|ordered|] == ordered;
  }

  /** The keys some evidence of a prefix makes stable. */
  function KeysOn(evidence: seq<Identity>): set<nat> {
    set e | e in evidence && Stable(e) :: e.key
  }

  function Lookup<T>(m: map<nat, seq<T>>, key: nat): seq<T> {
    if key in m then m[key] else []
  }

  function Append(index: map<nat, seq<Claim>>, id: Id, e: Identity): map<nat, seq<Claim>> {
    if Stable(e) then index[e.key := Lookup(index, e.key) + [Claim(id, e)]] else index
  }

  /** What `index` has become after some evidence of one more observation. */
  ghost predicate Indexed(
    now: map<nat, seq<Claim>>, before: map<nat, seq<Claim>>, id: Id, evidence: seq<Identity>)
  {
    && now.Keys == before.Keys + KeysOn(evidence)
    && forall key {:trigger Lookup(now, key)} :: Lookup(now, key) == Lookup(before, key) + ClaimsOn(id, evidence, key)
  }

  lemma AppendStep(
    now: map<nat, seq<Claim>>, before: map<nat, seq<Claim>>, id: Id, evidence: seq<Identity>, e: Identity)
    requires Indexed(now, before, id, evidence)
    ensures Indexed(Append(now, id, e), before, id, evidence + [e])
  {
    var next := Append(now, id, e);
    KeysOnStep(evidence, e);
    hide KeysOn, ClaimsOn, Stable;
    assert next.Keys == before.Keys + KeysOn(evidence + [e]);
    forall key ensures Lookup(next, key) == Lookup(before, key) + ClaimsOn(id, evidence + [e], key) {
      ClaimsOnStep(id, evidence, e, key);
      assert Lookup(now, key) == Lookup(before, key) + ClaimsOn(id, evidence, key);
    }
  }

  lemma KeysOnStep(evidence: seq<Identity>, e: Identity)
    ensures KeysOn(evidence + [e]) == KeysOn(evidence) + if Stable(e) then {e.key} else {}
  {
  }

  lemma ClaimsOnStep(id: Id, evidence: seq<Identity>, e: Identity, key: nat)
    ensures ClaimsOn(id, evidence + [e], key)
         == ClaimsOn(id, evidence, key) + if Stable(e) && e.key == key then [Claim(id, e)] else []
  {
    assert (evidence + [e])[..|evidence|] == evidence;
  }

  /** One observation's evidence appended to the index. */
  method IndexOne(before: map<nat, seq<Claim>>, id: Id, evidence: seq<Identity>)
    returns (index: map<nat, seq<Claim>>)
    ensures Indexed(index, before, id, evidence)
  {
    index := before;
    for j := 0 to |evidence|
      invariant Indexed(index, before, id, evidence[..j])
    {
      var e := evidence[j];
      AppendStep(index, before, id, evidence[..j], e);
      assert evidence[..j + 1] == evidence[..j] + [e];
      hide ClaimsOn, KeysOn;
      if Stable(e) {
        index := index[e.key := Lookup(index, e.key) + [Claim(id, e)]];
      }
    }
    assert evidence[..|evidence|] == evidence;
  }

  /** `stable_index` after a prefix of the observations. */
  ghost predicate Complete(index: map<nat, seq<Claim>>, prefix: seq<Observation>) {
    && index.Keys == StableKeys(prefix)
    && forall key {:trigger Lookup(index, key)} :: Lookup(index, key) == ClaimsFor(prefix, key)
  }

  lemma CompleteStep(
    index: map<nat, seq<Claim>>, next: map<nat, seq<Claim>>, prefix: seq<Observation>, o: Observation)
    requires Complete(index, prefix) && Indexed(next, index, o.id, AllIdentifiers(o))
    ensures Complete(next, prefix + [o])
  {
    StableKeysStep(prefix, o);
    hide ClaimsFor, StableKeys, ClaimsOn, KeysOn, AllIdentifiers;
    forall key ensures Lookup(next, key) == ClaimsFor(prefix + [o], key) {
      ClaimsForStep(prefix, o, key);
      assert Lookup(index, key) == ClaimsFor(prefix, key);
    }
  }

  lemma StableKeysStep(prefix: seq<Observation>, o: Observation)
    ensures StableKeys(prefix + [o]) == StableKeys(prefix) + KeysOn(AllIdentifiers(o))
  {
    hide AllIdentifiers, Stable;
  }

  lemma ClaimsForStep(prefix: seq<Observation>, o: Observation, key: nat)
    ensures ClaimsFor(prefix + [o], key) == ClaimsFor(prefix, key) + ClaimsOn(o.id, AllIdentifiers(o), key)
  {
    hide ClaimsOn, AllIdentifiers;
    assert (prefix + [o])[..|prefix|] == prefix;
  }

  method BuildIndex(ordered: seq<Observation>, identifiersOf: map<Id, seq<Identity>>)
    returns (index: map<nat, seq<Claim>>)
    requires Registered(identifiersOf, ordered)
    ensures Complete(index, ordered)
  {
    index := map[];
    for k := 0 to |ordered|
      invariant Complete(index, ordered[..k])
    {
      hide ClaimsFor, StableKeys, ClaimsOn, KeysOn, AllIdentifiers;
      var before := index;
      index := IndexOne(before, ordered[k].id, identifiersOf[ordered[k].id]);
      CompleteStep(before, index, ordered[..k], ordered[k]);
      assert ordered[..k + 1] == ordered[..k] + [ordered[k]];
    }
    assert ordered[..|ordered|] == ordered;
  }

  lemma DecideStep(ids: set<Id>, done: seq<Candidate>, c: Candidate)
    ensures Decide(ids, done + [c]) == DecideOne(Decide(ids, done), c)
  {
    hide DecideOne;
    assert (done + [c])[..|done|] == done;
  }

  /** One candidate of a star: skipped when `find` already agrees, else decided and joined. */
  method Settle(
    sets: DisjointSets, c: Candidate, decisions: seq<Decision>, ghost ids: set<Id>, ghost done: seq<Candidate>)
    returns (out: seq<Decision>)
    requires sets.Valid() && c.first.id in ids && c.other.id in ids
    requires sets.labels == Decide(ids, done).labels && decisions == Decide(ids, done).decisions
    modifies sets
    ensures sets.Valid()
    ensures sets.labels == Decide(ids, done + [c]).labels && out == Decide(ids, done + [c]).decisions
  {
    DecideStep(ids, done, c);
    hide Decide;
    out := decisions;
    var left := sets.Find(c.first.id);
    var right := sets.Find(c.other.id);
    if left == right {
      return;
    }
    var confidence := Lower(c.first.evidence.confidence, c.other.evidence.confidence);
    out := out + [Decision(c.first.id, c.other.id, c.key, confidence)];
    sets.Union(c.first.id, c.other.id);
  }

  lemma StarStep(ids: set<Id>, done: seq<Candidate>, key: nat, first: Claim, others: seq<Claim>, c: Claim)
    ensures Decide(ids, done + Star(key, first, others + [c]))
         == DecideOne(Decide(ids, done + Star(key, first, others)), Candidate(key, first, c))
  {
    hide DecideOne;
    assert (others + [c])[..|others|] == others;
    var before, next := done + Star(key, first, others), Candidate(key, first, c);
    assert done + Star(key, first, others + [c]) == before + [next];
    DecideStep(ids, before, next);
  }

  /** The inner loop: the first claim of a key against each of the others. */
  method MergeClaims(
    sets: DisjointSets, key: nat, first: Claim, others: seq<Claim>, decisions: seq<Decision>,
    ghost ids: set<Id>, ghost done: seq<Candidate>)
    returns (out: seq<Decision>)
    requires sets.Valid() && first.id in ids && forall c :: c in others ==> c.id in ids
    requires sets.labels == Decide(ids, done).labels && decisions == Decide(ids, done).decisions
    modifies sets
    ensures sets.Valid()
    ensures sets.labels == Decide(ids, done + Star(key, first, others)).labels
    ensures out == Decide(ids, done + Star(key, first, others)).decisions
  {
    out := decisions;
    assert done + Star(key, first, others[..0]) == done;
    hide Decide, DecideOne, Star, Represents;
    for i := 0 to |others|
      invariant sets.Valid()
      invariant sets.labels == Decide(ids, done + Star(key, first, others[..i])).labels
      invariant out == Decide(ids, done + Star(key, first, others[..i])).decisions
    {
      assert others[..i] + [others[i]] == others[..i + 1];
      StarStep(ids, done, key, first, others[..i], others[i]);
      out := Settle(sets, Candidate(key, first, others[i]), out, ids, done + Star(key, first, others[..i]));
    }
    assert others[..|others|] == others;
  }

  /** Labels and decisions after the candidates of some keys. */
  ghost predicate Reached(labels: Labelling, decisions: seq<Decision>, ordered: seq<Observation>, keys: seq<nat>) {
    Decided(labels, decisions) == Decide(IdSet(ordered), Stars(ordered, keys))
  }

  /** One turn of the outer loop: the claims of a key, sorted, from the first on. */
  method MergeKey(
    sets: DisjointSets, ordered: seq<Observation>, index: map<nat, seq<Claim>>, key: nat, decisions: seq<Decision>,
    ghost before: seq<nat>)
    returns (out: seq<Decision>)
    requires sets.Valid() && Complete(index, ordered) && key in index
    requires Reached(sets.labels, decisions, ordered, before)
    modifies sets
    ensures sets.Valid() && Reached(sets.labels, out, ordered, before + [key])
  {
    hide Complete, Represents, IdSet, SortedClaims, Star, SortBy, Decide, Stars;
    var claims := SortBy(ClaimBefore, index[key]);
    ClaimsAreSorted(ordered, index, key, claims);
    StarsStep(ordered, before, key);
    out := MergeClaims(sets, key, claims[0], claims[1..], decisions, IdSet(ordered), Stars(ordered, before));
  }

  /** The outer loop over sorted keys. */
  method MergeAlongKeys(sets: DisjointSets, ordered: seq<Observation>, index: map<nat, seq<Claim>>)
    returns (decisions: seq<Decision>)
    requires sets.Valid() && sets.labels == Singletons(IdSet(ordered))
    requires Complete(index, ordered)
    modifies sets
    ensures sets.Valid() && sets.labels == DecideAll(ordered).labels
    ensures decisions == DecideAll(ordered).decisions
  {
    hide Reached, DecideAll, Complete, Represents, IdSet, Ascending, Singletons, StableKeys;
    decisions := [];
    var keys := Ascending(index.Keys);
    KeysAreStable(ordered, index, keys);
    ReachedNothing(ordered, keys);
    for k := 0 to |keys|
      invariant sets.Valid() && Reached(sets.labels, decisions, ordered, keys[..k])
    {
      decisions := MergeKey(sets, ordered, index, keys[k], decisions, keys[..k]);
      assert keys[..k] + [keys[k]] == keys[..k + 1];
    }
    assert keys[..|keys|] == keys;
    ReachedAll(sets.labels, decisions, ordered, keys);
  }

  lemma ReachedNothing(ordered: seq<Observation>, keys: seq<nat>)
    ensures Reached(Singletons(IdSet(ordered)), [], ordered, keys[..0])
  {
  }

  lemma ReachedAll(labels: Labelling, decisions: seq<Decision>, ordered: seq<Observation>, keys: seq<nat>)
    requires Reached(labels, decisions, ordered, keys) && keys == Ascending(StableKeys(ordered))
    ensures labels == DecideAll(ordered).labels && decisions == DecideAll(ordered).decisions
  {
    hide Decide, Stars, IdSet, StableKeys, Ascending;
  }

  lemma KeysAreStable(ordered: seq<Observation>, index: map<nat, seq<Claim>>, keys: seq<nat>)
    requires Complete(index, ordered) && keys == Ascending(index.Keys)
    ensures keys == Ascending(StableKeys(ordered)) && forall i :: 0 <= i < |keys| ==> keys[i] in index
  {
    AscendingEnumerates(index.Keys);
    forall i | 0 <= i < |keys| ensures keys[i] in index {
      assert keys[i] in keys;
    }
  }

  /** No key of the index is without a claim, so `claims[0]` exists. */
  lemma ClaimsAreSorted(ordered: seq<Observation>, index: map<nat, seq<Claim>>, key: nat, claims: seq<Claim>)
    requires Complete(index, ordered) && key in index
    requires claims == SortBy(ClaimBefore, index[key])
    ensures claims == SortedClaims(ordered, key) != []
    ensures claims[0].id in IdSet(ordered)
    ensures forall c :: c in claims[1..] ==> c.id in IdSet(ordered)
  {
    assert Lookup(index, key) == ClaimsFor(ordered, key);
    var o, e :| o in ordered && e in AllIdentifiers(o) && Stable(e) && e.key == key;
    EvidenceIsClaimed(ordered, o, e);
    hide Complete, ClaimsFor, StableKeys, AllIdentifiers;
    SortKeeps(ClaimBefore, ClaimsFor(ordered, key));
    forall c | c in claims ensures c.id in IdSet(ordered) {
      ClaimsComeFrom(ordered, key, c);
    }
  }

  lemma StarsStep(ordered: seq<Observation>, keys: seq<nat>, key: nat)
    ensures Stars(ordered, keys + [key]) == Stars(ordered, keys) + StarOf(key, SortedClaims(ordered, key))
  {
    assert (keys + [key])[..|keys|] == keys;
  }

  /** The dictionary `groups`, with its keys in insertion order, after a prefix. */
  ghost predicate Grouped(
    order: seq<Id>, groups: map<Id, seq<Observation>>, prefix: seq<Observation>, labels: Labelling)
  {
    && order == FirstSeen(prefix, labels)
    && (forall r :: r in order <==> r in groups)
    && forall r {:trigger Lookup(groups, r)} :: Lookup(groups, r) == Members(prefix, labels, r)
  }

  lemma GroupStep(
    order: seq<Id>, groups: map<Id, seq<Observation>>, prefix: seq<Observation>, labels: Labelling, o: Observation)
    requires Grouped(order, groups, prefix, labels)
    ensures var root := LabelOf(labels, o.id);
            Grouped(
              if root in groups then order else order + [root],
              groups[root := Lookup(groups, root) + [o]], prefix + [o], labels)
  {
    var root := LabelOf(labels, o.id);
    var next := groups[root := Lookup(groups, root) + [o]];
    FirstSeenStep(prefix, labels, o);
    hide Members, FirstSeen, LabelOf;
    forall r ensures Lookup(next, r) == Members(prefix + [o], labels, r) {
      MembersStep(prefix, labels, r, o);
      assert Lookup(groups, r) == Members(prefix, labels, r);
    }
  }

  lemma FirstSeenStep(prefix: seq<Observation>, labels: Labelling, o: Observation)
    ensures var root, roots := LabelOf(labels, o.id), FirstSeen(prefix, labels);
            FirstSeen(prefix + [o], labels) == if root in roots then roots else roots + [root]
  {
    assert (prefix + [o])[..|prefix|] == prefix;
  }

  lemma MembersStep(prefix: seq<Observation>, labels: Labelling, r: Id, o: Observation)
    ensures Members(prefix + [o], labels, r)
         == Members(prefix, labels, r) + if LabelOf(labels, o.id) == r then [o] else []
  {
    assert (prefix + [o])[..|prefix|] == prefix;
  }

  /** One observation joins the group of its root. */
  method Join(
    sets: DisjointSets, order: seq<Id>, groups: map<Id, seq<Observation>>, o: Observation, ghost prefix: seq<Observation>)
    returns (newOrder: seq<Id>, newGroups: map<Id, seq<Observation>>)
    requires sets.Valid() && o.id in sets.labels && Grouped(order, groups, prefix, sets.labels)
    modifies sets
    ensures sets.Valid() && sets.labels == old(sets.labels)
    ensures Grouped(newOrder, newGroups, prefix + [o], sets.labels)
  {
    hide Represents, Grouped;
    GroupStep(order, groups, prefix, sets.labels, o);
    var root := sets.Find(o.id);
    newOrder := if root in groups then order else order + [root];
    newGroups := groups[root := Lookup(groups, root) + [o]];
  }

  /** Fills `groups` under the root of each observation. */
  method Group(sets: DisjointSets, ordered: seq<Observation>)
    returns (order: seq<Id>, groups: map<Id, seq<Observation>>)
    requires sets.Valid() && forall i :: 0 <= i < |ordered| ==> ordered[i].id in sets.labels
    modifies sets
    ensures sets.Valid() && sets.labels == old(sets.labels)
    ensures Grouped(order, groups, ordered, sets.labels)
  {
    order, groups := [], map[];
    assert Grouped(order, groups, ordered[..0], sets.labels);
    hide Represents, Grouped;
    for k := 0 to |ordered|
      invariant sets.Valid() && sets.labels == old(sets.labels)
      invariant Grouped(order, groups, ordered[..k], sets.labels)
    {
      order, groups := Join(sets, order, groups, ordered[k], ordered[..k]);
      assert ordered[..k + 1] == ordered[..k] + [ordered[k]];
    }
    assert ordered[..|ordered|] == ordered;
  }

  lemma DevicesStep(
    roots: seq<Id>, root: Id, ordered: seq<Observation>, decided: Decided, digest: Seed -> int)
    ensures Devices(roots + [root], ordered, decided, digest)
         == Devices(roots, ordered, decided, digest)
            + [DeviceOf(Members(ordered, decided.labels, root), decided.decisions, digest)]
  {
    assert (roots + [root])[..|roots|] == roots;
  }

  method BuildDevices(
    order: seq<Id>, groups: map<Id, seq<Observation>>, ordered: seq<Observation>,
    decisions: seq<Decision>, digest: Seed -> int, ghost decided: Decided)
    returns (devices: seq<Device>)
    requires Grouped(order, groups, ordered, decided.labels) && decisions == decided.decisions
    ensures devices == Devices(order, ordered, decided, digest)
  {
    hide DeviceOf;
    devices := [];
    for k := 0 to |order|
      invariant devices == Devices(order[..k], ordered, decided, digest)
    {
      assert order[k] in order;
      DevicesStep(order[..k], order[k], ordered, decided, digest);
      assert order[..k] + [order[k]] == order[..k + 1];
      var members := groups[order[k]];
      assert members == Lookup(groups, order[k]);
      devices := devices + [DeviceOf(members, decisions, digest)];
    }
    assert order[..|order|] == order;
  }

  /** `correlate` computes its specification. */
  method Run(observations: seq<Observation>, digest: Seed -> int) returns (r: Result)
    ensures r == Correlate(observations, digest)
  {
    var ordered := InIdOrder(observations);
    var duplicate, identifiersOf := Register(ordered);
    if duplicate.Some? {
      return DuplicateId(duplicate.value);
    }
    var sets := new DisjointSets(identifiersOf.Keys);
    var index := BuildIndex(ordered, identifiersOf);
    var decisions := MergeAlongKeys(sets, ordered, index);
    var order, groups := Group(sets, ordered);
    var devices := BuildDevices(order, groups, ordered, decisions, digest, DecideAll(ordered));
    r := Correlated(
      SortBy(DeviceBefore, devices),
      SortDecisions(decisions));
  }
}
