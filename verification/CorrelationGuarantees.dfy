/** Further promises of `correlate`: confidence of devices, independence of input order,
    conservation of evidence, monotonicity and distinct seeds. */
module CorrelationGuarantees {
  import opened UnionFind
  import opened Sorting
  import opened Correlation
  import opened CorrelationTheorems
  import opened CorrelationResults

  // ----- confidence

  ghost predicate Inside(m: Decision, d: Device) {
    m.left in d.observationIds && m.right in d.observationIds
  }

  lemma {:induction false} MatchingExactly(decisions: seq<Decision>, ids: set<Id>)
    ensures forall m :: m in Matching(decisions, ids) <==> m in decisions && m.left in ids && m.right in ids
  {
    if decisions != [] {
      MatchingExactly(decisions[1..], ids);
      assert decisions == [decisions[0]] + decisions[1..];
    }
  }

  lemma {:induction false} LowestIsAttained(decisions: seq<Decision>)
    requires decisions != []
    ensures exists m :: m in decisions && m.confidence == LowestConfidence(decisions)
    ensures forall m :: m in decisions ==> LowestConfidence(decisions) <= m.confidence
  {
    var rest := decisions[1..];
    assert decisions == [decisions[0]] + rest;
    assert decisions[0] in decisions;
    if rest != [] {
      LowestIsAttained(rest);
    }
  }

  /** Two different ids of one device force a decision inside it. */
  lemma {:induction false} PathHasInnerDecision(
    decisions: seq<Decision>, path: seq<Id>, ids: set<Id>) returns (m: Decision)
    requires IsPath(DecisionLinks(decisions), path) && path[0] in ids && path[0] != path[|path| - 1]
    requires forall a, b :: Adjacent(DecisionLinks(decisions), a, b) && a in ids ==> b in ids
    ensures m in decisions && m.left in ids && m.right in ids
  {
    assert Adjacent(DecisionLinks(decisions), path[0], path[0 + 1]);
    m :| m in decisions && (Link(m.left, m.right) == Link(path[0], path[1]) || Link(m.left, m.right) == Link(path[1], path[0]));
  }

  /** A device of two or more observations has exactly the lowest confidence of the decisions
      inside it, which is at least 0.8. */
  lemma ConfidenceIsLowestDecision(observations: seq<Observation>, digest: Seed -> int, d: Device)
    requires Correlate(observations, digest).Correlated? && d in Correlate(observations, digest).devices
    requires exists x, y :: x in d.observationIds && y in d.observationIds && x != y
    ensures exists m :: m in Correlate(observations, digest).decisions && Inside(m, d) && m.confidence == d.confidence
    ensures forall m :: m in Correlate(observations, digest).decisions && Inside(m, d) ==> d.confidence <= m.confidence
    ensures d.confidence >= 0.8
  {
    var r := Correlate(observations, digest);
    var matching := InnerDecisions(observations, digest, d);
    LowestIsAttained(matching);
    var m :| m in matching && m.confidence == d.confidence;
    EveryDecisionIsExplained(observations, digest, m);
  }

  lemma InnerDecisions(observations: seq<Observation>, digest: Seed -> int, d: Device)
    returns (matching: seq<Decision>)
    requires Correlate(observations, digest).Correlated? && d in Correlate(observations, digest).devices
    requires exists x, y :: x in d.observationIds && y in d.observationIds && x != y
    ensures forall m :: m in matching <==> m in Correlate(observations, digest).decisions && Inside(m, d)
    ensures matching != [] && d.confidence == LowestConfidence(matching)
  {
    var ordered := InIdOrder(observations);
    var decided := DecideAll(ordered);
    ResultDevices(observations, digest);
    SortedDecisions(observations, digest);
    hide Correlate, InIdOrder, DecideAll, Unsorted;
    var i :| 0 <= i < |Unsorted(ordered, digest)| && Unsorted(ordered, digest)[i] == d;
    var root := RootOfDevice(ordered, digest, i);
    var members := Members(ordered, decided.labels, root);
    matching := Matching(decided.decisions, IdSet(members));
    MatchingExactly(decided.decisions, IdSet(members));
    DeviceIdSet(members, decided.decisions, digest);
    InnerDecisionExists(observations, digest, d, matching);
  }

  lemma DeviceIdSet(members: seq<Observation>, decisions: seq<Decision>, digest: Seed -> int)
    ensures forall x :: x in DeviceOf(members, decisions, digest).observationIds <==> x in IdSet(members)
  {
    forall x ensures x in Ids(members) <==> x in IdSet(members) {
      IdsAreMembers(members, x);
    }
  }

  lemma InnerDecisionExists(
    observations: seq<Observation>, digest: Seed -> int, d: Device, matching: seq<Decision>)
    requires Correlate(observations, digest).Correlated? && d in Correlate(observations, digest).devices
    requires exists x, y :: x in d.observationIds && y in d.observationIds && x != y
    requires forall m :: m in Correlate(observations, digest).decisions && Inside(m, d) ==> m in matching
    ensures matching != []
  {
    var r, ids := Correlate(observations, digest), (set x | x in d.observationIds);
    var x, y :| x in d.observationIds && y in d.observationIds && x != y;
    DeviceMemberIsObserved(observations, digest, d, x);
    DeviceMemberIsObserved(observations, digest, d, y);
    DecisionsAreSpanningForest(observations, digest);
    var links := DecisionLinks(r.decisions);
    assert SameDevice(r, x, y);
    forall a, b | Adjacent(links, a, b) && a in ids ensures b in ids {
      NeighbourIsInside(observations, digest, d, a, b);
    }
    var path :| IsPath(links, path) && path[0] == x && path[|path| - 1] == y;
    var m := PathHasInnerDecision(r.decisions, path, ids);
  }

  lemma DeviceMemberIsObserved(observations: seq<Observation>, digest: Seed -> int, d: Device, x: Id)
    requires Correlate(observations, digest).Correlated? && d in Correlate(observations, digest).devices
    requires x in d.observationIds
    ensures exists o :: o in observations && o.id == x
  {
    hide Correlate, Unsorted, Devices, DecideAll, FirstSeen;
    var ordered := InIdOrder(observations);
    SortKeeps(ObservationBefore, observations);
    ResultDevices(observations, digest);
    var i :| 0 <= i < |Unsorted(ordered, digest)| && Unsorted(ordered, digest)[i] == d;
    var root := RootOfDevice(ordered, digest, i);
    hide InIdOrder, LabelOf;
    assert x in IdSet(ordered);
  }

  /** A decision never leaves a device. */
  lemma NeighbourIsInside(observations: seq<Observation>, digest: Seed -> int, d: Device, a: Id, b: Id)
    requires Correlate(observations, digest).Correlated? && d in Correlate(observations, digest).devices
    requires Adjacent(DecisionLinks(Correlate(observations, digest).decisions), a, b) && a in d.observationIds
    ensures b in d.observationIds
  {
    var r := Correlate(observations, digest);
    var m :| m in r.decisions && (Link(m.left, m.right) == Link(a, b) || Link(m.left, m.right) == Link(b, a));
    EveryDecisionIsExplained(observations, digest, m);
    ConnectedByLink(DecisionLinks(r.decisions), a, b);
    DecisionsAreSpanningForest(observations, digest);
    assert SameDevice(r, a, b);
    var e :| e in r.devices && a in e.observationIds && b in e.observationIds;
    OnlyDevice(observations, digest, d, e, a);
  }

  lemma OnlyDevice(observations: seq<Observation>, digest: Seed -> int, d: Device, e: Device, x: Id)
    requires Correlate(observations, digest).Correlated?
    requires d in Correlate(observations, digest).devices && e in Correlate(observations, digest).devices
    requires x in d.observationIds && x in e.observationIds
    ensures d == e
  {
    var devices := Correlate(observations, digest).devices;
    DevicesAreDisjoint(observations, digest);
    hide Correlate;
    var i :| 0 <= i < |devices| && devices[i] == d;
    var j :| 0 <= j < |devices| && devices[j] == e;
    if i != j {
      assert false;
    }
  }

  // ----- input order

  function IdOf(o: Observation): int { o.id }

  lemma {:induction false} DuplicateDependsOnIds(s: seq<Observation>, t: seq<Observation>)
    requires Ids(s) == Ids(t)
    ensures FirstDuplicate(s) == FirstDuplicate(t)
  {
    if s != [] {
      var n := |s| - 1;
      assert Ids(s[..n]) == Ids(s)[..n] && Ids(t[..n]) == Ids(t)[..n];
      DuplicateDependsOnIds(s[..n], t[..n]);
      assert s[n].id == Ids(s)[n] == Ids(t)[n] == t[n].id;
      SameIdSet(s[..n], t[..n]);
    }
  }

  lemma SameIdSet(s: seq<Observation>, t: seq<Observation>)
    requires Ids(s) == Ids(t)
    ensures IdSet(s) == IdSet(t)
  {
    forall x ensures x in IdSet(s) <==> x in IdSet(t) {
      IdsAreMembers(s, x);
      IdsAreMembers(t, x);
    }
  }

  /** `correlate` gives the same answer, also when it refuses, for every order of its input. */
  lemma InputOrderIsIrrelevant(a: seq<Observation>, b: seq<Observation>, digest: Seed -> int)
    requires multiset(a) == multiset(b)
    ensures Correlate(a, digest) == Correlate(b, digest)
  {
    var s, t := InIdOrder(a), InIdOrder(b);
    SortKeeps(ObservationBefore, a);
    SortKeeps(ObservationBefore, b);
    SortBySorts(IdOf, ObservationBefore, a);
    SortBySorts(IdOf, ObservationBefore, b);
    SortedIdsAgree(s, t);
    DuplicateDependsOnIds(s, t);
    if FirstDuplicate(s).None? {
      DistinctIdsDetermine(s);
      SortedIsUnique(IdOf, s, t);
    }
  }

  lemma {:induction false} SortedIdsAgree(s: seq<Observation>, t: seq<Observation>)
    requires multiset(s) == multiset(t) && SortedBy(IdOf, s) && SortedBy(IdOf, t)
    ensures Ids(s) == Ids(t)
  {
    var id := (x: Id) => x as int;
    IdsMultiset(s);
    IdsMultiset(t);
    SameIdMultiset(s, t);
    assert SortedBy(id, Ids(s)) && SortedBy(id, Ids(t));
    SortedIsUnique(id, Ids(s), Ids(t));
  }

  /** How often an id occurs. */
  ghost function CountId(s: seq<Observation>, x: Id): nat {
    if s == [] then 0 else CountId(s[1..], x) + if s[0].id == x then 1 else 0
  }

  lemma {:induction false} IdsMultiset(s: seq<Observation>)
    ensures forall x :: multiset(Ids(s))[x] == CountId(s, x)
  {
    if s != [] {
      IdsMultiset(s[1..]);
      assert Ids(s) == [s[0].id] + Ids(s[1..]);
    }
  }

  lemma {:induction false} CountIdAppend(s: seq<Observation>, t: seq<Observation>, x: Id)
    ensures CountId(s + t, x) == CountId(s, x) + CountId(t, x)
  {
    if s == [] {
      assert s + t == t;
    } else {
      assert (s + t)[1..] == s[1..] + t;
      CountIdAppend(s[1..], t, x);
    }
  }

  lemma {:induction false} SameCount(s: seq<Observation>, t: seq<Observation>, x: Id)
    requires multiset(s) == multiset(t)
    ensures CountId(s, x) == CountId(t, x)
  {
    SameElements(s, t);
    if s != [] {
      assert s[0] in multiset(s);
      var i :| 0 <= i < |t| && t[i] == s[0];
      var rest := t[..i] + t[i + 1..];
      assert t == t[..i] + [t[i]] + t[i + 1..];
      TailMultiset(s);
      assert multiset(s[1..]) == multiset(rest);
      SameCount(s[1..], rest, x);
      CountIdAppend(t[..i], t[i + 1..], x);
      CountIdAppend(t[..i] + [t[i]], t[i + 1..], x);
      CountIdAppend(t[..i], [t[i]], x);
    }
  }

  lemma SameIdMultiset(s: seq<Observation>, t: seq<Observation>)
    requires multiset(s) == multiset(t)
    requires forall x :: multiset(Ids(s))[x] == CountId(s, x)
    requires forall x :: multiset(Ids(t))[x] == CountId(t, x)
    ensures multiset(Ids(s)) == multiset(Ids(t))
  {
    forall x: Id ensures multiset(Ids(s))[x] == multiset(Ids(t))[x] {
      SameCount(s, t, x);
    }
  }

  lemma {:induction false} DistinctIdsDetermine(s: seq<Observation>)
    requires FirstDuplicate(s).None?
    ensures KeyDetermines(IdOf, s)
  {
    if s != [] {
      var n := |s| - 1;
      DistinctIdsDetermine(s[..n]);
      forall i | 0 <= i < n ensures s[i].id != s[n].id {
        assert s[..n][i] in s[..n];
      }
    }
  }

  // ----- more evidence

  /** Adding observations only merges devices: what was together stays together. */
  lemma MoreObservationsCoarsen(
    a: seq<Observation>, b: seq<Observation>, digest: Seed -> int, o: Observation, p: Observation)
    requires Correlate(a, digest).Correlated? && Correlate(b, digest).Correlated?
    requires forall q :: q in a ==> q in b
    requires o in a && p in a && SameDevice(Correlate(a, digest), o.id, p.id)
    ensures SameDevice(Correlate(b, digest), o.id, p.id)
  {
    hide Correlate;
    DevicesAreComponents(a, digest, o, p);
    DevicesAreComponents(b, digest, o, p);
    assert SharedLinks(a) <= SharedLinks(b);
    MoreLinks(SharedLinks(a), SharedLinks(b));
  }

  // ----- seeds

  ghost predicate Injective(digest: Seed -> int) {
    forall s, t :: digest(s) == digest(t) ==> s == t
  }

  ghost predicate DifferentKeys(d: Device, e: Device) {
    d.canonicalKey != e.canonicalKey
  }

  lemma SeedIsFromMembers(members: seq<Observation>)
    requires members != []
    ensures SeedOf(members).StableSeed? ==> exists o :: o in members && Carries(o, SeedOf(members).key)
    ensures SeedOf(members).ObservationSeed? ==> SeedOf(members).id == members[0].id
  {
    if SeedOf(members).StableSeed? {
      var key := SeedOf(members).key;
      assert key in StableKeys(members);
      var o, e :| o in members && e in AllIdentifiers(o) && Stable(e) && e.key == key;
      CarriedIsEvidence(o, key);
    }
  }

  lemma DifferentRootsDifferentSeeds(ordered: seq<Observation>, r: Id, s: Id)
    requires r != s
    requires Members(ordered, DecideAll(ordered).labels, r) != []
    requires Members(ordered, DecideAll(ordered).labels, s) != []
    ensures SeedOf(Members(ordered, DecideAll(ordered).labels, r))
         != SeedOf(Members(ordered, DecideAll(ordered).labels, s))
  {
    var labels := DecideAll(ordered).labels;
    var m, n := Members(ordered, labels, r), Members(ordered, labels, s);
    MembersExactly(ordered, labels, r);
    MembersExactly(ordered, labels, s);
    SeedIsFromMembers(m);
    SeedIsFromMembers(n);
    hide SeedOf, Members, DecideAll, Carries, Shares;
    assert m[0] in m && n[0] in n;
    if SeedOf(m).StableSeed? && SeedOf(m) == SeedOf(n) {
      var o :| o in m && Carries(o, SeedOf(m).key);
      var p :| p in n && Carries(p, SeedOf(m).key);
      SharersHaveOneLabel(ordered, o, p, SeedOf(m).key);
    }
  }

  lemma SharersHaveOneLabel(ordered: seq<Observation>, o: Observation, p: Observation, key: nat)
    requires o in ordered && p in ordered && Carries(o, key) && Carries(p, key)
    ensures LabelOf(DecideAll(ordered).labels, o.id) == LabelOf(DecideAll(ordered).labels, p.id)
  {
    RootsAreComponents(ordered);
    hide DecideAll, Carries;
    assert Shares(o, p);
    assert o.id in IdSet(ordered) && p.id in IdSet(ordered);
    assert Link(o.id, p.id) in SharedLinks(ordered);
    ConnectedByLink(SharedLinks(ordered), o.id, p.id);
  }

  lemma UnsortedSeedsDiffer(ordered: seq<Observation>, digest: Seed -> int)
    requires Injective(digest)
    ensures Pairwise(DifferentKeys, Unsorted(ordered, digest))
  {
    var devices, labels := Unsorted(ordered, digest), DecideAll(ordered).labels;
    FirstSeenDistinct(ordered, labels);
    hide Unsorted, FirstSeen, Members, DecideAll, SeedOf;
    forall i, j | 0 <= i < j < |devices|
      ensures DifferentKeys(devices[i], devices[j]) && DifferentKeys(devices[j], devices[i])
    {
      var r := RootOfDevice(ordered, digest, i);
      var s := RootOfDevice(ordered, digest, j);
      RootHasMembers(ordered, labels, i);
      RootHasMembers(ordered, labels, j);
      DifferentRootsDifferentSeeds(ordered, r, s);
      KeyIsDigest(Members(ordered, labels, r), DecideAll(ordered).decisions, digest);
      KeyIsDigest(Members(ordered, labels, s), DecideAll(ordered).decisions, digest);
    }
  }

  lemma KeyIsDigest(members: seq<Observation>, decisions: seq<Decision>, digest: Seed -> int)
    ensures DeviceOf(members, decisions, digest).canonicalKey == digest(SeedOf(members))
  {
  }

  lemma RootHasMembers(ordered: seq<Observation>, labels: Labelling, i: nat)
    requires i < |FirstSeen(ordered, labels)|
    ensures Members(ordered, labels, FirstSeen(ordered, labels)[i]) != []
  {
    var root := FirstSeen(ordered, labels)[i];
    FirstSeenExactly(ordered, labels);
    MembersExactly(ordered, labels, root);
    hide FirstSeen, Members;
    assert root in LabelSet(ordered, labels);
    var o :| o in ordered && LabelOf(labels, o.id) == root;
    assert o in Members(ordered, labels, root);
  }

  /** Distinct devices have distinct canonical keys, as long as the digest does not collide. */
  lemma CanonicalKeysAreDistinct(observations: seq<Observation>, digest: Seed -> int)
    requires Correlate(observations, digest).Correlated? && Injective(digest)
    ensures Pairwise(DifferentKeys, Correlate(observations, digest).devices)
  {
    ResultDevices(observations, digest);
    hide Correlate, Unsorted, InIdOrder;
    UnsortedSeedsDiffer(InIdOrder(observations), digest);
    SortPairwise(DifferentKeys, DeviceBefore, Unsorted(InIdOrder(observations), digest));
  }

  // ----- conservation of evidence

  /** How often an item occurs in one part of all holders together. */
  ghost function Total<S, T>(part: S -> seq<T>, holders: seq<S>, x: T): nat {
    if holders == [] then 0 else
      Total(part, holders[..|holders| - 1], x) + multiset(part(holders[|holders| - 1]))[x]
  }

  lemma {:induction false} TotalCons<S, T>(part: S -> seq<T>, d: S, s: seq<S>, x: T)
    ensures Total(part, [d] + s, x) == multiset(part(d))[x] + Total(part, s, x)
  {
    if s == [] {
      assert [d] + s == [d];
      assert [d][..0] == [];
    } else {
      var n := |s| - 1;
      assert ([d] + s)[..n + 1] == [d] + s[..n];
      TotalCons(part, d, s[..n], x);
    }
  }

  lemma {:induction false} TotalInsert<S, T>(part: S -> seq<T>, before: (S, S) -> bool, d: S, s: seq<S>, x: T)
    ensures Total(part, Insert(before, d, s), x) == multiset(part(d))[x] + Total(part, s, x)
  {
    if s == [] || before(d, s[0]) {
      TotalCons(part, d, s, x);
    } else {
      TotalInsert(part, before, d, s[1..], x);
      TotalCons(part, s[0], Insert(before, d, s[1..]), x);
      TotalCons(part, s[0], s[1..], x);
      assert s == [s[0]] + s[1..];
    }
  }

  lemma {:induction false} TotalSort<S, T>(part: S -> seq<T>, before: (S, S) -> bool, s: seq<S>, x: T)
    ensures Total(part, SortBy(before, s), x) == Total(part, s, x)
  {
    if s != [] {
      var n := |s| - 1;
      TotalSort(part, before, s[..n], x);
      TotalInsert(part, before, s[n], SortBy(before, s[..n]), x);
    }
  }

  /** How often an item occurs in one part of the members of the listed groups. */
  ghost function GroupTotal<T>(
    part: Observation -> seq<T>, roots: seq<Id>, ordered: seq<Observation>, labels: Labelling, x: T): nat
  {
    if roots == [] then 0 else
      GroupTotal(part, roots[..|roots| - 1], ordered, labels, x)
      + multiset(Gather(part, Members(ordered, labels, roots[|roots| - 1])))[x]
  }

  ghost predicate Different(roots: seq<Id>) {
    forall i, j :: 0 <= i < j < |roots| ==> roots[i] != roots[j]
  }

  lemma {:induction false} GroupTotalStep<T>(
    part: Observation -> seq<T>, roots: seq<Id>, prefix: seq<Observation>, o: Observation, labels: Labelling, x: T)
    requires Different(roots)
    ensures GroupTotal(part, roots, prefix + [o], labels, x)
         == GroupTotal(part, roots, prefix, labels, x)
            + if LabelOf(labels, o.id) in roots then multiset(part(o))[x] else 0
  {
    if roots != [] {
      var n := |roots| - 1;
      assert roots == roots[..n] + [roots[n]];
      hide LabelOf;
      GroupTotalStep(part, roots[..n], prefix, o, labels, x);
      GatherStep(part, prefix, o, labels, roots[n], x);
      hide Members, Gather;
    }
  }

  lemma GatherStep<T>(
    part: Observation -> seq<T>, prefix: seq<Observation>, o: Observation, labels: Labelling, r: Id, x: T)
    ensures multiset(Gather(part, Members(prefix + [o], labels, r)))[x]
         == multiset(Gather(part, Members(prefix, labels, r)))[x]
            + if LabelOf(labels, o.id) == r then multiset(part(o))[x] else 0
  {
    var m := Members(prefix, labels, r);
    assert (prefix + [o])[..|prefix|] == prefix;
    hide LabelOf;
    if LabelOf(labels, o.id) == r {
      assert Members(prefix + [o], labels, r) == m + [o];
      assert (m + [o])[..|m|] == m;
      assert Gather(part, m + [o]) == Gather(part, m) + part(o);
    } else {
      assert Members(prefix + [o], labels, r) == m;
    }
  }

  /** Grouping distributes every observation's part over the groups, exactly once. */
  lemma {:induction false} GroupingConserves<T>(
    part: Observation -> seq<T>, roots: seq<Id>, ordered: seq<Observation>, labels: Labelling, x: T)
    requires Different(roots)
    requires forall i :: 0 <= i < |ordered| ==> LabelOf(labels, ordered[i].id) in roots
    ensures GroupTotal(part, roots, ordered, labels, x) == multiset(Gather(part, ordered))[x]
  {
    hide LabelOf, Members;
    if ordered == [] {
      EmptyGroups(part, roots, labels, x);
    } else {
      var n := |ordered| - 1;
      assert ordered == ordered[..n] + [ordered[n]];
      GroupingConserves(part, roots, ordered[..n], labels, x);
      GroupTotalStep(part, roots, ordered[..n], ordered[n], labels, x);
      assert Gather(part, ordered) == Gather(part, ordered[..n]) + part(ordered[n]);
    }
  }

  lemma {:induction false} EmptyGroups<T>(
    part: Observation -> seq<T>, roots: seq<Id>, labels: Labelling, x: T)
    ensures GroupTotal(part, roots, [], labels, x) == 0
  {
    if roots != [] {
      EmptyGroups(part, roots[..|roots| - 1], labels, x);
    }
  }

  lemma {:induction false} GatherTotals<T>(part: Observation -> seq<T>, members: seq<Observation>, x: T)
    ensures multiset(Gather(part, members))[x] == Total(part, members, x)
  {
    if members != [] {
      GatherTotals(part, members[..|members| - 1], x);
    }
  }

  function IdentifiersOf(d: Device): seq<Identity> { d.identifiers }

  function DeviceInterfaces(d: Device): seq<Interface> { d.interfaces }

  function DeviceFacts(d: Device): seq<Fact> { d.facts }

  /** A device part that is a rearrangement of what is gathered from its members. */
  ghost predicate Rearranges<T(!new)>(part: Device -> seq<T>, from: Observation -> seq<T>, digest: Seed -> int) {
    forall m: seq<Observation>, ds: seq<Decision>, x: T ::
      multiset(part(DeviceOf(m, ds, digest)))[x] == multiset(Gather(from, m))[x]
  }

  lemma {:induction false} DevicesTotal<T(!new)>(
    part: Device -> seq<T>, from: Observation -> seq<T>,
    roots: seq<Id>, ordered: seq<Observation>, decided: Decided, digest: Seed -> int, x: T)
    requires Rearranges(part, from, digest)
    ensures Total(part, Devices(roots, ordered, decided, digest), x)
         == GroupTotal(from, roots, ordered, decided.labels, x)
  {
    hide DeviceOf, Members, Gather;
    if roots != [] {
      DevicesTotal(part, from, roots[..|roots| - 1], ordered, decided, digest, x);
    }
  }

  lemma DevicePartsRearrange(digest: Seed -> int)
    ensures Rearranges(IdentifiersOf, AllIdentifiers, digest)
    ensures Rearranges(DeviceInterfaces, InterfacesOf, digest)
    ensures Rearranges(DeviceFacts, FactsOf, digest)
  {
    hide Gather, Ids, Matching, SeedOf, DeviceConfidence;
    forall m: seq<Observation>, ds: seq<Decision>
      ensures multiset(DeviceOf(m, ds, digest).identifiers) == multiset(Gather(AllIdentifiers, m))
      ensures multiset(DeviceOf(m, ds, digest).interfaces) == multiset(Gather(InterfacesOf, m))
      ensures multiset(DeviceOf(m, ds, digest).facts) == multiset(Gather(FactsOf, m))
    {
      SortKeeps(IdentityBefore, Gather(AllIdentifiers, m));
      SortKeeps(InterfaceBefore, Gather(InterfacesOf, m));
      SortKeeps(FactBefore, Gather(FactsOf, m));
    }
  }

  lemma PartIsConserved<T(!new)>(
    part: Device -> seq<T>, from: Observation -> seq<T>, observations: seq<Observation>, digest: Seed -> int, x: T)
    requires Correlate(observations, digest).Correlated? && Rearranges(part, from, digest)
    ensures Total(part, Correlate(observations, digest).devices, x) == Total(from, observations, x)
  {
    hide DeviceOf, Members, Gather;
    ResultDevices(observations, digest);
    var ordered := InIdOrder(observations);
    var decided := DecideAll(ordered);
    var roots := FirstSeen(ordered, decided.labels);
    TotalSort(part, DeviceBefore, Unsorted(ordered, digest), x);
    DevicesTotal(part, from, roots, ordered, decided, digest, x);
    TotalSort(from, ObservationBefore, observations, x);
    GatherTotals(from, ordered, x);
    hide Correlate, DecideAll, Devices;
    FirstSeenExactly(ordered, decided.labels);
    FirstSeenDistinct(ordered, decided.labels);
    hide FirstSeen, InIdOrder;
    forall i | 0 <= i < |ordered| ensures LabelOf(decided.labels, ordered[i].id) in roots {
      assert LabelOf(decided.labels, ordered[i].id) in LabelSet(ordered, decided.labels);
    }
    GroupingConserves(from, roots, ordered, decided.labels, x);
  }

  /** No identifier, interface or fact is lost, duplicated or invented: each occurs in the devices
      together exactly as often as in the observations together. */
  lemma EvidenceIsConserved(
    observations: seq<Observation>, digest: Seed -> int, e: Identity, i: Interface, f: Fact)
    requires Correlate(observations, digest).Correlated?
    ensures Total(IdentifiersOf, Correlate(observations, digest).devices, e) == Total(AllIdentifiers, observations, e)
    ensures Total(DeviceInterfaces, Correlate(observations, digest).devices, i) == Total(InterfacesOf, observations, i)
    ensures Total(DeviceFacts, Correlate(observations, digest).devices, f) == Total(FactsOf, observations, f)
  {
    hide Correlate;
    DevicePartsRearrange(digest);
    hide Rearranges;
    PartIsConserved(IdentifiersOf, AllIdentifiers, observations, digest, e);
    PartIsConserved(DeviceInterfaces, InterfacesOf, observations, digest, i);
    PartIsConserved(DeviceFacts, FactsOf, observations, digest, f);
  }

  /** The evidence of an observation is in the device that lists the observation. */
  lemma EvidenceFollowsItsObservation(
    observations: seq<Observation>, digest: Seed -> int, o: Observation, d: Device)
    requires Correlate(observations, digest).Correlated?
    requires o in observations && d in Correlate(observations, digest).devices && o.id in d.observationIds
    ensures forall e :: e in AllIdentifiers(o) ==> e in d.identifiers
    ensures forall f :: f in o.facts ==> f in d.facts
    ensures forall i :: i in o.interfaces ==> i in d.interfaces
  {
    hide AllIdentifiers, Unsorted, DecideAll, Correlate;
    var ordered := InIdOrder(observations);
    var labels := DecideAll(ordered).labels;
    ResultDevices(observations, digest);
    SortKeeps(ObservationBefore, observations);
    assert o in ordered;
    hide InIdOrder;
    var i :| 0 <= i < |Unsorted(ordered, digest)| && Unsorted(ordered, digest)[i] == d;
    var root := RootOfDevice(ordered, digest, i);
    MembersExactly(ordered, labels, root);
    var members := Members(ordered, labels, root);
    hide Members, LabelOf;
    assert o in members;
    SortKeeps(IdentityBefore, Gather(AllIdentifiers, members));
    SortKeeps(InterfaceBefore, Gather(InterfacesOf, members));
    SortKeeps(FactBefore, Gather(FactsOf, members));
    Gathered(AllIdentifiers, members, o);
    Gathered(InterfacesOf, members, o);
    Gathered(FactsOf, members, o);
    hide Gather, Ids, Matching, SeedOf, DeviceConfidence;
  }

  lemma {:induction false} Gathered<T>(part: Observation -> seq<T>, members: seq<Observation>, o: Observation)
    requires o in members
    ensures forall x :: x in part(o) ==> x in Gather(part, members)
  {
    var n := |members| - 1;
    if o != members[n] {
      Gathered(part, members[..n], o);
    }
  }
}
