/** What a device of `correlate` is, apart from its members: its canonical key, its confidence when no merge
    decided it, and the order in which everything is listed. */
module CorrelationDevices {
  import opened Options
  import opened UnionFind
  import opened Sorting
  import opened Correlation
  import opened CorrelationTheorems
  import opened CorrelationResults
  import opened CorrelationGuarantees

  /** Ids in ascending order. */
  ghost predicate Ascends(members: seq<Observation>) {
    forall i, j :: 0 <= i < j < |members| ==> members[i].id <= members[j].id
  }

  lemma {:induction false} MembersAscend(ordered: seq<Observation>, labels: Labelling, root: Id)
    requires Ascends(ordered)
    ensures Ascends(Members(ordered, labels, root))
  {
    hide LabelOf;
    if ordered != [] {
      var n := |ordered| - 1;
      var before := Members(ordered[..n], labels, root);
      MembersAscend(ordered[..n], labels, root);
      forall i | 0 <= i < |before| ensures before[i].id <= ordered[n].id {
        MembersExactly(ordered[..n], labels, root);
        assert before[i] in before;
        var j :| 0 <= j < n && ordered[..n][j] == before[i];
        assert ordered[j] == before[i];
      }
    }
  }

  lemma OrderedAscends(observations: seq<Observation>)
    ensures Ascends(InIdOrder(observations))
  {
    SortBySorts(IdOf, ObservationBefore, observations);
    forall i, j | 0 <= i < j < |InIdOrder(observations)|
      ensures InIdOrder(observations)[i].id <= InIdOrder(observations)[j].id
    {
      assert IdOf(InIdOrder(observations)[i]) <= IdOf(InIdOrder(observations)[j]);
    }
  }

  /** The observations a device was made of, in the order of their ids, and what was made of them. */
  lemma MadeOf(observations: seq<Observation>, digest: Seed -> int, d: Device)
    returns (members: seq<Observation>, matching: seq<Decision>)
    requires Correlate(observations, digest).Correlated? && d in Correlate(observations, digest).devices
    ensures members != [] && Ascends(members) && d.observationIds == Ids(members)
    ensures forall o :: o in members <==> o in observations && o.id in d.observationIds
    ensures d.canonicalKey == digest(SeedOf(members)) && d.confidence == DeviceConfidence(matching, d.identifiers)
    ensures forall m :: m in matching <==> m in Correlate(observations, digest).decisions && Inside(m, d)
  {
    hide Unsorted, DecideAll, Correlate, InIdOrder;
    var ordered := InIdOrder(observations);
    var decided := DecideAll(ordered);
    ResultDevices(observations, digest);
    SortedDecisions(observations, digest);
    OrderedKeeps(observations);
    OrderedAscends(observations);
    var i :| 0 <= i < |Unsorted(ordered, digest)| && Unsorted(ordered, digest)[i] == d;
    var root := RootOfDevice(ordered, digest, i);
    members := Members(ordered, decided.labels, root);
    MembersExactly(ordered, decided.labels, root);
    MembersAscend(ordered, decided.labels, root);
    RootHasMembers(ordered, decided.labels, i);
    matching := Matching(decided.decisions, IdSet(members));
    MatchingExactly(decided.decisions, IdSet(members));
    DeviceIdSet(members, decided.decisions, digest);
    Described(members, decided.decisions, digest);
    hide Members, LabelOf, FirstSeen, Matching, DeviceOf, SeedOf, DeviceConfidence;
    forall o ensures o in members <==> o in observations && o.id in d.observationIds {
      if o in members {
        assert o.id in IdSet(members);
      }
      if o in observations && o.id in d.observationIds {
        assert o in ordered;
      }
    }
  }

  lemma Described(members: seq<Observation>, decisions: seq<Decision>, digest: Seed -> int)
    ensures var d := DeviceOf(members, decisions, digest);
            && d.observationIds == Ids(members) && d.canonicalKey == digest(SeedOf(members))
            && d.confidence == DeviceConfidence(Matching(decisions, IdSet(members)), d.identifiers)
  {
    hide SortBy, Gather, Ids, SeedOf, Matching, DeviceConfidence;
  }

  // ----- the canonical key

  /** An observation of the device carries the key. */
  ghost predicate CarriedIn(observations: seq<Observation>, d: Device, key: nat) {
    exists o :: o in observations && o.id in d.observationIds && Carries(o, key)
  }

  ghost predicate IsLeastCarried(observations: seq<Observation>, d: Device, key: nat) {
    CarriedIn(observations, d, key) && forall other :: CarriedIn(observations, d, other) ==> key <= other
  }

  lemma StableKeysAreCarried(members: seq<Observation>, key: nat)
    ensures key in StableKeys(members) <==> exists o :: o in members && Carries(o, key)
  {
    hide AllIdentifiers, Carries;
    if key in StableKeys(members) {
      var o, e :| o in members && e in AllIdentifiers(o) && Stable(e) && e.key == key;
      CarriedIsEvidence(o, key);
    }
    if o :| o in members && Carries(o, key) {
      CarriedIsEvidence(o, key);
    }
  }

  /** The canonical key of a device is the digest of the least key that one of its observations carries, or, if
      none carries any, of its smallest observation id. */
  lemma CanonicalKeyIsOfLeast(observations: seq<Observation>, digest: Seed -> int, d: Device)
    requires Correlate(observations, digest).Correlated? && d in Correlate(observations, digest).devices
    ensures (exists key :: CarriedIn(observations, d, key)) ==>
              exists key :: IsLeastCarried(observations, d, key) && d.canonicalKey == digest(StableSeed(key))
    ensures (forall key :: !CarriedIn(observations, d, key)) ==>
              exists x :: x in d.observationIds && (forall y :: y in d.observationIds ==> x <= y)
                          && d.canonicalKey == digest(ObservationSeed(x))
  {
    hide Correlate, Carries;
    var members, matching := MadeOf(observations, digest, d);
    forall key ensures CarriedIn(observations, d, key) <==> key in StableKeys(members) {
      StableKeysAreCarried(members, key);
    }
    if key :| CarriedIn(observations, d, key) {
      assert key in StableKeys(members);
      hide StableKeys, CarriedIn;
      LeastIsLeast(observations, d, StableKeys(members));
      assert SeedOf(members) == StableSeed(Least(StableKeys(members)));
    } else {
      assert StableKeys(members) == {};
      hide StableKeys, CarriedIn;
      assert d.observationIds[0] == members[0].id;
      forall y | y in d.observationIds ensures members[0].id <= y {
        var i :| 0 <= i < |members| && d.observationIds[i] == y;
      }
    }
  }

  lemma LeastIsLeast(observations: seq<Observation>, d: Device, keys: set<nat>)
    requires keys != {} && forall key :: CarriedIn(observations, d, key) <==> key in keys
    ensures IsLeastCarried(observations, d, Least(keys))
  {
    hide CarriedIn;
    assert IsLeast(Least(keys), keys);
  }

  // ----- the confidence of a device that no decision made

  predicate OfStableKind(e: Identity) { e.kind == Mac || e.kind == Serial || e.kind == SourceId }

  lemma {:induction false} BestIsBest(evidence: seq<Identity>)
    ensures var b := BestStable(evidence);
            && (b.None? ==> forall e :: e in evidence ==> !OfStableKind(e))
            && (b.Some? ==> exists e :: e in evidence && OfStableKind(e) && e.confidence == b.value)
            && (b.Some? ==> forall e :: e in evidence && OfStableKind(e) ==> e.confidence <= b.value)
  {
    if evidence != [] {
      BestIsBest(evidence[1..]);
      assert evidence == [evidence[0]] + evidence[1..];
      assert evidence[0] in evidence;
    }
  }

  lemma HasElement<T>(s: seq<T>)
    requires s != []
    ensures exists x :: x in s
  {
    assert s[0] in s;
  }

  /** A device without an inner decision has the best confidence of its identifiers of stable kinds, whatever
      their confidence, or one half if it has none. */
  lemma UndecidedConfidence(observations: seq<Observation>, digest: Seed -> int, d: Device)
    requires Correlate(observations, digest).Correlated? && d in Correlate(observations, digest).devices
    requires forall m :: m in Correlate(observations, digest).decisions ==> !Inside(m, d)
    ensures (exists e :: e in d.identifiers && OfStableKind(e)) ==>
              && (exists e :: e in d.identifiers && OfStableKind(e) && e.confidence == d.confidence)
              && forall e :: e in d.identifiers && OfStableKind(e) ==> e.confidence <= d.confidence
    ensures (forall e :: e in d.identifiers ==> !OfStableKind(e)) ==> d.confidence == 0.5
  {
    hide Correlate;
    var members, matching := MadeOf(observations, digest, d);
    if matching != [] {
      HasElement(matching);
    }
    BestIsBest(d.identifiers);
    hide BestStable;
  }

  // ----- the order of the lists

  lemma ComparisonsRank()
    ensures Ranks(DeviceBefore) && Ranks(DecisionBefore)
  {
  }

  lemma EvidenceRanks()
    ensures Ranks(IdentityBefore) && Ranks(InterfaceBefore) && Ranks(FactBefore)
  {
  }

  /** Devices are listed by canonical key and decisions by key and left id. */
  lemma ResultIsOrdered(observations: seq<Observation>, digest: Seed -> int)
    requires Correlate(observations, digest).Correlated?
    ensures Ordered(DeviceBefore, Correlate(observations, digest).devices)
    ensures Ordered(DecisionBefore, Correlate(observations, digest).decisions)
  {
    ResultDevices(observations, digest);
    hide Correlate, Unsorted, DecideAll, InIdOrder;
    ComparisonsRank();
    SortOrders(DeviceBefore, Unsorted(InIdOrder(observations), digest));
    SortOrders(DecisionBefore, DecideAll(InIdOrder(observations)).decisions);
  }

  lemma PartsAreOrdered(members: seq<Observation>, decisions: seq<Decision>, digest: Seed -> int)
    ensures var d := DeviceOf(members, decisions, digest);
            Ordered(IdentityBefore, d.identifiers) && Ordered(InterfaceBefore, d.interfaces) && Ordered(FactBefore, d.facts)
  {
    hide SortBy, Gather, IdentityBefore, InterfaceBefore, FactBefore, SeedOf, DeviceConfidence, Matching, Ranks, Ordered;
    EvidenceRanks();
    SortOrders(IdentityBefore, Gather(AllIdentifiers, members));
    SortOrders(InterfaceBefore, Gather(InterfacesOf, members));
    SortOrders(FactBefore, Gather(FactsOf, members));
  }

  /** A device lists its observations by id, and its evidence each in its own order. */
  lemma DeviceIsOrdered(observations: seq<Observation>, digest: Seed -> int, d: Device)
    requires Correlate(observations, digest).Correlated? && d in Correlate(observations, digest).devices
    ensures forall i, j :: 0 <= i < j < |d.observationIds| ==> d.observationIds[i] <= d.observationIds[j]
    ensures Ordered(IdentityBefore, d.identifiers) && Ordered(InterfaceBefore, d.interfaces) && Ordered(FactBefore, d.facts)
  {
    hide Unsorted, DecideAll, Correlate, InIdOrder, DeviceOf, Members, Ordered, SeedOf, DeviceConfidence;
    var members, matching := MadeOf(observations, digest, d);
    var ordered := InIdOrder(observations);
    ResultDevices(observations, digest);
    var i :| 0 <= i < |Unsorted(ordered, digest)| && Unsorted(ordered, digest)[i] == d;
    var root := RootOfDevice(ordered, digest, i);
    PartsAreOrdered(Members(ordered, DecideAll(ordered).labels, root), DecideAll(ordered).decisions, digest);
  }

  // ----- which repeated id is named

  function IdAlone(o: Observation): seq<Id> { [o.id] }

  /** How many observations have an id. */
  ghost function Copies(s: seq<Observation>, x: Id): nat { Total(IdAlone, s, x) }

  lemma {:induction false} CopiesOfKnown(s: seq<Observation>, x: Id)
    ensures x in IdSet(s) <==> Copies(s, x) >= 1
  {
    if s != [] {
      CopiesOfKnown(s[..|s| - 1], x);
      assert s == s[..|s| - 1] + [s[|s| - 1]];
    }
  }

  lemma CopiesStep(s: seq<Observation>, y: Id)
    requires s != []
    ensures Copies(s, y) == Copies(s[..|s| - 1], y) + if s[|s| - 1].id == y then 1 else 0
  {
  }

  /** No id behind which a known one stands is smaller. */
  lemma LastIsGreatest(s: seq<Observation>, x: Id)
    requires Ascends(s) && s != [] && x in IdSet(s[..|s| - 1])
    ensures x <= s[|s| - 1].id
  {
    var n := |s| - 1;
    var o :| o in s[..n] && o.id == x;
    var i :| 0 <= i < n && s[..n][i] == o;
    assert s[i].id <= s[n].id;
  }

  lemma {:induction false} FirstDuplicateIsLeast(s: seq<Observation>)
    requires Ascends(s)
    ensures var d := FirstDuplicate(s);
            && (d.None? ==> forall y: Id :: Copies(s, y) <= 1)
            && (d.Some? ==> Copies(s, d.value) >= 2 && forall y: Id :: y < d.value ==> Copies(s, y) <= 1)
  {
    if s != [] {
      var n := |s| - 1;
      var d := FirstDuplicate(s[..n]);
      FirstDuplicateIsLeast(s[..n]);
      CopiesOfKnown(s[..n], s[n].id);
      hide Copies;
      if d.Some? {
        CopiesOfKnown(s[..n], d.value);
        LastIsGreatest(s, d.value);
      }
      hide IdSet, Ascends;
      forall y: Id ensures Copies(s, y) == Copies(s[..n], y) + if s[n].id == y then 1 else 0 {
        CopiesStep(s, y);
      }
    }
  }

  /** The id named in a refusal is the smallest of those that occur more than once. */
  lemma SmallestRepeatedIdIsNamed(observations: seq<Observation>, digest: Seed -> int)
    requires Correlate(observations, digest).DuplicateId?
    ensures var x := Correlate(observations, digest).id;
            Copies(observations, x) >= 2 && forall y: Id :: y < x ==> Copies(observations, y) <= 1
  {
    OrderedAscends(observations);
    FirstDuplicateIsLeast(InIdOrder(observations));
    hide DecideAll, FirstSeen, Devices, SortDecisions;
    forall y: Id ensures Copies(InIdOrder(observations), y) == Copies(observations, y) {
      TotalSort(IdAlone, ObservationBefore, observations, y);
    }
    hide Total;
  }
}
