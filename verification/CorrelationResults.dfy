/** The promises of `correlate`, stated of its result for every input. */
module CorrelationResults {
  import opened UnionFind
  import opened Sorting
  import opened Correlation
  import opened CorrelationTheorems

  ghost predicate SameDevice(r: Result, x: Id, y: Id)
    requires r.Correlated?
  {
    exists d :: d in r.devices && x in d.observationIds && y in d.observationIds
  }

  // ----- groups and devices

  lemma {:induction false} MembersExactly(ordered: seq<Observation>, labels: Labelling, root: Id)
    ensures forall o :: o in Members(ordered, labels, root) <==> o in ordered && LabelOf(labels, o.id) == root
  {
    if ordered != [] {
      var n := |ordered| - 1;
      MembersExactly(ordered[..n], labels, root);
      assert ordered == ordered[..n] + [ordered[n]];
    }
  }

  ghost function LabelSet(ordered: seq<Observation>, labels: Labelling): set<Id> {
    set o | o in ordered :: LabelOf(labels, o.id)
  }

  ghost predicate Enumerates(s: seq<Id>, t: set<Id>) {
    |s| == |t| && forall r :: r in s <==> r in t
  }

  lemma EnumeratesStep(s: seq<Id>, t: set<Id>, r: Id)
    requires Enumerates(s, t)
    ensures Enumerates(if r in s then s else s + [r], t + {r})
  {
    if r in s {
      assert t + {r} == t;
    }
  }

  lemma {:induction false} FirstSeenExactly(ordered: seq<Observation>, labels: Labelling)
    ensures Enumerates(FirstSeen(ordered, labels), LabelSet(ordered, labels))
  {
    if ordered != [] {
      var n := |ordered| - 1;
      hide LabelOf;
      FirstSeenExactly(ordered[..n], labels);
      LabelSetStep(ordered[..n], ordered[n], labels);
      assert ordered[..n] + [ordered[n]] == ordered;
      EnumeratesStep(FirstSeen(ordered[..n], labels), LabelSet(ordered[..n], labels), LabelOf(labels, ordered[n].id));
      hide LabelSet, Enumerates;
    }
  }

  lemma LabelSetStep(prefix: seq<Observation>, o: Observation, labels: Labelling)
    ensures LabelSet(prefix + [o], labels) == LabelSet(prefix, labels) + {LabelOf(labels, o.id)}
  {
    hide LabelOf;
  }

  lemma {:induction false} FirstSeenDistinct(ordered: seq<Observation>, labels: Labelling)
    ensures forall i, j :: 0 <= i < j < |FirstSeen(ordered, labels)|
              ==> FirstSeen(ordered, labels)[i] != FirstSeen(ordered, labels)[j]
  {
    if ordered != [] {
      var n := |ordered| - 1;
      FirstSeenDistinct(ordered[..n], labels);
      hide LabelOf;
      var o, before := ordered[n], FirstSeen(ordered[..n], labels);
      forall i | 0 <= i < |before| && LabelOf(labels, o.id) !in before ensures before[i] != LabelOf(labels, o.id) {
        assert before[i] in before;
      }
    }
  }

  lemma {:induction false} DeviceAt(
    roots: seq<Id>, ordered: seq<Observation>, decided: Decided, digest: Seed -> int, i: nat)
    requires i < |roots|
    ensures |Devices(roots, ordered, decided, digest)| == |roots|
    ensures Devices(roots, ordered, decided, digest)[i]
         == DeviceOf(Members(ordered, decided.labels, roots[i]), decided.decisions, digest)
  {
    hide DeviceOf, Members;
    var n := |roots| - 1;
    if n > 0 {
      DeviceAt(roots[..n], ordered, decided, digest, if i < n then i else 0);
    }
  }

  lemma {:induction false} DevicesCount(
    roots: seq<Id>, ordered: seq<Observation>, decided: Decided, digest: Seed -> int)
    ensures |Devices(roots, ordered, decided, digest)| == |roots|
  {
    hide DeviceOf, Members;
    if roots != [] {
      DevicesCount(roots[..|roots| - 1], ordered, decided, digest);
    }
  }

  lemma IdsAreMembers(members: seq<Observation>, x: Id)
    ensures x in Ids(members) <==> exists o :: o in members && o.id == x
  {
    if x in Ids(members) {
      var i :| 0 <= i < |Ids(members)| && Ids(members)[i] == x;
      assert members[i] in members;
    }
    if exists o :: o in members && o.id == x {
      var o :| o in members && o.id == x;
      var i :| 0 <= i < |members| && members[i] == o;
      assert Ids(members)[i] == x;
    }
  }

  /** The device at a root lists exactly the ids with that label. */
  lemma DeviceIds(ordered: seq<Observation>, decided: Decided, root: Id, digest: Seed -> int, x: Id)
    ensures x in DeviceOf(Members(ordered, decided.labels, root), decided.decisions, digest).observationIds
       <==> x in IdSet(ordered) && LabelOf(decided.labels, x) == root
  {
    var members := Members(ordered, decided.labels, root);
    MembersExactly(ordered, decided.labels, root);
    assert DeviceOf(members, decided.decisions, digest).observationIds == Ids(members);
    IdsAreMembers(members, x);
  }

  /** Before sorting, devices and roots correspond one to one. */
  ghost function Unsorted(ordered: seq<Observation>, digest: Seed -> int): seq<Device> {
    Devices(FirstSeen(ordered, DecideAll(ordered).labels), ordered, DecideAll(ordered), digest)
  }

  lemma RootOfDevice(ordered: seq<Observation>, digest: Seed -> int, i: nat) returns (root: Id)
    requires i < |Unsorted(ordered, digest)|
    ensures i < |FirstSeen(ordered, DecideAll(ordered).labels)|
    ensures root == FirstSeen(ordered, DecideAll(ordered).labels)[i]
    ensures Unsorted(ordered, digest)[i]
         == DeviceOf(Members(ordered, DecideAll(ordered).labels, root), DecideAll(ordered).decisions, digest)
    ensures forall x :: (x in Unsorted(ordered, digest)[i].observationIds
              <==> x in IdSet(ordered) && LabelOf(DecideAll(ordered).labels, x) == root)
  {
    hide DecideAll, FirstSeen, DeviceOf, Members;
    var decided := DecideAll(ordered);
    var roots := FirstSeen(ordered, decided.labels);
    DevicesCount(roots, ordered, decided, digest);
    root := roots[i];
    DeviceAt(roots, ordered, decided, digest, i);
    forall x ensures x in Unsorted(ordered, digest)[i].observationIds
         <==> x in IdSet(ordered) && LabelOf(decided.labels, x) == root {
      DeviceIds(ordered, decided, root, digest, x);
    }
  }

  lemma SameDeviceIsSameLabel(observations: seq<Observation>, digest: Seed -> int, x: Id, y: Id)
    requires Correlate(observations, digest).Correlated?
    requires x in IdSet(InIdOrder(observations)) && y in IdSet(InIdOrder(observations))
    ensures SameDevice(Correlate(observations, digest), x, y)
       <==> DecideAll(InIdOrder(observations)).labels[x] == DecideAll(InIdOrder(observations)).labels[y]
  {
    hide DecideAll, Correlate, InIdOrder, IdSet, Unsorted;
    var ordered := InIdOrder(observations);
    var labels, devices := DecideAll(ordered).labels, Unsorted(ordered, digest);
    ResultDevices(observations, digest);
    if SameDevice(Correlate(observations, digest), x, y) {
      var d :| d in devices && x in d.observationIds && y in d.observationIds;
      var i :| 0 <= i < |devices| && devices[i] == d;
      var root := RootOfDevice(ordered, digest, i);
    }
    if labels[x] == labels[y] {
      var i := DeviceOfId(ordered, digest, x);
      var root := RootOfDevice(ordered, digest, i);
      assert devices[i] in devices;
    }
  }

  lemma DeviceOfId(ordered: seq<Observation>, digest: Seed -> int, x: Id) returns (i: nat)
    requires x in IdSet(ordered)
    ensures i < |Unsorted(ordered, digest)| && x in Unsorted(ordered, digest)[i].observationIds
  {
    hide DecideAll, DeviceOf, Members;
    var labels := DecideAll(ordered).labels;
    FirstSeenExactly(ordered, labels);
    DevicesCount(FirstSeen(ordered, labels), ordered, DecideAll(ordered), digest);
    assert LabelOf(labels, x) in LabelSet(ordered, labels);
    hide Devices, FirstSeen, LabelSet, LabelOf;
    i :| 0 <= i < |FirstSeen(ordered, labels)| && FirstSeen(ordered, labels)[i] == LabelOf(labels, x);
    var root := RootOfDevice(ordered, digest, i);
  }

  lemma ResultDevices(observations: seq<Observation>, digest: Seed -> int)
    requires Correlate(observations, digest).Correlated?
    ensures Correlate(observations, digest).devices == SortBy(DeviceBefore, Unsorted(InIdOrder(observations), digest))
    ensures |Correlate(observations, digest).devices| == |Unsorted(InIdOrder(observations), digest)|
    ensures forall d :: d in Correlate(observations, digest).devices <==> d in Unsorted(InIdOrder(observations), digest)
    ensures Correlate(observations, digest).decisions
         == SortDecisions(DecideAll(InIdOrder(observations)).decisions)
  {
    hide DecideAll, FirstSeen, Devices, InIdOrder, FirstDuplicate, SortDecisions;
    SortKeeps(DeviceBefore, Unsorted(InIdOrder(observations), digest));
  }

  lemma OrderedKeeps(observations: seq<Observation>)
    ensures forall o :: o in InIdOrder(observations) <==> o in observations
    ensures |InIdOrder(observations)| == |observations|
    ensures multiset(InIdOrder(observations)) == multiset(observations)
    ensures IdSet(InIdOrder(observations)) == IdSet(observations)
    ensures SharedLinks(InIdOrder(observations)) == SharedLinks(observations)
  {
    hide Carries;
    SortKeeps(ObservationBefore, observations);
  }

  // ----- the theorems

  /** Two observations are placed in one device exactly when a chain of stable identifiers of
      confidence at least 0.8, each carried by two neighbours of the chain, leads from one to the other. */
  lemma DevicesAreComponents(observations: seq<Observation>, digest: Seed -> int, o: Observation, p: Observation)
    requires Correlate(observations, digest).Correlated? && o in observations && p in observations
    ensures SameDevice(Correlate(observations, digest), o.id, p.id)
       <==> Connected(SharedLinks(observations), o.id, p.id)
  {
    OrderedKeeps(observations);
    var ordered := InIdOrder(observations);
    RootsAreComponents(ordered);
    hide DecideAll, InIdOrder, SharedLinks, Correlate;
    assert o.id in IdSet(ordered) && p.id in IdSet(ordered);
    SameDeviceIsSameLabel(observations, digest, o.id, p.id);
  }

  /** Every observation is in some device. */
  lemma EveryObservationIsPlaced(observations: seq<Observation>, digest: Seed -> int, o: Observation)
    requires Correlate(observations, digest).Correlated? && o in observations
    ensures SameDevice(Correlate(observations, digest), o.id, o.id)
  {
    DevicesAreComponents(observations, digest, o, o);
    ConnectedReflexive(SharedLinks(observations), o.id);
  }

  lemma UnsortedAreDisjoint(ordered: seq<Observation>, digest: Seed -> int)
    ensures Pairwise(NoCommonId, Unsorted(ordered, digest))
  {
    var devices := Unsorted(ordered, digest);
    FirstSeenDistinct(ordered, DecideAll(ordered).labels);
    hide DecideAll, FirstSeen, Unsorted;
    forall i, j | 0 <= i < j < |devices|
      ensures NoCommonId(devices[i], devices[j]) && NoCommonId(devices[j], devices[i])
    {
      var r := RootOfDevice(ordered, digest, i);
      var s := RootOfDevice(ordered, digest, j);
    }
  }

  ghost predicate NoCommonId(d: Device, e: Device) {
    forall x :: !(x in d.observationIds && x in e.observationIds)
  }

  /** No observation is in two devices. */
  lemma DevicesAreDisjoint(observations: seq<Observation>, digest: Seed -> int)
    requires Correlate(observations, digest).Correlated?
    ensures Pairwise(NoCommonId, Correlate(observations, digest).devices)
  {
    ResultDevices(observations, digest);
    hide Correlate, Unsorted, InIdOrder;
    UnsortedAreDisjoint(InIdOrder(observations), digest);
    SortPairwise(NoCommonId, DeviceBefore, Unsorted(InIdOrder(observations), digest));
  }

  // ----- decisions

  lemma SortedDecisions(observations: seq<Observation>, digest: Seed -> int)
    requires Correlate(observations, digest).Correlated?
    ensures |Correlate(observations, digest).decisions| == |DecideAll(InIdOrder(observations)).decisions|
    ensures forall d :: d in Correlate(observations, digest).decisions
              <==> d in DecideAll(InIdOrder(observations)).decisions
    ensures DecisionLinks(Correlate(observations, digest).decisions)
         == DecisionLinks(DecideAll(InIdOrder(observations)).decisions)
  {
    ResultDevices(observations, digest);
    hide DecideAll, Correlate, InIdOrder;
    SortKeeps(DecisionBefore, DecideAll(InIdOrder(observations)).decisions);
  }

  /** A decision names two observations that both give its key with a confidence of at least 0.8; its own
      confidence is the lower of the two; and the left one has the smallest id of all that carry the key. */
  ghost predicate Explained(observations: seq<Observation>, d: Decision) {
    && (exists x: real, y: real {:trigger GivenBy(observations, d.left, d.key, x), GivenBy(observations, d.right, d.key, y)} ::
          && GivenBy(observations, d.left, d.key, x) && GivenBy(observations, d.right, d.key, y)
          && d.confidence <= x && d.confidence <= y && (d.confidence == x || d.confidence == y))
    && forall o :: o in observations && Carries(o, d.key) ==> d.left <= o.id
  }

  lemma {:induction false} DecisionsAreExplained(
    ordered: seq<Observation>, ids: set<Id>, candidates: seq<Candidate>, d: Decision)
    requires d in Decide(ids, candidates).decisions
    requires forall c :: c in candidates ==> Justified(ordered, c)
    ensures Explained(ordered, d)
  {
    hide Carries, Join, LabelOf;
    var n := |candidates| - 1;
    var before := Decide(ids, candidates[..n]);
    if d in before.decisions {
      DecisionsAreExplained(ordered, ids, candidates[..n], d);
    } else {
      var c := candidates[n];
      assert d == DecisionFor(c) && Justified(ordered, c);
      hide GivenBy;
      assert GivenBy(ordered, d.left, d.key, c.first.evidence.confidence);
      assert GivenBy(ordered, d.right, d.key, c.other.evidence.confidence);
    }
  }

  lemma EveryDecisionIsExplained(observations: seq<Observation>, digest: Seed -> int, d: Decision)
    requires Correlate(observations, digest).Correlated?
    requires d in Correlate(observations, digest).decisions
    ensures Explained(observations, d)
  {
    SortedDecisions(observations, digest);
    OrderedKeeps(observations);
    var ordered := InIdOrder(observations);
    hide Correlate, InIdOrder, Decide, Stars, Justified;
    var keys := Ascending(StableKeys(ordered));
    forall c | c in Stars(ordered, keys) ensures Justified(ordered, c) {
      CandidatesAreJustified(ordered, keys, c);
    }
    DecisionsAreExplained(ordered, IdSet(ordered), Stars(ordered, keys), d);
    hide Carries, Gives;
    SameGivers(ordered, observations, d);
  }

  lemma SameGivers(ordered: seq<Observation>, observations: seq<Observation>, d: Decision)
    requires (forall o :: o in ordered <==> o in observations) && Explained(ordered, d)
    ensures Explained(observations, d)
  {
    hide Gives, Carries;
    var x: real, y: real :| GivenBy(ordered, d.left, d.key, x) && GivenBy(ordered, d.right, d.key, y)
      && d.confidence <= x && d.confidence <= y && (d.confidence == x || d.confidence == y);
    assert GivenBy(observations, d.left, d.key, x) && GivenBy(observations, d.right, d.key, y);
  }

  lemma {:induction false} NoDuplicateCount(ordered: seq<Observation>)
    requires FirstDuplicate(ordered).None?
    ensures |IdSet(ordered)| == |ordered|
  {
    if ordered != [] {
      var n := |ordered| - 1;
      NoDuplicateCount(ordered[..n]);
      assert ordered == ordered[..n] + [ordered[n]];
      assert IdSet(ordered) == IdSet(ordered[..n]) + {ordered[n].id};
    }
  }

  lemma LabelsAreRoots(ordered: seq<Observation>, labels: Labelling, links: set<Link>)
    requires labels.Keys == IdSet(ordered) && Partitions(labels, links)
    ensures LabelSet(ordered, labels) == Roots(labels)
  {
    forall r | r in LabelSet(ordered, labels) ensures r in Roots(labels) {
      var o :| o in ordered && LabelOf(labels, o.id) == r;
      assert o.id in IdSet(ordered);
      assert Known(labels, o.id);
    }
    forall r | r in Roots(labels) ensures r in LabelSet(ordered, labels) {
      assert r in IdSet(ordered);
      var o :| o in ordered && o.id == r;
      assert LabelOf(labels, o.id) == r;
    }
  }

  /** The recorded decisions form a spanning forest of the devices: they connect exactly the
      observations of a common device, and there is one fewer per device than it has members. */
  lemma DecisionsAreSpanningForest(observations: seq<Observation>, digest: Seed -> int)
    requires Correlate(observations, digest).Correlated?
    ensures |Correlate(observations, digest).decisions| + |Correlate(observations, digest).devices|
         == |observations|
    ensures forall o, p :: o in observations && p in observations ==>
              (SameDevice(Correlate(observations, digest), o.id, p.id)
               <==> Connected(DecisionLinks(Correlate(observations, digest).decisions), o.id, p.id))
  {
    var ordered := InIdOrder(observations);
    var decided := DecideAll(ordered);
    OrderedKeeps(observations);
    SortedDecisions(observations, digest);
    ResultDevices(observations, digest);
    assert FirstDuplicate(ordered).None?;
    hide Correlate, InIdOrder, FirstDuplicate;
    StarsWithin(ordered, Ascending(StableKeys(ordered)));
    DecideIsConnectivity(IdSet(ordered), Candidates(ordered));
    NoDuplicateCount(ordered);
    LabelsAreRoots(ordered, decided.labels, DecisionLinks(decided.decisions));
    FirstSeenExactly(ordered, decided.labels);
    DevicesCount(FirstSeen(ordered, decided.labels), ordered, decided, digest);
    hide DecideAll, Unsorted, Roots, DecisionLinks, LabelSet, FirstSeen;
    forall o, p | o in observations && p in observations
      ensures SameDevice(Correlate(observations, digest), o.id, p.id)
         <==> Connected(DecisionLinks(Correlate(observations, digest).decisions), o.id, p.id)
    {
      assert o in ordered && p in ordered;
      assert o.id in IdSet(ordered) && p.id in IdSet(ordered);
      SameDeviceIsSameLabel(observations, digest, o.id, p.id);
    }
  }
}
