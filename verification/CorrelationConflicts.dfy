/** Conflict discovery (`_find_conflicts`, correlation.py): host names and addresses that several
    devices carry, and devices whose sources disagree. Conflicts are a set; the keys, devices and
    values each of them lists are sets too. */
module CorrelationConflicts {
  import opened UnionFind
  import opened Sorting
  import opened Correlation
  import opened CorrelationResults
  import opened CorrelationGuarantees

  datatype Conflict =
    | Reused(key: nat, devices: set<int>, observations: set<Id>)
    | ConflictingSerial(device: int, serials: set<nat>)
    | SourceDisagreement(device: int, field: nat, values: set<nat>)

  predicate Reusable(e: Identity) {
    e.kind == Hostname || e.kind == Ipv4
  }

  // ----- what is carried by which devices

  datatype Claimants = Claimants(devices: set<int>, observations: set<Id>)
  type Index = map<nat, Claimants>

  function IdsOf(d: Device): set<Id> {
    set x | x in d.observationIds
  }

  function ClaimOne(index: Index, d: Device, e: Identity): Index {
    if !Reusable(e) then index else
      var c := if e.key in index then index[e.key] else Claimants({}, {});
      index[e.key := Claimants(c.devices + {d.canonicalKey}, c.observations + IdsOf(d))]
  }

  function ClaimAll(index: Index, d: Device, evidence: seq<Identity>): Index {
    if evidence == [] then index else
      ClaimOne(ClaimAll(index, d, evidence[..|evidence| - 1]), d, evidence[|evidence| - 1])
  }

  function IndexOf(devices: seq<Device>): Index {
    if devices == [] then map[] else
      var d := devices[|devices| - 1];
      ClaimAll(IndexOf(devices[..|devices| - 1]), d, d.identifiers)
  }

  function SerialsOf(d: Device): set<nat> {
    set e | e in d.identifiers && e.kind == Serial :: e.key
  }

  function FieldsOf(d: Device): set<nat> {
    set f | f in d.facts :: f.field
  }

  function ValuesOf(d: Device, field: nat): set<nat> {
    set f | f in d.facts && f.field == field :: f.value
  }

  function SourcesOf(d: Device, field: nat): set<nat> {
    set f | f in d.facts && f.field == field :: f.source
  }

  predicate Disagrees(d: Device, field: nat) {
    |ValuesOf(d, field)| > 1 && |SourcesOf(d, field)| > 1
  }

  function DeviceConflicts(d: Device): set<Conflict> {
    (if |SerialsOf(d)| > 1 then {ConflictingSerial(d.canonicalKey, SerialsOf(d))} else {})
    + set field | field in FieldsOf(d) && Disagrees(d, field) :: SourceDisagreement(d.canonicalKey, field, ValuesOf(d, field))
  }

  function AllDeviceConflicts(devices: seq<Device>): set<Conflict> {
    if devices == [] then {} else
      AllDeviceConflicts(devices[..|devices| - 1]) + DeviceConflicts(devices[|devices| - 1])
  }

  function ReuseConflicts(index: Index): set<Conflict> {
    set k | k in index && |index[k].devices| > 1 :: Reused(k, index[k].devices, index[k].observations)
  }

  function Conflicts(devices: seq<Device>): set<Conflict> {
    ReuseConflicts(IndexOf(devices)) + AllDeviceConflicts(devices)
  }

  /** `_find_conflicts`, before sorting. */
  method FindConflicts(devices: seq<Device>) returns (conflicts: set<Conflict>)
    ensures conflicts == Conflicts(devices)
  {
    var index: Index := map[];
    assert devices[..0] == [];
    hide ClaimOne, DeviceConflicts;
    for i := 0 to |devices|
      invariant index == IndexOf(devices[..i])
    {
      assert devices[..i + 1][..i] == devices[..i];
      var d := devices[i];
      ghost var before := index;
      assert d.identifiers[..0] == [];
      for j := 0 to |d.identifiers|
        invariant index == ClaimAll(before, d, d.identifiers[..j])
      {
        assert d.identifiers[..j + 1][..j] == d.identifiers[..j];
        index := ClaimOne(index, d, d.identifiers[j]);
      }
      assert d.identifiers[..|d.identifiers|] == d.identifiers;
    }
    assert devices[..|devices|] == devices;
    conflicts := {};
    for i := 0 to |devices|
      invariant conflicts == AllDeviceConflicts(devices[..i])
    {
      assert devices[..i + 1][..i] == devices[..i];
      conflicts := conflicts + DeviceConflicts(devices[i]);
    }
    conflicts := ReuseConflicts(index) + conflicts;
  }

  // ----- the index is exact

  ghost predicate HasReusable(d: Device, key: nat) {
    exists e :: e in d.identifiers && Reusable(e) && e.key == key
  }

  function DevicesUnder(index: Index, key: nat): set<int> {
    if key in index then index[key].devices else {}
  }

  lemma {:induction false} ClaimAllAdds(index: Index, d: Device, evidence: seq<Identity>, key: nat)
    ensures DevicesUnder(ClaimAll(index, d, evidence), key)
         == DevicesUnder(index, key)
            + if exists e :: e in evidence && Reusable(e) && e.key == key then {d.canonicalKey} else {}
  {
    if evidence != [] {
      var n := |evidence| - 1;
      ClaimAllAdds(index, d, evidence[..n], key);
      assert evidence == evidence[..n] + [evidence[n]];
    }
  }

  lemma {:induction false} IndexIsExact(devices: seq<Device>, key: nat, x: int)
    ensures x in DevicesUnder(IndexOf(devices), key)
       <==> exists i :: 0 <= i < |devices| && HasReusable(devices[i], key) && devices[i].canonicalKey == x
  {
    if devices != [] {
      var n := |devices| - 1;
      IndexIsExact(devices[..n], key, x);
      ClaimAllAdds(IndexOf(devices[..n]), devices[n], devices[n].identifiers, key);
      hide ClaimAll, HasReusable;
      if x in DevicesUnder(IndexOf(devices[..n]), key) {
        var i :| 0 <= i < n && HasReusable(devices[..n][i], key) && devices[..n][i].canonicalKey == x;
        assert devices[i] == devices[..n][i];
      }
      if exists i :: 0 <= i < |devices| && HasReusable(devices[i], key) && devices[i].canonicalKey == x {
        var i :| 0 <= i < |devices| && HasReusable(devices[i], key) && devices[i].canonicalKey == x;
        assert i < n ==> devices[..n][i] == devices[i];
      }
      assert HasReusable(devices[n], key) <==> exists e :: e in devices[n].identifiers && Reusable(e) && e.key == key;
    }
  }

  lemma TwoElements<T>(s: set<T>)
    ensures |s| > 1 <==> exists x, y :: x in s && y in s && x != y
  {
    if |s| > 1 {
      var x :| x in s;
      assert |s - {x}| >= 1;
      var y :| y in s - {x};
    }
    if exists x, y :: x in s && y in s && x != y {
      var x, y :| x in s && y in s && x != y;
      assert {x, y} <= s;
      assert |s - {x, y}| == |s| - |{x, y}|;
    }
  }

  lemma PickTwo(s: set<int>) returns (x: int, y: int)
    requires |s| > 1
    ensures x in s && y in s && x != y
  {
    x := AnElement(s);
    assert |s - {x}| >= 1;
    y := AnElement(s - {x});
  }

  lemma AnElement<T>(s: set<T>) returns (x: T)
    requires |s| > 0
    ensures x in s
  {
    x :| x in s;
  }

  // ----- against the observations

  lemma {:induction false} GatheredFrom<T>(part: Observation -> seq<T>, members: seq<Observation>, x: T)
    requires x in Gather(part, members)
    ensures exists o :: o in members && x in part(o)
  {
    var n := |members| - 1;
    if x in part(members[n]) {
      assert members[n] in members;
    } else {
      GatheredFrom(part, members[..n], x);
    }
  }

  /** The observations a device was made of. */
  lemma DeviceMembers(observations: seq<Observation>, digest: Seed -> int, d: Device)
    returns (members: seq<Observation>)
    requires Correlate(observations, digest).Correlated? && d in Correlate(observations, digest).devices
    ensures d.identifiers == SortBy(IdentityBefore, Gather(AllIdentifiers, members))
    ensures d.facts == SortBy(FactBefore, Gather(FactsOf, members))
    ensures forall o :: o in members ==> o in observations && o.id in d.observationIds
  {
    hide AllIdentifiers, Unsorted, DecideAll, Correlate;
    var ordered := InIdOrder(observations);
    var labels := DecideAll(ordered).labels;
    ResultDevices(observations, digest);
    SortKeeps(ObservationBefore, observations);
    var i :| 0 <= i < |Unsorted(ordered, digest)| && Unsorted(ordered, digest)[i] == d;
    var root := RootOfDevice(ordered, digest, i);
    MembersExactly(ordered, labels, root);
    members := Members(ordered, labels, root);
    hide Members, LabelOf, InIdOrder;
    DeviceLists(members, DecideAll(ordered).decisions, digest);
    forall o | o in members ensures o in observations && o.id in d.observationIds {
      IdsAreMembers(members, o.id);
    }
  }

  lemma DeviceLists(members: seq<Observation>, decisions: seq<Decision>, digest: Seed -> int)
    ensures DeviceOf(members, decisions, digest).identifiers == SortBy(IdentityBefore, Gather(AllIdentifiers, members))
    ensures DeviceOf(members, decisions, digest).facts == SortBy(FactBefore, Gather(FactsOf, members))
    ensures DeviceOf(members, decisions, digest).observationIds == Ids(members)
  {
    hide SortBy, Gather, Ids, SeedOf, Matching, DeviceConfidence;
  }

  /** Whatever identifier a device lists comes from an observation that it lists. */
  lemma EvidenceHasAnObserver(observations: seq<Observation>, digest: Seed -> int, d: Device, e: Identity)
    returns (o: Observation)
    requires Correlate(observations, digest).Correlated? && d in Correlate(observations, digest).devices
    requires e in d.identifiers
    ensures o in observations && o.id in d.observationIds && e in AllIdentifiers(o)
  {
    hide AllIdentifiers, Correlate;
    var members := DeviceMembers(observations, digest, d);
    SortKeeps(IdentityBefore, Gather(AllIdentifiers, members));
    GatheredFrom(AllIdentifiers, members, e);
    o :| o in members && e in AllIdentifiers(o);
  }

  /** So does a fact. */
  lemma FactHasAnObserver(observations: seq<Observation>, digest: Seed -> int, d: Device, f: Fact)
    returns (o: Observation)
    requires Correlate(observations, digest).Correlated? && d in Correlate(observations, digest).devices
    requires f in d.facts
    ensures o in observations && o.id in d.observationIds && f in o.facts
  {
    hide Correlate;
    var members := DeviceMembers(observations, digest, d);
    SortKeeps(FactBefore, Gather(FactsOf, members));
    GatheredFrom(FactsOf, members, f);
    o :| o in members && f in FactsOf(o);
  }

  ghost predicate ObservesReusable(o: Observation, key: nat) {
    exists e :: e in AllIdentifiers(o) && Reusable(e) && e.key == key
  }

  ghost predicate IsReused(devices: seq<Device>, key: nat) {
    exists c :: c in Conflicts(devices) && c.Reused? && c.key == key
  }

  lemma ReusedMeansTwoDevices(devices: seq<Device>, key: nat)
    ensures IsReused(devices, key) <==> |DevicesUnder(IndexOf(devices), key)| > 1
  {
    hide IndexOf, DeviceConflicts;
    NoReuseWithin(devices);
    var index := IndexOf(devices);
    if |DevicesUnder(index, key)| > 1 {
      assert Reused(key, index[key].devices, index[key].observations) in Conflicts(devices);
    }
  }

  lemma {:induction false} NoReuseWithin(devices: seq<Device>)
    ensures forall c :: c in AllDeviceConflicts(devices) ==> !c.Reused?
  {
    if devices != [] {
      NoReuseWithin(devices[..|devices| - 1]);
    }
  }

  ghost predicate ObservedApart(r: Result, observations: seq<Observation>, key: nat)
    requires r.Correlated?
  {
    exists o, p :: Apart(r, observations, key, o, p)
  }

  ghost predicate Apart(r: Result, observations: seq<Observation>, key: nat, o: Observation, p: Observation)
    requires r.Correlated?
  {
    && o in observations && p in observations && ObservesReusable(o, key) && ObservesReusable(p, key)
    && !SameDevice(r, o.id, p.id)
  }

  /** A host name or address is reported as reused exactly when two observations that were not put
      into one device carry it. */
  lemma ReuseIsExact(observations: seq<Observation>, digest: Seed -> int, key: nat)
    requires Correlate(observations, digest).Correlated? && Injective(digest)
    ensures IsReused(Correlate(observations, digest).devices, key)
       <==> ObservedApart(Correlate(observations, digest), observations, key)
  {
    hide Correlate, IsReused, ObservedApart, Injective;
    var r := Correlate(observations, digest);
    ReusedMeansTwoDevices(r.devices, key);
    if IsReused(r.devices, key) {
      ReusedIsObservedApart(observations, digest, key);
    }
    if ObservedApart(r, observations, key) {
      ObservedApartIsReused(observations, digest, key);
    }
  }

  lemma ReusedIsObservedApart(observations: seq<Observation>, digest: Seed -> int, key: nat)
    requires Correlate(observations, digest).Correlated?
    requires |DevicesUnder(IndexOf(Correlate(observations, digest).devices), key)| > 1
    ensures ObservedApart(Correlate(observations, digest), observations, key)
  {
    hide Correlate, IndexOf, HasReusable, ObservesReusable, SameDevice;
    var r := Correlate(observations, digest);
    var under := DevicesUnder(IndexOf(r.devices), key);
    var x, y := PickTwo(under);
    IndexIsExact(r.devices, key, x);
    IndexIsExact(r.devices, key, y);
    hide DevicesUnder;
    var i :| 0 <= i < |r.devices| && HasReusable(r.devices[i], key) && r.devices[i].canonicalKey == x;
    var j :| 0 <= j < |r.devices| && HasReusable(r.devices[j], key) && r.devices[j].canonicalKey == y;
    var o := ReusableObserver(observations, digest, r.devices[i], key);
    var p := ReusableObserver(observations, digest, r.devices[j], key);
    ApartInDifferentDevices(observations, digest, r.devices[i], r.devices[j], o.id, p.id);
    assert Apart(r, observations, key, o, p);
  }

  lemma ObservedApartIsReused(observations: seq<Observation>, digest: Seed -> int, key: nat)
    requires Correlate(observations, digest).Correlated? && Injective(digest)
    requires ObservedApart(Correlate(observations, digest), observations, key)
    ensures |DevicesUnder(IndexOf(Correlate(observations, digest).devices), key)| > 1
  {
    hide Correlate, IndexOf, HasReusable, ObservesReusable, DevicesUnder, Injective;
    var r := Correlate(observations, digest);
    var o, p :| Apart(r, observations, key, o, p);
    var i := ObservedDevice(observations, digest, o, key);
    var j := ObservedDevice(observations, digest, p, key);
    CanonicalKeysAreDistinct(observations, digest);
    IndexIsExact(r.devices, key, r.devices[i].canonicalKey);
    IndexIsExact(r.devices, key, r.devices[j].canonicalKey);
    TwoElements(DevicesUnder(IndexOf(r.devices), key));
  }

  lemma ReusableObserver(observations: seq<Observation>, digest: Seed -> int, d: Device, key: nat) returns (o: Observation)
    requires Correlate(observations, digest).Correlated? && d in Correlate(observations, digest).devices
    requires HasReusable(d, key)
    ensures o in observations && o.id in d.observationIds && ObservesReusable(o, key)
  {
    hide Correlate, AllIdentifiers;
    var e :| e in d.identifiers && Reusable(e) && e.key == key;
    o := EvidenceHasAnObserver(observations, digest, d, e);
  }

  lemma ApartInDifferentDevices(
    observations: seq<Observation>, digest: Seed -> int, d: Device, e: Device, x: Id, y: Id)
    requires Correlate(observations, digest).Correlated? && d != e
    requires d in Correlate(observations, digest).devices && e in Correlate(observations, digest).devices
    requires x in d.observationIds && y in e.observationIds
    ensures !SameDevice(Correlate(observations, digest), x, y)
  {
    var r := Correlate(observations, digest);
    hide Correlate;
    if SameDevice(r, x, y) {
      var f :| f in r.devices && x in f.observationIds && y in f.observationIds;
      OnlyDevice(observations, digest, d, f, x);
      OnlyDevice(observations, digest, e, f, y);
    }
  }

  lemma ObservedDevice(observations: seq<Observation>, digest: Seed -> int, o: Observation, key: nat) returns (i: nat)
    requires Correlate(observations, digest).Correlated? && o in observations && ObservesReusable(o, key)
    ensures i < |Correlate(observations, digest).devices|
    ensures HasReusable(Correlate(observations, digest).devices[i], key)
    ensures o.id in Correlate(observations, digest).devices[i].observationIds
  {
    var r := Correlate(observations, digest);
    EveryObservationIsPlaced(observations, digest, o);
    hide Correlate, AllIdentifiers;
    var d :| d in r.devices && o.id in d.observationIds && o.id in d.observationIds;
    EvidenceFollowsItsObservation(observations, digest, o, d);
    i :| 0 <= i < |r.devices| && r.devices[i] == d;
    var e :| e in AllIdentifiers(o) && Reusable(e) && e.key == key;
    assert e in d.identifiers;
  }

  // ----- what a reported reuse lists

  lemma {:induction false} ClaimAllObserves(index: Index, d: Device, evidence: seq<Identity>, key: nat)
    ensures ObservationsUnder(ClaimAll(index, d, evidence), key)
         == ObservationsUnder(index, key)
            + if exists e :: e in evidence && Reusable(e) && e.key == key then IdsOf(d) else {}
  {
    if evidence != [] {
      var n := |evidence| - 1;
      ClaimAllObserves(index, d, evidence[..n], key);
      assert evidence == evidence[..n] + [evidence[n]];
    }
  }

  function ObservationsUnder(index: Index, key: nat): set<Id> {
    if key in index then index[key].observations else {}
  }

  lemma {:induction false} ObservationsAreExact(devices: seq<Device>, key: nat, x: Id)
    ensures x in ObservationsUnder(IndexOf(devices), key)
       <==> exists d :: d in devices && HasReusable(d, key) && x in d.observationIds
  {
    if devices != [] {
      var n := |devices| - 1;
      ObservationsAreExact(devices[..n], key, x);
      ClaimAllObserves(IndexOf(devices[..n]), devices[n], devices[n].identifiers, key);
      hide ClaimAll, HasReusable;
      assert devices == devices[..n] + [devices[n]];
      assert HasReusable(devices[n], key) <==> exists e :: e in devices[n].identifiers && Reusable(e) && e.key == key;
    }
  }

  /** A device carries a host name or address if and only if one of its observations does. */
  lemma CarriedIsObserved(observations: seq<Observation>, digest: Seed -> int, d: Device, key: nat)
    requires Correlate(observations, digest).Correlated? && d in Correlate(observations, digest).devices
    ensures HasReusable(d, key)
       <==> exists o :: o in observations && o.id in d.observationIds && ObservesReusable(o, key)
  {
    hide Correlate, AllIdentifiers;
    if HasReusable(d, key) {
      var o := ReusableObserver(observations, digest, d, key);
    }
    if o :| o in observations && o.id in d.observationIds && ObservesReusable(o, key) {
      EvidenceFollowsItsObservation(observations, digest, o, d);
    }
  }

  /** A reported reuse lists the devices that carry its host name or address, and every observation of
      each of them. */
  lemma ReuseListsItsDevices(devices: seq<Device>, c: Conflict)
    requires c in Conflicts(devices) && c.Reused?
    ensures forall x :: x in c.devices <==> exists d :: d in devices && HasReusable(d, c.key) && d.canonicalKey == x
    ensures forall x :: x in c.observations <==> exists d :: d in devices && HasReusable(d, c.key) && x in d.observationIds
  {
    NoReuseWithin(devices);
    hide IndexOf, DeviceConflicts, AllDeviceConflicts, HasReusable;
    forall x ensures x in c.devices <==> exists d :: d in devices && HasReusable(d, c.key) && d.canonicalKey == x {
      IndexIsExact(devices, c.key, x);
      if d :| d in devices && HasReusable(d, c.key) && d.canonicalKey == x {
        var i :| 0 <= i < |devices| && devices[i] == d;
      }
    }
    forall x ensures x in c.observations <==> exists d :: d in devices && HasReusable(d, c.key) && x in d.observationIds {
      ObservationsAreExact(devices, c.key, x);
    }
  }

  // ----- conflicts within a device

  lemma {:induction false} WithinSomeDevice(devices: seq<Device>, c: Conflict)
    ensures c in AllDeviceConflicts(devices) <==> exists d :: d in devices && c in DeviceConflicts(d)
  {
    hide DeviceConflicts;
    if devices != [] {
      var n := |devices| - 1;
      WithinSomeDevice(devices[..n], c);
      assert devices == devices[..n] + [devices[n]];
    }
  }

  /** What is reported under the key of a device is about that device. */
  lemma ReportedIsOwn(observations: seq<Observation>, digest: Seed -> int, d: Device, c: Conflict)
    requires Correlate(observations, digest).Correlated? && Injective(digest)
    requires d in Correlate(observations, digest).devices && !c.Reused? && c.device == d.canonicalKey
    ensures c in Conflicts(Correlate(observations, digest).devices) <==> c in DeviceConflicts(d)
  {
    hide Correlate, Injective, IndexOf;
    var devices := Correlate(observations, digest).devices;
    WithinSomeDevice(devices, c);
    assert c in Conflicts(devices) <==> c in AllDeviceConflicts(devices);
    if e :| e in devices && c in DeviceConflicts(e) {
      CanonicalKeysAreDistinct(observations, digest);
      assert e.canonicalKey == d.canonicalKey;
      SameKeySameDevice(devices, d, e);
    }
  }

  lemma SameKeySameDevice(devices: seq<Device>, d: Device, e: Device)
    requires Pairwise(DifferentKeys, devices) && d in devices && e in devices && d.canonicalKey == e.canonicalKey
    ensures d == e
  {
    var i :| 0 <= i < |devices| && devices[i] == d;
    var j :| 0 <= j < |devices| && devices[j] == e;
  }

  ghost predicate GivesSerial(o: Observation, x: nat) {
    exists e :: e in AllIdentifiers(o) && e.kind == Serial && e.key == x
  }

  /** A serial an observation of the device gives. */
  ghost predicate SerialGiven(observations: seq<Observation>, d: Device, x: nat) {
    exists o :: o in observations && o.id in d.observationIds && GivesSerial(o, x)
  }

  lemma SerialsAreGiven(observations: seq<Observation>, digest: Seed -> int, d: Device, x: nat)
    requires Correlate(observations, digest).Correlated? && d in Correlate(observations, digest).devices
    ensures x in SerialsOf(d) <==> SerialGiven(observations, d, x)
  {
    hide Correlate, AllIdentifiers;
    if x in SerialsOf(d) {
      var e :| e in d.identifiers && e.kind == Serial && e.key == x;
      var o := EvidenceHasAnObserver(observations, digest, d, e);
      assert GivesSerial(o, x);
    }
    if o :| o in observations && o.id in d.observationIds && GivesSerial(o, x) {
      EvidenceFollowsItsObservation(observations, digest, o, d);
    }
  }

  lemma SerialsWithin(d: Device, serials: set<nat>)
    ensures ConflictingSerial(d.canonicalKey, serials) in DeviceConflicts(d) <==>
              |SerialsOf(d)| > 1 && serials == SerialsOf(d)
  {
    hide SerialsOf;
  }

  /** The conflicts report serials of a device if and only if its observations give at least two, and then
      they list exactly those given. */
  lemma SerialConflictIsExact(observations: seq<Observation>, digest: Seed -> int, d: Device, serials: set<nat>)
    requires Correlate(observations, digest).Correlated? && Injective(digest)
    requires d in Correlate(observations, digest).devices
    ensures ConflictingSerial(d.canonicalKey, serials) in Conflicts(Correlate(observations, digest).devices) <==>
              && (exists x, y :: SerialGiven(observations, d, x) && SerialGiven(observations, d, y) && x != y)
              && forall x :: x in serials <==> SerialGiven(observations, d, x)
  {
    hide Correlate, SerialGiven, Conflicts, Injective;
    ReportedIsOwn(observations, digest, d, ConflictingSerial(d.canonicalKey, serials));
    SerialsWithin(d, serials);
    hide SerialsOf, DeviceConflicts;
    forall x ensures x in SerialsOf(d) <==> SerialGiven(observations, d, x) {
      SerialsAreGiven(observations, digest, d, x);
    }
    TwoElements(SerialsOf(d));
    assert (forall x :: x in serials <==> SerialGiven(observations, d, x)) <==> serials == SerialsOf(d);
  }

  /** A fact about a field that an observation of the device has. */
  ghost predicate FactGiven(observations: seq<Observation>, d: Device, field: nat, f: Fact) {
    f.field == field && exists o :: o in observations && o.id in d.observationIds && f in o.facts
  }

  ghost predicate ValueGiven(observations: seq<Observation>, d: Device, field: nat, x: nat) {
    exists f :: FactGiven(observations, d, field, f) && f.value == x
  }

  lemma FactsAreGiven(observations: seq<Observation>, digest: Seed -> int, d: Device, field: nat, f: Fact)
    requires Correlate(observations, digest).Correlated? && d in Correlate(observations, digest).devices
    ensures f in d.facts && f.field == field <==> FactGiven(observations, d, field, f)
  {
    hide Correlate, AllIdentifiers;
    if f in d.facts && f.field == field {
      var o := FactHasAnObserver(observations, digest, d, f);
    }
    if o :| o in observations && o.id in d.observationIds && f in o.facts {
      EvidenceFollowsItsObservation(observations, digest, o, d);
    }
  }

  /** The conflicts report a field of a device if and only if its observations have two different values
      and two different sources for it, and then they list exactly the values they have. */
  lemma DisagreementIsExact(
    observations: seq<Observation>, digest: Seed -> int, d: Device, field: nat, values: set<nat>)
    requires Correlate(observations, digest).Correlated? && Injective(digest)
    requires d in Correlate(observations, digest).devices
    ensures SourceDisagreement(d.canonicalKey, field, values) in Conflicts(Correlate(observations, digest).devices) <==>
              && (exists f, g :: FactGiven(observations, d, field, f) && FactGiven(observations, d, field, g)
                                 && f.value != g.value)
              && (exists f, g :: FactGiven(observations, d, field, f) && FactGiven(observations, d, field, g)
                                 && f.source != g.source)
              && forall x :: x in values <==> ValueGiven(observations, d, field, x)
  {
    hide Correlate, FactGiven, Conflicts, Injective, DeviceConflicts;
    ReportedIsOwn(observations, digest, d, SourceDisagreement(d.canonicalKey, field, values));
    forall f ensures f in d.facts && f.field == field <==> FactGiven(observations, d, field, f) {
      FactsAreGiven(observations, digest, d, field, f);
    }
    DisagreementWithin(d, field, values);
    assert forall x :: x in ValuesOf(d, field) <==> ValueGiven(observations, d, field, x);
  }

  lemma DisagreementWithin(d: Device, field: nat, values: set<nat>)
    ensures SourceDisagreement(d.canonicalKey, field, values) in DeviceConflicts(d) <==>
              && (exists f, g :: f in d.facts && g in d.facts && f.field == field == g.field && f.value != g.value)
              && (exists f, g :: f in d.facts && g in d.facts && f.field == field == g.field && f.source != g.source)
              && values == ValuesOf(d, field)
  {
    ValuesDiffer(d, field);
    SourcesDiffer(d, field);
    assert (exists f :: f in d.facts && f.field == field) ==> field in FieldsOf(d);
    hide ValuesOf, SourcesOf, FieldsOf, SerialsOf;
  }

  lemma ValuesDiffer(d: Device, field: nat)
    ensures |ValuesOf(d, field)| > 1 <==>
              exists f, g :: f in d.facts && g in d.facts && f.field == field == g.field && f.value != g.value
  {
    TwoElements(ValuesOf(d, field));
    if f, g :| f in d.facts && g in d.facts && f.field == field == g.field && f.value != g.value {
      assert f.value in ValuesOf(d, field) && g.value in ValuesOf(d, field);
    }
  }

  lemma SourcesDiffer(d: Device, field: nat)
    ensures |SourcesOf(d, field)| > 1 <==>
              exists f, g :: f in d.facts && g in d.facts && f.field == field == g.field && f.source != g.source
  {
    TwoElements(SourcesOf(d, field));
    if f, g :| f in d.facts && g in d.facts && f.field == field == g.field && f.source != g.source {
      assert f.source in SourcesOf(d, field) && g.source in SourcesOf(d, field);
    }
  }

  // ----- refusal

  lemma {:induction false} DuplicateIsFound(s: seq<Observation>)
    ensures FirstDuplicate(s).None? <==> |IdSet(s)| == |s|
    ensures |IdSet(s)| <= |s|
  {
    if s != [] {
      var n := |s| - 1;
      DuplicateIsFound(s[..n]);
      assert s == s[..n] + [s[n]];
      assert IdSet(s) == IdSet(s[..n]) + {s[n].id};
    }
  }

  /** Correlation is refused exactly when some observation id is given twice. */
  lemma RefusedExactlyOnRepeatedId(observations: seq<Observation>, digest: Seed -> int)
    ensures Correlate(observations, digest).Correlated? <==> |IdSet(observations)| == |observations|
  {
    hide DecideAll, FirstSeen, Devices, SortDecisions;
    OrderedKeeps(observations);
    DuplicateIsFound(InIdOrder(observations));
  }
}
