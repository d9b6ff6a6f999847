/** Device correlation (correlation.py): evidence model, `correlate` step by step, and the
    specification it is proved against. Texts that the program only compares are natural numbers
    in the same order: observation ids, evidence keys ("kind:value"), sources and fields. */
module Correlation {
  import opened Options
  import opened Numbers
  import opened UnionFind
  import opened Sorting

  datatype Kind = Mac | Serial | SourceId | Hostname | Ipv4
  datatype Identity = Identity(kind: Kind, key: nat, source: nat, observedAt: int, confidence: real)
  datatype Interface = Interface(
    key: nat, source: nat, observedAt: int, name: Option<nat>, mac: Option<nat>, confidence: real)
  datatype Fact = Fact(field: nat, value: nat, folded: nat, source: nat, observedAt: int, confidence: real)
  datatype Observation = Observation(
    id: Id, identifiers: seq<Identity>, interfaces: seq<Interface>, facts: seq<Fact>)

  datatype Claim = Claim(id: Id, evidence: Identity)
  datatype Candidate = Candidate(key: nat, first: Claim, other: Claim)
  datatype Decision = Decision(left: Id, right: Id, key: nat, confidence: real)
  datatype Decided = Decided(labels: Labelling, decisions: seq<Decision>)

  /** What the canonical key of a device is the digest of. */
  datatype Seed = StableSeed(key: nat) | ObservationSeed(id: Id)
  datatype Device = Device(
    canonicalKey: int, observationIds: seq<Id>, identifiers: seq<Identity>,
    interfaces: seq<Interface>, facts: seq<Fact>, confidence: real)
  datatype Result = Correlated(devices: seq<Device>, decisions: seq<Decision>) | DuplicateId(id: Id)

  // ----- evidence

  predicate Stable(e: Identity) {
    (e.kind == Mac || e.kind == Serial || e.kind == SourceId) && e.confidence >= 0.8
  }

  predicate StableKind(e: Identity) {
    e.kind == Mac || e.kind == Serial || e.kind == SourceId
  }

  /** The order of `_identity_sort_key`; the key carries both kind and value. */
  predicate IdentityBefore(a: Identity, b: Identity) {
    a.key < b.key || (a.key == b.key && (
      a.source < b.source || (a.source == b.source && (
        a.observedAt < b.observedAt || (a.observedAt == b.observedAt && a.confidence < b.confidence)))))
  }

  predicate InterfaceBefore(a: Interface, b: Interface) {
    a.key < b.key || (a.key == b.key && (
      a.source < b.source || (a.source == b.source && (
        a.observedAt < b.observedAt || (a.observedAt == b.observedAt && MacRank(a.mac) < MacRank(b.mac))))))
  }

  /** A missing address sorts as the empty text, before every address. */
  function MacRank(mac: Option<nat>): nat {
    if mac.None? then 0 else mac.value + 1
  }

  predicate FactBefore(a: Fact, b: Fact) {
    a.field < b.field || (a.field == b.field && (
      a.folded < b.folded || (a.folded == b.folded && (
        a.source < b.source || (a.source == b.source && a.observedAt < b.observedAt)))))
  }

  predicate ClaimBefore(a: Claim, b: Claim) { a.id < b.id }

  predicate ObservationBefore(a: Observation, b: Observation) { a.id < b.id }

  predicate DeviceBefore(a: Device, b: Device) { a.canonicalKey < b.canonicalKey }

  predicate DecisionBefore(a: Decision, b: Decision) { a.key < b.key || (a.key == b.key && a.left < b.left) }

  function InterfaceMacs(interfaces: seq<Interface>): seq<Identity> {
    if interfaces == [] then [] else
      var i := interfaces[0];
      (if i.mac.None? then [] else [Identity(Mac, i.mac.value, i.source, i.observedAt, i.confidence)])
      + InterfaceMacs(interfaces[1..])
  }

  function AllIdentifiers(o: Observation): seq<Identity> {
    SortBy(IdentityBefore, o.identifiers + InterfaceMacs(o.interfaces))
  }

  /** An observation gives a key as an identifier of a stable kind, or as the MAC of an interface, with some
      confidence. */
  ghost predicate Gives(o: Observation, key: nat, confidence: real) {
    || (exists e :: e in o.identifiers && (e.kind == Mac || e.kind == Serial || e.kind == SourceId)
                    && e.key == key && e.confidence == confidence)
    || (exists i :: i in o.interfaces && i.mac == Some(key) && i.confidence == confidence)
  }

  /** It gives the key with a confidence of at least 0.8. */
  ghost predicate Carries(o: Observation, key: nat) {
    exists confidence: real {:trigger Gives(o, key, confidence)} :: confidence >= 0.8 && Gives(o, key, confidence)
  }

  // ----- the stable index

  function ClaimsOn(id: Id, evidence: seq<Identity>, key: nat): seq<Claim> {
    if evidence == [] then [] else
      var n := |evidence| - 1;
      ClaimsOn(id, evidence[..n], key)
      + if Stable(evidence[n]) && evidence[n].key == key then [Claim(id, evidence[n])] else []
  }

  function ClaimsFor(ordered: seq<Observation>, key: nat): seq<Claim> {
    if ordered == [] then [] else
      var n := |ordered| - 1;
      ClaimsFor(ordered[..n], key) + ClaimsOn(ordered[n].id, AllIdentifiers(ordered[n]), key)
  }

  function SortedClaims(ordered: seq<Observation>, key: nat): seq<Claim> {
    SortBy(ClaimBefore, ClaimsFor(ordered, key))
  }

  function StableKeys(ordered: seq<Observation>): set<nat> {
    set o, e | o in ordered && e in AllIdentifiers(o) && Stable(e) :: e.key
  }

  // ----- star candidates and decisions

  /** Star edges: the first claim of a key against each of the others. */
  function Star(key: nat, first: Claim, others: seq<Claim>): seq<Candidate> {
    if others == [] then [] else
      Star(key, first, others[..|others| - 1]) + [Candidate(key, first, others[|others| - 1])]
  }

  function StarOf(key: nat, claims: seq<Claim>): seq<Candidate> {
    if claims == [] then [] else Star(key, claims[0], claims[1..])
  }

  function Stars(ordered: seq<Observation>, keys: seq<nat>): seq<Candidate> {
    if keys == [] then [] else
      var n := |keys| - 1;
      Stars(ordered, keys[..n]) + StarOf(keys[n], SortedClaims(ordered, keys[n]))
  }

  function Candidates(ordered: seq<Observation>): seq<Candidate> {
    Stars(ordered, Ascending(StableKeys(ordered)))
  }

  function DecisionFor(c: Candidate): Decision {
    Decision(c.first.id, c.other.id, c.key, Lower(c.first.evidence.confidence, c.other.evidence.confidence))
  }

  /** Merge along the candidates in order, keeping a decision for each one that joins two classes. */
  function Decide(ids: set<Id>, candidates: seq<Candidate>): (d: Decided)
    ensures d.labels.Keys == ids
  {
    if candidates == [] then Decided(Singletons(ids), []) else
      var n := |candidates| - 1;
      DecideOne(Decide(ids, candidates[..n]), candidates[n])
  }

  function DecideOne(d: Decided, c: Candidate): (e: Decided)
    ensures e.labels.Keys == d.labels.Keys
  {
    if LabelOf(d.labels, c.first.id) == LabelOf(d.labels, c.other.id) then d else
      Decided(Join(d.labels, c.first.id, c.other.id), d.decisions + [DecisionFor(c)])
  }

  // ----- grouping and devices

  function Members(ordered: seq<Observation>, labels: Labelling, root: Id): seq<Observation> {
    if ordered == [] then [] else
      var n := |ordered| - 1;
      Members(ordered[..n], labels, root)
      + if LabelOf(labels, ordered[n].id) == root then [ordered[n]] else []
  }

  /** The labels in order of first appearance: the insertion order of the dictionary `groups`. */
  function FirstSeen(ordered: seq<Observation>, labels: Labelling): seq<Id> {
    if ordered == [] then [] else
      var n := |ordered| - 1;
      var roots, root := FirstSeen(ordered[..n], labels), LabelOf(labels, ordered[n].id);
      if root in roots then roots else roots + [root]
  }

  function Ids(members: seq<Observation>): seq<Id> {
    seq(|members|, i requires 0 <= i < |members| => members[i].id)
  }

  function IdSet(members: seq<Observation>): set<Id> {
    set o | o in members :: o.id
  }

  function InterfacesOf(o: Observation): seq<Interface> { o.interfaces }

  function FactsOf(o: Observation): seq<Fact> { o.facts }

  /** One part of every member, in member order. */
  function Gather<T>(part: Observation -> seq<T>, members: seq<Observation>): seq<T> {
    if members == [] then [] else
      Gather(part, members[..|members| - 1]) + part(members[|members| - 1])
  }

  /** The smallest stable key if there is one, else the first member (a group is never empty). */
  function SeedOf(members: seq<Observation>): Seed {
    var keys := StableKeys(members);
    if keys != {} then StableSeed(Least(keys))
    else ObservationSeed(if members == [] then 0 else members[0].id)
  }

  function Matching(decisions: seq<Decision>, ids: set<Id>): seq<Decision> {
    if decisions == [] then [] else
      (if decisions[0].left in ids && decisions[0].right in ids then [decisions[0]] else [])
      + Matching(decisions[1..], ids)
  }

  function LowestConfidence(decisions: seq<Decision>): real
    requires decisions != []
  {
    if |decisions| == 1 then decisions[0].confidence
    else Lower(decisions[0].confidence, LowestConfidence(decisions[1..]))
  }

  /** The best confidence among the evidence of a stable kind, at any confidence; else one half. */
  function BestStable(evidence: seq<Identity>): Option<real> {
    if evidence == [] then None else
      var rest := BestStable(evidence[1..]);
      if !StableKind(evidence[0]) then rest
      else if rest.None? || rest.value < evidence[0].confidence then Some(evidence[0].confidence)
      else rest
  }

  function DeviceConfidence(matching: seq<Decision>, evidence: seq<Identity>): real {
    if matching != [] then LowestConfidence(matching)
    else if BestStable(evidence).Some? then BestStable(evidence).value else 0.5
  }

  function DeviceOf(members: seq<Observation>, decisions: seq<Decision>, digest: Seed -> int): Device {
    var identifiers := SortBy(IdentityBefore, Gather(AllIdentifiers, members));
    Device(
      digest(SeedOf(members)),
      Ids(members),
      identifiers,
      SortBy(InterfaceBefore, Gather(InterfacesOf, members)),
      SortBy(FactBefore, Gather(FactsOf, members)),
      DeviceConfidence(Matching(decisions, IdSet(members)), identifiers))
  }

  function Devices(roots: seq<Id>, ordered: seq<Observation>, decided: Decided, digest: Seed -> int): seq<Device> {
    if roots == [] then [] else
      var n := |roots| - 1;
      Devices(roots[..n], ordered, decided, digest)
      + [DeviceOf(Members(ordered, decided.labels, roots[n]), decided.decisions, digest)]
  }

  // ----- the whole correlation

  function InIdOrder(observations: seq<Observation>): seq<Observation> {
    SortBy(ObservationBefore, observations)
  }

  /** The first id, in order, that an earlier observation already has. */
  function FirstDuplicate(ordered: seq<Observation>): Option<Id> {
    if ordered == [] then None else
      var n := |ordered| - 1;
      var d := FirstDuplicate(ordered[..n]);
      if d.Some? then d
      else if ordered[n].id in IdSet(ordered[..n]) then Some(ordered[n].id)
      else None
  }

  function DecideAll(ordered: seq<Observation>): (d: Decided)
    ensures d.labels.Keys == IdSet(ordered)
  {
    Decide(IdSet(ordered), Candidates(ordered))
  }

  function SortDecisions(decisions: seq<Decision>): seq<Decision> {
    SortBy(DecisionBefore, decisions)
  }

  function Correlate(observations: seq<Observation>, digest: Seed -> int): Result {
    var ordered := InIdOrder(observations);
    var duplicate := FirstDuplicate(ordered);
    if duplicate.Some? then DuplicateId(duplicate.value) else
      var decided := DecideAll(ordered);
      var roots := FirstSeen(ordered, decided.labels);
      var devices := Devices(roots, ordered, decided, digest);
      Correlated(
        SortBy(DeviceBefore, devices),
        SortDecisions(decided.decisions))
  }

  // ----- where claims and candidates come from

  ghost predicate Within(ids: set<Id>, candidates: seq<Candidate>) {
    forall c :: c in candidates ==> c.first.id in ids && c.other.id in ids
  }

  lemma ClaimsComeFrom(ordered: seq<Observation>, key: nat, c: Claim)
    requires c in ClaimsFor(ordered, key)
    ensures c.id in IdSet(ordered)
  {
    var n := |ordered| - 1;
    if c in ClaimsFor(ordered[..n], key) {
      ClaimsComeFrom(ordered[..n], key, c);
    } else {
      ClaimsOnOwner(ordered[n].id, AllIdentifiers(ordered[n]), key, c);
      assert ordered[n] in ordered;
    }
  }

  lemma ClaimsOnOwner(id: Id, evidence: seq<Identity>, key: nat, c: Claim)
    requires c in ClaimsOn(id, evidence, key)
    ensures c.id == id && c.evidence in evidence && Stable(c.evidence) && c.evidence.key == key
  {
  }

  /** Every piece of stable evidence is claimed under its own key. */
  lemma EvidenceIsClaimed(ordered: seq<Observation>, o: Observation, e: Identity)
    requires o in ordered && e in AllIdentifiers(o) && Stable(e)
    ensures Claim(o.id, e) in ClaimsFor(ordered, e.key)
    ensures Claim(o.id, e) in SortedClaims(ordered, e.key)
  {
    var n := |ordered| - 1;
    if o == ordered[n] {
      EvidenceIsClaimedOn(o.id, AllIdentifiers(o), e);
    } else {
      EvidenceIsClaimed(ordered[..n], o, e);
    }
    SortKeeps(ClaimBefore, ClaimsFor(ordered, e.key));
  }

  lemma EvidenceIsClaimedOn(id: Id, evidence: seq<Identity>, e: Identity)
    requires e in evidence && Stable(e)
    ensures Claim(id, e) in ClaimsOn(id, evidence, e.key)
  {
    var n := |evidence| - 1;
    if e != evidence[n] {
      EvidenceIsClaimedOn(id, evidence[..n], e);
    }
  }

  lemma StarsWithin(ordered: seq<Observation>, keys: seq<nat>)
    ensures Within(IdSet(ordered), Stars(ordered, keys))
  {
    if keys != [] {
      var n := |keys| - 1;
      StarsWithin(ordered, keys[..n]);
      StarWithin(ordered, keys[n]);
    }
  }

  lemma StarWithin(ordered: seq<Observation>, key: nat)
    ensures Within(IdSet(ordered), StarOf(key, SortedClaims(ordered, key)))
  {
    var claims := SortedClaims(ordered, key);
    SortKeeps(ClaimBefore, ClaimsFor(ordered, key));
    forall c | c in claims ensures c.id in IdSet(ordered) {
      ClaimsComeFrom(ordered, key, c);
    }
    if claims != [] {
      StarMembers(key, claims[0], claims[1..]);
    }
  }

  lemma StarMembers(key: nat, first: Claim, others: seq<Claim>)
    ensures forall c :: c in Star(key, first, others)
              <==> c.key == key && c.first == first && c.other in others
  {
    if others != [] {
      var n := |others| - 1;
      assert others == others[..n] + [others[n]];
      StarMembers(key, first, others[..n]);
    }
  }
}
