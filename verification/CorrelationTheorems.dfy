/** What `correlate` promises, proved of its specification for every input. */
module CorrelationTheorems {
  import opened Options
  import opened UnionFind
  import opened Sorting
  import opened Correlation

  // ----- the graphs

  ghost predicate Shares(o: Observation, p: Observation) {
    exists key :: Carries(o, key) && Carries(p, key)
  }

  /** Observations joined by a stable identifier, of confidence at least 0.8, that both carry. */
  ghost function SharedLinks(observations: seq<Observation>): set<Link> {
    set o, p | o in observations && p in observations && Shares(o, p) :: Link(o.id, p.id)
  }

  ghost function CandidateLinks(candidates: seq<Candidate>): set<Link> {
    set c | c in candidates :: Link(c.first.id, c.other.id)
  }

  ghost function DecisionLinks(decisions: seq<Decision>): set<Link> {
    set d | d in decisions :: Link(d.left, d.right)
  }

  // ----- the fold over candidates

  lemma JoinOfOneClass(c: Labelling, links: set<Link>, a: Id, b: Id)
    requires Partitions(c, links) && a in c && b in c && c[a] == c[b]
    ensures Partitions(c, links + {Link(a, b)})
  {
    JoinPartitions(c, links, a, b);
    assert Join(c, a, b) == c;
  }

  /** After the loops the labels are the components both of all candidates and of the decisions
      alone, and each decision used up one root. */
  lemma {:induction false} DecideIsConnectivity(ids: set<Id>, candidates: seq<Candidate>)
    requires Within(ids, candidates)
    ensures Partitions(Decide(ids, candidates).labels, CandidateLinks(candidates))
    ensures Partitions(Decide(ids, candidates).labels, DecisionLinks(Decide(ids, candidates).decisions))
    ensures |Decide(ids, candidates).decisions| + |Roots(Decide(ids, candidates).labels)| == |ids|
  {
    if candidates == [] {
      SingletonsPartition(ids);
      assert CandidateLinks([]) == {} == DecisionLinks([]);
      assert Roots(Singletons(ids)) == ids;
    } else {
      var n := |candidates| - 1;
      var rest, c := candidates[..n], candidates[n];
      assert candidates == rest + [c];
      DecideIsConnectivity(ids, rest);
      var d := Decide(ids, rest);
      var a, b := c.first.id, c.other.id;
      assert CandidateLinks(candidates) == CandidateLinks(rest) + {Link(a, b)};
      if d.labels[a] == d.labels[b] {
        JoinOfOneClass(d.labels, CandidateLinks(rest), a, b);
      } else {
        var more := d.decisions + [DecisionFor(c)];
        assert DecisionLinks(more) == DecisionLinks(d.decisions) + {Link(a, b)};
        JoinPartitions(d.labels, CandidateLinks(rest), a, b);
        JoinPartitions(d.labels, DecisionLinks(d.decisions), a, b);
        JoinDropsOneRoot(d.labels, CandidateLinks(rest), a, b);
      }
    }
  }

  // ----- candidates link exactly the observations that share stable evidence

  /** The identifiers an observation has by its interfaces. */
  lemma {:induction false} InterfaceMacsAre(interfaces: seq<Interface>, e: Identity)
    ensures e in InterfaceMacs(interfaces) <==>
              exists i :: i in interfaces && i.mac == Some(e.key) && e.kind == Mac && e.source == i.source
                          && e.observedAt == i.observedAt && e.confidence == i.confidence
  {
    if interfaces != [] {
      InterfaceMacsAre(interfaces[1..], e);
      assert interfaces == [interfaces[0]] + interfaces[1..];
    }
  }

  /** An observation gives exactly what its identifiers and those of its interfaces say. */
  lemma GivenIsEvidence(o: Observation, key: nat, confidence: real)
    ensures Gives(o, key, confidence) <==>
              exists e :: e in AllIdentifiers(o) && StableKind(e) && e.key == key && e.confidence == confidence
  {
    SortKeeps(IdentityBefore, o.identifiers + InterfaceMacs(o.interfaces));
    hide SortBy;
    if i :| i in o.interfaces && i.mac == Some(key) && i.confidence == confidence {
      var e := Identity(Mac, key, i.source, i.observedAt, i.confidence);
      InterfaceMacsAre(o.interfaces, e);
      assert e in AllIdentifiers(o);
    }
    if e :| e in AllIdentifiers(o) && StableKind(e) && e.key == key && e.confidence == confidence {
      InterfaceMacsAre(o.interfaces, e);
      assert e in o.identifiers || e in InterfaceMacs(o.interfaces);
    }
  }

  lemma CarriedIsEvidence(o: Observation, key: nat)
    ensures Carries(o, key) <==> exists e :: e in AllIdentifiers(o) && Stable(e) && e.key == key
  {
    hide Gives, AllIdentifiers;
    if confidence: real :| confidence >= 0.8 && Gives(o, key, confidence) {
      GivenIsEvidence(o, key, confidence);
    }
    if e :| e in AllIdentifiers(o) && Stable(e) && e.key == key {
      GivenIsEvidence(o, key, e.confidence);
    }
  }

  /** An observation of some id gives a key with some confidence, at least 0.8. */
  ghost predicate GivenBy(observations: seq<Observation>, id: Id, key: nat, confidence: real) {
    confidence >= 0.8 && exists o :: o in observations && o.id == id && Gives(o, key, confidence)
  }

  lemma ClaimantGives(ordered: seq<Observation>, key: nat, c: Claim)
    requires c in ClaimsFor(ordered, key)
    ensures GivenBy(ordered, c.id, key, c.evidence.confidence)
  {
    hide Gives;
    var n := |ordered| - 1;
    if c in ClaimsFor(ordered[..n], key) {
      ClaimantGives(ordered[..n], key, c);
      var o :| o in ordered[..n] && o.id == c.id && Gives(o, key, c.evidence.confidence);
      assert o in ordered;
    } else {
      ClaimsOnOwner(ordered[n].id, AllIdentifiers(ordered[n]), key, c);
      GivenIsEvidence(ordered[n], key, c.evidence.confidence);
      assert ordered[n] in ordered;
    }
  }

  lemma SortedClaimantGives(ordered: seq<Observation>, key: nat, c: Claim)
    requires c in SortedClaims(ordered, key)
    ensures GivenBy(ordered, c.id, key, c.evidence.confidence)
  {
    hide GivenBy;
    SortKeeps(ClaimBefore, ClaimsFor(ordered, key));
    ClaimantGives(ordered, key, c);
  }

  /** Both ends of a candidate give its key with sufficient confidence, and nobody who carries it has a smaller
      id than the first. */
  ghost predicate Justified(ordered: seq<Observation>, c: Candidate) {
    && GivenBy(ordered, c.first.id, c.key, c.first.evidence.confidence)
    && GivenBy(ordered, c.other.id, c.key, c.other.evidence.confidence)
    && forall o :: o in ordered && Carries(o, c.key) ==> c.first.id <= o.id
  }

  function ClaimOrder(c: Claim): int { c.id }

  lemma FirstClaimIsLeast(ordered: seq<Observation>, key: nat, o: Observation)
    requires o in ordered && Carries(o, key)
    ensures SortedClaims(ordered, key) != [] && SortedClaims(ordered, key)[0].id <= o.id
  {
    CarriedIsEvidence(o, key);
    hide AllIdentifiers;
    var e :| e in AllIdentifiers(o) && Stable(e) && e.key == key;
    EvidenceIsClaimed(ordered, o, e);
    assert OrdersBy(ClaimOrder, ClaimBefore);
    SortBySorts(ClaimOrder, ClaimBefore, ClaimsFor(ordered, key));
    var claims := SortedClaims(ordered, key);
    hide SortBy, ClaimsFor;
    var i :| 0 <= i < |claims| && claims[i] == Claim(o.id, e);
    assert ClaimOrder(claims[0]) <= ClaimOrder(claims[i]);
  }

  lemma {:induction false} CandidatesAreJustified(ordered: seq<Observation>, keys: seq<nat>, c: Candidate)
    requires c in Stars(ordered, keys)
    ensures Justified(ordered, c)
  {
    var n := |keys| - 1;
    hide SortedClaims, Carries;
    if c in Stars(ordered, keys[..n]) {
      CandidatesAreJustified(ordered, keys[..n], c);
    } else {
      var claims := SortedClaims(ordered, keys[n]);
      StarMembers(keys[n], claims[0], claims[1..]);
      assert c.first in claims && c.other in claims;
      SortedClaimantGives(ordered, keys[n], c.first);
      SortedClaimantGives(ordered, keys[n], c.other);
      forall o | o in ordered && Carries(o, c.key) ensures c.first.id <= o.id {
        FirstClaimIsLeast(ordered, c.key, o);
      }
    }
  }

  /** Every claim of a key is linked to the first claim of that key. */
  lemma {:induction false} StarReaches(ordered: seq<Observation>, keys: seq<nat>, key: nat, c: Claim)
    requires key in keys && c in SortedClaims(ordered, key)
    ensures Connected(CandidateLinks(Stars(ordered, keys)), SortedClaims(ordered, key)[0].id, c.id)
  {
    hide SortedClaims, Connected;
    var n := |keys| - 1;
    if keys[n] == key {
      CenterReaches(ordered, keys, c);
    } else {
      StarReaches(ordered, keys[..n], key, c);
      MoreLinks(CandidateLinks(Stars(ordered, keys[..n])), CandidateLinks(Stars(ordered, keys)));
    }
  }

  lemma CenterReaches(ordered: seq<Observation>, keys: seq<nat>, c: Claim)
    requires keys != [] && c in SortedClaims(ordered, keys[|keys| - 1])
    ensures Connected(CandidateLinks(Stars(ordered, keys)), SortedClaims(ordered, keys[|keys| - 1])[0].id, c.id)
  {
    hide SortedClaims, Connected;
    var key, links := keys[|keys| - 1], CandidateLinks(Stars(ordered, keys));
    var claims := SortedClaims(ordered, key);
    StarMembers(key, claims[0], claims[1..]);
    if c == claims[0] {
      ConnectedReflexive(links, c.id);
    } else {
      assert c in claims[1..];
      assert Candidate(key, claims[0], c) in StarOf(key, claims);
      ConnectedByLink(links, claims[0].id, c.id);
    }
  }

  lemma SharersAreLinked(ordered: seq<Observation>, o: Observation, p: Observation)
    requires o in ordered && p in ordered && Shares(o, p)
    ensures Connected(CandidateLinks(Candidates(ordered)), o.id, p.id)
  {
    var key :| Carries(o, key) && Carries(p, key);
    var links := CandidateLinks(Candidates(ordered));
    CarrierIsReached(ordered, o, key);
    CarrierIsReached(ordered, p, key);
    ConnectedSymmetric(links, SortedClaims(ordered, key)[0].id, o.id);
    ConnectedTransitive(links, o.id, SortedClaims(ordered, key)[0].id, p.id);
  }

  lemma CarrierIsReached(ordered: seq<Observation>, o: Observation, key: nat)
    requires o in ordered && Carries(o, key)
    ensures SortedClaims(ordered, key) != []
    ensures Connected(CandidateLinks(Candidates(ordered)), SortedClaims(ordered, key)[0].id, o.id)
  {
    CarriedIsEvidence(o, key);
    var e :| e in AllIdentifiers(o) && Stable(e) && e.key == key;
    EvidenceIsClaimed(ordered, o, e);
    AscendingEnumerates(StableKeys(ordered));
    assert key in StableKeys(ordered);
    StarReaches(ordered, Ascending(StableKeys(ordered)), key, Claim(o.id, e));
  }

  lemma SameConnections(ordered: seq<Observation>, x: Id, y: Id)
    ensures Connected(CandidateLinks(Candidates(ordered)), x, y) <==> Connected(SharedLinks(ordered), x, y)
  {
    var candidates, shared := CandidateLinks(Candidates(ordered)), SharedLinks(ordered);
    forall a, b | Adjacent(candidates, a, b) ensures Connected(shared, a, b) {
      CandidateIsShared(ordered, a, b);
    }
    forall a, b | Adjacent(shared, a, b) ensures Connected(candidates, a, b) {
      SharedIsConnected(ordered, a, b);
    }
    if Connected(candidates, x, y) {
      ConnectedMonotone(candidates, shared, x, y);
    }
    if Connected(shared, x, y) {
      ConnectedMonotone(shared, candidates, x, y);
    }
  }

  lemma CandidateIsShared(ordered: seq<Observation>, a: Id, b: Id)
    requires Adjacent(CandidateLinks(Candidates(ordered)), a, b)
    ensures Connected(SharedLinks(ordered), a, b)
  {
    var c :| c in Candidates(ordered)
      && (Link(c.first.id, c.other.id) == Link(a, b) || Link(c.first.id, c.other.id) == Link(b, a));
    CandidatesAreJustified(ordered, Ascending(StableKeys(ordered)), c);
    hide Gives, Stars;
    var o :| o in ordered && o.id == c.first.id && Gives(o, c.key, c.first.evidence.confidence);
    var p :| p in ordered && p.id == c.other.id && Gives(p, c.key, c.other.evidence.confidence);
    assert Carries(o, c.key) && Carries(p, c.key);
    assert Shares(o, p);
    assert Link(o.id, p.id) in SharedLinks(ordered);
    ConnectedByLink(SharedLinks(ordered), a, b);
  }

  lemma SharedIsConnected(ordered: seq<Observation>, a: Id, b: Id)
    requires Adjacent(SharedLinks(ordered), a, b)
    ensures Connected(CandidateLinks(Candidates(ordered)), a, b)
  {
    var o, p :| o in ordered && p in ordered && Shares(o, p)
      && (Link(o.id, p.id) == Link(a, b) || Link(o.id, p.id) == Link(b, a));
    SharersAreLinked(ordered, o, p);
    ConnectedSymmetric(CandidateLinks(Candidates(ordered)), o.id, p.id) ;
  }

  /** After all unions two observations have the same root exactly when they are connected through
      shared stable evidence, and a root is the smallest id of its class. */
  lemma RootsAreComponents(ordered: seq<Observation>)
    ensures Partitions(DecideAll(ordered).labels, SharedLinks(ordered))
    ensures forall x, y :: x in DecideAll(ordered).labels && y in DecideAll(ordered).labels
              && DecideAll(ordered).labels[x] == DecideAll(ordered).labels[y]
              ==> DecideAll(ordered).labels[x] <= y
  {
    var candidates := Candidates(ordered);
    var c := DecideAll(ordered).labels;
    StarsWithin(ordered, Ascending(StableKeys(ordered)));
    DecideIsConnectivity(IdSet(ordered), candidates);
    forall x, y | x in c && y in c ensures c[x] == c[y] <==> Connected(SharedLinks(ordered), x, y) {
      SameConnections(ordered, x, y);
    }
    forall x, y | x in c && y in c && c[x] == c[y] ensures c[x] <= y {
      assert Known(c, y);
    }
    assert forall a, b :: Adjacent(SharedLinks(ordered), a, b) ==> a in c && b in c;
  }
}
