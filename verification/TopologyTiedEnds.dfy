/** When exactly the order of evidence decides which edge is kept: the highest ranking edge of a key comes
    from two pieces of evidence with one sort key, one open-ended and one ending in the last moment. */
module TopologyTiedEnds {
  import opened Options
  import opened Ipv4
  import opened Sorting
  import opened Topology
  import opened TopologyGraph
  import opened TopologyPieces
  import opened TopologyOrder

  // ----- where an edge comes from

  lemma AroundObservations(ev: Evidence, asOf: int)
    ensures AllSubs(ev, asOf)
         == (Front(ev, asOf) + AllVlanSubs(SortedVlans(ev, asOf)))
            + All(SubsIn(ContextOf(ev, asOf)), SortedObservations(ev, asOf)) + []
  {
    ObservationsSubmit(ContextOf(ev, asOf), SortedObservations(ev, asOf));
    hide SortedVlans, SortedSubnets, SortedObservations, ContextOf, All, AllVlanSubs, SubnetSubs, AllObservationSubs;
  }

  lemma FrontHasNoEdge(ev: Evidence, asOf: int, key: EdgeKey)
    ensures NoEdge(Front(ev, asOf), key)
  {
    var u := SortedSubnets(ev, asOf);
    hide SortedSubnets;
    forall x | x in SubnetSubs(u) ensures x.NodeSub? {
      SubnetSubsAre(u, x);
    }
  }

  lemma VlanEdgeKind(v: Vlan, x: Submission)
    requires x in VlanSubs(v) && x.EdgeSub?
    ensures x.edge.key.kind == VlanSubnet && x.edge.key.source == VlanNode(v.id) && x.edge.key.evidence == v.source
  {
  }

  lemma ObservationEdgeKind(c: Context, o: Observation, x: Submission)
    requires x in ObservationSubs(c, o) && x.EdgeSub?
    ensures x.edge.key.kind != VlanSubnet
  {
    hide SubnetFor;
  }

  lemma VlansOnlyJoinSubnets(ev: Evidence, asOf: int, key: EdgeKey)
    ensures key.kind != VlanSubnet ==> NoEdge(Front(ev, asOf) + AllVlanSubs(SortedVlans(ev, asOf)), key)
    ensures key.kind == VlanSubnet ==> NoEdge(Back(ev, asOf), key)
  {
    var v, c, o := SortedVlans(ev, asOf), ContextOf(ev, asOf), SortedObservations(ev, asOf);
    FrontHasNoEdge(ev, asOf, key);
    hide SortedVlans, SortedObservations, ContextOf, VlanSubs, ObservationSubs, Front;
    forall x | x in AllVlanSubs(v) && x.EdgeSub? ensures x.edge.key.kind == VlanSubnet {
      AllVlanSubsAre(v, x);
      var i :| 0 <= i < |v| && x in VlanSubs(v[i]);
      VlanEdgeKind(v[i], x);
    }
    forall x | x in AllObservationSubs(c, o) && x.EdgeSub? ensures x.edge.key.kind != VlanSubnet {
      AllObservationSubsAre(c, o, x);
      var i :| 0 <= i < |o| && x in ObservationSubs(c, o[i]);
      ObservationEdgeKind(c, o[i], x);
    }
  }

  ghost predicate KeptFromObservation(ev: Evidence, asOf: int, p: nat, e: Edge) {
    FirstEdge(SubsIn(ContextOf(ev, asOf)), SortedObservations(ev, asOf), p, e)
  }

  ghost predicate KeptFromVlan(ev: Evidence, asOf: int, p: nat, e: Edge) {
    FirstEdge(VlanSubs, SortedVlans(ev, asOf), p, e)
  }

  /** Every edge of the graph is from the first piece of evidence that submits it, and nothing before that
      piece submits one of the key that ranks as high. */
  lemma KeptFrom(ev: Evidence, asOf: int, key: EdgeKey) returns (p: nat)
    requires key in GraphOf(ev, asOf).board.edges
    ensures var e := GraphOf(ev, asOf).board.edges[key];
            if key.kind == VlanSubnet then KeptFromVlan(ev, asOf, p, e) else KeptFromObservation(ev, asOf, p, e)
  {
    VlansOnlyJoinSubnets(ev, asOf, key);
    FrontHasNoEdge(ev, asOf, key);
    hide AllSubs, Gather, All, Front, Back, SortedVlans, SortedObservations, ContextOf, VlanSubs, FirstEdge, TallyOf;
    if key.kind == VlanSubnet {
      AroundVlans(ev, asOf);
      p := KeptEdgeFrom(Front(ev, asOf), VlanSubs, SortedVlans(ev, asOf), Back(ev, asOf), key);
    } else {
      AroundObservations(ev, asOf);
      var front := Front(ev, asOf) + AllVlanSubs(SortedVlans(ev, asOf));
      p := KeptEdgeFrom(front, SubsIn(ContextOf(ev, asOf)), SortedObservations(ev, asOf), [], key);
    }
  }

  // ----- evidence that ties

  /** The observations of a sort key that comes first among all whose edge of the key ranks highest: one of
      them is open-ended, and one ends in the last moment. */
  ghost predicate TiedObservations(ev: Evidence, asOf: int, o: Observation, p: Observation, e: Edge, f: Edge) {
    && o in SortedObservations(ev, asOf) && p in SortedObservations(ev, asOf) && o.fact == p.fact
    && EdgeSub(e) in ObservationSubs(ContextOf(ev, asOf), o) && EdgeSub(f) in ObservationSubs(ContextOf(ev, asOf), p)
    && Tied(e, f) && IsMaximum(AllSubs(ev, asOf), e) && NoneEarlier(ev, asOf, o, e)
  }

  /** No observation that sorts before submits an edge of the key that ranks as high. */
  ghost predicate NoneEarlier(ev: Evidence, asOf: int, o: Observation, e: Edge) {
    forall z, x: Edge ::
      (z in SortedObservations(ev, asOf) && z.fact.order < o.fact.order && x.key == e.key
       && EdgeSub(x) in ObservationSubs(ContextOf(ev, asOf), z)) ==> Exceeds(e, x)
  }

  /** Two pieces of evidence for one VLAN from one source, joining it to one subnet by the highest ranking
      edge of the key: one open-ended, one ending in the last moment. */
  ghost predicate TiedVlans(ev: Evidence, asOf: int, v: Vlan, w: Vlan, e: Edge, f: Edge) {
    && v in SortedVlans(ev, asOf) && w in SortedVlans(ev, asOf) && v.id == w.id && v.source == w.source
    && EdgeSub(e) in VlanSubs(v) && EdgeSub(f) in VlanSubs(w) && Tied(e, f) && IsMaximum(AllSubs(ev, asOf), e)
  }

  ghost predicate SomeTie(ev: Evidence, asOf: int) {
    || (exists o, p, e, f :: TiedObservations(ev, asOf, o, p, e, f))
    || exists v, w, e, f :: TiedVlans(ev, asOf, v, w, e, f)
  }

  // ----- if order matters, evidence ties

  lemma {:induction false} ActiveObservationsAreOrdered(s: seq<Observation>, asOf: int)
    requires Ordered(ObservationBefore, s)
    ensures Ordered(ObservationBefore, ActiveObservations(s, asOf))
  {
    if s != [] {
      var n := |s| - 1;
      var before := ActiveObservations(s[..n], asOf);
      ActiveObservationsAreOrdered(s[..n], asOf);
      forall i | 0 <= i < |before| ensures !ObservationBefore(s[n], before[i]) {
        ActiveObservationsAre(s[..n], asOf, before[i]);
        var j :| 0 <= j < n && s[..n][j] == before[i];
        assert s[j] == before[i];
      }
      hide ObservationBefore, StandingOf;
    }
  }

  lemma ObservationsRank()
    ensures Ranks(ObservationBefore)
  {
  }

  lemma SortedObservationsAreOrdered(ev: Evidence, asOf: int)
    ensures Ordered(ObservationBefore, SortedObservations(ev, asOf))
  {
    ObservationsRank();
    SortOrders(ObservationBefore, ev.observations);
    ActiveObservationsAreOrdered(SortBy(ObservationBefore, ev.observations), asOf);
  }

  /** What stands behind an observation does not sort before it. */
  lemma StandsInFront(s: seq<Observation>, i: nat, j: nat)
    requires Ordered(ObservationBefore, s) && i < |s| && j < |s| && s[i].fact.order < s[j].fact.order
    ensures i < j
  {
    assert ObservationBefore(s[i], s[j]);
  }

  /** The observation an edge of one graph is from does not sort behind the one its tied partner in the other
      graph is from. */
  lemma NotBehind(a: Evidence, b: Evidence, asOf: int, p: nat, q: nat, e: Edge, f: Edge)
    requires SameEvidence(a, b) && OneEvidencePerCidr(a.subnets) && e.key == f.key && !Exceeds(f, e)
    requires KeptFromObservation(a, asOf, p, e) && KeptFromObservation(b, asOf, q, f)
    ensures SortedObservations(b, asOf)[q].fact.order <= SortedObservations(a, asOf)[p].fact.order
  {
    var s, t := SortedObservations(a, asOf), SortedObservations(b, asOf);
    SortedObservationsAreOrdered(b, asOf);
    ActiveEvidenceAgrees(a, b, asOf);
    ContextsOfSameEvidence(a, b, asOf);
    ObservationSubsAgree(ContextOf(a, asOf), ContextOf(b, asOf), s[p]);
    hide SortedObservations, SortedVlans, SortedSubnets, ContextOf, ObservationSubs, Exceeds;
    assert s[p] in t;
    var i :| 0 <= i < |t| && t[i] == s[p];
    assert EdgeSub(e) in SubsIn(ContextOf(b, asOf))(t[i]);
    if t[i].fact.order < t[q].fact.order {
      StandsInFront(t, i, q);
    }
  }

  lemma SortedIsEvidence(ev: Evidence, asOf: int, o: Observation)
    requires o in SortedObservations(ev, asOf)
    ensures o in ev.observations
  {
    ActiveObservationsAre(SortBy(ObservationBefore, ev.observations), asOf, o);
    SortKeeps(ObservationBefore, ev.observations);
  }

  lemma FirstIsNoneEarlier(ev: Evidence, asOf: int, p: nat, e: Edge)
    requires KeptFromObservation(ev, asOf, p, e)
    ensures NoneEarlier(ev, asOf, SortedObservations(ev, asOf)[p], e)
  {
    var s, c := SortedObservations(ev, asOf), ContextOf(ev, asOf);
    SortedObservationsAreOrdered(ev, asOf);
    hide SortedObservations, ContextOf, ObservationSubs, Exceeds;
    forall z, x: Edge | z in s && z.fact.order < s[p].fact.order && x.key == e.key && EdgeSub(x) in ObservationSubs(c, z)
      ensures Exceeds(e, x)
    {
      var j :| 0 <= j < |s| && s[j] == z;
      StandsInFront(s, j, p);
      assert EdgeSub(x) in SubsIn(c)(s[j]);
    }
  }

  lemma TiedKeptObservations(a: Evidence, b: Evidence, asOf: int, p: nat, q: nat, e: Edge, f: Edge)
    requires SameEvidence(a, b) && Distinct(a) && Tied(e, f) && IsMaximum(AllSubs(a, asOf), e)
    requires KeptFromObservation(a, asOf, p, e) && KeptFromObservation(b, asOf, q, f)
    ensures TiedObservations(a, asOf, SortedObservations(a, asOf)[p], SortedObservations(b, asOf)[q], e, f)
  {
    var x, y := SortedObservations(a, asOf)[p], SortedObservations(b, asOf)[q];
    NotBehind(a, b, asOf, p, q, e, f);
    BackAndForth(a, b, asOf);
    NotBehind(b, a, asOf, q, p, f, e);
    FirstIsNoneEarlier(a, asOf, p, e);
    ActiveEvidenceAgrees(a, b, asOf);
    ContextsOfSameEvidence(a, b, asOf);
    ObservationSubsAgree(ContextOf(a, asOf), ContextOf(b, asOf), y);
    SortedIsEvidence(a, asOf, x);
    SortedIsEvidence(a, asOf, y);
    hide SortedObservations, ContextOf, ObservationSubs, AllSubs, Exceeds, NoneEarlier, SortedVlans, SortedSubnets,
      OneEvidencePerCidr, NamesDiffer;
    assert x.fact.order == y.fact.order;
  }

  lemma BackAndForth(a: Evidence, b: Evidence, asOf: int)
    requires SameEvidence(a, b)
    ensures SameEvidence(b, a) && (OneEvidencePerCidr(a.subnets) ==> OneEvidencePerCidr(b.subnets))
  {
    SameElements(a.subnets, b.subnets);
    hide IsNetwork;
  }

  lemma TiedKeptVlans(a: Evidence, b: Evidence, asOf: int, p: nat, q: nat, e: Edge, f: Edge)
    requires SameEvidence(a, b) && Tied(e, f) && IsMaximum(AllSubs(a, asOf), e)
    requires KeptFromVlan(a, asOf, p, e) && KeptFromVlan(b, asOf, q, f)
    ensures TiedVlans(a, asOf, SortedVlans(a, asOf)[p], SortedVlans(b, asOf)[q], e, f)
  {
    var v, w := SortedVlans(a, asOf)[p], SortedVlans(b, asOf)[q];
    ActiveEvidenceAgrees(a, b, asOf);
    VlanEdgeKind(v, EdgeSub(e));
    VlanEdgeKind(w, EdgeSub(f));
    hide SortedVlans, SortedObservations, SortedSubnets, AllSubs, VlanSubs, Exceeds;
    assert w in SortedVlans(b, asOf);
  }

  lemma OrderMattersOnlyForTies(a: Evidence, b: Evidence, asOf: int)
    requires SameEvidence(a, b) && Distinct(a) && GraphOf(a, asOf) != GraphOf(b, asOf)
    ensures SomeTie(a, asOf)
  {
    OrderDecidesOnlyTies(a, b, asOf);
    var g, h := GraphOf(a, asOf).board.edges, GraphOf(b, asOf).board.edges;
    var k :| k in g && Tied(g[k], h[k]);
    EdgesAreMaxima(AllSubs(a, asOf), k);
    var p := KeptFrom(a, asOf, k);
    var q := KeptFrom(b, asOf, k);
    hide AllSubs, SortedObservations, SortedVlans, Tied, KeptFromObservation, KeptFromVlan, SameEvidence, Distinct,
      IsMaximum, Gather, TallyOf, TiedObservations, TiedVlans;
    if k.kind == VlanSubnet {
      TiedKeptVlans(a, b, asOf, p, q, g[k], h[k]);
    } else {
      TiedKeptObservations(a, b, asOf, p, q, g[k], h[k]);
    }
  }

  // ----- if evidence ties, order matters

  /** An element in front of all others. */
  function ToFront<T(==)>(s: seq<T>, x: T): seq<T>
    requires x in s
  {
    if s[0] == x then s else ([x] + [s[0]]) + ToFront(s[1..], x)[1..]
  }

  lemma {:induction false} ToFrontKeeps<T>(s: seq<T>, x: T)
    requires x in s
    ensures ToFront(s, x) != [] && ToFront(s, x)[0] == x && multiset(ToFront(s, x)) == multiset(s)
  {
    if s[0] != x {
      ToFrontKeeps(s[1..], x);
      var t := ToFront(s[1..], x);
      assert t == [x] + t[1..];
      assert s == [s[0]] + s[1..];
    }
  }

  lemma {:induction false} ActiveLeads(s: seq<Observation>, asOf: int, o: Observation, i: nat) returns (k: nat)
    requires LeadsAt(ObservationBefore, s, o, i) && StandingOf(TimeOf(o), asOf).Active?
    ensures LeadsAt(ObservationBefore, ActiveObservations(s, asOf), o, k)
  {
    var n := |s| - 1;
    var before := ActiveObservations(s[..n], asOf);
    hide StandingOf, ObservationBefore;
    if i < n {
      k := ActiveLeads(s[..n], asOf, o, i);
    } else {
      k := |before|;
      forall j | 0 <= j < |before| ensures ObservationBefore(before[j], o) {
        ActiveObservationsAre(s[..n], asOf, before[j]);
        var m :| 0 <= m < n && s[..n][m] == before[j];
        assert s[m] == before[j];
      }
    }
  }

  lemma {:induction false} ActiveVlanLeads(s: seq<Vlan>, asOf: int, v: Vlan, i: nat) returns (k: nat)
    requires LeadsAt(VlanBefore, s, v, i) && StandingOf(v.time, asOf).Active?
    ensures LeadsAt(VlanBefore, ActiveVlans(s, asOf), v, k)
  {
    var n := |s| - 1;
    var before := ActiveVlans(s[..n], asOf);
    hide StandingOf, VlanBefore;
    if i < n {
      k := ActiveVlanLeads(s[..n], asOf, v, i);
    } else {
      k := |before|;
      forall j | 0 <= j < |before| ensures VlanBefore(before[j], v) {
        ActiveVlansAre(s[..n], asOf, before[j]);
        var m :| 0 <= m < n && s[..n][m] == before[j];
        assert s[m] == before[j];
      }
    }
  }

  /** Put in front, an active observation comes first of its sort key. */
  lemma ObservationInFront(a: Evidence, asOf: int, o: Observation) returns (b: Evidence, k: nat)
    requires o in SortedObservations(a, asOf)
    ensures SameEvidence(a, b) && LeadsAt(ObservationBefore, SortedObservations(b, asOf), o, k)
  {
    SortedIsEvidence(a, asOf, o);
    ActiveObservationsAre(SortBy(ObservationBefore, a.observations), asOf, o);
    ToFrontKeeps(a.observations, o);
    b := a.(observations := ToFront(a.observations, o));
    hide ToFront, StandingOf;
    ObservationsRank();
    var i := FirstLeads(ObservationBefore, b.observations);
    k := ActiveLeads(SortBy(ObservationBefore, b.observations), asOf, o, i);
  }

  lemma VlanInFront(a: Evidence, asOf: int, v: Vlan) returns (b: Evidence, k: nat)
    requires v in SortedVlans(a, asOf)
    ensures SameEvidence(a, b) && LeadsAt(VlanBefore, SortedVlans(b, asOf), v, k)
  {
    SortKeeps(VlanBefore, a.vlans);
    ActiveVlansAre(SortBy(VlanBefore, a.vlans), asOf, v);
    ToFrontKeeps(a.vlans, v);
    b := a.(vlans := ToFront(a.vlans, v));
    hide ToFront, StandingOf;
    VlansRank();
    var i := FirstLeads(VlanBefore, b.vlans);
    k := ActiveVlanLeads(SortBy(VlanBefore, b.vlans), asOf, v, i);
  }

  /** The edge another order keeps under the key of a highest ranking one ranks the same. */
  lemma KeptRanksAlike(a: Evidence, b: Evidence, asOf: int, e: Edge)
    requires SameEvidence(a, b) && OneEvidencePerCidr(a.subnets) && IsMaximum(AllSubs(a, asOf), e)
    ensures e.key in GraphOf(b, asOf).board.edges
    ensures var d := GraphOf(b, asOf).board.edges[e.key]; d.key == e.key && !Exceeds(d, e) && !Exceeds(e, d)
  {
    SubmissionsFollow(a, b, asOf, EdgeSub(e));
    EdgesAreMaxima(AllSubs(b, asOf), e.key);
    hide AllSubs, Gather, Exceeds, TallyOf, OneEvidencePerCidr;
    assert EdgeSubmitted(AllSubs(b, asOf), e);
    var d := GraphOf(b, asOf).board.edges[e.key];
    SubmissionsFollow(a, b, asOf, EdgeSub(d));
    assert EdgeSubmitted(AllSubs(a, asOf), d);
  }

  /** With the observation in front, its end of validity is that of the kept edge. */
  lemma ObservationWins(a: Evidence, asOf: int, o: Observation, e: Edge) returns (b: Evidence)
    requires OneEvidencePerCidr(a.subnets) && o in SortedObservations(a, asOf)
    requires EdgeSub(e) in ObservationSubs(ContextOf(a, asOf), o)
    requires IsMaximum(AllSubs(a, asOf), e) && NoneEarlier(a, asOf, o, e)
    ensures SameEvidence(a, b) && e.key in GraphOf(b, asOf).board.edges
    ensures GraphOf(b, asOf).board.edges[e.key].validUntil == e.validUntil
  {
    var k: nat;
    b, k := ObservationInFront(a, asOf, o);
    KeptRanksAlike(a, b, asOf, e);
    var q := KeptFrom(b, asOf, e.key);
    ObservationEdgeKind(ContextOf(a, asOf), o, EdgeSub(e));
    hide SameEvidence, GraphOf;
    var d := GraphOf(b, asOf).board.edges[e.key];
    KeptIsLeader(a, b, asOf, o, e, d, k, q);
    ObservationEdgesCarryTime(ContextOf(a, asOf), o, EdgeSub(e));
    ObservationEdgesCarryTime(ContextOf(b, asOf), o, EdgeSub(d));
  }

  lemma KeptIsLeader(a: Evidence, b: Evidence, asOf: int, o: Observation, e: Edge, d: Edge, k: nat, q: nat)
    requires SameEvidence(a, b) && OneEvidencePerCidr(a.subnets)
    requires EdgeSub(e) in ObservationSubs(ContextOf(a, asOf), o) && NoneEarlier(a, asOf, o, e)
    requires LeadsAt(ObservationBefore, SortedObservations(b, asOf), o, k) && KeptFromObservation(b, asOf, q, d)
    requires d.key == e.key && !Exceeds(d, e) && !Exceeds(e, d)
    ensures EdgeSub(d) in ObservationSubs(ContextOf(b, asOf), o)
  {
    var c, t := ContextOf(b, asOf), SortedObservations(b, asOf);
    ActiveEvidenceAgrees(a, b, asOf);
    ContextsOfSameEvidence(a, b, asOf);
    hide SortedObservations, SortedVlans, SortedSubnets, ContextOf, ObservationSubs, Exceeds, LeadsAt, ContextsAgree;
    ObservationSubsAgree(ContextOf(a, asOf), c, o);
    ObservationSubsAgree(ContextOf(a, asOf), c, t[q]);
    assert t[q] in SortedObservations(a, asOf);
    LeaderSubmits(t, c, o, e, d, k, q);
  }

  lemma LeaderSubmits(t: seq<Observation>, c: Context, o: Observation, e: Edge, d: Edge, k: nat, q: nat)
    requires LeadsAt(ObservationBefore, t, o, k) && FirstEdge(SubsIn(c), t, q, d)
    requires EdgeSub(e) in ObservationSubs(c, o) && d.key == e.key && !Exceeds(d, e)
    requires !(t[q].fact.order < o.fact.order)
    ensures EdgeSub(d) in ObservationSubs(c, o)
  {
    hide ObservationSubs, Exceeds;
    assert EdgeSub(e) in SubsIn(c)(t[k]);
    assert EdgeSub(d) in SubsIn(c)(t[q]);
  }

  /** The same for a VLAN. */
  lemma VlanWins(a: Evidence, asOf: int, v: Vlan, e: Edge) returns (b: Evidence)
    requires OneEvidencePerCidr(a.subnets) && v in SortedVlans(a, asOf)
    requires EdgeSub(e) in VlanSubs(v) && IsMaximum(AllSubs(a, asOf), e)
    ensures SameEvidence(a, b) && e.key in GraphOf(b, asOf).board.edges
    ensures GraphOf(b, asOf).board.edges[e.key].validUntil == e.validUntil
  {
    var k: nat;
    b, k := VlanInFront(a, asOf, v);
    KeptRanksAlike(a, b, asOf, e);
    var q := KeptFrom(b, asOf, e.key);
    VlanEdgeKind(v, EdgeSub(e));
    hide SameEvidence, GraphOf;
    var d := GraphOf(b, asOf).board.edges[e.key];
    KeptIsLeadingVlan(SortedVlans(b, asOf), v, e, d, k, q);
    VlanEdgesCarryTime(v, EdgeSub(e));
    VlanEdgesCarryTime(v, EdgeSub(d));
  }

  lemma KeptIsLeadingVlan(t: seq<Vlan>, v: Vlan, e: Edge, d: Edge, k: nat, q: nat)
    requires EdgeSub(e) in VlanSubs(v) && LeadsAt(VlanBefore, t, v, k) && FirstEdge(VlanSubs, t, q, d)
    requires d.key == e.key && !Exceeds(d, e)
    ensures EdgeSub(d) in VlanSubs(v)
  {
    VlanEdgeKind(v, EdgeSub(e));
    VlanEdgeKind(t[q], EdgeSub(d));
    hide VlanSubs, Exceeds;
    assert EdgeSub(e) in VlanSubs(t[k]);
  }

  lemma TiedIsMaximum(subs: seq<Submission>, e: Edge, f: Edge)
    requires IsMaximum(subs, e) && Tied(e, f) && EdgeSubmitted(subs, f)
    ensures IsMaximum(subs, f)
  {
    forall x: Edge | EdgeSubmitted(subs, x) && x.key == f.key ensures !Exceeds(x, f) {
      assert !Exceeds(x, e);
    }
  }

  lemma TiesDiffer(a: Evidence, asOf: int) returns (b: Evidence)
    requires Distinct(a) && SomeTie(a, asOf)
    ensures SameEvidence(a, b) && GraphOf(a, asOf) != GraphOf(b, asOf)
  {
    var one, other, key := TwoWinners(a, asOf);
    b := if GraphOf(a, asOf) != GraphOf(one, asOf) then one else other;
    hide GraphOf, SameEvidence;
  }

  lemma TwoWinners(a: Evidence, asOf: int) returns (one: Evidence, other: Evidence, key: EdgeKey)
    requires Distinct(a) && SomeTie(a, asOf)
    ensures SameEvidence(a, one) && SameEvidence(a, other) && key in GraphOf(one, asOf).board.edges
    ensures key in GraphOf(other, asOf).board.edges
    ensures GraphOf(one, asOf).board.edges[key] != GraphOf(other, asOf).board.edges[key]
  {
    hide GraphOf, SameEvidence, IsMaximum, AllSubs, SortedObservations, SortedVlans, ContextOf, ObservationSubs, VlanSubs,
      NoneEarlier;
    if o, p, e, f :| TiedObservations(a, asOf, o, p, e, f) {
      PartnerIsGreatest(a, asOf, o, p, e, f);
      one := ObservationWins(a, asOf, o, e);
      other := ObservationWins(a, asOf, p, f);
      key := e.key;
    } else {
      var v, w, e, f :| TiedVlans(a, asOf, v, w, e, f);
      VlanPartnerIsGreatest(a, asOf, v, w, e, f);
      one := VlanWins(a, asOf, v, e);
      other := VlanWins(a, asOf, w, f);
      key := e.key;
    }
  }

  lemma PartnerIsGreatest(a: Evidence, asOf: int, o: Observation, p: Observation, e: Edge, f: Edge)
    requires TiedObservations(a, asOf, o, p, e, f)
    ensures IsMaximum(AllSubs(a, asOf), f) && NoneEarlier(a, asOf, p, f)
  {
    SubmittersAre(a, asOf, EdgeSub(f));
    var s := SortedObservations(a, asOf);
    hide AllSubs, SortedObservations, SortedVlans, SortedSubnets, ContextOf, ObservationSubs, ByVlan, BySubnet;
    var i :| 0 <= i < |s| && s[i] == p;
    assert EdgeSub(f) in ObservationSubs(ContextOf(a, asOf), s[i]);
    TiedIsMaximum(AllSubs(a, asOf), e, f);
  }

  lemma VlanPartnerIsGreatest(a: Evidence, asOf: int, v: Vlan, w: Vlan, e: Edge, f: Edge)
    requires TiedVlans(a, asOf, v, w, e, f)
    ensures IsMaximum(AllSubs(a, asOf), f)
  {
    SubmittersAre(a, asOf, EdgeSub(f));
    var s := SortedVlans(a, asOf);
    hide AllSubs, SortedObservations, SortedVlans, SortedSubnets, ContextOf, VlanSubs, ByObservation, BySubnet;
    var i :| 0 <= i < |s| && s[i] == w;
    assert EdgeSub(f) in VlanSubs(s[i]);
    TiedIsMaximum(AllSubs(a, asOf), e, f);
  }

  /** Some other order of the same evidence gives another graph if and only if two pieces of evidence with
      one sort key tie: of the highest ranking edges of some key, taken from the pieces that sort first,
      one is open-ended and one ends in the last moment. */
  lemma OrderMattersExactly(a: Evidence, asOf: int)
    requires Distinct(a)
    ensures (exists b :: SameEvidence(a, b) && GraphOf(a, asOf) != GraphOf(b, asOf)) <==> SomeTie(a, asOf)
  {
    hide SameEvidence, GraphOf, SomeTie, Distinct;
    if b :| SameEvidence(a, b) && GraphOf(a, asOf) != GraphOf(b, asOf) {
      OrderMattersOnlyForTies(a, b, asOf);
    }
    if SomeTie(a, asOf) {
      var b := TiesDiffer(a, asOf);
    }
  }
}
