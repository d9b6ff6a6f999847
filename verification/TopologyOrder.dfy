/** The topology graph does not depend on the order in which its evidence is given. */
module TopologyOrder {
  import opened Options
  import opened Ipv4
  import opened Sorting
  import opened Topology
  import opened TopologyGraph
  import opened TopologyPieces

  /** The same evidence, in any order. */
  ghost predicate SameEvidence(a: Evidence, b: Evidence) {
    && a.local == b.local && a.localName == b.localName && multiset(a.subnets) == multiset(b.subnets)
    && multiset(a.vlans) == multiset(b.vlans) && multiset(a.observations) == multiset(b.observations)
  }

  ghost predicate OneEvidencePerCidr(s: seq<Subnet>) {
    (forall x :: x in s ==> IsNetwork(x.net)) && forall x, y :: x in s && y in s && x.net == y.net ==> x == y
  }

  predicate Alike(a: Option<Text>, b: Option<Text>) {
    a.Some? && b.Some? && a.value.folded == b.value.folded
  }

  /** No two names of one VLAN from one source differ only in case. */
  ghost predicate NamesDiffer(s: seq<Vlan>) {
    forall x, y :: x in s && y in s && x.id == y.id && x.source == y.source && Alike(x.name, y.name) ==> x.name == y.name
  }

  /** The sort key has the time, kind, source and fields of an observation in it. */
  ghost predicate OrderDetermines(s: seq<Observation>) {
    forall x, y :: x in s && y in s && x.fact.order == y.fact.order ==> x.fact == y.fact
  }

  /** No explicit end of validity is the last representable moment, which also stands for none. */
  ghost predicate EndsAreEarly(ev: Evidence) {
    && (forall x :: x in ev.vlans ==> x.time.validUntil != Some(MAX_TIME))
    && forall x :: x in ev.observations ==> x.validUntil != Some(MAX_TIME)
  }

  ghost predicate Distinct(ev: Evidence) {
    OneEvidencePerCidr(ev.subnets) && NamesDiffer(ev.vlans) && OrderDetermines(ev.observations)
  }

  ghost predicate Unambiguous(ev: Evidence) {
    Distinct(ev) && EndsAreEarly(ev)
  }

  // ----- sums over a sequence do not depend on its order

  function Sum<T>(g: T -> nat, s: seq<T>): nat {
    if s == [] then 0 else Sum(g, s[..|s| - 1]) + g(s[|s| - 1])
  }

  lemma {:induction false} SumRemove<T>(g: T -> nat, s: seq<T>, j: nat)
    requires j < |s|
    ensures Sum(g, s) == Sum(g, s[..j] + s[j + 1..]) + g(s[j])
  {
    var n := |s| - 1;
    if j == n {
      assert s[..j] + s[j + 1..] == s[..n];
    } else {
      SumRemove(g, s[..n], j);
      var rest := s[..j] + s[j + 1..];
      assert rest[..|rest| - 1] == s[..n][..j] + s[..n][j + 1..];
    }
  }

  lemma RemoveMultiset<T>(s: seq<T>, j: nat)
    requires j < |s|
    ensures multiset(s[..j] + s[j + 1..]) == multiset(s) - multiset{s[j]}
  {
    assert s == s[..j] + [s[j]] + s[j + 1..];
  }

  lemma {:induction false} SumPermutes<T>(g: T -> nat, s: seq<T>, t: seq<T>)
    requires multiset(s) == multiset(t)
    ensures Sum(g, s) == Sum(g, t)
    decreases |s|
  {
    SameElements(s, t);
    if s != [] {
      var n := |s| - 1;
      assert s[n] in multiset(s) && s[n] in multiset(t);
      var j :| 0 <= j < |t| && t[j] == s[n];
      assert s[..n] + s[n + 1..] == s[..n];
      RemoveMultiset(s, n);
      RemoveMultiset(t, j);
      SumRemove(g, t, j);
      SumPermutes(g, s[..n], t[..j] + t[j + 1..]);
    }
  }

  // ----- the counts

  function SubnetIs(asOf: int, w: Standing): Subnet -> nat {
    (x: Subnet) => if StandingOf(x.time, asOf) == w then 1 else 0
  }

  function VlanIs(asOf: int, w: Standing): Vlan -> nat {
    (x: Vlan) => if StandingOf(x.time, asOf) == w then 1 else 0
  }

  function ObservationIs(asOf: int, w: Standing): Observation -> nat {
    (x: Observation) => if StandingOf(TimeOf(x), asOf) == w then 1 else 0
  }

  lemma {:induction false} SubnetTallyIsSum(t: Tally, s: seq<Subnet>, asOf: int)
    ensures TallySubnets(t, s, asOf)
         == Tally(t.expired + Sum(SubnetIs(asOf, Expired), s), t.future + Sum(SubnetIs(asOf, Future), s))
  {
    if s != [] {
      SubnetTallyIsSum(t, s[..|s| - 1], asOf);
    }
  }

  lemma {:induction false} VlanTallyIsSum(t: Tally, s: seq<Vlan>, asOf: int)
    ensures TallyVlans(t, s, asOf)
         == Tally(t.expired + Sum(VlanIs(asOf, Expired), s), t.future + Sum(VlanIs(asOf, Future), s))
  {
    if s != [] {
      VlanTallyIsSum(t, s[..|s| - 1], asOf);
    }
  }

  lemma {:induction false} ObservationTallyIsSum(t: Tally, s: seq<Observation>, asOf: int)
    ensures TallyObservations(t, s, asOf)
         == Tally(t.expired + Sum(ObservationIs(asOf, Expired), s), t.future + Sum(ObservationIs(asOf, Future), s))
  {
    if s != [] {
      ObservationTallyIsSum(t, s[..|s| - 1], asOf);
    }
  }

  lemma SortsAgree<T>(before: (T, T) -> bool, s: seq<T>, t: seq<T>)
    requires multiset(s) == multiset(t)
    ensures multiset(SortBy(before, s)) == multiset(SortBy(before, t))
  {
    SortKeeps(before, s);
    SortKeeps(before, t);
  }

  lemma TalliesAgree(a: Evidence, b: Evidence, asOf: int)
    requires SameEvidence(a, b)
    ensures TallyOf(a, asOf) == TallyOf(b, asOf)
  {
    hide SortBy;
    var zero := Tally(0, 0);
    SortsAgree(CidrBefore, a.subnets, b.subnets);
    SortsAgree(VlanBefore, a.vlans, b.vlans);
    SortsAgree(ObservationBefore, a.observations, b.observations);
    SubnetTalliesAgree(zero, SortBy(CidrBefore, a.subnets), SortBy(CidrBefore, b.subnets), asOf);
    var s := TallySubnets(zero, SortBy(CidrBefore, a.subnets), asOf);
    VlanTalliesAgree(s, SortBy(VlanBefore, a.vlans), SortBy(VlanBefore, b.vlans), asOf);
    var v := TallyVlans(s, SortBy(VlanBefore, a.vlans), asOf);
    ObservationTalliesAgree(v, SortBy(ObservationBefore, a.observations), SortBy(ObservationBefore, b.observations), asOf);
  }

  lemma SubnetTalliesAgree(t: Tally, x: seq<Subnet>, y: seq<Subnet>, asOf: int)
    requires multiset(x) == multiset(y)
    ensures TallySubnets(t, x, asOf) == TallySubnets(t, y, asOf)
  {
    SubnetTallyIsSum(t, x, asOf);
    SubnetTallyIsSum(t, y, asOf);
    SumPermutes(SubnetIs(asOf, Expired), x, y);
    SumPermutes(SubnetIs(asOf, Future), x, y);
  }

  lemma VlanTalliesAgree(t: Tally, x: seq<Vlan>, y: seq<Vlan>, asOf: int)
    requires multiset(x) == multiset(y)
    ensures TallyVlans(t, x, asOf) == TallyVlans(t, y, asOf)
  {
    VlanTallyIsSum(t, x, asOf);
    VlanTallyIsSum(t, y, asOf);
    SumPermutes(VlanIs(asOf, Expired), x, y);
    SumPermutes(VlanIs(asOf, Future), x, y);
  }

  lemma ObservationTalliesAgree(t: Tally, x: seq<Observation>, y: seq<Observation>, asOf: int)
    requires multiset(x) == multiset(y)
    ensures TallyObservations(t, x, asOf) == TallyObservations(t, y, asOf)
  {
    ObservationTallyIsSum(t, x, asOf);
    ObservationTallyIsSum(t, y, asOf);
    SumPermutes(ObservationIs(asOf, Expired), x, y);
    SumPermutes(ObservationIs(asOf, Future), x, y);
  }

  // ----- the same is submitted

  ghost predicate SameSubnets(x: seq<Subnet>, y: seq<Subnet>) { forall s: Subnet :: s in x <==> s in y }
  ghost predicate SameVlans(x: seq<Vlan>, y: seq<Vlan>) { forall s: Vlan :: s in x <==> s in y }
  ghost predicate SameObservations(x: seq<Observation>, y: seq<Observation>) { forall s: Observation :: s in x <==> s in y }

  lemma ActiveEvidenceAgrees(a: Evidence, b: Evidence, asOf: int)
    requires SameEvidence(a, b)
    ensures SameSubnets(SortedSubnets(a, asOf), SortedSubnets(b, asOf))
    ensures SameVlans(SortedVlans(a, asOf), SortedVlans(b, asOf))
    ensures SameObservations(SortedObservations(a, asOf), SortedObservations(b, asOf))
  {
    hide SortBy, StandingOf, ActiveSubnets, ActiveVlans, ActiveObservations;
    SortsAgree(CidrBefore, a.subnets, b.subnets);
    SortsAgree(VlanBefore, a.vlans, b.vlans);
    SortsAgree(ObservationBefore, a.observations, b.observations);
    var sa, sb := SortBy(CidrBefore, a.subnets), SortBy(CidrBefore, b.subnets);
    var va, vb := SortBy(VlanBefore, a.vlans), SortBy(VlanBefore, b.vlans);
    var oa, ob := SortBy(ObservationBefore, a.observations), SortBy(ObservationBefore, b.observations);
    SameElements(sa, sb);
    SameElements(va, vb);
    SameElements(oa, ob);
    forall s: Subnet ensures s in SortedSubnets(a, asOf) <==> s in SortedSubnets(b, asOf) {
      ActiveSubnetsAre(sa, asOf, s);
      ActiveSubnetsAre(sb, asOf, s);
    }
    forall s: Vlan ensures s in SortedVlans(a, asOf) <==> s in SortedVlans(b, asOf) {
      ActiveVlansAre(va, asOf, s);
      ActiveVlansAre(vb, asOf, s);
    }
    forall s: Observation ensures s in SortedObservations(a, asOf) <==> s in SortedObservations(b, asOf) {
      ActiveObservationsAre(oa, asOf, s);
      ActiveObservationsAre(ob, asOf, s);
    }
  }

  lemma SubnetForAgrees(address: nat, x: seq<Subnet>, y: seq<Subnet>)
    requires SameSubnets(x, y) && OneEvidencePerCidr(x)
    ensures SubnetFor(address, x) == SubnetFor(address, y)
  {
    SubnetForIsOne(address, x);
    SubnetForIsOne(address, y);
    hide SubnetFor, IsNetwork, Contains;
    var p, q := SubnetFor(address, x), SubnetFor(address, y);
    if p.Some? && q.Some? {
      NetworksNest(p.value.net, q.value.net, address);
    }
  }

  ghost predicate ContextsAgree(c: Context, d: Context) {
    c.local == d.local && c.vlans == d.vlans && forall a: nat :: SubnetFor(a, c.subnets) == SubnetFor(a, d.subnets)
  }

  lemma ObservationSubsAgree(c: Context, d: Context, o: Observation)
    requires ContextsAgree(c, d)
    ensures ObservationSubs(c, o) == ObservationSubs(d, o)
  {
    hide SubnetFor;
  }

  lemma {:induction false} VlanIdsAre(s: seq<Vlan>, id: nat)
    ensures id in VlanIds(s) <==> exists i :: 0 <= i < |s| && s[i].id == id
  {
    if s != [] {
      var n := |s| - 1;
      VlanIdsAre(s[..n], id);
      if id in VlanIds(s[..n]) {
        var i :| 0 <= i < n && s[..n][i].id == id;
        assert s[i].id == id;
      }
      if exists i :: 0 <= i < |s| && s[i].id == id {
        var i :| 0 <= i < |s| && s[i].id == id;
        assert i < n ==> s[..n][i].id == id;
      }
    }
  }

  lemma VlanIdsAgree(x: seq<Vlan>, y: seq<Vlan>)
    requires SameVlans(x, y)
    ensures VlanIds(x) == VlanIds(y)
  {
    forall id: nat ensures id in VlanIds(x) <==> id in VlanIds(y) {
      VlanIdsAre(x, id);
      VlanIdsAre(y, id);
      if id in VlanIds(x) {
        var i :| 0 <= i < |x| && x[i].id == id;
        assert x[i] in y;
      }
      if id in VlanIds(y) {
        var i :| 0 <= i < |y| && y[i].id == id;
        assert y[i] in x;
      }
    }
    hide VlanIds;
    assert VlanIds(x) == VlanIds(y);
  }

  lemma BySubnetAgrees(x: seq<Subnet>, y: seq<Subnet>, s: Submission)
    requires SameSubnets(x, y) && BySubnet(x, s)
    ensures BySubnet(y, s)
  {
    var i :| 0 <= i < |x| && s == NodeSub(SubnetNode(x[i].net), Cidr);
    assert x[i] in y;
  }

  lemma ByVlanAgrees(x: seq<Vlan>, y: seq<Vlan>, s: Submission)
    requires SameVlans(x, y) && ByVlan(x, s)
    ensures ByVlan(y, s)
  {
    hide VlanSubs;
    var i :| 0 <= i < |x| && s in VlanSubs(x[i]);
    assert x[i] in y;
  }

  lemma ByObservationAgrees(c: Context, d: Context, x: seq<Observation>, y: seq<Observation>, s: Submission)
    requires ContextsAgree(c, d) && SameObservations(x, y) && ByObservation(c, x, s)
    ensures ByObservation(d, y, s)
  {
    var i :| 0 <= i < |x| && s in ObservationSubs(c, x[i]);
    ObservationSubsAgree(c, d, x[i]);
    hide ObservationSubs;
    assert x[i] in y;
  }

  lemma ContextsOfSameEvidence(a: Evidence, b: Evidence, asOf: int)
    requires SameEvidence(a, b) && OneEvidencePerCidr(a.subnets)
    ensures ContextsAgree(ContextOf(a, asOf), ContextOf(b, asOf)) && ContextsAgree(ContextOf(b, asOf), ContextOf(a, asOf))
  {
    ActiveEvidenceAgrees(a, b, asOf);
    SortKeeps(CidrBefore, a.subnets);
    forall s: Subnet | s in SortedSubnets(a, asOf) ensures s in a.subnets {
      ActiveSubnetsAre(SortBy(CidrBefore, a.subnets), asOf, s);
    }
    hide SortedSubnets, SortedVlans, VlanIds, IsNetwork, SortBy;
    VlanIdsAgree(SortedVlans(a, asOf), SortedVlans(b, asOf));
    forall address: nat ensures SubnetFor(address, SortedSubnets(a, asOf)) == SubnetFor(address, SortedSubnets(b, asOf)) {
      SubnetForAgrees(address, SortedSubnets(a, asOf), SortedSubnets(b, asOf));
    }
  }

  lemma SubmissionsFollow(a: Evidence, b: Evidence, asOf: int, x: Submission)
    requires SameEvidence(a, b) && OneEvidencePerCidr(a.subnets)
    ensures x in AllSubs(a, asOf) <==> x in AllSubs(b, asOf)
  {
    ActiveEvidenceAgrees(a, b, asOf);
    ContextsOfSameEvidence(a, b, asOf);
    SubmittersAre(a, asOf, x);
    SubmittersAre(b, asOf, x);
    hide AllSubs, ContextOf, SortedSubnets, SortedVlans, SortedObservations, ContextsAgree, BySubnet, ByVlan, ByObservation,
      SameSubnets, SameVlans, SameObservations;
    SubmittersFollow(a, b, asOf, x);
    SameIsSymmetric(a, b, asOf);
    SubmittersFollow(b, a, asOf, x);
  }

  ghost predicate HasSubmitter(ev: Evidence, asOf: int, x: Submission) {
    || BySubnet(SortedSubnets(ev, asOf), x) || ByVlan(SortedVlans(ev, asOf), x)
    || ByObservation(ContextOf(ev, asOf), SortedObservations(ev, asOf), x)
  }

  lemma SameIsSymmetric(a: Evidence, b: Evidence, asOf: int)
    requires SameSubnets(SortedSubnets(a, asOf), SortedSubnets(b, asOf))
    requires SameVlans(SortedVlans(a, asOf), SortedVlans(b, asOf))
    requires SameObservations(SortedObservations(a, asOf), SortedObservations(b, asOf))
    ensures SameSubnets(SortedSubnets(b, asOf), SortedSubnets(a, asOf))
    ensures SameVlans(SortedVlans(b, asOf), SortedVlans(a, asOf))
    ensures SameObservations(SortedObservations(b, asOf), SortedObservations(a, asOf))
  {
    hide SortedSubnets, SortedVlans, SortedObservations;
  }

  lemma SubmittersFollow(a: Evidence, b: Evidence, asOf: int, x: Submission)
    requires SameSubnets(SortedSubnets(a, asOf), SortedSubnets(b, asOf))
    requires SameVlans(SortedVlans(a, asOf), SortedVlans(b, asOf))
    requires SameObservations(SortedObservations(a, asOf), SortedObservations(b, asOf))
    requires ContextsAgree(ContextOf(a, asOf), ContextOf(b, asOf))
    ensures HasSubmitter(a, asOf, x) ==> HasSubmitter(b, asOf, x)
  {
    hide ContextOf, SortedSubnets, SortedVlans, SortedObservations, ContextsAgree, BySubnet, ByVlan, ByObservation,
      SameSubnets, SameVlans, SameObservations;
    if BySubnet(SortedSubnets(a, asOf), x) {
      BySubnetAgrees(SortedSubnets(a, asOf), SortedSubnets(b, asOf), x);
    } else if ByVlan(SortedVlans(a, asOf), x) {
      ByVlanAgrees(SortedVlans(a, asOf), SortedVlans(b, asOf), x);
    } else if ByObservation(ContextOf(a, asOf), SortedObservations(a, asOf), x) {
      ByObservationAgrees(ContextOf(a, asOf), ContextOf(b, asOf), SortedObservations(a, asOf), SortedObservations(b, asOf), x);
    }
  }

  // ----- the same edges

  lemma SubmittedEndsAreEarly(ev: Evidence, asOf: int, e: Edge)
    requires EndsAreEarly(ev) && EdgeSubmitted(AllSubs(ev, asOf), e)
    ensures e.validUntil != Some(MAX_TIME)
  {
    SubmittersAre(ev, asOf, EdgeSub(e));
    SortKeeps(VlanBefore, ev.vlans);
    SortKeeps(ObservationBefore, ev.observations);
    hide AllSubs, VlanSubs, ObservationSubs, SortBy, SubnetFor, StandingOf;
    if ByVlan(SortedVlans(ev, asOf), EdgeSub(e)) {
      var s := SortedVlans(ev, asOf);
      var i :| 0 <= i < |s| && EdgeSub(e) in VlanSubs(s[i]);
      ActiveVlansAre(SortBy(VlanBefore, ev.vlans), asOf, s[i]);
      VlanEdgesCarryTime(s[i], EdgeSub(e));
    } else {
      var c, s := ContextOf(ev, asOf), SortedObservations(ev, asOf);
      var i :| 0 <= i < |s| && EdgeSub(e) in ObservationSubs(c, s[i]);
      ActiveObservationsAre(SortBy(ObservationBefore, ev.observations), asOf, s[i]);
      ObservationEdgesCarryTime(c, s[i], EdgeSub(e));
    }
  }

  lemma MaximaAreEqual(e: Edge, f: Edge)
    requires e.key == f.key && !Exceeds(e, f) && !Exceeds(f, e)
    requires e.validUntil != Some(MAX_TIME) && f.validUntil != Some(MAX_TIME)
    ensures e == f
  {
  }

  /** The edges of one key are maximal among the same submissions. */
  lemma EdgesRankAlike(a: Evidence, b: Evidence, asOf: int, key: EdgeKey)
    requires SameEvidence(a, b) && OneEvidencePerCidr(a.subnets)
    ensures var g, h := GraphOf(a, asOf).board.edges, GraphOf(b, asOf).board.edges;
            && (key in g <==> key in h)
            && (key in g ==>
                  && g[key].key == key == h[key].key && !Exceeds(g[key], h[key]) && !Exceeds(h[key], g[key])
                  && EdgeSubmitted(AllSubs(a, asOf), g[key]) && EdgeSubmitted(AllSubs(a, asOf), h[key]))
  {
    var s, t := AllSubs(a, asOf), AllSubs(b, asOf);
    EdgesAreMaxima(s, key);
    EdgesAreMaxima(t, key);
    hide AllSubs, Gather, Exceeds;
    var g, h := GraphOf(a, asOf).board.edges, GraphOf(b, asOf).board.edges;
    if key in g {
      SubmissionsFollow(a, b, asOf, EdgeSub(g[key]));
      assert EdgeSubmitted(t, g[key]);
    }
    if key in h {
      SubmissionsFollow(a, b, asOf, EdgeSub(h[key]));
      assert EdgeSubmitted(s, h[key]);
    }
  }

  lemma EdgesAgree(a: Evidence, b: Evidence, asOf: int, key: EdgeKey)
    requires SameEvidence(a, b) && Unambiguous(a)
    ensures var g, h := GraphOf(a, asOf).board.edges, GraphOf(b, asOf).board.edges;
            (key in g <==> key in h) && (key in g ==> g[key] == h[key])
  {
    EdgesRankAlike(a, b, asOf, key);
    hide AllSubs, Gather, Exceeds;
    var g, h := GraphOf(a, asOf).board.edges, GraphOf(b, asOf).board.edges;
    if key in g {
      SubmittedEndsAreEarly(a, asOf, g[key]);
      SubmittedEndsAreEarly(a, asOf, h[key]);
      MaximaAreEqual(g[key], h[key]);
    }
  }

  // ----- the same labels

  lemma VlansRank()
    ensures Ranks(VlanBefore)
  {
  }

  lemma {:induction false} ActiveVlansAreOrdered(s: seq<Vlan>, asOf: int)
    requires Ordered(VlanBefore, s)
    ensures Ordered(VlanBefore, ActiveVlans(s, asOf))
  {
    if s != [] {
      var n := |s| - 1;
      var before := ActiveVlans(s[..n], asOf);
      ActiveVlansAreOrdered(s[..n], asOf);
      forall i | 0 <= i < |before| ensures !VlanBefore(s[n], before[i]) {
        ActiveVlansAre(s[..n], asOf, before[i]);
        var j :| 0 <= j < n && s[..n][j] == before[i];
        assert s[j] == before[i];
      }
      hide VlanBefore, StandingOf;
    }
  }

  lemma SortedVlansAreOrdered(ev: Evidence, asOf: int)
    ensures Ordered(VlanBefore, SortedVlans(ev, asOf))
  {
    VlansRank();
    SortOrders(VlanBefore, ev.vlans);
    ActiveVlansAreOrdered(SortBy(VlanBefore, ev.vlans), asOf);
  }

  /** The name of a VLAN is from the first source of all active evidence with a name of the same rank. */
  ghost predicate NamedBy(s: seq<Vlan>, v: Vlan, id: nat, name: Text) {
    && v in s && v.id == id && v.name == Some(name)
    && forall w :: w in s && w.id == id && Alike(w.name, v.name) ==> v.source <= w.source
  }

  /** What is submitted before the VLANs, and behind them. */
  function Front(ev: Evidence, asOf: int): seq<Submission> {
    [DeviceSub(ev.local, ev.localName)] + SubnetSubs(SortedSubnets(ev, asOf))
  }

  function Back(ev: Evidence, asOf: int): seq<Submission> {
    AllObservationSubs(ContextOf(ev, asOf), SortedObservations(ev, asOf))
  }

  lemma AroundVlans(ev: Evidence, asOf: int)
    ensures AllSubs(ev, asOf) == Front(ev, asOf) + All(VlanSubs, SortedVlans(ev, asOf)) + Back(ev, asOf)
  {
    VlansSubmit(SortedVlans(ev, asOf));
    hide SortedVlans, SortedSubnets, SortedObservations, ContextOf, All, AllVlanSubs, SubnetSubs, AllObservationSubs;
  }

  lemma FirstIsEarliest(s: seq<Vlan>, p: nat, id: nat, name: Text)
    requires Ordered(VlanBefore, s) && FirstLabel(VlanSubs, s, p, VlanNode(id), NamedVlan(name))
    ensures p < |s| && NamedBy(s, s[p], id, name)
  {
    forall w | w in s && w.id == id && Alike(w.name, s[p].name) ensures s[p].source <= w.source {
      assert NodeSub(VlanNode(id), NamedVlan(w.name.value)) in VlanSubs(w);
      var q :| 0 <= q < |s| && s[q] == w;
      hide VlanSubs;
      assert w.source < s[p].source ==> VlanBefore(s[q], s[p]);
    }
  }

  lemma NameIsEarliest(ev: Evidence, asOf: int, id: nat, name: Text) returns (v: Vlan)
    requires Pick(None, AllSubs(ev, asOf), VlanNode(id)) == Some(NamedVlan(name))
    ensures NamedBy(SortedVlans(ev, asOf), v, id, name)
  {
    hide Pick, AllSubs, SortedVlans, All, Front, Back, VlanSubs, Ordered, NamedBy, FirstLabel, NoLabel;
    var s := SortedVlans(ev, asOf);
    SortedVlansAreOrdered(ev, asOf);
    NamedIsKnown(ev, asOf, id, name);
    AroundVlans(ev, asOf);
    NobodyElseNames(ev, asOf, id);
    var p := PickedFrom(Front(ev, asOf), VlanSubs, s, Back(ev, asOf), VlanNode(id));
    FirstIsEarliest(s, p, id, name);
    v := s[p];
  }

  lemma NamedIsKnown(ev: Evidence, asOf: int, id: nat, name: Text)
    requires Pick(None, AllSubs(ev, asOf), VlanNode(id)) == Some(NamedVlan(name))
    ensures id in ContextOf(ev, asOf).vlans
  {
    PickIsMinimum(AllSubs(ev, asOf), VlanNode(id));
    SubmittersAre(ev, asOf, NodeSub(VlanNode(id), NamedVlan(name)));
    hide AllSubs, Pick, SortBy, ObservationSubs, SubnetFor;
    var x := NodeSub(VlanNode(id), NamedVlan(name));
    assert NodeSubmitted(AllSubs(ev, asOf), VlanNode(id), NamedVlan(name));
    if ByVlan(SortedVlans(ev, asOf), x) {
      var s := SortedVlans(ev, asOf);
      var i :| 0 <= i < |s| && x in VlanSubs(s[i]);
      VlanIdsAre(s, id);
    } else {
      var c, s := ContextOf(ev, asOf), SortedObservations(ev, asOf);
      var i :| 0 <= i < |s| && x in ObservationSubs(c, s[i]);
      ObservationsNamePlainVlans(c, s[i], VlanNode(id), NamedVlan(name));
    }
  }

  lemma ObservationsLeaveKnownVlans(c: Context, o: Observation, x: Submission)
    requires x in ObservationSubs(c, o) && x.NodeSub? && x.id.VlanNode?
    ensures x.id.vlan !in c.vlans
  {
    hide SubnetFor;
  }

  lemma NobodyElseNames(ev: Evidence, asOf: int, id: nat)
    requires id in ContextOf(ev, asOf).vlans
    ensures NoLabel(Front(ev, asOf), VlanNode(id)) && NoLabel(Back(ev, asOf), VlanNode(id))
  {
    var c, o, u := ContextOf(ev, asOf), SortedObservations(ev, asOf), SortedSubnets(ev, asOf);
    hide ObservationSubs, SortedObservations, SortedSubnets, ContextOf;
    forall x | x in SubnetSubs(u) ensures x.NodeSub? ==> x.id != VlanNode(id) {
      SubnetSubsAre(u, x);
    }
    forall x | x in AllObservationSubs(c, o) && x.NodeSub? ensures x.id != VlanNode(id) {
      AllObservationSubsAre(c, o, x);
      var i :| 0 <= i < |o| && x in ObservationSubs(c, o[i]);
      if x.id.VlanNode? {
        ObservationsLeaveKnownVlans(c, o[i], x);
      }
    }
  }

  lemma NamesAgree(a: Evidence, b: Evidence, asOf: int, id: nat, n: Text, m: Text)
    requires SameEvidence(a, b) && NamesDiffer(a.vlans) && n.folded == m.folded
    requires Pick(None, AllSubs(a, asOf), VlanNode(id)) == Some(NamedVlan(n))
    requires Pick(None, AllSubs(b, asOf), VlanNode(id)) == Some(NamedVlan(m))
    ensures n == m
  {
    var v := NameIsEarliest(a, asOf, id, n);
    var w := NameIsEarliest(b, asOf, id, m);
    ActiveEvidenceAgrees(a, b, asOf);
    ActiveVlansAre(SortBy(VlanBefore, a.vlans), asOf, v);
    ActiveVlansAre(SortBy(VlanBefore, a.vlans), asOf, w);
    SortKeeps(VlanBefore, a.vlans);
    assert v in SortedVlans(b, asOf) && w in SortedVlans(a, asOf);
    hide AllSubs, Pick, ActiveVlans, SortBy;
    assert v.source == w.source;
  }

  lemma SharedLabelIs(ev: Evidence, asOf: int, id: NodeId, l: Label)
    requires (id.SubnetNode? || id.VlanNode?) && NodeSubmitted(AllSubs(ev, asOf), id, l)
    ensures if id.SubnetNode? then l == Cidr
            else l == PlainVlan || (l.NamedVlan? && exists v :: v in ev.vlans && v.id == id.vlan && v.name == Some(l.name))
  {
    SubmittersAre(ev, asOf, NodeSub(id, l));
    hide AllSubs, SortBy, StandingOf, SubnetFor, ObservationSubs;
    if ByVlan(SortedVlans(ev, asOf), NodeSub(id, l)) {
      var s := SortedVlans(ev, asOf);
      var i :| 0 <= i < |s| && NodeSub(id, l) in VlanSubs(s[i]);
      ActiveVlansAre(SortBy(VlanBefore, ev.vlans), asOf, s[i]);
      SortKeeps(VlanBefore, ev.vlans);
      assert s[i] in ev.vlans;
    } else if ByObservation(ContextOf(ev, asOf), SortedObservations(ev, asOf), NodeSub(id, l)) {
      var c, s := ContextOf(ev, asOf), SortedObservations(ev, asOf);
      var i :| 0 <= i < |s| && NodeSub(id, l) in ObservationSubs(c, s[i]);
      ObservationsNamePlainVlans(c, s[i], id, l);
    }
  }

  lemma ObservationsNamePlainVlans(c: Context, o: Observation, id: NodeId, l: Label)
    requires NodeSub(id, l) in ObservationSubs(c, o) && (id.SubnetNode? || id.VlanNode?)
    ensures id.VlanNode? && l == PlainVlan
  {
    hide SubnetFor;
  }

  lemma SharedNodesAgree(a: Evidence, b: Evidence, asOf: int, id: NodeId)
    requires SameEvidence(a, b) && Distinct(a) && (id.SubnetNode? || id.VlanNode?)
    ensures Pick(None, AllSubs(a, asOf), id) == Pick(None, AllSubs(b, asOf), id)
  {
    var s, t := AllSubs(a, asOf), AllSubs(b, asOf);
    PickIsMinimum(s, id);
    PickIsMinimum(t, id);
    hide AllSubs, Pick;
    var p, q := Pick(None, s, id), Pick(None, t, id);
    if p.Some? {
      SubmissionsFollow(a, b, asOf, NodeSub(id, p.value));
      assert NodeSubmitted(t, id, p.value);
    }
    if q.Some? {
      SubmissionsFollow(a, b, asOf, NodeSub(id, q.value));
      assert NodeSubmitted(s, id, q.value);
      SharedLabelIs(a, asOf, id, p.value);
      SharedLabelIs(a, asOf, id, q.value);
      if p.value.NamedVlan? && q.value.NamedVlan? {
        NamesAgree(a, b, asOf, id.vlan, p.value.name, q.value.name);
      }
    }
  }

  // ----- device, service and instance labels follow the sorted order of the facts

  function Facts(s: seq<Observation>): seq<Fact> {
    if s == [] then [] else Facts(s[..|s| - 1]) + [s[|s| - 1].fact]
  }

  /** The devices, services and instances that a fact speaks of. */
  function FactSubs(f: Fact): seq<Submission> {
    match f.content
    case Link(remote, name, _) => [DeviceSub(remote, name)]
    case Service(s, sn, i, iname) => [NodeSub(ServiceNode(s), Shown(sn)), NodeSub(InstanceNode(i), Shown(iname))]
    case Instance(i, iname, h, hn) => [NodeSub(InstanceNode(i), Shown(iname)), DeviceSub(h, hn)]
    case HostAddress(h, hn, _) => [DeviceSub(h, hn)]
    case Lease(client, name, _, server, sn) =>
      [DeviceSub(client, name)] + if server.None? then [] else [DeviceSub(server.value, sn)]
    case Neighbor(d, name, _) => [DeviceSub(d, name)]
    case Nothing => []
  }

  function FactPick(start: Option<Label>, f: Fact, id: NodeId): Option<Label> {
    Pick(start, FactSubs(f), id)
  }

  function FactsPick(start: Option<Label>, fs: seq<Fact>, id: NodeId): Option<Label> {
    if fs == [] then start else FactPick(FactsPick(start, fs[..|fs| - 1], id), fs[|fs| - 1], id)
  }

  lemma {:induction false} PickEdge(start: Option<Label>, subs: seq<Submission>, id: NodeId)
    requires forall i :: 0 <= i < |subs| ==> subs[i].EdgeSub? || subs[i].id != id
    ensures Pick(start, subs, id) == start
  {
    if subs != [] {
      PickEdge(start, subs[..|subs| - 1], id);
    }
  }

  /** What an observation submits for a device, service or instance is a matter of its fact alone. */
  lemma ObservationPick(start: Option<Label>, c: Context, o: Observation, id: NodeId)
    requires !id.SubnetNode? && !id.VlanNode?
    ensures Pick(start, ObservationSubs(c, o), id) == FactPick(start, o.fact, id)
  {
    var subs, k := ObservationSubs(c, o), o.fact.content;
    if k.Link? || k.HostAddress? || k.Neighbor? {
      HeadOnly(c, o, id);
      PickHead(start, subs, id);
    } else if k.Lease? {
      LeasePick(start, c, o, id);
    } else if k.Service? || k.Instance? {
      TwoThenEdge(c, o);
      PickTwo(start, subs, id);
    }
    hide ObservationSubs, Pick;
  }

  lemma HeadOnly(c: Context, o: Observation, id: NodeId)
    requires !id.SubnetNode? && !id.VlanNode?
    requires o.fact.content.Link? || o.fact.content.HostAddress? || o.fact.content.Neighbor?
    ensures var subs := ObservationSubs(c, o);
            subs != [] && subs[..1] == FactSubs(o.fact) && forall i :: 1 <= i < |subs| ==> subs[i].EdgeSub? || subs[i].id != id
  {
    hide SubnetFor;
  }

  lemma TwoThenEdge(c: Context, o: Observation)
    requires o.fact.content.Service? || o.fact.content.Instance?
    ensures var subs := ObservationSubs(c, o); |subs| == 3 && subs[2].EdgeSub? && subs[..2] == FactSubs(o.fact)
  {
  }

  lemma LeasePick(start: Option<Label>, c: Context, o: Observation, id: NodeId)
    requires o.fact.content.Lease?
    ensures Pick(start, ObservationSubs(c, o), id) == FactPick(start, o.fact, id)
  {
    var k := o.fact.content;
    var first := [DeviceSub(k.client, k.clientName)];
    var m, s := MembershipSubs(c, k.client, k.address, o, 0.90), ServerSubs(o, k.client, k.server, k.serverName);
    var picked := Pick(start, first, id);
    PickAppend(start, first + m, s, id);
    PickAppend(start, first, m, id);
    MembershipHasNoNode(c, k.client, k.address, o, 0.90);
    PickEdge(picked, m, id);
    if k.server.Some? {
      PickHead(picked, s, id);
      assert s[..1] == [DeviceSub(k.server.value, k.serverName)];
      PickAppend(start, first, [DeviceSub(k.server.value, k.serverName)], id);
    }
    hide Pick, SubnetFor, MembershipSubs;
  }

  lemma MembershipHasNoNode(c: Context, d: Device, a: Option<nat>, o: Observation, confidence: real)
    ensures forall i :: 0 <= i < |MembershipSubs(c, d, a, o, confidence)| ==> MembershipSubs(c, d, a, o, confidence)[i].EdgeSub?
  {
    hide SubnetFor;
  }

  /** Only the first submission can matter. */
  lemma PickHead(start: Option<Label>, subs: seq<Submission>, id: NodeId)
    requires subs != [] && forall i :: 1 <= i < |subs| ==> subs[i].EdgeSub? || subs[i].id != id
    ensures Pick(start, subs, id) == Pick(start, subs[..1], id)
  {
    assert subs[..1] + subs[1..] == subs;
    PickAppend(start, subs[..1], subs[1..], id);
    PickEdge(Pick(start, subs[..1], id), subs[1..], id);
  }

  lemma PickTwo(start: Option<Label>, subs: seq<Submission>, id: NodeId)
    requires |subs| == 3 && subs[2].EdgeSub?
    ensures Pick(start, subs, id) == Pick(start, subs[..2], id)
  {
  }

  lemma {:induction false} ObservationsPick(start: Option<Label>, c: Context, s: seq<Observation>, id: NodeId)
    requires !id.SubnetNode? && !id.VlanNode?
    ensures Pick(start, AllObservationSubs(c, s), id) == FactsPick(start, Facts(s), id)
  {
    hide ObservationSubs, FactPick;
    if s != [] {
      var n := |s| - 1;
      ObservationsPick(start, c, s[..n], id);
      PickAppend(start, AllObservationSubs(c, s[..n]), ObservationSubs(c, s[n]), id);
      ObservationPick(Pick(start, AllObservationSubs(c, s[..n]), id), c, s[n], id);
      assert Facts(s)[..|Facts(s)| - 1] == Facts(s[..n]);
    }
  }

  function Order(f: Fact): int { f.order }

  function ObservationOrder(o: Observation): int { o.fact.order }

  function IsActiveFact(asOf: int, f: Fact): Observation -> nat {
    (o: Observation) => if StandingOf(TimeOf(o), asOf).Active? && o.fact == f then 1 else 0
  }

  lemma {:induction false} FactsAreCounted(s: seq<Observation>, asOf: int, f: Fact)
    ensures multiset(Facts(ActiveObservations(s, asOf)))[f] == Sum(IsActiveFact(asOf, f), s)
  {
    if s != [] {
      var n := |s| - 1;
      FactsAreCounted(s[..n], asOf, f);
      FactsStep(s, asOf);
    }
  }

  lemma FactsStep(s: seq<Observation>, asOf: int)
    requires s != []
    ensures var n := |s| - 1;
            Facts(ActiveObservations(s, asOf)) == Facts(ActiveObservations(s[..n], asOf))
              + if StandingOf(TimeOf(s[n]), asOf).Active? then [s[n].fact] else []
  {
    hide StandingOf;
    var n := |s| - 1;
    var before := ActiveObservations(s[..n], asOf);
    assert (before + [s[n]])[..|before|] == before && before + [] == before && Facts(before) + [] == Facts(before);
  }

  lemma ActiveFactsAgree(s: seq<Observation>, t: seq<Observation>, asOf: int)
    requires multiset(s) == multiset(t)
    ensures multiset(Facts(ActiveObservations(s, asOf))) == multiset(Facts(ActiveObservations(t, asOf)))
  {
    forall f: Fact
      ensures multiset(Facts(ActiveObservations(s, asOf)))[f] == multiset(Facts(ActiveObservations(t, asOf)))[f]
    {
      FactsAreCounted(s, asOf, f);
      FactsAreCounted(t, asOf, f);
      SumPermutes(IsActiveFact(asOf, f), s, t);
    }
  }

  /** The facts of the active observations in sorted order are sorted, and are facts of the whole. */
  lemma {:induction false} FactsAreSorted(s: seq<Observation>, asOf: int)
    requires SortedBy(ObservationOrder, s)
    ensures SortedBy(Order, Facts(ActiveObservations(s, asOf)))
    ensures forall i :: 0 <= i < |Facts(ActiveObservations(s, asOf))| ==> FactOf(s, Facts(ActiveObservations(s, asOf))[i])
  {
    if s != [] {
      var n := |s| - 1;
      var before := ActiveObservations(s[..n], asOf);
      FactsAreSorted(s[..n], asOf);
      forall i | 0 <= i < |Facts(before)| ensures FactOf(s, Facts(before)[i]) && Order(Facts(before)[i]) <= ObservationOrder(s[n]) {
        var j :| 0 <= j < n && s[..n][j].fact == Facts(before)[i];
        assert s[j].fact == Facts(before)[i] && ObservationOrder(s[j]) <= ObservationOrder(s[n]);
      }
      assert FactOf(s, s[n].fact);
      FactsStep(s, asOf);
      hide Facts, ActiveObservations, StandingOf, FactOf;
    }
  }

  ghost predicate FactOf(s: seq<Observation>, f: Fact) {
    exists j :: 0 <= j < |s| && s[j].fact == f
  }

  lemma ObservationsOrder()
    ensures OrdersBy(ObservationOrder, ObservationBefore)
  {
  }

  lemma SortedFactsAgree(a: Evidence, b: Evidence, asOf: int)
    requires multiset(a.observations) == multiset(b.observations) && OrderDetermines(a.observations)
    ensures Facts(SortedObservations(a, asOf)) == Facts(SortedObservations(b, asOf))
  {
    var s, t := SortBy(ObservationBefore, a.observations), SortBy(ObservationBefore, b.observations);
    ObservationsOrder();
    SortBySorts(ObservationOrder, ObservationBefore, a.observations);
    SortBySorts(ObservationOrder, ObservationBefore, b.observations);
    SortKeeps(ObservationBefore, a.observations);
    SortsAgree(ObservationBefore, a.observations, b.observations);
    hide SortBy, OrdersBy, SortedBy, KeyDetermines, Facts, ActiveObservations;
    FactsAreSorted(s, asOf);
    FactsAreSorted(t, asOf);
    ActiveFactsAgree(s, t, asOf);
    FactsAreDetermined(s, a.observations, Facts(ActiveObservations(s, asOf)));
    SortedIsUnique(Order, Facts(ActiveObservations(s, asOf)), Facts(ActiveObservations(t, asOf)));
  }

  lemma FactsAreDetermined(s: seq<Observation>, all: seq<Observation>, f: seq<Fact>)
    requires OrderDetermines(all) && forall x :: x in s <==> x in all
    requires forall i :: 0 <= i < |f| ==> FactOf(s, f[i])
    ensures KeyDetermines(Order, f)
  {
    forall i, j | 0 <= i < j < |f| && Order(f[i]) == Order(f[j]) ensures f[i] == f[j] {
      assert FactOf(s, f[i]) && FactOf(s, f[j]);
      var p :| 0 <= p < |s| && s[p].fact == f[i];
      var q :| 0 <= q < |s| && s[q].fact == f[j];
      assert s[p] in all && s[q] in all;
    }
  }

  /** Before the observations only the local node is submitted for a device, service or instance. */
  lemma EarlyPick(ev: Evidence, asOf: int, id: NodeId)
    requires !id.SubnetNode? && !id.VlanNode?
    ensures Pick(None, AllSubs(ev, asOf), id)
         == FactsPick(Pick(None, [DeviceSub(ev.local, ev.localName)], id), Facts(SortedObservations(ev, asOf)), id)
  {
    hide SortedSubnets, SortedVlans, SortedObservations, Facts, FactsPick;
    var first, s, v := [DeviceSub(ev.local, ev.localName)], SubnetSubs(SortedSubnets(ev, asOf)), AllVlanSubs(SortedVlans(ev, asOf));
    var c, o := ContextOf(ev, asOf), SortedObservations(ev, asOf);
    PickAppend(None, first + s + v, AllObservationSubs(c, o), id);
    PickAppend(None, first + s, v, id);
    PickAppend(None, first, s, id);
    SharedOnly(SortedSubnets(ev, asOf), SortedVlans(ev, asOf), id);
    PickEdge(Pick(None, first, id), s, id);
    PickEdge(Pick(None, first, id), v, id);
    ObservationsPick(Pick(None, first, id), c, o, id);
    hide Pick, AllObservationSubs, SubnetSubs, AllVlanSubs;
  }

  lemma SharedOnly(subnets: seq<Subnet>, vlans: seq<Vlan>, id: NodeId)
    requires !id.SubnetNode? && !id.VlanNode?
    ensures forall i :: 0 <= i < |SubnetSubs(subnets)| ==> SubnetSubs(subnets)[i].EdgeSub? || SubnetSubs(subnets)[i].id != id
    ensures forall i :: 0 <= i < |AllVlanSubs(vlans)| ==> AllVlanSubs(vlans)[i].EdgeSub? || AllVlanSubs(vlans)[i].id != id
  {
    forall i | 0 <= i < |SubnetSubs(subnets)| ensures SubnetSubs(subnets)[i].EdgeSub? || SubnetSubs(subnets)[i].id != id {
      SubnetSubsAre(subnets, SubnetSubs(subnets)[i]);
    }
    forall i | 0 <= i < |AllVlanSubs(vlans)| ensures AllVlanSubs(vlans)[i].EdgeSub? || AllVlanSubs(vlans)[i].id != id {
      AllVlanSubsAre(vlans, AllVlanSubs(vlans)[i]);
    }
  }

  lemma NodesAgree(a: Evidence, b: Evidence, asOf: int, id: NodeId)
    requires SameEvidence(a, b) && Distinct(a)
    ensures LabelOf(GraphOf(a, asOf).board, id) == LabelOf(GraphOf(b, asOf).board, id)
  {
    GatherPicks(EMPTY, AllSubs(a, asOf), id);
    GatherPicks(EMPTY, AllSubs(b, asOf), id);
    hide AllSubs, Pick, Gather;
    if id.SubnetNode? || id.VlanNode? {
      SharedNodesAgree(a, b, asOf, id);
    } else {
      EarlyPick(a, asOf, id);
      EarlyPick(b, asOf, id);
      SortedFactsAgree(a, b, asOf);
    }
  }

  // ----- the whole graph

  lemma NodesOfLabels(g: Board, h: Board)
    requires forall id: NodeId :: LabelOf(g, id) == LabelOf(h, id)
    ensures g.nodes == h.nodes
  {
    assert forall id :: id in g.nodes <==> LabelOf(g, id).Some?;
    assert forall id :: id in h.nodes <==> LabelOf(h, id).Some?;
    forall id | id in g.nodes ensures id in h.nodes && g.nodes[id] == h.nodes[id] {
      assert LabelOf(g, id) == LabelOf(h, id);
    }
  }

  lemma BoardsAgree(g: Board, h: Board)
    requires forall id: NodeId :: LabelOf(g, id) == LabelOf(h, id)
    requires forall k: EdgeKey :: (k in g.edges <==> k in h.edges) && (k in g.edges ==> g.edges[k] == h.edges[k])
    ensures g == h
  {
    NodesOfLabels(g, h);
    hide LabelOf;
    assert g.edges == h.edges;
  }

  lemma {:induction false} NoSelfEdgeIs(subs: seq<Submission>)
    ensures NoSelfEdge(subs) <==> forall x :: x in subs ==> !SelfEdge(x)
  {
    hide SelfEdge;
    if subs != [] {
      NoSelfEdgeIs(subs[..|subs| - 1]);
      assert subs == subs[..|subs| - 1] + [subs[|subs| - 1]];
    }
  }

  lemma {:induction false} AllTimelyIs(s: seq<Observation>)
    ensures AllTimely(s) <==> forall x :: x in s ==> Timely(x)
  {
    hide Timely;
    if s != [] {
      AllTimelyIs(s[..|s| - 1]);
      assert s == s[..|s| - 1] + [s[|s| - 1]];
    }
  }

  /** The graph of the same evidence in another order is the same graph, and one is refused exactly
      when the other is: provided one piece of evidence stands for each subnet, no names of a VLAN from
      one source differ only in case, and no end of validity is given as the last moment there is. */
  lemma OrderDoesNotMatter(a: Evidence, b: Evidence, asOf: int)
    requires SameEvidence(a, b) && Unambiguous(a)
    ensures GraphOf(a, asOf) == GraphOf(b, asOf)
    ensures Buildable(a, asOf) <==> Buildable(b, asOf)
  {
    forall id: NodeId ensures LabelOf(GraphOf(a, asOf).board, id) == LabelOf(GraphOf(b, asOf).board, id) {
      NodesAgree(a, b, asOf, id);
    }
    hide AllSubs, Gather, TallyOf, SortBy, AllTimely, NoSelfEdge, Timely, SelfEdge, LabelOf;
    var g, h := GraphOf(a, asOf).board, GraphOf(b, asOf).board;
    forall k: EdgeKey ensures (k in g.edges <==> k in h.edges) && (k in g.edges ==> g.edges[k] == h.edges[k]) {
      EdgesAgree(a, b, asOf, k);
    }
    BoardsAgree(g, h);
    TalliesAgree(a, b, asOf);
    BuildableAgrees(a, b, asOf);
  }

  lemma BuildableAgrees(a: Evidence, b: Evidence, asOf: int)
    requires SameEvidence(a, b) && OneEvidencePerCidr(a.subnets)
    ensures Buildable(a, asOf) <==> Buildable(b, asOf)
  {
    hide AllSubs, SortBy, AllTimely, NoSelfEdge, Timely, SelfEdge, OneEvidencePerCidr;
    NoSelfEdgeIs(AllSubs(a, asOf));
    NoSelfEdgeIs(AllSubs(b, asOf));
    forall x: Submission ensures x in AllSubs(a, asOf) <==> x in AllSubs(b, asOf) {
      SubmissionsFollow(a, b, asOf, x);
    }
    var s, t := SortBy(ObservationBefore, a.observations), SortBy(ObservationBefore, b.observations);
    SortsAgree(ObservationBefore, a.observations, b.observations);
    SameElements(s, t);
    AllTimelyIs(s);
    AllTimelyIs(t);
  }

  /** Two edges alike but that one has no end of validity and the other ends in the last moment. */
  predicate Tied(e: Edge, f: Edge) {
    e == f.(validUntil := e.validUntil)
    && ((e.validUntil == None && f.validUntil == Some(MAX_TIME))
        || (e.validUntil == Some(MAX_TIME) && f.validUntil == None))
  }

  /** Whatever the ends of validity, the order decides nothing but which of two tied edges is kept: the
      graphs are the same if and only if no key has one of them here and the other there. */
  lemma OrderDecidesOnlyTies(a: Evidence, b: Evidence, asOf: int)
    requires SameEvidence(a, b) && Distinct(a)
    ensures Buildable(a, asOf) <==> Buildable(b, asOf)
    ensures var g, h := GraphOf(a, asOf), GraphOf(b, asOf);
            && g.tally == h.tally && g.board.nodes == h.board.nodes && g.board.edges.Keys == h.board.edges.Keys
            && (forall k :: k in g.board.edges ==>
                  g.board.edges[k] == h.board.edges[k] || Tied(g.board.edges[k], h.board.edges[k]))
            && (g == h <==> !exists k :: k in g.board.edges && Tied(g.board.edges[k], h.board.edges[k]))
  {
    forall id: NodeId ensures LabelOf(GraphOf(a, asOf).board, id) == LabelOf(GraphOf(b, asOf).board, id) {
      NodesAgree(a, b, asOf, id);
    }
    TalliesAgree(a, b, asOf);
    BuildableAgrees(a, b, asOf);
    hide AllSubs, Gather, TallyOf, Buildable, SameEvidence, Distinct;
    var g, h := GraphOf(a, asOf).board, GraphOf(b, asOf).board;
    NodesOfLabels(g, h);
    forall k: EdgeKey
      ensures k in g.edges <==> k in h.edges
      ensures k in g.edges ==> g.edges[k] == h.edges[k] || Tied(g.edges[k], h.edges[k])
    {
      RankAlikeIsTied(a, b, asOf, k);
    }
    EdgesEqualUnlessTied(g.edges, h.edges);
  }

  lemma RankAlikeIsTied(a: Evidence, b: Evidence, asOf: int, k: EdgeKey)
    requires SameEvidence(a, b) && Distinct(a)
    ensures var g, h := GraphOf(a, asOf).board.edges, GraphOf(b, asOf).board.edges;
            (k in g <==> k in h) && (k in g ==> g[k] == h[k] || Tied(g[k], h[k]))
  {
    EdgesRankAlike(a, b, asOf, k);
    hide AllSubs, Gather, EdgeSubmitted, SameEvidence, Distinct;
  }

  lemma EdgesEqualUnlessTied(g: map<EdgeKey, Edge>, h: map<EdgeKey, Edge>)
    requires forall k: EdgeKey :: k in g <==> k in h
    requires forall k: EdgeKey :: k in g ==> g[k] == h[k] || Tied(g[k], h[k])
    ensures g.Keys == h.Keys
    ensures g == h <==> !exists k :: k in g && Tied(g[k], h[k])
  {
  }

  /** Why the last moment has to be kept out: two different edges of one key give the same graph in
      both orders exactly when one exceeds the other, and else one is open and one ends in it. */
  lemma OrderOfTwoEdges(e: Edge, f: Edge)
    requires e.key == f.key && e != f
    ensures Gather(EMPTY, [EdgeSub(e), EdgeSub(f)]) == Gather(EMPTY, [EdgeSub(f), EdgeSub(e)])
       <==> Exceeds(e, f) || Exceeds(f, e)
    ensures !Exceeds(e, f) && !Exceeds(f, e) ==>
              {e.validUntil, f.validUntil} == {None, Some(MAX_TIME)}
  {
    var x, y := EdgeSub(e), EdgeSub(f);
    assert [x][..0] == [] && [y][..0] == [];
    assert Gather(EMPTY, [x]) == Place(EMPTY, x) && Gather(EMPTY, [y]) == Place(EMPTY, y);
    assert [x, y][..1] == [x] && [y, x][..1] == [y];
    var g, h := Gather(EMPTY, [x, y]), Gather(EMPTY, [y, x]);
    assert g == Place(Place(EMPTY, x), y) && h == Place(Place(EMPTY, y), x);
    assert g.edges[e.key] == if Exceeds(f, e) then f else e;
    assert h.edges[e.key] == if Exceeds(e, f) then e else f;
  }
}
