/** What a built topology graph is, edge by edge and node by node, and that it does not depend on the
    order in which the evidence was given. */
module TopologyGraph {
  import opened Options
  import opened Ipv4
  import opened Sorting
  import opened Topology

  // ----- the board holds maxima and minima

  ghost predicate EdgeSubmitted(subs: seq<Submission>, e: Edge) {
    EdgeSub(e) in subs
  }

  /** An edge that was submitted and that no other submission of its key exceeds. */
  ghost predicate IsMaximum(subs: seq<Submission>, e: Edge) {
    EdgeSubmitted(subs, e) && forall x: Edge :: EdgeSubmitted(subs, x) && x.key == e.key ==> !Exceeds(x, e)
  }

  lemma InSnoc(subs: seq<Submission>, s: Submission)
    requires subs != []
    ensures s in subs <==> s in subs[..|subs| - 1] || s == subs[|subs| - 1]
  {
    assert subs == subs[..|subs| - 1] + [subs[|subs| - 1]];
  }

  const EMPTY := Board(map[], map[])

  lemma {:induction false} EdgesAreMaxima(subs: seq<Submission>, key: EdgeKey)
    ensures var b := Gather(EMPTY, subs);
            && (key in b.edges ==> b.edges[key].key == key && IsMaximum(subs, b.edges[key]))
            && (key !in b.edges ==> forall x: Edge :: EdgeSubmitted(subs, x) ==> x.key != key)
  {
    if subs != [] {
      var before, s := subs[..|subs| - 1], subs[|subs| - 1];
      EdgesAreMaxima(before, key);
      var b := Gather(EMPTY, subs);
      if key in b.edges {
        InSnoc(subs, EdgeSub(b.edges[key]));
      }
      forall x: Edge | EdgeSubmitted(subs, x) && x.key == key
        ensures key in b.edges && !Exceeds(x, b.edges[key])
      {
        InSnoc(subs, EdgeSub(x));
        assert s != EdgeSub(x) ==> EdgeSubmitted(before, x);
      }
    }
  }

  /** The label a node has after some submissions: the first of the lowest in rank. */
  function Pick(start: Option<Label>, subs: seq<Submission>, id: NodeId): Option<Label> {
    if subs == [] then start else
      var before, s := Pick(start, subs[..|subs| - 1], id), subs[|subs| - 1];
      if s.NodeSub? && s.id == id && (before.None? || Rank(s.shown) < Rank(before.value)) then Some(s.shown) else before
  }

  function LabelOf(b: Board, id: NodeId): Option<Label> {
    if id in b.nodes then Some(b.nodes[id]) else None
  }

  lemma {:induction false} GatherPicks(b: Board, subs: seq<Submission>, id: NodeId)
    ensures LabelOf(Gather(b, subs), id) == Pick(LabelOf(b, id), subs, id)
  {
    if subs != [] {
      GatherPicks(b, subs[..|subs| - 1], id);
    }
  }

  lemma {:induction false} PickAppend(start: Option<Label>, x: seq<Submission>, y: seq<Submission>, id: NodeId)
    ensures Pick(start, x + y, id) == Pick(Pick(start, x, id), y, id)
  {
    if y == [] {
      assert x + y == x;
    } else {
      assert (x + y)[..|x + y| - 1] == x + y[..|y| - 1];
      PickAppend(start, x, y[..|y| - 1], id);
    }
  }

  ghost predicate NodeSubmitted(subs: seq<Submission>, id: NodeId, shown: Label) {
    NodeSub(id, shown) in subs
  }

  lemma {:induction false} PickIsMinimum(subs: seq<Submission>, id: NodeId)
    ensures var p := Pick(None, subs, id);
            && (p.Some? ==> NodeSubmitted(subs, id, p.value))
            && forall l: Label :: NodeSubmitted(subs, id, l) ==> p.Some? && Rank(p.value) <= Rank(l)
  {
    if subs != [] {
      var before, s := subs[..|subs| - 1], subs[|subs| - 1];
      PickIsMinimum(before, id);
      var p := Pick(None, subs, id);
      if p.Some? {
        InSnoc(subs, NodeSub(id, p.value));
      }
      forall l: Label | NodeSubmitted(subs, id, l) ensures p.Some? && Rank(p.value) <= Rank(l) {
        InSnoc(subs, NodeSub(id, l));
        assert s != NodeSub(id, l) ==> NodeSubmitted(before, id, l);
      }
    }
  }

  // ----- who submits what

  ghost predicate BySubnet(s: seq<Subnet>, x: Submission) {
    exists i :: 0 <= i < |s| && x == NodeSub(SubnetNode(s[i].net), Cidr)
  }

  ghost predicate ByVlan(s: seq<Vlan>, x: Submission) {
    exists i :: 0 <= i < |s| && x in VlanSubs(s[i])
  }

  ghost predicate ByObservation(c: Context, s: seq<Observation>, x: Submission) {
    exists i :: 0 <= i < |s| && x in ObservationSubs(c, s[i])
  }

  lemma {:induction false} SubnetSubsAre(s: seq<Subnet>, x: Submission)
    ensures x in SubnetSubs(s) <==> BySubnet(s, x)
  {
    if s != [] {
      var n := |s| - 1;
      SubnetSubsAre(s[..n], x);
      if BySubnet(s[..n], x) {
        var i :| 0 <= i < n && x == NodeSub(SubnetNode(s[..n][i].net), Cidr);
        assert s[i] == s[..n][i];
      }
      if BySubnet(s, x) {
        var i :| 0 <= i < |s| && x == NodeSub(SubnetNode(s[i].net), Cidr);
        assert i < n ==> s[..n][i] == s[i];
      }
    }
  }

  lemma {:induction false} AllVlanSubsAre(s: seq<Vlan>, x: Submission)
    ensures x in AllVlanSubs(s) <==> ByVlan(s, x)
  {
    hide VlanSubs;
    if s != [] {
      var n := |s| - 1;
      AllVlanSubsAre(s[..n], x);
      if ByVlan(s[..n], x) {
        var i :| 0 <= i < n && x in VlanSubs(s[..n][i]);
        assert s[i] == s[..n][i];
      }
      if ByVlan(s, x) {
        var i :| 0 <= i < |s| && x in VlanSubs(s[i]);
        assert i < n ==> s[..n][i] == s[i];
      }
    }
  }

  lemma {:induction false} AllObservationSubsAre(c: Context, s: seq<Observation>, x: Submission)
    ensures x in AllObservationSubs(c, s) <==> ByObservation(c, s, x)
  {
    hide ObservationSubs;
    if s != [] {
      var n := |s| - 1;
      AllObservationSubsAre(c, s[..n], x);
      if ByObservation(c, s[..n], x) {
        var i :| 0 <= i < n && x in ObservationSubs(c, s[..n][i]);
        assert s[i] == s[..n][i];
      }
      if ByObservation(c, s, x) {
        var i :| 0 <= i < |s| && x in ObservationSubs(c, s[i]);
        assert i < n ==> s[..n][i] == s[i];
      }
    }
  }

  /** Everything that is submitted comes from the local node, an active subnet, an active VLAN or an
      active observation. */
  lemma SubmittersAre(ev: Evidence, asOf: int, x: Submission)
    ensures x in AllSubs(ev, asOf) <==>
              || x == DeviceSub(ev.local, ev.localName)
              || BySubnet(SortedSubnets(ev, asOf), x)
              || ByVlan(SortedVlans(ev, asOf), x)
              || ByObservation(ContextOf(ev, asOf), SortedObservations(ev, asOf), x)
  {
    hide SortedSubnets, SortedVlans, SortedObservations, ContextOf, ByVlan, ByObservation, BySubnet, AllVlanSubs,
      AllObservationSubs, SubnetSubs;
    SubnetSubsAre(SortedSubnets(ev, asOf), x);
    AllVlanSubsAre(SortedVlans(ev, asOf), x);
    AllObservationSubsAre(ContextOf(ev, asOf), SortedObservations(ev, asOf), x);
  }

  // ----- every kept edge is the greatest submitted, between nodes, and valid

  lemma {:induction false} ActiveSubnetsAre(s: seq<Subnet>, asOf: int, x: Subnet)
    ensures x in ActiveSubnets(s, asOf) <==> x in s && StandingOf(x.time, asOf).Active?
  {
    hide StandingOf;
    if s != [] {
      ActiveSubnetsAre(s[..|s| - 1], asOf, x);
      assert s == s[..|s| - 1] + [s[|s| - 1]];
    }
  }

  lemma {:induction false} ActiveVlansAre(s: seq<Vlan>, asOf: int, x: Vlan)
    ensures x in ActiveVlans(s, asOf) <==> x in s && StandingOf(x.time, asOf).Active?
  {
    hide StandingOf;
    if s != [] {
      ActiveVlansAre(s[..|s| - 1], asOf, x);
      assert s == s[..|s| - 1] + [s[|s| - 1]];
    }
  }

  lemma {:induction false} ActiveObservationsAre(s: seq<Observation>, asOf: int, x: Observation)
    ensures x in ActiveObservations(s, asOf) <==> x in s && StandingOf(TimeOf(x), asOf).Active?
  {
    hide StandingOf;
    if s != [] {
      ActiveObservationsAre(s[..|s| - 1], asOf, x);
      assert s == s[..|s| - 1] + [s[|s| - 1]];
    }
  }

  predicate ValidAt(e: Edge, asOf: int) {
    e.observedAt <= asOf && (e.validUntil.Some? ==> asOf < e.validUntil.value)
  }

  lemma ObservationEdgesCarryTime(c: Context, o: Observation, x: Submission)
    requires x in ObservationSubs(c, o) && x.EdgeSub?
    ensures x.edge.observedAt == o.fact.observedAt && x.edge.validUntil == o.validUntil
  {
    hide SubnetFor;
  }

  lemma VlanEdgesCarryTime(v: Vlan, x: Submission)
    requires x in VlanSubs(v) && x.EdgeSub?
    ensures x.edge.observedAt == v.time.observedAt && x.edge.validUntil == v.time.validUntil
  {
  }

  lemma SubmittedEdgesAreValid(ev: Evidence, asOf: int, e: Edge)
    requires EdgeSubmitted(AllSubs(ev, asOf), e)
    ensures ValidAt(e, asOf)
  {
    SubmittersAre(ev, asOf, EdgeSub(e));
    hide AllSubs, VlanSubs, ObservationSubs, SortBy, SubnetFor;
    if ByVlan(SortedVlans(ev, asOf), EdgeSub(e)) {
      var s := SortedVlans(ev, asOf);
      var i :| 0 <= i < |s| && EdgeSub(e) in VlanSubs(s[i]);
      ActiveVlansAre(SortBy(VlanBefore, ev.vlans), asOf, s[i]);
      VlanEdgesCarryTime(s[i], EdgeSub(e));
    } else {
      var c, s := ContextOf(ev, asOf), SortedObservations(ev, asOf);
      var i :| 0 <= i < |s| && EdgeSub(e) in ObservationSubs(c, s[i]);
      ActiveObservationsAre(SortBy(ObservationBefore, ev.observations), asOf, s[i]);
      ObservationEdgesCarryTime(c, s[i], EdgeSub(e));
    }
  }

  ghost predicate HasNode(subs: seq<Submission>, id: NodeId) {
    exists l: Label :: NodeSubmitted(subs, id, l)
  }

  lemma VlanEndpoints(v: Vlan, e: Edge)
    requires EdgeSub(e) in VlanSubs(v)
    ensures HasNode(VlanSubs(v), e.key.source) && HasNode(VlanSubs(v), e.key.target)
  {
    var subs := VlanSubs(v);
    assert NodeSubmitted(subs, subs[0].id, subs[0].shown) && NodeSubmitted(subs, subs[1].id, subs[1].shown);
  }

  lemma {:induction false} SubnetForIsOne(address: nat, s: seq<Subnet>)
    ensures SubnetFor(address, s).Some? ==>
              SubnetFor(address, s).value in s && Contains(SubnetFor(address, s).value.net, address)
    ensures forall t :: t in s && Contains(t.net, address) ==>
              SubnetFor(address, s).Some? && t.net.prefix <= SubnetFor(address, s).value.net.prefix
  {
    hide Contains;
    if s != [] {
      SubnetForIsOne(address, s[..|s| - 1]);
      assert s == s[..|s| - 1] + [s[|s| - 1]];
    }
  }

  /** The endpoints of an observation's edges: its own nodes, the local node, a VLAN with evidence of
      its own, or an active subnet. */
  lemma ObservationEndpoints(c: Context, o: Observation, e: Edge, id: NodeId)
    requires EdgeSub(e) in ObservationSubs(c, o) && (id == e.key.source || id == e.key.target)
    ensures || HasNode(ObservationSubs(c, o), id) || id == DeviceNode(c.local)
            || (id.VlanNode? && id.vlan in c.vlans)
            || (id.SubnetNode? && exists i :: 0 <= i < |c.subnets| && c.subnets[i].net == id.net)
  {
    var subs := ObservationSubs(c, o);
    if id.SubnetNode? {
      MembershipTarget(c, o, e, id);
    } else {
      var i :| 0 <= i < |subs| && subs[i] == EdgeSub(e);
      forall j | 0 <= j < |subs| && subs[j].NodeSub? ensures HasNode(subs, subs[j].id) {
        assert NodeSubmitted(subs, subs[j].id, subs[j].shown);
      }
      hide SubnetFor, HasNode;
      OwnEndpoints(c, o, e, id);
    }
  }

  lemma OwnEndpoints(c: Context, o: Observation, e: Edge, id: NodeId)
    requires EdgeSub(e) in ObservationSubs(c, o) && (id == e.key.source || id == e.key.target) && !id.SubnetNode?
    ensures || (exists j :: 0 <= j < |ObservationSubs(c, o)| && ObservationSubs(c, o)[j].NodeSub? && ObservationSubs(c, o)[j].id == id)
            || id == DeviceNode(c.local) || (id.VlanNode? && id.vlan in c.vlans)
  {
    var subs := ObservationSubs(c, o);
    assert subs[0].NodeSub?;
    assert |subs| > 1 && subs[1].NodeSub? ==> subs[1].id == subs[1].id;
    hide SubnetFor;
    if o.fact.content.Link? && id.VlanNode? && id.vlan !in c.vlans {
      assert subs[2].id == id;
    } else if o.fact.content.Lease? && o.fact.content.server.Some? && e.key.kind == DhcpLease {
      var n := |subs| - 2;
      assert subs[n] == DeviceSub(o.fact.content.server.value, o.fact.content.serverName);
    }
  }

  lemma MembershipTarget(c: Context, o: Observation, e: Edge, id: NodeId)
    requires EdgeSub(e) in ObservationSubs(c, o) && id.SubnetNode? && (id == e.key.source || id == e.key.target)
    ensures exists i :: 0 <= i < |c.subnets| && c.subnets[i].net == id.net
    ensures e.key.kind == Membership && id == e.key.target
    ensures exists a: nat :: SubnetFor(a, c.subnets).Some? && SubnetFor(a, c.subnets).value.net == id.net
  {
    var k := o.fact.content;
    var a := if k.HostAddress? || k.Lease? || k.Neighbor? then k.address else None;
    if a.Some? {
      SubnetForIsOne(a.value, c.subnets);
      hide SubnetFor;
      var s := SubnetFor(a.value, c.subnets);
      if s.Some? {
        var i :| 0 <= i < |c.subnets| && c.subnets[i] == s.value;
      }
    }
  }

  lemma NodeWithin(ev: Evidence, asOf: int, id: NodeId, l: Label)
    requires NodeSubmitted(AllSubs(ev, asOf), id, l)
    ensures id in GraphOf(ev, asOf).board.nodes
  {
    GatherPicks(EMPTY, AllSubs(ev, asOf), id);
    PickIsMinimum(AllSubs(ev, asOf), id);
    hide AllSubs, Gather, Pick;
  }

  lemma {:induction false} VlanIdIsSubmitted(s: seq<Vlan>, id: nat) returns (l: Label)
    requires id in VlanIds(s)
    ensures ByVlan(s, NodeSub(VlanNode(id), l))
  {
    var n := |s| - 1;
    if s[n].id == id {
      l := VlanSubs(s[n])[0].shown;
      assert VlanSubs(s[n])[0] in VlanSubs(s[n]);
    } else {
      hide VlanSubs;
      l := VlanIdIsSubmitted(s[..n], id);
      var i :| 0 <= i < n && NodeSub(VlanNode(id), l) in VlanSubs(s[..n][i]);
      assert s[i] == s[..n][i];
    }
  }

  /** Every endpoint of a submitted edge is a node of the graph. */
  lemma EndpointIsNode(ev: Evidence, asOf: int, e: Edge, id: NodeId)
    requires EdgeSubmitted(AllSubs(ev, asOf), e) && (id == e.key.source || id == e.key.target)
    ensures id in GraphOf(ev, asOf).board.nodes
  {
    SubmittersAre(ev, asOf, EdgeSub(e));
    hide AllSubs, VlanSubs, ObservationSubs, GraphOf, SubnetFor, SortedSubnets, SortedVlans, SortedObservations;
    var c := ContextOf(ev, asOf);
    if ByVlan(SortedVlans(ev, asOf), EdgeSub(e)) {
      var s := SortedVlans(ev, asOf);
      var i :| 0 <= i < |s| && EdgeSub(e) in VlanSubs(s[i]);
      VlanEndpoints(s[i], e);
      var l :| NodeSubmitted(VlanSubs(s[i]), id, l);
      SubmittersAre(ev, asOf, NodeSub(id, l));
      NodeWithin(ev, asOf, id, l);
    } else {
      var s := SortedObservations(ev, asOf);
      var i :| 0 <= i < |s| && EdgeSub(e) in ObservationSubs(c, s[i]);
      ObservationEndpoints(c, s[i], e, id);
      if HasNode(ObservationSubs(c, s[i]), id) {
        var l :| NodeSubmitted(ObservationSubs(c, s[i]), id, l);
        SubmittersAre(ev, asOf, NodeSub(id, l));
        NodeWithin(ev, asOf, id, l);
      } else if id == DeviceNode(c.local) {
        SubmittersAre(ev, asOf, DeviceSub(ev.local, ev.localName));
        NodeWithin(ev, asOf, id, Shown(ev.localName));
      } else if id.VlanNode? {
        var l := VlanIdIsSubmitted(SortedVlans(ev, asOf), id.vlan);
        SubmittersAre(ev, asOf, NodeSub(id, l));
        NodeWithin(ev, asOf, id, l);
      } else {
        SubmittersAre(ev, asOf, NodeSub(id, Cidr));
        NodeWithin(ev, asOf, id, Cidr);
      }
    }
  }

  /** Each edge of the graph is, among all edges that active evidence submits under its key, the
      lexicographic maximum of confidence, time and validity; it joins two nodes of the graph and is
      valid at the time of the snapshot. A key without an edge was never submitted. */
  lemma GraphEdgesAreExact(ev: Evidence, asOf: int, key: EdgeKey)
    ensures var g, subs := GraphOf(ev, asOf).board, AllSubs(ev, asOf);
            && (key !in g.edges ==> forall x: Edge :: EdgeSubmitted(subs, x) ==> x.key != key)
            && (key in g.edges ==>
                  && g.edges[key].key == key && IsMaximum(subs, g.edges[key]) && ValidAt(g.edges[key], asOf)
                  && key.source in g.nodes && key.target in g.nodes)
  {
    var subs := AllSubs(ev, asOf);
    EdgesAreMaxima(subs, key);
    var g := GraphOf(ev, asOf).board;
    if key in g.edges {
      hide AllSubs, Gather, ValidAt;
      SubmittedEdgesAreValid(ev, asOf, g.edges[key]);
      EndpointIsNode(ev, asOf, g.edges[key], key.source);
      EndpointIsNode(ev, asOf, g.edges[key], key.target);
    }
  }

  // ----- membership

  function AddressOf(k: Content): Option<nat> {
    if k.HostAddress? || k.Lease? || k.Neighbor? then k.address else None
  }

  /** An active observation puts an address into a network that is, of all active subnets around the
      address, the innermost. */
  ghost predicate Innermost(ev: Evidence, asOf: int, net: Network, o: Observation) {
    && o in ev.observations && StandingOf(TimeOf(o), asOf).Active?
    && AddressOf(o.fact.content).Some? && Contains(net, AddressOf(o.fact.content).value)
    && forall s :: s in ev.subnets && StandingOf(s.time, asOf).Active? && Contains(s.net, AddressOf(o.fact.content).value) ==>
         SubnetOf(net, s.net)
  }

  lemma MembershipComesFromAddress(c: Context, o: Observation, e: Edge)
    requires EdgeSub(e) in ObservationSubs(c, o) && e.key.kind == Membership
    ensures AddressOf(o.fact.content).Some?
    ensures var s := SubnetFor(AddressOf(o.fact.content).value, c.subnets);
            s.Some? && e.key.target == SubnetNode(s.value.net)
  {
    hide SubnetFor;
  }

  /** Each membership edge goes to the innermost active subnet around the address of an active
      observation. */
  lemma MembershipIsMostSpecific(ev: Evidence, asOf: int, key: EdgeKey) returns (o: Observation)
    requires forall s :: s in ev.subnets ==> IsNetwork(s.net)
    requires key in GraphOf(ev, asOf).board.edges && key.kind == Membership
    ensures key.target.SubnetNode? && Innermost(ev, asOf, key.target.net, o)
  {
    GraphEdgesAreExact(ev, asOf, key);
    var e := GraphOf(ev, asOf).board.edges[key];
    SubmittersAre(ev, asOf, EdgeSub(e));
    hide AllSubs, ObservationSubs, GraphOf, SubnetFor, SortBy, IsNetwork, Contains, SubnetOf, StandingOf;
    VlansMakeNoMembership(SortedVlans(ev, asOf), e);
    var c, obs := ContextOf(ev, asOf), SortedObservations(ev, asOf);
    var i :| 0 <= i < |obs| && EdgeSub(e) in ObservationSubs(c, obs[i]);
    o := obs[i];
    MembershipComesFromAddress(c, o, e);
    var a := AddressOf(o.fact.content).value;
    SubnetForIsOne(a, c.subnets);
    ActiveObservationsAre(SortBy(ObservationBefore, ev.observations), asOf, o);
    SortKeeps(ObservationBefore, ev.observations);
    SortKeeps(CidrBefore, ev.subnets);
    var best := SubnetFor(a, c.subnets).value;
    ActiveSubnetsAre(SortBy(CidrBefore, ev.subnets), asOf, best);
    forall s | s in ev.subnets && StandingOf(s.time, asOf).Active? && Contains(s.net, a) ensures SubnetOf(best.net, s.net) {
      ActiveSubnetsAre(SortBy(CidrBefore, ev.subnets), asOf, s);
      NetworksNest(best.net, s.net, a);
    }
  }

  lemma VlansMakeNoMembership(s: seq<Vlan>, e: Edge)
    requires e.key.kind == Membership
    ensures !ByVlan(s, EdgeSub(e))
  {
  }

  // ----- nothing is lost from the count

  lemma {:induction false} SubnetsAreCounted(t: Tally, s: seq<Subnet>, asOf: int)
    ensures var u := TallySubnets(t, s, asOf);
            |ActiveSubnets(s, asOf)| + u.expired + u.future == |s| + t.expired + t.future
  {
    if s != [] {
      SubnetsAreCounted(t, s[..|s| - 1], asOf);
    }
  }

  lemma {:induction false} VlansAreCounted(t: Tally, s: seq<Vlan>, asOf: int)
    ensures var u := TallyVlans(t, s, asOf);
            |ActiveVlans(s, asOf)| + u.expired + u.future == |s| + t.expired + t.future
  {
    if s != [] {
      VlansAreCounted(t, s[..|s| - 1], asOf);
    }
  }

  lemma {:induction false} ObservationsAreCounted(t: Tally, s: seq<Observation>, asOf: int)
    ensures var u := TallyObservations(t, s, asOf);
            |ActiveObservations(s, asOf)| + u.expired + u.future == |s| + t.expired + t.future
  {
    if s != [] {
      ObservationsAreCounted(t, s[..|s| - 1], asOf);
    }
  }

  /** Active, expired and future evidence together is all the evidence that was offered. */
  lemma EvidenceIsCounted(ev: Evidence, asOf: int)
    ensures var t := GraphOf(ev, asOf).tally;
            |SortedSubnets(ev, asOf)| + |SortedVlans(ev, asOf)| + |SortedObservations(ev, asOf)| + t.expired + t.future
            == |ev.subnets| + |ev.vlans| + |ev.observations|
  {
    SortKeeps(CidrBefore, ev.subnets);
    SortKeeps(VlanBefore, ev.vlans);
    SortKeeps(ObservationBefore, ev.observations);
    var s, v, o := SortBy(CidrBefore, ev.subnets), SortBy(VlanBefore, ev.vlans), SortBy(ObservationBefore, ev.observations);
    SubnetsAreCounted(Tally(0, 0), s, asOf);
    VlansAreCounted(TallySubnets(Tally(0, 0), s, asOf), v, asOf);
    ObservationsAreCounted(TallyVlans(TallySubnets(Tally(0, 0), s, asOf), v, asOf), o, asOf);
    hide SortBy, ActiveSubnets, ActiveVlans, ActiveObservations, TallySubnets, TallyVlans, TallyObservations;
  }
}
