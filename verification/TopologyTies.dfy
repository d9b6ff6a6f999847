/** Evidence whose order does matter: one example for each proviso under which TopologyOrder shows
    that it does not. */
module TopologyTies {
  import opened Options
  import opened Ipv4
  import opened Sorting
  import opened Topology
  import opened TopologyGraph
  import opened TopologyOrder

  lemma TwoStay<T>(before: (T, T) -> bool, x: T, y: T)
    requires !before(y, x)
    ensures SortBy(before, [x, y]) == [x, y]
  {
    OneStays(before, x);
    assert [x, y][..1] == [x] && [x][1..] == [] && Insert(before, y, []) == [y];
  }

  lemma OneStays<T>(before: (T, T) -> bool, x: T)
    ensures SortBy(before, [x]) == [x]
  {
    assert [x][..0] == [];
  }

  lemma GatherOne(b: Board, s: Submission)
    ensures Gather(b, [s]) == Place(b, s)
  {
    assert [s][..0] == [];
  }

  lemma GatherTwo(b: Board, s: Submission, t: Submission)
    ensures Gather(b, [s, t]) == Place(Place(b, s), t)
  {
    assert [s, t][..1] == [s];
    GatherOne(b, s);
  }

  // ----- an end of validity in the last moment

  const LOCAL := Device(0, 0)
  const REMOTE := Device(0, 1)
  const NAME := Text(0, 0)
  const MEETING := Fact(0, Link(REMOTE, NAME, None), 0, 0)
  const FOREVER := Observation(MEETING, None)
  const TO_THE_END := Observation(MEETING, Some(MAX_TIME))
  const BOND := EdgeKey(DeviceNode(LOCAL), DeviceNode(REMOTE), LinkNeighbor, 0)

  function Seen(o: Observation, p: Observation): Evidence {
    Evidence(LOCAL, NAME, [], [], [o, p])
  }

  lemma ObservationsOfTwo(c: Context, o: Observation, p: Observation)
    requires StandingOf(TimeOf(o), 0).Active? && StandingOf(TimeOf(p), 0).Active?
    ensures AllObservationSubs(c, ActiveObservations([o, p], 0)) == ObservationSubs(c, o) + ObservationSubs(c, p)
  {
    hide StandingOf, ObservationSubs;
    assert [o, p][..1] == [o] && [o][..0] == [];
    assert ActiveObservations([o], 0) == [] + [o] == [o];
    assert ActiveObservations([o, p], 0) == [o] + [p] == [o, p];
    assert AllObservationSubs(c, [o]) == [] + ObservationSubs(c, o) == ObservationSubs(c, o);
  }

  /** Two edges of one key, between nodes. */
  lemma TwoEdges(first: Submission, node: Submission, e: Edge, f: Edge)
    requires first.NodeSub? && node.NodeSub? && e.key == f.key
    ensures var b := Gather(EMPTY, [first] + ([node, EdgeSub(e)] + [node, EdgeSub(f)]));
            e.key in b.edges && b.edges[e.key] == if Exceeds(f, e) then f else e
  {
    var x, y := EdgeSub(e), EdgeSub(f);
    GatherAppend(EMPTY, [first], [node, x] + [node, y]);
    GatherOne(EMPTY, first);
    var b := Place(EMPTY, first);
    GatherAppend(b, [node, x], [node, y]);
    GatherTwo(b, node, x);
    GatherTwo(Place(Place(b, node), x), node, y);
    hide Gather, Exceeds, Rank;
  }

  /** Without other evidence only the local node and the observations are submitted. */
  lemma OnlyObservations(o: Observation, p: Observation)
    requires !ObservationBefore(p, o)
    ensures var ev := Seen(o, p);
            AllSubs(ev, 0) == [DeviceSub(LOCAL, NAME)] + AllObservationSubs(ContextOf(ev, 0), ActiveObservations([o, p], 0))
  {
    var ev := Seen(o, p);
    TwoStay(ObservationBefore, o, p);
    assert SortedSubnets(ev, 0) == [] && SortedVlans(ev, 0) == [];
    hide ActiveObservations, AllObservationSubs, SortBy;
    var rest := AllObservationSubs(ContextOf(ev, 0), ActiveObservations([o, p], 0));
    assert [DeviceSub(LOCAL, NAME)] + [] + [] + rest == [DeviceSub(LOCAL, NAME)] + rest;
  }

  lemma SeenSubs(o: Observation, p: Observation)
    requires o in {FOREVER, TO_THE_END} && p in {FOREVER, TO_THE_END}
    ensures var there := DeviceSub(REMOTE, NAME);
            AllSubs(Seen(o, p), 0)
            == [DeviceSub(LOCAL, NAME)] + ([there, EdgeSub(Met(o))] + [there, EdgeSub(Met(p))])
  {
    OnlyObservations(o, p);
    var c := ContextOf(Seen(o, p), 0);
    ObservationsOfTwo(c, o, p);
    SeenOnce(c, o);
    SeenOnce(c, p);
    hide ContextOf, AllObservationSubs, ObservationSubs, ActiveObservations, AllSubs;
  }

  lemma SeenOnce(c: Context, o: Observation)
    requires o in {FOREVER, TO_THE_END} && c.local == LOCAL
    ensures ObservationSubs(c, o) == [DeviceSub(REMOTE, NAME), EdgeSub(Met(o))]
  {
  }

  function Met(o: Observation): Edge { Edge(BOND, 0.99, 0, o.validUntil) }

  /** Two sightings of one link: the first one's edge stays unless the second exceeds it. */
  lemma SeenTwice(o: Observation, p: Observation)
    requires o in {FOREVER, TO_THE_END} && p in {FOREVER, TO_THE_END}
    ensures BOND in GraphOf(Seen(o, p), 0).board.edges
    ensures GraphOf(Seen(o, p), 0).board.edges[BOND] == Met(o)
  {
    SeenSubs(o, p);
    TwoEdges(DeviceSub(LOCAL, NAME), DeviceSub(REMOTE, NAME), Met(o), Met(p));
    hide AllSubs, Gather;
  }

  lemma TwoEdgesDiffer(first: Submission, node: Submission, e: Edge, f: Edge)
    requires first.NodeSub? && node.NodeSub? && !SelfEdge(EdgeSub(e)) && !SelfEdge(EdgeSub(f))
    ensures NoSelfEdge([first] + ([node, EdgeSub(e)] + [node, EdgeSub(f)]))
  {
    var all := [first] + ([node, EdgeSub(e)] + [node, EdgeSub(f)]);
    NoSelfEdgeIs(all);
    assert all == [first, node, EdgeSub(e), node, EdgeSub(f)];
    hide NoSelfEdge;
  }

  lemma TimelyTwo(o: Observation, p: Observation)
    requires Timely(o) && Timely(p)
    ensures AllTimely([o, p])
  {
    hide Timely;
    assert [o, p][..1] == [o] && [o][..0] == [];
    assert AllTimely([o]);
  }

  lemma SeenIsBuildable(o: Observation, p: Observation)
    requires o in {FOREVER, TO_THE_END} && p in {FOREVER, TO_THE_END}
    ensures Buildable(Seen(o, p), 0)
  {
    TimelyTwo(o, p);
    SeenSubs(o, p);
    TwoEdgesDiffer(DeviceSub(LOCAL, NAME), DeviceSub(REMOTE, NAME), Met(o), Met(p));
    TwoStay(ObservationBefore, o, p);
    hide AllSubs, NoSelfEdge, SortBy, AllTimely;
  }

  /** The same two sightings in both orders give two graphs: an open end and an end in the last moment
      there is rank alike, and the first one submitted stays. */
  lemma LastMomentDependsOnOrder()
    ensures var a, b := Seen(FOREVER, TO_THE_END), Seen(TO_THE_END, FOREVER);
            SameEvidence(a, b) && Buildable(a, 0) && Buildable(b, 0) && GraphOf(a, 0) != GraphOf(b, 0)
  {
    hide GraphOf, Buildable;
    SeenTwice(FOREVER, TO_THE_END);
    SeenTwice(TO_THE_END, FOREVER);
    SeenIsBuildable(FOREVER, TO_THE_END);
    SeenIsBuildable(TO_THE_END, FOREVER);
    assert Met(FOREVER) != Met(TO_THE_END);
    TwoSwap(FOREVER, TO_THE_END);
  }

  lemma TwoSwap<T>(x: T, y: T)
    ensures multiset([x, y]) == multiset([y, x])
  {
  }

  // ----- names that differ only in case

  const LOWER := Vlan(5, 0, None, Some(Text(1, 1)), 1.0, Validity(0, None))
  const UPPER := Vlan(5, 0, None, Some(Text(1, 2)), 1.0, Validity(0, None))

  function Named(v: Vlan, w: Vlan): Evidence {
    Evidence(LOCAL, NAME, [], [v, w], [])
  }

  lemma VlansOfTwo(v: Vlan, w: Vlan)
    requires StandingOf(v.time, 0).Active? && StandingOf(w.time, 0).Active?
    ensures AllVlanSubs(ActiveVlans([v, w], 0)) == VlanSubs(v) + VlanSubs(w)
  {
    hide StandingOf, VlanSubs;
    assert [v, w][..1] == [v] && [v][..0] == [];
    assert ActiveVlans([v], 0) == [] + [v] == [v];
    assert ActiveVlans([v, w], 0) == [v] + [w] == [v, w];
    assert AllVlanSubs([v]) == [] + VlanSubs(v) == VlanSubs(v);
  }

  lemma OnlyVlans(v: Vlan, w: Vlan)
    requires !VlanBefore(w, v)
    ensures AllSubs(Named(v, w), 0) == [DeviceSub(LOCAL, NAME)] + AllVlanSubs(ActiveVlans([v, w], 0))
  {
    var ev := Named(v, w);
    TwoStay(VlanBefore, v, w);
    assert SortedSubnets(ev, 0) == [] && SortedObservations(ev, 0) == [];
    hide ActiveVlans, AllVlanSubs, SortBy;
    var local, named := [DeviceSub(LOCAL, NAME)], AllVlanSubs(ActiveVlans([v, w], 0));
    assert local + [] + named + [] == local + named;
  }

  lemma NamedSubs(v: Vlan, w: Vlan)
    requires v in {LOWER, UPPER} && w in {LOWER, UPPER}
    ensures AllSubs(Named(v, w), 0) == [DeviceSub(LOCAL, NAME)] + ([Naming(v)] + [Naming(w)])
  {
    OnlyVlans(v, w);
    VlansOfTwo(v, w);
    assert VlanSubs(v) == [Naming(v)] && VlanSubs(w) == [Naming(w)];
    hide VlanSubs, AllVlanSubs, ActiveVlans, AllSubs;
  }

  function Naming(v: Vlan): Submission
    requires v.name.Some?
  {
    NodeSub(VlanNode(v.id), NamedVlan(v.name.value))
  }

  /** Of two labels of one node the first stays unless the second ranks before it. */
  lemma TwoLabels(first: Submission, id: NodeId, l: Label, m: Label)
    requires first.NodeSub? && first.id != id && Rank(l) <= Rank(m)
    ensures var b := Gather(EMPTY, [first] + ([NodeSub(id, l)] + [NodeSub(id, m)]));
            id in b.nodes && b.nodes[id] == l
  {
    hide Rank;
    var x, y := NodeSub(id, l), NodeSub(id, m);
    assert [x] + [y] == [x, y];
    GatherAppend(EMPTY, [first], [x, y]);
    GatherOne(EMPTY, first);
    GatherTwo(Place(EMPTY, first), x, y);
    hide Gather;
  }

  lemma NamedTwice(v: Vlan, w: Vlan)
    requires v in {LOWER, UPPER} && w in {LOWER, UPPER}
    ensures VlanNode(5) in GraphOf(Named(v, w), 0).board.nodes
    ensures GraphOf(Named(v, w), 0).board.nodes[VlanNode(5)] == NamedVlan(v.name.value)
  {
    NamedSubs(v, w);
    hide AllSubs, Gather, Place;
    TwoLabels(DeviceSub(LOCAL, NAME), VlanNode(5), NamedVlan(v.name.value), NamedVlan(w.name.value));
  }

  /** Two names of one VLAN that differ only in case rank alike, and the first one stays. */
  lemma CaseDependsOnOrder()
    ensures var a, b := Named(LOWER, UPPER), Named(UPPER, LOWER);
            SameEvidence(a, b) && GraphOf(a, 0) != GraphOf(b, 0)
  {
    hide GraphOf;
    NamedTwice(LOWER, UPPER);
    NamedTwice(UPPER, LOWER);
    TwoSwap(LOWER, UPPER);
  }

  // ----- two pieces of evidence for one subnet

  const NET := Network(0, 31)
  const WEAK := Subnet(NET, 0, 0.25, Validity(0, None))
  const STRONG := Subnet(NET, 1, 0.5, Validity(0, None))
  const GUEST := Observation(Fact(0, Neighbor(REMOTE, NAME, Some(1)), 0, 0), None)
  const STAY := EdgeKey(DeviceNode(REMOTE), SubnetNode(NET), Membership, 0)

  function Twin(s: Subnet, t: Subnet): Evidence {
    Evidence(LOCAL, NAME, [s, t], [], [GUEST])
  }

  lemma SubnetsOfTwo(s: Subnet, t: Subnet)
    requires s in {WEAK, STRONG} && t in {WEAK, STRONG}
    ensures SortedSubnets(Twin(s, t), 0) == [s, t]
    ensures SubnetSubs([s, t]) == [NodeSub(SubnetNode(NET), Cidr), NodeSub(SubnetNode(NET), Cidr)]
  {
    TwoStay(CidrBefore, s, t);
    assert [s, t][..1] == [s] && [s][..0] == [];
    assert ActiveSubnets([s], 0) == [] + [s] == [s];
    assert SubnetSubs([s]) == [] + [NodeSub(SubnetNode(NET), Cidr)];
    hide SortBy;
  }

  lemma FirstIsFound(s: Subnet, t: Subnet)
    requires s in {WEAK, STRONG} && t in {WEAK, STRONG}
    ensures SubnetFor(1, [s, t]) == Some(s)
  {
    assert [s, t][..1] == [s] && [s][..0] == [];
    assert Contains(NET, 1);
    assert SubnetFor(1, [s]) == Some(s);
  }

  lemma GuestSubs(s: Subnet, t: Subnet)
    requires s in {WEAK, STRONG} && t in {WEAK, STRONG}
    ensures var ev := Twin(s, t); var c := ContextOf(ev, 0);
            AllObservationSubs(c, SortedObservations(ev, 0))
            == [DeviceSub(REMOTE, NAME), EdgeSub(Edge(STAY, s.confidence, 0, None))]
  {
    var ev := Twin(s, t);
    var c := ContextOf(ev, 0);
    SubnetsOfTwo(s, t);
    FirstIsFound(s, t);
    OneStays(ObservationBefore, GUEST);
    assert [GUEST][..0] == [];
    assert ActiveObservations([GUEST], 0) == [] + [GUEST] == [GUEST];
    assert MembershipSubs(c, REMOTE, Some(1), GUEST, 0.75) == [EdgeSub(Edge(STAY, s.confidence, 0, None))];
    hide SubnetFor, SortBy, MembershipSubs, ContextOf, SortedSubnets;
    assert AllObservationSubs(c, [GUEST]) == [] + ObservationSubs(c, GUEST) == ObservationSubs(c, GUEST);
  }

  lemma TwinGraph(s: Subnet, t: Subnet)
    requires s in {WEAK, STRONG} && t in {WEAK, STRONG}
    ensures STAY in GraphOf(Twin(s, t), 0).board.edges
    ensures GraphOf(Twin(s, t), 0).board.edges[STAY].confidence == s.confidence
  {
    var ev := Twin(s, t);
    SubnetsOfTwo(s, t);
    GuestSubs(s, t);
    assert SortedVlans(ev, 0) == [];
    var before := [DeviceSub(LOCAL, NAME)] + SubnetSubs([s, t]);
    var guest, stay := DeviceSub(REMOTE, NAME), EdgeSub(Edge(STAY, s.confidence, 0, None));
    hide SortedSubnets, SortedVlans, SortedObservations, ContextOf, AllObservationSubs, SubnetSubs, Gather;
    assert AllSubs(ev, 0) == before + [guest, stay];
    NodesBringNoEdge(DeviceSub(LOCAL, NAME), NodeSub(SubnetNode(NET), Cidr));
    GatherAppend(EMPTY, before, [guest, stay]);
    GatherTwo(Gather(EMPTY, before), guest, stay);
    hide AllSubs;
  }

  lemma NodesBringNoEdge(first: Submission, node: Submission)
    requires first.NodeSub? && node.NodeSub?
    ensures Gather(EMPTY, [first] + [node, node]).edges == map[]
  {
    GatherAppend(EMPTY, [first], [node, node]);
    GatherOne(EMPTY, first);
    GatherTwo(Place(EMPTY, first), node, node);
    hide Gather;
  }

  /** Of two pieces of evidence for one subnet the first gives a membership its confidence. */
  lemma TwinSubnetsDependOnOrder()
    ensures var a, b := Twin(WEAK, STRONG), Twin(STRONG, WEAK);
            SameEvidence(a, b) && GraphOf(a, 0) != GraphOf(b, 0)
  {
    hide GraphOf;
    TwinGraph(WEAK, STRONG);
    TwinGraph(STRONG, WEAK);
    TwoSwap(WEAK, STRONG);
  }
}
