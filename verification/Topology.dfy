/** Topology inference (`_Builder`, `build_topology` and its helpers, topology.py). A node's identity
    stands for its digest; a label is known by its exact text and by the rank of its case-folded text;
    an observation is given by what its fields say and by the rank of its sort key. */
module Topology {
  import opened Options
  import opened Numbers
  import opened Ipv4
  import opened Sorting

  const MAX_TIME := 253402300799999999   // datetime.max in microseconds

  /** Case-folded text, by its rank, and the exact text. */
  datatype Text = Text(folded: nat, exact: nat)
  datatype Device = Device(scheme: nat, identity: nat)

  datatype NodeId =
    | DeviceNode(device: Device)
    | SubnetNode(net: Network)
    | VlanNode(vlan: nat)
    | ServiceNode(service: nat)
    | InstanceNode(instance: nat)

  /** "VLAN 5" comes before "VLAN 5 - name". */
  datatype Label = Shown(text: Text) | Cidr | PlainVlan | NamedVlan(name: Text)

  function Rank(l: Label): int {
    match l
    case Shown(text) => text.folded
    case Cidr => 0
    case PlainVlan => -1
    case NamedVlan(name) => name.folded
  }

  datatype EdgeKind = LinkNeighbor | ObservedVlan | Advertises | ServiceHost | Membership | DhcpLease | VlanSubnet
  datatype EdgeKey = EdgeKey(source: NodeId, target: NodeId, kind: EdgeKind, evidence: nat)
  datatype Edge = Edge(key: EdgeKey, confidence: real, observedAt: int, validUntil: Option<int>)

  function Until(e: Edge): int {
    if e.validUntil.None? then MAX_TIME else e.validUntil.value
  }

  /** Lexicographically greater in confidence, time and validity. */
  predicate Exceeds(a: Edge, b: Edge) {
    a.confidence > b.confidence
    || (a.confidence == b.confidence
        && (a.observedAt > b.observedAt || (a.observedAt == b.observedAt && Until(a) > Until(b))))
  }

  // ----- evidence

  datatype Validity = Validity(observedAt: int, validUntil: Option<int>)
  datatype Subnet = Subnet(net: Network, source: nat, confidence: real, time: Validity)
  datatype Vlan = Vlan(id: nat, source: nat, subnet: Option<Network>, name: Option<Text>, confidence: real, time: Validity)

  /** What the fields of an observation say, by its kind; `Nothing` where they say too little, or the
      kind or action is of no interest. */
  datatype Content =
    | Link(remote: Device, remoteName: Text, vlan: Option<nat>)
    | Service(service: nat, serviceName: Text, instance: nat, instanceName: Text)
    | Instance(instance: nat, instanceName: Text, host: Device, hostName: Text)
    | HostAddress(host: Device, hostName: Text, address: Option<nat>)
    | Lease(client: Device, clientName: Text, address: Option<nat>, server: Option<Device>, serverName: Text)
    | Neighbor(device: Device, deviceName: Text, address: Option<nat>)
    | Nothing
  datatype Fact = Fact(order: nat, content: Content, source: nat, observedAt: int)
  datatype Observation = Observation(fact: Fact, validUntil: Option<int>)

  function TimeOf(o: Observation): Validity {
    Validity(o.fact.observedAt, o.validUntil)
  }

  datatype Standing = Future | Expired | Active

  /** `_Builder.active`. */
  function StandingOf(t: Validity, asOf: int): Standing {
    if t.observedAt > asOf then Future
    else if t.validUntil.Some? && t.validUntil.value <= asOf then Expired
    else Active
  }

  // ----- what is submitted to the builder

  datatype Submission = NodeSub(id: NodeId, shown: Label) | EdgeSub(edge: Edge)

  function DeviceSub(d: Device, name: Text): Submission {
    NodeSub(DeviceNode(d), Shown(name))
  }

  /** The local node, the active subnets in order, and the VLANs with active evidence of their own. */
  datatype Context = Context(local: Device, subnets: seq<Subnet>, vlans: set<nat>)

  /** `_subnet_for`: the first of the most specific subnets around an address. */
  function SubnetFor(address: nat, subnets: seq<Subnet>): Option<Subnet> {
    if subnets == [] then None else
      var before, s := SubnetFor(address, subnets[..|subnets| - 1]), subnets[|subnets| - 1];
      if Contains(s.net, address) && (before.None? || s.net.prefix > before.value.net.prefix) then Some(s) else before
  }

  function EdgeOf(source: NodeId, target: NodeId, kind: EdgeKind, evidence: nat, confidence: real, t: Validity): Submission {
    EdgeSub(Edge(EdgeKey(source, target, kind, evidence), confidence, t.observedAt, t.validUntil))
  }

  /** `_membership`. */
  function MembershipSubs(c: Context, device: Device, address: Option<nat>, o: Observation, confidence: real): seq<Submission> {
    if address.None? then [] else
      var s := SubnetFor(address.value, c.subnets);
      if s.None? then [] else
        [EdgeOf(DeviceNode(device), SubnetNode(s.value.net), Membership, o.fact.source, Lower(confidence, s.value.confidence), TimeOf(o))]
  }

  function VlanSubs(v: Vlan): seq<Submission> {
    [NodeSub(VlanNode(v.id), if v.name.None? then PlainVlan else NamedVlan(v.name.value))]
    + if v.subnet.None? then [] else
        [NodeSub(SubnetNode(v.subnet.value), Cidr),
         EdgeOf(VlanNode(v.id), SubnetNode(v.subnet.value), VlanSubnet, v.source, v.confidence, v.time)]
  }

  function LinkSubs(c: Context, o: Observation, remote: Device, name: Text, vlan: Option<nat>): seq<Submission> {
    [DeviceSub(remote, name),
     EdgeOf(DeviceNode(c.local), DeviceNode(remote), LinkNeighbor, o.fact.source, 0.99, TimeOf(o))]
    + (if vlan.None? then [] else
         (if vlan.value in c.vlans then [] else [NodeSub(VlanNode(vlan.value), PlainVlan)])
         + [EdgeOf(DeviceNode(remote), VlanNode(vlan.value), ObservedVlan, o.fact.source, 0.95, TimeOf(o))])
  }

  function ServerSubs(o: Observation, client: Device, server: Option<Device>, name: Text): seq<Submission> {
    if server.None? then [] else
      [DeviceSub(server.value, name),
       EdgeOf(DeviceNode(server.value), DeviceNode(client), DhcpLease, o.fact.source, 0.90, TimeOf(o))]
  }

  function ObservationSubs(c: Context, o: Observation): seq<Submission> {
    match o.fact.content
    case Link(remote, name, vlan) => LinkSubs(c, o, remote, name, vlan)
    case Service(s, sn, i, iname) =>
      [NodeSub(ServiceNode(s), Shown(sn)), NodeSub(InstanceNode(i), Shown(iname)),
       EdgeOf(ServiceNode(s), InstanceNode(i), Advertises, o.fact.source, 0.95, TimeOf(o))]
    case Instance(i, iname, h, hn) =>
      [NodeSub(InstanceNode(i), Shown(iname)), DeviceSub(h, hn),
       EdgeOf(InstanceNode(i), DeviceNode(h), ServiceHost, o.fact.source, 0.95, TimeOf(o))]
    case HostAddress(h, hn, a) => [DeviceSub(h, hn)] + MembershipSubs(c, h, a, o, 0.70)
    case Lease(client, name, a, server, sn) =>
      [DeviceSub(client, name)] + MembershipSubs(c, client, a, o, 0.90) + ServerSubs(o, client, server, sn)
    case Neighbor(d, name, a) => [DeviceSub(d, name)] + MembershipSubs(c, d, a, o, 0.75)
    case Nothing => []
  }

  // ----- the builder

  datatype Board = Board(nodes: map<NodeId, Label>, edges: map<EdgeKey, Edge>)

  function Place(b: Board, s: Submission): Board {
    match s
    case NodeSub(id, shown) =>
      if id in b.nodes && Rank(b.nodes[id]) <= Rank(shown) then b else b.(nodes := b.nodes[id := shown])
    case EdgeSub(e) =>
      if e.key in b.edges && !Exceeds(e, b.edges[e.key]) then b else b.(edges := b.edges[e.key := e])
  }

  function Gather(b: Board, subs: seq<Submission>): Board {
    if subs == [] then b else Place(Gather(b, subs[..|subs| - 1]), subs[|subs| - 1])
  }

  /** An edge from a node to itself is an error. */
  predicate SelfEdge(s: Submission) {
    s.EdgeSub? && s.edge.key.source == s.edge.key.target
  }

  predicate NoSelfEdge(subs: seq<Submission>) {
    subs == [] || (NoSelfEdge(subs[..|subs| - 1]) && !SelfEdge(subs[|subs| - 1]))
  }

  lemma {:induction false} GatherAppend(b: Board, x: seq<Submission>, y: seq<Submission>)
    ensures Gather(b, x + y) == Gather(Gather(b, x), y)
    ensures NoSelfEdge(x + y) <==> NoSelfEdge(x) && NoSelfEdge(y)
  {
    if y == [] {
      assert x + y == x;
    } else {
      assert (x + y)[..|x + y| - 1] == x + y[..|y| - 1];
      GatherAppend(b, x, y[..|y| - 1]);
    }
  }

  // ----- the whole graph

  predicate CidrBefore(a: Subnet, b: Subnet) {
    a.net.base < b.net.base || (a.net.base == b.net.base && a.net.prefix < b.net.prefix)
  }

  predicate VlanBefore(a: Vlan, b: Vlan) {
    a.id < b.id || (a.id == b.id && a.source < b.source)
  }

  predicate ObservationBefore(a: Observation, b: Observation) {
    a.fact.order < b.fact.order
  }

  function ActiveSubnets(s: seq<Subnet>, asOf: int): seq<Subnet> {
    if s == [] then [] else
      ActiveSubnets(s[..|s| - 1], asOf) + if StandingOf(s[|s| - 1].time, asOf).Active? then [s[|s| - 1]] else []
  }

  function ActiveVlans(s: seq<Vlan>, asOf: int): seq<Vlan> {
    if s == [] then [] else
      ActiveVlans(s[..|s| - 1], asOf) + if StandingOf(s[|s| - 1].time, asOf).Active? then [s[|s| - 1]] else []
  }

  function ActiveObservations(s: seq<Observation>, asOf: int): seq<Observation> {
    if s == [] then [] else
      ActiveObservations(s[..|s| - 1], asOf) + if StandingOf(TimeOf(s[|s| - 1]), asOf).Active? then [s[|s| - 1]] else []
  }

  function SubnetSubs(s: seq<Subnet>): seq<Submission> {
    if s == [] then [] else SubnetSubs(s[..|s| - 1]) + [NodeSub(SubnetNode(s[|s| - 1].net), Cidr)]
  }

  function AllVlanSubs(s: seq<Vlan>): seq<Submission> {
    if s == [] then [] else AllVlanSubs(s[..|s| - 1]) + VlanSubs(s[|s| - 1])
  }

  function VlanIds(s: seq<Vlan>): set<nat> {
    if s == [] then {} else VlanIds(s[..|s| - 1]) + {s[|s| - 1].id}
  }

  function AllObservationSubs(c: Context, s: seq<Observation>): seq<Submission> {
    if s == [] then [] else AllObservationSubs(c, s[..|s| - 1]) + ObservationSubs(c, s[|s| - 1])
  }

  datatype Evidence = Evidence(
    local: Device, localName: Text, subnets: seq<Subnet>, vlans: seq<Vlan>, observations: seq<Observation>)

  function SortedSubnets(ev: Evidence, asOf: int): seq<Subnet> {
    ActiveSubnets(SortBy(CidrBefore, ev.subnets), asOf)
  }

  function SortedVlans(ev: Evidence, asOf: int): seq<Vlan> {
    ActiveVlans(SortBy(VlanBefore, ev.vlans), asOf)
  }

  function SortedObservations(ev: Evidence, asOf: int): seq<Observation> {
    ActiveObservations(SortBy(ObservationBefore, ev.observations), asOf)
  }

  function ContextOf(ev: Evidence, asOf: int): Context {
    Context(ev.local, SortedSubnets(ev, asOf), VlanIds(SortedVlans(ev, asOf)))
  }

  /** Everything that is submitted, in order. */
  function AllSubs(ev: Evidence, asOf: int): seq<Submission> {
    [DeviceSub(ev.local, ev.localName)] + SubnetSubs(SortedSubnets(ev, asOf)) + AllVlanSubs(SortedVlans(ev, asOf))
    + AllObservationSubs(ContextOf(ev, asOf), SortedObservations(ev, asOf))
  }

  datatype Tally = Tally(expired: nat, future: nat)

  function Plus(a: Tally, s: Standing): Tally {
    match s
    case Active => a
    case Expired => a.(expired := a.expired + 1)
    case Future => a.(future := a.future + 1)
  }

  function TallySubnets(t: Tally, s: seq<Subnet>, asOf: int): Tally {
    if s == [] then t else Plus(TallySubnets(t, s[..|s| - 1], asOf), StandingOf(s[|s| - 1].time, asOf))
  }

  function TallyVlans(t: Tally, s: seq<Vlan>, asOf: int): Tally {
    if s == [] then t else Plus(TallyVlans(t, s[..|s| - 1], asOf), StandingOf(s[|s| - 1].time, asOf))
  }

  function TallyObservations(t: Tally, s: seq<Observation>, asOf: int): Tally {
    if s == [] then t else Plus(TallyObservations(t, s[..|s| - 1], asOf), StandingOf(TimeOf(s[|s| - 1]), asOf))
  }

  function TallyOf(ev: Evidence, asOf: int): Tally {
    TallyObservations(
      TallyVlans(TallySubnets(Tally(0, 0), SortBy(CidrBefore, ev.subnets), asOf), SortBy(VlanBefore, ev.vlans), asOf),
      SortBy(ObservationBefore, ev.observations), asOf)
  }

  datatype Graph = Graph(board: Board, tally: Tally)

  /** An observation that is said to expire before it was made is refused. */
  predicate Timely(o: Observation) {
    o.validUntil.Some? ==> o.validUntil.value >= o.fact.observedAt
  }

  predicate AllTimely(s: seq<Observation>) {
    s == [] || (AllTimely(s[..|s| - 1]) && Timely(s[|s| - 1]))
  }

  predicate Buildable(ev: Evidence, asOf: int) {
    AllTimely(SortBy(ObservationBefore, ev.observations)) && NoSelfEdge(AllSubs(ev, asOf))
  }

  function GraphOf(ev: Evidence, asOf: int): Graph {
    Graph(Gather(Board(map[], map[]), AllSubs(ev, asOf)), TallyOf(ev, asOf))
  }
}
