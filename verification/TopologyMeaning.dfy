/** What a topology graph says, in terms of the evidence alone: which nodes and edges each piece of
    current evidence calls for, and that the graph has these and no others. */
module TopologyMeaning {
  import opened Options
  import opened Ipv4
  import opened Sorting
  import opened Topology
  import opened TopologyGraph

  // ----- what evidence says

  predicate Current(t: Validity, asOf: int) {
    t.observedAt <= asOf && (t.validUntil.Some? ==> asOf < t.validUntil.value)
  }

  ghost predicate Around(ev: Evidence, asOf: int, i: int, address: nat) {
    0 <= i < |ev.subnets| && Current(ev.subnets[i].time, asOf) && Contains(ev.subnets[i].net, address)
  }

  /** Of the current subnets around an address, the first with the longest prefix. */
  ghost predicate IsInnermost(ev: Evidence, asOf: int, i: int, address: nat) {
    && Around(ev, asOf, i, address)
    && forall j :: Around(ev, asOf, j, address) ==>
         || ev.subnets[j].net.prefix < ev.subnets[i].net.prefix
         || (ev.subnets[j].net.prefix == ev.subnets[i].net.prefix && i <= j)
  }

  predicate Joins(e: Edge, source: NodeId, target: NodeId, kind: EdgeKind) {
    e.key.source == source && e.key.target == target && e.key.kind == kind
  }

  /** An observation sees a device at an address, with a confidence that depends on its kind. */
  predicate PutsAt(k: Content, d: Device, address: nat, confidence: real) {
    || (k.HostAddress? && k.host == d && k.address == Some(address) && confidence == 0.70)
    || (k.Lease? && k.client == d && k.address == Some(address) && confidence == 0.90)
    || (k.Neighbor? && k.device == d && k.address == Some(address) && confidence == 0.75)
  }

  /** The device belongs to the innermost subnet, with the lower of the two confidences. */
  ghost predicate MemberSaid(ev: Evidence, asOf: int, k: Content, e: Edge) {
    exists d: Device, a: nat, c: real, i: int ::
      && PutsAt(k, d, a, c) && IsInnermost(ev, asOf, i, a)
      && Joins(e, DeviceNode(d), SubnetNode(ev.subnets[i].net), Membership)
      && e.confidence == if ev.subnets[i].confidence < c then ev.subnets[i].confidence else c
  }

  /** All other edges an observation may call for. */
  predicate PlainlySaid(local: Device, k: Content, e: Edge) {
    || (k.Link? && Joins(e, DeviceNode(local), DeviceNode(k.remote), LinkNeighbor) && e.confidence == 0.99)
    || (k.Link? && k.vlan.Some? && Joins(e, DeviceNode(k.remote), VlanNode(k.vlan.value), ObservedVlan) && e.confidence == 0.95)
    || (k.Service? && Joins(e, ServiceNode(k.service), InstanceNode(k.instance), Advertises) && e.confidence == 0.95)
    || (k.Instance? && Joins(e, InstanceNode(k.instance), DeviceNode(k.host), ServiceHost) && e.confidence == 0.95)
    || (k.Lease? && k.server.Some? && Joins(e, DeviceNode(k.server.value), DeviceNode(k.client), DhcpLease) && e.confidence == 0.90)
  }

  ghost predicate SaidBy(ev: Evidence, asOf: int, o: Observation, e: Edge) {
    && e.key.evidence == o.fact.source && e.observedAt == o.fact.observedAt && e.validUntil == o.validUntil
    && (PlainlySaid(ev.local, o.fact.content, e) || MemberSaid(ev, asOf, o.fact.content, e))
  }

  predicate SaidByVlan(v: Vlan, e: Edge) {
    && v.subnet.Some? && Joins(e, VlanNode(v.id), SubnetNode(v.subnet.value), VlanSubnet)
    && e.key.evidence == v.source && e.confidence == v.confidence
    && e.observedAt == v.time.observedAt && e.validUntil == v.time.validUntil
  }

  ghost predicate EdgeSaid(ev: Evidence, asOf: int, e: Edge) {
    || (exists o :: o in ev.observations && Current(TimeOf(o), asOf) && SaidBy(ev, asOf, o, e))
    || (exists v :: v in ev.vlans && Current(v.time, asOf) && SaidByVlan(v, e))
  }

  /** The names an observation gives; a VLAN seen on a link is named after its number unless there is
      evidence of the VLAN itself. */
  ghost predicate NamedBy(ev: Evidence, asOf: int, k: Content, id: NodeId, l: Label) {
    || (k.Link? && id == DeviceNode(k.remote) && l == Shown(k.remoteName))
    || (k.Link? && k.vlan.Some? && id == VlanNode(k.vlan.value) && l == PlainVlan
        && forall v :: v in ev.vlans && Current(v.time, asOf) ==> v.id != k.vlan.value)
    || (k.Service? && id == ServiceNode(k.service) && l == Shown(k.serviceName))
    || ((k.Service? || k.Instance?) && id == InstanceNode(k.instance) && l == Shown(k.instanceName))
    || ((k.Instance? || k.HostAddress?) && id == DeviceNode(k.host) && l == Shown(k.hostName))
    || (k.Lease? && id == DeviceNode(k.client) && l == Shown(k.clientName))
    || (k.Lease? && k.server.Some? && id == DeviceNode(k.server.value) && l == Shown(k.serverName))
    || (k.Neighbor? && id == DeviceNode(k.device) && l == Shown(k.deviceName))
  }

  predicate NamedByVlan(v: Vlan, id: NodeId, l: Label) {
    || (id == VlanNode(v.id) && v.name.None? && l == PlainVlan)
    || (id == VlanNode(v.id) && v.name.Some? && l == NamedVlan(v.name.value))
    || (v.subnet.Some? && id == SubnetNode(v.subnet.value) && l == Cidr)
  }

  ghost predicate NodeSaid(ev: Evidence, asOf: int, id: NodeId, l: Label) {
    || (id == DeviceNode(ev.local) && l == Shown(ev.localName))
    || (exists s :: s in ev.subnets && Current(s.time, asOf) && id == SubnetNode(s.net) && l == Cidr)
    || (exists v :: v in ev.vlans && Current(v.time, asOf) && NamedByVlan(v, id, l))
    || (exists o :: o in ev.observations && Current(TimeOf(o), asOf) && NamedBy(ev, asOf, o.fact.content, id, l))
  }

  // ----- which subnet is found for an address

  function Where<T>(p: T -> bool, s: seq<T>): seq<T> {
    if s == [] then [] else Where(p, s[..|s| - 1]) + if p(s[|s| - 1]) then [s[|s| - 1]] else []
  }

  lemma {:induction false} WhereAppend<T>(p: T -> bool, s: seq<T>, t: seq<T>)
    ensures Where(p, s + t) == Where(p, s) + Where(p, t)
  {
    if t == [] {
      assert s + t == s;
    } else {
      assert (s + t)[..|s + t| - 1] == s + t[..|t| - 1];
      WhereAppend(p, s, t[..|t| - 1]);
    }
  }

  lemma {:induction false} WhereNone<T>(p: T -> bool, s: seq<T>)
    requires forall i :: 0 <= i < |s| ==> !p(s[i])
    ensures Where(p, s) == []
  {
    if s != [] {
      WhereNone(p, s[..|s| - 1]);
    }
  }

  lemma {:induction false} InsertAt<T>(before: (T, T) -> bool, x: T, s: seq<T>) returns (k: nat)
    ensures k <= |s| && Insert(before, x, s) == s[..k] + [x] + s[k..] && (k < |s| ==> before(x, s[k]))
  {
    if s == [] || before(x, s[0]) {
      k := 0;
    } else {
      k := InsertAt(before, x, s[1..]);
      k := k + 1;
      assert s[..k] == [s[0]] + s[1..][..k - 1] && s[k..] == s[1..][k - 1..];
    }
  }

  /** The sought elements rank alike. */
  ghost predicate Alike<T(!new)>(before: (T, T) -> bool, p: T -> bool) {
    forall a, b {:trigger p(a), p(b)} :: p(a) && p(b) ==> !before(a, b)
  }

  lemma BehindIsAbove<T(!new)>(before: (T, T) -> bool, x: T, t: seq<T>, k: nat)
    requires Ranks(before) && Ordered(before, t) && k < |t| && before(x, t[k])
    ensures forall i :: k <= i < |t| ==> before(x, t[i])
  {
    forall i | k <= i < |t| ensures before(x, t[i]) {
      assert i > k ==> !before(t[i], t[k]);
    }
  }

  lemma WherePlaced<T>(p: T -> bool, front: seq<T>, x: T, back: seq<T>)
    requires p(x) ==> Where(p, back) == []
    ensures Where(p, front + [x] + back) == Where(p, front + back) + if p(x) then [x] else []
  {
    WhereAppend(p, front, back);
    WhereAppend(p, front + [x], back);
    assert (front + [x])[..|front + [x]| - 1] == front;
    hide Where;
  }

  lemma NoneBehind<T(!new)>(before: (T, T) -> bool, p: T -> bool, x: T, t: seq<T>, k: nat)
    requires Ranks(before) && Alike(before, p) && Ordered(before, t) && p(x)
    requires k <= |t| && (k < |t| ==> before(x, t[k]))
    ensures Where(p, t[k..]) == []
  {
    if k < |t| {
      BehindIsAbove(before, x, t, k);
    }
    hide Ranks, Ordered;
    assert forall i :: 0 <= i < |t[k..]| ==> before(x, t[k..][i]);
    WhereNone(p, t[k..]);
  }

  lemma InsertIsStable<T(!new)>(before: (T, T) -> bool, p: T -> bool, x: T, t: seq<T>)
    requires Ranks(before) && Alike(before, p) && Ordered(before, t)
    ensures Where(p, Insert(before, x, t)) == Where(p, t) + if p(x) then [x] else []
  {
    hide Ranks, Ordered, Alike, Insert, Where;
    var k := InsertAt(before, x, t);
    assert t == t[..k] + t[k..];
    if p(x) {
      NoneBehind(before, p, x, t, k);
    }
    WherePlaced(p, t[..k], x, t[k..]);
  }

  /** Sorting keeps the order of elements that rank alike. */
  lemma {:induction false} SortIsStable<T(!new)>(before: (T, T) -> bool, p: T -> bool, s: seq<T>)
    requires Ranks(before) && Alike(before, p)
    ensures Where(p, SortBy(before, s)) == Where(p, s)
  {
    hide Ranks, Alike, Insert, Ordered;
    if s != [] {
      SortIsStable(before, p, s[..|s| - 1]);
      SortOrders(before, s[..|s| - 1]);
      InsertIsStable(before, p, s[|s| - 1], SortBy(before, s[..|s| - 1]));
    }
  }

  lemma {:induction false} WhereFirst<T>(p: T -> bool, s: seq<T>) returns (i: nat)
    requires Where(p, s) != []
    ensures i < |s| && s[i] == Where(p, s)[0] && p(s[i]) && forall j :: 0 <= j < i ==> !p(s[j])
  {
    var n := |s| - 1;
    if Where(p, s[..n]) != [] {
      i := WhereFirst(p, s[..n]);
      assert forall j :: 0 <= j < i ==> s[j] == s[..n][j];
    } else {
      i := n;
      forall j | 0 <= j < n ensures !p(s[j]) {
        WhereNoneLeft(p, s[..n], j);
      }
    }
  }

  lemma {:induction false} WhereNoneLeft<T>(p: T -> bool, s: seq<T>, j: nat)
    requires Where(p, s) == [] && j < |s|
    ensures !p(s[j])
  {
    if j < |s| - 1 {
      WhereNoneLeft(p, s[..|s| - 1], j);
    }
  }

  lemma CurrentIsActive(t: Validity, asOf: int)
    ensures StandingOf(t, asOf).Active? <==> Current(t, asOf)
  {
  }

  function CurrentNet(net: Network, asOf: int): Subnet -> bool {
    (s: Subnet) => s.net == net && Current(s.time, asOf)
  }

  lemma {:induction false} FoundIsFirst(address: nat, t: seq<Subnet>, asOf: int)
    ensures var f := SubnetFor(address, ActiveSubnets(t, asOf));
            f.Some? ==> Where(CurrentNet(f.value.net, asOf), t) != [] && Where(CurrentNet(f.value.net, asOf), t)[0] == f.value
  {
    hide Contains, Current, StandingOf;
    if t != [] {
      var before, s := t[..|t| - 1], t[|t| - 1];
      FoundIsFirst(address, before, asOf);
      CurrentIsActive(s.time, asOf);
      var a := ActiveSubnets(before, asOf);
      SubnetForIsOne(address, a);
      assert a + [] == a && (a + [s])[..|a|] == a;
      var f, g := SubnetFor(address, ActiveSubnets(t, asOf)), SubnetFor(address, a);
      if f.Some? {
        var p := CurrentNet(f.value.net, asOf);
        if f == g {
          assert Where(p, before) != [] && Where(p, before)[0] == f.value;
        } else {
          assert ActiveSubnets(t, asOf) == a + [s];
          assert f.value == s && Contains(s.net, address) && p(s);
          forall i | 0 <= i < |before| ensures !p(before[i]) {
            ActiveSubnetsAre(before, asOf, before[i]);
            CurrentIsActive(before[i].time, asOf);
          }
          WhereNone(p, before);
        }
      }
    }
  }

  lemma CidrsRank()
    ensures Ranks(CidrBefore)
  {
  }

  lemma SameBase(a: Network, b: Network, address: nat)
    requires IsNetwork(a) && IsNetwork(b) && a.prefix == b.prefix && Contains(a, address) && Contains(b, address)
    ensures a == b
  {
    NetworksNest(a, b, address);
    NetworksNest(b, a, address);
  }

  /** The subnet found for an address is the innermost one, the first given of those with one CIDR. */
  lemma InnermostIsFound(ev: Evidence, asOf: int, address: nat) returns (i: nat)
    requires forall s :: s in ev.subnets ==> IsNetwork(s.net)
    requires SubnetFor(address, SortedSubnets(ev, asOf)).Some?
    ensures IsInnermost(ev, asOf, i, address) && ev.subnets[i] == SubnetFor(address, SortedSubnets(ev, asOf)).value
  {
    hide IsNetwork, Contains, StandingOf, SubnetFor, ActiveSubnets;
    var sorted := SortBy(CidrBefore, ev.subnets);
    var s := SubnetFor(address, SortedSubnets(ev, asOf)).value;
    var p := CurrentNet(s.net, asOf);
    FoundIsFirst(address, sorted, asOf);
    CidrsRank();
    SortIsStable(CidrBefore, p, ev.subnets);
    i := WhereFirst(p, ev.subnets);
    SubnetForIsOne(address, SortedSubnets(ev, asOf));
    SortKeeps(CidrBefore, ev.subnets);
    forall j | Around(ev, asOf, j, address)
      ensures ev.subnets[j].net.prefix < s.net.prefix || (ev.subnets[j].net.prefix == s.net.prefix && i <= j)
    {
      var t := ev.subnets[j];
      CurrentIsActive(t.time, asOf);
      ActiveSubnetsAre(sorted, asOf, t);
      if t.net.prefix == s.net.prefix {
        SameBase(t.net, s.net, address);
        assert p(t);
      }
    }
  }

  lemma NoneIsFound(ev: Evidence, asOf: int, address: nat, j: int)
    requires SubnetFor(address, SortedSubnets(ev, asOf)).None?
    ensures !Around(ev, asOf, j, address)
  {
    hide Contains, StandingOf, SubnetFor, ActiveSubnets, SortBy;
    if Around(ev, asOf, j, address) {
      SubnetForIsOne(address, SortedSubnets(ev, asOf));
      SortKeeps(CidrBefore, ev.subnets);
      CurrentIsActive(ev.subnets[j].time, asOf);
      ActiveSubnetsAre(SortBy(CidrBefore, ev.subnets), asOf, ev.subnets[j]);
    }
  }

  lemma InnermostIsOne(ev: Evidence, asOf: int, i: int, j: int, address: nat)
    requires IsInnermost(ev, asOf, i, address) && IsInnermost(ev, asOf, j, address)
    ensures i == j
  {
  }

  // ----- what an observation submits

  /** The membership in the found subnet. */
  ghost predicate MemberFound(c: Context, o: Observation, e: Edge) {
    exists d: Device, a: nat, conf: real ::
      && PutsAt(o.fact.content, d, a, conf) && SubnetFor(a, c.subnets).Some?
      && Joins(e, DeviceNode(d), SubnetNode(SubnetFor(a, c.subnets).value.net), Membership)
      && e.confidence == var b := SubnetFor(a, c.subnets).value.confidence; if b < conf then b else conf
  }

  lemma MembershipIs(c: Context, device: Device, address: Option<nat>, o: Observation, confidence: real, e: Edge)
    requires forall d: Device, a: nat, x: real :: PutsAt(o.fact.content, d, a, x) <==> d == device && address == Some(a) && x == confidence
    ensures EdgeSub(e) in MembershipSubs(c, device, address, o, confidence) <==>
              && e.key.evidence == o.fact.source && e.observedAt == o.fact.observedAt && e.validUntil == o.validUntil
              && MemberFound(c, o, e)
  {
    hide SubnetFor;
    hide PutsAt;
    if address.Some? {
      assert PutsAt(o.fact.content, device, address.value, confidence);
    }
  }

  lemma ObservationEdges(c: Context, o: Observation, e: Edge)
    ensures EdgeSub(e) in ObservationSubs(c, o) <==>
              && e.key.evidence == o.fact.source && e.observedAt == o.fact.observedAt && e.validUntil == o.validUntil
              && (PlainlySaid(c.local, o.fact.content, e) || MemberFound(c, o, e))
  {
    var k := o.fact.content;
    if k.HostAddress? {
      MembershipIs(c, k.host, k.address, o, 0.70, e);
      hide MembershipSubs, MemberFound;
    } else if k.Neighbor? {
      MembershipIs(c, k.device, k.address, o, 0.75, e);
      hide MembershipSubs, MemberFound;
    } else if k.Lease? {
      MembershipIs(c, k.client, k.address, o, 0.90, e);
      hide MembershipSubs, MemberFound;
    } else {
      assert !MemberFound(c, o, e);
    }
  }

  lemma ObservationNodes(ev: Evidence, c: Context, asOf: int, o: Observation, id: NodeId, l: Label)
    requires forall n :: n in c.vlans <==> exists v :: v in ev.vlans && Current(v.time, asOf) && v.id == n
    ensures NodeSub(id, l) in ObservationSubs(c, o) <==> NamedBy(ev, asOf, o.fact.content, id, l)
  {
    hide SubnetFor, Current;
    var k := o.fact.content;
    if k.Link? && k.vlan.Some? {
      VlanIsUnknown(ev, c, asOf, k.vlan.value);
    }
  }

  lemma VlanIsUnknown(ev: Evidence, c: Context, asOf: int, n: nat)
    requires forall n :: n in c.vlans <==> exists v :: v in ev.vlans && Current(v.time, asOf) && v.id == n
    ensures n !in c.vlans <==> forall v :: v in ev.vlans && Current(v.time, asOf) ==> v.id != n
  {
  }

  lemma {:induction false} VlanIdsAre(s: seq<Vlan>, n: nat)
    ensures n in VlanIds(s) <==> exists v :: v in s && v.id == n
  {
    if s != [] {
      VlanIdsAre(s[..|s| - 1], n);
      assert s == s[..|s| - 1] + [s[|s| - 1]];
    }
  }

  lemma KnownVlans(ev: Evidence, asOf: int, n: nat)
    ensures n in ContextOf(ev, asOf).vlans <==> exists v :: v in ev.vlans && Current(v.time, asOf) && v.id == n
  {
    var sorted := SortBy(VlanBefore, ev.vlans);
    VlanIdsAre(SortedVlans(ev, asOf), n);
    SortKeeps(VlanBefore, ev.vlans);
    forall v ensures v in SortedVlans(ev, asOf) <==> v in ev.vlans && Current(v.time, asOf) {
      ActiveVlansAre(sorted, asOf, v);
      CurrentIsActive(v.time, asOf);
    }
    hide SortBy, ActiveVlans, VlanIds, Current;
  }

  lemma FoundIsSaid(ev: Evidence, asOf: int, o: Observation, e: Edge)
    requires forall s :: s in ev.subnets ==> IsNetwork(s.net)
    ensures MemberFound(ContextOf(ev, asOf), o, e) <==> MemberSaid(ev, asOf, o.fact.content, e)
  {
    hide IsNetwork, PutsAt, SubnetFor, SortedSubnets;
    var c := ContextOf(ev, asOf);
    if MemberFound(c, o, e) {
      var d: Device, a: nat, x: real :|
        && PutsAt(o.fact.content, d, a, x) && SubnetFor(a, c.subnets).Some?
        && Joins(e, DeviceNode(d), SubnetNode(SubnetFor(a, c.subnets).value.net), Membership)
        && e.confidence == var b := SubnetFor(a, c.subnets).value.confidence; if b < x then b else x;
      var i := InnermostIsFound(ev, asOf, a);
    }
    if MemberSaid(ev, asOf, o.fact.content, e) {
      var d: Device, a: nat, x: real, i: int :|
        && PutsAt(o.fact.content, d, a, x) && 0 <= i < |ev.subnets| && IsInnermost(ev, asOf, i, a)
        && Joins(e, DeviceNode(d), SubnetNode(ev.subnets[i].net), Membership)
        && e.confidence == if ev.subnets[i].confidence < x then ev.subnets[i].confidence else x;
      InnermostIsAround(ev, asOf, i, a);
      if SubnetFor(a, c.subnets).None? {
        NoneIsFound(ev, asOf, a, i);
      } else {
        var j := InnermostIsFound(ev, asOf, a);
        InnermostIsOne(ev, asOf, i, j, a);
      }
    }
  }

  lemma InnermostIsAround(ev: Evidence, asOf: int, i: int, a: nat)
    requires IsInnermost(ev, asOf, i, a)
    ensures Around(ev, asOf, i, a)
  {
  }

  // ----- what all the evidence submits

  lemma VlanSubmits(v: Vlan, e: Edge, id: NodeId, l: Label)
    ensures EdgeSub(e) in VlanSubs(v) <==> SaidByVlan(v, e)
    ensures NodeSub(id, l) in VlanSubs(v) <==> NamedByVlan(v, id, l)
  {
  }

  lemma ByVlanIs(ev: Evidence, asOf: int, x: Submission)
    ensures ByVlan(SortedVlans(ev, asOf), x) <==> exists v :: v in ev.vlans && Current(v.time, asOf) && x in VlanSubs(v)
  {
    var s, sorted := SortedVlans(ev, asOf), SortBy(VlanBefore, ev.vlans);
    SortKeeps(VlanBefore, ev.vlans);
    forall v ensures v in s <==> v in ev.vlans && Current(v.time, asOf) {
      ActiveVlansAre(sorted, asOf, v);
      CurrentIsActive(v.time, asOf);
    }
    hide SortedVlans, SortBy, VlanSubs, Current;
    if ByVlan(s, x) {
      var i :| 0 <= i < |s| && x in VlanSubs(s[i]);
      assert s[i] in s;
    }
  }

  lemma ByObservationIs(ev: Evidence, asOf: int, x: Submission)
    ensures ByObservation(ContextOf(ev, asOf), SortedObservations(ev, asOf), x) <==>
              exists o :: o in ev.observations && Current(TimeOf(o), asOf) && x in ObservationSubs(ContextOf(ev, asOf), o)
  {
    var s, sorted := SortedObservations(ev, asOf), SortBy(ObservationBefore, ev.observations);
    SortKeeps(ObservationBefore, ev.observations);
    forall o ensures o in s <==> o in ev.observations && Current(TimeOf(o), asOf) {
      ActiveObservationsAre(sorted, asOf, o);
      CurrentIsActive(TimeOf(o), asOf);
    }
    hide SortedObservations, SortBy, ObservationSubs, Current, ContextOf;
    var c := ContextOf(ev, asOf);
    if ByObservation(c, s, x) {
      var i :| 0 <= i < |s| && x in ObservationSubs(c, s[i]);
      assert s[i] in s;
    }
  }

  lemma BySubnetIs(ev: Evidence, asOf: int, x: Submission)
    ensures BySubnet(SortedSubnets(ev, asOf), x) <==>
              exists s :: s in ev.subnets && Current(s.time, asOf) && x == NodeSub(SubnetNode(s.net), Cidr)
  {
    var t, sorted := SortedSubnets(ev, asOf), SortBy(CidrBefore, ev.subnets);
    SortKeeps(CidrBefore, ev.subnets);
    forall s ensures s in t <==> s in ev.subnets && Current(s.time, asOf) {
      ActiveSubnetsAre(sorted, asOf, s);
      CurrentIsActive(s.time, asOf);
    }
    hide SortedSubnets, SortBy, Current;
    if BySubnet(t, x) {
      var i :| 0 <= i < |t| && x == NodeSub(SubnetNode(t[i].net), Cidr);
      assert t[i] in t;
    }
  }

  /** Exactly the edges the current evidence calls for are submitted. */
  lemma SubmittedIsSaid(ev: Evidence, asOf: int, e: Edge)
    requires forall s :: s in ev.subnets ==> IsNetwork(s.net)
    ensures EdgeSubmitted(AllSubs(ev, asOf), e) <==> EdgeSaid(ev, asOf, e)
  {
    hide IsNetwork, AllSubs, ByVlan, ByObservation, VlanSubs, ObservationSubs, SortedVlans, SortedObservations, SortedSubnets,
      Current, SaidByVlan, MemberSaid, MemberFound, PlainlySaid;
    SubmittersAre(ev, asOf, EdgeSub(e));
    ByVlanIs(ev, asOf, EdgeSub(e));
    ByObservationIs(ev, asOf, EdgeSub(e));
    forall v ensures EdgeSub(e) in VlanSubs(v) <==> SaidByVlan(v, e) {
      VlanSubmits(v, e, DeviceNode(ev.local), Cidr);
    }
    forall o ensures EdgeSub(e) in ObservationSubs(ContextOf(ev, asOf), o) <==> SaidBy(ev, asOf, o, e) {
      ObservationEdges(ContextOf(ev, asOf), o, e);
      FoundIsSaid(ev, asOf, o, e);
    }
  }

  lemma NameIsSaid(ev: Evidence, asOf: int, id: NodeId, l: Label)
    ensures NodeSubmitted(AllSubs(ev, asOf), id, l) <==> NodeSaid(ev, asOf, id, l)
  {
    hide AllSubs, ByVlan, ByObservation, BySubnet, VlanSubs, ObservationSubs, SortedVlans, SortedObservations, SortedSubnets,
      Current, NamedByVlan, NamedBy;
    var x := NodeSub(id, l);
    SubmittersAre(ev, asOf, x);
    ByVlanIs(ev, asOf, x);
    ByObservationIs(ev, asOf, x);
    BySubnetIs(ev, asOf, x);
    var c := ContextOf(ev, asOf);
    forall n ensures n in c.vlans <==> exists v :: v in ev.vlans && Current(v.time, asOf) && v.id == n {
      KnownVlans(ev, asOf, n);
    }
    hide ContextOf;
    forall v ensures x in VlanSubs(v) <==> NamedByVlan(v, id, l) {
      VlanSubmits(v, Edge(EdgeKey(id, id, Membership, 0), 0.0, 0, None), id, l);
    }
    forall o ensures x in ObservationSubs(c, o) <==> NamedBy(ev, asOf, o.fact.content, id, l) {
      ObservationNodes(ev, c, asOf, o, id, l);
    }
  }

  // ----- what the graph says

  /** The one is at least as sure, then at least as recent, then valid at least as long, where open-ended
      validity counts as the last moment there is. */
  predicate AtLeast(a: Edge, b: Edge) {
    || a.confidence > b.confidence
    || (a.confidence == b.confidence && a.observedAt > b.observedAt)
    || (a.confidence == b.confidence && a.observedAt == b.observedAt
        && (if a.validUntil.None? then b.validUntil.None? || b.validUntil.value <= 253402300799999999
            else if b.validUntil.None? then 253402300799999999 <= a.validUntil.value
            else b.validUntil.value <= a.validUntil.value))
  }

  /** An edge is in the graph only if current evidence calls for it; under every key that current
      evidence calls for there is one, at least as good as every edge called for under that key. */
  lemma GraphSaysExactly(ev: Evidence, asOf: int, key: EdgeKey)
    requires forall s :: s in ev.subnets ==> IsNetwork(s.net)
    ensures var edges := GraphOf(ev, asOf).board.edges;
            && (key in edges <==> exists x: Edge :: x.key == key && EdgeSaid(ev, asOf, x))
            && (key in edges ==>
                  && edges[key].key == key && EdgeSaid(ev, asOf, edges[key])
                  && forall x: Edge :: EdgeSaid(ev, asOf, x) && x.key == key ==> AtLeast(edges[key], x))
  {
    hide IsNetwork, EdgeSaid, AllSubs, Gather;
    var subs := AllSubs(ev, asOf);
    EdgesAreMaxima(subs, key);
    forall x: Edge ensures EdgeSubmitted(subs, x) <==> EdgeSaid(ev, asOf, x) {
      SubmittedIsSaid(ev, asOf, x);
    }
    hide EdgeSubmitted;
  }

  /** Every observation that sees a device at an address inside a current subnet gives a membership
      edge of the device in the innermost such subnet, at least as sure as the lower of the two
      confidences. */
  lemma MembersAreShown(ev: Evidence, asOf: int, o: Observation, d: Device, address: nat, confidence: real, i: int)
    requires forall s :: s in ev.subnets ==> IsNetwork(s.net)
    requires o in ev.observations && Current(TimeOf(o), asOf) && PutsAt(o.fact.content, d, address, confidence)
    requires IsInnermost(ev, asOf, i, address)
    ensures var edges, s := GraphOf(ev, asOf).board.edges, ev.subnets[i];
            var key := EdgeKey(DeviceNode(d), SubnetNode(s.net), Membership, o.fact.source);
            && key in edges && (edges[key].confidence >= confidence || edges[key].confidence >= s.confidence)
            && AtLeast(edges[key], Edge(key, if s.confidence < confidence then s.confidence else confidence, o.fact.observedAt, o.validUntil))
  {
    var s := ev.subnets[i];
    var key := EdgeKey(DeviceNode(d), SubnetNode(s.net), Membership, o.fact.source);
    var e := Edge(key, if s.confidence < confidence then s.confidence else confidence, o.fact.observedAt, o.validUntil);
    hide IsNetwork, GraphOf, IsInnermost, PutsAt, Current, PlainlySaid;
    assert MemberSaid(ev, asOf, o.fact.content, e) by {
      assert Joins(e, DeviceNode(d), SubnetNode(ev.subnets[i].net), Membership);
    }
    assert EdgeSaid(ev, asOf, e) by { assert SaidBy(ev, asOf, o, e); }
    GraphSaysExactly(ev, asOf, key);
  }

  /** In the order of labels: the bare number of a VLAN before its name, texts by their case-folded form. */
  predicate NotAfter(a: Label, b: Label) {
    match a
    case Shown(text) => b.Shown? && text.folded <= b.text.folded
    case Cidr => b.Cidr?
    case PlainVlan => b.PlainVlan? || b.NamedVlan?
    case NamedVlan(name) => b.NamedVlan? && name.folded <= b.name.folded
  }

  lemma LabelsOfOne(ev: Evidence, asOf: int, id: NodeId, a: Label, b: Label)
    requires NodeSaid(ev, asOf, id, a) && NodeSaid(ev, asOf, id, b) && Rank(a) <= Rank(b)
    ensures NotAfter(a, b)
  {
    hide Current;
    SaidInKind(ev, asOf, id, a);
    SaidInKind(ev, asOf, id, b);
    hide NodeSaid;
  }

  lemma SaidInKind(ev: Evidence, asOf: int, id: NodeId, a: Label)
    requires NodeSaid(ev, asOf, id, a)
    ensures match id
            case SubnetNode(_) => a.Cidr?
            case VlanNode(_) => a.PlainVlan? || a.NamedVlan?
            case _ => a.Shown?
  {
  }

  /** The nodes of the graph are those that current evidence names, and each has, of the names given to
      it, one that comes first. */
  lemma NodesAreNamed(ev: Evidence, asOf: int, id: NodeId)
    ensures var nodes := GraphOf(ev, asOf).board.nodes;
            && (id in nodes <==> exists l :: NodeSaid(ev, asOf, id, l))
            && (id in nodes ==>
                  NodeSaid(ev, asOf, id, nodes[id]) && forall l :: NodeSaid(ev, asOf, id, l) ==> NotAfter(nodes[id], l))
  {
    hide NodeSaid, AllSubs, Gather, Pick, Rank, NotAfter;
    var subs, nodes := AllSubs(ev, asOf), GraphOf(ev, asOf).board.nodes;
    GatherPicks(EMPTY, subs, id);
    PickIsMinimum(subs, id);
    forall l ensures NodeSubmitted(subs, id, l) <==> NodeSaid(ev, asOf, id, l) {
      NameIsSaid(ev, asOf, id, l);
    }
    hide NodeSubmitted;
    forall l | id in nodes && NodeSaid(ev, asOf, id, l) ensures NotAfter(nodes[id], l) {
      LabelsOfOne(ev, asOf, id, nodes[id], l);
    }
  }

  lemma {:induction false} PickIsFirst(subs: seq<Submission>, id: NodeId) returns (i: nat)
    requires Pick(None, subs, id).Some?
    ensures var l := Pick(None, subs, id).value;
            && i < |subs| && subs[i] == NodeSub(id, l)
            && forall j :: 0 <= j < i && subs[j].NodeSub? && subs[j].id == id ==> Rank(l) < Rank(subs[j].shown)
  {
    hide Rank;
    var n := |subs| - 1;
    var before := Pick(None, subs[..n], id);
    if before == Pick(None, subs, id) {
      i := PickIsFirst(subs[..n], id);
      assert forall j :: 0 <= j <= i ==> subs[j] == subs[..n][j];
    } else {
      i := n;
      PickIsMinimum(subs[..n], id);
      forall j | 0 <= j < i && subs[j].NodeSub? && subs[j].id == id ensures Rank(subs[n].shown) < Rank(subs[j].shown) {
        assert subs[..n][j] == subs[j];
        assert NodeSubmitted(subs[..n], id, subs[j].shown);
      }
    }
  }

  /** Of names that rank alike a node keeps the one that came first. */
  lemma FirstNameStays(ev: Evidence, asOf: int, id: NodeId) returns (i: nat)
    requires id in GraphOf(ev, asOf).board.nodes
    ensures var l, subs := GraphOf(ev, asOf).board.nodes[id], AllSubs(ev, asOf);
            && i < |subs| && subs[i] == NodeSub(id, l)
            && forall j :: 0 <= j < i && subs[j].NodeSub? && subs[j].id == id ==> Rank(l) < Rank(subs[j].shown)
  {
    hide AllSubs, Gather, Pick, Rank;
    GatherPicks(EMPTY, AllSubs(ev, asOf), id);
    i := PickIsFirst(AllSubs(ev, asOf), id);
  }

  // ----- what is left out is counted

  predicate FromFuture(t: Validity, asOf: int) {
    asOf < t.observedAt
  }

  predicate PastIts(t: Validity, asOf: int) {
    t.observedAt <= asOf && t.validUntil.Some? && t.validUntil.value <= asOf
  }

  lemma {:induction false} SortKeepsNumber<T>(before: (T, T) -> bool, p: T -> bool, s: seq<T>)
    ensures |Where(p, SortBy(before, s))| == |Where(p, s)|
  {
    if s != [] {
      var x, t := s[|s| - 1], SortBy(before, s[..|s| - 1]);
      SortKeepsNumber(before, p, s[..|s| - 1]);
      InsertAdds(before, p, x, t);
    }
  }

  lemma InsertAdds<T>(before: (T, T) -> bool, p: T -> bool, x: T, t: seq<T>)
    ensures |Where(p, Insert(before, x, t))| == |Where(p, t)| + if p(x) then 1 else 0
  {
    var k := InsertAt(before, x, t);
    assert t == t[..k] + t[k..];
    WhereAppend(p, t[..k], t[k..]);
    WhereAppend(p, t[..k] + [x], t[k..]);
    assert (t[..k] + [x])[..|t[..k] + [x]| - 1] == t[..k];
    hide Insert;
  }

  lemma {:induction false} SubnetTally(t: Tally, s: seq<Subnet>, asOf: int)
    ensures TallySubnets(t, s, asOf) == Tally(
              t.expired + |Where((x: Subnet) => PastIts(x.time, asOf), s)|,
              t.future + |Where((x: Subnet) => FromFuture(x.time, asOf), s)|)
  {
    if s != [] {
      SubnetTally(t, s[..|s| - 1], asOf);
    }
  }

  lemma {:induction false} VlanTally(t: Tally, s: seq<Vlan>, asOf: int)
    ensures TallyVlans(t, s, asOf) == Tally(
              t.expired + |Where((x: Vlan) => PastIts(x.time, asOf), s)|,
              t.future + |Where((x: Vlan) => FromFuture(x.time, asOf), s)|)
  {
    if s != [] {
      VlanTally(t, s[..|s| - 1], asOf);
    }
  }

  lemma {:induction false} ObservationTally(t: Tally, s: seq<Observation>, asOf: int)
    ensures TallyObservations(t, s, asOf) == Tally(
              t.expired + |Where((x: Observation) => PastIts(TimeOf(x), asOf), s)|,
              t.future + |Where((x: Observation) => FromFuture(TimeOf(x), asOf), s)|)
  {
    if s != [] {
      ObservationTally(t, s[..|s| - 1], asOf);
    }
  }

  /** The two counts are the numbers of pieces of evidence that are past their validity and that are
      from the future. */
  lemma TallyIsExact(ev: Evidence, asOf: int)
    ensures GraphOf(ev, asOf).tally.expired
            == |Where((x: Subnet) => PastIts(x.time, asOf), ev.subnets)|
            + |Where((x: Vlan) => PastIts(x.time, asOf), ev.vlans)|
            + |Where((x: Observation) => PastIts(TimeOf(x), asOf), ev.observations)|
    ensures GraphOf(ev, asOf).tally.future
            == |Where((x: Subnet) => FromFuture(x.time, asOf), ev.subnets)|
            + |Where((x: Vlan) => FromFuture(x.time, asOf), ev.vlans)|
            + |Where((x: Observation) => FromFuture(TimeOf(x), asOf), ev.observations)|
  {
    hide SortBy, Where, PastIts, FromFuture, AllSubs, Gather;
    var s, v := SortBy(CidrBefore, ev.subnets), SortBy(VlanBefore, ev.vlans);
    var first := TallySubnets(Tally(0, 0), s, asOf);
    SubnetTally(Tally(0, 0), s, asOf);
    VlanTally(first, v, asOf);
    ObservationTally(TallyVlans(first, v, asOf), SortBy(ObservationBefore, ev.observations), asOf);
    SortKeepsNumber(CidrBefore, (x: Subnet) => PastIts(x.time, asOf), ev.subnets);
    SortKeepsNumber(CidrBefore, (x: Subnet) => FromFuture(x.time, asOf), ev.subnets);
    SortKeepsNumber(VlanBefore, (x: Vlan) => PastIts(x.time, asOf), ev.vlans);
    SortKeepsNumber(VlanBefore, (x: Vlan) => FromFuture(x.time, asOf), ev.vlans);
    SortKeepsNumber(ObservationBefore, (x: Observation) => PastIts(TimeOf(x), asOf), ev.observations);
    SortKeepsNumber(ObservationBefore, (x: Observation) => FromFuture(TimeOf(x), asOf), ev.observations);
  }

  // ----- when the source raises

  lemma {:induction false} NoSelfEdgeIs(subs: seq<Submission>)
    ensures NoSelfEdge(subs) <==> forall e: Edge :: EdgeSubmitted(subs, e) ==> e.key.source != e.key.target
  {
    if subs != [] {
      var before, s := subs[..|subs| - 1], subs[|subs| - 1];
      NoSelfEdgeIs(before);
      assert subs == before + [s];
      forall e: Edge ensures EdgeSubmitted(subs, e) <==> EdgeSubmitted(before, e) || s == EdgeSub(e) {
      }
      if SelfEdge(s) {
        assert EdgeSubmitted(subs, s.edge);
      }
    }
  }

  lemma {:induction false} AllTimelyIs(s: seq<Observation>)
    ensures AllTimely(s) <==> forall o :: o in s ==> Timely(o)
  {
    if s != [] {
      AllTimelyIs(s[..|s| - 1]);
      assert s == s[..|s| - 1] + [s[|s| - 1]];
    }
  }

  /** An observation says that the observer is its own neighbour, or that a client leased from itself. */
  predicate SaysItself(local: Device, k: Content) {
    (k.Link? && k.remote == local) || (k.Lease? && k.server == Some(k.client))
  }

  lemma SelfEdgeIsSaid(ev: Evidence, asOf: int, o: Observation)
    requires o in ev.observations && Current(TimeOf(o), asOf) && SaysItself(ev.local, o.fact.content)
    ensures exists e: Edge :: EdgeSaid(ev, asOf, e) && e.key.source == e.key.target
  {
    var k := o.fact.content;
    var e := if k.Link? then Edge(EdgeKey(DeviceNode(ev.local), DeviceNode(k.remote), LinkNeighbor, o.fact.source), 0.99, o.fact.observedAt, o.validUntil)
      else Edge(EdgeKey(DeviceNode(k.client), DeviceNode(k.client), DhcpLease, o.fact.source), 0.90, o.fact.observedAt, o.validUntil);
    assert SaidBy(ev, asOf, o, e);
    hide SaidBy, Current, SaidByVlan;
    assert EdgeSaid(ev, asOf, e);
  }

  lemma SelfEdgeBySelf(ev: Evidence, asOf: int, e: Edge) returns (o: Observation)
    requires EdgeSaid(ev, asOf, e) && e.key.source == e.key.target
    ensures o in ev.observations && Current(TimeOf(o), asOf) && SaysItself(ev.local, o.fact.content)
  {
    hide Current, IsInnermost;
    o :| o in ev.observations && Current(TimeOf(o), asOf) && SaidBy(ev, asOf, o, e);
  }

  /** Building is refused if and only if some observation expires before it was made, or a current one
      would join a device to itself. */
  lemma RefusedExactly(ev: Evidence, asOf: int)
    requires forall s :: s in ev.subnets ==> IsNetwork(s.net)
    ensures !Buildable(ev, asOf) <==>
              || (exists o :: o in ev.observations && o.validUntil.Some? && o.validUntil.value < o.fact.observedAt)
              || (exists o :: o in ev.observations && Current(TimeOf(o), asOf) && SaysItself(ev.local, o.fact.content))
  {
    hide IsNetwork, AllSubs, EdgeSaid, SortBy, Current, SaysItself, NoSelfEdge, AllTimely;
    var subs := AllSubs(ev, asOf);
    NoSelfEdgeIs(subs);
    AllTimelyIs(SortBy(ObservationBefore, ev.observations));
    SortKeeps(ObservationBefore, ev.observations);
    forall e: Edge ensures EdgeSubmitted(subs, e) <==> EdgeSaid(ev, asOf, e) {
      SubmittedIsSaid(ev, asOf, e);
    }
    hide EdgeSubmitted;
    if e: Edge :| EdgeSaid(ev, asOf, e) && e.key.source == e.key.target {
      var o := SelfEdgeBySelf(ev, asOf, e);
    }
    if o :| o in ev.observations && Current(TimeOf(o), asOf) && SaysItself(ev.local, o.fact.content) {
      SelfEdgeIsSaid(ev, asOf, o);
    }
  }
}
