/** The topology builder as it runs: an object that is fed nodes and edges and counts what it leaves
    out, and `build_topology`, which sorts the evidence and feeds it. */
module TopologyBuilder {
  import opened Options
  import opened Sorting
  import opened Topology

  class Builder {
    const asOf: int
    var nodes: map<NodeId, Label>
    var edges: map<EdgeKey, Edge>
    var expired: nat
    var future: nat

    function Contents(): Board
      reads this
    {
      Board(nodes, edges)
    }

    function Excluded(): Tally
      reads this
    {
      Tally(expired, future)
    }

    constructor (asOf: int)
      ensures this.asOf == asOf && Contents() == Board(map[], map[]) && Excluded() == Tally(0, 0)
    {
      this.asOf := asOf;
      nodes, edges, expired, future := map[], map[], 0, 0;
    }

    method Node(id: NodeId, shown: Label)
      modifies this
      ensures Contents() == Place(old(Contents()), NodeSub(id, shown)) && Excluded() == old(Excluded())
    {
      if id !in nodes || Rank(shown) < Rank(nodes[id]) {
        nodes := nodes[id := shown];
      }
    }

    method AddEdge(e: Edge)
      modifies this
      ensures Contents() == Place(old(Contents()), EdgeSub(e)) && Excluded() == old(Excluded())
    {
      if e.key !in edges || Exceeds(e, edges[e.key]) {
        edges := edges[e.key := e];
      }
    }

    method IsActive(t: Validity) returns (active: bool)
      modifies this
      ensures active == StandingOf(t, asOf).Active?
      ensures Contents() == old(Contents()) && Excluded() == Plus(old(Excluded()), StandingOf(t, asOf))
    {
      if t.observedAt > asOf {
        future := future + 1;
        return false;
      }
      if t.validUntil.Some? && t.validUntil.value <= asOf {
        expired := expired + 1;
        return false;
      }
      active := true;
    }

    /** What one piece of evidence says, in order; false if an edge joins a node to itself. */
    method Submit(subs: seq<Submission>) returns (ok: bool)
      modifies this
      ensures ok == NoSelfEdge(subs) && Excluded() == old(Excluded())
      ensures ok ==> Contents() == Gather(old(Contents()), subs)
    {
      assert subs[..0] == [];
      ghost var start := Contents();
      hide Place, SelfEdge;
      for i := 0 to |subs|
        invariant NoSelfEdge(subs[..i]) && Contents() == Gather(start, subs[..i]) && Excluded() == old(Excluded())
      {
        assert subs[..i + 1][..i] == subs[..i];
        SelfEdgeIs(subs[i]);
        if subs[i].EdgeSub? && subs[i].edge.key.source == subs[i].edge.key.target {
          PrefixHasSelfEdge(subs, i + 1);
          return false;
        }
        if subs[i].NodeSub? {
          Node(subs[i].id, subs[i].shown);
        } else {
          AddEdge(subs[i].edge);
        }
      }
      assert subs[..|subs|] == subs;
      ok := true;
    }
  }

  lemma SelfEdgeIs(s: Submission)
    ensures SelfEdge(s) <==> s.EdgeSub? && s.edge.key.source == s.edge.key.target
  {
  }

  lemma PrefixHasSelfEdge(subs: seq<Submission>, n: nat)
    requires n <= |subs| && !NoSelfEdge(subs[..n])
    ensures !NoSelfEdge(subs)
  {
    assert subs[..n] + subs[n..] == subs;
    GatherAppend(Board(map[], map[]), subs[..n], subs[n..]);
  }

  method KeepSubnets(b: Builder, items: seq<Subnet>) returns (kept: seq<Subnet>)
    modifies b
    ensures kept == ActiveSubnets(items, b.asOf) && b.Contents() == old(b.Contents())
    ensures b.Excluded() == TallySubnets(old(b.Excluded()), items, b.asOf)
  {
    kept := [];
    assert items[..0] == [];
    for i := 0 to |items|
      invariant kept == ActiveSubnets(items[..i], b.asOf) && b.Contents() == old(b.Contents())
      invariant b.Excluded() == TallySubnets(old(b.Excluded()), items[..i], b.asOf)
    {
      assert items[..i + 1][..i] == items[..i];
      var active := b.IsActive(items[i].time);
      if active {
        kept := kept + [items[i]];
      }
    }
    assert items[..|items|] == items;
  }

  method KeepVlans(b: Builder, items: seq<Vlan>) returns (kept: seq<Vlan>)
    modifies b
    ensures kept == ActiveVlans(items, b.asOf) && b.Contents() == old(b.Contents())
    ensures b.Excluded() == TallyVlans(old(b.Excluded()), items, b.asOf)
  {
    kept := [];
    assert items[..0] == [];
    for i := 0 to |items|
      invariant kept == ActiveVlans(items[..i], b.asOf) && b.Contents() == old(b.Contents())
      invariant b.Excluded() == TallyVlans(old(b.Excluded()), items[..i], b.asOf)
    {
      assert items[..i + 1][..i] == items[..i];
      var active := b.IsActive(items[i].time);
      if active {
        kept := kept + [items[i]];
      }
    }
    assert items[..|items|] == items;
  }

  method PlaceSubnets(b: Builder, items: seq<Subnet>)
    modifies b
    ensures b.Contents() == Gather(old(b.Contents()), SubnetSubs(items)) && b.Excluded() == old(b.Excluded())
  {
    assert items[..0] == [];
    for i := 0 to |items|
      invariant b.Contents() == Gather(old(b.Contents()), SubnetSubs(items[..i])) && b.Excluded() == old(b.Excluded())
    {
      var node := NodeSub(SubnetNode(items[i].net), Cidr);
      assert items[..i + 1][..i] == items[..i];
      GatherOne(old(b.Contents()), SubnetSubs(items[..i]), node);
      b.Node(node.id, node.shown);
    }
    assert items[..|items|] == items;
  }

  lemma GatherOne(b: Board, subs: seq<Submission>, s: Submission)
    ensures Gather(b, subs + [s]) == Place(Gather(b, subs), s)
  {
    assert (subs + [s])[..|subs|] == subs;
  }

  method PlaceVlans(b: Builder, items: seq<Vlan>) returns (ids: set<nat>, ok: bool)
    modifies b
    ensures ids == VlanIds(items) && b.Excluded() == old(b.Excluded())
    ensures ok == NoSelfEdge(AllVlanSubs(items))
    ensures ok ==> b.Contents() == Gather(old(b.Contents()), AllVlanSubs(items))
  {
    ids, ok := {}, true;
    assert items[..0] == [];
    ghost var start := b.Contents();
    hide VlanSubs;
    for i := 0 to |items|
      invariant ids == VlanIds(items[..i]) && b.Excluded() == old(b.Excluded())
      invariant ok == NoSelfEdge(AllVlanSubs(items[..i]))
      invariant ok ==> b.Contents() == Gather(start, AllVlanSubs(items[..i]))
    {
      assert items[..i + 1][..i] == items[..i];
      GatherAppend(start, AllVlanSubs(items[..i]), VlanSubs(items[i]));
      ids := ids + {items[i].id};
      if ok {
        ok := b.Submit(VlanSubs(items[i]));
      }
    }
    assert items[..|items|] == items;
  }

  method PlaceObservations(b: Builder, c: Context, items: seq<Observation>) returns (ok: bool)
    modifies b
    ensures ok == (AllTimely(items) && NoSelfEdge(AllObservationSubs(c, ActiveObservations(items, b.asOf))))
    ensures ok ==> b.Contents() == Gather(old(b.Contents()), AllObservationSubs(c, ActiveObservations(items, b.asOf)))
    ensures ok ==> b.Excluded() == TallyObservations(old(b.Excluded()), items, b.asOf)
  {
    assert items[..0] == [];
    ghost var start, tally := b.Contents(), b.Excluded();
    hide ObservationSubs, Timely, StandingOf, Plus;
    ok := true;
    for i := 0 to |items|
      invariant ok == (AllTimely(items[..i]) && NoSelfEdge(AllObservationSubs(c, ActiveObservations(items[..i], b.asOf))))
      invariant ok ==> b.Contents() == Gather(start, AllObservationSubs(c, ActiveObservations(items[..i], b.asOf)))
      invariant ok ==> b.Excluded() == TallyObservations(tally, items[..i], b.asOf)
    {
      ObservationStep(start, c, items, i, b.asOf);
      ok := ok && Timely(items[i]);
      if ok {
        var active := b.IsActive(TimeOf(items[i]));
        if active {
          ok := b.Submit(ObservationSubs(c, items[i]));
        }
      }
    }
    assert items[..|items|] == items;
  }

  lemma ObservationStep(start: Board, c: Context, items: seq<Observation>, i: nat, asOf: int)
    requires i < |items|
    ensures var before, after := ActiveObservations(items[..i], asOf), ActiveObservations(items[..i + 1], asOf);
            && (StandingOf(TimeOf(items[i]), asOf).Active? ==>
                  && AllObservationSubs(c, after) == AllObservationSubs(c, before) + ObservationSubs(c, items[i])
                  && Gather(start, AllObservationSubs(c, after))
                     == Gather(Gather(start, AllObservationSubs(c, before)), ObservationSubs(c, items[i]))
                  && (NoSelfEdge(AllObservationSubs(c, after)) <==>
                        NoSelfEdge(AllObservationSubs(c, before)) && NoSelfEdge(ObservationSubs(c, items[i]))))
            && (!StandingOf(TimeOf(items[i]), asOf).Active? ==> after == before)
    ensures AllTimely(items[..i + 1]) <==> AllTimely(items[..i]) && Timely(items[i])
    ensures forall t :: TallyObservations(t, items[..i + 1], asOf)
                        == Plus(TallyObservations(t, items[..i], asOf), StandingOf(TimeOf(items[i]), asOf))
  {
    assert items[..i + 1][..i] == items[..i];
    hide ObservationSubs, Timely, StandingOf, Plus;
    var before := ActiveObservations(items[..i], asOf);
    assert (before + [items[i]])[..|before|] == before && before + [] == before;
    GatherAppend(start, AllObservationSubs(c, before), ObservationSubs(c, items[i]));
  }

  /** `build_topology`, without conflicts and limitations; nothing if the source raises. */
  method BuildTopology(ev: Evidence, asOf: int) returns (r: Option<Graph>)
    ensures r == if Buildable(ev, asOf) then Some(GraphOf(ev, asOf)) else None
  {
    hide SortBy, ObservationSubs, VlanSubs, Place, Gather, NoSelfEdge, AllTimely, SubnetSubs, AllVlanSubs,
      AllObservationSubs, ActiveSubnets, ActiveVlans, ActiveObservations, VlanIds, TallySubnets, TallyVlans, TallyObservations;
    var b := new Builder(asOf);
    ghost var empty := b.Contents();
    b.Node(DeviceNode(ev.local), Shown(ev.localName));
    var subnets := KeepSubnets(b, SortBy(CidrBefore, ev.subnets));
    var vlans := KeepVlans(b, SortBy(VlanBefore, ev.vlans));
    PlaceSubnets(b, subnets);
    var ids, vlansOk := PlaceVlans(b, vlans);
    var c := Context(ev.local, subnets, ids);
    StagesJoin(empty, DeviceSub(ev.local, ev.localName), SubnetSubs(subnets), AllVlanSubs(vlans),
               AllObservationSubs(c, ActiveObservations(SortBy(ObservationBefore, ev.observations), asOf)), subnets);
    if !vlansOk {
      return None;
    }
    var ok := PlaceObservations(b, c, SortBy(ObservationBefore, ev.observations));
    if !ok {
      return None;
    }
    return Some(Graph(b.Contents(), b.Excluded()));
  }

  lemma {:induction false} SubnetsNeverSelf(items: seq<Subnet>)
    ensures NoSelfEdge(SubnetSubs(items))
  {
    if items != [] {
      SubnetsNeverSelf(items[..|items| - 1]);
    }
  }

  lemma StagesJoin(
    empty: Board, first: Submission, s: seq<Submission>, v: seq<Submission>, o: seq<Submission>, items: seq<Subnet>)
    requires first.NodeSub? && s == SubnetSubs(items)
    ensures Gather(empty, [first] + s + v + o) == Gather(Gather(Gather(Place(empty, first), s), v), o)
    ensures NoSelfEdge([first] + s + v + o) <==> NoSelfEdge(v) && NoSelfEdge(o)
  {
    GatherAppend(empty, [first] + s + v, o);
    GatherAppend(empty, [first] + s, v);
    GatherAppend(empty, [first], s);
    SubnetsNeverSelf(items);
    assert [first][..0] == [];
  }
}
