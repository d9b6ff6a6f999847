/** Which piece of evidence an edge or a label of the graph is from: of all that rank highest, the first
    one submitted. */
module TopologyPieces {
  import opened Options
  import opened Sorting
  import opened Topology
  import opened TopologyGraph

  // ----- the first of the greatest stays

  /** An edge of a key that stands in front does not rank as high. */
  ghost predicate ExceedsBefore(subs: seq<Submission>, i: nat, e: Edge)
    requires i <= |subs|
  {
    forall j :: 0 <= j < i && subs[j].EdgeSub? && subs[j].edge.key == e.key ==> Exceeds(e, subs[j].edge)
  }

  lemma {:induction false} KeptEdgeIsFirst(subs: seq<Submission>, key: EdgeKey) returns (i: nat)
    requires key in Gather(EMPTY, subs).edges
    ensures var e := Gather(EMPTY, subs).edges[key];
            i < |subs| && subs[i] == EdgeSub(e) && e.key == key && ExceedsBefore(subs, i, e)
  {
    var n := |subs| - 1;
    var before, s := Gather(EMPTY, subs[..n]), subs[n];
    EdgesAreMaxima(subs[..n], key);
    if s.EdgeSub? && s.edge.key == key && (key !in before.edges || Exceeds(s.edge, before.edges[key])) {
      i := n;
      forall j | 0 <= j < n && subs[j].EdgeSub? && subs[j].edge.key == key ensures Exceeds(s.edge, subs[j].edge) {
        assert subs[..n][j] == subs[j];
        assert EdgeSubmitted(subs[..n], subs[j].edge);
      }
    } else {
      i := KeptEdgeIsFirst(subs[..n], key);
    }
  }

  ghost predicate LowerBefore(subs: seq<Submission>, i: nat, id: NodeId, l: Label)
    requires i <= |subs|
  {
    forall j :: 0 <= j < i && subs[j].NodeSub? && subs[j].id == id ==> Rank(l) < Rank(subs[j].shown)
  }

  lemma {:induction false} PickedIsFirst(subs: seq<Submission>, id: NodeId) returns (i: nat)
    requires Pick(None, subs, id).Some?
    ensures var l := Pick(None, subs, id).value;
            i < |subs| && subs[i] == NodeSub(id, l) && LowerBefore(subs, i, id, l)
  {
    var n := |subs| - 1;
    var before, s := Pick(None, subs[..n], id), subs[n];
    PickIsMinimum(subs[..n], id);
    hide Rank;
    if s.NodeSub? && s.id == id && (before.None? || Rank(s.shown) < Rank(before.value)) {
      i := n;
      forall j | 0 <= j < n && subs[j].NodeSub? && subs[j].id == id ensures Rank(s.shown) < Rank(subs[j].shown) {
        assert subs[..n][j] == subs[j];
        assert NodeSubmitted(subs[..n], id, subs[j].shown);
      }
    } else {
      i := PickedIsFirst(subs[..n], id);
    }
  }

  // ----- what pieces submit, one after the other

  function All<P>(f: P -> seq<Submission>, s: seq<P>): seq<Submission> {
    if s == [] then [] else All(f, s[..|s| - 1]) + f(s[|s| - 1])
  }

  lemma {:induction false} VlansSubmit(s: seq<Vlan>)
    ensures AllVlanSubs(s) == All(VlanSubs, s)
  {
    hide VlanSubs;
    if s != [] {
      VlansSubmit(s[..|s| - 1]);
    }
  }

  function SubsIn(c: Context): Observation -> seq<Submission> {
    (o: Observation) => ObservationSubs(c, o)
  }

  lemma {:induction false} ObservationsSubmit(c: Context, s: seq<Observation>)
    ensures AllObservationSubs(c, s) == All(SubsIn(c), s)
  {
    hide ObservationSubs;
    if s != [] {
      ObservationsSubmit(c, s[..|s| - 1]);
    }
  }

  /** Where a piece's submission stands, or in front of it. */
  ghost predicate StandsBefore(subs: seq<Submission>, i: nat, x: Submission) {
    exists j :: 0 <= j < i && j < |subs| && subs[j] == x
  }

  /** The piece a submission is from; all that earlier pieces submit stands before it. */
  lemma {:induction false} PieceAt<P>(f: P -> seq<Submission>, s: seq<P>, i: nat) returns (p: nat)
    requires i < |All(f, s)|
    ensures p < |s| && All(f, s)[i] in f(s[p])
    ensures forall q, x :: 0 <= q < p && x in f(s[q]) ==> StandsBefore(All(f, s), i, x)
  {
    var n := |s| - 1;
    var before := All(f, s[..n]);
    assert All(f, s) == before + f(s[n]);
    if i < |before| {
      p := PieceAt(f, s[..n], i);
      forall q, x | 0 <= q < p && x in f(s[q]) ensures StandsBefore(All(f, s), i, x) {
        assert s[..n][q] == s[q];
        assert StandsBefore(before, i, x);
        var j :| 0 <= j < i && j < |before| && before[j] == x;
        assert All(f, s)[j] == x;
      }
    } else {
      p := n;
      assert All(f, s)[i] == f(s[n])[i - |before|];
      forall q, x | 0 <= q < p && x in f(s[q]) ensures StandsBefore(All(f, s), i, x) {
        var j := Submitted(f, s[..n], q, x);
        assert All(f, s)[j] == x;
      }
    }
  }

  lemma {:induction false} Submitted<P>(f: P -> seq<Submission>, s: seq<P>, q: nat, x: Submission) returns (j: nat)
    requires q < |s| && x in f(s[q])
    ensures j < |All(f, s)| && All(f, s)[j] == x
  {
    var n := |s| - 1;
    if q < n {
      j := Submitted(f, s[..n], q, x);
    } else {
      var k :| 0 <= k < |f(s[n])| && f(s[n])[k] == x;
      j := |All(f, s[..n])| + k;
    }
  }

  // ----- the piece a kept edge, or a label, is from

  ghost predicate NoEdge(subs: seq<Submission>, key: EdgeKey) {
    forall x :: x in subs && x.EdgeSub? ==> x.edge.key != key
  }

  lemma InMiddle<T>(front: seq<T>, all: seq<T>, back: seq<T>, i: nat)
    requires i < |front + all + back|
    requires (front + all + back)[i] !in front && (front + all + back)[i] !in back
    ensures |front| <= i < |front| + |all| && all[i - |front|] == (front + all + back)[i]
  {
  }

  /** The pieces in front submit nothing of the key that ranks as high. */
  ghost predicate FirstEdge<P>(f: P -> seq<Submission>, s: seq<P>, p: nat, e: Edge) {
    && p < |s| && EdgeSub(e) in f(s[p])
    && forall q, x: Edge :: 0 <= q < p && EdgeSub(x) in f(s[q]) && x.key == e.key ==> Exceeds(e, x)
  }

  lemma KeptEdgeFrom<P>(
    front: seq<Submission>, f: P -> seq<Submission>, s: seq<P>, back: seq<Submission>, key: EdgeKey) returns (p: nat)
    requires NoEdge(front, key) && NoEdge(back, key) && key in Gather(EMPTY, front + All(f, s) + back).edges
    ensures FirstEdge(f, s, p, Gather(EMPTY, front + All(f, s) + back).edges[key])
  {
    var subs, all := front + All(f, s) + back, All(f, s);
    var i := KeptEdgeIsFirst(subs, key);
    hide Gather, All, Exceeds;
    var e := subs[i].edge;
    InMiddle(front, all, back, i);
    p := PieceAt(f, s, i - |front|);
    forall q, x: Edge | 0 <= q < p && EdgeSub(x) in f(s[q]) && x.key == key ensures Exceeds(e, x) {
      assert StandsBefore(all, i - |front|, EdgeSub(x));
      var j :| 0 <= j < i - |front| && j < |all| && all[j] == EdgeSub(x);
      assert subs[|front| + j] == EdgeSub(x);
    }
  }

  ghost predicate NoLabel(subs: seq<Submission>, id: NodeId) {
    forall x :: x in subs && x.NodeSub? ==> x.id != id
  }

  ghost predicate FirstLabel<P>(f: P -> seq<Submission>, s: seq<P>, p: nat, id: NodeId, l: Label) {
    && p < |s| && NodeSub(id, l) in f(s[p])
    && forall q, m: Label :: 0 <= q < p && NodeSub(id, m) in f(s[q]) ==> Rank(l) < Rank(m)
  }

  lemma PickedFrom<P>(
    front: seq<Submission>, f: P -> seq<Submission>, s: seq<P>, back: seq<Submission>, id: NodeId) returns (p: nat)
    requires NoLabel(front, id) && NoLabel(back, id) && Pick(None, front + All(f, s) + back, id).Some?
    ensures FirstLabel(f, s, p, id, Pick(None, front + All(f, s) + back, id).value)
  {
    var subs, all := front + All(f, s) + back, All(f, s);
    var i := PickedIsFirst(subs, id);
    hide Pick, All, Rank;
    var l := subs[i].shown;
    InMiddle(front, all, back, i);
    p := PieceAt(f, s, i - |front|);
    forall q, m: Label | 0 <= q < p && NodeSub(id, m) in f(s[q]) ensures Rank(l) < Rank(m) {
      assert StandsBefore(all, i - |front|, NodeSub(id, m));
      var j :| 0 <= j < i - |front| && j < |all| && all[j] == NodeSub(id, m);
      assert subs[|front| + j] == NodeSub(id, m);
    }
  }
}
