/** The union-find at the heart of correlation.py: a dictionary of parents, `find` with path
    halving and `union` that always hangs the larger root under the smaller one.
    Observation ids are natural numbers; only their order matters. */
module UnionFind {
  import opened Numbers

  type Id = nat
  type Forest = map<Id, Id>
  type Labelling = map<Id, Id>
  datatype Link = Link(left: Id, right: Id)

  /** Membership as a named predicate, so that quantifiers over ids trigger on it alone. */
  predicate Known(m: map<Id, Id>, x: Id) { x in m }

  /** A labelling tells which root each id leads to. Every pointer leads to an id with the same
      label and never to a larger id, and a root is its own label. */
  ghost predicate Represents(p: Forest, c: Labelling) {
    && c.Keys == p.Keys
    && forall x {:trigger Known(p, x)} :: Known(p, x) ==> PointerSound(p, c, x)
  }

  ghost predicate PointerSound(p: Forest, c: Labelling, x: Id)
    requires x in p && c.Keys == p.Keys
  {
    p[x] in p && p[x] <= x && c[x] == c[p[x]] && (p[x] == x ==> c[x] == x)
  }

  /** Following the pointers until they stop. */
  ghost function Root(p: Forest, c: Labelling, x: Id): Id
    requires Represents(p, c) && Known(p, x)
  {
    if p[x] == x then x else assert Known(p, p[x]); Root(p, c, p[x])
  }

  /** The labels are what following the pointers finds: a forest has one labelling only. */
  lemma {:induction false} LabelIsRoot(p: Forest, c: Labelling, x: Id)
    requires Represents(p, c) && Known(p, x)
    ensures c[x] == Root(p, c, x) && c[x] in p && p[c[x]] == c[x] && c[x] <= x
  {
    if p[x] != x {
      assert Known(p, p[x]);
      LabelIsRoot(p, c, p[x]);
    }
  }

  /** The label of an id; an id outside the labelling stands for itself. */
  function LabelOf(c: Labelling, a: Id): Id { if a in c then c[a] else a }

  /** Merging two classes of a labelling: the smaller label wins everywhere. */
  function Join(c: Labelling, a: Id, b: Id): (d: Labelling)
    ensures d.Keys == c.Keys
  {
    var low, high := Min(LabelOf(c, a), LabelOf(c, b)), Max(LabelOf(c, a), LabelOf(c, b));
    map x | x in c :: if c[x] == high then low else c[x]
  }

  function Singletons(ids: set<Id>): (c: Labelling)
    ensures c.Keys == ids
  {
    map x | x in ids :: x
  }

  /** Path halving moves a pointer, yet every id keeps its root. */
  lemma HalvingKeepsLabels(p: Forest, c: Labelling, x: Id)
    requires Represents(p, c) && x in p
    ensures p[x] in p && p[p[x]] <= p[x] <= x
    ensures Represents(p[x := p[p[x]]], c)
  {
    assert Known(p, x) && Known(p, p[x]);
    var q := p[x := p[p[x]]];
    forall y | Known(q, y) ensures PointerSound(q, c, y) {
      assert Known(p, y);
    }
  }

  lemma LinkingJoinsLabels(p: Forest, c: Labelling, a: Id, b: Id)
    requires Represents(p, c) && a in p && b in p
    requires c[a] in p && c[b] in p && p[c[a]] == c[a] && p[c[b]] == c[b]
    ensures Represents(p[Max(c[a], c[b]) := Min(c[a], c[b])], Join(c, a, b))
  {
    var q, d := p[Max(c[a], c[b]) := Min(c[a], c[b])], Join(c, a, b);
    assert Known(p, c[a]) && Known(p, c[b]);
    forall y | Known(q, y) ensures PointerSound(q, d, y) {
      assert Known(p, y);
    }
  }

  /** The dictionary `parent` with the nested functions `find` and `union` of `correlate`. */
  class DisjointSets {
    var parent: Forest
    ghost var labels: Labelling

    ghost predicate Valid()
      reads this
    {
      Represents(parent, labels)
    }

    constructor (ids: set<Id>)
      ensures Valid() && labels == Singletons(ids)
    {
      parent := map x | x in ids :: x;
      labels := Singletons(ids);
    }

    method Find(start: Id) returns (root: Id)
      requires Valid() && start in labels
      modifies `parent
      ensures Valid() && root == labels[start]
      ensures root in parent && parent[root] == root
    {
      var item := start;
      while parent[item] != item
        invariant Valid() && item in parent && labels[item] == labels[start]
        decreases item
      {
        HalvingKeepsLabels(parent, labels, item);
        parent := parent[item := parent[parent[item]]];
        assert Known(parent, item);
        item := parent[item];
      }
      assert Known(parent, item);
      root := item;
    }

    method Union(left: Id, right: Id)
      requires Valid() && left in labels && right in labels
      modifies this
      ensures Valid() && labels == Join(old(labels), left, right)
    {
      var leftRoot := Find(left);
      LabelIsRoot(parent, labels, right);
      var rightRoot := Find(right);
      LabelIsRoot(parent, labels, left);
      LinkingJoinsLabels(parent, labels, left, right);
      parent := parent[Max(leftRoot, rightRoot) := Min(leftRoot, rightRoot)];
      labels := Join(labels, left, right);
    }
  }

  // ----- the specification: connectivity by paths

  /** Links are undirected. */
  ghost predicate Adjacent(links: set<Link>, a: Id, b: Id) {
    Link(a, b) in links || Link(b, a) in links
  }

  ghost predicate IsPath(links: set<Link>, path: seq<Id>) {
    |path| > 0 && forall i :: 0 <= i < |path| - 1 ==> Adjacent(links, path[i], path[i + 1])
  }

  ghost predicate Connected(links: set<Link>, x: Id, y: Id) {
    exists path :: IsPath(links, path) && path[0] == x && path[|path| - 1] == y
  }

  lemma ConnectedReflexive(links: set<Link>, x: Id)
    ensures Connected(links, x, x)
  {
    assert IsPath(links, [x]) && [x][0] == x;
  }

  lemma ConnectedByLink(links: set<Link>, x: Id, y: Id)
    requires Adjacent(links, x, y)
    ensures Connected(links, x, y)
  {
    assert IsPath(links, [x, y]) && [x, y][1] == y;
  }

  lemma ConnectedTransitive(links: set<Link>, x: Id, y: Id, z: Id)
    requires Connected(links, x, y) && Connected(links, y, z)
    ensures Connected(links, x, z)
  {
    var p :| IsPath(links, p) && p[0] == x && p[|p| - 1] == y;
    var q :| IsPath(links, q) && q[0] == y && q[|q| - 1] == z;
    var path := p + q[1..];
    assert forall i :: 0 <= i < |q| ==> path[|p| - 1 + i] == q[i];
    forall i | 0 <= i < |path| - 1 ensures Adjacent(links, path[i], path[i + 1]) {
      if i >= |p| - 1 {
        var j := i - (|p| - 1);
        assert path[i] == q[j] && path[i + 1] == q[j + 1];
      }
    }
    assert IsPath(links, path) && path[|path| - 1] == z;
  }

  lemma ConnectedSymmetric(links: set<Link>, x: Id, y: Id)
    requires Connected(links, x, y)
    ensures Connected(links, y, x)
  {
    var p :| IsPath(links, p) && p[0] == x && p[|p| - 1] == y;
    var q := seq(|p|, i requires 0 <= i < |p| => p[|p| - 1 - i]);
    forall i | 0 <= i < |q| - 1 ensures Adjacent(links, q[i], q[i + 1]) {
      assert Adjacent(links, p[|p| - 2 - i], p[|p| - 2 - i + 1]);
    }
    assert IsPath(links, q) && q[0] == y && q[|q| - 1] == x;
  }

  /** If every link of one graph is a connection of another, so is every path. */
  lemma {:induction false} ConnectedMonotone(links: set<Link>, more: set<Link>, x: Id, y: Id)
    requires Connected(links, x, y)
    requires forall a, b :: Adjacent(links, a, b) ==> Connected(more, a, b)
    ensures Connected(more, x, y)
  {
    var p :| IsPath(links, p) && p[0] == x && p[|p| - 1] == y;
    PathMonotone(links, more, p);
  }

  lemma {:induction false} PathMonotone(links: set<Link>, more: set<Link>, p: seq<Id>)
    requires IsPath(links, p)
    requires forall a, b :: Adjacent(links, a, b) ==> Connected(more, a, b)
    ensures Connected(more, p[0], p[|p| - 1])
  {
    if |p| == 1 {
      ConnectedReflexive(more, p[0]);
    } else {
      var q := p[1..];
      forall i | 0 <= i < |q| - 1 ensures Adjacent(links, q[i], q[i + 1]) {
        assert Adjacent(links, p[i + 1], p[i + 1 + 1]);
      }
      PathMonotone(links, more, q);
      assert Adjacent(links, p[0], p[0 + 1]);
      ConnectedTransitive(more, p[0], p[1], p[|p| - 1]);
    }
  }

  /** A labelling agrees with a graph: equal labels are exactly the connected pairs, and every
      label is the smallest member of its class. */
  ghost predicate Partitions(c: Labelling, links: set<Link>) {
    && (forall a, b :: Adjacent(links, a, b) ==> a in c && b in c)
    && (forall x, y :: x in c && y in c ==> (c[x] == c[y] <==> Connected(links, x, y)))
    && (forall x {:trigger Known(c, x)} :: Known(c, x) ==> LabelSound(c, x))
  }

  ghost predicate LabelSound(c: Labelling, x: Id)
    requires x in c
  {
    c[x] in c && c[c[x]] == c[x] && c[x] <= x
  }

  lemma SingletonsPartition(ids: set<Id>)
    ensures Partitions(Singletons(ids), {})
  {
    forall x, y | x in ids && y in ids ensures x == y <==> Connected({}, x, y) {
      ConnectedReflexive({}, x);
      if Connected({}, x, y) {
        var p :| IsPath({}, p) && p[0] == x && p[|p| - 1] == y;
        if |p| > 1 {
          assert Adjacent({}, p[0], p[0 + 1]);
        }
      }
    }
  }

  /** Joining the ends of a link keeps the agreement. */
  lemma JoinPartitions(c: Labelling, links: set<Link>, a: Id, b: Id)
    requires Partitions(c, links) && a in c && b in c
    ensures Partitions(Join(c, a, b), links + {Link(a, b)})
  {
    var d, more := Join(c, a, b), links + {Link(a, b)};
    MoreLinks(links, more);
    forall x | Known(d, x) ensures LabelSound(d, x) {
      assert Known(c, x) && Known(c, a) && Known(c, b);
    }
    ConnectedByLink(more, a, b);
    ConnectedByLink(more, b, a);
    JoinRespectsLinks(c, links, a, b);
    forall x, y | x in c && y in c ensures d[x] == d[y] <==> Connected(more, x, y) {
      if d[x] == d[y] {
        JoinedAreConnected(c, links, more, a, b, x, y);
      }
      if Connected(more, x, y) {
        var p :| IsPath(more, p) && p[0] == x && p[|p| - 1] == y;
        LabelsAlongPath(d, more, p);
      }
    }
  }

  lemma MoreLinks(links: set<Link>, more: set<Link>)
    requires links <= more
    ensures forall u, v :: Connected(links, u, v) ==> Connected(more, u, v)
  {
    forall u, v | Connected(links, u, v) ensures Connected(more, u, v) {
      var p :| IsPath(links, p) && p[0] == u && p[|p| - 1] == v;
      assert IsPath(more, p);
    }
  }

  lemma JoinRespectsLinks(c: Labelling, links: set<Link>, a: Id, b: Id)
    requires Partitions(c, links) && a in c && b in c
    ensures forall s, t :: Adjacent(links + {Link(a, b)}, s, t)
              ==> s in c && t in c && Join(c, a, b)[s] == Join(c, a, b)[t]
  {
    var d := Join(c, a, b);
    forall s, t | Adjacent(links + {Link(a, b)}, s, t) ensures s in c && t in c && d[s] == d[t] {
      if Adjacent(links, s, t) {
        ConnectedByLink(links, s, t);
        assert c[s] == c[t];
      }
    }
  }

  lemma JoinedAreConnected(c: Labelling, links: set<Link>, more: set<Link>, a: Id, b: Id, x: Id, y: Id)
    requires Partitions(c, links) && a in c && b in c && x in c && y in c
    requires forall u, v :: Connected(links, u, v) ==> Connected(more, u, v)
    requires Connected(more, a, b) && Connected(more, b, a)
    requires Join(c, a, b)[x] == Join(c, a, b)[y]
    ensures Connected(more, x, y)
  {
    if c[x] == c[y] {
      assert Connected(links, x, y);
    } else if c[x] == c[a] {
      assert Connected(links, x, a) && Connected(links, b, y);
      ConnectedTransitive(more, x, a, b);
      ConnectedTransitive(more, x, b, y);
    } else {
      assert Connected(links, x, b) && Connected(links, a, y);
      ConnectedTransitive(more, x, b, a);
      ConnectedTransitive(more, x, a, y);
    }
  }

  /** A labelling that agrees across each link is constant along every path. */
  lemma {:induction false} LabelsAlongPath(c: Labelling, links: set<Link>, p: seq<Id>)
    requires IsPath(links, p) && p[0] in c
    requires forall a, b :: Adjacent(links, a, b) && a in c ==> b in c && c[a] == c[b]
    ensures p[|p| - 1] in c && c[p[0]] == c[p[|p| - 1]]
  {
    if |p| > 1 {
      assert Adjacent(links, p[0], p[0 + 1]);
      var q := p[1..];
      forall i | 0 <= i < |q| - 1 ensures Adjacent(links, q[i], q[i + 1]) {
        assert Adjacent(links, p[i + 1], p[i + 1 + 1]);
      }
      LabelsAlongPath(c, links, q);
    }
  }

  ghost function Roots(c: Labelling): set<Id> {
    set x | x in c && c[x] == x
  }

  /** Each merge of two different classes removes exactly one root. */
  lemma JoinDropsOneRoot(c: Labelling, links: set<Link>, a: Id, b: Id)
    requires Partitions(c, links) && a in c && b in c && c[a] != c[b]
    ensures |Roots(Join(c, a, b))| == |Roots(c)| - 1
  {
    assert Known(c, a) && Known(c, b);
    var d, high := Join(c, a, b), Max(c[a], c[b]);
    forall x | x in c ensures x in Roots(d) <==> x in Roots(c) && x != high {
      assert Known(c, x);
    }
    assert Roots(d) == Roots(c) - {high};
  }
}
