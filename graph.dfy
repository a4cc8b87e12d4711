/**
 * The diagram graph of a model (diagramming/Graph.java, diagramming/Node.java):
 * a set of nodes with directed edges, each edge also kept in the inverse
 * direction. Java compares nodes by object identity; here every node has a
 * handle, and two nodes are the same exactly when their handles are.
 */
module Diagrams {
  import opened Wrappers

  /** `Node`: an id, a group, an optional label, extra key/value data and an optional position. */
  datatype Node = Node(id: int, group: int, text: Option<string>, data: map<string, string>,
                       xPos: Option<real>, yPos: Option<real>)

  /** x and y are adjacent when an edge joins them in either direction. */
  predicate Adjacent(edges: set<(nat, nat)>, x: nat, y: nat) {
    (x, y) in edges || (y, x) in edges
  }

  /** No edge, taken either way, leaves c. */
  ghost predicate Closed(edges: set<(nat, nat)>, c: set<nat>) {
    forall x, y :: x in c && Adjacent(edges, x, y) ==> y in c
  }

  /** Each member of visit after the first is adjacent to an earlier one: all are reached from the first. */
  predicate Chained(edges: set<(nat, nat)>, visit: seq<nat>) {
    forall j :: 0 < j < |visit| ==> exists i :: 0 <= i < j && Adjacent(edges, visit[i], visit[j])
  }

  predicate Distinct(s: seq<nat>) {
    forall i, j :: 0 <= i < j < |s| ==> s[i] != s[j]
  }

  /** Every edge joins two nodes of the universe. */
  ghost predicate WithinNodes(edges: set<(nat, nat)>, universe: set<nat>) {
    forall x, y :: (x, y) in edges ==> x in universe && y in universe
  }

  /** A closed set that holds the start of a chain holds every member of it. */
  lemma {:induction false} ChainedInClosed(edges: set<(nat, nat)>, visit: seq<nat>, d: set<nat>, j: nat)
    requires Chained(edges, visit) && |visit| > 0 && visit[0] in d && Closed(edges, d)
    requires j < |visit|
    ensures visit[j] in d
    decreases j
  {
    if j > 0 {
      var i :| 0 <= i < j && Adjacent(edges, visit[i], visit[j]);
      ChainedInClosed(edges, visit, d, i);
    }
  }

  /** With edges inside the universe, the rest of the universe outside a closed set is closed too. */
  lemma ComplementClosed(edges: set<(nat, nat)>, universe: set<nat>, c: set<nat>)
    requires WithinNodes(edges, universe) && Closed(edges, c)
    ensures Closed(edges, universe - c)
  {
    forall x, y | x in universe - c && Adjacent(edges, x, y)
      ensures y in universe - c
    {
      assert Adjacent(edges, y, x);
    }
  }

  /** A chained, closed set: the connected cluster of its first member. */
  ghost predicate IsCluster(edges: set<(nat, nat)>, c: set<nat>, visit: seq<nat>) {
    |visit| > 0 && Chained(edges, visit) && Closed(edges, c) &&
    forall x :: x in c <==> x in visit
  }

  /** Two clusters are the same or share no node. */
  lemma ClustersDisjoint(edges: set<(nat, nat)>, universe: set<nat>,
                         c1: set<nat>, v1: seq<nat>, c2: set<nat>, v2: seq<nat>)
    requires WithinNodes(edges, universe) && c1 <= universe && c2 <= universe
    requires IsCluster(edges, c1, v1) && IsCluster(edges, c2, v2)
    ensures c1 == c2 || c1 !! c2
  {
    if !(c1 !! c2) {
      var x :| x in c1 && x in c2;
      ClusterHoldsSeed(edges, universe, c1, c2, v2, x);
      ClusterHoldsSeed(edges, universe, c2, c1, v1, x);
      forall y | y in c2 ensures y in c1 {
        var j :| 0 <= j < |v2| && v2[j] == y;
        ChainedInClosed(edges, v2, c1, j);
      }
      forall y | y in c1 ensures y in c2 {
        var j :| 0 <= j < |v1| && v1[j] == y;
        ChainedInClosed(edges, v1, c2, j);
      }
    }
  }

  /** Each of the clusters is one, inside the universe, as its chain shows. */
  ghost predicate AllClusters(edges: set<(nat, nat)>, universe: set<nat>, clusters: set<set<nat>>) {
    forall c :: c in clusters ==> c <= universe && exists visit :: IsCluster(edges, c, visit)
  }

  lemma AllClustersAdd(edges: set<(nat, nat)>, universe: set<nat>, clusters: set<set<nat>>,
                       c: set<nat>, visit: seq<nat>)
    requires AllClusters(edges, universe, clusters)
    requires IsCluster(edges, c, visit) && c <= universe
    ensures AllClusters(edges, universe, clusters + {c})
  {
  }

  /** The clusters are non-empty closed sets of the universe, pairwise the same or disjoint. */
  ghost predicate Partitioned(edges: set<(nat, nat)>, universe: set<nat>, clusters: set<set<nat>>) {
    && (forall c :: c in clusters ==> c != {} && c <= universe && Closed(edges, c))
    && (forall c1, c2 :: c1 in clusters && c2 in clusters ==> c1 == c2 || c1 !! c2)
  }

  /** Clusters, each with its chain, partition what they cover. */
  lemma ClustersPartition(edges: set<(nat, nat)>, universe: set<nat>, clusters: set<set<nat>>)
    requires WithinNodes(edges, universe) && AllClusters(edges, universe, clusters)
    ensures Partitioned(edges, universe, clusters)
  {
    forall c1, c2 | c1 in clusters && c2 in clusters
      ensures c1 == c2 || c1 !! c2
    {
      var v1 :| IsCluster(edges, c1, v1);
      var v2 :| IsCluster(edges, c2, v2);
      ClustersDisjoint(edges, universe, c1, v1, c2, v2);
    }
    forall c | c in clusters
      ensures c != {}
    {
      var v :| IsCluster(edges, c, v);
      assert v[0] in c;
    }
  }

  /** A closed set sharing a node with a cluster holds the cluster's first member. */
  lemma ClusterHoldsSeed(edges: set<(nat, nat)>, universe: set<nat>, c: set<nat>,
                         cluster: set<nat>, visit: seq<nat>, x: nat)
    requires WithinNodes(edges, universe) && c <= universe && cluster <= universe
    requires Closed(edges, c) && IsCluster(edges, cluster, visit) && x in c && x in cluster
    ensures visit[0] in c
  {
    assert visit[0] in cluster;
    var j :| 0 <= j < |visit| && visit[j] == x;
    if visit[0] !in c {
      ComplementClosed(edges, universe, c);
      ChainedInClosed(edges, visit, universe - c, j);
      assert false;
    }
  }

  class Graph {
    /** The nodes, by handle. */
    var nodes: map<nat, Node>
    /** `edges`: (source, destination) pairs; a repeated pair is kept once. */
    var edges: set<(nat, nat)>
    /** `inverseEdges`: every edge reversed. */
    var inverseEdges: set<(nat, nat)>

    /** The inverse edges are exactly the edges turned round. */
    ghost predicate Valid()
      reads this
    {
      forall x, y :: (x, y) in inverseEdges <==> (y, x) in edges
    }

    /** An empty graph. */
    constructor ()
      ensures Valid() && nodes == map[] && edges == {} && inverseEdges == {}
    {
      nodes, edges, inverseEdges := map[], {}, {};
    }

    /** `nodes.add`: a new node under a handle not yet used. */
    method AddNode(h: nat, n: Node)
      requires Valid() && h !in nodes
      modifies this
      ensures Valid() && nodes == old(nodes)[h := n] && edges == old(edges)
    {
      nodes := nodes[h := n];
    }

    /** `addEdge`: the edge and its inverse; adding a pair twice changes nothing the second time. */
    method AddEdge(source: nat, destination: nat)
      requires Valid()
      modifies this
      ensures Valid() && nodes == old(nodes)
      ensures edges == old(edges) + {(source, destination)}
      ensures inverseEdges == old(inverseEdges) + {(destination, source)}
    {
      edges := edges + {(source, destination)};
      inverseEdges := inverseEdges + {(destination, source)};
    }

    /**
     * `getSubgraph`: a new graph holding exactly the given nodes, with
     * every edge whose source is among them.
     */
    method Subgraph(members: set<nat>) returns (sub: Graph)
      requires Valid()
      ensures fresh(sub) && sub.Valid()
      ensures forall h :: h in sub.nodes <==> h in members && h in nodes
      ensures forall h :: h in sub.nodes ==> sub.nodes[h] == nodes[h]
      ensures forall x, y :: (x, y) in sub.edges <==> (x, y) in edges && x in sub.nodes
    {
      sub := new Graph();
      var chosen := map h | h in members && h in nodes :: nodes[h];
      sub.nodes := chosen;
      var left := chosen.Keys;
      while left != {}
        invariant left <= chosen.Keys && sub.Valid() && sub.nodes == chosen
        invariant forall x, y :: (x, y) in sub.edges <==> (x, y) in edges && x in chosen && x !in left
        decreases |left|
      {
        var source :| source in left;
        var targets := set e | e in edges && e.0 == source :: e.1;
        AddEdgesFrom(sub, source, targets);
        left := left - {source};
      }
    }

    /** The nodes next to x, through edges and inverse edges (`edges.get` and `inverseEdges.get`). */
    function Neighbours(x: nat): (r: set<nat>)
      reads this
      requires Valid()
      ensures forall y :: y in r <==> Adjacent(edges, x, y)
    {
      (set e | e in edges && e.0 == x :: e.1) + (set e | e in inverseEdges && e.0 == x :: e.1)
    }

    /**
     * What holds at each turn of the walk from seed: the cluster so far is
     * the visit so far, a chain from the seed; every open node is reached
     * from it, and every edge out of the cluster ends in the cluster or at
     * an open node.
     */
    ghost predicate WalkOk(seed: nat, cluster: set<nat>, visit: seq<nat>, open: seq<nat>)
      reads this
    {
      cluster <= nodes.Keys && (forall y :: y in open ==> y in nodes) &&
      (forall x :: x in cluster <==> x in visit) &&
      Distinct(visit) && Chained(edges, visit) &&
      (visit == [] ==> open == [seed]) &&
      (visit != [] ==> visit[0] == seed && forall y :: y in open ==> ReachedFrom(edges, visit, y)) &&
      (forall x, y :: x in cluster && Adjacent(edges, x, y) ==> y in cluster || y in open)
    }

    /**
     * The breadth-first walk of `getClusters` from one seed: the cluster of
     * every node the walk can reach from the seed, edges taken either way.
     * A node already closed is not expanded again.
     */
    method ClusterOf(seed: nat) returns (cluster: set<nat>, ghost visit: seq<nat>)
      requires Valid() && WithinNodes(edges, nodes.Keys) && seed in nodes
      ensures IsCluster(edges, cluster, visit) && visit[0] == seed && cluster <= nodes.Keys
    {
      var open := [seed];
      cluster := {};
      visit := [];
      while open != []
        invariant WalkOk(seed, cluster, visit, open)
        decreases nodes.Keys - cluster, |open|
      {
        var current := open[0];
        if current in cluster {
          Skip(seed, cluster, visit, open);
          open := open[1..];
        } else {
          cluster, visit, open := Expand(seed, cluster, visit, open);
        }
      }
      assert visit != [] && Closed(edges, cluster);
    }

    /** A node that is already closed leaves the open list and nothing else changes. */
    lemma Skip(seed: nat, cluster: set<nat>, visit: seq<nat>, open: seq<nat>)
      requires WalkOk(seed, cluster, visit, open) && open != [] && open[0] in cluster
      ensures WalkOk(seed, cluster, visit, open[1..])
    {
      assert forall y :: y in open ==> y == open[0] || y in open[1..] by {
        assert open == [open[0]] + open[1..];
      }
    }

    /** The first open node joins the cluster, and its neighbours not yet closed go to the end of the open list. */
    method Expand(seed: nat, cluster: set<nat>, ghost visit: seq<nat>, open: seq<nat>)
      returns (cluster': set<nat>, ghost visit': seq<nat>, open': seq<nat>)
      requires Valid() && WithinNodes(edges, nodes.Keys)
      requires WalkOk(seed, cluster, visit, open) && open != [] && open[0] !in cluster
      ensures WalkOk(seed, cluster', visit', open') && cluster' == cluster + {open[0]}
    {
      var current := open[0];
      visit' := visit + [current];
      cluster' := cluster + {current};
      var unseen := set y | y in Neighbours(current) && y !in cluster';
      open' := Push(open[1..], unseen);
      ExpandStep(seed, cluster, visit, open, unseen, open');
    }

    /** What Expand keeps: the walk stays a chain from the seed, and nothing adjacent to the cluster is lost. */
    lemma ExpandStep(seed: nat, cluster: set<nat>, visit: seq<nat>, open: seq<nat>, unseen: set<nat>, open': seq<nat>)
      requires Valid() && WithinNodes(edges, nodes.Keys)
      requires WalkOk(seed, cluster, visit, open) && open != [] && open[0] !in cluster
      requires forall y :: y in unseen <==> Adjacent(edges, open[0], y) && y !in cluster && y != open[0]
      requires forall y :: y in open' <==> y in open[1..] || y in unseen
      ensures WalkOk(seed, cluster + {open[0]}, visit + [open[0]], open')
    {
      var current := open[0];
      var rest := open[1..];
      var v := visit + [current];
      assert forall y :: y in open ==> y == current || y in rest by {
        assert open == [current] + rest;
      }
      ChainExtend(edges, visit, current);
      forall y | y in unseen
        ensures ReachedFrom(edges, v, y)
      {
        assert Adjacent(edges, v[|v| - 1], y);
      }
      assert Distinct(v) by {
        assert current !in visit;
      }
    }

    /**
     * `getClusters`: the cluster of every node, each kept once. The
     * clusters cover the nodes, are closed under edges taken either way, and
     * two of them are the same or share no node.
     */
    method Clusters() returns (clusters: set<set<nat>>)
      requires Valid() && WithinNodes(edges, nodes.Keys)
      ensures forall h :: h in nodes ==> exists c :: c in clusters && h in c
      ensures Partitioned(edges, nodes.Keys, clusters)
    {
      clusters := {};
      var remaining := nodes.Keys;
      while remaining != {}
        invariant remaining <= nodes.Keys
        invariant forall h :: h in nodes && h !in remaining ==> exists c :: c in clusters && h in c
        invariant AllClusters(edges, nodes.Keys, clusters)
        decreases |remaining|
      {
        var next :| next in remaining;
        var cluster, visit := ClusterOf(next);
        assert next in cluster by {
          assert visit[0] in visit;
        }
        AllClustersAdd(edges, nodes.Keys, clusters, cluster, visit);
        clusters := clusters + {cluster};
        remaining := remaining - {next};
      }
      ClustersPartition(edges, nodes.Keys, clusters);
    }
  }

  /** Some member of visit is adjacent to y. */
  ghost predicate ReachedFrom(edges: set<(nat, nat)>, visit: seq<nat>, y: nat) {
    exists i :: 0 <= i < |visit| && Adjacent(edges, visit[i], y)
  }

  /** A chain grows by any node it reaches, and what it reached stays reached. */
  lemma ChainExtend(edges: set<(nat, nat)>, visit: seq<nat>, c: nat)
    requires Chained(edges, visit) && (visit != [] ==> ReachedFrom(edges, visit, c))
    ensures Chained(edges, visit + [c])
    ensures forall y :: ReachedFrom(edges, visit, y) ==> ReachedFrom(edges, visit + [c], y)
  {
    var v := visit + [c];
    forall j | 0 < j < |v|
      ensures exists i :: 0 <= i < j && Adjacent(edges, v[i], v[j])
    {
      if j < |visit| {
        var i :| 0 <= i < j && Adjacent(edges, visit[i], visit[j]);
        assert v[i] == visit[i];
      } else {
        var i :| 0 <= i < |visit| && Adjacent(edges, visit[i], c);
        assert v[i] == visit[i];
      }
    }
    forall y | ReachedFrom(edges, visit, y)
      ensures ReachedFrom(edges, v, y)
    {
      var i :| 0 <= i < |visit| && Adjacent(edges, visit[i], y);
      assert v[i] == visit[i];
    }
  }

  /** The inner loop of `getSubgraph`: an edge from source to each of the targets. */
  method AddEdgesFrom(g: Graph, source: nat, targets: set<nat>)
    requires g.Valid()
    modifies g
    ensures g.Valid() && g.nodes == old(g.nodes)
    ensures forall x, y :: (x, y) in g.edges <==> (x, y) in old(g.edges) || (x == source && y in targets)
  {
    var rest := targets;
    while rest != {}
      invariant rest <= targets && g.Valid() && g.nodes == old(g.nodes)
      invariant forall x, y :: (x, y) in g.edges <==> (x, y) in old(g.edges) || (x == source && y in targets && y !in rest)
      decreases |rest|
    {
      var y :| y in rest;
      g.AddEdge(source, y);
      rest := rest - {y};
    }
  }

  /** Appending each member of a set to the end of the open list (`openSet.add(openSet.size(), n)`). */
  method Push(open: seq<nat>, add: set<nat>) returns (r: seq<nat>)
    ensures forall y :: y in r <==> y in open || y in add
    ensures |r| == |open| + |add| && r[..|open|] == open
  {
    r := open;
    var pending := add;
    while pending != {}
      invariant pending <= add && |r| == |open| + |add| - |pending| && r[..|open|] == open
      invariant forall y :: y in r <==> y in open || (y in add && y !in pending)
      decreases |pending|
    {
      var y :| y in pending;
      r := r + [y];
      pending := pending - {y};
    }
  }
}
