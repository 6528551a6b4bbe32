/** The routing graph of a device: resources, the datapaths between them, and the
    breadth-first search for a shortest route. */
module RoutingGraph {
  import opened Wrappers
  import opened Digraph

  type NodeId = Node
  type Resource = string

  datatype ResourceKind = Memory | Compute | LoadStoreUnit
  datatype ResourceNode = ResourceNode(id: NodeId, resource: Resource, kind: ResourceKind)
  datatype EdgeInfo = EdgeInfo(source: NodeId, target: NodeId, cost: nat)

  function Targets(edges: seq<EdgeInfo>): seq<NodeId> {
    seq(|edges|, i requires 0 <= i < |edges| => edges[i].target)
  }

  /** Every edge is listed at its source and joins known nodes. */
  predicate EdgesInside(adjacency: map<NodeId, seq<EdgeInfo>>, known: set<NodeId>) {
    forall n :: n in adjacency ==> n in known && forall e :: e in adjacency[n] ==> e.source == n && e.target in known
  }

  function LinksOf(adjacency: map<NodeId, seq<EdgeInfo>>): Graph {
    map n | n in adjacency :: Targets(adjacency[n])
  }

  lemma AppendEdge(adjacency: map<NodeId, seq<EdgeInfo>>, known: set<NodeId>, before: seq<EdgeInfo>, e: EdgeInfo)
    requires EdgesInside(adjacency, known) && e.source in known && e.target in known
    requires before == if e.source in adjacency then adjacency[e.source] else []
    ensures EdgesInside(adjacency[e.source := before + [e]], known)
    ensures LinksOf(adjacency[e.source := before + [e]]) == LinksOf(adjacency)[e.source := Targets(before) + [e.target]]
  {
    assert Targets(before + [e]) == Targets(before) + [e.target];
  }

  /** The index lists exactly the nodes that carry each resource. */
  predicate Indexed(nodes: map<NodeId, ResourceNode>, index: map<Resource, seq<NodeId>>) {
    && (forall n :: n in nodes ==>
          nodes[n].id == n && nodes[n].resource in index && n in index[nodes[n].resource])
    && (forall r, n :: r in index && n in index[r] ==> n in nodes && nodes[n].resource == r)
  }

  /** p is a path from a to b, which may be the single node a == b. */
  predicate PathBetween(g: Graph, p: seq<NodeId>, a: NodeId, b: NodeId) {
    IsPath(g, p) && p[0] == a && p[|p| - 1] == b
  }

  /** p is a path from a to b that repeats no node and than which none has fewer edges. */
  ghost predicate IsShortest(g: Graph, p: seq<NodeId>, a: NodeId, b: NodeId) {
    && PathBetween(g, p, a, b)
    && Distinct(p)
    && forall q :: PathBetween(g, q, a, b) ==> |p| <= |q|
  }

  /** Nothing bypasses two consecutive edges of a shortest path. */
  lemma ShortestHasNoChord(g: Graph, p: seq<NodeId>, a: NodeId, b: NodeId, i: nat, j: nat)
    requires IsShortest(g, p, a, b) && i + 2 <= j < |p|
    ensures !Edge(g, p[i], p[j])
  {
    if Edge(g, p[i], p[j]) {
      var q := p[..i + 1] + p[j..];
      forall k | 0 <= k < |q| - 1 ensures Edge(g, q[k], q[k + 1]) {
        if k < i {
          assert q[k] == p[k] && q[k + 1] == p[k + 1];
        } else if k > i {
          assert q[k] == p[k - (i + 1) + j] && q[k + 1] == p[k - (i + 1) + j + 1];
        }
      }
      assert q[|q| - 1] == p[|p| - 1];
      assert PathBetween(g, q, a, b);
    }
  }

  /** The state of a search: every node whose neighbours were all looked at is in done,
      and the rest of the visited nodes wait in pending. */
  datatype Front = Front(pending: seq<NodeId>, visited: set<NodeId>, pred: map<NodeId, NodeId>,
                         dist: map<NodeId, nat>, done: set<NodeId>)

  /** What the search keeps: dist is the length of the tree path that pred records, the
      neighbours of a done node are visited and at most one further, and the pending
      nodes are in order of distance. */
  ghost predicate Searching(g: Graph, source: NodeId, f: Front) {
    && f.dist.Keys == f.visited == f.done + Elems(f.pending)
    && source in f.visited && f.dist[source] == 0
    && TreeOfPaths(g, source, f.pred, f.dist)
    && Settled(g, f.done, f.dist)
    && InOrder(f.pending, f.dist, f.done)
  }

  ghost predicate TreeOfPaths(g: Graph, source: NodeId, pred: map<NodeId, NodeId>, dist: map<NodeId, nat>) {
    forall x {:trigger TreeEdge(g, pred, dist, x)} :: x in dist && x != source ==> TreeEdge(g, pred, dist, x)
  }

  ghost predicate TreeEdge(g: Graph, pred: map<NodeId, NodeId>, dist: map<NodeId, nat>, x: NodeId)
    requires x in dist
  {
    x in pred && pred[x] in dist && Edge(g, pred[x], x) && dist[x] == dist[pred[x]] + 1
  }

  ghost predicate Settled(g: Graph, done: set<NodeId>, dist: map<NodeId, nat>)
    requires done <= dist.Keys
  {
    forall u, w :: u in done && Edge(g, u, w) ==> w in dist && dist[w] <= dist[u] + 1
  }

  ghost predicate InOrder(pending: seq<NodeId>, dist: map<NodeId, nat>, done: set<NodeId>)
    requires done <= dist.Keys && forall x :: x in pending ==> x in dist
  {
    && (forall u :: u in done && |pending| > 0 ==> dist[u] <= dist[pending[0]])
    && (forall i, j :: 0 <= i <= j < |pending| ==> dist[pending[i]] <= dist[pending[j]] <= dist[pending[i]] + 1)
  }

  /** Every path from the source stays within the visited nodes, and reaches its i-th
      node no sooner than the search did, up to the distance of the nearest node that
      is not done. */
  lemma {:induction false} PathStaysVisited(g: Graph, source: NodeId, f: Front, bound: nat, q: seq<NodeId>, i: nat)
    requires Searching(g, source, f)
    requires forall u :: u in f.visited ==> u in f.done || bound <= f.dist[u]
    requires IsPath(g, q) && q[0] == source && i < |q| && i <= bound
    ensures q[i] in f.visited && f.dist[q[i]] <= i
  {
    if i > 0 {
      PathStaysVisited(g, source, f, bound, q, i - 1);
      assert Edge(g, q[i - 1], q[i - 1 + 1]);
    }
  }

  /** The neighbours of the node in front, up to the i-th, are visited and near. */
  ghost predicate LookedAt(f: Front, neighbors: seq<NodeId>, i: nat)
    requires |f.pending| > 0 && f.pending[0] in f.dist && i <= |neighbors|
  {
    forall k :: 0 <= k < i ==> neighbors[k] in f.dist && f.dist[neighbors[k]] <= f.dist[f.pending[0]] + 1
  }

  function Visit(f: Front, w: NodeId): Front
    requires |f.pending| > 0 && f.pending[0] in f.dist
  {
    if w in f.visited then f
    else Front(f.pending + [w], f.visited + {w}, f.pred[w := f.pending[0]],
               f.dist[w := f.dist[f.pending[0]] + 1], f.done)
  }

  /** Looking at one more neighbour of the node in front. */
  lemma VisitNeighbor(g: Graph, source: NodeId, f: Front, neighbors: seq<NodeId>, i: nat)
    requires Searching(g, source, f) && |f.pending| > 0 && f.pending[0] in f.dist
    requires i < |neighbors| && LookedAt(f, neighbors, i) && Edge(g, f.pending[0], neighbors[i])
    ensures Searching(g, source, Visit(f, neighbors[i]))
    ensures LookedAt(Visit(f, neighbors[i]), neighbors, i + 1)
  {
    var w := neighbors[i];
    if w in f.visited {
      if w !in f.done {
        var k :| 0 <= k < |f.pending| && f.pending[k] == w;
      }
    } else {
      var f' := Visit(f, w);
      assert Elems(f'.pending) == Elems(f.pending) + {w};
      forall x | x in f'.dist && x != source ensures TreeEdge(g, f'.pred, f'.dist, x) {
        if x != w {
          assert TreeEdge(g, f.pred, f.dist, x);
        }
      }
    }
  }

  /** Once its neighbours have all been visited, the node in front is done. */
  lemma FinishNode(g: Graph, source: NodeId, f: Front, neighbors: seq<NodeId>)
    requires Searching(g, source, f) && |f.pending| > 0 && f.pending[0] in f.dist
    requires LookedAt(f, neighbors, |neighbors|)
    requires forall w :: Edge(g, f.pending[0], w) ==> w in neighbors
    ensures Searching(g, source, f.(pending := f.pending[1..], done := f.done + {f.pending[0]}))
  {
    hide TreeOfPaths;
    assert Elems(f.pending) == {f.pending[0]} + Elems(f.pending[1..]);
    assert InOrder(f.pending[1..], f.dist, f.done + {f.pending[0]}) by {
      if |f.pending| > 1 {
        assert f.dist[f.pending[0]] <= f.dist[f.pending[1]];
      }
    }
  }

  /** Each node of w has an edge to the one before it and is one closer to the source. */
  ghost predicate WalksBack(g: Graph, w: seq<NodeId>, dist: map<NodeId, nat>) {
    && (forall k :: 0 <= k < |w| ==> w[k] in dist)
    && (forall k :: 0 <= k < |w| ==> dist[w[k]] == dist[w[0]] - k)
    && (forall k :: 0 <= k < |w| - 1 ==> Edge(g, w[k + 1], w[k]))
  }

  lemma WalkedBack(g: Graph, w: seq<NodeId>, dist: map<NodeId, nat>, path: seq<NodeId>)
    requires WalksBack(g, w, dist) && |w| > 0
    requires |path| == |w| && forall k :: 0 <= k < |w| ==> path[k] == w[|w| - 1 - k]
    ensures PathBetween(g, path, w[|w| - 1], w[0]) && Distinct(path)
  {
    forall k | 0 <= k < |path| - 1 ensures Edge(g, path[k], path[k + 1]) {
      var m := |w| - 2 - k;
      assert Edge(g, w[m + 1], w[m]);
    }
    forall i, j | 0 <= i < j < |path| ensures path[i] != path[j] {
      assert dist[w[|w| - 1 - i]] != dist[w[|w| - 1 - j]];
    }
  }

  lemma ReachesIsPath(g: Graph, a: NodeId, b: NodeId)
    ensures (exists q :: PathBetween(g, q, a, b)) <==> a == b || Reaches(g, a, b)
  {
    if a == b {
      assert PathBetween(g, [a], a, b);
    }
    if Reaches(g, a, b) {
      var p :| Connects(g, p, a, b);
      assert PathBetween(g, p, a, b);
    }
    if q :| PathBetween(g, q, a, b) {
      if |q| >= 2 {
        assert Connects(g, q, a, b);
      }
    }
  }

  /** The queue-driven search, up to the point where the target leaves the queue or
      the queue runs dry. */
  method Search(g: Graph, known: set<NodeId>, source: NodeId, target: NodeId)
    returns (visited: set<NodeId>, predecessor: map<NodeId, NodeId>, ghost f: Front)
    requires source in known && forall a, b :: Edge(g, a, b) ==> b in known
    ensures Searching(g, source, f) && f.visited == visited && f.pred == predecessor
    ensures target in visited ==> forall u :: u in visited ==> u in f.done || f.dist[target] <= f.dist[u]
    ensures target !in visited ==> f.pending == []
  {
    var worklist: seq<NodeId> := [source];
    predecessor, visited := map[], {source};
    f := Front([source], {source}, map[], map[source := 0], {});
    while |worklist| > 0
      invariant f.pending == worklist && f.visited == visited && f.pred == predecessor
      invariant visited <= known && Searching(g, source, f)
      decreases known - visited, |worklist|
    {
      var current := worklist[0];
      worklist := worklist[1..];
      if current == target {
        return;
      }
      var neighbors := if current in g then g[current] else [];
      ghost var unseen := known - visited;
      ghost var waiting := worklist;
      for i := 0 to |neighbors|
        invariant |f.pending| > 0 && f.pending[0] == current && f.pending[1..] == worklist
        invariant f.visited == visited && f.pred == predecessor && current in f.dist
        invariant visited <= known && Searching(g, source, f) && LookedAt(f, neighbors, i)
        invariant known - visited < unseen || (known - visited == unseen && worklist == waiting)
      {
        var neighbor := neighbors[i];
        assert Edge(g, current, neighbor);
        VisitNeighbor(g, source, f, neighbors, i);
        f := Visit(f, neighbor);
        if neighbor in visited {
          continue;
        }
        visited := visited + {neighbor};
        predecessor := predecessor[neighbor := current];
        worklist := worklist + [neighbor];
      }
      FinishNode(g, source, f, neighbors);
      f := f.(pending := f.pending[1..], done := f.done + {f.pending[0]});
    }
  }

  /** Follows the predecessors back from the target, then turns the walk around. */
  method TracePath(ghost g: Graph, source: NodeId, target: NodeId, predecessor: map<NodeId, NodeId>, ghost f: Front)
    returns (path: seq<NodeId>)
    requires Searching(g, source, f) && f.pred == predecessor
    requires target in f.visited && forall u :: u in f.visited ==> u in f.done || f.dist[target] <= f.dist[u]
    ensures IsShortest(g, path, source, target)
  {
    var current := target;
    var reversed: seq<NodeId> := [current];
    while current != source
      invariant |reversed| > 0 && reversed[0] == target && reversed[|reversed| - 1] == current
      invariant WalksBack(g, reversed, f.dist)
      decreases f.dist[current]
    {
      assert TreeEdge(g, predecessor, f.dist, current);
      current := predecessor[current];
      reversed := reversed + [current];
    }
    path := [];
    for i := |reversed| downto 0
      invariant |path| == |reversed| - i
      invariant forall k :: 0 <= k < |path| ==> path[k] == reversed[|reversed| - 1 - k]
    {
      path := path + [reversed[i]];
    }
    WalkedBack(g, reversed, f.dist, path);
    forall q | PathBetween(g, q, source, target) ensures |path| <= |q| {
      if |q| < |path| {
        PathStaysVisited(g, source, f, f.dist[target], q, |q| - 1);
      }
    }
  }

  class RoutingGraph {
    var nextNodeId: nat
    var nodes: map<NodeId, ResourceNode>
    var adjacency: map<NodeId, seq<EdgeInfo>>
    var resourceIndex: map<Resource, seq<NodeId>>

    /** The datapaths as a plain graph. */
    function Links(): Graph
      reads this
    {
      LinksOf(adjacency)
    }

    ghost predicate Valid()
      reads this
    {
      && (forall n :: n in nodes ==> n < nextNodeId)
      && Indexed(nodes, resourceIndex)
      && EdgesInside(adjacency, nodes.Keys)
    }

    constructor ()
      ensures Valid() && nodes == map[] && adjacency == map[] && resourceIndex == map[]
    {
      nextNodeId, nodes, adjacency, resourceIndex := 0, map[], map[], map[];
    }

    method AddNode(resource: Resource, kind: ResourceKind) returns (id: NodeId)
      requires Valid()
      modifies this
      ensures Valid() && id !in old(nodes)
      ensures nodes == old(nodes)[id := ResourceNode(id, resource, kind)]
      ensures adjacency == old(adjacency)
      ensures NodeIdsOf(resource) == old(NodeIdsOf(resource)) + [id]
      ensures forall r :: r != resource ==> NodeIdsOf(r) == old(NodeIdsOf(r))
    {
      id := nextNodeId;
      nextNodeId := nextNodeId + 1;
      nodes := nodes[id := ResourceNode(id, resource, kind)];
      resourceIndex := resourceIndex[resource := NodeIdsOf(resource) + [id]];
    }

    method AddEdge(source: NodeId, target: NodeId, cost: nat)
      requires Valid() && source in nodes && target in nodes
      modifies this`adjacency
      ensures Valid()
      ensures Links() == old(Links())[source := old(Neighbors(source)) + [target]]
    {
      var before := if source in adjacency then adjacency[source] else [];
      var edge := EdgeInfo(source, target, cost);
      AppendEdge(adjacency, nodes.Keys, before, edge);
      adjacency := adjacency[source := before + [edge]];
    }

    function NodeIdsOf(resource: Resource): seq<NodeId>
      reads this
    {
      if resource in resourceIndex then resourceIndex[resource] else []
    }

    function Neighbors(n: NodeId): seq<NodeId>
      reads this
    {
      if n in adjacency then Targets(adjacency[n]) else []
    }

    lemma LinksStayInside()
      requires Valid()
      ensures forall a, b :: Edge(Links(), a, b) ==> a in nodes && b in nodes
    {
      forall a, b | Edge(Links(), a, b) ensures a in nodes && b in nodes {
        var i :| 0 <= i < |adjacency[a]| && Targets(adjacency[a])[i] == b;
        assert adjacency[a][i] in adjacency[a];
      }
    }

    /** The queue-driven search for a shortest path. It fails exactly when one of the
        nodes is unknown or the target cannot be reached. */
    method FindShortestPath(source: NodeId, target: NodeId) returns (r: Option<seq<NodeId>>)
      requires Valid()
      ensures r.Some? <==>
                source in nodes && target in nodes && (source == target || Reaches(Links(), source, target))
      ensures r.Some? ==> IsShortest(Links(), r.value, source, target)
    {
      if source !in nodes || target !in nodes {
        return None;
      }
      LinksStayInside();
      ghost var g := Links();
      var visited, predecessor, f := Search(Links(), nodes.Keys, source, target);
      ReachesIsPath(g, source, target);
      if target !in visited {
        forall q | PathBetween(g, q, source, target) ensures false {
          PathStaysVisited(g, source, f, |q|, q, |q| - 1);
        }
        return None;
      }
      var path := TracePath(g, source, target, predecessor, f);
      r := Some(path);
    }
  }
}
