/** Cutting the middle of a route into hops, and deciding what holds the data where one
    stage of the route hands over to the next. */
module HopCutting {
  import opened Wrappers
  import opened Digraph
  import opened RoutingGraph

  type Nodes = map<NodeId, ResourceNode>

  predicate KnownPath(nodes: Nodes, path: seq<NodeId>) {
    forall i :: 0 <= i < |path| ==> path[i] in nodes && nodes[path[i]].id == path[i]
  }

  function PathNode(nodes: Nodes, path: seq<NodeId>, i: nat): ResourceNode
    requires KnownPath(nodes, path) && i < |path|
  {
    nodes[path[i]]
  }

  /** A stretch of the route that one stage takes on: the path nodes it covers, the memory
      it works on, if any, and the load/store unit it runs on. */
  datatype Hop = Hop(begin: nat, width: nat, memory: Option<Resource>, unit: Resource) {
    function End(): nat { begin + width }
  }

  /** The path index of the hop's unit: its first node, unless that is the memory. */
  function UnitIndex(nodes: Nodes, path: seq<NodeId>, h: Hop): nat
    requires KnownPath(nodes, path) && h.begin < |path|
  {
    if PathNode(nodes, path, h.begin).kind.Memory? then h.begin + 1 else h.begin
  }

  /** A hop is one load/store unit with at most one memory beside it: the memory comes
      first when the unit reads it, the unit first when it writes. */
  predicate IsHop(nodes: Nodes, path: seq<NodeId>, h: Hop)
    requires KnownPath(nodes, path)
  {
    && 1 <= h.width <= 2 && h.End() <= |path|
    && var u := UnitIndex(nodes, path, h);
    && u < h.End()
    && PathNode(nodes, path, u).kind.LoadStoreUnit? && PathNode(nodes, path, u).resource == h.unit
    && (h.width == 1 ==> h.memory.None?)
    && forall i :: h.begin <= i < h.End() && i != u ==>
         PathNode(nodes, path, i).kind.Memory? && h.memory == Some(PathNode(nodes, path, i).resource)
  }

  /** The hops cover the path indices from b up to e, one after the other. */
  predicate IsPartition(nodes: Nodes, path: seq<NodeId>, hops: seq<Hop>, b: nat, e: nat)
    requires KnownPath(nodes, path)
  {
    if hops == [] then b >= e
    else hops[0].begin == b && IsHop(nodes, path, hops[0]) && hops[0].End() <= e
         && IsPartition(nodes, path, hops[1..], hops[0].End(), e)
  }

  /** The hop that starts at path index i, if there is one that ends before e. */
  function HopAt(nodes: Nodes, path: seq<NodeId>, i: nat, e: nat): (r: Option<Hop>)
    requires KnownPath(nodes, path) && i < e <= |path|
    ensures r.Some? ==> IsHop(nodes, path, r.value) && r.value.begin == i && r.value.End() <= e
  {
    var node := PathNode(nodes, path, i);
    var next := if i + 1 < e then Some(PathNode(nodes, path, i + 1)) else None;
    match node.kind
    case Memory =>
      if next.None? || !next.value.kind.LoadStoreUnit? then None
      else Some(Hop(i, 2, Some(node.resource), next.value.resource))
    case LoadStoreUnit =>
      if next.Some? && next.value.kind.Memory? then Some(Hop(i, 2, Some(next.value.resource), node.resource))
      else Some(Hop(i, 1, None, node.resource))
    case Compute => None
  }

  function CutHops(nodes: Nodes, path: seq<NodeId>, b: nat, e: nat): (r: Option<seq<Hop>>)
    requires KnownPath(nodes, path) && e <= |path|
    ensures r.Some? ==> IsPartition(nodes, path, r.value, b, e)
    decreases e - b
  {
    if b >= e then Some([])
    else
      var first := HopAt(nodes, path, b, e);
      if first.None? then None
      else
        var rest := CutHops(nodes, path, first.value.End(), e);
        if rest.None? then None else Some([first.value] + rest.value)
  }

  /** Cutting greedily loses nothing: if the stretch can be cut into hops at all, the cut
      succeeds. */
  lemma {:induction false} GreedyCutIsComplete(nodes: Nodes, path: seq<NodeId>, hops: seq<Hop>, b: nat, e: nat)
    requires KnownPath(nodes, path) && e <= |path| && IsPartition(nodes, path, hops, b, e)
    ensures CutHops(nodes, path, b, e).Some?
    decreases e - b
  {
    if b < e {
      var greedy := HopAt(nodes, path, b, e);
      if greedy.value.width == hops[0].width {
        GreedyCutIsComplete(nodes, path, hops[1..], hops[0].End(), e);
      } else {
        // A lone unit where the greedy hop also takes the memory behind it: that memory
        // then starts the next hop, whose unit can stand alone instead.
        var reader := hops[1];
        assert IsPartition(nodes, path, hops[1..], b + 1, e) && hops[1..][0] == reader;
        var alone := Hop(b + 2, 1, None, reader.unit);
        assert IsHop(nodes, path, alone);
        var tail := [alone] + hops[1..][1..];
        assert tail[1..] == hops[1..][1..];
        assert IsPartition(nodes, path, tail, b + 2, e);
        GreedyCutIsComplete(nodes, path, tail, b + 2, e);
      }
    }
  }

  /** A unit that stands alone has no memory right behind it that it could have taken. */
  predicate TakesMemories(nodes: Nodes, path: seq<NodeId>, hops: seq<Hop>, e: nat)
    requires KnownPath(nodes, path) && e <= |path|
  {
    forall h :: h in hops && h.width == 1 && h.End() < e ==> !PathNode(nodes, path, h.End()).kind.Memory?
  }

  /** The cut is the one in which every unit takes the memory right behind it, if it has not got the
      one before it. */
  lemma {:induction false} CutTakesMemories(nodes: Nodes, path: seq<NodeId>, hops: seq<Hop>, b: nat, e: nat)
    requires KnownPath(nodes, path) && e <= |path|
    ensures CutHops(nodes, path, b, e) == Some(hops) <==>
            IsPartition(nodes, path, hops, b, e) && TakesMemories(nodes, path, hops, e)
    decreases |hops|
  {
    if hops != [] && b < e {
      assert hops == [hops[0]] + hops[1..];
      var first := HopAt(nodes, path, b, e);
      CutTakesMemories(nodes, path, hops[1..], hops[0].End(), e);
      if CutHops(nodes, path, b, e) == Some(hops) {
        var rest := CutHops(nodes, path, first.value.End(), e);
        assert ([first.value] + rest.value)[1..] == rest.value;
      }
      if IsPartition(nodes, path, hops, b, e) && TakesMemories(nodes, path, hops, e) {
        assert hops[0] in hops;
        assert first == Some(hops[0]);
        assert TakesMemories(nodes, path, hops[1..], e);
      }
    }
  }

  /** The stretch of the path from b up to e can be cut into hops. */
  ghost predicate CanBeCut(nodes: Nodes, path: seq<NodeId>, b: nat, e: nat)
    requires KnownPath(nodes, path)
  {
    exists hops :: IsPartition(nodes, path, hops, b, e)
  }

  lemma CutSucceedsExactlyWhenPossible(nodes: Nodes, path: seq<NodeId>, b: nat, e: nat)
    requires KnownPath(nodes, path) && e <= |path|
    ensures CutHops(nodes, path, b, e).Some? <==> CanBeCut(nodes, path, b, e)
  {
    if CanBeCut(nodes, path, b, e) {
      var hops :| IsPartition(nodes, path, hops, b, e);
      GreedyCutIsComplete(nodes, path, hops, b, e);
    }
  }

  // ----- Boundaries

  /** Where the hops begin, and where the last one ends. */
  function Boundaries(hops: seq<Hop>, e: nat): (r: seq<nat>)
    ensures |r| == |hops| + 1 && r[|hops|] == e
    ensures forall k :: 0 <= k < |hops| ==> r[k] == hops[k].begin
  {
    if hops == [] then [e] else [hops[0].begin] + Boundaries(hops[1..], e)
  }

  /** The hops of a partition follow each other without gap, and boundaries increase
      strictly from the first index to the end. */
  lemma {:induction false} PartitionIsContiguous(nodes: Nodes, path: seq<NodeId>, hops: seq<Hop>, b: nat, e: nat,
                                                 k: nat)
    requires KnownPath(nodes, path) && IsPartition(nodes, path, hops, b, e) && k < |hops|
    ensures IsHop(nodes, path, hops[k]) && b <= hops[k].begin < hops[k].End() <= e
    ensures Boundaries(hops, e)[0] == b
    ensures Boundaries(hops, e)[k] < Boundaries(hops, e)[k + 1] == hops[k].End()
  {
    if k > 0 {
      PartitionIsContiguous(nodes, path, hops[1..], hops[0].End(), e, k - 1);
    } else if |hops| > 1 {
      PartitionIsContiguous(nodes, path, hops[1..], hops[0].End(), e, 0);
    } else {
      assert IsPartition(nodes, path, hops[1..], hops[0].End(), e);
    }
  }

  /** A buffer in a memory, or a FIFO between two units. */
  datatype BoundaryPlace = Buffer(memory: ResourceNode) | Fifo(src: ResourceNode, dest: ResourceNode)

  /** The receiving stage's memory if it starts with one, else the sending stage's memory
      if it ends with one, else a FIFO between the two units. */
  function PlaceAt(nodes: Nodes, path: seq<NodeId>, boundary: nat): BoundaryPlace
    requires KnownPath(nodes, path) && 0 < boundary < |path|
  {
    var senderLast := PathNode(nodes, path, boundary - 1);
    var receiverFirst := PathNode(nodes, path, boundary);
    if receiverFirst.kind.Memory? then Buffer(receiverFirst)
    else if senderLast.kind.Memory? then Buffer(senderLast)
    else Fifo(senderLast, receiverFirst)
  }

  /** The unit can take the data from the place: out of a memory with a datapath into the
      unit, or out of a FIFO that ends at it and follows a datapath. */
  predicate CanLoad(links: Graph, place: BoundaryPlace, unit: NodeId) {
    match place
    case Buffer(memory) => memory.kind.Memory? && Edge(links, memory.id, unit)
    case Fifo(src, dest) => !src.kind.Memory? && dest.id == unit && Edge(links, src.id, unit)
  }

  predicate CanStore(links: Graph, place: BoundaryPlace, unit: NodeId) {
    match place
    case Buffer(memory) => memory.kind.Memory? && Edge(links, unit, memory.id)
    case Fifo(src, dest) => !dest.kind.Memory? && src.id == unit && Edge(links, unit, dest.id)
  }

  /** A datapath that joins two memories on the path, at the given index. */
  predicate MemoryMeetsMemory(nodes: Nodes, path: seq<NodeId>, i: nat)
    requires KnownPath(nodes, path) && 0 < i < |path|
  {
    PathNode(nodes, path, i - 1).kind.Memory? && PathNode(nodes, path, i).kind.Memory?
  }

  /** What a hop reads is always within its unit's reach. What it writes is, exactly when
      the hop and what follows it do not meet memory to memory: on a shortest path a unit
      has no datapath of its own to the second memory. */
  lemma HopTransferIsLegal(links: Graph, nodes: Nodes, path: seq<NodeId>, a: NodeId, z: NodeId, h: Hop)
    requires IsShortest(links, path, a, z) && KnownPath(nodes, path)
    requires IsHop(nodes, path, h) && 0 < h.begin && h.End() < |path|
    ensures CanLoad(links, PlaceAt(nodes, path, h.begin), path[UnitIndex(nodes, path, h)])
    ensures CanStore(links, PlaceAt(nodes, path, h.End()), path[UnitIndex(nodes, path, h)])
            <==> !MemoryMeetsMemory(nodes, path, h.End())
  {
    var u := UnitIndex(nodes, path, h);
    var e := h.End();
    assert Edge(links, path[h.begin - 1], path[h.begin - 1 + 1]);
    assert Edge(links, path[e - 1], path[e - 1 + 1]);
    if u == e - 2 {
      assert Edge(links, path[u], path[u + 1]);
      ShortestHasNoChord(links, path, a, z, u, e);
    } else if u == h.begin + 1 {
      assert Edge(links, path[h.begin], path[h.begin + 1]);
    }
  }

  /** Both ends of the route reach the places they share with their hops: the producer can
      store to the first place or already holds the data in its own memory, and the
      consumer can load from the last place or finds it in its own memory. */
  lemma RouteEndsAreLegal(links: Graph, nodes: Nodes, path: seq<NodeId>, i: nat)
    requires IsPath(links, path) && KnownPath(nodes, path) && 0 < i < |path|
    requires !MemoryMeetsMemory(nodes, path, i)
    ensures PlaceAt(nodes, path, i) == Buffer(nodes[path[i - 1]])
            || CanStore(links, PlaceAt(nodes, path, i), path[i - 1])
    ensures PlaceAt(nodes, path, i) == Buffer(nodes[path[i]]) || CanLoad(links, PlaceAt(nodes, path, i), path[i])
  {
    assert Edge(links, path[i - 1], path[i - 1 + 1]);
  }

  // ----- A device with a datapath between two memories

  function MemoryPairLinks(): Graph {
    map[0 := [1], 1 := [2], 2 := [3], 3 := [4], 4 := [5]]
  }

  function MemoryPairNodes(): Nodes {
    map[0 := ResourceNode(0, "PT", Compute), 1 := ResourceNode(1, "L0SU", LoadStoreUnit),
        2 := ResourceNode(2, "L0", Memory), 3 := ResourceNode(3, "L1", Memory),
        4 := ResourceNode(4, "L1LU", LoadStoreUnit), 5 := ResourceNode(5, "SFU", Compute)]
  }

  lemma {:induction false} OnlySuccessor(q: seq<NodeId>, i: nat)
    requires IsPath(MemoryPairLinks(), q) && q[0] == 0 && i < |q|
    ensures q[i] == i
  {
    if i > 0 {
      OnlySuccessor(q, i - 1);
      assert Edge(MemoryPairLinks(), q[i - 1], q[i - 1 + 1]);
    }
  }

  lemma MemoryPairRouteIsShortest()
    ensures IsShortest(MemoryPairLinks(), [0, 1, 2, 3, 4, 5], 0, 5)
  {
    var path: seq<NodeId> := [0, 1, 2, 3, 4, 5];
    forall q | PathBetween(MemoryPairLinks(), q, 0, 5) ensures |path| <= |q| {
      OnlySuccessor(q, |q| - 1);
    }
  }

  lemma MemoryPairRouteIsCut(nodes: Nodes, path: seq<NodeId>)
    requires nodes == MemoryPairNodes() && path == [0, 1, 2, 3, 4, 5]
    ensures KnownPath(nodes, path)
    ensures CutHops(nodes, path, 1, 5) == Some([Hop(1, 2, Some("L0"), "L0SU"), Hop(3, 2, Some("L1"), "L1LU")])
  {
    var first, second := Hop(1, 2, Some("L0"), "L0SU"), Hop(3, 2, Some("L1"), "L1LU");
    assert HopAt(nodes, path, 1, 5) == Some(first) && first.End() == 3;
    assert HopAt(nodes, path, 3, 5) == Some(second) && second.End() == 5;
    assert CutHops(nodes, path, 5, 5) == Some([]) && [second] + [] == [second];
    assert CutHops(nodes, path, 3, 5) == Some([second]) && [first] + [second] == [first, second];
  }

  /** There the route is cut, but its first hop is told to write a memory that its unit
      has no datapath to. */
  lemma MemoryDatapathStrandsAHop()
    ensures var path := [0, 1, 2, 3, 4, 5];
            && IsShortest(MemoryPairLinks(), path, 0, 5) && KnownPath(MemoryPairNodes(), path)
            && CutHops(MemoryPairNodes(), path, 1, 5)
               == Some([Hop(1, 2, Some("L0"), "L0SU"), Hop(3, 2, Some("L1"), "L1LU")])
            && !CanStore(MemoryPairLinks(), PlaceAt(MemoryPairNodes(), path, 3), 1)
  {
    MemoryPairRouteIsShortest();
    MemoryPairRouteIsCut(MemoryPairNodes(), [0, 1, 2, 3, 4, 5]);
  }
}
