/** Finite directed graphs as adjacency lists, with paths, reachability and acyclicity.

    Both the routing graph (nodes are hardware resources) and the stage graph of
    a pipeline (nodes are stages, an edge goes from a stage to one it unblocks)
    are read through this module. */
module Digraph {
  type Node = nat
  type Graph = map<Node, seq<Node>>

  predicate Edge(g: Graph, a: Node, b: Node) {
    a in g && b in g[a]
  }

  predicate IsPath(g: Graph, p: seq<Node>) {
    && |p| > 0
    && forall i :: 0 <= i < |p| - 1 ==> Edge(g, p[i], p[i + 1])
  }

  /** p is a path with at least one edge from a to b. */
  predicate Connects(g: Graph, p: seq<Node>, a: Node, b: Node) {
    IsPath(g, p) && |p| >= 2 && p[0] == a && p[|p| - 1] == b
  }

  /** b can be reached from a over one or more edges. */
  ghost predicate Reaches(g: Graph, a: Node, b: Node) {
    exists p :: Connects(g, p, a, b)
  }

  ghost predicate Acyclic(g: Graph) {
    forall a :: !Reaches(g, a, a)
  }

  predicate Distinct<T(==)>(s: seq<T>) {
    forall i, j :: 0 <= i < j < |s| ==> s[i] != s[j]
  }

  function Elems<T>(s: seq<T>): set<T> {
    set x | x in s
  }

  lemma DistinctCardinality<T>(s: seq<T>)
    ensures |Elems(s)| <= |s|
    ensures Distinct(s) <==> |Elems(s)| == |s|
  {
    if s != [] {
      DistinctCardinality(s[1..]);
      assert Elems(s) == {s[0]} + Elems(s[1..]);
      if s[0] in s[1..] {
        var k :| 0 <= k < |s[1..]| && s[1..][k] == s[0];
        assert s[0] == s[k + 1];
        assert Elems(s) == Elems(s[1..]);
      } else {
        assert |Elems(s)| == 1 + |Elems(s[1..])|;
        forall i, j | 0 <= i < j < |s| && Distinct(s[1..]) ensures s[i] != s[j] {
          assert s[j] == s[1..][j - 1];
          if i > 0 { assert s[i] == s[1..][i - 1]; }
        }
        if Distinct(s) {
          forall i, j | 0 <= i < j < |s[1..]| ensures s[1..][i] != s[1..][j] {
            assert s[i + 1] != s[j + 1];
          }
        }
      }
    }
  }

  lemma EdgeReaches(g: Graph, a: Node, b: Node)
    requires Edge(g, a, b)
    ensures Reaches(g, a, b)
  {
    assert Connects(g, [a, b], a, b);
  }

  lemma ReachTrans(g: Graph, a: Node, b: Node, c: Node)
    requires Reaches(g, a, b) && Reaches(g, b, c)
    ensures Reaches(g, a, c)
  {
    var p :| Connects(g, p, a, b);
    var q :| Connects(g, q, b, c);
    var r := p + q[1..];
    forall i | 0 <= i < |r| - 1 ensures Edge(g, r[i], r[i + 1]) {
      if i < |p| - 1 {
        assert r[i] == p[i] && r[i + 1] == p[i + 1];
      } else {
        assert r[i] == q[i - (|p| - 1)] && r[i + 1] == q[i - (|p| - 1) + 1];
      }
    }
    assert Connects(g, r, a, c);
  }

  /** A part of a path with two or more nodes is itself a connection. */
  lemma SubpathReaches(g: Graph, p: seq<Node>, i: nat, j: nat)
    requires IsPath(g, p) && i < j < |p|
    ensures Reaches(g, p[i], p[j])
  {
    var q := p[i..j + 1];
    forall k | 0 <= k < |q| - 1 ensures Edge(g, q[k], q[k + 1]) {
      assert q[k] == p[i + k] && q[k + 1] == p[i + k + 1];
    }
    assert Connects(g, q, p[i], p[j]);
  }

  lemma SuffixConnects(g: Graph, p: seq<Node>, a: Node, b: Node, n: nat)
    requires Connects(g, p, a, b) && n < |p| - 1
    ensures Connects(g, p[n..], p[n], b)
  {
    var q := p[n..];
    forall i | 0 <= i < |q| - 1 ensures Edge(g, q[i], q[i + 1]) {
      assert q[i] == p[n + i] && q[i + 1] == p[n + i + 1];
    }
  }

  /** The last edge of a connection: b is entered from some x that is a or is
      reached from a. */
  lemma LastEdge(g: Graph, a: Node, b: Node) returns (x: Node)
    requires Reaches(g, a, b)
    ensures Edge(g, x, b) && (x == a || Reaches(g, a, x))
  {
    var p :| Connects(g, p, a, b);
    x := p[|p| - 2];
    assert Edge(g, p[|p| - 2], p[|p| - 2 + 1]);
    if |p| > 2 {
      SubpathReaches(g, p, 0, |p| - 2);
    }
  }

  /** The first edge of a connection. */
  lemma FirstEdge(g: Graph, a: Node, b: Node) returns (x: Node)
    requires Reaches(g, a, b)
    ensures Edge(g, a, x) && (x == b || Reaches(g, x, b))
  {
    var p :| Connects(g, p, a, b);
    x := p[1];
    assert Edge(g, p[0], p[0 + 1]);
    if |p| > 2 {
      SubpathReaches(g, p, 1, |p| - 1);
    }
  }

  /** If every edge of g is a connection in h, so is every connection of g. */
  lemma {:induction false} Simulate(g: Graph, h: Graph, p: seq<Node>, a: Node, b: Node)
    requires forall x, y :: Edge(g, x, y) ==> Reaches(h, x, y)
    requires Connects(g, p, a, b)
    ensures Reaches(h, a, b)
    decreases |p|
  {
    assert Edge(g, p[0], p[0 + 1]);
    if |p| > 2 {
      var q := p[1..];
      forall i | 0 <= i < |q| - 1 ensures Edge(g, q[i], q[i + 1]) {
        assert q[i] == p[i + 1] && q[i + 1] == p[i + 1 + 1];
      }
      Simulate(g, h, q, p[1], b);
      ReachTrans(h, a, p[1], b);
    }
  }

  lemma ReachSimulate(g: Graph, h: Graph)
    requires forall x, y :: Edge(g, x, y) ==> Reaches(h, x, y)
    ensures forall a, b :: Reaches(g, a, b) ==> Reaches(h, a, b)
  {
    forall a, b | Reaches(g, a, b) ensures Reaches(h, a, b) {
      var p :| Connects(g, p, a, b);
      Simulate(g, h, p, a, b);
    }
  }

  lemma ReachSubgraph(g: Graph, h: Graph)
    requires forall x, y :: Edge(g, x, y) ==> Edge(h, x, y)
    ensures forall a, b :: Reaches(g, a, b) ==> Reaches(h, a, b)
  {
    forall x, y | Edge(g, x, y) ensures Reaches(h, x, y) {
      EdgeReaches(h, x, y);
    }
    ReachSimulate(g, h);
  }

  ghost predicate HasPredIn(g: Graph, s: set<Node>, v: Node) {
    exists u :: u in s && Edge(g, u, v)
  }

  /** A walk of any length that stays inside a set in which every node has a
      predecessor, built backwards. */
  lemma {:induction false} BackwardWalk(g: Graph, s: set<Node>, n: nat) returns (p: seq<Node>)
    requires s != {} && n > 0
    requires forall v :: v in s ==> HasPredIn(g, s, v)
    ensures |p| == n && IsPath(g, p) && forall x :: x in p ==> x in s
  {
    if n == 1 {
      var v :| v in s;
      p := [v];
    } else {
      var q := BackwardWalk(g, s, n - 1);
      assert q[0] in q && HasPredIn(g, s, q[0]);
      var u :| u in s && Edge(g, u, q[0]);
      p := [u] + q;
      forall i | 0 <= i < |p| - 1 ensures Edge(g, p[i], p[i + 1]) {
        if i > 0 { assert p[i] == q[i - 1] && p[i + 1] == q[i - 1 + 1]; }
      }
    }
  }

  /** A nonempty set in which every node has a predecessor contains a cycle. */
  lemma StuckMeansCycle(g: Graph, s: set<Node>)
    requires s != {}
    requires forall v :: v in s ==> HasPredIn(g, s, v)
    ensures !Acyclic(g)
  {
    var p := BackwardWalk(g, s, |s| + 1);
    if Distinct(p) {
      DistinctCardinality(p);
      assert Elems(p) <= s;
      SubsetCardinality(Elems(p), s);
      assert false;
    }
    var i, j :| 0 <= i < j < |p| && p[i] == p[j];
    SubpathReaches(g, p, i, j);
  }

  lemma SubsetCardinality<T>(a: set<T>, b: set<T>)
    requires a <= b
    ensures |a| <= |b|
    ensures |a| == |b| ==> a == b
  {
    assert b == a + (b - a);
    assert |b| == |a| + |b - a|;
  }
}
