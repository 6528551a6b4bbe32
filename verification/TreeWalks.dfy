/** Walks over an operation tree: from level to level, and back up again. */
module TreeWalks {
  import opened Digraph
  import opened OperationTree
  import opened Sequences

  /** Children come below their parents. */
  predicate IsRanked(f: Forest, rank: map<TreeNode, nat>) {
    && f.kids.Keys <= rank.Keys
    && forall n, c :: n in f.kids && c in f.kids[n] ==> c in rank && rank[c] < rank[n]
  }

  function Reverse<T>(s: seq<T>): (r: seq<T>)
    ensures |r| == |s|
  {
    if s == [] then [] else Reverse(s[1..]) + [s[0]]
  }

  lemma {:induction false} ReverseConcat<T>(a: seq<T>, b: seq<T>)
    ensures Reverse(a + b) == Reverse(b) + Reverse(a)
  {
    if a == [] {
      assert a + b == b && Reverse(b) + [] == Reverse(b);
    } else {
      assert (a + b)[1..] == a[1..] + b;
      ReverseConcat(a[1..], b);
    }
  }

  /** The children of the nodes of a level, one node's after the other's; each node's children
      from right to left if rev. */
  function KidsOf(f: Forest, level: seq<TreeNode>, rev: bool): seq<TreeNode>
    requires forall n :: n in level ==> n in f.kids
  {
    if level == [] then []
    else (if rev then Reverse(f.kids[level[0]]) else f.kids[level[0]]) + KidsOf(f, level[1..], rev)
  }

  lemma {:induction false} KidsConcat(f: Forest, a: seq<TreeNode>, b: seq<TreeNode>, rev: bool)
    requires forall n :: n in a + b ==> n in f.kids
    ensures (forall n :: n in a ==> n in f.kids) && (forall n :: n in b ==> n in f.kids)
    ensures KidsOf(f, a + b, rev) == KidsOf(f, a, rev) + KidsOf(f, b, rev)
  {
    assert forall n :: n in a || n in b ==> n in a + b;
    if a == [] {
      assert a + b == b;
    } else {
      assert (a + b)[1..] == a[1..] + b && forall n :: n in a[1..] + b ==> n in a + b;
      KidsConcat(f, a[1..], b, rev);
    }
  }

  predicate AllBelowRank(level: seq<TreeNode>, f: Forest, rank: map<TreeNode, nat>, d: nat) {
    forall n :: n in level ==> n in f.kids && n in rank && rank[n] < d
  }

  lemma {:induction false} InReverse<T>(s: seq<T>, x: T)
    ensures x in Reverse(s) <==> x in s
  {
    if s != [] {
      InReverse(s[1..], x);
      assert s == [s[0]] + s[1..];
    }
  }

  lemma {:induction false} KidsAreBelow(f: Forest, rank: map<TreeNode, nat>, level: seq<TreeNode>, d: nat, rev: bool)
    requires IsForest(f) && IsRanked(f, rank) && d > 0 && AllBelowRank(level, f, rank, d)
    ensures AllBelowRank(KidsOf(f, level, rev), f, rank, d - 1)
  {
    if level != [] {
      KidsAreBelow(f, rank, level[1..], d, rev);
      var n := level[0];
      assert n in level && IsListed(f, n);
      forall c | c in KidsOf(f, level, rev) ensures c in f.kids && c in rank && rank[c] < d - 1 {
        InReverse(f.kids[n], c);
        assert c in f.kids[n] || c in KidsOf(f, level[1..], rev);
      }
    }
  }

  /** The levels from the given one down, d of them at most. */
  function Levels(f: Forest, rank: map<TreeNode, nat>, level: seq<TreeNode>, d: nat, rev: bool): seq<seq<TreeNode>>
    requires IsForest(f) && IsRanked(f, rank) && AllBelowRank(level, f, rank, d)
    decreases d
  {
    if level == [] then []
    else
      assert level[0] in level;
      KidsAreBelow(f, rank, level, d, rev);
      [level] + Levels(f, rank, KidsOf(f, level, rev), d - 1, rev)
  }

  function Mirrored(s: seq<seq<TreeNode>>): (r: seq<seq<TreeNode>>)
    ensures |r| == |s|
  {
    if s == [] then [] else [Reverse(s[0])] + Mirrored(s[1..])
  }

  lemma {:induction false} ReverseTwice<T>(s: seq<T>)
    ensures Reverse(Reverse(s)) == s
  {
    if s != [] {
      ReverseTwice(s[1..]);
      ReverseConcat(Reverse(s[1..]), [s[0]]);
      assert Reverse([s[0]]) == [s[0]];
    }
  }

  /** The children of a level read from right to left, each node's from right to left too, are
      the next level read from right to left. */
  lemma {:induction false} MirroredKids(f: Forest, level: seq<TreeNode>)
    requires forall n :: n in level ==> n in f.kids
    ensures forall n :: n in Reverse(level) ==> n in f.kids
    ensures KidsOf(f, Reverse(level), true) == Reverse(KidsOf(f, level, false))
  {
    forall n | n in Reverse(level) ensures n in f.kids {
      InReverse(level, n);
    }
    if level != [] {
      MirroredKids(f, level[1..]);
      assert forall n :: n in Reverse(level[1..]) + [level[0]] ==> n in Reverse(level);
      KidsConcat(f, Reverse(level[1..]), [level[0]], true);
      ReverseConcat(f.kids[level[0]], KidsOf(f, level[1..], false));
      assert KidsOf(f, [level[0]], true) == Reverse(f.kids[level[0]]) + [];
    }
  }

  lemma {:induction false} MirroredLevels(f: Forest, rank: map<TreeNode, nat>, level: seq<TreeNode>, d: nat)
    requires IsForest(f) && IsRanked(f, rank) && AllBelowRank(level, f, rank, d)
    ensures AllBelowRank(Reverse(level), f, rank, d)
    ensures Levels(f, rank, Reverse(level), d, true) == Mirrored(Levels(f, rank, level, d, false))
    decreases d
  {
    forall n | n in Reverse(level) ensures n in f.kids && n in rank && rank[n] < d {
      InReverse(level, n);
    }
    if level != [] {
      assert level[0] in level;
      KidsAreBelow(f, rank, level, d, false);
      KidsAreBelow(f, rank, Reverse(level), d, true);
      MirroredKids(f, level);
      MirroredLevels(f, rank, KidsOf(f, level, false), d - 1);
      var ls := Levels(f, rank, level, d, false);
      assert ls[0] == level && ls[1..] == Levels(f, rank, KidsOf(f, level, false), d - 1, false);
    }
  }

  /** Reading mirrored levels from the end is reading the levels bottom up, each from left to right. */
  lemma {:induction false} ReverseMirrored(s: seq<seq<TreeNode>>)
    ensures Reverse(Flatten(Mirrored(s))) == Flatten(Reverse(s))
  {
    if s != [] {
      ReverseMirrored(s[1..]);
      var m := Mirrored(s);
      assert m[0] == Reverse(s[0]) && m[1..] == Mirrored(s[1..]);
      ReverseConcat(m[0], Flatten(m[1..]));
      ReverseTwice(s[0]);
      FlattenConcat(Reverse(s[1..]), [s[0]]);
      assert Flatten([s[0]]) == s[0] + [];
    }
  }

  // ----- The walks

  /** Goes through a node's children and appends them to a list. */
  method AppendChildren(n: TreeNode, queue: seq<TreeNode>, ghost f: Forest) returns (r: seq<TreeNode>)
    requires n.IsIn(f)
    ensures r == queue + f.kids[n]
  {
    ghost var s := f.kids[n];
    n.Follow(f, 0);
    hide Linked;
    var child := n.firstChild;
    ghost var i: nat := 0;
    r := queue;
    while child != null
      invariant i <= |s| && child == (if i < |s| then s[i] else null) && r == queue + s[..i]
      decreases |s| - i
    {
      n.Follow(f, i);
      r := r + [child];
      i := i + 1;
      child := child.nextSibling;
    }
  }

  /** In the middle of a level: i of its nodes are visited, and the queue holds the others and
      what the visited ones have put behind them. */
  predicate InLevel(f: Forest, rank: map<TreeNode, nat>, rev: bool, d: nat, level: seq<TreeNode>, i: nat,
                    queue: seq<TreeNode>, visited: seq<TreeNode>, all: seq<TreeNode>)
    requires IsForest(f) && IsRanked(f, rank)
  {
    && d > 0 && i <= |level| && AllBelowRank(level, f, rank, d) && AllBelowRank(KidsOf(f, level, rev), f, rank, d - 1)
    && queue == level[i..] + KidsOf(f, level[..i], rev)
    && all == visited + level[i..] + Flatten(Levels(f, rank, KidsOf(f, level, rev), d - 1, rev))
  }

  lemma StartsLevel(f: Forest, rank: map<TreeNode, nat>, rev: bool, d: nat, level: seq<TreeNode>,
                    visited: seq<TreeNode>, all: seq<TreeNode>)
    requires IsForest(f) && IsRanked(f, rank) && AllBelowRank(level, f, rank, d) && level != []
    requires all == visited + Flatten(Levels(f, rank, level, d, rev))
    ensures InLevel(f, rank, rev, d, level, 0, level, visited, all)
  {
    assert level[0] in level;
    KidsAreBelow(f, rank, level, d, rev);
    assert level[..0] == [] && level[0..] == level && level + [] == level;
    var ls := Levels(f, rank, level, d, rev);
    assert ls[0] == level && ls[1..] == Levels(f, rank, KidsOf(f, level, rev), d - 1, rev);
  }

  lemma NextLevel(f: Forest, rank: map<TreeNode, nat>, rev: bool, d: nat, level: seq<TreeNode>,
                  queue: seq<TreeNode>, visited: seq<TreeNode>, all: seq<TreeNode>)
    requires IsForest(f) && IsRanked(f, rank) && InLevel(f, rank, rev, d, level, |level|, queue, visited, all)
             && queue != []
    ensures InLevel(f, rank, rev, d - 1, queue, 0, queue, visited, all)
  {
    assert level[..|level|] == level && level[|level|..] == [];
    assert queue == KidsOf(f, level, rev);
    assert visited + level[|level|..] == visited;
    StartsLevel(f, rank, rev, d - 1, queue, visited, all);
  }

  lemma StepInLevel(f: Forest, rank: map<TreeNode, nat>, rev: bool, d: nat, level: seq<TreeNode>, i: nat,
                    queue: seq<TreeNode>, visited: seq<TreeNode>, all: seq<TreeNode>)
    requires IsForest(f) && IsRanked(f, rank) && InLevel(f, rank, rev, d, level, i, queue, visited, all) && i < |level|
    ensures queue != [] && queue[0] == level[i] && level[i] in f.kids && |visited| < |all|
    ensures var kids := if rev then Reverse(f.kids[level[i]]) else f.kids[level[i]];
            InLevel(f, rank, rev, d, level, i + 1, queue[1..] + kids, visited + [level[i]], all)
  {
    hide Levels, Flatten, IsForest, IsRanked;
    var node := level[i];
    assert level[..i + 1] == level[..i] + [node] && level[i..] == [node] + level[i + 1..];
    assert node in level;
    hide AllBelowRank, Reverse;
    KidsConcat(f, level[..i], [node], rev);
    var kids := if rev then Reverse(f.kids[node]) else f.kids[node];
    assert KidsOf(f, [node], rev) == kids + [] == kids;
    QueueStep(node, level[i + 1..], KidsOf(f, level[..i], rev), kids);
    assert visited + level[i..] == (visited + [node]) + level[i + 1..];
  }

  lemma QueueStep(node: TreeNode, rest: seq<TreeNode>, behind: seq<TreeNode>, kids: seq<TreeNode>)
    ensures (([node] + rest) + behind)[1..] + kids == rest + (behind + kids)
  {
  }

  /** The next node in the queue is the next one of the level, or starts the next level. */
  lemma Advance(f: Forest, rank: map<TreeNode, nat>, rev: bool, d: nat, level: seq<TreeNode>, i: nat,
                queue: seq<TreeNode>, visited: seq<TreeNode>, all: seq<TreeNode>)
    returns (d': nat, level': seq<TreeNode>, i': nat)
    requires IsForest(f) && IsRanked(f, rank) && i <= |level|
             && InLevel(f, rank, rev, d, level, i, queue, visited, all) && queue != []
    ensures queue[0] in f.kids && |visited| < |all| && i' <= |level'|
    ensures var kids := if rev then Reverse(f.kids[queue[0]]) else f.kids[queue[0]];
            InLevel(f, rank, rev, d', level', i', queue[1..] + kids, visited + [queue[0]], all)
  {
    hide InLevel, IsForest, IsRanked;
    d', level', i' := d, level, i;
    if i == |level| {
      NextLevel(f, rank, rev, d, level, queue, visited, all);
      d', level', i' := d - 1, queue, 0;
    }
    StepInLevel(f, rank, rev, d', level', i', queue, visited, all);
    i' := i' + 1;
  }

  lemma StartsWalk(f: Forest, rank: map<TreeNode, nat>, rev: bool, n: TreeNode) returns (all: seq<TreeNode>)
    requires IsForest(f) && IsRanked(f, rank) && n in f.kids
    ensures n in rank && AllBelowRank([n], f, rank, rank[n] + 1)
            && all == Flatten(Levels(f, rank, [n], rank[n] + 1, rev))
    ensures InLevel(f, rank, rev, rank[n] + 1, [n], 0, [n], [], all)
  {
    assert AllBelowRank([n], f, rank, rank[n] + 1);
    all := Flatten(Levels(f, rank, [n], rank[n] + 1, rev));
    StartsLevel(f, rank, rev, rank[n] + 1, [n], [], all);
  }

  /** Visits the nodes below n level by level; with rev each node's children right to left. */
  method VisitLevels(n: TreeNode, rev: bool, ghost f: Forest, ghost rank: map<TreeNode, nat>)
    returns (visited: seq<TreeNode>)
    requires n.IsIn(f) && IsRanked(f, rank) && IsForest(f) && n in f.kids && n in rank
    ensures AllBelowRank([n], f, rank, rank[n] + 1)
    ensures visited == Flatten(Levels(f, rank, [n], rank[n] + 1, rev))
  {
    var queue := [n];
    visited := [];
    hide *;
    ghost var level, i: nat, d := [n], 0, rank[n] + 1;
    ghost var all := StartsWalk(f, rank, rev, n);
    while queue != []
      invariant n.IsIn(f) && i <= |level| && InLevel(f, rank, rev, d, level, i, queue, visited, all)
      decreases |all| - |visited|
    {
      d, level, i := Advance(f, rank, rev, d, level, i, queue, visited, all);
      var node := queue[0];
      visited := visited + [node];
      InTree(n, node, f);
      var kids := AppendChildren(node, [], f);
      assert kids == f.kids[node];
      queue := queue[1..] + if rev then Reverse(kids) else kids;
    }
    EndsLevel(f, rank, rev, d, level, i, visited, all);
  }

  lemma EndsLevel(f: Forest, rank: map<TreeNode, nat>, rev: bool, d: nat, level: seq<TreeNode>, i: nat,
                  visited: seq<TreeNode>, all: seq<TreeNode>)
    requires IsForest(f) && IsRanked(f, rank) && InLevel(f, rank, rev, d, level, i, [], visited, all)
    ensures visited == all
  {
    assert level[i..] == [] && level[..i] == level;
    assert KidsOf(f, level, rev) == [];
    assert Flatten(Levels(f, rank, KidsOf(f, level, rev), d - 1, rev)) == [];
  }

  /** Breadth first: the levels from the top. */
  method BreadthFirstWalk(n: TreeNode, ghost f: Forest, ghost rank: map<TreeNode, nat>) returns (visited: seq<TreeNode>)
    requires n.IsIn(f) && IsRanked(f, rank) && IsForest(f) && n in f.kids && n in rank
    ensures AllBelowRank([n], f, rank, rank[n] + 1)
    ensures visited == Flatten(Levels(f, rank, [n], rank[n] + 1, false))
  {
    visited := VisitLevels(n, false, f, rank);
  }

  /** The levels from the bottom: each from right to left, or in order if that is to be kept. */
  method ReverseBreadthFirstWalk(n: TreeNode, keepOrder: bool, ghost f: Forest, ghost rank: map<TreeNode, nat>)
    returns (visited: seq<TreeNode>)
    requires n.IsIn(f) && IsRanked(f, rank) && IsForest(f) && n in f.kids && n in rank
    ensures AllBelowRank([n], f, rank, rank[n] + 1)
    ensures !keepOrder ==> visited == Reverse(Flatten(Levels(f, rank, [n], rank[n] + 1, false)))
    ensures keepOrder ==> visited == Flatten(Reverse(Levels(f, rank, [n], rank[n] + 1, false)))
  {
    var stack := VisitLevels(n, keepOrder, f, rank);
    BottomUp(f, rank, n, keepOrder);
    hide *;
    visited := Unstack(stack);
  }

  method Unstack(s: seq<TreeNode>) returns (visited: seq<TreeNode>)
    ensures visited == Reverse(s)
  {
    var stack := s;
    visited := [];
    while stack != []
      invariant Reverse(s) == visited + Reverse(stack)
    {
      var top := stack[|stack| - 1];
      ReverseConcat(stack[..|stack| - 1], [top]);
      assert stack == stack[..|stack| - 1] + [top] && Reverse([top]) == [top];
      visited := visited + [top];
      stack := stack[..|stack| - 1];
    }
  }

  lemma BottomUp(f: Forest, rank: map<TreeNode, nat>, n: TreeNode, keepOrder: bool)
    requires IsForest(f) && IsRanked(f, rank) && n in f.kids
    ensures AllBelowRank([n], f, rank, rank[n] + 1)
    ensures keepOrder ==>
              Reverse(Flatten(Levels(f, rank, [n], rank[n] + 1, true)))
                  == Flatten(Reverse(Levels(f, rank, [n], rank[n] + 1, false)))
  {
    assert AllBelowRank([n], f, rank, rank[n] + 1);
    MirroredLevels(f, rank, [n], rank[n] + 1);
    assert Reverse([n]) == [n];
    ReverseMirrored(Levels(f, rank, [n], rank[n] + 1, false));
  }

  lemma InTree(n: TreeNode, m: TreeNode, f: Forest)
    requires n.IsIn(f) && m in f.kids
    ensures m.IsIn(f)
  {
  }

  // ----- Trees

  /** A forest with one root, which everything is below. */
  predicate IsTree(f: Forest, rank: map<TreeNode, nat>, root: TreeNode) {
    && IsForest(f) && IsRanked(f, rank) && root in f.kids && f.up[root] == null
    && forall n :: n in f.kids ==> rank[n] <= rank[root] && (n != root ==> f.up[n] != null)
  }

  /** What holds of the root and of the children of every node it holds of, holds of all. */
  lemma {:induction false} AllFromRoot(f: Forest, rank: map<TreeNode, nat>, root: TreeNode, seen: set<TreeNode>,
                                       n: TreeNode)
    requires IsTree(f, rank, root) && n in f.kids
    requires root in seen && forall p, c :: p in f.kids && p in seen && c in f.kids[p] ==> c in seen
    ensures n in seen
    decreases rank[root] - rank[n]
  {
    if n != root {
      assert IsPlaced(f, n);
      AllFromRoot(f, rank, root, seen, f.up[n]);
    }
  }

  lemma {:induction false} LevelsAreClosed(f: Forest, rank: map<TreeNode, nat>, level: seq<TreeNode>, d: nat,
                                           p: TreeNode, c: TreeNode)
    requires IsForest(f) && IsRanked(f, rank) && AllBelowRank(level, f, rank, d)
    requires p in f.kids && p in Flatten(Levels(f, rank, level, d, false)) && c in f.kids[p]
    ensures c in Flatten(Levels(f, rank, level, d, false))
    decreases d
  {
    assert level != [] && level[0] in level;
    KidsAreBelow(f, rank, level, d, false);
    var kids := KidsOf(f, level, false);
    var ls := Levels(f, rank, level, d, false);
    assert ls[0] == level && ls[1..] == Levels(f, rank, kids, d - 1, false);
    if p in level {
      KidIsKid(f, level, p, c);
      assert kids != [] && kids[0] in kids;
      var below := Levels(f, rank, kids, d - 1, false);
      assert below[0] == kids && c in Flatten(below);
    } else {
      LevelsAreClosed(f, rank, kids, d - 1, p, c);
    }
  }

  lemma {:induction false} KidIsKid(f: Forest, level: seq<TreeNode>, p: TreeNode, c: TreeNode)
    requires (forall n :: n in level ==> n in f.kids) && p in level && c in f.kids[p]
    ensures c in KidsOf(f, level, false)
  {
    if p != level[0] {
      KidIsKid(f, level[1..], p, c);
    }
  }

  /** A walk by levels from the root visits every node. */
  lemma LevelsHaveAll(f: Forest, rank: map<TreeNode, nat>, root: TreeNode, n: TreeNode)
    requires IsTree(f, rank, root) && n in f.kids
    ensures AllBelowRank([root], f, rank, rank[root] + 1)
    ensures n in Flatten(Levels(f, rank, [root], rank[root] + 1, false))
  {
    var d := rank[root] + 1;
    assert AllBelowRank([root], f, rank, d);
    var ls := Levels(f, rank, [root], d, false);
    var seen := Elems(Flatten(ls));
    assert ls[0] == [root];
    forall p, c | p in f.kids && p in seen && c in f.kids[p] ensures c in seen {
      LevelsAreClosed(f, rank, [root], d, p, c);
    }
    AllFromRoot(f, rank, root, seen, n);
  }

  // ----- Pre-order

  function PreOrder(f: Forest, rank: map<TreeNode, nat>, n: TreeNode): seq<TreeNode>
    requires IsForest(f) && IsRanked(f, rank) && n in f.kids
    decreases rank[n], 1, 0
  {
    [n] + PreOrderOf(f, rank, n, 0)
  }

  /** The children of n from number i on, each followed by what is below it. */
  function PreOrderOf(f: Forest, rank: map<TreeNode, nat>, n: TreeNode, i: nat): seq<TreeNode>
    requires IsForest(f) && IsRanked(f, rank) && n in f.kids && i <= |f.kids[n]|
    decreases rank[n], 0, |f.kids[n]| - i
  {
    if i == |f.kids[n]| then []
    else
      assert IsListed(f, n) && f.kids[n][i] in f.kids[n];
      PreOrder(f, rank, f.kids[n][i]) + PreOrderOf(f, rank, n, i + 1)
  }

  lemma {:induction false} PreOrderIsClosed(f: Forest, rank: map<TreeNode, nat>, n: TreeNode, p: TreeNode, c: TreeNode)
    requires IsForest(f) && IsRanked(f, rank) && n in f.kids && p in f.kids && p in PreOrder(f, rank, n)
             && c in f.kids[p]
    ensures c in PreOrder(f, rank, n)
    decreases rank[n], 1, 0
  {
    if p == n {
      ChildInPreOrder(f, rank, n, 0, IndexOf(f.kids[n], c));
    } else {
      PreOrderOfIsClosed(f, rank, n, 0, p, c);
    }
  }

  lemma {:induction false} PreOrderOfIsClosed(f: Forest, rank: map<TreeNode, nat>, n: TreeNode, i: nat, p: TreeNode,
                                              c: TreeNode)
    requires IsForest(f) && IsRanked(f, rank) && n in f.kids && p in f.kids && i <= |f.kids[n]|
    requires p in PreOrderOf(f, rank, n, i) && c in f.kids[p]
    ensures c in PreOrderOf(f, rank, n, i)
    decreases rank[n], 0, |f.kids[n]| - i
  {
    assert IsListed(f, n) && f.kids[n][i] in f.kids[n];
    if p in PreOrder(f, rank, f.kids[n][i]) {
      PreOrderIsClosed(f, rank, f.kids[n][i], p, c);
    } else {
      PreOrderOfIsClosed(f, rank, n, i + 1, p, c);
    }
  }

  lemma {:induction false} ChildInPreOrder(f: Forest, rank: map<TreeNode, nat>, n: TreeNode, i: nat, k: nat)
    requires IsForest(f) && IsRanked(f, rank) && n in f.kids && i <= k < |f.kids[n]|
    ensures f.kids[n][k] in PreOrderOf(f, rank, n, i)
    decreases k - i
  {
    assert IsListed(f, n) && f.kids[n][i] in f.kids[n];
    if i < k {
      ChildInPreOrder(f, rank, n, i + 1, k);
    }
  }

  /** A pre-order walk from the root visits every node. */
  lemma PreOrderHasAll(f: Forest, rank: map<TreeNode, nat>, root: TreeNode, n: TreeNode)
    requires IsTree(f, rank, root) && n in f.kids
    ensures n in PreOrder(f, rank, root)
  {
    var seen := Elems(PreOrder(f, rank, root));
    forall p, c | p in f.kids && p in seen && c in f.kids[p] ensures c in seen {
      PreOrderIsClosed(f, rank, root, p, c);
    }
    AllFromRoot(f, rank, root, seen, n);
  }

  lemma {:induction false} PreOrderInForest(f: Forest, rank: map<TreeNode, nat>, n: TreeNode)
    requires IsForest(f) && IsRanked(f, rank) && n in f.kids
    ensures forall x :: x in PreOrder(f, rank, n) ==> x in f.kids
    decreases rank[n], 1, 0
  {
    PreOrderOfInForest(f, rank, n, 0);
  }

  lemma {:induction false} PreOrderOfInForest(f: Forest, rank: map<TreeNode, nat>, n: TreeNode, i: nat)
    requires IsForest(f) && IsRanked(f, rank) && n in f.kids && i <= |f.kids[n]|
    ensures forall x :: x in PreOrderOf(f, rank, n, i) ==> x in f.kids
    decreases rank[n], 0, |f.kids[n]| - i
  {
    if i < |f.kids[n]| {
      assert IsListed(f, n) && f.kids[n][i] in f.kids[n];
      PreOrderInForest(f, rank, f.kids[n][i]);
      PreOrderOfInForest(f, rank, n, i + 1);
    }
  }

  method PreOrderWalk(n: TreeNode, ghost f: Forest, ghost rank: map<TreeNode, nat>) returns (visited: seq<TreeNode>)
    requires n.IsIn(f) && IsForest(f) && IsRanked(f, rank)
    ensures visited == PreOrder(f, rank, n)
    decreases rank[n]
  {
    ghost var s := f.kids[n];
    assert IsListed(f, n);
    n.Follow(f, 0);
    hide Linked, IsForest;
    visited := [n];
    var child := n.firstChild;
    ghost var i: nat := 0;
    while child != null
      invariant i <= |s| && child == (if i < |s| then s[i] else null)
      invariant visited + PreOrderOf(f, rank, n, i) == PreOrder(f, rank, n)
      decreases |s| - i
    {
      n.Follow(f, i);
      assert s[i] in s;
      var below := PreOrderWalk(child, f, rank);
      assert visited + (below + PreOrderOf(f, rank, n, i + 1)) == (visited + below) + PreOrderOf(f, rank, n, i + 1);
      visited := visited + below;
      i := i + 1;
      child := child.nextSibling;
    }
  }
}
