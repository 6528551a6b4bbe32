/** In which order the walks visit the nodes, told node by node: parents and children, and children
    of different nodes. */
module WalkOrder {
  import opened BlockMotion
  import opened Digraph
  import opened OperationTree
  import opened TreeWalks
  import opened Sequences

  // ----- Level by level

  /** Element k of a list is the last but k of the reversed one. */
  lemma {:induction false} ReverseAt<T>(s: seq<T>, k: nat)
    requires k < |s|
    ensures Reverse(s)[|s| - 1 - k] == s[k]
  {
    if k > 0 {
      ReverseAt(s[1..], k - 1);
    }
  }

  /** The first level is the given one, and each further one has the children of the one above. */
  lemma {:induction false} LevelBelow(f: Forest, rank: map<TreeNode, nat>, level: seq<TreeNode>, d: nat, rev: bool,
                                      k: nat)
    requires IsForest(f) && IsRanked(f, rank) && AllBelowRank(level, f, rank, d)
    requires k < |Levels(f, rank, level, d, rev)|
    ensures var ls := Levels(f, rank, level, d, rev);
            && (forall n :: n in ls[k] ==> n in f.kids) && ls[0] == level
            && (k + 1 < |ls| ==> ls[k + 1] == KidsOf(f, ls[k], rev))
            && (k + 1 == |ls| ==> KidsOf(f, ls[k], rev) == [])
    decreases d
  {
    assert level[0] in level;
    KidsAreBelow(f, rank, level, d, rev);
    var ls, rest := Levels(f, rank, level, d, rev), Levels(f, rank, KidsOf(f, level, rev), d - 1, rev);
    assert ls == [level] + rest;
    if k > 0 {
      LevelBelow(f, rank, KidsOf(f, level, rev), d - 1, rev, k - 1);
    } else if KidsOf(f, level, rev) != [] {
      LevelBelow(f, rank, KidsOf(f, level, rev), d - 1, rev, 0);
    }
  }

  /** A node is behind the first ones and all children of the nodes in front of it, or among them. */
  predicate AwaitsTurn(f: Forest, t: seq<TreeNode>, first: nat, i: nat)
    requires i < |t| && forall n :: n in t ==> n in f.kids
  {
    i < first + |KidsOf(f, t[..i], false)|
  }

  /** What is visited: the first level, and then the children of all that is visited. */
  lemma {:induction false} WalkIsQueue(f: Forest, rank: map<TreeNode, nat>, level: seq<TreeNode>, d: nat)
    requires IsForest(f) && IsRanked(f, rank) && AllBelowRank(level, f, rank, d)
    ensures var t := Flatten(Levels(f, rank, level, d, false));
            && AllBelowRank(t, f, rank, d)
            && t == level + KidsOf(f, t, false)
            && (forall n :: n in KidsOf(f, t, false) ==> n in rank && rank[n] + 1 < d)
            && forall i :: 0 <= i < |t| ==> AwaitsTurn(f, t, |level|, i)
    decreases d
  {
    if level != [] {
      assert level[0] in level;
      KidsAreBelow(f, rank, level, d, false);
      var kids := KidsOf(f, level, false);
      WalkIsQueue(f, rank, kids, d - 1);
      var rest := Flatten(Levels(f, rank, kids, d - 1, false));
      var ls := Levels(f, rank, level, d, false);
      assert ls[0] == level && ls[1..] == Levels(f, rank, kids, d - 1, false);
      assert Flatten(ls) == level + rest;
      hide *;
      LevelThenRest(f, level, rest);
      RanksOf(f, rank, level, rest, d);
    }
  }

  lemma LevelThenRest(f: Forest, level: seq<TreeNode>, rest: seq<TreeNode>)
    requires (forall n :: n in level ==> n in f.kids) && (forall n :: n in rest ==> n in f.kids)
    requires rest == KidsOf(f, level, false) + KidsOf(f, rest, false)
    requires forall i :: 0 <= i < |rest| ==> AwaitsTurn(f, rest, |KidsOf(f, level, false)|, i)
    ensures var t := level + rest;
            && (forall n :: n in t ==> n in f.kids) && t == level + KidsOf(f, t, false)
            && rest == KidsOf(f, t, false)
            && forall i :: 0 <= i < |t| ==> AwaitsTurn(f, t, |level|, i)
  {
    var kids, t := KidsOf(f, level, false), level + rest;
    assert forall n :: n in t ==> n in level || n in rest;
    hide KidsOf;
    KidsConcat(f, level, rest, false);
    forall i | 0 <= i < |t| ensures AwaitsTurn(f, t, |level|, i) {
      if i >= |level| {
        var k := i - |level|;
        assert AwaitsTurn(f, rest, |kids|, k) && t[..i] == level + rest[..k];
        KidsConcat(f, level, rest[..k], false);
      }
    }
  }

  lemma RanksOf(f: Forest, rank: map<TreeNode, nat>, level: seq<TreeNode>, rest: seq<TreeNode>, d: nat)
    requires d > 0 && AllBelowRank(level, f, rank, d) && AllBelowRank(rest, f, rank, d - 1)
    requires (forall n :: n in level + rest ==> n in f.kids) && rest == KidsOf(f, level + rest, false)
    ensures AllBelowRank(level + rest, f, rank, d)
    ensures forall n :: n in KidsOf(f, level + rest, false) ==> n in rank && rank[n] + 1 < d
  {
    hide KidsOf;
  }

  /** Where child a of node i of a list is among the children of all its nodes. */
  function KidPlace(f: Forest, t: seq<TreeNode>, i: nat, a: nat): nat
    requires i < |t| && forall n :: n in t ==> n in f.kids
  {
    |KidsOf(f, t[..i], false)| + a
  }

  lemma KidAtPlace(f: Forest, t: seq<TreeNode>, i: nat, a: nat)
    requires i < |t| && (forall n :: n in t ==> n in f.kids) && a < |f.kids[t[i]]|
    ensures KidPlace(f, t, i, a) < |KidsOf(f, t, false)|
    ensures KidsOf(f, t, false)[KidPlace(f, t, i, a)] == f.kids[t[i]][a]
  {
    var x, y := t[..i], t[i..];
    assert t == x + y && y[0] == t[i];
    KidsConcat(f, x, y, false);
  }

  /** Children of an earlier node come before those of a later one. */
  lemma KidPlaceGrows(f: Forest, t: seq<TreeNode>, i: nat, a: nat, j: nat)
    requires i < j < |t| && (forall n :: n in t ==> n in f.kids) && a < |f.kids[t[i]]|
    ensures KidPlace(f, t, i, a) < KidPlace(f, t, j, 0)
  {
    var x, y := t[..i], t[i..j];
    assert t[..j] == x + y && y[0] == t[i];
    KidsConcat(f, x, y, false);
  }

  /** Every place among the children is that of some child. */
  lemma {:induction false} PlaceOfKid(f: Forest, t: seq<TreeNode>, k: nat) returns (i: nat, a: nat)
    requires (forall n :: n in t ==> n in f.kids) && k < |KidsOf(f, t, false)|
    ensures i < |t| && a < |f.kids[t[i]]| && KidPlace(f, t, i, a) == k
    decreases |t|
  {
    var n := |t| - 1;
    assert t == t[..n] + [t[n]];
    KidsConcat(f, t[..n], [t[n]], false);
    assert KidsOf(f, [t[n]], false) == f.kids[t[n]] + [] == f.kids[t[n]];
    if k < |KidsOf(f, t[..n], false)| {
      i, a := PlaceOfKid(f, t[..n], k);
      assert t[..n][..i] == t[..i];
    } else {
      i, a := n, k - |KidsOf(f, t[..n], false)|;
    }
  }

  /** The walk that starts at n. */
  function Walk(f: Forest, rank: map<TreeNode, nat>, n: TreeNode): (t: seq<TreeNode>)
    requires IsForest(f) && IsRanked(f, rank) && n in f.kids
  {
    assert AllBelowRank([n], f, rank, rank[n] + 1);
    Flatten(Levels(f, rank, [n], rank[n] + 1, false))
  }

  lemma WalkStarts(f: Forest, rank: map<TreeNode, nat>, n: TreeNode)
    requires IsForest(f) && IsRanked(f, rank) && n in f.kids
    ensures var t := Walk(f, rank, n);
            && (forall x :: x in t ==> x in f.kids && x in rank) && t == [n] + KidsOf(f, t, false)
            && (forall x :: x in KidsOf(f, t, false) ==> x in rank && rank[x] < rank[n])
            && forall i :: 0 <= i < |t| ==> AwaitsTurn(f, t, 1, i)
  {
    assert AllBelowRank([n], f, rank, rank[n] + 1);
    WalkIsQueue(f, rank, [n], rank[n] + 1);
  }

  lemma WalkKid(f: Forest, rank: map<TreeNode, nat>, n: TreeNode, i: nat, a: nat) returns (x: nat)
    requires IsForest(f) && IsRanked(f, rank) && n in f.kids && i < |Walk(f, rank, n)|
    requires Walk(f, rank, n)[i] in f.kids && a < |f.kids[Walk(f, rank, n)[i]]|
    ensures var t := Walk(f, rank, n);
            && (forall m :: m in t ==> m in f.kids)
            && x == 1 + KidPlace(f, t, i, a) && i < x < |t| && t[x] == f.kids[t[i]][a]
  {
    WalkStarts(f, rank, n);
    hide Walk;
    var t := Walk(f, rank, n);
    KidAtPlace(f, t, i, a);
    assert AwaitsTurn(f, t, 1, i);
    x := 1 + KidPlace(f, t, i, a);
  }

  /** Every node but the first is a child of one that comes before it. */
  lemma ParentInFront(f: Forest, t: seq<TreeNode>, x: nat) returns (i: nat, a: nat)
    requires IsForest(f) && (forall n :: n in t ==> n in f.kids) && 0 < x < |t|
    requires t == [t[0]] + KidsOf(f, t, false) && forall k :: 0 <= k < |t| ==> AwaitsTurn(f, t, 1, k)
    ensures i < x && a < |f.kids[t[i]]| && t[x] == f.kids[t[i]][a] && x == 1 + KidPlace(f, t, i, a)
    ensures t[x] in f.up && f.up[t[x]] == t[i]
  {
    hide KidsOf;
    assert t[x] == KidsOf(f, t, false)[x - 1];
    i, a := PlaceOfKid(f, t, x - 1);
    KidAtPlace(f, t, i, a);
    assert AwaitsTurn(f, t, 1, i) && IsListed(f, t[i]);
    assert f.kids[t[i]][a] in f.kids[t[i]];
  }

  lemma {:induction false} OnlyOnce(f: Forest, t: seq<TreeNode>, x: nat, y: nat)
    requires IsForest(f) && (forall n :: n in t ==> n in f.kids) && x < y < |t| && t[0] !in KidsOf(f, t, false)
    requires t == [t[0]] + KidsOf(f, t, false) && forall k :: 0 <= k < |t| ==> AwaitsTurn(f, t, 1, k)
    ensures t[x] != t[y]
    decreases y
  {
    hide KidsOf;
    var kids := KidsOf(f, t, false);
    assert t[y] == kids[y - 1] && kids[y - 1] in kids;
    if x > 0 && t[x] == t[y] {
      var i, a := ParentInFront(f, t, x);
      var j, b := ParentInFront(f, t, y);
      assert IsListed(f, t[i]);
      if i < j {
        OnlyOnce(f, t, i, j);
      } else if j < i {
        OnlyOnce(f, t, j, i);
      }
    }
  }

  /** No node is visited twice. */
  lemma WalkIsDistinct(f: Forest, rank: map<TreeNode, nat>, n: TreeNode)
    requires IsForest(f) && IsRanked(f, rank) && n in f.kids
    ensures Distinct(Walk(f, rank, n))
  {
    WalkStarts(f, rank, n);
    hide Walk, KidsOf;
    var t := Walk(f, rank, n);
    forall x, y | 0 <= x < y < |t| ensures t[x] != t[y] {
      OnlyOnce(f, t, x, y);
    }
  }

  /** Breadth first, node by node: the start comes first, every node before its children, the children
      of a node in order, and those of a node that comes before another before the other's. */
  lemma BreadthFirst(f: Forest, rank: map<TreeNode, nat>, n: TreeNode, p: TreeNode, a: nat, q: TreeNode, b: nat)
    requires IsForest(f) && IsRanked(f, rank) && n in f.kids && p in f.kids && q in f.kids
    requires p in Walk(f, rank, n) && q in Walk(f, rank, n) && a < |f.kids[p]| && b < |f.kids[q]|
    ensures var t := Walk(f, rank, n);
            && Distinct(t) && t[0] == n && IsBefore(t, p, f.kids[p][a])
            && (IsBefore(t, p, q) || (p == q && a < b) ==> IsBefore(t, f.kids[p][a], f.kids[q][b]))
  {
    WalkStarts(f, rank, n);
    WalkIsDistinct(f, rank, n);
    hide Walk;
    var t := Walk(f, rank, n);
    var i, j := IndexOf(t, p), IndexOf(t, q);
    var x := WalkKid(f, rank, n, i, a);
    var y := WalkKid(f, rank, n, j, b);
    IndexIs(t, x);
    IndexIs(t, y);
    if i < j {
      KidPlaceGrows(f, t, i, a, j);
    }
    hide IndexOf, KidsOf, Distinct;
  }

  // ----- Pre-order

  lemma {:induction false} UpInPreOrder(f: Forest, rank: map<TreeNode, nat>, n: TreeNode, x: TreeNode)
    requires IsForest(f) && IsRanked(f, rank) && n in f.kids && x in PreOrder(f, rank, n)
    ensures x in f.up && x in rank && rank[x] <= rank[n]
    ensures x != n ==> rank[x] < rank[n] && f.up[x] != null && f.up[x] in PreOrder(f, rank, n)
    decreases rank[n], 1, 0
  {
    if x != n {
      UpInPreOrderOf(f, rank, n, 0, x);
    }
  }

  lemma {:induction false} UpInPreOrderOf(f: Forest, rank: map<TreeNode, nat>, n: TreeNode, i: nat, x: TreeNode)
    requires IsForest(f) && IsRanked(f, rank) && n in f.kids && i <= |f.kids[n]| && x in PreOrderOf(f, rank, n, i)
    ensures x in f.up && x in rank && rank[x] < rank[n]
    ensures f.up[x] != null && (f.up[x] == n || f.up[x] in PreOrderOf(f, rank, n, i))
    decreases rank[n], 0, |f.kids[n]| - i
  {
    assert IsListed(f, n) && f.kids[n][i] in f.kids[n];
    if x in PreOrder(f, rank, f.kids[n][i]) {
      UpInPreOrder(f, rank, f.kids[n][i], x);
    } else {
      UpInPreOrderOf(f, rank, n, i + 1, x);
    }
  }

  lemma {:induction false} BelowSomeKid(f: Forest, rank: map<TreeNode, nat>, n: TreeNode, i: nat, x: TreeNode)
    returns (j: nat)
    requires IsForest(f) && IsRanked(f, rank) && n in f.kids && i <= |f.kids[n]| && x in PreOrderOf(f, rank, n, i)
    ensures i <= j < |f.kids[n]| && f.kids[n][j] in f.kids && x in PreOrder(f, rank, f.kids[n][j])
    decreases |f.kids[n]| - i
  {
    assert IsListed(f, n) && f.kids[n][i] in f.kids[n];
    j := i;
    if x !in PreOrder(f, rank, f.kids[n][i]) {
      j := BelowSomeKid(f, rank, n, i + 1, x);
    }
  }

  /** Nothing is below two children of one node. */
  lemma {:induction false} BelowOneKid(f: Forest, rank: map<TreeNode, nat>, n: TreeNode, a: nat, b: nat, x: TreeNode)
    requires IsForest(f) && IsRanked(f, rank) && n in f.kids && a < |f.kids[n]| && b < |f.kids[n]| && a != b
    requires f.kids[n][a] in f.kids && f.kids[n][b] in f.kids && x in rank
    requires x in PreOrder(f, rank, f.kids[n][a])
    ensures x !in PreOrder(f, rank, f.kids[n][b])
    decreases rank[n] as int - rank[x] as int
  {
    var c, d := f.kids[n][a], f.kids[n][b];
    assert IsListed(f, n) && c in f.kids[n] && d in f.kids[n] && c != d;
    UpInPreOrder(f, rank, c, x);
    if x in PreOrder(f, rank, d) {
      UpInPreOrder(f, rank, d, x);
      var up := f.up[x];
      assert x != c && x != d ==> up != null && IsPlaced(f, x);
      if x == c {
        UpInPreOrder(f, rank, d, up);
      } else if x == d {
        UpInPreOrder(f, rank, c, up);
      } else {
        UpInPreOrder(f, rank, c, up);
        BelowOneKid(f, rank, n, a, b, up);
      }
    }
  }

  lemma {:induction false} PreOrderOnce(f: Forest, rank: map<TreeNode, nat>, n: TreeNode)
    requires IsForest(f) && IsRanked(f, rank) && n in f.kids
    ensures Distinct(PreOrder(f, rank, n))
    decreases rank[n], 1, 0
  {
    PreOrderOfOnce(f, rank, n, 0);
    if n in PreOrderOf(f, rank, n, 0) {
      UpInPreOrderOf(f, rank, n, 0, n);
    }
    JoinDistinct([n], PreOrderOf(f, rank, n, 0));
  }

  lemma {:induction false} PreOrderOfOnce(f: Forest, rank: map<TreeNode, nat>, n: TreeNode, i: nat)
    requires IsForest(f) && IsRanked(f, rank) && n in f.kids && i <= |f.kids[n]|
    ensures Distinct(PreOrderOf(f, rank, n, i))
    decreases rank[n], 0, |f.kids[n]| - i
  {
    if i < |f.kids[n]| {
      assert IsListed(f, n) && f.kids[n][i] in f.kids[n];
      var c := f.kids[n][i];
      PreOrderOnce(f, rank, c);
      PreOrderOfOnce(f, rank, n, i + 1);
      forall x | x in PreOrder(f, rank, c) ensures x !in PreOrderOf(f, rank, n, i + 1) {
        UpInPreOrder(f, rank, c, x);
        if x in PreOrderOf(f, rank, n, i + 1) {
          var j := BelowSomeKid(f, rank, n, i + 1, x);
          BelowOneKid(f, rank, n, i, j, x);
        }
      }
      JoinDistinct(PreOrder(f, rank, c), PreOrderOf(f, rank, n, i + 1));
    }
  }

  /** What comes first in a part comes first in the whole. */
  lemma BeforeInPart(u: seq<TreeNode>, v: seq<TreeNode>, w: seq<TreeNode>, x: TreeNode, y: TreeNode)
    requires Distinct(u + (v + w)) && IsBefore(v, x, y)
    ensures IsBefore(u + (v + w), x, y)
  {
    var t := u + (v + w);
    var i, j := IndexOf(v, x), IndexOf(v, y);
    assert t[|u| + i] == x && t[|u| + j] == y;
    IndexIs(t, |u| + i);
    IndexIs(t, |u| + j);
  }

  lemma BeforeInNext(u: seq<TreeNode>, v: seq<TreeNode>, x: TreeNode, y: TreeNode)
    requires Distinct(u + v) && x in u && y in v
    ensures IsBefore(u + v, x, y)
  {
    var i, j := IndexOf(u, x), IndexOf(v, y);
    assert (u + v)[i] == x && (u + v)[|u| + j] == y;
    IndexIs(u + v, i);
    IndexIs(u + v, |u| + j);
  }

  /** Pre-order, node by node: a node comes before its children, and one child with everything below it
      before the next. */
  lemma {:induction false} DepthFirst(f: Forest, rank: map<TreeNode, nat>, n: TreeNode, p: TreeNode, a: nat,
                                      x: TreeNode)
    requires IsForest(f) && IsRanked(f, rank) && n in f.kids && p in f.kids && p in PreOrder(f, rank, n)
    requires a < |f.kids[p]| && f.kids[p][a] in f.kids && x in PreOrder(f, rank, f.kids[p][a])
    ensures var t := PreOrder(f, rank, n);
            && Distinct(t) && t[0] == n && IsBefore(t, p, x)
            && forall b :: a < b < |f.kids[p]| ==> IsBefore(t, x, f.kids[p][b])
    decreases rank[n], 1, 0
  {
    PreOrderOnce(f, rank, n);
    var t, below := PreOrder(f, rank, n), PreOrderOf(f, rank, n, 0);
    if p == n {
      BelowInPreOrderOf(f, rank, n, 0, a, x);
      BeforeInNext([n], below, n, x);
      forall b | a < b < |f.kids[p]| ensures IsBefore(t, x, f.kids[p][b]) {
        KidsInPreOrderOf(f, rank, n, 0, a, b, x);
        EmptyBehind(below);
        BeforeInPart([n], below, [], x, f.kids[p][b]);
      }
    } else {
      DepthFirstOf(f, rank, n, 0, p, a, x);
      EmptyBehind(below);
      BeforeInPart([n], below, [], p, x);
      forall b | a < b < |f.kids[p]| ensures IsBefore(t, x, f.kids[p][b]) {
        BeforeInPart([n], below, [], x, f.kids[p][b]);
      }
    }
  }

  lemma {:induction false} BelowInPreOrderOf(f: Forest, rank: map<TreeNode, nat>, n: TreeNode, i: nat, a: nat,
                                             x: TreeNode)
    requires IsForest(f) && IsRanked(f, rank) && n in f.kids && i <= a < |f.kids[n]|
    requires f.kids[n][a] in f.kids && x in PreOrder(f, rank, f.kids[n][a])
    ensures x in PreOrderOf(f, rank, n, i)
    decreases a - i
  {
    assert IsListed(f, n) && f.kids[n][i] in f.kids[n];
    if i < a {
      BelowInPreOrderOf(f, rank, n, i + 1, a, x);
    }
  }

  lemma {:induction false} KidsInPreOrderOf(f: Forest, rank: map<TreeNode, nat>, n: TreeNode, i: nat, a: nat, b: nat,
                                            x: TreeNode)
    requires IsForest(f) && IsRanked(f, rank) && n in f.kids && i <= a < b < |f.kids[n]|
    requires f.kids[n][a] in f.kids && x in PreOrder(f, rank, f.kids[n][a])
    ensures IsBefore(PreOrderOf(f, rank, n, i), x, f.kids[n][b])
    decreases a - i
  {
    PreOrderOfOnce(f, rank, n, i);
    assert IsListed(f, n) && f.kids[n][i] in f.kids[n];
    var u, v := PreOrder(f, rank, f.kids[n][i]), PreOrderOf(f, rank, n, i + 1);
    if i == a {
      ChildInPreOrder(f, rank, n, i + 1, b);
      BeforeInNext(u, v, x, f.kids[n][b]);
    } else {
      KidsInPreOrderOf(f, rank, n, i + 1, a, b, x);
      EmptyBehind(v);
      BeforeInPart(u, v, [], x, f.kids[n][b]);
    }
  }

  lemma {:induction false} DepthFirstOf(f: Forest, rank: map<TreeNode, nat>, n: TreeNode, i: nat, p: TreeNode, a: nat,
                                        x: TreeNode)
    requires IsForest(f) && IsRanked(f, rank) && n in f.kids && i <= |f.kids[n]|
    requires p in f.kids && p in PreOrderOf(f, rank, n, i)
    requires a < |f.kids[p]| && f.kids[p][a] in f.kids && x in PreOrder(f, rank, f.kids[p][a])
    ensures var t := PreOrderOf(f, rank, n, i);
            IsBefore(t, p, x) && forall b :: a < b < |f.kids[p]| ==> IsBefore(t, x, f.kids[p][b])
    decreases rank[n], 0, |f.kids[n]| - i
  {
    PreOrderOfOnce(f, rank, n, i);
    assert IsListed(f, n) && f.kids[n][i] in f.kids[n];
    var c := f.kids[n][i];
    var u, v := PreOrder(f, rank, c), PreOrderOf(f, rank, n, i + 1);
    if p in u {
      DepthFirst(f, rank, c, p, a, x);
      EmptyFront(u + v);
      BeforeInPart([], u, v, p, x);
      forall b | a < b < |f.kids[p]| ensures IsBefore(u + v, x, f.kids[p][b]) {
        BeforeInPart([], u, v, x, f.kids[p][b]);
      }
    } else {
      DepthFirstOf(f, rank, n, i + 1, p, a, x);
      EmptyBehind(v);
      BeforeInPart(u, v, [], p, x);
      forall b | a < b < |f.kids[p]| ensures IsBefore(u + v, x, f.kids[p][b]) {
        BeforeInPart(u, v, [], x, f.kids[p][b]);
      }
    }
  }
}
