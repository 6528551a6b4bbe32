/** New nodes and moved nodes in a pipeline tree, and what every fix of a violation keeps. */
module NodeMoves {
  import opened Digraph
  import opened OperationTree
  import opened TreeWalks
  import opened PipelineRules
  import opened PipelineChanges
  import opened Sequences

  // ----- Moving nodes

  lemma AddedIsForest(f: Forest, n: TreeNode)
    requires IsForest(f) && n !in f.kids
    ensures IsForest(AddNode(f, n))
  {
    var g := AddNode(f, n);
    forall m | m in g.kids ensures IsListed(g, m) {
      assert m in f.kids ==> IsListed(f, m);
    }
    forall c | c in g.up ensures IsPlaced(g, c) {
      assert c in f.up ==> IsPlaced(f, c);
    }
  }

  lemma AddedMatches(f: Forest, n: TreeNode, l: LinkMap)
    requires IsForest(f) && Match(f, l) && n !in f.kids
    ensures Match(AddNode(f, n), l[n := Links(null, null, null)])
  {
    var g, now := AddNode(f, n), l[n := Links(null, null, null)];
    AddedNexts(f, n, l, now);
    AddedEnds(f, n, l, now);
    hide ParentsMatch, FirstsMatch, NextsMatch, LooseMatch, IsForest;
    assert now.Keys == g.kids.Keys;
  }

  lemma AddedEnds(f: Forest, n: TreeNode, l: LinkMap, now: LinkMap)
    requires IsForest(f) && ParentsMatch(f, l) && FirstsMatch(f, l) && LooseMatch(f, l) && n !in f.kids
             && l.Keys == f.kids.Keys
    requires now == l[n := Links(null, null, null)]
    ensures ParentsMatch(AddNode(f, n), now) && FirstsMatch(AddNode(f, n), now) && LooseMatch(AddNode(f, n), now)
  {
    hide IsListed, IsPlaced;
  }

  lemma AddedNexts(f: Forest, n: TreeNode, l: LinkMap, now: LinkMap)
    requires IsForest(f) && NextsMatch(f, l) && n !in f.kids && l.Keys == f.kids.Keys
    requires forall m :: m in l ==> m in now && now[m] == l[m]
    ensures NextsMatch(AddNode(f, n), now)
  {
    var g := AddNode(f, n);
    forall m | m in g.kids ensures Chained(g.kids[m], now) {
      if m in f.kids {
        assert g.kids[m] == f.kids[m];
        ChainedUnchanged(f.kids[m], l, now);
      }
    }
    hide Chained;
  }

  /** A new node, not linked to anything. */
  method NewNode(kind: Kind, ghost f: Forest) returns (n: TreeNode, ghost g: Forest)
    requires Linked(f)
    ensures fresh(n) && n.kind == kind && n !in f.kids && g == AddNode(f, n) && Linked(g)
  {
    ghost var l := LinksOf(f.kids.Keys);
    n := new TreeNode(kind);
    g := AddNode(f, n);
    AddedIsForest(f, n);
    AddedMatches(f, n, l);
    NowLinked(f, n, l);
  }

  lemma NowLinked(f: Forest, n: TreeNode, l: LinkMap)
    requires n !in f.kids && n.parent == null && n.firstChild == null && n.nextSibling == null
    requires LinksOf(f.kids.Keys) == l && CanBecome(AddNode(f, n), l[n := Links(null, null, null)])
    ensures Linked(AddNode(f, n))
  {
    assert AddNode(f, n).kids.Keys == f.kids.Keys + {n};
    assert LinksOf(f.kids.Keys + {n}) == l[n := Links(null, null, null)];
  }

  lemma MoveNone(f: Forest, p: TreeNode, n: TreeNode)
    requires p in f.kids && n in f.kids && p != n && f.kids.Keys == f.up.Keys
    ensures MoveAll(f, p, [], n) == f
  {
    MinusNothing(f.kids[p], {});
    assert Elems<TreeNode>([]) == {};
    assert f.kids[n] + [] == f.kids[n];
  }

  /** Moving one more node. */
  lemma MoveStep(f: Forest, p: TreeNode, group: seq<TreeNode>, n: TreeNode, c: TreeNode)
    requires IsForest(f) && p in f.kids && n in f.kids && p != n && c in f.kids[p] && c != n && Distinct(group + [c])
    requires IsForest(MoveAll(f, p, group, n))
    ensures var h := MoveAll(f, p, group, n);
            && h.kids.Keys == f.kids.Keys && c in h.up && h.up[c] == p && c in h.kids && n in h.kids
            && var d := Detach(h, c);
               && n in d.kids && c in d.up && d.up[c] == null && PlaceAfter(d.kids[n], null) == |d.kids[n]|
               && Attach(d, n, |d.kids[n]|, c) == MoveAll(f, p, group + [c], n)
  {
    NotYet(group, c);
    DetachMoved(f, p, group, n, c);
    assert Elems(group + [c]) == Elems(group) + {c};
    var h, m := MoveAll(f, p, group, n), MoveAll(f, p, group + [c], n);
    var d := Detach(h, c);
    hide Minus, Without, IndexOf, Elems, Distinct, IsForest, Attach, Detach;
    assert m.up == h.up[c := n];
    MovedOnto(h, d, m, p, n, c, group, f.kids[n]);
  }

  lemma DetachMoved(f: Forest, p: TreeNode, group: seq<TreeNode>, n: TreeNode, c: TreeNode)
    requires IsForest(f) && p in f.kids && n in f.kids && p != n && c in f.kids[p] && c !in group && c != n
    requires IsForest(MoveAll(f, p, group, n))
    ensures var h := MoveAll(f, p, group, n);
            && h.kids.Keys == f.kids.Keys == h.up.Keys && c in h.up && h.up[c] == p && c in h.kids
            && Detach(h, c) == Forest(h.kids[p := Minus(f.kids[p], Elems(group) + {c})], h.up[c := null])
  {
    assert IsListed(f, p);
    MinusStep(f.kids[p], Elems(group), c);
    var h := MoveAll(f, p, group, n);
    hide Minus, Without, IndexOf, Distinct;
    assert c !in Elems(group);
    assert h.up[c] == p && h.kids[p] == Minus(f.kids[p], Elems(group));
  }

  lemma NotYet(group: seq<TreeNode>, c: TreeNode)
    requires Distinct(group + [c])
    ensures c !in group
  {
    forall i | 0 <= i < |group| ensures group[i] != c {
      assert (group + [c])[i] == group[i] && (group + [c])[|group|] == c;
    }
  }

  lemma MovedOnto(h: Forest, d: Forest, m: Forest, p: TreeNode, n: TreeNode, c: TreeNode, group: seq<TreeNode>,
                  kids: seq<TreeNode>)
    requires p in h.kids && n in h.kids && p != n && c in h.up && d.kids.Keys == h.kids.Keys
             && m.kids.Keys == h.kids.Keys
    requires d.kids[p] == m.kids[p] && d.kids[n] == kids + group && m.kids[n] == kids + (group + [c])
    requires forall x :: x in h.kids && x != p && x != n ==> d.kids[x] == m.kids[x]
    requires d.up == h.up[c := null] && m.up == h.up[c := n]
    ensures Attach(d, n, |d.kids[n]|, c) == m
  {
    AtEnd(d.kids[n], c);
    Reassociate(kids, group, [c]);
    var a := Attach(d, n, |d.kids[n]|, c);
    assert a.kids == m.kids;
    assert a.up == m.up;
  }

  lemma AtEnd(s: seq<TreeNode>, c: TreeNode)
    ensures InsertAt(s, |s|, c) == s + [c]
  {
  }

  lemma IndexIs(s: seq<TreeNode>, k: nat)
    requires Distinct(s) && k < |s|
    ensures s[k] in s && IndexOf(s, s[k]) == k
  {
  }

  lemma InsertBetween(x: seq<TreeNode>, z: seq<TreeNode>, n: TreeNode)
    ensures InsertAt(x + z, |x|, n) == x + [n] + z
  {
  }

  /** Moves the nodes, one after the other, from below p to the end of the children of n. */
  method MoveUnder(group: seq<TreeNode>, n: TreeNode, ghost f: Forest, ghost p: TreeNode) returns (ghost g: Forest)
    requires Linked(f) && p in f.kids && n in f.kids && p != n && Distinct(group) && n !in group
    requires forall c :: c in group ==> c in f.kids[p]
    modifies f.kids.Keys
    ensures g == MoveAll(f, p, group, n) && Linked(g) && g.kids.Keys == f.kids.Keys
  {
    g := f;
    Basics(f);
    MoveNone(f, p, n);
    assert group[..0] == [];
    hide *;
    for i := 0 to |group|
      invariant g == MoveAll(f, p, group[..i], n) && Linked(g) && g.kids.Keys == f.kids.Keys
    {
      var c := group[i];
      Basics(g);
      PartDistinct(group, i);
      MoveStep(f, p, group[..i], n, c);
      InForest(c, g);
      g := c.Unlink(g);
      InForest(n, g);
      g := n.InsertChildNode(c, null, g);
    }
    assert group[..|group|] == group;
  }

  lemma Basics(f: Forest)
    requires Linked(f)
    ensures IsForest(f) && f.kids.Keys == f.up.Keys
  {
  }

  lemma InForest(c: TreeNode, f: Forest)
    requires Linked(f) && c in f.kids
    ensures c.IsIn(f)
  {
  }

  lemma PartDistinct(group: seq<TreeNode>, i: nat)
    requires Distinct(group) && i < |group|
    ensures group[..i] + [group[i]] == group[..i + 1] && Distinct(group[..i] + [group[i]]) && group[i] in group
  {
  }

  // ----- The state of a run

  /** The tree f has come from f0 with no old node lost or nested in another one, the new stages
      have ids of their own from start on, and the check for private nodes ends everywhere. */
  ghost predicate RunOk(f0: Forest, r0: map<TreeNode, nat>, f: Forest, r: map<TreeNode, nat>, root: TreeNode,
                        start: int, next: int)
  {
    Keeps(f0, r0, f, r, root, f0.kids.Keys) && FreshIds(f0, f, start, next) && start <= next && NoneHangs(f)
  }

  lemma RunAdopt(f0: Forest, r0: map<TreeNode, nat>, f: Forest, r: map<TreeNode, nat>, root: TreeNode, start: int,
                 next: int,
                 p: TreeNode, group: seq<TreeNode>, n: TreeNode, k: nat)
    requires RunOk(f0, r0, f, r, root, start, next) && CanAdopt(f, p, group, n, k) && IsForest(Adopt(f, p, group, n, k))
    requires NoneHangs(Adopt(f, p, group, n, k)) && (n.kind.Stage? ==> n.kind.id == next)
    ensures p in r
    ensures RunOk(f0, r0, Adopt(f, p, group, n, k), NewRank(r, p, n), root, start, if n.kind.Stage? then next + 1
                  else next)
  {
    var g := Adopt(f, p, group, n, k);
    assert IsTree(f, r, root);
    AdoptKeeps(f, r, root, p, group, n, k, f0.kids.Keys);
    KeepsTrans(f0, r0, f, r, g, NewRank(r, p, n), root, f0.kids.Keys);
    AdoptedLists(f, p, group, n, k);
    FreshStep(f0, f, g, n, start, next);
    hide Adopt, CanAdopt, Keeps, NoneHangs, FreshIds, IsForest, IsTree;
  }

  lemma RunFacts(f0: Forest, r0: map<TreeNode, nat>, f: Forest, r: map<TreeNode, nat>, root: TreeNode, start: int,
                 next: int)
    requires RunOk(f0, r0, f, r, root, start, next)
    ensures NoneHangs(f) && IsTree(f, r, root) && IsForest(f) && f.kids.Keys == f.up.Keys && start <= next
            && FreshIds(f0, f, start, next)
  {
  }
}
