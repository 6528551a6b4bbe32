/** What each fix of a violation does to the violations that are left, and to the nesting of
    the nodes. */
module PipelineChanges {
  import opened Digraph
  import opened OperationTree
  import opened TreeWalks
  import opened PipelineRules
  import opened Sequences

  /** What the lists are after an adoption. */
  lemma AdoptedLists(f: Forest, p: TreeNode, group: seq<TreeNode>, n: TreeNode, k: nat)
    requires CanAdopt(f, p, group, n, k)
    ensures var g := Adopt(f, p, group, n, k);
            && g.kids.Keys == f.kids.Keys + {n} && g.up.Keys == f.up.Keys + {n} && n !in f.up && p in f.up && n != p
            && g.kids[n] == group && g.kids[p] == InsertAt(Minus(f.kids[p], Elems(group)), k, n)
            && (forall m :: m in f.kids && m != p ==> g.kids[m] == f.kids[m])
            && g.up[n] == p && n !in group
            && (forall c :: c in group ==> c in f.up && f.up[c] == p && g.up[c] == n)
            && forall c :: c in f.up && c !in group ==> g.up[c] == f.up[c]
  {
    assert IsListed(f, p);
  }

  ghost predicate NoneHangs(f: Forest) {
    forall n :: n in f.kids && n.kind.Pipeline? ==> !Hangs(f.kids[n])
  }

  // ----- A stage for illegal children

  /** The new node is a stage without dependencies and takes illegal children of a pipeline. */
  predicate IsWrap(p: TreeNode, group: seq<TreeNode>, n: TreeNode) {
    && p.kind.Pipeline? && n.kind.Stage? && !n.kind.hasDependencies && group != []
    && forall c :: c in group ==> IsIllegal(c)
  }

  lemma WrapLeavesFewer(f: Forest, p: TreeNode, group: seq<TreeNode>, n: TreeNode, k: nat)
    requires CanAdopt(f, p, group, n, k) && IsWrap(p, group, n)
    ensures IllegalChildren(Adopt(f, p, group, n, k)) < IllegalChildren(f)
    ensures IllegalChildren(Adopt(f, p, group, n, k)) == IllegalChildren(f) - Elems(group)
  {
    AdoptedLists(f, p, group, n, k);
    var g := Adopt(f, p, group, n, k);
    hide Adopt, CanAdopt;
    assert group[0] in group && group[0] in IllegalChildren(f) && group[0] !in IllegalChildren(g);
    forall c | c in IllegalChildren(f) && c !in group ensures c in IllegalChildren(g) {
    }
    forall c | c in IllegalChildren(g) ensures c in IllegalChildren(f) && c !in group {
    }
  }

  /** Wrapping children that do not come first does not make the check hang. */
  lemma WrapKeepsCheck(cs: seq<TreeNode>, a: nat, b: nat, n: TreeNode)
    requires 0 < a < b <= |cs| && !Hangs(cs) && (forall i :: a <= i < b ==> IsIllegal(cs[i]))
    requires n.kind.Stage? && !n.kind.hasDependencies
    ensures !Hangs(cs[..a] + [n] + cs[b..])
  {
    var t := cs[..a] + [n] + cs[b..];
    assert forall x :: 0 <= x < a ==> t[x] == cs[x];
    if !StartsPrivate(cs) {
      assert IsIllegal(cs[a]) && !Blocks(cs, a);
      var j :| 0 <= j < a && IsDependent(cs[j]);
      forall i: nat ensures !Blocks(t, i) {
        if i <= j {
          assert !Blocks(cs, i);
        } else {
          assert IsDependent(t[j]);
        }
      }
    }
  }

  // ----- A pipeline for stray stages

  /** The new node is a pipeline and takes all stages below a node that is none. */
  predicate IsNest(f: Forest, p: TreeNode, group: seq<TreeNode>, n: TreeNode)
    requires p in f.kids
  {
    && !p.kind.Pipeline? && n.kind.Pipeline? && group != []
    && (forall c :: c in group ==> c in f.kids[p] && c.kind.Stage?)
  }

  lemma NestLeavesFewer(f: Forest, p: TreeNode, group: seq<TreeNode>, n: TreeNode, k: nat)
    requires CanAdopt(f, p, group, n, k) && IsNest(f, p, group, n)
    ensures IllegalChildren(Adopt(f, p, group, n, k)) == IllegalChildren(f)
    ensures StrayStages(Adopt(f, p, group, n, k)) < StrayStages(f)
    ensures StrayStages(Adopt(f, p, group, n, k)) == StrayStages(f) - Elems(group)
  {
    AdoptedLists(f, p, group, n, k);
    var g := Adopt(f, p, group, n, k);
    hide Adopt, CanAdopt;
    assert group[0] in group && group[0] in StrayStages(f) && group[0] !in StrayStages(g);
    forall c | c in StrayStages(f) && c !in group ensures c in StrayStages(g) {
    }
    forall c | c in StrayStages(g) ensures c in StrayStages(f) && c !in group {
    }
    forall c | c in IllegalChildren(f) ensures c in IllegalChildren(g) {
    }
    forall c | c in IllegalChildren(g) ensures c in IllegalChildren(f) {
    }
  }

  lemma StagesDoNotHang(cs: seq<TreeNode>)
    requires forall c :: c in cs ==> c.kind.Stage?
    ensures !Hangs(cs)
  {
    forall i: nat ensures !Blocks(cs, i) {
      assert i < |cs| ==> cs[i] in cs;
    }
  }

  // ----- A private node

  /** The forest g is f with the new node n in front of the children of p. */
  ghost predicate GetsInFront(f: Forest, g: Forest, p: TreeNode, n: TreeNode) {
    && p in f.kids && n !in f.kids && p in f.up && f.kids.Keys == f.up.Keys
    && g.kids.Keys == f.kids.Keys + {n} && g.up.Keys == f.up.Keys + {n}
    && g.kids[n] == [] && g.kids[p] == [n] + f.kids[p] && (forall m :: m in f.kids && m != p ==> g.kids[m] == f.kids[m])
    && g.up[n] == p && forall c :: c in f.up ==> g.up[c] == f.up[c]
  }

  lemma PrivateGetsInFront(f: Forest, p: TreeNode, n: TreeNode)
    requires CanAdopt(f, p, [], n, 0)
    ensures GetsInFront(f, Adopt(f, p, [], n, 0), p, n)
  {
    AdoptedLists(f, p, [], n, 0);
    assert Elems<TreeNode>([]) == {};
    MinusNothing(f.kids[p], {});
    InFront(n, f.kids[p]);
    assert f.kids.Keys == f.up.Keys;
    hide Adopt, CanAdopt, Minus;
  }

  lemma PrivateLeavesFewer(f: Forest, p: TreeNode, n: TreeNode)
    requires CanAdopt(f, p, [], n, 0) && PrivateViolated(f, p) && n.kind.Private?
    ensures var g := Adopt(f, p, [], n, 0);
            && g.kids[p] == [n] + f.kids[p]
            && IllegalChildren(g) == IllegalChildren(f) && StrayStages(g) == StrayStages(f)
               && MissingPrivates(g) < MissingPrivates(f)
  {
    PrivateGetsInFront(f, p, n);
    var g := Adopt(f, p, [], n, 0);
    hide Adopt, CanAdopt;
    SameIllegal(f, g, p, n);
    SameStray(f, g, p, n);
    FewerMissing(f, g, p, n);
  }

  lemma SameIllegal(f: Forest, g: Forest, p: TreeNode, n: TreeNode)
    requires GetsInFront(f, g, p, n) && n.kind.Private?
    ensures IllegalChildren(g) == IllegalChildren(f)
  {
  }

  lemma SameStray(f: Forest, g: Forest, p: TreeNode, n: TreeNode)
    requires GetsInFront(f, g, p, n) && n.kind.Private?
    ensures StrayStages(g) == StrayStages(f)
  {
  }

  lemma FewerMissing(f: Forest, g: Forest, p: TreeNode, n: TreeNode)
    requires GetsInFront(f, g, p, n) && n.kind.Private? && PrivateViolated(f, p)
    ensures MissingPrivates(g) < MissingPrivates(f)
  {
    assert p in MissingPrivates(f) && p !in MissingPrivates(g);
    forall m | m in MissingPrivates(g) ensures m in MissingPrivates(f) {
    }
  }

  lemma InFront(n: TreeNode, s: seq<TreeNode>)
    ensures InsertAt(s, 0, n) == [n] + s
  {
  }

  lemma PrivateDoesNotHang(cs: seq<TreeNode>)
    requires StartsPrivate(cs)
    ensures !Hangs(cs)
  {
  }

  // ----- Nesting

  /** The nearest node above c that is one of the old ones. */
  function NearestOld(f: Forest, rank: map<TreeNode, nat>, root: TreeNode, c: TreeNode, old': set<TreeNode>): TreeNode?
    requires IsTree(f, rank, root) && c in f.kids
    decreases rank[root] - rank[c]
  {
    var p := f.up[c];
    if p == null then null
    else
      assert IsPlaced(f, c);
      if p in old' then p else NearestOld(f, rank, root, p, old')
  }

  /** A new node between two others does not change what is nearest among the old ones. */
  lemma {:induction false} AdoptKeepsNesting(f: Forest, rank: map<TreeNode, nat>, root: TreeNode,
                                             p: TreeNode, group: seq<TreeNode>, n: TreeNode, k: nat, c: TreeNode,
                                               old': set<TreeNode>)
    requires CanAdopt(f, p, group, n, k) && IsTree(f, rank, root)
             && IsTree(Adopt(f, p, group, n, k), NewRank(rank, p, n), root)
    requires c in f.kids && n !in old'
    ensures NearestOld(Adopt(f, p, group, n, k), NewRank(rank, p, n), root, c, old')
              == NearestOld(f, rank, root, c, old')
    decreases rank[root] - rank[c]
  {
    AdoptedLists(f, p, group, n, k);
    var g, r := Adopt(f, p, group, n, k), NewRank(rank, p, n);
    hide Adopt, CanAdopt, IsForest, IsRanked;
    if f.up[c] != null {
      assert f.up[c] in f.kids && rank[f.up[c]] > rank[c] by {
        Above(f, rank, c);
      }
      if f.up[c] !in old' {
        AdoptKeepsNesting(f, rank, root, p, group, n, k, f.up[c], old');
      }
      if c in group {
        assert NearestOld(g, r, root, n, old') == if p in old' then p else NearestOld(g, r, root, p, old');
      }
    }
  }

  lemma Above(f: Forest, rank: map<TreeNode, nat>, c: TreeNode)
    requires IsForest(f) && IsRanked(f, rank) && c in f.kids && f.up[c] != null
    ensures f.up[c] in f.kids && rank[f.up[c]] > rank[c]
  {
    assert IsPlaced(f, c);
  }

  // ----- Runs of changes

  /** Every node of f is kept, the new ones are none of the old ones, and what each node is
      nested in, among the old ones, stays. */
  ghost predicate Keeps(f: Forest, rank: map<TreeNode, nat>, g: Forest, r: map<TreeNode, nat>, root: TreeNode,
                        old': set<TreeNode>)
  {
    && IsTree(f, rank, root) && IsTree(g, r, root) && f.kids.Keys <= g.kids.Keys
    && (forall n :: n in g.kids && n !in f.kids ==> n !in old')
    && forall c :: c in f.kids ==> NearestOld(g, r, root, c, old') == NearestOld(f, rank, root, c, old')
  }

  lemma KeepsSelf(f: Forest, rank: map<TreeNode, nat>, root: TreeNode, old': set<TreeNode>)
    requires IsTree(f, rank, root)
    ensures Keeps(f, rank, f, rank, root, old')
  {
  }

  lemma KeepsTrans(f: Forest, rank: map<TreeNode, nat>, g: Forest, r: map<TreeNode, nat>, h: Forest, t: map<TreeNode,
                   nat>,
                   root: TreeNode, old': set<TreeNode>)
    requires Keeps(f, rank, g, r, root, old') && Keeps(g, r, h, t, root, old')
    ensures Keeps(f, rank, h, t, root, old')
  {
    hide IsTree;
    forall c | c in f.kids ensures c in h.kids
        && NearestOld(h, t, root, c, old') == NearestOld(f, rank, root, c, old')
    {
      assert c in g.kids;
    }
  }

  lemma AdoptKeeps(f: Forest, rank: map<TreeNode, nat>, root: TreeNode, p: TreeNode, group: seq<TreeNode>,
                   n: TreeNode, k: nat, old': set<TreeNode>)
    requires CanAdopt(f, p, group, n, k) && IsTree(f, rank, root) && IsForest(Adopt(f, p, group, n, k)) && n !in old'
    ensures Keeps(f, rank, Adopt(f, p, group, n, k), NewRank(rank, p, n), root, old')
  {
    assert p in f.kids && p in rank && k <= |Minus(f.kids[p], Elems(group))|;
    hide *;
    AdoptIsTree(f, rank, root, p, group, n, k);
    AdoptedLists(f, p, group, n, k);
    forall c | c in f.kids
      ensures NearestOld(Adopt(f, p, group, n, k), NewRank(rank, p, n), root, c, old')
                == NearestOld(f, rank, root, c, old')
    {
      AdoptKeepsNesting(f, rank, root, p, group, n, k, c, old');
    }
    MakeKeeps(f, rank, Adopt(f, p, group, n, k), NewRank(rank, p, n), root, old');
  }

  lemma MakeKeeps(f: Forest, rank: map<TreeNode, nat>, g: Forest, r: map<TreeNode, nat>, root: TreeNode,
                  old': set<TreeNode>)
    requires IsTree(f, rank, root) && IsTree(g, r, root) && f.kids.Keys <= g.kids.Keys
    requires forall n :: n in g.kids && n !in f.kids ==> n !in old'
    requires forall c :: c in f.kids ==> NearestOld(g, r, root, c, old') == NearestOld(f, rank, root, c, old')
    ensures Keeps(f, rank, g, r, root, old')
  {
    hide IsTree, NearestOld;
  }

  /** In the new tree every old node is nested, among the old ones, right below the parent it had. */
  ghost predicate ParentsEnclose(f: Forest, g: Forest, rank: map<TreeNode, nat>, root: TreeNode)
    requires IsTree(g, rank, root)
  {
    forall c :: c in f.kids ==> c in g.kids && c in f.up && NearestOld(g, rank, root, c, f.kids.Keys) == f.up[c]
  }

  lemma KeepsMeansParentsEnclose(f: Forest, rank: map<TreeNode, nat>, g: Forest, r: map<TreeNode, nat>, root: TreeNode)
    requires Keeps(f, rank, g, r, root, f.kids.Keys)
    ensures IsTree(g, r, root) && ParentsEnclose(f, g, r, root)
  {
    assert f.kids.Keys == f.up.Keys;
    hide IsTree, NearestOld;
    forall c | c in f.kids
      ensures c in g.kids && c in f.up && NearestOld(g, r, root, c, f.kids.Keys) == f.up[c]
    {
      NearestIsParent(f, rank, root, c);
    }
  }

  /** In the tree itself the nearest old node is the parent. */
  lemma NearestIsParent(f: Forest, rank: map<TreeNode, nat>, root: TreeNode, c: TreeNode)
    requires IsTree(f, rank, root) && c in f.kids
    ensures NearestOld(f, rank, root, c, f.kids.Keys) == f.up[c]
  {
    if f.up[c] != null {
      Above(f, rank, c);
    }
  }

  /** The stages that are new have ids from start on, below next, each its own. */
  predicate FreshIds(f: Forest, g: Forest, start: int, next: int) {
    && (forall n :: n in g.kids && n !in f.kids && n.kind.Stage? ==> start <= n.kind.id < next)
    && forall n, m :: n in g.kids && m in g.kids && n !in f.kids && m !in f.kids && n.kind.Stage? && m.kind.Stage?
                      && n != m ==>
      n.kind.id != m.kind.id
  }

  lemma FreshStep(f: Forest, g: Forest, h: Forest, n: TreeNode, start: int, next: int)
    requires FreshIds(f, g, start, next) && h.kids.Keys == g.kids.Keys + {n} && start <= next
    requires n.kind.Stage? ==> n.kind.id == next
    ensures FreshIds(f, h, start, if n.kind.Stage? then next + 1 else next)
  {
  }
}
