/** Making a pipeline tree legal: violations of the rules are collected and the first one is
    fixed, until there are none. */
module PipelineLegalizer {
  import opened OperationTree
  import opened TreeWalks
  import opened PipelineRules
  import opened PipelineChanges
  import opened NodeMoves
  import opened StageWrapping
  import opened StageNesting
  import opened Sequences

  // ----- Finding violations

  method PipelineChildrenViolated(node: TreeNode, ghost f: Forest) returns (violated: bool)
    requires node.IsIn(f)
    ensures violated == ChildrenViolated(f, node)
  {
    if !node.kind.Pipeline? {
      return false;
    }
    ghost var s := f.kids[node];
    node.Follow(f, 0);
    hide Linked;
    var child := node.firstChild;
    ghost var i: nat := 0;
    while child != null
      invariant i <= |s| && child == (if i < |s| then s[i] else null)
      invariant forall j :: 0 <= j < i ==> !IsIllegal(s[j])
      decreases |s| - i
    {
      node.Follow(f, i);
      if !child.kind.Private? && !child.kind.Stage? {
        assert s[i] in s;
        return true;
      }
      i := i + 1;
      child := child.nextSibling;
    }
    return false;
  }

  method StageParentViolated(node: TreeNode, ghost f: Forest) returns (violated: bool)
    requires node.IsIn(f) && node in f.up && (node.kind.Stage? ==> f.up[node] != null)
    ensures violated == ParentViolated(f, node)
  {
    if !node.kind.Stage? {
      return false;
    }
    node.Follow(f, 0);
    var parent := node.parent;
    return !parent.kind.Pipeline?;
  }

  /** The check for a private node; the scan of the children stays at one that is no stage, so
      it ends only where Hangs does not hold. */
  method PrivateMissing(node: TreeNode, ghost f: Forest) returns (violated: bool)
    requires node.IsIn(f) && (node.kind.Pipeline? ==> !Hangs(f.kids[node]))
    ensures violated == PrivateViolated(f, node)
  {
    if !node.kind.Pipeline? {
      return false;
    }
    ghost var s := f.kids[node];
    node.Follow(f, 0);
    hide Linked;
    var firstChild := node.firstChild;
    if firstChild != null && firstChild.kind.Private? {
      return false;
    }
    var child := firstChild;
    ghost var i: nat := 0;
    while child != null
      invariant i <= |s| && child == (if i < |s| then s[i] else null)
      invariant forall j :: 0 <= j < i ==> !IsDependent(s[j])
      decreases |s| - i
    {
      node.Follow(f, i);
      assert !Blocks(s, i);
      if child.kind.Stage? {
        if child.kind.hasDependencies {
          assert s[i] in s;
          return true;
        }
        i := i + 1;
        child := child.nextSibling;
      } else {
        assert false;
      }
    }
    return false;
  }

  datatype Rule = PipelineChildren | StageParent | PrivateMustExist

  datatype Violation = Violation(rule: Rule, node: TreeNode)

  predicate IsViolated(f: Forest, rule: Rule, n: TreeNode)
    requires n in f.kids && n in f.up
  {
    match rule
    case PipelineChildren => ChildrenViolated(f, n)
    case StageParent => ParentViolated(f, n)
    case PrivateMustExist => PrivateViolated(f, n)
  }

  function ViolationOf(f: Forest, rule: Rule, n: TreeNode): seq<Violation>
    requires n in f.kids && n in f.up
  {
    if IsViolated(f, rule, n) then [Violation(rule, n)] else []
  }

  predicate AllIn(nodes: seq<TreeNode>, f: Forest) {
    forall n :: n in nodes ==> n in f.kids && n in f.up
  }

  /** The violations at the nodes, one node after the other, in the order of the rules. */
  function ViolationsIn(f: Forest, nodes: seq<TreeNode>): seq<Violation>
    requires AllIn(nodes, f)
  {
    if nodes == [] then []
    else
      var n := nodes[0];
      assert n in nodes;
      (ViolationOf(f, PipelineChildren, n) + ViolationOf(f, StageParent,
                                                         n) + ViolationOf(f, PrivateMustExist,
                                                                          n)) + ViolationsIn(f, nodes[1..])
  }

  lemma {:induction false} ViolationsAre(f: Forest, nodes: seq<TreeNode>)
    requires AllIn(nodes, f)
    ensures ViolationsIn(f, nodes) == [] <==> forall n :: n in nodes ==> IsLegal(f, n)
    ensures forall v :: v in ViolationsIn(f, nodes) ==>
                          v.node in nodes && v.node in f.kids && v.node in f.up && IsViolated(f, v.rule, v.node)
  {
    if nodes != [] {
      assert nodes[0] in nodes;
      ViolationsAre(f, nodes[1..]);
      assert forall n :: n in nodes <==> n == nodes[0] || n in nodes[1..];
      hide ChildrenViolated, ParentViolated, PrivateViolated;
    }
  }

  lemma {:induction false} ViolationsConcat(f: Forest, a: seq<TreeNode>, b: seq<TreeNode>)
    requires AllIn(a, f) && AllIn(b, f)
    ensures AllIn(a + b, f) && ViolationsIn(f, a + b) == ViolationsIn(f, a) + ViolationsIn(f, b)
  {
    if a == [] {
      EmptyFront(b);
      EmptyFront(ViolationsIn(f, b));
    } else {
      var n := a[0];
      assert n in a;
      assert (a + b)[1..] == a[1..] + b;
      ViolationsConcat(f, a[1..], b);
      Reassociate(ViolationOf(f, PipelineChildren,
                              n) + ViolationOf(f, StageParent, n) + ViolationOf(f, PrivateMustExist, n),
                  ViolationsIn(f, a[1..]), ViolationsIn(f, b));
    }
  }

  lemma ViolationsAtOne(f: Forest, n: TreeNode)
    requires n in f.kids && n in f.up
    ensures AllIn([n], f)
    ensures ViolationsIn(f, [n])
              == ViolationOf(f, PipelineChildren,
                             n) + ViolationOf(f, StageParent, n) + ViolationOf(f, PrivateMustExist, n)
  {
    EmptyBehind(ViolationOf(f, PipelineChildren, n) + ViolationOf(f, StageParent,
                                                                  n) + ViolationOf(f, PrivateMustExist, n));
  }

  /** Checks the rules at one node. */
  method CheckRules(node: TreeNode, ghost f: Forest) returns (violations: seq<Violation>)
    requires node.IsIn(f) && node in f.up && (node.kind.Stage? ==> f.up[node] != null)
             && (node.kind.Pipeline? ==> !Hangs(f.kids[node]))
    ensures AllIn([node], f) && violations == ViolationsIn(f, [node])
  {
    ViolationsAtOne(f, node);
    hide Linked, ChildrenViolated, ParentViolated, PrivateViolated, Hangs, ViolationsIn;
    var children := PipelineChildrenViolated(node, f);
    var parent := StageParentViolated(node, f);
    var private := PrivateMissing(node, f);
    violations := (if children then [Violation(PipelineChildren, node)]
                   else []) + (if parent then [Violation(StageParent, node)] else [])
      + (if private then [Violation(PrivateMustExist, node)] else []);
  }

  /** Every node is the root or below another one, and the check ends at it. */
  lemma Checkable(f: Forest, rank: map<TreeNode, nat>, root: TreeNode, nodes: seq<TreeNode>, i: nat)
    requires Linked(f) && IsTree(f, rank, root) && NoneHangs(f) && root.kind.Root? && i < |nodes| && AllIn(nodes, f)
    ensures AllIn(nodes[..i], f) && nodes[..i + 1] == nodes[..i] + [nodes[i]]
    ensures var n := nodes[i];
            && n.IsIn(f) && n in f.up && (n.kind.Stage? ==> f.up[n] != null) && (n.kind.Pipeline? ==> !Hangs(f.kids[n]))
  {
    OneMore(nodes, i);
    PartIn(nodes, i, f);
    var n := nodes[i];
    assert n.IsIn(f);
    hide Hangs, Linked, IsForest, IsRanked;
  }

  lemma PartIn(nodes: seq<TreeNode>, i: nat, f: Forest)
    requires AllIn(nodes, f) && i <= |nodes|
    ensures AllIn(nodes[..i], f)
  {
  }

  /** Collects the violations at all nodes, in pre-order. */
  method CollectViolations(root: TreeNode, ghost f: Forest, ghost rank: map<TreeNode, nat>)
    returns (violations: seq<Violation>)
    requires Linked(f) && IsTree(f, rank, root) && NoneHangs(f) && root.kind.Root?
    ensures violations == [] <==> forall n :: n in f.kids ==> n in f.up && IsLegal(f, n)
    ensures forall v :: v in violations ==> v.node in f.kids && v.node in f.up && IsViolated(f, v.rule, v.node)
  {
    WalkAll(f, rank, root);
    hide *;
    var nodes := PreOrderWalk(root, f, rank);
    violations := [];
    for i := 0 to |nodes|
      invariant AllIn(nodes[..i], f) && violations == ViolationsIn(f, nodes[..i])
    {
      Checkable(f, rank, root, nodes, i);
      var here := CheckRules(nodes[i], f);
      ViolationsConcat(f, nodes[..i], [nodes[i]]);
      violations := violations + here;
    }
    assert nodes[..|nodes|] == nodes;
    ViolationsAre(f, nodes);
    AllLegal(f, rank, root);
  }

  lemma WalkAll(f: Forest, rank: map<TreeNode, nat>, root: TreeNode)
    requires Linked(f) && IsTree(f, rank, root)
    ensures root.IsIn(f) && IsForest(f) && IsRanked(f, rank) && AllIn(PreOrder(f, rank, root), f)
    ensures AllIn([], f) && ViolationsIn(f, []) == []
  {
    PreOrderInForest(f, rank, root);
  }

  lemma AllLegal(f: Forest, rank: map<TreeNode, nat>, root: TreeNode)
    requires IsTree(f, rank, root) && AllIn(PreOrder(f, rank, root), f)
    ensures (forall n :: n in PreOrder(f, rank, root) ==> IsLegal(f, n)) <==>
              forall n :: n in f.kids ==> n in f.up && IsLegal(f, n)
  {
    hide IsLegal, PreOrder;
    forall n | n in f.kids ensures n in PreOrder(f, rank, root) {
      PreOrderHasAll(f, rank, root, n);
    }
  }

  // ----- Fixing violations

  predicate StagesBelow(f: Forest, bound: int) {
    forall n :: n in f.kids && n.kind.Stage? ==> n.kind.id < bound
  }

  predicate HasStage(f: Forest, id: int) {
    exists n :: n in f.kids && n.kind.Stage? && n.kind.id == id
  }

  predicate IdsBelow(nodes: seq<TreeNode>, i: nat, next: int) {
    i <= |nodes| && forall j :: 0 <= j < i && nodes[j].kind.Stage? ==> nodes[j].kind.id < next
  }

  lemma NoneBelow(nodes: seq<TreeNode>, next: int)
    ensures IdsBelow(nodes, 0, next)
  {
  }

  lemma OneBelow(nodes: seq<TreeNode>, i: nat, next: int)
    requires IdsBelow(nodes, i, next) && i < |nodes|
    ensures IdsBelow(nodes, i + 1, if nodes[i].kind.Stage? && nodes[i].kind.id >= next then nodes[i].kind.id + 1
                     else next)
  {
  }

  /** One more than the largest id of a stage. */
  method NextStageId(root: TreeNode, ghost f: Forest, ghost rank: map<TreeNode, nat>) returns (next: int)
    requires Linked(f) && IsTree(f, rank, root)
    ensures next >= 0 && StagesBelow(f, next) && (next > 0 ==> HasStage(f, next - 1))
  {
    WalkAll(f, rank, root);
    hide *;
    var nodes := PreOrderWalk(root, f, rank);
    next := 0;
    NoneBelow(nodes, next);
    for i := 0 to |nodes|
      invariant next >= 0 && (next > 0 ==> HasStage(f, next - 1))
      invariant IdsBelow(nodes, i, next)
    {
      OneBelow(nodes, i, next);
      if nodes[i].kind.Stage? && nodes[i].kind.id >= next {
        IsStageOf(f, nodes, i);
        next := nodes[i].kind.id + 1;
      }
    }
    AllStagesBelow(f, rank, root, nodes, next);
  }

  lemma IsStageOf(f: Forest, nodes: seq<TreeNode>, i: nat)
    requires AllIn(nodes, f) && i < |nodes| && nodes[i].kind.Stage?
    ensures HasStage(f, nodes[i].kind.id)
  {
    assert nodes[i] in nodes;
  }

  lemma AllStagesBelow(f: Forest, rank: map<TreeNode, nat>, root: TreeNode, nodes: seq<TreeNode>, next: int)
    requires IsTree(f, rank, root) && nodes == PreOrder(f, rank, root)
    requires IdsBelow(nodes, |nodes|, next)
    ensures StagesBelow(f, next)
  {
    hide PreOrder;
    forall n | n in f.kids && n.kind.Stage? ensures n.kind.id < next {
      PreOrderHasAll(f, rank, root, n);
    }
  }

  /** Fixes one violation. */
  method FixViolation(v: Violation, nextId: int, ghost root: TreeNode, ghost f: Forest, ghost r: map<TreeNode, nat>,
                      ghost f0: Forest, ghost r0: map<TreeNode, nat>, ghost start: int)
    returns (next: int, ghost g: Forest, ghost s: map<TreeNode, nat>)
    requires Linked(f) && RunOk(f0, r0, f, r, root, start, nextId)
    requires v.node in f.kids && v.node in f.up && IsViolated(f, v.rule, v.node)
    modifies f.kids.Keys
    ensures Linked(g) && RunOk(f0, r0, g, s, root, start, next)
    ensures f.kids.Keys <= g.kids.Keys && fresh(g.kids.Keys - f.kids.Keys)
    ensures IllegalChildren(g) <= IllegalChildren(f)
    ensures IllegalChildren(g) == IllegalChildren(f) ==> StrayStages(g) <= StrayStages(f)
    ensures IllegalChildren(g) == IllegalChildren(f) && StrayStages(g) == StrayStages(f) ==>
              MissingPrivates(g) < MissingPrivates(f)
  {
    ghost var n;
    hide Linked, RunOk, ChildrenViolated, ParentViolated, PrivateViolated, IllegalChildren, StrayStages,
        MissingPrivates, AllWrapped, Adopt, CanAdopt;
    match v.rule
    case PipelineChildren =>
      ghost var news;
      next, g, s, news := FixPipelineChildren(v.node, nextId, root, f, r, f0, r0, start);
      MoreNodes(f, g, v.node, news);
    case StageParent =>
      next := nextId;
      n, g, s := FixStageParent(v.node, nextId, root, f, r, f0, r0, start);
    case PrivateMustExist =>
      next := nextId;
      n, g, s := FixPrivate(v.node, nextId, root, f, r, f0, r0, start);
  }

  lemma MoreNodes(f: Forest, g: Forest, p: TreeNode, news: set<TreeNode>)
    requires AllWrapped(f, g, p, news)
    ensures g.kids.Keys == f.kids.Keys + news
  {
  }

  lemma RunStarts(f: Forest, r: map<TreeNode, nat>, root: TreeNode, next: int)
    requires IsTree(f, r, root) && NoneHangs(f)
    ensures RunOk(f, r, f, r, root, next, next)
  {
    KeepsSelf(f, r, root, f.kids.Keys);
  }

  /** Fixes the first violation and looks for violations again, until there are none. All ends
      well: no rule is violated, every node is kept and is nested as it was in the nodes there
      were, and the new stages have new ids. */
  method FindAndFixViolations(root: TreeNode, ghost f: Forest, ghost r: map<TreeNode, nat>)
    returns (iterations: nat, ghost g: Forest, ghost s: map<TreeNode, nat>, ghost start: int, ghost next: int)
    requires Linked(f) && IsTree(f, r, root) && NoneHangs(f) && root.kind.Root?
    modifies f.kids.Keys
    ensures Linked(g) && IsTree(g, s, root) && fresh(g.kids.Keys - f.kids.Keys)
    ensures forall n :: n in g.kids ==> n in g.up && IsLegal(g, n)
    ensures Keeps(f, r, g, s, root, f.kids.Keys) && ParentsEnclose(f, g, s, root)
    ensures StagesBelow(f, start) && FreshIds(f, g, start, next)
    ensures iterations == 0 <==> forall n :: n in f.kids ==> n in f.up && IsLegal(f, n)
    ensures iterations == 0 ==> g == f
  {
    hide *;
    var nextId := NextStageId(root, f, r);
    start := nextId;
    RunStarts(f, r, root, nextId);
    var violations := CollectViolations(root, f, r);
    iterations, g, s := 0, f, r;
    while violations != []
      invariant Linked(g) && RunOk(f, r, g, s, root, start, nextId) && IsTree(g, s, root) && NoneHangs(g)
      invariant f.kids.Keys <= g.kids.Keys && fresh(g.kids.Keys - f.kids.Keys)
      invariant violations == [] <==> forall n :: n in g.kids ==> n in g.up && IsLegal(g, n)
      invariant forall v :: v in violations ==> v.node in g.kids && v.node in g.up && IsViolated(g, v.rule, v.node)
      invariant iterations == 0 ==> g == f
      invariant iterations > 0 ==> !forall n :: n in f.kids ==> n in f.up && IsLegal(f, n)
      decreases IllegalChildren(g), StrayStages(g), MissingPrivates(g)
    {
      assert violations[0] in violations;
      iterations := iterations + 1;
      nextId, g, s := FixViolation(violations[0], nextId, root, g, s, f, r, start);
      RunFacts(f, r, g, s, root, start, nextId);
      violations := CollectViolations(root, g, s);
    }
    next := nextId;
    RunEnds(f, r, g, s, root, start, next);
    KeepsMeansParentsEnclose(f, r, g, s, root);
  }

  lemma RunEnds(f: Forest, r: map<TreeNode, nat>, g: Forest, s: map<TreeNode, nat>, root: TreeNode, start: int,
                next: int)
    requires RunOk(f, r, g, s, root, start, next)
    ensures Keeps(f, r, g, s, root, f.kids.Keys) && FreshIds(f, g, start, next)
  {
  }
}
