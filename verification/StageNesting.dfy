/** The other two rules' fixes: stages below a node that is no pipeline move to a pipeline of
    their own, and a pipeline gets a private node. */
module StageNesting {
  import opened Digraph
  import opened OperationTree
  import opened PipelineRules
  import opened PipelineChanges
  import opened NodeMoves
  import opened Sequences

  // ----- The stages among the children

  function StagesIn(s: seq<TreeNode>): seq<TreeNode> {
    if s == [] then [] else (if s[0].kind.Stage? then [s[0]] else []) + StagesIn(s[1..])
  }

  lemma {:induction false} StagesInHas(s: seq<TreeNode>)
    ensures forall x :: x in StagesIn(s) <==> x in s && x.kind.Stage?
  {
    if s != [] {
      StagesInHas(s[1..]);
      assert forall x :: x in s <==> x == s[0] || x in s[1..];
    }
  }

  lemma {:induction false} StagesInDistinct(s: seq<TreeNode>)
    requires Distinct(s)
    ensures Distinct(StagesIn(s))
  {
    if s != [] {
      TailDistinct(s);
      StagesInDistinct(s[1..]);
      StagesInHas(s[1..]);
    }
  }

  /** The first stage stands behind children that are none. */
  lemma {:induction false} FirstStage(s: seq<TreeNode>)
    requires Distinct(s) && StagesIn(s) != []
    ensures StagesIn(s)[0] in s && StagesIn(s)[0].kind.Stage?
    ensures var a := IndexOf(s, StagesIn(s)[0]); forall i :: 0 <= i < a ==> !s[i].kind.Stage?
  {
    if !s[0].kind.Stage? {
      TailDistinct(s);
      FirstStage(s[1..]);
      EmptyFront(StagesIn(s[1..]));
      assert forall i :: 0 < i < |s| ==> s[i] == s[1..][i - 1];
    }
  }

  /** And the stages are in the order in which they stand. */
  lemma {:induction false} StagesInOrder(s: seq<TreeNode>, i: nat, j: nat) returns (a: nat, b: nat)
    requires i < j < |StagesIn(s)|
    ensures a < b < |s| && s[a] == StagesIn(s)[i] && s[b] == StagesIn(s)[j]
  {
    var rest := StagesIn(s[1..]);
    if !s[0].kind.Stage? {
      EmptyFront(rest);
      a, b := StagesInOrder(s[1..], i, j);
      a, b := a + 1, b + 1;
    } else if i > 0 {
      a, b := StagesInOrder(s[1..], i - 1, j - 1);
      a, b := a + 1, b + 1;
    } else {
      b := StageAt(s[1..], j - 1);
      a, b := 0, b + 1;
    }
  }

  lemma {:induction false} StageAt(s: seq<TreeNode>, j: nat) returns (b: nat)
    requires j < |StagesIn(s)|
    ensures b < |s| && s[b] == StagesIn(s)[j]
  {
    if s[0].kind.Stage? && j == 0 {
      b := 0;
    } else {
      b := StageAt(s[1..], if s[0].kind.Stage? then j - 1 else j);
      b := b + 1;
    }
  }

  method CollectStages(p: TreeNode, ghost f: Forest) returns (stages: seq<TreeNode>)
    requires p.IsIn(f)
    ensures stages == StagesIn(f.kids[p])
  {
    ghost var s := f.kids[p];
    p.Follow(f, 0);
    hide Linked;
    stages := [];
    var child := p.firstChild;
    ghost var i: nat := 0;
    assert s[0..] == s;
    EmptyFront(StagesIn(s));
    while child != null
      invariant i <= |s| && child == (if i < |s| then s[i] else null)
      invariant StagesIn(s) == stages + StagesIn(s[i..])
      decreases |s| - i
    {
      p.Follow(f, i);
      assert s[i..][0] == s[i] && s[i..][1..] == s[i + 1..];
      if child.kind.Stage? {
        Reassociate(stages, [child], StagesIn(s[i + 1..]));
        stages := stages + [child];
      } else {
        EmptyFront(StagesIn(s[i + 1..]));
      }
      i := i + 1;
      child := child.nextSibling;
    }
    EmptyBehind(stages);
  }

  // ----- A pipeline for the stages

  /** Where the new pipeline is put while the stages are still there: behind the child in front
      of the first stage, and at the end if there is none. */
  function NestPlace(s: seq<TreeNode>): (k: nat)
    requires StagesIn(s) != [] && StagesIn(s)[0] in s
    ensures k <= |s|
  {
    var a := IndexOf(s, StagesIn(s)[0]);
    if a == 0 then |s| else a
  }

  /** And where it is once they are gone. */
  function NestedPlace(s: seq<TreeNode>): nat
    requires StagesIn(s) != [] && StagesIn(s)[0] in s
  {
    |Minus(s[..NestPlace(s)], Elems(StagesIn(s)))|
  }

  lemma MinusAround(s: seq<TreeNode>, k: nat, n: TreeNode, gone: set<TreeNode>)
    requires k <= |s| && n !in gone
    ensures |Minus(s[..k], gone)| <= |Minus(s, gone)|
    ensures Minus(InsertAt(s, k, n), gone) == InsertAt(Minus(s, gone), |Minus(s[..k], gone)|, n)
  {
    var x, z := s[..k], s[k..];
    MinusConcat(x, z, gone);
    MinusConcat(x + [n], z, gone);
    MinusConcat(x, [n], gone);
    MinusSingle(n, gone);
    assert s == x + z && InsertAt(s, k, n) == (x + [n]) + z;
    hide Minus;
    InsertBetween(Minus(x, gone), Minus(z, gone), n);
  }

  lemma MinusSingle(n: TreeNode, gone: set<TreeNode>)
    requires n !in gone
    ensures Minus([n], gone) == [n]
  {
    EmptyBehind([n]);
  }

  /** Putting the new node below p first and then moving the children to it. */
  lemma AttachThenMove(f: Forest, p: TreeNode, group: seq<TreeNode>, n: TreeNode, k: nat)
    requires IsForest(f) && p in f.kids && n !in f.kids && k <= |f.kids[p]| && n !in group
    ensures p in AddNode(f, n).kids && p != n && k <= |AddNode(f, n).kids[p]|
    ensures var h, place := Attach(AddNode(f, n), p, k, n), |Minus(f.kids[p][..k], Elems(group))|;
            && n in h.kids && p in h.kids && place <= |Minus(f.kids[p], Elems(group))|
            && MoveAll(h, p, group, n) == Adopt(f, p, group, n, place)
  {
    MinusAround(f.kids[p], k, n, Elems(group));
    hide Minus, InsertAt, Elems, IsForest;
    EmptyFront(group);
    var cs := f.kids[p];
    var rest, place := Minus(cs, Elems(group)), |Minus(cs[..k], Elems(group))|;
    MapUpdates(f.kids, n, p, [], InsertAt(cs, k, n), InsertAt(rest, place, n), group);
    UpsUpdates(f.up, group, n, p);
  }

  lemma MapUpdates<K, V>(m: map<K, V>, n: K, p: K, e: V, x: V, y: V, z: V)
    requires n != p
    ensures m[n := e][p := x][p := y][n := z] == m[p := y][n := z]
  {
  }

  lemma UpsUpdates(up: map<TreeNode, TreeNode?>, group: seq<TreeNode>, n: TreeNode, p: TreeNode)
    requires n !in group
    ensures var added := up[n := null][n := p];
            (map c | c in added :: if c in group then n else added[c])
                == (map c | c in up :: if c in group then n else up[c])[n := p]
  {
  }

  lemma NestFacts(f: Forest, p: TreeNode, n: TreeNode)
    requires IsForest(f) && p in f.kids && n !in f.kids && StagesIn(f.kids[p]) != [] && n.kind.Pipeline?
    ensures var cs := f.kids[p];
            && StagesIn(cs)[0] in cs && CanAdopt(f, p, StagesIn(cs), n, NestedPlace(cs))
    ensures !p.kind.Pipeline? ==> IsNest(f, p, StagesIn(f.kids[p]), n)
  {
    var cs := f.kids[p];
    assert IsListed(f, p);
    StagesInHas(cs);
    StagesInDistinct(cs);
    FirstStage(cs);
    assert n !in StagesIn(cs);
    MinusAround(cs, NestPlace(cs), n, Elems(StagesIn(cs)));
  }

  /** The pipeline takes the place of the first stage, exactly if that is not the first child or
      all children are stages: otherwise the other children now come before the stages. */
  lemma NestsInPlace(f: Forest, p: TreeNode, n: TreeNode)
    requires IsForest(f) && p in f.kids && n !in f.kids && StagesIn(f.kids[p]) != [] && n.kind.Pipeline?
    ensures var cs := f.kids[p];
            && StagesIn(cs)[0] in cs && CanAdopt(f, p, StagesIn(cs), n, NestedPlace(cs))
            && var after := Adopt(f, p, StagesIn(cs), n, NestedPlace(cs)).kids[p];
               && n in after
               && (IndexOf(after, n) == IndexOf(cs, StagesIn(cs)[0]) <==>
                     !cs[0].kind.Stage? || forall c :: c in cs ==> c.kind.Stage?)
  {
    var cs := f.kids[p];
    NestFacts(f, p, n);
    AdoptedLists(f, p, StagesIn(cs), n, NestedPlace(cs));
    PlaceIsSame(cs);
    var rest, k := Minus(cs, Elems(StagesIn(cs))), NestedPlace(cs);
    assert n !in rest by {
      MinusHas(cs, Elems(StagesIn(cs)));
      NotBelow(f, p, n);
    }
    IndexOfInserted(rest, k, n);
    hide *;
  }

  lemma NotBelow(f: Forest, p: TreeNode, n: TreeNode)
    requires IsForest(f) && p in f.kids && n !in f.kids
    ensures n !in f.kids[p]
  {
    assert IsListed(f, p);
  }

  lemma PlaceIsSame(cs: seq<TreeNode>)
    requires Distinct(cs) && StagesIn(cs) != []
    ensures StagesIn(cs)[0] in cs
    ensures NestedPlace(cs) == IndexOf(cs, StagesIn(cs)[0]) <==>
              !cs[0].kind.Stage? || forall c :: c in cs ==> c.kind.Stage?
  {
    FirstStage(cs);
    OnlyStages(cs);
    var gone, a := Elems(StagesIn(cs)), IndexOf(cs, StagesIn(cs)[0]);
    if a == 0 {
      hide StagesIn, Minus, IndexOf, Distinct;
      assert cs[..|cs|] == cs;
    } else {
      assert forall x :: x in StagesIn(cs) ==> x.kind.Stage? by {
        StagesInHas(cs);
      }
      hide StagesIn, Minus, IndexOf, Distinct;
      assert forall x :: x in cs[..a] ==> !x.kind.Stage?;
      MinusNothing(cs[..a], gone);
    }
  }

  lemma OnlyStages(cs: seq<TreeNode>)
    requires StagesIn(cs) != []
    ensures StagesIn(cs)[0] in cs && StagesIn(cs)[0].kind.Stage?
    ensures |Minus(cs, Elems(StagesIn(cs)))| == 0 <==> forall c :: c in cs ==> c.kind.Stage?
  {
    StagesInHas(cs);
    MinusHas(cs, Elems(StagesIn(cs)));
    assert StagesIn(cs)[0] in StagesIn(cs);
    var gone := Elems(StagesIn(cs));
    if forall c :: c in cs ==> c.kind.Stage? {
      MinusAll(cs, gone);
    } else {
      var c :| c in cs && !c.kind.Stage?;
      assert c in Minus(cs, gone);
    }
  }

  lemma {:induction false} IndexOfInserted(s: seq<TreeNode>, k: nat, n: TreeNode)
    requires k <= |s| && n !in s
    ensures n in InsertAt(s, k, n) && IndexOf(InsertAt(s, k, n), n) == k
    decreases k
  {
    var t := InsertAt(s, k, n);
    assert t[k] == n;
    if k > 0 {
      assert t[1..] == InsertAt(s[1..], k - 1, n) && t[0] == s[0];
      IndexOfInserted(s[1..], k - 1, n);
    }
  }

  lemma InFrontOfFirst(cs: seq<TreeNode>)
    requires Distinct(cs) && StagesIn(cs) != [] && StagesIn(cs)[0] in cs
    ensures var prev := if IndexOf(cs, StagesIn(cs)[0]) == 0 then null else cs[IndexOf(cs, StagesIn(cs)[0]) - 1];
            (prev != null ==> prev in cs) && PlaceAfter(cs, prev) == NestPlace(cs)
  {
    var a := IndexOf(cs, StagesIn(cs)[0]);
    if a > 0 {
      IndexIs(cs, a - 1);
    }
  }

  /** What the fix relies on. */
  lemma NestPlan(f: Forest, p: TreeNode, n: TreeNode)
    requires IsForest(f) && Linked(AddNode(f, n)) && n !in f.kids && p in f.kids && StagesIn(f.kids[p]) != []
             && n.kind.Pipeline?
    ensures var cs, group := f.kids[p], StagesIn(f.kids[p]);
            && group[0] in cs && CanAdopt(f, p, group, n, NestedPlace(cs))
            && Distinct(group) && n !in group && p != n
            && var f1 := AddNode(f, n);
               && p.IsIn(f1) && f1.kids.Keys == f.kids.Keys + {n} && n in f1.up && f1.up[n] == null && f1.kids[p] == cs
               && group[0].IsIn(f1) && group[0] in f1.up && f1.up[group[0]] == p
               && NestPlace(cs) <= |cs|
               && (var prev := if IndexOf(cs, group[0]) == 0 then null else cs[IndexOf(cs, group[0]) - 1];
                   (prev != null ==> prev in cs) && PlaceAfter(cs, prev) == NestPlace(cs))
               && var h := Attach(f1, p, NestPlace(cs), n);
                  && h.kids.Keys == f1.kids.Keys && n in h.kids && p in h.kids
                     && (forall c :: c in group ==> c in h.kids[p])
                  && MoveAll(h, p, group, n) == Adopt(f, p, group, n, NestedPlace(cs))
  {
    var cs, group := f.kids[p], StagesIn(f.kids[p]);
    NestFacts(f, p, n);
    NestGroup(f, p, group, n, NestedPlace(cs));
    AttachThenMove(f, p, group, n, NestPlace(cs));
    InFrontOfFirst(cs);
    AttachedBelow(AddNode(f, n), p, NestPlace(cs), n);
    hide IsForest, StagesIn, IndexOf, InsertAt, Minus, MoveAll, Adopt, NestPlace, NestedPlace, PlaceAfter, Distinct,
        Linked, Attach;
  }

  lemma NestGroup(f: Forest, p: TreeNode, group: seq<TreeNode>, n: TreeNode, k: nat)
    requires CanAdopt(f, p, group, n, k) && Linked(AddNode(f, n)) && group != []
    ensures var cs, f1 := f.kids[p], AddNode(f, n);
            && Distinct(cs) && Distinct(group) && n !in group && p != n && group[0] in cs
            && (forall c :: c in group ==> c in cs)
            && p.IsIn(f1) && f1.kids.Keys == f.kids.Keys + {n} && n in f1.up && f1.up[n] == null && f1.kids[p] == cs
            && group[0].IsIn(f1) && group[0] in f1.up && f1.up[group[0]] == p
  {
    assert IsListed(f, p) && group[0] in group;
    hide Linked, Minus;
  }

  /** The children stay where they are, among more. */
  lemma AttachedBelow(f: Forest, p: TreeNode, k: nat, n: TreeNode)
    requires p in f.kids && k <= |f.kids[p]|
    ensures var h := Attach(f, p, k, n);
            h.kids.Keys == f.kids.Keys && p in h.kids && forall c :: c in f.kids[p] ==> c in h.kids[p]
  {
    forall c | c in f.kids[p] ensures c in InsertAt(f.kids[p], k, n) {
      InsertedHas(f.kids[p], k, n, c);
    }
    hide InsertAt;
  }

  /** Moves all stages below p to a new pipeline. */
  method NestStages(p: TreeNode, ghost f: Forest) returns (n: TreeNode, ghost g: Forest)
    requires Linked(f) && p in f.kids && StagesIn(f.kids[p]) != []
    modifies f.kids.Keys
    ensures fresh(n) && n.kind == Pipeline && n !in f.kids
    ensures var cs := f.kids[p];
            && StagesIn(cs)[0] in cs && CanAdopt(f, p, StagesIn(cs), n, NestedPlace(cs))
               && g == Adopt(f, p, StagesIn(cs), n, NestedPlace(cs))
    ensures Linked(g)
  {
    hide *;
    Basics(f);
    ghost var f1;
    n, f1 := NewNode(Pipeline, f);
    NestPlan(f, p, n);
    var stages := CollectStages(p, f1);
    var prev := stages[0].GetPrevSibling(f1);
    ghost var f2 := p.InsertChildNode(n, prev, f1);
    g := MoveUnder(stages, n, f2, p);
  }

  // ----- The fixes

  lemma NestRun(f0: Forest, r0: map<TreeNode, nat>, f: Forest, r: map<TreeNode, nat>, root: TreeNode, start: int,
                next: int,
                p: TreeNode, group: seq<TreeNode>, n: TreeNode, k: nat)
    requires RunOk(f0, r0, f, r, root, start, next) && p in f.kids && n.kind.Pipeline?
    requires CanAdopt(f, p, group, n, k) && IsForest(Adopt(f, p, group, n, k)) && IsNest(f, p, group, n)
    ensures var g := Adopt(f, p, group, n, k);
            && p in r && RunOk(f0, r0, g, NewRank(r, p, n), root, start, next)
            && IllegalChildren(g) == IllegalChildren(f) && StrayStages(g) < StrayStages(f)
  {
    NestLeavesFewer(f, p, group, n, k);
    NoneHangsAfterNest(f, p, group, n, k) by {
      RunFacts(f0, r0, f, r, root, start, next);
    }
    hide *;
    RunAdopt(f0, r0, f, r, root, start, next, p, group, n, k);
  }

  lemma NoneHangsAfterNest(f: Forest, p: TreeNode, group: seq<TreeNode>, n: TreeNode, k: nat)
    requires NoneHangs(f) && p in f.kids && CanAdopt(f, p, group, n, k) && IsNest(f, p, group, n)
    ensures NoneHangs(Adopt(f, p, group, n, k))
  {
    AdoptedLists(f, p, group, n, k);
    StagesDoNotHang(group);
    hide Adopt, CanAdopt, Hangs;
  }

  /** Moves the stage, and all stages beside it, to a new pipeline. */
  method FixStageParent(stage: TreeNode, ghost next: int, ghost root: TreeNode, ghost f: Forest,
                        ghost r: map<TreeNode, nat>,
                        ghost f0: Forest, ghost r0: map<TreeNode, nat>, ghost start: int)
    returns (ghost n: TreeNode, ghost g: Forest, ghost s: map<TreeNode, nat>)
    requires Linked(f) && RunOk(f0, r0, f, r, root, start, next) && stage in f.up && ParentViolated(f, stage)
    modifies f.kids.Keys
    ensures var p := f.up[stage];
            && p in f.kids && fresh(n) && n.kind == Pipeline
            && var cs := f.kids[p];
               && StagesIn(cs) != [] && StagesIn(cs)[0] in cs && CanAdopt(f, p, StagesIn(cs), n, NestedPlace(cs))
               && g == Adopt(f, p, StagesIn(cs), n, NestedPlace(cs))
    ensures Linked(g) && RunOk(f0, r0, g, s, root, start, next) && g.kids.Keys == f.kids.Keys + {n}
    ensures IllegalChildren(g) == IllegalChildren(f) && StrayStages(g) < StrayStages(f)
  {
    StrayFacts(f, stage);
    hide *;
    var p := stage.parent;
    n, g := NestStages(p, f);
    Basics(g);
    NestsAll(f, p, n);
    NestRun(f0, r0, f, r, root, start, next, p, StagesIn(f.kids[p]), n, NestedPlace(f.kids[p]));
    s := NewRank(r, p, n);
  }

  lemma StrayFacts(f: Forest, stage: TreeNode)
    requires Linked(f) && stage in f.up && ParentViolated(f, stage)
    ensures stage.parent == f.up[stage] && f.up[stage] != null && f.up[stage] in f.kids && !f.up[stage].kind.Pipeline?
    ensures StagesIn(f.kids[f.up[stage]]) != []
  {
    stage.Follow(f, 0);
    assert IsPlaced(f, stage);
    StagesInHas(f.kids[f.up[stage]]);
  }

  lemma NestsAll(f: Forest, p: TreeNode, n: TreeNode)
    requires p in f.kids && StagesIn(f.kids[p]) != [] && StagesIn(f.kids[p])[0] in f.kids[p] && !p.kind.Pipeline?
             && n.kind.Pipeline?
    requires CanAdopt(f, p, StagesIn(f.kids[p]), n, NestedPlace(f.kids[p]))
    ensures IsNest(f, p, StagesIn(f.kids[p]), n)
    ensures Adopt(f, p, StagesIn(f.kids[p]), n, NestedPlace(f.kids[p])).kids.Keys == f.kids.Keys + {n}
  {
    StagesInHas(f.kids[p]);
    AdoptedLists(f, p, StagesIn(f.kids[p]), n, NestedPlace(f.kids[p]));
  }

  /** A new private node in front of the children of a pipeline. */
  lemma PrivatePlan(f: Forest, p: TreeNode, n: TreeNode)
    requires IsForest(f) && Linked(AddNode(f, n)) && n !in f.kids && p in f.kids
    ensures CanAdopt(f, p, [], n, 0) && p != n
    ensures var f1 := AddNode(f, n);
            && p.IsIn(f1) && f1.kids.Keys == f.kids.Keys + {n} && n in f1.up && f1.up[n] == null
            && Attach(f1, p, 0, n) == Adopt(f, p, [], n, 0)
    ensures Adopt(f, p, [], n, 0).kids.Keys == f.kids.Keys + {n}
  {
    assert Elems<TreeNode>([]) == {};
    MinusNothing(f.kids[p], {});
    var cs := f.kids[p];
    hide Minus, InsertAt, Linked, Elems;
    assert AddNode(f, n).kids[p] == cs;
    TwoUpdates(f.kids, n, p, [], InsertAt(cs, 0, n));
    UpsUpdates(f.up, [], n, p);
    NoneMoved(f.up[n := null], n);
  }

  lemma TwoUpdates<K, V>(m: map<K, V>, n: K, p: K, e: V, x: V)
    requires n != p
    ensures m[n := e][p := x] == m[p := x][n := e]
  {
  }

  lemma NoneMoved(up: map<TreeNode, TreeNode?>, n: TreeNode)
    ensures (map c | c in up :: if c in [] then n else up[c]) == up
  {
  }

  lemma PrivateRun(f0: Forest, r0: map<TreeNode, nat>, f: Forest, r: map<TreeNode, nat>, root: TreeNode, start: int,
                   next: int,
                   p: TreeNode, n: TreeNode)
    requires RunOk(f0, r0, f, r, root, start, next) && p in f.kids && PrivateViolated(f, p) && n.kind.Private?
    requires CanAdopt(f, p, [], n, 0) && IsForest(Adopt(f, p, [], n, 0))
    ensures var g := Adopt(f, p, [], n, 0);
            && p in r && RunOk(f0, r0, g, NewRank(r, p, n), root, start, next) && g.kids[p] == [n] + f.kids[p]
            && IllegalChildren(g) == IllegalChildren(f) && StrayStages(g) == StrayStages(f)
               && MissingPrivates(g) < MissingPrivates(f)
  {
    PrivateLeavesFewer(f, p, n);
    NoneHangsAfterPrivate(f, p, n) by {
      RunFacts(f0, r0, f, r, root, start, next);
    }
    hide *;
    RunAdopt(f0, r0, f, r, root, start, next, p, [], n, 0);
  }

  lemma NoneHangsAfterPrivate(f: Forest, p: TreeNode, n: TreeNode)
    requires NoneHangs(f) && p in f.kids && CanAdopt(f, p, [], n, 0) && n.kind.Private?
             && Adopt(f, p, [], n, 0).kids[p] == [n] + f.kids[p]
    ensures NoneHangs(Adopt(f, p, [], n, 0))
  {
    AdoptedLists(f, p, [], n, 0);
    PrivateDoesNotHang([n] + f.kids[p]);
    hide Adopt, CanAdopt, Hangs;
  }

  /** Gives the pipeline a private node as its first child. */
  method FixPrivate(p: TreeNode, ghost next: int, ghost root: TreeNode, ghost f: Forest, ghost r: map<TreeNode, nat>,
                    ghost f0: Forest, ghost r0: map<TreeNode, nat>, ghost start: int)
    returns (ghost n: TreeNode, ghost g: Forest, ghost s: map<TreeNode, nat>)
    requires Linked(f) && RunOk(f0, r0, f, r, root, start, next) && p in f.kids && PrivateViolated(f, p)
    modifies f.kids.Keys
    ensures fresh(n) && n.kind == Private && CanAdopt(f, p, [], n, 0) && g == Adopt(f, p, [], n, 0)
    ensures Linked(g) && RunOk(f0, r0, g, s, root, start, next) && g.kids.Keys == f.kids.Keys + {n}
    ensures p in g.kids && g.kids[p] == [n] + f.kids[p]
    ensures IllegalChildren(g) == IllegalChildren(f) && StrayStages(g) == StrayStages(f)
            && MissingPrivates(g) < MissingPrivates(f)
  {
    hide *;
    Basics(f);
    ghost var f1;
    var private;
    private, f1 := NewNode(Private, f);
    n := private;
    PrivatePlan(f, p, n);
    g := p.InsertAsFirstChild(private, f1);
    Basics(g);
    PrivateRun(f0, r0, f, r, root, start, next, p, n);
    s := NewRank(r, p, n);
  }
}
