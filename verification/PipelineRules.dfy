/** The rules of a legal pipeline tree, and how a node is put between another one and some of
    its children, which is what every fix of a violation does. */
module PipelineRules {
  import opened Wrappers
  import opened Digraph
  import opened OperationTree
  import opened TreeWalks
  import opened Sequences

  // ----- The rules

  predicate IsIllegal(c: TreeNode) {
    !c.kind.Private? && !c.kind.Stage?
  }

  /** A pipeline has private nodes and stages as children, and nothing else. */
  predicate ChildrenViolated(f: Forest, n: TreeNode)
    requires n in f.kids
  {
    n.kind.Pipeline? && exists c :: c in f.kids[n] && IsIllegal(c)
  }

  /** A stage is the child of a pipeline. */
  predicate ParentViolated(f: Forest, n: TreeNode)
    requires n in f.up
  {
    n.kind.Stage? && f.up[n] != null && !f.up[n].kind.Pipeline?
  }

  predicate IsDependent(c: TreeNode) {
    c.kind.Stage? && c.kind.hasDependencies
  }

  predicate StartsPrivate(cs: seq<TreeNode>) {
    cs != [] && cs[0].kind.Private?
  }

  /** A pipeline with a stage that has dependencies starts with a private node. */
  predicate PrivateViolated(f: Forest, n: TreeNode)
    requires n in f.kids
  {
    n.kind.Pipeline? && !StartsPrivate(f.kids[n]) && exists c :: c in f.kids[n] && IsDependent(c)
  }

  predicate IsLegal(f: Forest, n: TreeNode)
    requires n in f.kids && n in f.up
  {
    !ChildrenViolated(f, n) && !ParentViolated(f, n) && !PrivateViolated(f, n)
  }

  // ----- The scan for dependencies

  /** The scan for a dependent stage, from child i on, for so many rounds: it stays where it is
      at a child that is no stage. None if it goes on. */
  function Scan(cs: seq<TreeNode>, i: nat, rounds: nat): Option<bool>
    requires i <= |cs|
    decreases rounds
  {
    if i == |cs| then Some(false)
    else if rounds == 0 then None
    else if !cs[i].kind.Stage? then Scan(cs, i, rounds - 1)
    else if IsDependent(cs[i]) then Some(true)
    else Scan(cs, i + 1, rounds - 1)
  }

  /** A child that is no stage comes before the first stage with dependencies, or there is no
      such stage. */
  predicate Blocks(cs: seq<TreeNode>, i: nat) {
    i < |cs| && !cs[i].kind.Stage? && forall j :: 0 <= j < i ==> !IsDependent(cs[j])
  }

  /** The rule's check of a pipeline with these children does not end. */
  ghost predicate Hangs(cs: seq<TreeNode>) {
    !StartsPrivate(cs) && exists i: nat :: Blocks(cs, i)
  }

  lemma {:induction false} ScanStays(cs: seq<TreeNode>, i: nat, b: nat, rounds: nat)
    requires i <= b && Blocks(cs, b)
    ensures Scan(cs, i, rounds).None?
    decreases rounds
  {
    if rounds > 0 {
      if cs[i].kind.Stage? {
        ScanStays(cs, i + 1, b, rounds - 1);
      } else {
        ScanStays(cs, i, b, rounds - 1);
      }
    }
  }

  lemma {:induction false} ScanEnds(cs: seq<TreeNode>, i: nat)
    requires i <= |cs| && (forall j :: 0 <= j < i ==> !IsDependent(cs[j])) && forall b: nat :: !Blocks(cs, b)
    ensures Scan(cs, i, |cs| - i) == Some(exists c :: c in cs && IsDependent(c))
    decreases |cs| - i
  {
    if i < |cs| {
      assert !Blocks(cs, i);
      assert cs[i] in cs;
      if !IsDependent(cs[i]) {
        ScanEnds(cs, i + 1);
      }
    }
  }

  /** The scan ends, with the right answer, exactly when nothing blocks it. */
  lemma ScanEndsUnlessBlocked(cs: seq<TreeNode>)
    requires !StartsPrivate(cs)
    ensures (exists rounds: nat :: Scan(cs, 0, rounds).Some?) <==> !Hangs(cs)
    ensures !Hangs(cs) ==> Scan(cs, 0, |cs|) == Some(exists c :: c in cs && IsDependent(c))
  {
    if b: nat :| Blocks(cs, b) {
      forall rounds: nat ensures Scan(cs, 0, rounds).None? {
        ScanStays(cs, 0, b, rounds);
      }
    } else {
      ScanEnds(cs, 0);
    }
  }

  /** So the check hangs at every pipeline that starts with an illegal child. */
  lemma IllegalFirstChildHangs(cs: seq<TreeNode>)
    requires cs != [] && IsIllegal(cs[0])
    ensures Hangs(cs) && forall rounds: nat :: Scan(cs, 0, rounds).None?
  {
    assert Blocks(cs, 0);
    forall rounds: nat ensures Scan(cs, 0, rounds).None? {
      ScanStays(cs, 0, 0, rounds);
    }
  }

  // ----- What is left to fix

  ghost function IllegalChildren(f: Forest): set<TreeNode> {
    set c | c in f.up && f.up[c] != null && f.up[c].kind.Pipeline? && IsIllegal(c)
  }

  ghost function StrayStages(f: Forest): set<TreeNode> {
    set c | c in f.up && c.kind.Stage? && f.up[c] != null && !f.up[c].kind.Pipeline?
  }

  ghost function MissingPrivates(f: Forest): set<TreeNode> {
    set n | n in f.kids && PrivateViolated(f, n)
  }

  // ----- Lists

  /** The nodes that are not gone, in order. */
  function Minus(s: seq<TreeNode>, gone: set<TreeNode>): seq<TreeNode> {
    if s == [] then [] else (if s[0] in gone then [] else [s[0]]) + Minus(s[1..], gone)
  }

  lemma {:induction false} MinusHas(s: seq<TreeNode>, gone: set<TreeNode>)
    ensures forall x :: x in Minus(s, gone) <==> x in s && x !in gone
  {
    if s != [] {
      MinusHas(s[1..], gone);
      assert forall x :: x in s <==> x == s[0] || x in s[1..];
    }
  }

  lemma TailDistinct(s: seq<TreeNode>)
    requires Distinct(s) && s != []
    ensures Distinct(s[1..]) && s[0] !in s[1..]
  {
    forall i, j | 0 <= i < j < |s[1..]| ensures s[1..][i] != s[1..][j] {
      assert s[i + 1] != s[j + 1];
    }
    forall i | 0 <= i < |s[1..]| ensures s[1..][i] != s[0] {
      assert s[0] != s[i + 1];
    }
  }

  lemma {:induction false} MinusDistinct(s: seq<TreeNode>, gone: set<TreeNode>)
    requires Distinct(s)
    ensures Distinct(Minus(s, gone))
  {
    if s != [] {
      TailDistinct(s);
      MinusDistinct(s[1..], gone);
      MinusHas(s[1..], gone);
    }
  }

  lemma {:induction false} MinusSame(s: seq<TreeNode>, a: set<TreeNode>, b: set<TreeNode>)
    requires forall x :: x in s ==> (x in a <==> x in b)
    ensures Minus(s, a) == Minus(s, b)
  {
    if s != [] {
      MinusSame(s[1..], a, b);
    }
  }

  lemma {:induction false} MinusConcat(a: seq<TreeNode>, b: seq<TreeNode>, gone: set<TreeNode>)
    ensures Minus(a + b, gone) == Minus(a, gone) + Minus(b, gone)
  {
    if a == [] {
      assert a + b == b;
    } else {
      assert (a + b)[1..] == a[1..] + b;
      MinusConcat(a[1..], b, gone);
    }
  }

  /** Taking one more out. */
  lemma {:induction false} MinusStep(s: seq<TreeNode>, gone: set<TreeNode>, c: TreeNode)
    requires Distinct(s) && c in s && c !in gone
    ensures c in Minus(s, gone)
    ensures Without(Minus(s, gone), IndexOf(Minus(s, gone), c)) == Minus(s, gone + {c})
  {
    TailDistinct(s);
    hide Distinct;
    var rest := Minus(s[1..], gone);
    if s[0] == c {
      MinusSame(s[1..], gone, gone + {c});
      HeadOut(c, rest);
      assert Minus(s, gone) == [c] + rest;
    } else {
      MinusStep(s[1..], gone, c);
      hide Without, IndexOf;
      if s[0] in gone {
        assert Minus(s, gone) == [] + rest == rest;
        assert Minus(s, gone + {c}) == [] + Minus(s[1..], gone + {c});
      } else {
        IndexOfTail(s[0], rest, c);
      }
    }
  }

  lemma HeadOut(c: TreeNode, rest: seq<TreeNode>)
    ensures IndexOf([c] + rest, c) == 0 && Without([c] + rest, 0) == rest
  {
  }

  lemma IndexOfTail(x: TreeNode, rest: seq<TreeNode>, c: TreeNode)
    requires x != c && c in rest
    ensures c in [x] + rest && IndexOf([x] + rest, c) == IndexOf(rest, c) + 1
    ensures Without([x] + rest, IndexOf(rest, c) + 1) == [x] + Without(rest, IndexOf(rest, c))
  {
    assert ([x] + rest)[1..] == rest;
  }

  lemma {:induction false} MinusNothing(s: seq<TreeNode>, gone: set<TreeNode>)
    requires forall x :: x in s ==> x !in gone
    ensures Minus(s, gone) == s
  {
    if s != [] {
      MinusNothing(s[1..], gone);
    }
  }

  lemma {:induction false} MinusAll(s: seq<TreeNode>, gone: set<TreeNode>)
    requires forall x :: x in s ==> x in gone
    ensures Minus(s, gone) == []
  {
    if s != [] {
      MinusAll(s[1..], gone);
    }
  }

  /** A part of a list is taken out of it. */
  lemma MinusPart(s: seq<TreeNode>, a: nat, b: nat)
    requires Distinct(s) && a <= b <= |s|
    ensures Minus(s, Elems(s[a..b])) == s[..a] + s[b..]
  {
    InThree(s, a, b);
    PartsApart(s, a, b);
    hide Distinct, Minus, Elems;
    MinusMiddle(s[..a], s[a..b], s[b..]);
  }

  lemma MinusMiddle(x: seq<TreeNode>, y: seq<TreeNode>, z: seq<TreeNode>)
    requires forall v :: v in x || v in z ==> v !in Elems(y)
    ensures Minus(x + (y + z), Elems(y)) == x + z
  {
    var gone := Elems(y);
    MinusNothing(x, gone);
    MinusNothing(z, gone);
    MinusAll(y, gone);
    MinusConcat(x, y + z, gone);
    MinusConcat(y, z, gone);
    hide Elems, Minus;
    assert Minus(y + z, gone) == z by {
      EmptyFront(z);
    }
  }

  lemma PartsApart(s: seq<TreeNode>, a: nat, b: nat)
    requires Distinct(s) && a <= b <= |s|
    ensures forall x :: x in s[..a] || x in s[b..] ==> x !in Elems(s[a..b])
  {
    forall i, j | 0 <= i < |s| && (i < a || i >= b) && 0 <= j < b - a ensures s[i] != s[a..b][j] {
      assert s[a..b][j] == s[a + j];
    }
    forall x | x in s[..a] || x in s[b..] ensures x !in Elems(s[a..b]) {
      var i :| 0 <= i < |s| && s[i] == x && (i < a || i >= b);
    }
  }

  // ----- A new node between a node and some of its children

  function AddNode(f: Forest, n: TreeNode): Forest {
    Forest(f.kids[n := []], f.up[n := null])
  }

  function MoveAll(f: Forest, p: TreeNode, group: seq<TreeNode>, n: TreeNode): Forest
    requires p in f.kids && n in f.kids
  {
    Forest(f.kids[p := Minus(f.kids[p], Elems(group))][n := f.kids[n] + group],
           map c | c in f.up :: if c in group then n else f.up[c])
  }

  /** The new node n is child k of p, and has the group as its children. */
  function Adopt(f: Forest, p: TreeNode, group: seq<TreeNode>, n: TreeNode, k: nat): Forest
    requires p in f.kids && k <= |Minus(f.kids[p], Elems(group))|
  {
    Forest(f.kids[p := InsertAt(Minus(f.kids[p], Elems(group)), k, n)][n := group],
           (map c | c in f.up :: if c in group then n else f.up[c])[n := p])
  }

  predicate CanAdopt(f: Forest, p: TreeNode, group: seq<TreeNode>, n: TreeNode, k: nat) {
    && IsForest(f) && p in f.kids && n !in f.kids && Distinct(group) && (forall c :: c in group ==> c in f.kids[p])
    && k <= |Minus(f.kids[p], Elems(group))|
  }

  function NewRank(rank: map<TreeNode, nat>, p: TreeNode, n: TreeNode): map<TreeNode, nat>
    requires p in rank
  {
    (map x | x in rank :: 2 * rank[x] + 1)[n := 2 * rank[p]]
  }

  lemma AdoptIsRanked(f: Forest, rank: map<TreeNode, nat>, p: TreeNode, group: seq<TreeNode>, n: TreeNode, k: nat)
    requires CanAdopt(f, p, group, n, k) && IsRanked(f, rank)
    ensures IsRanked(Adopt(f, p, group, n, k), NewRank(rank, p, n))
  {
    var g, r := Adopt(f, p, group, n, k), NewRank(rank, p, n);
    MinusHas(f.kids[p], Elems(group));
    forall m, c | m in g.kids && c in g.kids[m] ensures c in r && r[c] < r[m] {
      if m == n {
        assert c in f.kids[p];
      } else if m == p {
        assert g.kids[m] == InsertAt(Minus(f.kids[p], Elems(group)), k, n);
        InsertedHas(Minus(f.kids[p], Elems(group)), k, n, c);
        if c != n {
          ChildIsOld(f, p, c);
        }
      } else {
        assert c in f.kids[m];
        ChildIsOld(f, m, c);
      }
    }
  }

  lemma InsertedHas(s: seq<TreeNode>, k: nat, n: TreeNode, x: TreeNode)
    requires k <= |s|
    ensures x in InsertAt(s, k, n) <==> x == n || x in s
  {
    assert s == s[..k] + s[k..];
  }

  lemma ChildIsOld(f: Forest, m: TreeNode, c: TreeNode)
    requires IsForest(f) && m in f.kids && c in f.kids[m]
    ensures c in f.kids && c in f.up && f.up[c] == m
  {
    assert IsListed(f, m);
  }

  lemma AdoptIsTree(f: Forest, rank: map<TreeNode, nat>, root: TreeNode, p: TreeNode, group: seq<TreeNode>,
                    n: TreeNode, k: nat)
    requires CanAdopt(f, p, group, n, k) && IsTree(f, rank, root) && IsForest(Adopt(f, p, group, n, k))
    ensures IsTree(Adopt(f, p, group, n, k), NewRank(rank, p, n), root)
  {
    AdoptIsRanked(f, rank, p, group, n, k);
    var g, r := Adopt(f, p, group, n, k), NewRank(rank, p, n);
    assert root !in group by {
      if root in group {
        ChildIsOld(f, p, root);
      }
    }
    hide IsForest, IsRanked, InsertAt;
    forall m | m in g.kids ensures r[m] <= r[root] && (m != root ==> g.up[m] != null) {
    }
  }
}
