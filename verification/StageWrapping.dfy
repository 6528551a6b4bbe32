/** The first rule's fix: groups of illegal children of a pipeline are wrapped in stages. */
module StageWrapping {
  import opened Digraph
  import opened OperationTree
  import opened PipelineRules
  import opened PipelineChanges
  import opened NodeMoves
  import opened Sequences

  // ----- Wrapping illegal children in a stage

  lemma PartOf(s: seq<TreeNode>, a: nat, b: nat)
    requires Distinct(s) && a <= b <= |s|
    ensures Distinct(s[a..b]) && forall c :: c in s[a..b] ==> c in s
  {
  }

  /** Moving children to a new node and then putting that below their old parent. */
  lemma MoveThenAttach(f: Forest, p: TreeNode, group: seq<TreeNode>, n: TreeNode, k: nat)
    requires CanAdopt(f, p, group, n, k) && n !in group
    ensures p in AddNode(f, n).kids && p != n
    ensures var h := MoveAll(AddNode(f, n), p, group, n);
            && h.kids.Keys == f.kids.Keys + {n} && h.kids[p] == Minus(f.kids[p], Elems(group)) && n in h.up
               && h.up[n] == null
            && Attach(h, p, k, n) == Adopt(f, p, group, n, k)
  {
    hide Minus, Distinct, InsertAt, Elems, IsForest;
    var h, rest := MoveAll(AddNode(f, n), p, group, n), Minus(f.kids[p], Elems(group));
    EmptyFront(group);
    ReorderUpdates(f.kids, n, p, [], rest, group, InsertAt(rest, k, n));
    SameUps(f.up, group, n, p);
  }

  lemma ReorderUpdates<K, V>(m: map<K, V>, n: K, p: K, e: V, x: V, y: V, z: V)
    requires n != p
    ensures m[n := e][p := x][n := y][p := z] == m[p := z][n := y]
  {
  }

  lemma SameUps(up: map<TreeNode, TreeNode?>, group: seq<TreeNode>, n: TreeNode, p: TreeNode)
    requires n !in group
    ensures var added := up[n := null];
            (map c | c in added :: if c in group then n else added[c])[n := p]
                == (map c | c in up :: if c in group then n else up[c])[n := p]
  {
  }

  /** Elements a to b are replaced by the one node n. */
  function Replaced<T>(s: seq<T>, a: nat, b: nat, n: T): seq<T>
    requires a <= b <= |s|
  {
    s[..a] + [n] + s[b..]
  }

  predicate IsPart<T(==)>(s: seq<T>, a: nat, part: seq<T>) {
    a + |part| <= |s| && part == s[a..a + |part|]
  }

  lemma WrapLists(cs: seq<TreeNode>, a: nat, group: seq<TreeNode>, n: TreeNode)
    requires Distinct(cs) && 0 < a && group != [] && IsPart(cs, a, group)
    ensures a + |group| <= |cs|
    ensures var rest := Minus(cs, Elems(group));
            && a <= |rest| && cs[a - 1] in rest && PlaceAfter(rest, cs[a - 1]) == a
            && InsertAt(rest, a, n) == Replaced(cs, a, a + |group|, n)
  {
    var b := a + |group|;
    MinusPart(cs, a, b);
    FrontDistinct(cs, a);
    var x, z := cs[..a], cs[b..];
    assert Minus(cs, Elems(group)) == x + z && Replaced(cs, a, b, n) == x + [n] + z;
    hide *;
    WrapBetween(x, z, cs[a - 1], n);
  }

  lemma FrontDistinct(s: seq<TreeNode>, a: nat)
    requires Distinct(s) && 0 < a <= |s|
    ensures Distinct(s[..a]) && s[..a] != [] && s[a - 1] == s[..a][|s[..a]| - 1]
  {
  }

  lemma WrapBetween(x: seq<TreeNode>, z: seq<TreeNode>, last: TreeNode, n: TreeNode)
    requires Distinct(x) && x != [] && last == x[|x| - 1]
    ensures last in x + z && PlaceAfter(x + z, last) == |x| && InsertAt(x + z, |x|, n) == x + [n] + z
  {
    IndexInFront(x, z, |x| - 1);
    InsertBetween(x, z, n);
    hide IndexOf, Distinct, InsertAt;
  }

  lemma IndexInFront(x: seq<TreeNode>, z: seq<TreeNode>, k: nat)
    requires Distinct(x) && k < |x|
    ensures x[k] in x + z && IndexOf(x + z, x[k]) == k
    decreases k
  {
    if k > 0 {
      TailDistinct(x);
      assert (x + z)[1..] == x[1..] + z && x[1..][k - 1] == x[k] && x[0] != x[k];
      IndexInFront(x[1..], z, k - 1);
    }
  }

  /** Wraps a group of children that follow each other, not the first ones, in a new stage. */
  method WrapGroup(p: TreeNode, group: seq<TreeNode>, id: int, ghost f: Forest, ghost a: nat)
    returns (n: TreeNode, ghost g: Forest)
    requires Linked(f) && p in f.kids && group != [] && 0 < a && IsPart(f.kids[p], a, group)
    modifies f.kids.Keys
    ensures fresh(n) && n.kind == Stage(id, false) && n !in f.kids
    ensures CanAdopt(f, p, group, n, a) && g == Adopt(f, p, group, n, a) && Linked(g)
    ensures a + |group| <= |f.kids[p]| && g.kids[p] == Replaced(f.kids[p], a, a + |group|, n)
  {
    hide *;
    Basics(f);
    ghost var f1;
    n, f1 := NewNode(Stage(id, false), f);
    WrapPlan(f, p, group, a, n);
    var prev := group[0].GetPrevSibling(f1);
    ghost var f2 := MoveUnder(group, n, f1, p);
    InForest(p, f2);
    g := p.InsertChildNode(n, prev, f2);
  }

  lemma WrapPlan(f: Forest, p: TreeNode, group: seq<TreeNode>, a: nat, n: TreeNode)
    requires IsForest(f) && Linked(AddNode(f, n)) && n !in f.kids && p in f.kids
    requires group != [] && 0 < a && IsPart(f.kids[p], a, group)
    ensures CanAdopt(f, p, group, n, a)
    ensures a + |group| <= |f.kids[p]| && Adopt(f, p, group, n, a).kids[p] == Replaced(f.kids[p], a, a + |group|, n)
    ensures Distinct(group) && n !in group && p != n && n in AddNode(f, n).kids && p in AddNode(f, n).kids
    ensures forall c :: c in group ==> c in AddNode(f, n).kids[p]
    ensures var f1 := AddNode(f, n);
            && f1.kids.Keys == f.kids.Keys + {n} && group[0].IsIn(f1) && group[0] in f1.up && f1.up[group[0]] == p
               && group[0] in f1.kids[p]
            && (var s := f1.kids[p]; IndexOf(s, group[0]) == a && a - 1 < |s|)
            && var f2, prev := MoveAll(f1, p, group, n), f1.kids[p][a - 1];
               && n in f2.kids && p in f2.kids && n in f2.up && f2.up[n] == null && prev in f2.kids[p]
                  && PlaceAfter(f2.kids[p], prev) == a
               && a <= |f2.kids[p]| && Attach(f2, p, a, n) == Adopt(f, p, group, n, a)
  {
    GroupFacts(f, p, group, a, n);
    WrapLists(f.kids[p], a, group, n);
    hide Minus, Distinct, IndexOf, PlaceAfter, InsertAt, Attach, Elems, IsForest, Linked, Replaced, IsPart;
    assert AddNode(f, n).kids[p] == f.kids[p];
    MoveThenAttach(f, p, group, n, a);
    AdoptedLists(f, p, group, n, a);
    hide Adopt, MoveAll;
  }

  lemma GroupFacts(f: Forest, p: TreeNode, group: seq<TreeNode>, a: nat, n: TreeNode)
    requires IsForest(f) && Linked(AddNode(f, n)) && n !in f.kids && p in f.kids
    requires group != [] && 0 < a && IsPart(f.kids[p], a, group)
    ensures var cs := f.kids[p]; Distinct(cs) && Distinct(group) && group[0] in cs && IndexOf(cs, group[0]) == a
    ensures forall c :: c in group ==> c in f.kids[p]
    ensures n !in group && p != n && group[0] in f.up && f.up[group[0]] == p && group[0].IsIn(AddNode(f, n))
    ensures AddNode(f, n).kids.Keys == f.kids.Keys + {n} && AddNode(f, n).up[group[0]] == p
  {
    var cs := f.kids[p];
    assert IsListed(f, p) && cs[a] == group[0] && cs[a] in cs;
    IndexIs(cs, a);
    PartOf(cs, a, a + |group|);
  }

  // ----- Groups of illegal children

  /** The groups of illegal children that follow each other, the first one going on from the
      current one. */
  function GroupsWith(current: seq<TreeNode>, rest: seq<TreeNode>): seq<seq<TreeNode>>
    decreases |rest|
  {
    if rest == [] then (if current == [] then [] else [current])
    else if IsIllegal(rest[0]) then GroupsWith(current + [rest[0]], rest[1..])
    else (if current == [] then [] else [current]) + GroupsWith([], rest[1..])
  }

  function LegalPrefix(cs: seq<TreeNode>): (a: nat)
    ensures a <= |cs|
  {
    if cs == [] || IsIllegal(cs[0]) then 0 else 1 + LegalPrefix(cs[1..])
  }

  function IllegalPrefix(cs: seq<TreeNode>): (b: nat)
    ensures b <= |cs|
  {
    if cs == [] || !IsIllegal(cs[0]) then 0 else 1 + IllegalPrefix(cs[1..])
  }

  lemma {:induction false} LegalPrefixIs(cs: seq<TreeNode>)
    ensures forall i :: 0 <= i < LegalPrefix(cs) ==> !IsIllegal(cs[i])
    ensures LegalPrefix(cs) < |cs| ==> IsIllegal(cs[LegalPrefix(cs)])
  {
    if cs != [] && !IsIllegal(cs[0]) {
      LegalPrefixIs(cs[1..]);
      assert forall i :: 0 < i < |cs| ==> cs[i] == cs[1..][i - 1];
    }
  }

  lemma {:induction false} IllegalPrefixIs(cs: seq<TreeNode>)
    ensures forall i :: 0 <= i < IllegalPrefix(cs) ==> IsIllegal(cs[i])
    ensures IllegalPrefix(cs) < |cs| ==> !IsIllegal(cs[IllegalPrefix(cs)])
  {
    if cs != [] && IsIllegal(cs[0]) {
      IllegalPrefixIs(cs[1..]);
      assert forall i :: 0 < i < |cs| ==> cs[i] == cs[1..][i - 1];
    }
  }

  lemma {:induction false} GroupsSkipLegal(cs: seq<TreeNode>)
    ensures GroupsWith([], cs) == GroupsWith([], cs[LegalPrefix(cs)..])
    decreases |cs|
  {
    if cs != [] && !IsIllegal(cs[0]) {
      GroupsSkipLegal(cs[1..]);
      EmptyFront(GroupsWith([], cs[1..]));
      assert cs[1..][LegalPrefix(cs[1..])..] == cs[LegalPrefix(cs)..];
    } else {
      assert cs[0..] == cs;
    }
  }

  lemma {:induction false} GroupEnds(current: seq<TreeNode>, cs: seq<TreeNode>)
    requires current != []
    ensures GroupsWith(current, cs) == [current + cs[..IllegalPrefix(cs)]] + GroupsWith([], cs[IllegalPrefix(cs)..])
    decreases |cs|
  {
    var b := IllegalPrefix(cs);
    if cs != [] && IsIllegal(cs[0]) {
      GroupEnds(current + [cs[0]], cs[1..]);
      FirstAndRest(current, cs, b);
    } else {
      assert cs[..0] == [] && cs[0..] == cs && current + [] == current;
      if cs == [] {
        assert GroupsWith([], cs) == [];
      } else {
        EmptyFront(GroupsWith([], cs[1..]));
      }
    }
  }

  lemma FirstAndRest<T>(current: seq<T>, cs: seq<T>, b: nat)
    requires 0 < b <= |cs|
    ensures (current + [cs[0]]) + cs[1..][..b - 1] == current + cs[..b] && cs[1..][b - 1..] == cs[b..]
  {
  }

  lemma GroupStarts(rest: seq<TreeNode>)
    requires rest != [] && IsIllegal(rest[0])
    ensures var b := IllegalPrefix(rest); 0 < b && GroupsWith([], rest) == [rest[..b]] + GroupsWith([], rest[b..])
  {
    var b := IllegalPrefix(rest);
    EmptyFront([rest[0]]);
    assert GroupsWith([], rest) == GroupsWith([rest[0]], rest[1..]);
    GroupEnds([rest[0]], rest[1..]);
    hide GroupsWith;
    FirstAndRest([], rest, b);
    EmptyFront(rest[..b]);
  }

  /** The first group starts at the first illegal child and ends before the next legal one. */
  lemma NextGroup(cs: seq<TreeNode>)
    requires LegalPrefix(cs) < |cs|
    ensures var a := LegalPrefix(cs);
            var b := a + IllegalPrefix(cs[a..]);
            a < b <= |cs| && GroupsWith([], cs) == [cs[a..b]] + GroupsWith([], cs[b..])
  {
    var a := LegalPrefix(cs);
    GroupsSkipLegal(cs);
    LegalPrefixIs(cs);
    hide GroupsWith, LegalPrefix, IllegalPrefix;
    var rest := cs[a..];
    assert rest[0] == cs[a];
    GroupStarts(rest);
    var b := IllegalPrefix(rest);
    GroupSlices(cs, a, b);
    var x, y := cs[a..a + b], cs[a + b..];
    assert rest[..b] == x && rest[b..] == y;
    assert GroupsWith([], rest) == [x] + GroupsWith([], y);
  }

  lemma NoGroup(cs: seq<TreeNode>)
    ensures GroupsWith([], cs) == [] <==> LegalPrefix(cs) == |cs|
  {
    if LegalPrefix(cs) < |cs| {
      NextGroup(cs);
    } else {
      GroupsSkipLegal(cs);
      assert cs[|cs|..] == [];
    }
  }

  lemma GroupSlices<T>(cs: seq<T>, a: nat, b: nat)
    requires a <= |cs| && b <= |cs| - a
    ensures cs[a..][..b] == cs[a..a + b] && cs[a..][b..] == cs[a + b..]
  {
  }

  /** Goes through the children and groups the illegal ones that follow each other. */
  method CollectGroups(p: TreeNode, ghost f: Forest) returns (groups: seq<seq<TreeNode>>)
    requires p.IsIn(f)
    ensures groups == GroupsWith([], f.kids[p])
  {
    ghost var s := f.kids[p];
    p.Follow(f, 0);
    hide Linked;
    groups := [];
    var current: seq<TreeNode> := [];
    var child := p.firstChild;
    ghost var i: nat := 0;
    assert s[0..] == s;
    while child != null
      invariant i <= |s| && child == (if i < |s| then s[i] else null)
      invariant GroupsWith([], s) == groups + GroupsWith(current, s[i..])
      decreases |s| - i
    {
      p.Follow(f, i);
      assert s[i..][0] == s[i] && s[i..][1..] == s[i + 1..];
      if IsIllegal(child) {
        current := current + [child];
      } else {
        if current != [] {
          Reassociate(groups, [current], GroupsWith([], s[i + 1..]));
          groups := groups + [current];
          current := [];
        } else {
          EmptyFront(GroupsWith([], s[i + 1..]));
        }
      }
      i := i + 1;
      child := child.nextSibling;
    }
    if current != [] {
      groups := groups + [current];
    }
  }

  // ----- Wrapping all groups

  /** The list with every new node replaced by its children. */
  function Expanded(s: seq<TreeNode>, g: Forest, news: set<TreeNode>): seq<TreeNode>
    requires forall x :: x in news ==> x in g.kids
  {
    if s == [] then [] else (if s[0] in news then g.kids[s[0]] else [s[0]]) + Expanded(s[1..], g, news)
  }

  /** The new nodes are stages for illegal children of p, and nothing else has changed. */
  predicate AreWraps(f: Forest, g: Forest, p: TreeNode, news: set<TreeNode>) {
    && p in f.kids && g.kids.Keys == f.kids.Keys + news
    && (forall x :: x in news ==> x !in f.kids && x.kind.Stage? && !x.kind.hasDependencies && g.kids[x] != [])
    && (forall x, c :: x in news && c in g.kids[x] ==> IsIllegal(c) && c in f.kids)
    && forall m :: m in f.kids && m != p ==> g.kids[m] == f.kids[m]
  }

  predicate NoNeighbours(t: seq<TreeNode>, news: set<TreeNode>) {
    forall j :: 0 < j < |t| && t[j] in news ==> t[j - 1] !in news
  }

  /** Up to place w of the new list and place i of the old one everything is wrapped. */
  predicate WrappedTo(f: Forest, g: Forest, p: TreeNode, news: set<TreeNode>, w: nat, i: nat) {
    && AreWraps(f, g, p, news)
    && var (cs, t) := (f.kids[p], g.kids[p]);
    && i <= |cs| && w <= |t| && t[w..] == cs[i..]
    && (forall c :: c in t[..w] ==> !IsIllegal(c))
    && NoNeighbours(t, news)
    && Expanded(t[..w], g, news) == cs[..i]
    && (i < |cs| ==> !IsIllegal(cs[i]))
  }

  /** Every child of p is legal, and every group of illegal ones is in a stage of its own, in
      the place it was. */
  predicate AllWrapped(f: Forest, g: Forest, p: TreeNode, news: set<TreeNode>) {
    && AreWraps(f, g, p, news)
    && (forall c :: c in g.kids[p] ==> !IsIllegal(c))
    && NoNeighbours(g.kids[p], news)
    && Expanded(g.kids[p], g, news) == f.kids[p]
  }

  lemma {:induction false} ExpandedConcat(a: seq<TreeNode>, b: seq<TreeNode>, g: Forest, news: set<TreeNode>)
    requires forall x :: x in news ==> x in g.kids
    ensures Expanded(a + b, g, news) == Expanded(a, g, news) + Expanded(b, g, news)
  {
    if a == [] {
      EmptyFront(b);
      EmptyFront(Expanded(b, g, news));
    } else {
      assert (a + b)[1..] == a[1..] + b;
      ExpandedConcat(a[1..], b, g, news);
      Reassociate(if a[0] in news then g.kids[a[0]] else [a[0]], Expanded(a[1..], g, news), Expanded(b, g, news));
    }
  }

  lemma {:induction false} ExpandedOld(s: seq<TreeNode>, g: Forest, news: set<TreeNode>)
    requires (forall x :: x in news ==> x in g.kids) && forall x :: x in s ==> x !in news
    ensures Expanded(s, g, news) == s
  {
    if s != [] {
      ExpandedOld(s[1..], g, news);
    }
  }

  lemma {:induction false} ExpandedSame(s: seq<TreeNode>, g: Forest, h: Forest, news: set<TreeNode>,
                                        more: set<TreeNode>)
    requires (forall x :: x in news ==> x in g.kids) && (forall x :: x in more ==> x in h.kids)
    requires forall x :: x in s ==> (x in news <==> x in more) && (x in news ==> g.kids[x] == h.kids[x])
    ensures Expanded(s, g, news) == Expanded(s, h, more)
  {
    if s != [] {
      ExpandedSame(s[1..], g, h, news, more);
    }
  }

  lemma WrapBegins(f: Forest, p: TreeNode)
    requires p in f.kids && (f.kids[p] != [] ==> !IsIllegal(f.kids[p][0]))
    ensures WrappedTo(f, f, p, {}, 0, 0)
  {
    assert f.kids[p][..0] == [];
  }

  lemma WrapEnds(f: Forest, g: Forest, p: TreeNode, news: set<TreeNode>, w: nat, i: nat)
    requires WrappedTo(f, g, p, news, w, i) && GroupsWith([], f.kids[p][i..]) == []
             && forall c :: c in f.kids[p] ==> c in f.kids
    ensures AllWrapped(f, g, p, news)
  {
    var cs, t := f.kids[p], g.kids[p];
    NoGroup(cs[i..]);
    LegalPrefixIs(cs[i..]);
    hide GroupsWith, LegalPrefix;
    assert t == t[..w] + t[w..] && cs == cs[..i] + cs[i..];
    forall c | c in t ensures !IsIllegal(c) {
      var j :| 0 <= j < |t| && t[j] == c;
      assert j >= w ==> t[w..][j - w] == c;
    }
    ExpandedConcat(t[..w], t[w..], g, news);
    ExpandedOld(t[w..], g, news);
  }

  // ----- One group more

  /** The group is elements i + a to i + b of one list and w + a to w + b of the other, with legal
      ones in front of it and after it. */
  predicate IsGroupIn(cs: seq<TreeNode>, t: seq<TreeNode>, i: nat, w: nat, a: nat, b: nat, group: seq<TreeNode>) {
    && 0 < a < b && i + b <= |cs| && w + b <= |t|
    && group == cs[i + a..i + b] && group == t[w + a..w + b]
    && (forall j :: i <= j < i + a ==> !IsIllegal(cs[j])) && (forall j :: i + a <= j < i + b ==> IsIllegal(cs[j]))
    && (i + b < |cs| ==> !IsIllegal(cs[i + b]))
  }

  /** The group comes next. */
  predicate IsNextGroup(f: Forest, g: Forest, p: TreeNode, news: set<TreeNode>, w: nat, i: nat, a: nat, b: nat,
                        group: seq<TreeNode>)
  {
    && WrappedTo(f, g, p, news, w, i) && IsForest(g) && (forall c :: c in f.kids[p] ==> c in f.kids)
    && IsGroupIn(f.kids[p], g.kids[p], i, w, a, b, group)
  }

  /** And n is a new stage for it. */
  predicate IsNextWrap(f: Forest, g: Forest, p: TreeNode, news: set<TreeNode>, w: nat, i: nat, a: nat, b: nat,
                       group: seq<TreeNode>, n: TreeNode)
  {
    IsNextGroup(f, g, p, news, w, i, a, b, group) && n !in g.kids && n.kind.Stage? && !n.kind.hasDependencies
  }

  lemma WrapAdvances(f: Forest, g: Forest, p: TreeNode, news: set<TreeNode>, w: nat, i: nat, a: nat, b: nat,
                     group: seq<TreeNode>, n: TreeNode, h: Forest)
    requires IsNextWrap(f, g, p, news, w, i, a, b, group, n)
    requires CanAdopt(g, p, group, n, w + a) && h == Adopt(g, p, group, n, w + a)
    requires w + b <= |g.kids[p]| && h.kids[p] == Replaced(g.kids[p], w + a, w + b, n)
    ensures WrappedTo(f, h, p, news + {n}, w + a + 1, i + b)
  {
    AdoptedLists(g, p, group, n, w + a);
    hide *;
    AdvanceWraps(f, g, h, p, news, w, i, a, b, group, n);
    AdvanceList(f, g, p, news, w, i, a, b, group, n, h.kids[p]);
    AdvanceExpanded(f, g, h, p, news, w, i, a, b, group, n, h.kids[p]);
    AfterGroup(f, g, p, news, w, i, a, b, group, n);
    MakeWrapped(f, h, p, news + {n}, w + a + 1, i + b);
  }

  lemma AfterGroup(f: Forest, g: Forest, p: TreeNode, news: set<TreeNode>, w: nat, i: nat, a: nat, b: nat,
                   group: seq<TreeNode>, n: TreeNode)
    requires IsNextWrap(f, g, p, news, w, i, a, b, group, n)
    ensures p in f.kids && i + b <= |f.kids[p]| && (i + b < |f.kids[p]| ==> !IsIllegal(f.kids[p][i + b]))
  {
    hide IsForest, IsIllegal, Expanded, NoNeighbours;
  }

  lemma MakeWrapped(f: Forest, g: Forest, p: TreeNode, news: set<TreeNode>, w: nat, i: nat)
    requires AreWraps(f, g, p, news) && p in f.kids && p in g.kids && i <= |f.kids[p]| && w <= |g.kids[p]|
    requires g.kids[p][w..] == f.kids[p][i..] && (forall c :: c in g.kids[p][..w] ==> !IsIllegal(c))
             && NoNeighbours(g.kids[p], news)
    requires (forall x :: x in news ==> x in g.kids) && Expanded(g.kids[p][..w], g, news) == f.kids[p][..i]
    requires i < |f.kids[p]| ==> !IsIllegal(f.kids[p][i])
    ensures WrappedTo(f, g, p, news, w, i)
  {
    hide AreWraps, IsIllegal, NoNeighbours, Expanded;
  }

  lemma AdvanceWraps(f: Forest, g: Forest, h: Forest, p: TreeNode, news: set<TreeNode>, w: nat, i: nat, a: nat,
                     b: nat, group: seq<TreeNode>, n: TreeNode)
    requires IsNextWrap(f, g, p, news, w, i, a, b, group, n)
    requires h.kids.Keys == g.kids.Keys + {n} && h.kids[n] == group
    requires forall m :: m in g.kids && m != p ==> h.kids[m] == g.kids[m]
    ensures AreWraps(f, h, p, news + {n})
  {
    var cs := f.kids[p];
    assert forall j :: 0 <= j < |group| ==> group[j] == cs[i + a + j];
    assert forall c :: c in group ==> c in cs && IsIllegal(c);
    assert AreWraps(f, g, p, news) && n !in g.kids;
    hide IsNextGroup, IsNextWrap, IsIllegal;
    MoreWraps(f, g, h, p, news, group, n);
  }

  lemma MoreWraps(f: Forest, g: Forest, h: Forest, p: TreeNode, news: set<TreeNode>, group: seq<TreeNode>, n: TreeNode)
    requires AreWraps(f, g, p, news) && n !in g.kids && n.kind.Stage? && !n.kind.hasDependencies
    requires h.kids.Keys == g.kids.Keys + {n} && h.kids[n] == group && group != []
    requires (forall c :: c in group ==> IsIllegal(c) && c in f.kids)
             && forall m :: m in g.kids && m != p ==> h.kids[m] == g.kids[m]
    ensures AreWraps(f, h, p, news + {n})
  {
    hide IsIllegal;
  }

  /** The lists before and after, cut at the same places. */
  lemma Segments<T>(cs: seq<T>, t: seq<T>, w: nat, i: nat, a: nat, b: nat, n: T)
    requires w + b <= |t| && i + b <= |cs| && a <= b && t[w..] == cs[i..]
    ensures t == t[..w] + (cs[i..i + a] + (cs[i + a..i + b] + cs[i + b..]))
    ensures cs[..i + b] == (cs[..i] + cs[i..i + a]) + cs[i + a..i + b]
    ensures t[..w + a] == t[..w] + cs[i..i + a] && t[w + b..] == cs[i + b..]
    ensures var t' := Replaced(t, w + a, w + b, n);
            t'[..w + a + 1] == (t[..w] + cs[i..i + a]) + [n] && t'[w + a + 1..] == cs[i + b..]
  {
    assert t == t[..w] + t[w..];
    assert cs[i..] == cs[i..i + a] + (cs[i + a..i + b] + cs[i + b..]);
    assert t[w..][..a] == t[w..w + a] && cs[i..][..a] == cs[i..i + a];
    assert t[w..][b..] == t[w + b..] && cs[i..][b..] == cs[i + b..];
  }

  lemma {:induction false} NewNeighbour(x: seq<TreeNode>, y: seq<TreeNode>, rest: seq<TreeNode>, z: seq<TreeNode>,
                                        n: TreeNode,
                                        news: set<TreeNode>, more: set<TreeNode>)
    requires NoNeighbours(x + (y + rest), news) && y != []
    requires (forall v :: v in x ==> (v in news <==> v in more)) && (forall v :: v in y ==> v !in more)
             && forall v :: v in z ==> v !in more
    ensures NoNeighbours((x + y) + [n] + z, more)
  {
    var t, t' := x + (y + rest), (x + y) + [n] + z;
    var m := |x| + |y|;
    forall j | |x| <= j < m ensures t'[j] !in more {
      assert t'[j] == y[j - |x|];
    }
    forall j | m < j < |t'| ensures t'[j] !in more {
      assert t'[j] == z[j - m - 1];
    }
    forall j | 0 < j < |t'| && t'[j] in more ensures t'[j - 1] !in more {
      if j < |x| {
        assert t[j] == x[j] && t[j - 1] == x[j - 1] && x[j] in x && x[j - 1] in x;
      }
    }
  }

  /** The nodes of both lists are old ones or earlier new ones, never n. */
  lemma WhereNodesAre(f: Forest, g: Forest, p: TreeNode, news: set<TreeNode>, w: nat, i: nat, a: nat, b: nat,
                      group: seq<TreeNode>, n: TreeNode)
    requires IsNextWrap(f, g, p, news, w, i, a, b, group, n)
    ensures p in f.kids && p in g.kids && (forall v :: v in f.kids[p] ==> v !in news + {n})
            && forall v :: v in g.kids[p] ==> v != n
  {
    assert IsListed(g, p) && g.kids.Keys == g.up.Keys;
    forall v | v in g.kids[p] ensures v in g.kids {
      assert v in g.up;
    }
    hide IsForest, Expanded, IsListed, NoNeighbours, IsIllegal;
  }

  lemma AdvanceList(f: Forest, g: Forest, p: TreeNode, news: set<TreeNode>, w: nat, i: nat, a: nat, b: nat,
                    group: seq<TreeNode>, n: TreeNode,
                    t': seq<TreeNode>)
    requires IsNextWrap(f, g, p, news, w, i, a, b, group, n)
    requires p in g.kids && w + b <= |g.kids[p]| && t' == Replaced(g.kids[p], w + a, w + b, n)
    ensures p in f.kids && i + b <= |f.kids[p]| && |t'| >= w + a + 1 && t'[w + a + 1..] == f.kids[p][i + b..]
    ensures NoNeighbours(t', news + {n}) && forall c :: c in t'[..w + a + 1] ==> !IsIllegal(c)
  {
    hide IsForest, Expanded, AreWraps, IsIllegal, NoNeighbours;
    WhereNodesAre(f, g, p, news, w, i, a, b, group, n);
    var cs, t := f.kids[p], g.kids[p];
    Segments(cs, t, w, i, a, b, n);
    var x, y, z := t[..w], cs[i..i + a], cs[i + b..];
    PartsAreIn(cs, i, i + a);
    PartsAreIn(cs, i + b, |cs|);
    PartsAreIn(t, 0, w);
    assert forall c :: c in x + y ==> !IsIllegal(c) by {
      assert forall j :: 0 <= j < |y| ==> y[j] == cs[i + j];
    }
    NewNeighbour(x, y, cs[i + a..i + b] + z, z, n, news, news + {n});
    StageIsLegal(n);
    assert t' == (x + y) + [n] + z;
  }

  lemma StageIsLegal(n: TreeNode)
    requires n.kind.Stage?
    ensures !IsIllegal(n)
  {
  }

  lemma PartsAreIn<T>(s: seq<T>, a: nat, b: nat)
    requires a <= b <= |s|
    ensures forall v :: v in s[a..b] ==> v in s
    ensures b == |s| ==> forall v :: v in s[a..] ==> v in s
    ensures a == 0 ==> forall v :: v in s[..b] ==> v in s
  {
  }

  lemma AdvanceExpanded(f: Forest, g: Forest, h: Forest, p: TreeNode, news: set<TreeNode>, w: nat, i: nat, a: nat,
                        b: nat, group: seq<TreeNode>, n: TreeNode,
                        t': seq<TreeNode>)
    requires IsNextWrap(f, g, p, news, w, i, a, b, group, n)
    requires h.kids.Keys == g.kids.Keys + {n} && h.kids[n] == group
    requires forall m :: m in g.kids && m != p ==> h.kids[m] == g.kids[m]
    requires p in g.kids && w + b <= |g.kids[p]| && t' == Replaced(g.kids[p], w + a, w + b, n)
    ensures forall x :: x in news + {n} ==> x in h.kids
    ensures p in f.kids && i + b <= |f.kids[p]| && |t'| >= w + a + 1
            && Expanded(t'[..w + a + 1], h, news + {n}) == f.kids[p][..i + b]
  {
    var cs, t := f.kids[p], g.kids[p];
    var more := news + {n};
    Segments(cs, t, w, i, a, b, n);
    var x, y := t[..w], cs[i..i + a];
    PartsAreIn(cs, i, i + a);
    PartsAreIn(t, 0, w);
    assert IsListed(g, p);
    hide IsForest, NoNeighbours, IsListed;
    ExpandedSame(x, g, h, news, more);
    ExpandedOld(y, h, more);
    ExpandedSingle(n, h, more);
    assert forall v :: v in more ==> v in h.kids;
    assert group == cs[i + a..i + b] && Expanded(x, g, news) == cs[..i];
    assert t'[..w + a + 1] == (x + y) + [n];
    hide *;
    ExpandedParts(x, y, n, h, more);
  }

  lemma ExpandedParts(x: seq<TreeNode>, y: seq<TreeNode>, n: TreeNode, h: Forest, more: set<TreeNode>)
    requires forall v :: v in more ==> v in h.kids
    ensures Expanded((x + y) + [n], h, more) == (Expanded(x, h, more) + Expanded(y, h, more)) + Expanded([n], h, more)
  {
    ExpandedConcat(x + y, [n], h, more);
    ExpandedConcat(x, y, h, more);
  }

  lemma ExpandedSingle(n: TreeNode, h: Forest, more: set<TreeNode>)
    requires n in more && forall x :: x in more ==> x in h.kids
    ensures Expanded([n], h, more) == h.kids[n]
  {
    EmptyBehind(h.kids[n]);
  }

  // ----- Fixing the children of a pipeline

  /** Where the next group is. */
  lemma NextIllegal(cs: seq<TreeNode>, i: nat) returns (a: nat, b: nat)
    requires i < |cs| && !IsIllegal(cs[i]) && GroupsWith([], cs[i..]) != []
    ensures 0 < a < b && i + b <= |cs|
    ensures GroupsWith([], cs[i..]) == [cs[i + a..i + b]] + GroupsWith([], cs[i + b..])
    ensures (forall j :: i <= j < i + a ==> !IsIllegal(cs[j])) && (forall j :: i + a <= j < i + b ==> IsIllegal(cs[j]))
    ensures i + b < |cs| ==> !IsIllegal(cs[i + b])
  {
    var rest := cs[i..];
    NoGroup(rest);
    NextGroup(rest);
    LegalPrefixIs(rest);
    a := LegalPrefix(rest);
    var c := IllegalPrefix(rest[a..]);
    b := a + c;
    IllegalPrefixIs(rest[a..]);
    hide GroupsWith, LegalPrefix, IllegalPrefix, IsIllegal;
    assert rest[0] == cs[i] && a > 0;
    RestSlices(cs, i, a, b);
    forall j | i <= j < i + a ensures !IsIllegal(cs[j]) {
      assert cs[j] == rest[j - i];
    }
    forall j | i + a <= j < i + b ensures IsIllegal(cs[j]) {
      assert cs[j] == rest[a..][j - i - a];
    }
    assert i + b < |cs| ==> cs[i + b] == rest[a..][c];
    var x, y := cs[i + a..i + b], cs[i + b..];
    assert rest[a..b] == x && rest[b..] == y;
    assert GroupsWith([], rest) == [x] + GroupsWith([], y);
  }

  lemma NextGroupIn(cs: seq<TreeNode>, t: seq<TreeNode>, i: nat, w: nat) returns (a: nat, b: nat, group: seq<TreeNode>)
    requires i < |cs| && !IsIllegal(cs[i]) && GroupsWith([], cs[i..]) != [] && w <= |t| && t[w..] == cs[i..]
    ensures IsGroupIn(cs, t, i, w, a, b, group)
    ensures GroupsWith([], cs[i..]) == [group] + GroupsWith([], cs[i + b..])
  {
    hide GroupsWith, IsIllegal;
    a, b := NextIllegal(cs, i);
    group := cs[i + a..i + b];
    SameSlice(cs, t, i, w, a, b);
  }

  /** The next group, in the old list and in the new one. */
  lemma NextWrap(f: Forest, g: Forest, p: TreeNode, news: set<TreeNode>, w: nat, i: nat)
    returns (a: nat, b: nat, group: seq<TreeNode>)
    requires IsForest(f) && IsForest(g) && WrappedTo(f, g, p, news, w, i) && GroupsWith([], f.kids[p][i..]) != []
    ensures IsNextGroup(f, g, p, news, w, i, a, b, group) && i + b <= |f.kids[p]|
    ensures GroupsWith([], f.kids[p][i..]) == [group] + GroupsWith([], f.kids[p][i + b..])
  {
    WrappedFacts(f, g, p, news, w, i);
    hide *;
    a, b, group := NextGroupIn(f.kids[p], g.kids[p], i, w);
    MakeNextGroup(f, g, p, news, w, i, a, b, group);
  }

  lemma WrappedFacts(f: Forest, g: Forest, p: TreeNode, news: set<TreeNode>, w: nat, i: nat)
    requires IsForest(f) && WrappedTo(f, g, p, news, w, i)
    ensures p in f.kids && p in g.kids && i <= |f.kids[p]| && w <= |g.kids[p]| && g.kids[p][w..] == f.kids[p][i..]
    ensures i < |f.kids[p]| ==> !IsIllegal(f.kids[p][i])
    ensures GroupsWith([], f.kids[p][i..]) != [] ==> i < |f.kids[p]|
    ensures forall c :: c in f.kids[p] ==> c in f.kids
  {
    assert IsListed(f, p) && f.kids.Keys == f.up.Keys;
    forall c | c in f.kids[p] ensures c in f.kids {
      assert c in f.up;
    }
    hide Expanded, NoNeighbours, IsIllegal, IsForest;
  }

  lemma MakeNextGroup(f: Forest, g: Forest, p: TreeNode, news: set<TreeNode>, w: nat, i: nat, a: nat, b: nat,
                      group: seq<TreeNode>)
    requires p in f.kids && p in g.kids && WrappedTo(f, g, p, news, w, i) && IsForest(g)
             && (forall c :: c in f.kids[p] ==> c in f.kids)
    requires IsGroupIn(f.kids[p], g.kids[p], i, w, a, b, group)
    ensures IsNextGroup(f, g, p, news, w, i, a, b, group) && i + b <= |f.kids[p]|
  {
    hide WrappedTo, IsForest, IsIllegal;
  }

  lemma SameSlice<T>(cs: seq<T>, t: seq<T>, i: nat, w: nat, a: nat, b: nat)
    requires i <= |cs| && w <= |t| && t[w..] == cs[i..] && a <= b && i + b <= |cs|
    ensures w + b <= |t| && t[w + a..w + b] == cs[i + a..i + b]
  {
    assert |t[w..]| == |cs[i..]|;
    assert t[w..][a..b] == t[w + a..w + b] && cs[i..][a..b] == cs[i + a..i + b];
  }

  lemma RestSlices<T>(cs: seq<T>, i: nat, a: nat, b: nat)
    requires i <= |cs|
    ensures a <= b <= |cs| - i ==> cs[i..][a..b] == cs[i + a..i + b] && cs[i..][b..] == cs[i + b..]
  {
  }

  lemma NoneHangsAfterWrap(g: Forest, p: TreeNode, group: seq<TreeNode>, a: nat, b: nat, n: TreeNode)
    requires NoneHangs(g) && p in g.kids && 0 < a < b <= |g.kids[p]| && CanAdopt(g, p, group, n, a)
    requires p.kind.Pipeline? && n.kind.Stage? && !n.kind.hasDependencies
             && forall i :: a <= i < b ==> IsIllegal(g.kids[p][i])
    requires Adopt(g, p, group, n, a).kids[p] == Replaced(g.kids[p], a, b, n)
    ensures NoneHangs(Adopt(g, p, group, n, a))
  {
    WrapKeepsCheck(g.kids[p], a, b, n);
    AdoptedLists(g, p, group, n, a);
    hide Adopt, CanAdopt, Hangs;
  }

  lemma GroupFactsOf(f: Forest, g: Forest, p: TreeNode, news: set<TreeNode>, w: nat, i: nat, a: nat, b: nat,
                     group: seq<TreeNode>)
    requires IsNextGroup(f, g, p, news, w, i, a, b, group)
    ensures p in g.kids && 0 < w + a && w + b <= |g.kids[p]| && b == a + |group| && group != []
            && IsPart(g.kids[p], w + a, group)
    ensures (forall j :: w + a <= j < w + b ==> IsIllegal(g.kids[p][j])) && (forall c :: c in group ==> IsIllegal(c))
  {
    GroupIsIllegal(f.kids[p], i, a, b);
    IllegalInBoth(f.kids[p], g.kids[p], i, w, a, b);
  }

  lemma IsNew(f: Forest, g: Forest, p: TreeNode, news: set<TreeNode>, w: nat, i: nat, a: nat, b: nat,
              group: seq<TreeNode>, n: TreeNode)
    requires IsNextGroup(f, g, p, news, w, i, a, b, group) && n !in g.kids && n.kind.Stage? && !n.kind.hasDependencies
    ensures IsNextWrap(f, g, p, news, w, i, a, b, group, n)
  {
    hide IsNextGroup;
  }

  /** What wrapping one group more keeps. */
  lemma AfterWrap(f0: Forest, r0: map<TreeNode, nat>, f: Forest, g: Forest, r: map<TreeNode, nat>, root: TreeNode,
                  start: int, next: int,
                  p: TreeNode, news: set<TreeNode>, w: nat, i: nat, a: nat, b: nat, group: seq<TreeNode>, n: TreeNode,
                    h: Forest)
    requires RunOk(f0, r0, g, r, root, start, next) && IsNextGroup(f, g, p, news, w, i, a, b, group) && p.kind.Pipeline?
    requires n.kind == Stage(next, false) && n !in g.kids && CanAdopt(g, p, group, n, w + a)
             && h == Adopt(g, p, group, n, w + a)
    requires IsForest(h) && w + b <= |g.kids[p]| && h.kids[p] == Replaced(g.kids[p], w + a, w + b, n)
    ensures WrappedTo(f, h, p, news + {n}, w + a + 1, i + b)
    ensures p in r && RunOk(f0, r0, h, NewRank(r, p, n), root, start, next + 1)
    ensures IllegalChildren(h) < IllegalChildren(g)
  {
    hide *;
    IsNew(f, g, p, news, w, i, a, b, group, n);
    WrapAdvances(f, g, p, news, w, i, a, b, group, n, h);
    GroupFactsOf(f, g, p, news, w, i, a, b, group);
    RunFacts(f0, r0, g, r, root, start, next);
    AfterWrapRun(f0, r0, g, r, root, start, next, p, group, w + a, w + b, n, h);
  }

  lemma AfterWrapRun(f0: Forest, r0: map<TreeNode, nat>, g: Forest, r: map<TreeNode, nat>, root: TreeNode, start: int,
                     next: int,
                     p: TreeNode, group: seq<TreeNode>, a: nat, b: nat, n: TreeNode, h: Forest)
    requires RunOk(f0, r0, g, r, root, start, next) && NoneHangs(g) && p.kind.Pipeline? && n.kind == Stage(next, false)
    requires p in g.kids && 0 < a && b <= |g.kids[p]| && b == a + |group| && IsPart(g.kids[p], a, group)
    requires (forall j :: a <= j < b ==> IsIllegal(g.kids[p][j])) && group != []
             && (forall c :: c in group ==> IsIllegal(c))
    requires CanAdopt(g, p, group, n, a) && h == Adopt(g, p, group, n, a)
    requires IsForest(h) && h.kids[p] == Replaced(g.kids[p], a, b, n)
    ensures p in r && RunOk(f0, r0, h, NewRank(r, p, n), root, start, next + 1)
    ensures IllegalChildren(h) < IllegalChildren(g)
  {
    hide *;
    NoneHangsAfterWrap(g, p, group, a, b, n);
    IsWrapOf(p, group, n);
    WrapLeavesFewer(g, p, group, n, a);
    RunAdopt(f0, r0, g, r, root, start, next, p, group, n, a);
  }

  lemma IsWrapOf(p: TreeNode, group: seq<TreeNode>, n: TreeNode)
    requires p.kind.Pipeline? && n.kind.Stage? && !n.kind.hasDependencies && group != []
             && forall c :: c in group ==> IsIllegal(c)
    ensures IsWrap(p, group, n)
  {
  }

  lemma GroupIsIllegal(cs: seq<TreeNode>, i: nat, a: nat, b: nat)
    requires a < b && i + b <= |cs| && forall j :: i + a <= j < i + b ==> IsIllegal(cs[j])
    ensures cs[i + a..i + b] != [] && forall c :: c in cs[i + a..i + b] ==> IsIllegal(c)
  {
    var s := cs[i + a..i + b];
    assert |s| == b - a;
    assert forall k :: 0 <= k < |s| ==> s[k] == cs[i + a + k];
  }

  lemma IllegalInBoth(cs: seq<TreeNode>, t: seq<TreeNode>, i: nat, w: nat, a: nat, b: nat)
    requires a < b && i + b <= |cs| && w + b <= |t| && cs[i + a..i + b] == t[w + a..w + b]
    requires forall c :: c in cs[i + a..i + b] ==> IsIllegal(c)
    ensures forall j :: w + a <= j < w + b ==> IsIllegal(t[j])
  {
    forall j | w + a <= j < w + b ensures IsIllegal(t[j]) {
      assert t[w + a..w + b][j - w - a] == t[j];
    }
  }

  /** In the middle of wrapping the groups of p's children: these groups are left. */
  ghost predicate Wrapping(f0: Forest, r0: map<TreeNode, nat>, f: Forest, g: Forest, r: map<TreeNode, nat>,
                           root: TreeNode, start: int, next: int,
                           p: TreeNode, news: set<TreeNode>, w: nat, i: nat, left: seq<seq<TreeNode>>) {
    && IsForest(f) && IsForest(g) && p.kind.Pipeline?
    && RunOk(f0, r0, g, r, root, start, next) && WrappedTo(f, g, p, news, w, i)
    && p in f.kids && i <= |f.kids[p]| && left == GroupsWith([], f.kids[p][i..])
  }

  /** Where the next group is among p's children. */
  lemma FindWrap(f0: Forest, r0: map<TreeNode, nat>, f: Forest, g: Forest, r: map<TreeNode, nat>, root: TreeNode,
                 start: int, next: int,
                 p: TreeNode, news: set<TreeNode>, w: nat, i: nat, left: seq<seq<TreeNode>>) returns (a: nat, b: nat)
    requires Wrapping(f0, r0, f, g, r, root, start, next, p, news, w, i, left) && left != []
    ensures IsNextGroup(f, g, p, news, w, i, a, b, left[0]) && p in f.kids && i + b <= |f.kids[p]|
    ensures p in g.kids && left[0] != [] && b == a + |left[0]| && 0 < w + a && w + b <= |g.kids[p]|
            && IsPart(g.kids[p], w + a, left[0])
    ensures left[1..] == GroupsWith([], f.kids[p][i + b..])
  {
    UnfoldWrapping(f0, r0, f, g, r, root, start, next, p, news, w, i, left);
    hide *;
    var group;
    a, b, group := NextWrap(f, g, p, news, w, i);
    GroupFactsOf(f, g, p, news, w, i, a, b, group);
    HeadAndTail(left, group, GroupsWith([], f.kids[p][i + b..]));
  }

  lemma UnfoldWrapping(f0: Forest, r0: map<TreeNode, nat>, f: Forest, g: Forest, r: map<TreeNode, nat>,
                       root: TreeNode, start: int, next: int,
                       p: TreeNode, news: set<TreeNode>, w: nat, i: nat, left: seq<seq<TreeNode>>)
    requires Wrapping(f0, r0, f, g, r, root, start, next, p, news, w, i, left)
    ensures IsForest(f) && IsForest(g) && WrappedTo(f, g, p, news, w, i) && p in f.kids && i <= |f.kids[p]|
    ensures left == GroupsWith([], f.kids[p][i..])
  {
    hide IsForest, RunOk, WrappedTo, GroupsWith;
  }

  lemma HeadAndTail<T>(s: seq<T>, x: T, rest: seq<T>)
    requires s == [x] + rest
    ensures s[0] == x && s[1..] == rest
  {
  }

  lemma GoOnWrapping(f0: Forest, r0: map<TreeNode, nat>, f: Forest, g: Forest, r: map<TreeNode, nat>, root: TreeNode,
                     start: int, next: int,
                     p: TreeNode, news: set<TreeNode>, w: nat, i: nat, left: seq<seq<TreeNode>>, a: nat, b: nat,
                       n: TreeNode, h: Forest)
    requires Wrapping(f0, r0, f, g, r, root, start, next, p, news, w, i, left) && left != []
    requires IsNextGroup(f, g, p, news, w, i, a, b, left[0]) && b == a + |left[0]|
    requires p in f.kids && i + b <= |f.kids[p]| && left[1..] == GroupsWith([], f.kids[p][i + b..])
    requires n.kind == Stage(next, false) && n !in g.kids && CanAdopt(g, p, left[0], n, w + a)
             && h == Adopt(g, p, left[0], n, w + a)
    requires IsForest(h) && w + b <= |g.kids[p]| && h.kids[p] == Replaced(g.kids[p], w + a, w + b, n)
    ensures p in r && h.kids.Keys == g.kids.Keys + {n} && IllegalChildren(h) < IllegalChildren(g)
    ensures Wrapping(f0, r0, f, h, NewRank(r, p, n), root, start, next + 1, p, news + {n}, w + a + 1, i + b, left[1..])
  {
    hide Adopt, CanAdopt, WrappedTo, RunOk, IsForest, IsNextGroup, GroupsWith, IllegalChildren, NewRank;
    AfterWrap(f0, r0, f, g, r, root, start, next, p, news, w, i, a, b, left[0], n, h);
    AdoptedLists(g, p, left[0], n, w + a);
  }

  /** Wraps every group of illegal children of the pipeline p in a stage of its own. */
  method FixPipelineChildren(p: TreeNode, nextId: int, ghost root: TreeNode, ghost f: Forest, ghost r: map<TreeNode,
                             nat>,
                             ghost f0: Forest, ghost r0: map<TreeNode, nat>, ghost start: int)
    returns (next: int, ghost g: Forest, ghost s: map<TreeNode, nat>, ghost news: set<TreeNode>)
    requires Linked(f) && RunOk(f0, r0, f, r, root, start, nextId) && p in f.kids && ChildrenViolated(f, p)
    modifies f.kids.Keys
    ensures Linked(g) && RunOk(f0, r0, g, s, root, start, next)
    ensures AllWrapped(f, g, p, news) && fresh(news)
    ensures IllegalChildren(g) < IllegalChildren(f)
  {
    hide *;
    InForest(p, f);
    var groups := CollectGroups(p, f);
    WrapStarts(f0, r0, f, r, root, start, nextId, p, groups);
    next, g, s, news := nextId, f, r, {};
    ghost var w: nat, i: nat := 0, 0;
    var left := groups;
    while left != []
      invariant Linked(g) && Wrapping(f0, r0, f, g, s, root, start, next, p, news, w, i, left)
      invariant g.kids.Keys == f.kids.Keys + news && fresh(news)
      invariant g == f ==> left != []
      invariant g == f || IllegalChildren(g) < IllegalChildren(f)
    {
      ghost var a, b := FindWrap(f0, r0, f, g, s, root, start, next, p, news, w, i, left);
      ghost var h;
      var n: TreeNode;
      n, h := WrapGroup(p, left[0], next, g, w + a);
      Basics(h);
      GoOnWrapping(f0, r0, f, g, s, root, start, next, p, news, w, i, left, a, b, n, h);
      g, s, news, w, i, next := h, NewRank(s, p, n), news + {n}, w + a + 1, i + b, next + 1;
      left := left[1..];
    }
    StopWrapping(f0, r0, f, g, s, root, start, next, p, news, w, i);
  }

  lemma StopWrapping(f0: Forest, r0: map<TreeNode, nat>, f: Forest, g: Forest, r: map<TreeNode, nat>, root: TreeNode,
                     start: int, next: int,
                     p: TreeNode, news: set<TreeNode>, w: nat, i: nat)
    requires Wrapping(f0, r0, f, g, r, root, start, next, p, news, w, i, [])
    ensures AllWrapped(f, g, p, news) && RunOk(f0, r0, g, r, root, start, next)
  {
    assert IsListed(f, p);
    WrapEnds(f, g, p, news, w, i);
  }

  lemma WrapStarts(f0: Forest, r0: map<TreeNode, nat>, f: Forest, r: map<TreeNode, nat>, root: TreeNode, start: int,
                   next: int,
                   p: TreeNode, groups: seq<seq<TreeNode>>)
    requires RunOk(f0, r0, f, r, root, start, next) && p in f.kids && ChildrenViolated(f, p)
             && groups == GroupsWith([], f.kids[p])
    ensures groups != [] && Wrapping(f0, r0, f, f, r, root, start, next, p, {}, 0, 0, groups)
  {
    var cs := f.kids[p];
    assert !Hangs(cs);
    if cs != [] && !StartsPrivate(cs) {
      assert !Blocks(cs, 0);
    }
    RunFacts(f0, r0, f, r, root, start, next);
    hide RunOk, IsForest;
    WrapBegins(f, p);
    LegalPrefixIs(cs);
    NoGroup(cs);
    hide GroupsWith, WrappedTo, LegalPrefix, Hangs;
    assert cs[0..] == cs;
  }
}
