/** Trees of operations on the heap: each node points to its parent, its first child and its
    next sibling. The operations refine operations on the lists of children. */
module OperationTree {
  import opened Digraph
  import opened Sequences

  datatype Kind = Root | Loop | Pipeline | Stage(id: int, hasDependencies: bool) | Private

  /** The children of every node, in order, and what each node is a child of. */
  datatype Forest = Forest(kids: map<TreeNode, seq<TreeNode>>, up: map<TreeNode, TreeNode?>)

  predicate AllBelow(s: seq<TreeNode>, up: map<TreeNode, TreeNode?>, n: TreeNode) {
    forall c :: c in s ==> c in up && up[c] == n
  }

  /** The children of a node are different nodes, and it is what they are children of. */
  predicate IsListed(f: Forest, n: TreeNode)
    requires n in f.kids
  {
    Distinct(f.kids[n]) && AllBelow(f.kids[n], f.up, n)
  }

  /** What the node is a child of has it as a child. */
  predicate IsPlaced(f: Forest, c: TreeNode)
    requires c in f.up
  {
    f.up[c] != null ==> f.up[c] != c && f.up[c] in f.kids && c in f.kids[f.up[c]]
  }

  /** Every node is a child of one node at most, and there once. */
  predicate IsForest(f: Forest) {
    && f.kids.Keys == f.up.Keys
    && (forall n :: n in f.kids ==> IsListed(f, n))
    && forall c :: c in f.up ==> IsPlaced(f, c)
  }

  /** What a node points to. */
  datatype Links = Links(parent: TreeNode?, first: TreeNode?, next: TreeNode?)

  type LinkMap = map<TreeNode, Links>

  ghost function LinksOf(nodes: set<TreeNode>): (l: LinkMap)
    reads nodes
    ensures l.Keys == nodes
  {
    map n | n in nodes :: Links(n.parent, n.firstChild, n.nextSibling)
  }

  function WithParent(l: LinkMap, n: TreeNode, p: TreeNode?): (m: LinkMap)
    requires n in l
  {
    l[n := l[n].(parent := p)]
  }

  function WithFirst(l: LinkMap, n: TreeNode, c: TreeNode?): (m: LinkMap)
    requires n in l
  {
    l[n := l[n].(first := c)]
  }

  function WithNext(l: LinkMap, n: TreeNode, s: TreeNode?): (m: LinkMap)
    requires n in l
  {
    l[n := l[n].(next := s)]
  }

  function FirstOf(s: seq<TreeNode>): TreeNode? {
    if s == [] then null else s[0]
  }

  function NextOf(s: seq<TreeNode>, i: nat): TreeNode? {
    if i + 1 < |s| then s[i + 1] else null
  }

  predicate LeadsOn(s: seq<TreeNode>, i: nat, l: LinkMap)
    requires i < |s|
  {
    s[i] in l && l[s[i]].next == NextOf(s, i)
  }

  /** The next siblings lead through the list. */
  predicate Chained(s: seq<TreeNode>, l: LinkMap) {
    forall i :: 0 <= i < |s| ==> LeadsOn(s, i, l)
  }

  predicate ParentsMatch(f: Forest, l: LinkMap) {
    forall n :: n in l ==> n in f.up && l[n].parent == f.up[n]
  }

  predicate FirstsMatch(f: Forest, l: LinkMap) {
    forall n :: n in l ==> n in f.kids && l[n].first == FirstOf(f.kids[n])
  }

  predicate NextsMatch(f: Forest, l: LinkMap) {
    forall n :: n in f.kids ==> Chained(f.kids[n], l)
  }

  predicate LooseMatch(f: Forest, l: LinkMap) {
    forall n :: n in l && n in f.up && f.up[n] == null ==> l[n].next == null
  }

  /** The links say what the lists say. */
  predicate Match(f: Forest, l: LinkMap) {
    l.Keys == f.kids.Keys && ParentsMatch(f, l) && FirstsMatch(f, l) && NextsMatch(f, l) && LooseMatch(f, l)
  }

  ghost predicate Linked(f: Forest)
    reads f.kids.Keys
  {
    IsForest(f) && Match(f, LinksOf(f.kids.Keys))
  }

  // ----- The operations on lists

  /** Where a child is put: right after the position, or at the end if there is none. */
  function PlaceAfter(s: seq<TreeNode>, pos: TreeNode?): (k: nat)
    requires pos != null ==> pos in s
    ensures k <= |s|
  {
    if pos == null then |s| else IndexOf<TreeNode>(s, pos) + 1
  }

  /** Child k is replaced by its own children. */
  function SplicedAt(s: seq<TreeNode>, k: nat, kids: seq<TreeNode>): seq<TreeNode>
    requires k < |s|
  {
    s[..k] + kids + s[k + 1..]
  }

  function Attach(f: Forest, p: TreeNode, k: nat, c: TreeNode): Forest
    requires p in f.kids && k <= |f.kids[p]|
  {
    Forest(f.kids[p := InsertAt(f.kids[p], k, c)], f.up[c := p])
  }

  function DetachAt(f: Forest, p: TreeNode, k: nat): Forest
    requires p in f.kids && k < |f.kids[p]|
  {
    Forest(f.kids[p := Without(f.kids[p], k)], f.up[f.kids[p][k] := null])
  }

  function Detach(f: Forest, c: TreeNode): Forest
    requires IsForest(f) && c in f.up && f.up[c] != null
  {
    DetachAt(f, f.up[c], IndexOf(f.kids[f.up[c]], c))
  }

  /** The children of child k of p take its place. */
  function DissolveAt(f: Forest, p: TreeNode, k: nat): Forest
    requires p in f.kids && k < |f.kids[p]| && f.kids[p][k] in f.kids
  {
    var n := f.kids[p][k];
    Forest(f.kids[p := SplicedAt(f.kids[p], k, f.kids[n])][n := []],
           (map c | c in f.up :: if f.up[c] == n then p else f.up[c])[n := null])
  }

  function Dissolve(f: Forest, n: TreeNode): Forest
    requires IsForest(f) && n in f.up && f.up[n] != null
  {
    DissolveAt(f, f.up[n], IndexOf(f.kids[f.up[n]], n))
  }

  /** Nothing but the children of p and the parents of the given nodes is changed. */
  predicate ChangesOnly(f: Forest, g: Forest, p: TreeNode, nodes: set<TreeNode>) {
    && g.kids.Keys == f.kids.Keys && g.up.Keys == f.up.Keys
    && (forall n :: n in f.kids && n != p && n !in nodes ==> g.kids[n] == f.kids[n])
    && forall x :: x in f.up && x !in nodes ==> g.up[x] == f.up[x]
  }

  /** A node that is attached comes right behind the given child, or last if there is none, and keeps
      its children. */
  lemma AttachedBehind(f: Forest, p: TreeNode, pos: TreeNode?, c: TreeNode)
    requires p in f.kids && c in f.kids && c in f.up && c != p && (pos != null ==> pos in f.kids[p])
    ensures var g := Attach(f, p, PlaceAfter(f.kids[p], pos), c);
            && ChangesOnly(f, g, p, {c}) && g.kids[c] == f.kids[c] && g.up[c] == p
            && exists front, back ::
                 && f.kids[p] == front + back && g.kids[p] == front + [c] + back
                 && if pos == null then back == [] else front != [] && front[|front| - 1] == pos
  {
    var s, k := f.kids[p], PlaceAfter(f.kids[p], pos);
    assert s == s[..k] + s[k..];
    assert Attach(f, p, k, c).kids[p] == s[..k] + [c] + s[k..];
  }

  /** A node that is detached is loose, with its children, and the others stay in their order. */
  lemma DetachedIsLoose(f: Forest, c: TreeNode)
    requires IsForest(f) && c in f.up && f.up[c] != null
    ensures var p, g := f.up[c], Detach(f, c);
            && p in f.kids && ChangesOnly(f, g, p, {c}) && g.kids[c] == f.kids[c] && g.up[c] == null
            && exists front, back :: f.kids[p] == (front + [c]) + back && g.kids[p] == front + back
  {
    assert IsPlaced(f, c);
    var s := f.kids[f.up[c]];
    var k := IndexOf(s, c);
    assert s == (s[..k] + [c]) + s[k + 1..];
    assert Detach(f, c).kids[f.up[c]] == s[..k] + s[k + 1..];
  }

  /** The children of a node that is dissolved stand where it stood, in their order, and it is loose. */
  lemma DissolvedInPlace(f: Forest, n: TreeNode)
    requires IsForest(f) && n in f.up && f.up[n] != null && (f.up[n] in f.up ==> f.up[f.up[n]] != n)
    ensures n in f.kids && f.up[n] in f.kids
    ensures var p, g := f.up[n], Dissolve(f, n);
            && ChangesOnly(f, g, p, {n} + Elems(f.kids[n])) && g.kids[n] == [] && g.up[n] == null
            && (forall c :: c in f.kids[n] ==> c in f.kids && g.up[c] == p && g.kids[c] == f.kids[c])
            && exists front, back ::
                 f.kids[p] == (front + [n]) + back && g.kids[p] == (front + f.kids[n]) + back
  {
    var p := f.up[n];
    assert IsPlaced(f, n);
    var s := f.kids[p];
    var k := IndexOf(s, n);
    var g := DissolveAt(f, p, k);
    assert g == Dissolve(f, n);
    KidsOfDissolved(f, n, p);
    hide IndexOf, IsForest, Dissolve, IsListed, IsPlaced, AllBelow;
    OneTakenOut(s, k);
    hide ChangesOnly;
    assert g.kids[p] == (s[..k] + f.kids[n]) + s[k + 1..] by {
      assert SplicedAt(s, k, f.kids[n]) == (s[..k] + f.kids[n]) + s[k + 1..];
    }
    DissolvedElsewhere(f, n, p, k);
  }

  lemma OneTakenOut<T>(s: seq<T>, k: nat)
    requires k < |s|
    ensures s == (s[..k] + [s[k]]) + s[k + 1..]
  {
  }

  lemma DissolvedElsewhere(f: Forest, n: TreeNode, p: TreeNode, k: nat)
    requires f.kids.Keys == f.up.Keys && n in f.kids && p in f.kids && k < |f.kids[p]| && f.kids[p][k] == n
    requires forall x :: x in f.up && f.up[x] == n ==> x in f.kids[n]
    ensures ChangesOnly(f, DissolveAt(f, p, k), p, {n} + Elems(f.kids[n]))
  {
    hide SplicedAt;
  }

  lemma KidsOfDissolved(f: Forest, n: TreeNode, p: TreeNode)
    requires IsForest(f) && n in f.up && f.up[n] == p && p in f.kids && f.up[p] != n
    ensures n in f.kids && n != p && f.kids.Keys == f.up.Keys
    ensures forall c :: c in f.kids[n] ==> c in f.up && f.up[c] == n && c != n && c != p
    ensures forall x :: x in f.up && f.up[x] == n ==> x in f.kids[n]
  {
    assert IsPlaced(f, n) && IsListed(f, n);
    forall x | x in f.up && f.up[x] == n ensures x in f.kids[n] {
      assert IsPlaced(f, x);
    }
  }

  lemma InsertedList(s: seq<TreeNode>, k: nat, c: TreeNode)
    requires k <= |s| && Distinct(s) && c !in s
    ensures Distinct(InsertAt(s, k, c))
    ensures forall x :: x in InsertAt(s, k, c) <==> x in s || x == c
    ensures InsertAt(s, k, c)[k] == c
    ensures forall i :: 0 <= i < |s| ==> InsertAt(s, k, c)[if i < k then i else i + 1] == s[i]
  {
    var t := InsertAt(s, k, c);
    assert t[k] == c;
    assert forall i :: 0 <= i < |t| && i != k ==> t[i] == s[if i < k then i else i - 1];
    forall i | 0 <= i < |s| ensures t[if i < k then i else i + 1] == s[i] {
    }
  }

  lemma WithoutList(s: seq<TreeNode>, k: nat)
    requires k < |s| && Distinct(s)
    ensures Distinct(Without(s, k))
    ensures forall x :: x in Without(s, k) <==> x in s && x != s[k]
  {
    var t := Without(s, k);
    assert forall i :: 0 <= i < |t| ==> t[i] == s[if i < k then i else i + 1];
    forall i | 0 <= i < |s| && i != k ensures s[i] in t {
      assert t[if i < k then i else i - 1] == s[i];
    }
  }

  lemma SplicedList(s: seq<TreeNode>, k: nat, kids: seq<TreeNode>)
    requires k < |s| && Distinct(s) && Distinct(kids) && forall x :: x in kids ==> x !in s
    ensures Distinct(SplicedAt(s, k, kids))
    ensures forall x :: x in SplicedAt(s, k, kids) <==> (x in s && x != s[k]) || x in kids
  {
    var t := SplicedAt(s, k, kids);
    WithoutList(s, k);
    assert forall i :: 0 <= i < |t| ==>
                         t[i] == if i < k then s[i] else if i < k + |kids| then kids[i - k] else s[i - |kids| + 1];
    forall i, j | 0 <= i < j < |t| ensures t[i] != t[j] {
      if i < k && k <= j < k + |kids| {
        assert t[j] == kids[j - k] && t[i] in s;
      } else if k <= i < k + |kids| && j >= k + |kids| {
        assert t[i] == kids[i - k] && t[j] in s;
      }
    }
    forall x | x in SplicedAt(s, k, kids) || x in s || x in kids
      ensures x in t <==> (x in s && x != s[k]) || x in kids
    {
      assert x in t <==> x in s[..k] || x in kids || x in s[k + 1..];
      assert x in Without(s, k) <==> x in s[..k] || x in s[k + 1..];
    }
  }

  /** Only the list of p changes, by the one node c. */
  lemma ChangedIsForest(f: Forest, g: Forest, p: TreeNode, c: TreeNode)
    requires IsForest(f) && p in f.kids && c in f.up && c != p && g.kids.Keys == g.up.Keys == f.kids.Keys
    requires Distinct(g.kids[p]) && (forall n :: n in f.kids && n != p ==> g.kids[n] == f.kids[n])
    requires (forall x :: x in f.up && x != c ==> g.up[x] == f.up[x]) && (g.up[c] == null || g.up[c] == p)
    requires forall x :: x in g.kids[p] <==> if x == c then g.up[c] == p else x in f.kids[p]
    requires f.up[c] == null || f.up[c] == p
    ensures IsForest(g)
  {
    forall n | n in g.kids ensures IsListed(g, n) {
      assert IsListed(f, n);
      forall x | x in g.kids[n] ensures x in g.up && g.up[x] == n {
        if n != p {
          assert x in f.kids[n];
        }
      }
    }
    forall x | x in g.up ensures IsPlaced(g, x) {
      assert IsPlaced(f, x);
    }
  }

  lemma AttachIsForest(f: Forest, p: TreeNode, k: nat, c: TreeNode)
    requires IsForest(f) && p in f.kids && k <= |f.kids[p]| && c in f.up && f.up[c] == null && c != p
    ensures IsForest(Attach(f, p, k, c))
  {
    assert IsListed(f, p);
    InsertedList(f.kids[p], k, c);
    hide Distinct, InsertAt, IsForest;
    ChangedIsForest(f, Attach(f, p, k, c), p, c);
  }

  lemma DetachIsForest(f: Forest, p: TreeNode, k: nat)
    requires IsForest(f) && p in f.kids && k < |f.kids[p]|
    ensures IsForest(DetachAt(f, p, k))
  {
    Child(f, p, k);
    WithoutList(f.kids[p], k);
    hide Distinct, Without, IsForest;
    ChangedIsForest(f, DetachAt(f, p, k), p, f.kids[p][k]);
  }

  lemma Child(f: Forest, p: TreeNode, k: nat)
    requires IsForest(f) && p in f.kids && k < |f.kids[p]|
    ensures f.kids.Keys == f.up.Keys && Distinct(f.kids[p])
    ensures var c := f.kids[p][k]; c in f.kids && c in f.up && f.up[c] == p && c != p && c in f.kids[p]
    ensures forall x :: x in f.kids[p] ==> x in f.up && f.up[x] == p && x != p
  {
    assert IsListed(f, p);
    forall x | x in f.kids[p] ensures x != p {
      assert IsPlaced(f, x);
    }
  }

  /** Lists of different nodes share nothing. */
  lemma OtherLists(f: Forest, p: TreeNode, n: TreeNode)
    requires IsForest(f) && p in f.kids && n in f.kids && n != p
    ensures forall x :: x in f.kids[n] ==> x !in f.kids[p] && x in f.up && f.up[x] == n
  {
    assert IsListed(f, p) && IsListed(f, n);
  }

  lemma DissolveIsForest(f: Forest, p: TreeNode, k: nat)
    requires IsForest(f) && p in f.kids && k < |f.kids[p]| && f.up[p] != f.kids[p][k]
    ensures IsForest(DissolveAt(f, p, k))
  {
    Child(f, p, k);
    var n, g := f.kids[p][k], DissolveAt(f, p, k);
    assert g.kids.Keys == f.kids.Keys == g.up.Keys;
    forall m | m in g.kids ensures IsListed(g, m) {
      if m == p {
        DissolvedListed(f, p, k);
      } else {
        OtherDissolvedListed(f, p, k, m);
      }
    }
    forall x | x in g.up ensures IsPlaced(g, x) {
      DissolvedPlaced(f, p, k, x);
    }
    hide DissolveAt, IsListed, IsPlaced;
  }

  lemma DissolvedListed(f: Forest, p: TreeNode, k: nat)
    requires IsForest(f) && p in f.kids && k < |f.kids[p]| && f.kids[p][k] in f.kids && f.kids[p][k] != p
    ensures IsListed(DissolveAt(f, p, k), p)
  {
    Child(f, p, k);
    var n, g := f.kids[p][k], DissolveAt(f, p, k);
    OtherLists(f, p, n);
    assert IsListed(f, n);
    SplicedList(f.kids[p], k, f.kids[n]);
    hide Distinct, SplicedAt, IsForest, IsPlaced;
    forall x | x in g.kids[p] ensures x in g.up && g.up[x] == p {
      assert x in f.kids[n] || (x in f.kids[p] && x != n);
    }
  }

  lemma OtherDissolvedListed(f: Forest, p: TreeNode, k: nat, m: TreeNode)
    requires IsForest(f) && p in f.kids && k < |f.kids[p]| && f.kids[p][k] in f.kids && m in f.kids && m != p
    ensures IsListed(DissolveAt(f, p, k), m)
  {
    var n, g := f.kids[p][k], DissolveAt(f, p, k);
    Child(f, p, k);
    assert IsListed(f, m);
    hide SplicedAt, IsForest;
    if m != n {
      OtherLists(f, p, m);
      assert g.kids[m] == f.kids[m] && n !in f.kids[m];
    }
  }

  lemma DissolvedPlaced(f: Forest, p: TreeNode, k: nat, x: TreeNode)
    requires IsForest(f) && p in f.kids && k < |f.kids[p]| && f.kids[p][k] in f.kids && x in f.up
             && f.up[p] != f.kids[p][k]
    ensures IsPlaced(DissolveAt(f, p, k), x)
  {
    Child(f, p, k);
    var n := f.kids[p][k];
    OtherLists(f, p, n);
    assert IsListed(f, n) && IsPlaced(f, x);
    SplicedList(f.kids[p], k, f.kids[n]);
    hide Distinct, SplicedAt, IsForest, IsListed;
  }

  // ----- Changing links

  /** What the links of the list's nodes are once c is put at place k. */
  predicate ChainsIn(s: seq<TreeNode>, k: nat, c: TreeNode, was: LinkMap, now: LinkMap)
    requires k <= |s|
  {
    && c in now && now[c].next == (if k < |s| then s[k] else null)
    && forall x :: x in s ==> x in was && x in now && now[x].next == if k > 0 && x == s[k - 1] then c else was[x].next
  }

  lemma ChainedInsert(s: seq<TreeNode>, k: nat, c: TreeNode, was: LinkMap, now: LinkMap)
    requires k <= |s| && Distinct(s) && c !in s && Chained(s, was) && ChainsIn(s, k, c, was, now)
    ensures Chained(InsertAt(s, k, c), now)
  {
    var t := InsertAt(s, k, c);
    forall i: nat | i < |t| ensures LeadsOn(t, i, now) {
      if i < k {
        assert t[i] == s[i] && LeadsOn(s, i, was);
      } else if i > k {
        assert t[i] == s[i - 1] && LeadsOn(s, i - 1, was);
      }
    }
  }

  lemma ChainedWithout(s: seq<TreeNode>, k: nat, was: LinkMap, now: LinkMap)
    requires k < |s| && Distinct(s) && Chained(s, was)
    requires forall x :: x in s && x != s[k] ==>
      x in was && x in now && now[x].next == if k > 0 && x == s[k - 1] then NextOf(s, k) else was[x].next
    ensures Chained(Without(s, k), now)
  {
    var t := Without(s, k);
    forall i: nat | i < |t| ensures LeadsOn(t, i, now) {
      var j := if i < k then i else i + 1;
      assert t[i] == s[j] && LeadsOn(s, j, was);
    }
  }

  lemma ChainedSplice(s: seq<TreeNode>, k: nat, kids: seq<TreeNode>, was: LinkMap, now: LinkMap)
    requires k < |s| && Distinct(s) && Distinct(kids) && Chained(s, was) && Chained(kids, was) && kids != []
    requires forall x :: x in kids ==> x !in s
    requires forall x :: x in s && x != s[k] ==>
      x in was && x in now && now[x].next == if k > 0 && x == s[k - 1] then kids[0] else was[x].next
    requires forall x :: x in kids ==>
                           x in was && x in now && now[x].next == if x == kids[|kids| - 1] then NextOf(s, k)
                             else was[x].next
    ensures Chained(SplicedAt(s, k, kids), now)
  {
    var t := SplicedAt(s, k, kids);
    forall i: nat | i < |t| ensures LeadsOn(t, i, now) {
      if i < k {
        assert t[i] == s[i] && LeadsOn(s, i, was);
      } else if i < k + |kids| {
        assert t[i] == kids[i - k] && LeadsOn(kids, i - k, was);
      } else {
        assert t[i] == s[i - |kids| + 1] && LeadsOn(s, i - |kids| + 1, was);
      }
    }
  }

  lemma ChainedUnchanged(s: seq<TreeNode>, was: LinkMap, now: LinkMap)
    requires Chained(s, was) && forall x :: x in s && x in was ==> x in now && now[x].next == was[x].next
    ensures Chained(s, now)
  {
    forall i: nat | i < |s| ensures LeadsOn(s, i, now) {
      assert LeadsOn(s, i, was);
    }
  }

  /** The links after c is put at place k below p. */
  function LinkIn(l: LinkMap, p: TreeNode, s: seq<TreeNode>, k: nat, c: TreeNode): (now: LinkMap)
    requires p in l && c in l && k <= |s| && forall x :: x in s ==> x in l
  {
    var there := if k > 0 then WithNext(l, s[k - 1], c) else WithFirst(l, p, c);
    WithParent(WithNext(there, c, if k < |s| then s[k] else null), c, p)
  }

  /** The links of LinkIn, as they are set. */
  lemma LinkInIs(l: LinkMap, p: TreeNode, s: seq<TreeNode>, k: nat, c: TreeNode)
    requires p in l && c in l && c !in s && k <= |s| && (forall x :: x in s ==> x in l) && l[c].next == null
    ensures k > 0 ==>
              LinkIn(l, p, s, k, c) == WithParent(WithNext(WithNext(l, s[k - 1], c), c, if k < |s| then s[k]
                                                           else null), c, p)
    ensures s == [] ==> LinkIn(l, p, s, k, c) == WithParent(WithFirst(l, p, c), c, p)
    ensures s != [] && k == 0 ==> LinkIn(l, p, s, k, c) == WithParent(WithFirst(WithNext(l, c, s[0]), p, c), c, p)
    ensures s != [] && k == |s| ==> LinkIn(l, p, s, k, c) == WithParent(WithNext(l, s[|s| - 1], c), c, p)
  {
    var there := if k > 0 then WithNext(l, s[k - 1], c) else WithFirst(l, p, c);
    if k == |s| {
      assert WithNext(there, c, null) == there;
    } else if k == 0 && p != c {
      assert WithFirst(WithNext(l, c, s[0]), p, c) == WithNext(there, c, s[0]);
    }
  }

  /** A list of another node keeps its links if only nodes below p and detached ones change theirs. */
  lemma OthersStayChained(f: Forest, p: TreeNode, l: LinkMap, now: LinkMap)
    requires IsForest(f) && NextsMatch(f, l) && p in f.kids
    requires forall x :: x in l && x in f.up && f.up[x] != null && f.up[x] != p ==> x in now && now[x].next == l[x].next
    ensures forall n :: n in f.kids && n != p ==> Chained(f.kids[n], now)
  {
    forall n | n in f.kids && n != p ensures Chained(f.kids[n], now) {
      OtherLists(f, p, n);
      ChainedUnchanged(f.kids[n], l, now);
    }
  }

  lemma LinkInFacts(l: LinkMap, p: TreeNode, s: seq<TreeNode>, k: nat, c: TreeNode)
    requires p in l && c in l && k <= |s| && c !in s && c != p && p !in s && Distinct(s)
             && forall x :: x in s ==> x in l
    ensures var now := LinkIn(l, p, s, k, c);
            && now.Keys == l.Keys && ChainsIn(s, k, c, l, now)
            && (forall n :: n in l ==> now[n].parent == if n == c then p else l[n].parent)
            && (forall n :: n in l ==> now[n].first == if n == p && k == 0 then c else l[n].first)
            && forall n :: n in l && n !in s && n != c ==> now[n].next == l[n].next
  {
  }

  lemma AttachMatches(f: Forest, p: TreeNode, k: nat, c: TreeNode, l: LinkMap)
    requires IsForest(f) && Match(f, l) && p in f.kids && k <= |f.kids[p]| && c in f.up && f.up[c] == null && c != p
    ensures Match(Attach(f, p, k, c), LinkIn(l, p, f.kids[p], k, c))
  {
    var s, g, now := f.kids[p], Attach(f, p, k, c), LinkIn(l, p, f.kids[p], k, c);
    LinkInFacts(l, p, s, k, c);
    hide LinkIn, Distinct;
    AttachNexts(f, p, k, c, l, now);
    AttachFirsts(f, p, k, c, l, now);
    AttachParents(f, p, k, c, l, now);
    hide NextsMatch, FirstsMatch, ChainsIn, ParentsMatch, LooseMatch;
  }

  lemma AttachFirsts(f: Forest, p: TreeNode, k: nat, c: TreeNode, l: LinkMap, now: LinkMap)
    requires FirstsMatch(f, l) && p in f.kids && k <= |f.kids[p]| && l.Keys == now.Keys == f.kids.Keys
    requires forall n :: n in l ==> now[n].first == if n == p && k == 0 then c else l[n].first
    ensures FirstsMatch(Attach(f, p, k, c), now)
  {
  }

  lemma AttachParents(f: Forest, p: TreeNode, k: nat, c: TreeNode, l: LinkMap, now: LinkMap)
    requires IsForest(f) && ParentsMatch(f, l) && LooseMatch(f, l) && p in f.kids && k <= |f.kids[p]|
             && l.Keys == now.Keys == f.up.Keys
    requires forall n :: n in l ==> now[n].parent == if n == c then p else l[n].parent
    requires forall n :: n in l && n !in f.kids[p] && n != c ==> now[n].next == l[n].next
    ensures ParentsMatch(Attach(f, p, k, c), now) && LooseMatch(Attach(f, p, k, c), now)
  {
    hide InsertAt, Distinct;
  }

  lemma AttachNexts(f: Forest, p: TreeNode, k: nat, c: TreeNode, l: LinkMap, now: LinkMap)
    requires IsForest(f) && NextsMatch(f, l) && p in f.kids && k <= |f.kids[p]| && c in f.up && f.up[c] == null
             && c != p
    requires ChainsIn(f.kids[p], k, c, l, now) && l.Keys == now.Keys
    requires forall n :: n in l && n !in f.kids[p] && n != c ==> now[n].next == l[n].next
    ensures NextsMatch(Attach(f, p, k, c), now)
  {
    ChainedInsert(f.kids[p], k, c, l, now);
    hide ChainsIn, Distinct, Chained, InsertAt;
    forall x | x in l && x in f.up && f.up[x] != null && f.up[x] != p ensures x in now && now[x].next == l[x].next {
    }
    OthersStayChained(f, p, l, now);
  }

  /** The list or the previous sibling leads to another node, or none, instead of the one at place k. */
  function LeadTo(l: LinkMap, p: TreeNode, s: seq<TreeNode>, k: nat, other: TreeNode?): (m: LinkMap)
    requires p in l && k < |s| && forall x :: x in s ==> x in l
  {
    if k > 0 then WithNext(l, s[k - 1], other) else WithFirst(l, p, other)
  }

  /** The links after c is taken out of place k below p. */
  function LinkOut(l: LinkMap, p: TreeNode, s: seq<TreeNode>, k: nat): (now: LinkMap)
    requires p in l && k < |s| && forall x :: x in s ==> x in l
  {
    WithParent(WithNext(LeadTo(l, p, s, k, NextOf(s, k)), s[k], null), s[k], null)
  }

  lemma LinkOutFacts(l: LinkMap, p: TreeNode, s: seq<TreeNode>, k: nat)
    requires p in l && k < |s| && p !in s && Distinct(s) && forall x :: x in s ==> x in l
    ensures var now := LinkOut(l, p, s, k);
            && now.Keys == l.Keys
            && (forall x :: x in s && x != s[k] ==>
                              now[x].next == if k > 0 && x == s[k - 1] then NextOf(s, k) else l[x].next)
            && (forall n :: n in l ==> now[n].parent == if n == s[k] then null else l[n].parent)
            && (forall n :: n in l ==> now[n].first == if n == p && k == 0 then NextOf(s, k) else l[n].first)
            && now[s[k]].next == null && forall n :: n in l && n !in s ==> now[n].next == l[n].next
  {
  }

  lemma DetachMatches(f: Forest, p: TreeNode, k: nat, l: LinkMap)
    requires IsForest(f) && Match(f, l) && p in f.kids && k < |f.kids[p]|
    ensures (forall x :: x in f.kids[p] ==> x in l) && Match(DetachAt(f, p, k), LinkOut(l, p, f.kids[p], k))
  {
    var s, now := f.kids[p], LinkOut(l, p, f.kids[p], k);
    LinkOutFacts(l, p, s, k);
    hide LinkOut, Distinct;
    DetachNexts(f, p, k, l, now);
    DetachFirsts(f, p, k, l, now);
    DetachParents(f, p, k, l, now);
    hide FirstsMatch, ParentsMatch, LooseMatch, Chained, NextsMatch;
  }

  lemma DetachFirsts(f: Forest, p: TreeNode, k: nat, l: LinkMap, now: LinkMap)
    requires FirstsMatch(f, l) && p in f.kids && k < |f.kids[p]| && l.Keys == now.Keys == f.kids.Keys
    requires forall n :: n in l ==> now[n].first == if n == p && k == 0 then NextOf(f.kids[p], k) else l[n].first
    ensures FirstsMatch(DetachAt(f, p, k), now)
  {
  }

  lemma DetachParents(f: Forest, p: TreeNode, k: nat, l: LinkMap, now: LinkMap)
    requires IsForest(f) && ParentsMatch(f, l) && LooseMatch(f, l) && p in f.kids && k < |f.kids[p]|
             && l.Keys == now.Keys == f.up.Keys
    requires forall n :: n in l ==> now[n].parent == if n == f.kids[p][k] then null else l[n].parent
    requires f.kids[p][k] in now && now[f.kids[p][k]].next == null
    requires forall n :: n in l && n !in f.kids[p] ==> now[n].next == l[n].next
    ensures ParentsMatch(DetachAt(f, p, k), now) && LooseMatch(DetachAt(f, p, k), now)
  {
    hide Without, Distinct;
  }

  lemma DetachNexts(f: Forest, p: TreeNode, k: nat, l: LinkMap, now: LinkMap)
    requires IsForest(f) && NextsMatch(f, l) && p in f.kids && k < |f.kids[p]| && l.Keys == now.Keys == f.up.Keys
    requires var s := f.kids[p];
      forall x :: x in s && x in l && x != s[k] ==>
                    now[x].next == if k > 0 && x == s[k - 1] then NextOf(s, k) else l[x].next
    requires forall n :: n in l && n !in f.kids[p] ==> now[n].next == l[n].next
    ensures NextsMatch(DetachAt(f, p, k), now)
  {
    ChainedWithout(f.kids[p], k, l, now);
    hide Distinct, Chained, Without;
    forall x | x in l && x in f.up && f.up[x] != null && f.up[x] != p ensures x in now && now[x].next == l[x].next {
    }
    OthersStayChained(f, p, l, now);
  }

  // ----- Dissolving a node

  /** The first j of the children get the parent p. */
  function WithParents(l: LinkMap, kids: seq<TreeNode>, j: nat, p: TreeNode): (m: LinkMap)
    requires j <= |kids| && forall x :: x in kids ==> x in l
    ensures m.Keys == l.Keys
  {
    if j == 0 then l else WithParent(WithParents(l, kids, j - 1, p), kids[j - 1], p)
  }

  lemma {:induction false} WithParentsFacts(l: LinkMap, kids: seq<TreeNode>, j: nat, p: TreeNode)
    requires j <= |kids| && forall x :: x in kids ==> x in l
    ensures var m := WithParents(l, kids, j, p);
            && (forall n :: n in l ==> m[n].first == l[n].first && m[n].next == l[n].next)
            && (forall n :: n in l && n !in kids[..j] ==> m[n].parent == l[n].parent)
            && forall n :: n in l && n in kids[..j] ==> m[n].parent == p
  {
    if j > 0 {
      WithParentsFacts(l, kids, j - 1, p);
      assert kids[..j] == kids[..j - 1] + [kids[j - 1]];
    }
  }

  function Cleared(l: LinkMap, n: TreeNode): (m: LinkMap)
    requires n in l
  {
    WithParent(WithNext(WithFirst(l, n, null), n, null), n, null)
  }

  /** The links after the node at place k below p, which has children, is dissolved. */
  function LinkDissolved(l: LinkMap, p: TreeNode, s: seq<TreeNode>, k: nat, kids: seq<TreeNode>): (m: LinkMap)
    requires p in l && k < |s| && kids != [] && (forall x :: x in s ==> x in l) && forall x :: x in kids ==> x in l
  {
    Cleared(WithNext(WithParents(LeadTo(l, p, s, k, kids[0]), kids, |kids|, p), kids[|kids| - 1], NextOf(s, k)), s[k])
  }

  /** What a node's links are once the node at place k below p is dissolved. */
  function DissolvedLinks(l: LinkMap, p: TreeNode, s: seq<TreeNode>, k: nat, kids: seq<TreeNode>, n: TreeNode): Links
    requires n in l && k < |s| && kids != []
  {
    if n == s[k] then Links(null, null, null)
    else Links(if n in kids then p else l[n].parent,
               if n == p && k == 0 then kids[0] else l[n].first,
               if k > 0 && n == s[k - 1] then kids[0] else if n == kids[|kids| - 1] then NextOf(s, k) else l[n].next)
  }

  predicate AreDissolved(l: LinkMap, now: LinkMap, p: TreeNode, s: seq<TreeNode>, k: nat, kids: seq<TreeNode>)
    requires k < |s| && kids != []
  {
    now.Keys == l.Keys && forall n :: n in l ==> now[n] == DissolvedLinks(l, p, s, k, kids, n)
  }

  lemma LinkDissolvedFacts(l: LinkMap, p: TreeNode, s: seq<TreeNode>, k: nat, kids: seq<TreeNode>)
    requires p in l && k < |s| && kids != [] && (forall x :: x in s ==> x in l && x !in kids)
             && forall x :: x in kids ==> x in l
    requires Distinct(s) && p !in s && p !in kids
    ensures AreDissolved(l, LinkDissolved(l, p, s, k, kids), p, s, k, kids)
  {
    forall n | n in l ensures LinkDissolved(l, p, s, k, kids)[n] == DissolvedLinks(l, p, s, k, kids, n) {
      LinkDissolvedAt(l, p, s, k, kids, n);
    }
    LinkDissolvedKeys(l, p, s, k, kids);
    hide LinkDissolved;
  }

  lemma LinkDissolvedKeys(l: LinkMap, p: TreeNode, s: seq<TreeNode>, k: nat, kids: seq<TreeNode>)
    requires p in l && k < |s| && kids != [] && (forall x :: x in s ==> x in l) && forall x :: x in kids ==> x in l
    ensures LinkDissolved(l, p, s, k, kids).Keys == l.Keys
  {
  }

  lemma LinkDissolvedAt(l: LinkMap, p: TreeNode, s: seq<TreeNode>, k: nat, kids: seq<TreeNode>, n: TreeNode)
    requires p in l && k < |s| && kids != [] && (forall x :: x in s ==> x in l && x !in kids)
             && forall x :: x in kids ==> x in l
    requires Distinct(s) && p !in s && p !in kids && n in l
    ensures n in LinkDissolved(l, p, s, k, kids)
            && LinkDissolved(l, p, s, k, kids)[n] == DissolvedLinks(l, p, s, k, kids, n)
  {
    var lead := LeadTo(l, p, s, k, kids[0]);
    WithParentsFacts(lead, kids, |kids|, p);
    assert kids[..|kids|] == kids && kids[|kids| - 1] in kids && s[k] in s && (k > 0 ==> s[k - 1] in s);
    hide WithParents;
  }

  lemma DissolveMatches(f: Forest, p: TreeNode, k: nat, l: LinkMap, now: LinkMap)
    requires IsForest(f) && Match(f, l) && p in f.kids && k < |f.kids[p]| && f.kids[p][k] in f.kids
             && f.up[p] != f.kids[p][k]
    requires f.kids[f.kids[p][k]] != [] && AreDissolved(l, now, p, f.kids[p], k, f.kids[f.kids[p][k]])
    ensures Match(DissolveAt(f, p, k), now)
  {
    DissolveFirsts(f, p, k, l, now);
    DissolveNexts(f, p, k, l, now);
    DissolveParents(f, p, k, l, now);
    hide FirstsMatch, ParentsMatch, LooseMatch, NextsMatch;
  }

  lemma DissolveFirsts(f: Forest, p: TreeNode, k: nat, l: LinkMap, now: LinkMap)
    requires FirstsMatch(f, l) && l.Keys == f.kids.Keys && p in f.kids && k < |f.kids[p]| && f.kids[p][k] in f.kids
             && f.kids[p][k] != p
    requires f.kids[f.kids[p][k]] != [] && AreDissolved(l, now, p, f.kids[p], k, f.kids[f.kids[p][k]])
    ensures FirstsMatch(DissolveAt(f, p, k), now)
  {
  }

  lemma DissolveParents(f: Forest, p: TreeNode, k: nat, l: LinkMap, now: LinkMap)
    requires IsForest(f) && ParentsMatch(f, l) && LooseMatch(f, l) && l.Keys == f.kids.Keys && p in f.kids
             && k < |f.kids[p]|
    requires f.kids[p][k] in f.kids && f.up[p] != f.kids[p][k]
    requires f.kids[f.kids[p][k]] != [] && AreDissolved(l, now, p, f.kids[p], k, f.kids[f.kids[p][k]])
    ensures ParentsMatch(DissolveAt(f, p, k), now) && LooseMatch(DissolveAt(f, p, k), now)
  {
    var n, g := f.kids[p][k], DissolveAt(f, p, k);
    assert k > 0 ==> f.kids[p][k - 1] in f.kids[p];
    assert f.kids[n][|f.kids[n]| - 1] in f.kids[n];
    hide SplicedAt, Distinct;
    forall x | x in now ensures x in g.up && now[x].parent == g.up[x] {
      assert x in f.kids[n] <==> f.up[x] == n;
    }
    forall x | x in now && x in g.up && g.up[x] == null ensures now[x].next == null {
      assert x == n || f.up[x] == null;
    }
  }

  lemma DissolveNexts(f: Forest, p: TreeNode, k: nat, l: LinkMap, now: LinkMap)
    requires IsForest(f) && NextsMatch(f, l) && l.Keys == f.kids.Keys && p in f.kids && k < |f.kids[p]|
    requires f.kids[p][k] in f.kids && f.up[p] != f.kids[p][k]
    requires f.kids[f.kids[p][k]] != [] && AreDissolved(l, now, p, f.kids[p], k, f.kids[f.kids[p][k]])
    ensures NextsMatch(DissolveAt(f, p, k), now)
  {
    var n := f.kids[p][k];
    var s, kids := f.kids[p], f.kids[n];
    OtherLists(f, p, n);
    OtherLists(f, n, p);
    ChainedSplice(s, k, kids, l, now);
    forall m | m in f.kids && m != p && m != n ensures Chained(f.kids[m], now) {
      OtherLists(f, p, m);
      OtherLists(f, n, m);
      assert (k > 0 ==> s[k - 1] in s) && kids[|kids| - 1] in kids;
      ChainedUnchanged(f.kids[m], l, now);
    }
    assert Chained([], now);
    hide Chained, SplicedAt, Distinct;
  }

  // ----- Nodes

  class TreeNode {
    const kind: Kind
    var parent: TreeNode?
    var firstChild: TreeNode?
    var nextSibling: TreeNode?

    constructor (kind: Kind)
      ensures this.kind == kind && parent == null && firstChild == null && nextSibling == null
    {
      this.kind, parent, firstChild, nextSibling := kind, null, null, null;
    }

    method SetParentNode(p: TreeNode?, ghost nodes: set<TreeNode>)
      requires this in nodes
      modifies this`parent
      ensures parent == p
      ensures LinksOf(nodes) == WithParent(old(LinksOf(nodes)), this, p)
    {
      parent := p;
    }

    method SetFirstChild(c: TreeNode?, ghost nodes: set<TreeNode>)
      requires this in nodes
      modifies this`firstChild
      ensures firstChild == c
      ensures LinksOf(nodes) == WithFirst(old(LinksOf(nodes)), this, c)
    {
      firstChild := c;
    }

    method SetNextSibling(s: TreeNode?, ghost nodes: set<TreeNode>)
      requires this in nodes
      modifies this`nextSibling
      ensures nextSibling == s
      ensures LinksOf(nodes) == WithNext(old(LinksOf(nodes)), this, s)
    {
      nextSibling := s;
    }

    /** Becomes the next sibling of pos, in front of the one that was. */
    method LinkAfter(pos: TreeNode, ghost nodes: set<TreeNode>)
      requires this in nodes && pos in nodes
      modifies this`nextSibling, pos`nextSibling
      ensures LinksOf(nodes) == WithNext(WithNext(old(LinksOf(nodes)), pos, this), this, old(pos.nextSibling))
    {
      var next := pos.nextSibling;
      pos.SetNextSibling(this, nodes);
      SetNextSibling(next, nodes);
    }

    ghost predicate IsIn(f: Forest)
      reads f.kids.Keys
    {
      this in f.kids && Linked(f)
    }

    /** A node starts at its first child, and each of its children leads to the next. */
    lemma Follow(f: Forest, i: nat)
      requires IsIn(f)
      ensures firstChild == FirstOf(f.kids[this]) && parent == f.up[this]
      ensures i < |f.kids[this]| ==> f.kids[this][i] in f.kids && f.kids[this][i].nextSibling == NextOf(f.kids[this], i)
    {
      assert this in LinksOf(f.kids.Keys);
      assert i < |f.kids[this]| ==> LeadsOn(f.kids[this], i, LinksOf(f.kids.Keys));
    }

    method GetNumberOfChildren(ghost f: Forest) returns (count: nat)
      requires IsIn(f)
      ensures count == |f.kids[this]|
    {
      hide Linked;
      ghost var s := f.kids[this];
      Follow(f, 0);
      count := 0;
      var child := firstChild;
      while child != null
        invariant count <= |s| && child == if count < |s| then s[count] else null
        decreases |s| - count
      {
        Follow(f, count);
        child := child.nextSibling;
        count := count + 1;
      }
    }

    method GetLastChild(ghost f: Forest) returns (child: TreeNode?)
      requires IsIn(f)
      ensures child == if f.kids[this] == [] then null else f.kids[this][|f.kids[this]| - 1]
    {
      hide Linked;
      ghost var s := f.kids[this];
      Follow(f, 0);
      child := firstChild;
      if child == null {
        return;
      }
      ghost var i: nat := 0;
      while child.nextSibling != null
        invariant child != null && i < |s| && child == s[i] && child.nextSibling == NextOf(s, i)
        decreases |s| - i
      {
        Follow(f, i + 1);
        child := child.nextSibling;
        i := i + 1;
      }
    }

    method GetPrevSibling(ghost f: Forest) returns (prev: TreeNode?)
      requires IsIn(f) && f.up[this] != null && f.up[this] in f.kids && this in f.kids[f.up[this]]
      ensures var s := f.kids[f.up[this]]; prev == if IndexOf(s, this) == 0 then null else s[IndexOf(s, this) - 1]
    {
      ghost var s := f.kids[f.up[this]];
      ghost var k := IndexOf(s, this);
      assert Distinct(s);
      hide Linked, IsForest, IndexOf;
      Follow(f, 0);
      f.up[this].Follow(f, 0);
      prev := parent.firstChild;
      if prev == this {
        return null;
      }
      ghost var i: nat := 0;
      while prev != null
        invariant i < k && prev == s[i]
        decreases k - i
      {
        f.up[this].Follow(f, i);
        if prev.nextSibling == this {
          break;
        }
        prev := prev.nextSibling;
        i := i + 1;
      }
    }

    /** The last child gets a next sibling. */
    method LinkLast(child: TreeNode, ghost f: Forest)
      requires IsIn(f) && f.kids[this] != [] && f.kids[this][|f.kids[this]| - 1] in f.kids
      modifies f.kids.Keys
      ensures LinksOf(f.kids.Keys) == WithNext(old(LinksOf(f.kids.Keys)), f.kids[this][|f.kids[this]| - 1], child)
    {
      hide Linked, LinksOf;
      var last := GetLastChild(f);
      last.SetNextSibling(child, f.kids.Keys);
    }

    /** Adds a detached node to the children, right after a given one or at the end. */
    method InsertChildNode(child: TreeNode, pos: TreeNode?, ghost f: Forest) returns (ghost g: Forest)
      requires IsIn(f) && child in f.kids && child in f.up && f.up[child] == null && child != this
      requires pos != null ==> pos in f.kids[this]
      modifies f.kids.Keys
      ensures g == Attach(f, this, PlaceAfter(f.kids[this], pos), child) && Linked(g)
    {
      assert this in f.kids;
      hide *;
      ghost var nodes, was := f.kids.Keys, LinksOf(f.kids.Keys);
      g := Attach(f, this, PlaceAfter(f.kids[this], pos), child);
      ghost var linked := PlanInsertion(f, this, child, pos, was);
      Starts(f, this);
      if firstChild == null {
        InsertedFirst(f, was, this, child, pos, linked);
        SetFirstChild(child, nodes);
      } else if pos != null {
        InsertedAfter(f, was, this, child, pos, linked);
        child.LinkAfter(pos, nodes);
      } else {
        InsertedLast(f, was, this, child, linked);
        LinkLast(child, f);
      }
      child.SetParentNode(this, nodes);
      LinkedBy(g, linked);
    }

    /** Adds a detached node in front of the children. */
    method InsertAsFirstChild(child: TreeNode, ghost f: Forest) returns (ghost g: Forest)
      requires IsIn(f) && child in f.kids && child in f.up && f.up[child] == null && child != this
      modifies f.kids.Keys
      ensures g == Attach(f, this, 0, child) && Linked(g)
    {
      ghost var nodes := f.kids.Keys;
      ghost var s, was := f.kids[this], LinksOf(nodes);
      g := Attach(f, this, 0, child);
      AttachLinks(f, this, 0, child);
      Ends(f, this, child, null);
      LinkInIs(was, this, s, 0, child);
      ghost var linked := LinkIn(was, this, s, 0, child);
      Follow(f, 0);
      hide IsIn, Linked, Attach, LinksOf, LinkIn, WithFirst, WithNext, WithParent, IndexOf, PlaceAfter, NextOf, Match,
          IsForest;
      var first := firstChild;
      if first != null {
        child.SetNextSibling(first, nodes);
      }
      SetFirstChild(child, nodes);
      child.SetParentNode(this, nodes);
      assert LinksOf(nodes) == linked;
      LinkedBy(g, linked);
    }

    /** Takes the node, with all below it, out of its parent's children. */
    method Unlink(ghost f: Forest) returns (ghost g: Forest)
      requires IsIn(f) && this in f.up && f.up[this] != null
      modifies f.kids.Keys
      ensures g == Detach(f, this) && Linked(g)
    {
      ghost var nodes, p := f.kids.Keys, f.up[this];
      ghost var s, k := f.kids[p], IndexOf(f.kids[p], this);
      g := Detach(f, this);
      DetachLinks(f, p, k);
      ghost var was := LinksOf(nodes);
      ghost var linked := LinkOut(was, p, s, k);
      IsBelow(f, this);
      p.Follow(f, k);
      hide *;
      var prev := GetPrevSibling(f);
      ReplaceBy(prev, nextSibling, f);
      SetNextSibling(null, nodes);
      SetParentNode(null, nodes);
      LinkedBy(g, linked);
    }

    /** The parent or the previous sibling leads to another node instead. */
    method ReplaceBy(prev: TreeNode?, other: TreeNode?, ghost f: Forest)
      requires IsIn(f) && this in f.up && f.up[this] != null && f.up[this] == parent && parent in f.kids
      requires this in f.kids[f.up[this]] && forall x :: x in f.kids[f.up[this]] ==> x in f.kids
      requires var s := f.kids[f.up[this]]; prev == if IndexOf(s, this) == 0 then null else s[IndexOf(s, this) - 1]
      modifies f.kids.Keys
      ensures var p := f.up[this];
              LinksOf(f.kids.Keys) == LeadTo(old(LinksOf(f.kids.Keys)), p, f.kids[p], IndexOf(f.kids[p], this), other)
      ensures prev != this ==> nextSibling == old(nextSibling)
      ensures parent == old(parent)
    {
      hide Linked, LinksOf, IndexOf;
      if prev != null {
        prev.SetNextSibling(other, f.kids.Keys);
      } else {
        parent.SetFirstChild(other, f.kids.Keys);
      }
    }

    /** The children, which start here, get another parent, and the last one a next sibling. */
    method MoveChildrenTo(p: TreeNode, last: TreeNode, next: TreeNode?, ghost kids: seq<TreeNode>,
                          ghost nodes: set<TreeNode>)
      requires kids != [] && this == kids[0] && last == kids[|kids| - 1] && Distinct(kids)
      requires (forall x :: x in kids ==> x in nodes) && Chained(kids, LinksOf(nodes))
      modifies nodes
      ensures LinksOf(nodes) == WithNext(WithParents(old(LinksOf(nodes)), kids, |kids|, p), last, next)
    {
      ghost var was := LinksOf(nodes);
      var child: TreeNode? := this;
      ghost var j: nat := 0;
      hide LinksOf;
      while child != null
        invariant j < |kids| && child == kids[j] && LinksOf(nodes) == WithParents(was, kids, j, p)
        decreases |kids| - j
      {
        child.SetParentNode(p, nodes);
        j := j + 1;
        if child == last {
          assert j == |kids|;
          child.SetNextSibling(next, nodes);
          break;
        }
        NextIsSame(was, kids, j, p, j - 1, nodes);
        child := child.nextSibling;
      }
    }

    /** Takes only this node out: its children take its place. A root stays. */
    method UnlinkNode(ghost f: Forest) returns (ghost g: Forest)
      requires IsIn(f) && this in f.up && (f.up[this] != null && f.up[this] in f.up ==> f.up[f.up[this]] != this)
      modifies f.kids.Keys
      ensures f.up[this] == null ==> g == f
      ensures f.up[this] != null ==> IsForest(f) && g == Dissolve(f, this)
      ensures Linked(g)
    {
      assert parent == f.up[this] && IsForest(f);
      if parent == null {
        return f;
      }
      ghost var nodes, p := f.kids.Keys, f.up[this];
      ghost var s, k, kids, was := f.kids[p], IndexOf(f.kids[p], this), f.kids[this], LinksOf(nodes);
      g := Dissolve(f, this);
      IsBelow(f, this);
      Follow(f, 0);
      p.Follow(f, k);
      hide *;
      var parentNode := parent;
      var prev := GetPrevSibling(f);
      var next := nextSibling;
      var first := firstChild;
      var last := GetLastChild(f);
      ghost var linked := DissolveLinks(f, p, k, was);
      if first != null {
        ReplaceBy(prev, first, f);
        first.MoveChildrenTo(parentNode, last, next, kids, nodes);
      } else {
        ReplaceBy(prev, next, f);
      }
      Clear(nodes);
      LinkedBy(g, linked);
    }

    method Clear(ghost nodes: set<TreeNode>)
      requires this in nodes
      modifies this
      ensures LinksOf(nodes) == Cleared(old(LinksOf(nodes)), this)
    {
      SetFirstChild(null, nodes);
      SetNextSibling(null, nodes);
      SetParentNode(null, nodes);
    }
  }

  lemma NextIsSame(was: LinkMap, kids: seq<TreeNode>, j: nat, p: TreeNode, i: nat, nodes: set<TreeNode>)
    requires j <= |kids| && i < |kids| && (forall x :: x in kids ==> x in was && x in nodes) && Chained(kids, was)
    requires LinksOf(nodes) == WithParents(was, kids, j, p)
    ensures kids[i].nextSibling == NextOf(kids, i)
  {
    WithParentsFacts(was, kids, j, p);
    assert LeadsOn(kids, i, was);
    assert LinksOf(nodes)[kids[i]].next == kids[i].nextSibling;
  }

  /** The links after a node is dissolved, with children or without. */
  lemma DissolveLinks(f: Forest, p: TreeNode, k: nat, was: LinkMap) returns (linked: LinkMap)
    requires p.IsIn(f) && k < |f.kids[p]| && f.kids[p][k] in f.kids && p in f.up && f.up[p] != f.kids[p][k]
             && was == LinksOf(f.kids.Keys)
    ensures forall x :: x in f.kids[p] ==> x in f.kids
    ensures var n, s := f.kids[p][k], f.kids[p];
            var kids := f.kids[n];
            && CanBecome(DissolveAt(f, p, k), linked) && DissolveAt(f, p, k).kids.Keys == f.kids.Keys
            && p in was && n in was && (forall x :: x in s ==> x in was)
               && (forall x :: x in kids ==> x in was && x in f.kids) && Distinct(kids)
            && (kids == [] ==> linked == Cleared(LeadTo(was, p, s, k, NextOf(s, k)), n))
            && (kids != [] ==> linked == LinkDissolved(was, p, s, k, kids)
                               && Chained(kids, LeadTo(was, p, s, k, kids[0])))
  {
    var n, s := f.kids[p][k], f.kids[p];
    var kids := f.kids[n];
    DissolveIsForest(f, p, k);
    Child(f, p, k);
    OtherLists(f, p, n);
    assert IsListed(f, n) && n in LinksOf(f.kids.Keys);
    if kids == [] {
      linked := Cleared(LeadTo(was, p, s, k, NextOf(s, k)), n);
      NothingDissolved(f, p, k, was);
    } else {
      linked := LinkDissolved(was, p, s, k, kids);
      LinkDissolvedFacts(was, p, s, k, kids);
      DissolveMatches(f, p, k, was, linked);
      var lead := LeadTo(was, p, s, k, kids[0]);
      assert k > 0 ==> s[k - 1] in s;
      ChainedUnchanged(kids, was, lead);
    }
  }

  /** Dissolving a node without children is taking it out. */
  lemma NothingDissolved(f: Forest, p: TreeNode, k: nat, l: LinkMap)
    requires IsForest(f) && Match(f, l) && p in f.kids && k < |f.kids[p]| && f.kids[p][k] in f.kids
             && f.kids[f.kids[p][k]] == []
    ensures (forall x :: x in f.kids[p] ==> x in l) && f.kids[p][k] in l
    ensures Match(DissolveAt(f, p, k), Cleared(LeadTo(l, p, f.kids[p], k, NextOf(f.kids[p], k)), f.kids[p][k]))
  {
    var n, s := f.kids[p][k], f.kids[p];
    Child(f, p, k);
    DetachMatches(f, p, k, l);
    SameForest(f, p, k);
    NoChildToClear(l, p, s, k, n);
    assert l[n].first == null;
    hide Match, DissolveAt, DetachAt, LinkOut, Cleared, LeadTo;
  }

  lemma SameForest(f: Forest, p: TreeNode, k: nat)
    requires IsForest(f) && p in f.kids && k < |f.kids[p]| && f.kids[p][k] in f.kids && f.kids[f.kids[p][k]] == []
    ensures DissolveAt(f, p, k) == DetachAt(f, p, k)
  {
    var n, s := f.kids[p][k], f.kids[p];
    Child(f, p, k);
    SpliceNothing(s, k);
    forall x | x in f.up ensures f.up[x] != n {
      assert IsPlaced(f, x);
    }
    hide SplicedAt, Without, IsForest, IsListed, IsPlaced;
    UpdateSame(f.kids, p, SplicedAt(s, k, f.kids[n]), n);
    NothingMoves(f.up, n, p);
  }

  lemma UpdateSame<K, V>(m: map<K, V>, p: K, v: V, n: K)
    requires n in m && n != p
    ensures m[p := v][n := m[n]] == m[p := v]
  {
  }

  lemma NothingMoves(up: map<TreeNode, TreeNode?>, n: TreeNode, p: TreeNode)
    requires forall x :: x in up ==> up[x] != n
    ensures (map c | c in up :: if up[c] == n then p else up[c]) == up
  {
  }

  lemma SpliceNothing(s: seq<TreeNode>, k: nat)
    requires k < |s|
    ensures SplicedAt(s, k, []) == Without(s, k)
  {
    EmptyBehind(s[..k]);
  }

  lemma NoChildToClear(l: LinkMap, p: TreeNode, s: seq<TreeNode>, k: nat, n: TreeNode)
    requires p in l && n in l && k < |s| && s[k] == n && n != p && (forall x :: x in s ==> x in l)
    ensures l[n].first == null ==> Cleared(LeadTo(l, p, s, k, NextOf(s, k)), n) == LinkOut(l, p, s, k)
  {
    var lead := LeadTo(l, p, s, k, NextOf(s, k));
    if l[n].first == null {
      assert WithFirst(lead, n, null) == lead;
    }
  }

  // ----- What the operations rely on

  /** When the links have become those of LinkIn, the nodes are linked as after the insertion. */
  lemma AttachLinks(f: Forest, p: TreeNode, k: nat, c: TreeNode)
    requires p.IsIn(f) && k <= |f.kids[p]| && c in f.up && f.up[c] == null && c != p
    ensures var g := Attach(f, p, k, c);
            && g.kids.Keys == f.kids.Keys
            && c in f.kids && (forall x :: x in f.kids[p] ==> x in f.kids)
            && CanBecome(g, LinkIn(LinksOf(f.kids.Keys), p, f.kids[p], k, c))
  {
    AttachIsForest(f, p, k, c);
    AttachMatches(f, p, k, c, LinksOf(f.kids.Keys));
  }

  lemma Starts(f: Forest, p: TreeNode)
    requires p.IsIn(f)
    ensures p.firstChild == null <==> f.kids[p] == []
  {
    p.Follow(f, 0);
  }

  /** The links after the insertion that is asked for. */
  predicate IsPlan(f: Forest, was: LinkMap, p: TreeNode, c: TreeNode, pos: TreeNode?, linked: LinkMap) {
    && p in f.kids && (pos != null ==> pos in f.kids[p]) && Distinct(f.kids[p])
    && was.Keys == f.kids.Keys && c in was && c !in f.kids[p] && was[c].next == null
       && (forall x :: x in f.kids[p] ==> x in was)
    && linked == LinkIn(was, p, f.kids[p], PlaceAfter(f.kids[p], pos), c)
  }

  predicate CanBecome(g: Forest, linked: LinkMap) {
    IsForest(g) && Match(g, linked)
  }

  lemma PlanInsertion(f: Forest, p: TreeNode, c: TreeNode, pos: TreeNode?, was: LinkMap) returns (linked: LinkMap)
    requires p.IsIn(f) && c in f.kids && c in f.up && f.up[c] == null && c != p && was == LinksOf(f.kids.Keys)
    requires pos != null ==> pos in f.kids[p]
    ensures IsPlan(f, was, p, c, pos, linked)
    ensures var g := Attach(f, p, PlaceAfter(f.kids[p], pos), c); CanBecome(g, linked) && g.kids.Keys == f.kids.Keys
    ensures pos != null ==> pos in f.kids
                            && (var s, k := f.kids[p], PlaceAfter(f.kids[p], pos);
                                pos.nextSibling == if k < |s| then s[k] else null)
  {
    AttachLinks(f, p, PlaceAfter(f.kids[p], pos), c);
    Ends(f, p, c, pos);
    linked := LinkIn(was, p, f.kids[p], PlaceAfter(f.kids[p], pos), c);
  }

  /** The links an insertion has to set: into an empty list, after a child, and at the end. */
  lemma InsertedFirst(f: Forest, was: LinkMap, p: TreeNode, c: TreeNode, pos: TreeNode?, linked: LinkMap)
    requires IsPlan(f, was, p, c, pos, linked) && p in f.kids && f.kids[p] == []
    ensures p in was && c in was && linked == WithParent(WithFirst(was, p, c), c, p)
  {
    LinkInIs(was, p, f.kids[p], PlaceAfter(f.kids[p], pos), c);
  }

  lemma InsertedAfter(f: Forest, was: LinkMap, p: TreeNode, c: TreeNode, pos: TreeNode, linked: LinkMap)
    requires IsPlan(f, was, p, c, pos, linked) && p in f.kids && pos in f.kids[p]
    ensures var s, k := f.kids[p], PlaceAfter(f.kids[p], pos);
            && pos in was && c in was
            && linked == WithParent(WithNext(WithNext(was, pos, c), c, if k < |s| then s[k] else null), c, p)
  {
    LinkInIs(was, p, f.kids[p], PlaceAfter(f.kids[p], pos), c);
  }

  lemma InsertedLast(f: Forest, was: LinkMap, p: TreeNode, c: TreeNode, linked: LinkMap)
    requires IsPlan(f, was, p, c, null, linked) && p in f.kids && f.kids[p] != []
    ensures var last := f.kids[p][|f.kids[p]| - 1];
            last in f.kids && last in was && c in was && linked == WithParent(WithNext(was, last, c), c, p)
  {
    LinkInIs(was, p, f.kids[p], PlaceAfter(f.kids[p], null), c);
  }

  lemma DetachLinks(f: Forest, p: TreeNode, k: nat)
    requires p.IsIn(f) && k < |f.kids[p]|
    ensures var g := DetachAt(f, p, k);
            && g.kids.Keys == f.kids.Keys && (forall x :: x in f.kids[p] ==> x in f.kids)
            && CanBecome(g, LinkOut(LinksOf(f.kids.Keys), p, f.kids[p], k))
  {
    DetachIsForest(f, p, k);
    DetachMatches(f, p, k, LinksOf(f.kids.Keys));
  }

  lemma IsBelow(f: Forest, c: TreeNode)
    requires c.IsIn(f) && c in f.up && f.up[c] != null
    ensures c.parent == f.up[c] && f.up[c] in f.kids && c in f.kids[f.up[c]]
            && forall x :: x in f.kids[f.up[c]] ==> x in f.kids
    ensures Detach(f, c) == DetachAt(f, f.up[c], IndexOf(f.kids[f.up[c]], c))
  {
    c.Follow(f, 0);
    assert IsPlaced(f, c) && IsListed(f, f.up[c]);
  }

  lemma LinkedBy(g: Forest, l: LinkMap)
    requires CanBecome(g, l) && LinksOf(g.kids.Keys) == l
    ensures Linked(g)
  {
  }

  lemma Ends(f: Forest, p: TreeNode, child: TreeNode, pos: TreeNode?)
    requires p.IsIn(f) && child in f.kids && child in f.up && f.up[child] == null
    requires pos != null ==> pos in f.kids[p]
    ensures var s := f.kids[p];
            var k := PlaceAfter(s, pos);
            && (p.firstChild == null <==> s == []) && child.nextSibling == null && child !in s
            && LinksOf(f.kids.Keys)[child].next == null
            && (forall x :: x in s ==> x in f.kids) && f.kids.Keys == f.up.Keys
            && if pos == null then k == |s|
               else k > 0 && s[k - 1] == pos && pos.nextSibling == if k < |s| then s[k] else null
  {
    p.Follow(f, if pos != null then IndexOf<TreeNode>(f.kids[p], pos) else 0);
    assert child in LinksOf(f.kids.Keys) && IsListed(f, p);
  }
}
