/** Affine expressions, integer sets made of affine constraints, and what dropping or pinning
    a dimension does to them. */
module AffineMaps {
  import opened Sequences

  datatype BinaryOp = Add | Mul | Mod | FloorDiv | CeilDiv

  datatype Expr = Dim(i: nat) | Const(c: int) | Binary(op: BinaryOp, l: Expr, r: Expr)

  /** A division by zero or less has no meaning; it is given the value 0. */
  function Apply(op: BinaryOp, a: int, b: int): int {
    match op
    case Add => a + b
    case Mul => a * b
    case Mod => if b > 0 then a % b else 0
    case FloorDiv => if b > 0 then a / b else 0
    case CeilDiv => if b > 0 then -(-a / b) else 0
  }

  function Eval(e: Expr, dims: seq<int>): int {
    match e
    case Dim(i) => if i < |dims| then dims[i] else 0
    case Const(c) => c
    case Binary(op, l, r) => Apply(op, Eval(l, dims), Eval(r, dims))
  }

  predicate UsesDim(e: Expr, d: nat) {
    match e
    case Dim(i) => i == d
    case Const(_) => false
    case Binary(_, l, r) => UsesDim(l, d) || UsesDim(r, d)
  }

  /** The expression is over n dimensions. */
  predicate Over(e: Expr, n: nat) {
    match e
    case Dim(i) => i < n
    case Const(_) => true
    case Binary(_, l, r) => Over(l, n) && Over(r, n)
  }

  function Replace(e: Expr, to: seq<Expr>): Expr {
    match e
    case Dim(i) => if i < |to| then to[i] else e
    case Const(_) => e
    case Binary(op, l, r) => Binary(op, Replace(l, to), Replace(r, to))
  }

  /** Replacing dimensions keeps the value if each one that matters is replaced by something
      that has its value. */
  lemma {:induction false} ReplaceMeaning(e: Expr, to: seq<Expr>, before: seq<int>, after: seq<int>)
    requires Over(e, |to|) && |before| == |to|
    requires forall d :: 0 <= d < |to| && UsesDim(e, d) ==> Eval(to[d], after) == before[d]
    ensures Eval(Replace(e, to), after) == Eval(e, before)
  {
    match e
    case Dim(i) =>
      assert UsesDim(e, i);
    case Const(_) =>
    case Binary(_, l, r) =>
      ReplaceMeaning(l, to, before, after);
      ReplaceMeaning(r, to, before, after);
  }

  /** The value depends on the dimensions the expression uses and no others. */
  lemma {:induction false} EvalDepends(e: Expr, a: seq<int>, b: seq<int>)
    requires |a| == |b| && forall d: nat :: d < |a| && UsesDim(e, d) ==> a[d] == b[d]
    ensures Eval(e, a) == Eval(e, b)
  {
    match e
    case Dim(i) =>
      assert UsesDim(e, i);
    case Const(_) =>
    case Binary(_, l, r) =>
      EvalDepends(l, a, b);
      EvalDepends(r, a, b);
  }

  /** Replacing twice is replacing once. */
  lemma {:induction false} ReplaceTwice(e: Expr, a: seq<Expr>, b: seq<Expr>, both: seq<Expr>)
    requires Over(e, |a|) && |both| == |a| && forall d :: 0 <= d < |a| ==> both[d] == Replace(a[d], b)
    ensures Replace(Replace(e, a), b) == Replace(e, both)
  {
    match e
    case Dim(_) =>
    case Const(_) =>
    case Binary(_, l, r) =>
      ReplaceTwice(l, a, b, both);
      ReplaceTwice(r, a, b, both);
  }

  lemma {:induction false} ReplaceOver(e: Expr, to: seq<Expr>, n: nat)
    requires Over(e, |to|) && forall d :: 0 <= d < |to| ==> Over(to[d], n)
    ensures Over(Replace(e, to), n)
  {
    match e
    case Dim(_) =>
    case Const(_) =>
    case Binary(_, l, r) =>
      ReplaceOver(l, to, n);
      ReplaceOver(r, to, n);
  }

  /** A replaced expression uses what the replacements of the dimensions it used use. */
  lemma {:induction false} ReplaceUses(e: Expr, to: seq<Expr>, d: nat)
    requires Over(e, |to|)
    ensures UsesDim(Replace(e, to), d) <==> exists c: nat :: c < |to| && UsesDim(e, c) && UsesDim(to[c], d)
  {
    match e
    case Dim(i) =>
      assert UsesDim(e, i);
    case Const(_) =>
    case Binary(_, l, r) =>
      ReplaceUses(l, to, d);
      ReplaceUses(r, to, d);
  }

  // ----- Dropping a dimension

  /** Dimension k becomes 0, the ones after it move down. */
  function Dropping(n: nat, k: nat): (to: seq<Expr>)
    requires k < n
    ensures |to| == n
  {
    seq(n, i requires 0 <= i < n => if i < k then Dim(i) else if i == k then Const(0) else Dim(i - 1))
  }

  lemma DroppingMeaning(e: Expr, n: nat, k: nat, v: seq<int>)
    requires k < n && Over(e, n) && |v| == n - 1
    ensures Eval(Replace(e, Dropping(n, k)), v) == Eval(e, InsertAt(v, k, 0))
    ensures Over(Replace(e, Dropping(n, k)), n - 1)
  {
    ReplaceMeaning(e, Dropping(n, k), InsertAt(v, k, 0), v);
    ReplaceOver(e, Dropping(n, k), n - 1);
  }

  /** A result that was a plain dimension still is, unless it was the dropped one. */
  lemma DroppedDim(e: Expr, n: nat, k: nat)
    requires k < n && Over(e, n)
    ensures var f := Replace(e, Dropping(n, k));
            f.Dim? <==> e.Dim? && e.i != k
    ensures e.Dim? && e.i != k ==> Replace(e, Dropping(n, k)) == Dim(if e.i < k then e.i else e.i - 1)
  {
  }

  datatype Constraint = Constraint(expr: Expr, isEquality: bool)

  type IntegerSet = seq<Constraint>

  predicate SetOver(s: IntegerSet, n: nat) {
    forall i :: 0 <= i < |s| ==> Over(s[i].expr, n)
  }

  predicate Holds(c: Constraint, v: seq<int>) {
    if c.isEquality then Eval(c.expr, v) == 0 else Eval(c.expr, v) >= 0
  }

  predicate Contains(s: IntegerSet, v: seq<int>) {
    forall i :: 0 <= i < |s| ==> Holds(s[i], v)
  }

  function DropDimFromSet(s: IntegerSet, n: nat, k: nat): (r: IntegerSet)
    requires k < n
    ensures |r| == |s|
  {
    seq(|s|, i requires 0 <= i < |s| => s[i].(expr := Replace(s[i].expr, Dropping(n, k))))
  }

  /** The points left are those that were in the set with a 0 at the dropped dimension. */
  lemma DropDimMeaning(s: IntegerSet, n: nat, k: nat, v: seq<int>)
    requires k < n && SetOver(s, n) && |v| == n - 1
    ensures Contains(DropDimFromSet(s, n, k), v) <==> Contains(s, InsertAt(v, k, 0))
    ensures SetOver(DropDimFromSet(s, n, k), n - 1)
  {
    var r := DropDimFromSet(s, n, k);
    forall i | 0 <= i < |s| ensures (Holds(r[i], v) <==> Holds(s[i], InsertAt(v, k, 0))) && Over(r[i].expr, n - 1) {
      DroppingMeaning(s[i].expr, n, k, v);
    }
  }

  // ----- Boxes

  predicate InBox(v: seq<int>, sizes: seq<nat>) {
    |v| == |sizes| && forall i :: 0 <= i < |v| ==> 0 <= v[i] < sizes[i]
  }

  /** The set is a box that starts at 0 and is not empty. */
  ghost predicate IsBox(s: IntegerSet, sizes: seq<nat>) {
    && SetOver(s, |sizes|)
    && (forall i :: 0 <= i < |sizes| ==> sizes[i] > 0)
    && forall v: seq<int> :: |v| == |sizes| ==> (Contains(s, v) <==> InBox(v, sizes))
  }

  lemma InsertInBox(v: seq<int>, sizes: seq<nat>, k: nat, x: int)
    requires k < |sizes| && |v| == |sizes| - 1
    ensures InBox(InsertAt(v, k, x), sizes) <==> 0 <= x < sizes[k] && InBox(v, Without(sizes, k))
  {
    var w, less := InsertAt(v, k, x), Without(sizes, k);
    assert forall i :: 0 <= i < |v| ==>
                         v[i] == w[if i < k then i else i + 1] && less[i] == sizes[if i < k then i else i + 1];
    assert w[k] == x;
    if 0 <= x < sizes[k] && InBox(v, less) {
      forall i | 0 <= i < |w| && i != k ensures 0 <= w[i] < sizes[i] {
        var j := if i < k then i else i - 1;
        assert 0 <= v[j] < less[j];
      }
    }
  }

  /** A loop over the dropped dimension and the reduced set cover the box, each point once. */
  lemma BoxMinusDim(s: IntegerSet, sizes: seq<nat>, k: nat)
    requires k < |sizes| && IsBox(s, sizes)
    ensures IsBox(DropDimFromSet(s, |sizes|, k), Without(sizes, k))
    ensures forall v: seq<int> :: |v| == |sizes| ==>
              (Contains(s, v) <==> 0 <= v[k] < sizes[k] && Contains(DropDimFromSet(s, |sizes|, k), Without(v, k)))
  {
    var r, less, n := DropDimFromSet(s, |sizes|, k), Without(sizes, k), |sizes|;
    forall v: seq<int> | |v| == n - 1 ensures SetOver(r, n - 1) && (Contains(r, v) <==> InBox(v, less)) {
      DropDimMeaning(s, n, k, v);
      InsertInBox(v, sizes, k, 0);
    }
    assert |seq(n - 1, i => 0)| == n - 1;
    forall v: seq<int> | |v| == n
      ensures Contains(s, v) <==> 0 <= v[k] < sizes[k] && Contains(r, Without(v, k))
    {
      assert InsertAt(Without(v, k), k, v[k]) == v;
      InsertInBox(Without(v, k), sizes, k, v[k]);
    }
  }

  // ----- Pinning a dimension

  function PinDimInSet(s: IntegerSet, k: nat): IntegerSet {
    s + [Constraint(Dim(k), true)]
  }

  lemma PinDimMeaning(s: IntegerSet, k: nat, v: seq<int>)
    requires k < |v|
    ensures Contains(PinDimInSet(s, k), v) <==> Contains(s, v) && v[k] == 0
  {
    var p := PinDimInSet(s, k);
    assert p[|s|] == Constraint(Dim(k), true);
    assert forall i :: 0 <= i < |s| ==> p[i] == s[i];
  }

  /** A direct access tile: the points of a set, moved by the indices. */
  datatype Tile = Tile(indices: seq<int>, space: IntegerSet, shape: seq<nat>)

  ghost predicate IsTile(t: Tile) {
    |t.indices| == |t.shape| && IsBox(t.space, t.shape)
  }

  function Moved(indices: seq<int>, v: seq<int>): (x: seq<int>)
    requires |indices| == |v|
    ensures |x| == |v| && forall d :: 0 <= d < |x| ==> x[d] == indices[d] + v[d]
  {
    seq(|v|, d requires 0 <= d < |v| => indices[d] + v[d])
  }

  ghost predicate Touches(t: Tile, x: seq<int>) {
    exists v :: |v| == |t.indices| && Contains(t.space, v) && Moved(t.indices, v) == x
  }

  /** The tile of one iteration: dimension k at iv, the ones before it as they were, the ones
      after it from 0. */
  function PinTile(t: Tile, k: nat, iv: int): (r: Tile)
    requires k < |t.indices| == |t.shape|
    ensures |r.indices| == |r.shape| == |t.shape|
  {
    Tile(seq(|t.indices|, d requires 0 <= d < |t.indices| => if d < k then t.indices[d] else if d == k then iv else 0),
         PinDimInSet(t.space, k), t.shape[k := 1])
  }

  lemma PinnedIsBox(t: Tile, k: nat, iv: int)
    requires IsTile(t) && k < |t.indices|
    ensures IsTile(PinTile(t, k, iv))
  {
    var p := PinTile(t, k, iv);
    forall v: seq<int> | |v| == |t.shape| ensures Contains(p.space, v) <==> InBox(v, p.shape) {
      PinDimMeaning(t.space, k, v);
      if InBox(v, p.shape) {
        forall i | 0 <= i < |v| ensures 0 <= v[i] < t.shape[i] {
          assert 0 <= v[i] < p.shape[i];
        }
        assert 0 <= v[k] < p.shape[k];
      }
    }
  }

  /** What a tile touches, told without its points. */
  lemma TouchesBox(t: Tile, x: seq<int>)
    requires IsTile(t)
    ensures Touches(t, x) <==> |x| == |t.indices|
                               && forall d :: 0 <= d < |x| ==> t.indices[d] <= x[d] < t.indices[d] + t.shape[d]
  {
    if |x| == |t.indices| && forall d :: 0 <= d < |x| ==> t.indices[d] <= x[d] < t.indices[d] + t.shape[d] {
      var v := seq(|x|, d requires 0 <= d < |x| => x[d] - t.indices[d]);
      assert InBox(v, t.shape) && Moved(t.indices, v) == x;
    }
  }

  /** The pinned tiles of all iterations touch what the tile touched. */
  ghost predicate PinsCover(t: Tile, k: nat)
    requires k < |t.indices| == |t.shape|
  {
    forall x :: Touches(t, x) <==> exists iv :: 0 <= iv < t.shape[k] && Touches(PinTile(t, k, iv), x)
  }

  /** They do exactly when the tile started at 0 from dimension k on. */
  lemma PinnedTilesCover(t: Tile, k: nat)
    requires IsTile(t) && k < |t.indices|
    ensures PinsCover(t, k) <==> forall d :: k <= d < |t.indices| ==> t.indices[d] == 0
  {
    if PinsCover(t, k) {
      forall d | k <= d < |t.indices| ensures t.indices[d] == 0 {
        PinnedTileStart(t, k, d);
      }
    }
    if forall d :: k <= d < |t.indices| ==> t.indices[d] == 0 {
      forall x ensures Touches(t, x) <==> exists iv :: 0 <= iv < t.shape[k] && Touches(PinTile(t, k, iv), x) {
        PinnedTileFor(t, k, x);
      }
    }
  }

  lemma PinnedTouches(t: Tile, k: nat, iv: int, x: seq<int>)
    requires IsTile(t) && k < |t.indices|
    ensures Touches(PinTile(t, k, iv), x) <==>
            && |x| == |t.indices| && x[k] == iv
            && (forall d :: 0 <= d < k ==> t.indices[d] <= x[d] < t.indices[d] + t.shape[d])
            && (forall d :: k < d < |x| ==> 0 <= x[d] < t.shape[d])
  {
    PinnedIsBox(t, k, iv);
    TouchesBox(PinTile(t, k, iv), x);
    var p := PinTile(t, k, iv);
    if Touches(p, x) {
      assert p.indices[k] <= x[k] < p.indices[k] + p.shape[k];
      forall d | 0 <= d < |x| && d != k ensures p.indices[d] <= x[d] < p.indices[d] + t.shape[d] {
        assert p.shape[d] == t.shape[d];
      }
    }
  }

  lemma PinnedTileFor(t: Tile, k: nat, x: seq<int>)
    requires IsTile(t) && k < |t.indices| && forall d :: k <= d < |t.indices| ==> t.indices[d] == 0
    ensures Touches(t, x) <==> exists iv :: 0 <= iv < t.shape[k] && Touches(PinTile(t, k, iv), x)
  {
    hide Touches;
    TouchesBox(t, x);
    forall iv ensures Touches(PinTile(t, k, iv), x) ==> |x| == |t.indices| && x[k] == iv {
      PinnedTouches(t, k, iv, x);
    }
    if |x| == |t.indices| {
      PinnedTouches(t, k, x[k], x);
    }
  }

  /** A point that both the tile and one of the pinned ones touch is at most at the pinned tile's end. */
  lemma PinnedPoint(t: Tile, k: nat, x: seq<int>)
    requires IsTile(t) && k < |t.indices| && PinsCover(t, k) && Touches(t, x)
    ensures |x| == |t.indices| && forall d :: k <= d < |x| ==> 0 <= x[d] < t.shape[d]
  {
    var iv :| 0 <= iv < t.shape[k] && Touches(PinTile(t, k, iv), x);
    hide Touches, IsTile;
    PinnedTouches(t, k, iv, x);
  }

  lemma PinnedTileStart(t: Tile, k: nat, d: nat)
    requires IsTile(t) && k <= d < |t.indices| && PinsCover(t, k)
    ensures t.indices[d] == 0
  {
    var first, last := t.indices, t.indices[d := t.indices[d] + t.shape[d] - 1];
    assert forall i :: 0 <= i < |t.shape| ==> t.shape[i] > 0;
    hide Touches, IsBox, PinsCover;
    TouchesBox(t, first);
    TouchesBox(t, last);
    PinnedPoint(t, k, first);
    PinnedPoint(t, k, last);
    assert last[d] == t.indices[d] + t.shape[d] - 1;
  }

  // ----- Folding pinned dimensions away

  function Range(lo: nat, hi: nat): (r: seq<nat>)
    requires lo <= hi
    ensures |r| == hi - lo && forall i :: 0 <= i < |r| ==> r[i] == lo + i
  {
    seq(hi - lo, i requires 0 <= i < hi - lo => lo + i)
  }

  /** The leading dimensions and the first free one in a group, every other one by itself. */
  method MakeLeadingFoldReassociation(rank: nat, folded: nat) returns (groups: seq<seq<nat>>)
    ensures groups == LeadingFold(rank, folded)
  {
    var first: seq<nat> := [];
    for d := 0 to folded + 1
      invariant first == Range(0, d)
    {
      first := first + [d];
    }
    groups := [first];
    var d := folded + 1;
    while d < rank
      invariant folded + 1 <= d && (d <= rank || d == folded + 1)
      invariant groups == [Range(0, folded + 1)] + Singles(folded + 1, d - folded - 1)
    {
      groups := groups + [[d]];
      d := d + 1;
    }
  }

  function Singles(lo: nat, n: nat): (r: seq<seq<nat>>)
    ensures |r| == n && forall i :: 0 <= i < n ==> r[i] == [lo + i]
  {
    seq(n, i requires 0 <= i < n => [lo + i])
  }

  function LeadingFold(rank: nat, folded: nat): seq<seq<nat>> {
    [Range(0, folded + 1)] + Singles(folded + 1, if rank > folded + 1 then rank - folded - 1 else 0)
  }

  lemma {:induction false} FlattenSingles(lo: nat, n: nat)
    ensures Flatten(Singles(lo, n)) == Range(lo, lo + n)
    decreases n
  {
    if n > 0 {
      FlattenSingles(lo + 1, n - 1);
      assert Singles(lo, n)[1..] == Singles(lo + 1, n - 1);
      assert Flatten(Singles(lo, n)) == [lo] + Range(lo + 1, lo + n);
    }
  }

  /** The groups split the dimensions exactly when a free dimension is left. */
  lemma FoldPartitions(rank: nat, folded: nat)
    ensures Flatten(LeadingFold(rank, folded)) == Range(0, rank) <==> folded < rank
  {
    var n := if rank > folded + 1 then rank - folded - 1 else 0;
    var rest := Singles(folded + 1, n);
    FlattenSingles(folded + 1, n);
    var all: seq<seq<nat>> := LeadingFold(rank, folded);
    assert all[0] == Range(0, folded + 1) && all[1..] == rest;
    assert Flatten(all) == all[0] + Flatten(all[1..]);
    if folded < rank {
      assert Range(0, folded + 1) + Range(folded + 1, folded + 1 + n) == Range(0, rank);
    } else {
      assert |Range(0, folded + 1)| > |Range(0, rank)|;
    }
  }

  function Product(shape: seq<nat>): nat {
    if shape == [] then 1 else shape[0] * Product(shape[1..])
  }

  /** The shape once each group is folded into one dimension. */
  function FoldedShape(shape: seq<nat>, groups: seq<seq<nat>>): seq<nat>
    requires forall g, i :: 0 <= g < |groups| && 0 <= i < |groups[g]| ==> groups[g][i] < |shape|
  {
    seq(|groups|, g requires 0 <= g < |groups| =>
      Product(seq(|groups[g]|, i requires 0 <= i < |groups[g]| => shape[groups[g][i]])))
  }

  lemma {:induction false} LeadingOnes(shape: seq<nat>)
    requires |shape| > 0 && forall i :: 0 <= i < |shape| - 1 ==> shape[i] == 1
    ensures Product(shape) == shape[|shape| - 1]
  {
    if |shape| > 1 {
      LeadingOnes(shape[1..]);
    } else {
      assert Product(shape[1..]) == 1;
    }
  }

  /** Folding dimensions of size 1 into the first free one takes them away. */
  lemma FoldDropsPinned(shape: seq<nat>, folded: nat)
    requires folded < |shape| && forall i :: 0 <= i < folded ==> shape[i] == 1
    ensures var groups := LeadingFold(|shape|, folded);
            && (forall g, i :: 0 <= g < |groups| && 0 <= i < |groups[g]| ==> groups[g][i] < |shape|)
            && FoldedShape(shape, groups) == shape[folded..]
  {
    var groups := LeadingFold(|shape|, folded);
    var r := FoldedShape(shape, groups);
    assert |groups| == |shape| - folded;
    var first := seq(|groups[0]|, i requires 0 <= i < |groups[0]| => shape[groups[0][i]]);
    LeadingOnes(first);
    forall g | 0 < g < |groups| ensures r[g] == shape[folded + g] {
      var s := seq(|groups[g]|, i requires 0 <= i < |groups[g]| => shape[groups[g][i]]);
      LeadingOnes(s);
    }
  }
}
