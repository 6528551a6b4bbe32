/** Indirect access tiles: what they address, and what absorbing one of their variables into
    a loop does to that. */
module IndirectAccess {
  import opened AffineMaps
  import opened Digraph
  import opened Sequences

  /** A captured variable: a value from outside, or the variable of an enclosing loop. */
  datatype Operand = Value(v: int) | Iv(loop: nat)

  /** An access over captured variables followed by intermediate ones. The intermediate
      variables range over a set of points, with sizes as the trip counts found for it; order
      tells which dimension of the tile each one is. Each position names the variable that
      subscripts a dimension of the address buffer; the maps give the direct subscripts. */
  datatype Access = Access(captured: seq<Operand>, sizes: seq<nat>, space: IntegerSet, order: seq<Expr>,
                           shape: seq<nat>,
                           positions: seq<nat>, maps: seq<Expr>)

  function OperandValue(o: Operand, ivs: seq<int>): int {
    match o
    case Value(v) => v
    case Iv(loop) => if loop < |ivs| then ivs[loop] else 0
  }

  /** The values of all variables. */
  function Unified(op: Access, ivs: seq<int>, v: seq<int>): (u: seq<int>)
    ensures |u| == |op.captured| + |v|
  {
    seq(|op.captured|, i requires 0 <= i < |op.captured| => OperandValue(op.captured[i], ivs)) + v
  }

  function EvalAll(maps: seq<Expr>, dims: seq<int>): (s: seq<int>)
    ensures |s| == |maps|
  {
    seq(|maps|, r requires 0 <= r < |maps| => Eval(maps[r], dims))
  }

  function Subscripts(op: Access, ivs: seq<int>, v: seq<int>): (s: seq<int>)
    ensures |s| == |op.maps|
  {
    EvalAll(op.maps, Unified(op, ivs, v))
  }

  function Select(u: seq<int>, positions: seq<nat>): (s: seq<int>)
    ensures |s| == |positions|
  {
    seq(|positions|, i requires 0 <= i < |positions| => if positions[i] < |u| then u[positions[i]] else 0)
  }

  /** Where the address buffer is read. */
  function BufferIndex(op: Access, ivs: seq<int>, v: seq<int>): (s: seq<int>)
    ensures |s| == |op.positions|
  {
    Select(Unified(op, ivs, v), op.positions)
  }

  /** The access stands inside so many loops. */
  ghost predicate WellFormed(op: Access, loops: nat) {
    var dims := |op.captured| + |op.sizes|;
    && IsBox(op.space, op.sizes)
    && |op.order| == |op.sizes| == |op.shape| && AllOver(op.order, |op.sizes|)
    && (forall i :: 0 <= i < |op.positions| ==> op.positions[i] < dims)
    && AllOver(op.maps, dims)
    && (forall i :: 0 <= i < |op.captured| && op.captured[i].Iv? ==> op.captured[i].loop < loops)
  }

  predicate UsedBy(maps: seq<Expr>, d: nat) {
    exists r :: 0 <= r < |maps| && UsesDim(maps[r], d)
  }

  predicate AllOver(maps: seq<Expr>, dims: nat) {
    forall r :: 0 <= r < |maps| ==> Over(maps[r], dims)
  }

  /** A direct subscript depends on variable c. */
  predicate UsedByMaps(op: Access, c: nat) {
    UsedBy(op.maps, |op.captured| + c)
  }

  // ----- Absorbing a variable

  function ReplaceAll(maps: seq<Expr>, repl: seq<Expr>): (r: seq<Expr>)
    ensures |r| == |maps|
  {
    seq(|maps|, i requires 0 <= i < |maps| => Replace(maps[i], repl))
  }

  /** The order without variable c, as a map of one dimension less. */
  function DropFromOrder(order: seq<Expr>, c: nat): (r: seq<Expr>)
    requires c < |order|
    ensures |r| == |order| - 1
  {
    ReplaceAll(Without(order, c), Dropping(|order|, c))
  }

  /** The tile dimension of variable c is known. */
  predicate IsPlain(op: Access, c: nat) {
    c < |op.order| && op.order[c].Dim? && op.order[c].i < |op.shape|
  }

  /** The access with variable c taken out of its own space. */
  function Narrowed(op: Access, c: nat): Access
    requires c < |op.sizes| && IsPlain(op, c) && |op.order| == |op.sizes|
  {
    op.(sizes := Without(op.sizes, c), space := DropDimFromSet(op.space, |op.sizes|, c),
        order := DropFromOrder(op.order, c), shape := Without(op.shape, op.order[c].i))
  }

  /** Absorbs variable c, which subscripts the first dimension of the buffer; the buffer loses
      that dimension. */
  function AbsorbWindow(op: Access, c: nat): Access
    requires c < |op.sizes| && IsPlain(op, c) && |op.order| == |op.sizes| && |op.positions| > 0
  {
    var dim := |op.captured| + c;
    Narrowed(op, c).(
      positions := seq(|op.positions| - 1, i requires 0 <= i < |op.positions| - 1 =>
                         if op.positions[i + 1] > dim then op.positions[i + 1] - 1 else op.positions[i + 1]),
      maps := ReplaceAll(op.maps, Dropping(|op.captured| + |op.sizes|, dim)))
  }

  /** The loop's variable joins the captured ones; variable c becomes absorbed, the ones
      before it move up. */
  function Capturing(captured: nat, dims: nat, c: nat, absorbed: Expr): (repl: seq<Expr>)
    ensures |repl| == dims
  {
    seq(dims, d requires 0 <= d < dims =>
      if d < captured then Dim(d)
          else if d == captured + c then absorbed else if d < captured + c then Dim(d + 1) else Dim(d))
  }

  /** Absorbs variable c, which subscripts the buffer: the buffer is read at the loop's
      variable instead, and maps get 0 in the place of c. */
  function AbsorbEntry(op: Access, c: nat, loop: nat): Access
    requires c < |op.sizes| && IsPlain(op, c) && |op.order| == |op.sizes|
  {
    var n := |op.captured|;
    Narrowed(op, c).(captured := op.captured + [Iv(loop)], positions := [n],
                     maps := ReplaceAll(op.maps, Capturing(n, n + |op.sizes|, c, Const(0))))
  }

  /** Absorbs variable c, which only maps refer to: they refer to the loop's variable instead. */
  function AbsorbDirect(op: Access, c: nat, loop: nat): Access
    requires c < |op.sizes| && IsPlain(op, c) && |op.order| == |op.sizes|
  {
    var n := |op.captured|;
    Narrowed(op, c).(captured := op.captured + [Iv(loop)],
                     maps := ReplaceAll(op.maps, Capturing(n, n + |op.sizes|, c, Dim(n))))
  }

  // ----- What it means

  /** Another loop around an access does not change what it captured. */
  lemma OuterLoop(op: Access, ivs: seq<int>, i: int, v: seq<int>)
    requires WellFormed(op, |ivs|)
    ensures Unified(op, ivs + [i], v) == Unified(op, ivs, v)
  {
    forall k | 0 <= k < |op.captured|
      ensures OperandValue(op.captured[k], ivs + [i]) == OperandValue(op.captured[k], ivs)
    {
    }
  }

  lemma UnifiedInsert(op: Access, ivs: seq<int>, v: seq<int>, c: nat, i: int)
    requires c <= |v|
    ensures Unified(op, ivs, InsertAt(v, c, i)) == InsertAt(Unified(op, ivs, v), |op.captured| + c, i)
  {
  }

  lemma NarrowedIsWellFormed(op: Access, c: nat, loops: nat)
    requires WellFormed(op, loops) && c < |op.sizes| && IsPlain(op, c)
    ensures var r := Narrowed(op, c);
            && IsBox(r.space, r.sizes) && |r.order| == |r.sizes| == |r.shape| == |op.sizes| - 1
               && AllOver(r.order, |r.sizes|)
  {
    var r, n := Narrowed(op, c), |op.sizes|;
    BoxMinusDim(op.space, op.sizes, c);
    forall i | 0 <= i < |r.order| ensures Over(r.order[i], n - 1) {
      assert Without(op.order, c)[i] == op.order[if i < c then i else i + 1];
      ReplaceOver(Without(op.order, c)[i], Dropping(n, c), n - 1);
    }
  }

  /** Replaced maps have the values the maps had, if every dimension that matters has. */
  lemma ReplacedMaps(maps: seq<Expr>, repl: seq<Expr>, before: seq<int>, after: seq<int>)
    requires AllOver(maps, |repl|) && |before| == |repl|
    requires forall d :: 0 <= d < |repl| ==> !UsedBy(maps, d) || Eval(repl[d], after) == before[d]
    requires AllOver(repl, |after|)
    ensures EvalAll(ReplaceAll(maps, repl), after) == EvalAll(maps, before)
    ensures AllOver(ReplaceAll(maps, repl), |after|)
  {
    var r := ReplaceAll(maps, repl);
    forall m | 0 <= m < |maps| ensures Eval(r[m], after) == Eval(maps[m], before) && Over(r[m], |after|) {
      ReplaceMeaning(maps[m], repl, before, after);
      ReplaceOver(maps[m], repl, |after|);
    }
  }

  /** Subscripts that do not depend on a dimension have the same values whatever it is. */
  lemma IgnoredDim(maps: seq<Expr>, u: seq<int>, k: nat, i: int, j: int)
    requires k <= |u| && !UsedBy(maps, k)
    ensures EvalAll(maps, InsertAt(u, k, i)) == EvalAll(maps, InsertAt(u, k, j))
  {
    forall r | 0 <= r < |maps| ensures Eval(maps[r], InsertAt(u, k, i)) == Eval(maps[r], InsertAt(u, k, j)) {
      EvalDepends(maps[r], InsertAt(u, k, i), InsertAt(u, k, j));
    }
  }

  /** Without the dimension the maps have the values they had with 0 there. */
  lemma MapsWithoutDim(maps: seq<Expr>, k: nat, after: seq<int>)
    requires k <= |after| && AllOver(maps, |after| + 1)
    ensures EvalAll(ReplaceAll(maps, Dropping(|after| + 1, k)), after) == EvalAll(maps, InsertAt(after, k, 0))
    ensures AllOver(ReplaceAll(maps, Dropping(|after| + 1, k)), |after|)
  {
    ReplacedMaps(maps, Dropping(|after| + 1, k), InsertAt(after, k, 0), after);
  }

  /** The dimension from c of the ones after the first n moves to their front, or becomes 0. */
  lemma MapsWithCaptured(maps: seq<Expr>, captured: seq<int>, v: seq<int>, c: nat, i: int, absorbed: Expr)
    requires c <= |v| && AllOver(maps, |captured| + |v| + 1)
    requires absorbed == Dim(|captured|) || absorbed == Const(0)
    ensures var r := ReplaceAll(maps, Capturing(|captured|, |captured| + |v| + 1, c, absorbed));
            && EvalAll(r, captured + [i] + v)
               == EvalAll(maps, captured + InsertAt(v, c, if absorbed == Const(0) then 0 else i))
            && AllOver(r, |captured| + |v| + 1)
  {
    var repl := Capturing(|captured|, |captured| + |v| + 1, c, absorbed);
    var before, after := captured + InsertAt(v, c, if absorbed == Const(0) then 0 else i), captured + [i] + v;
    forall d | 0 <= d < |repl| ensures Eval(repl[d], after) == before[d] {
    }
    ReplacedMaps(maps, repl, before, after);
  }

  /** A variable with the job of subscripting the first dimension of the buffer, and no other. */
  predicate OnlySubscriptsFirst(op: Access, c: nat) {
    && |op.positions| > 0 && op.positions[0] == |op.captured| + c
    && (forall i :: 0 < i < |op.positions| ==> op.positions[i] != op.positions[0])
    && !UsedByMaps(op, c)
  }

  /** What a window loop makes of the subscripts, for whatever variable: variable c is 0 in them. */
  lemma WindowSubscripts(op: Access, c: nat, ivs: seq<int>, i: int, v: seq<int>)
    requires WellFormed(op, |ivs|) && c < |op.sizes| && IsPlain(op, c) && |op.positions| > 0 && |v| == |op.sizes| - 1
    ensures Subscripts(AbsorbWindow(op, c), ivs + [i], v) == Subscripts(op, ivs, InsertAt(v, c, 0))
  {
    OuterLoop(op, ivs, i, v);
    UnifiedInsert(op, ivs, v, c, 0);
    var r, after, dim := AbsorbWindow(op, c), Unified(op, ivs, v), |op.captured| + c;
    assert Unified(r, ivs + [i], v) == after;
    hide IsBox, Unified, UsedBy, AllOver, InsertAt, Without, ReplaceAll, DropFromOrder, Select, EvalAll;
    MapsWithoutDim(op.maps, dim, after);
  }

  /** The variable that takes the place of variable c when that is gone. */
  function NextValue(v: seq<int>, c: nat): int {
    if c < |v| then v[c] else 0
  }

  /** In iteration i of a window loop the subscripts are the ones they were exactly if they do not
      tell i from 0, and the buffer is read where it was exactly if no other dimension of it is
      subscripted by variable c, or the next variable happens to be i. */
  lemma WindowKeepsIff(op: Access, c: nat, ivs: seq<int>, i: int, v: seq<int>)
    requires WellFormed(op, |ivs|) && c < |op.sizes| && IsPlain(op, c) && |v| == |op.sizes| - 1
    requires |op.positions| > 0 && op.positions[0] == |op.captured| + c
    ensures var r := AbsorbWindow(op, c);
            && (Subscripts(r, ivs + [i], v) == Subscripts(op, ivs, InsertAt(v, c, i)) <==>
                Subscripts(op, ivs, InsertAt(v, c, i)) == Subscripts(op, ivs, InsertAt(v, c, 0)))
            && ([i] + BufferIndex(r, ivs + [i], v) == BufferIndex(op, ivs, InsertAt(v, c, i)) <==>
                forall k :: 0 < k < |op.positions| && op.positions[k] == op.positions[0] ==> NextValue(v, c) == i)
  {
    WindowSubscripts(op, c, ivs, i, v);
    WindowBuffer(op, c, ivs, i, v);
    hide AbsorbWindow, BufferIndex, Subscripts, IsPlain, WellFormed, NextValue;
  }

  lemma WindowBuffer(op: Access, c: nat, ivs: seq<int>, i: int, v: seq<int>)
    requires WellFormed(op, |ivs|) && c < |op.sizes| && IsPlain(op, c) && |v| == |op.sizes| - 1
    requires |op.positions| > 0 && op.positions[0] == |op.captured| + c
    ensures [i] + BufferIndex(AbsorbWindow(op, c), ivs + [i], v) == BufferIndex(op, ivs, InsertAt(v, c, i)) <==>
            forall k :: 0 < k < |op.positions| && op.positions[k] == op.positions[0] ==> NextValue(v, c) == i
  {
    OuterLoop(op, ivs, i, v);
    UnifiedInsert(op, ivs, v, c, i);
    var r, after, dim := AbsorbWindow(op, c), Unified(op, ivs, v), |op.captured| + c;
    assert Unified(r, ivs + [i], v) == after;
    assert NextValue(v, c) == if dim < |after| then after[dim] else 0;
    hide IsBox, Unified, UsedBy, AllOver, InsertAt, Without, ReplaceAll, DropFromOrder, Select, NextValue;
    WindowPositions(op.positions, r.positions, after, dim, i);
  }

  /** In the loop's iteration i the access is the one it was with i for variable c; the buffer
      it reads is the row i of the one it read. */
  lemma WindowStep(op: Access, c: nat, ivs: seq<int>, i: int, v: seq<int>)
    requires WellFormed(op, |ivs|) && c < |op.sizes| && IsPlain(op, c) && OnlySubscriptsFirst(op, c)
             && |v| == |op.sizes| - 1
    ensures var r := AbsorbWindow(op, c);
            && Subscripts(r, ivs + [i], v) == Subscripts(op, ivs, InsertAt(v, c, i))
            && [i] + BufferIndex(r, ivs + [i], v) == BufferIndex(op, ivs, InsertAt(v, c, i))
  {
    SameSubscripts(op, c, ivs, i, v);
    hide AbsorbWindow, BufferIndex, Subscripts, IsPlain, UsedByMaps;
    WindowKeepsIff(op, c, ivs, i, v);
  }

  lemma SameSubscripts(op: Access, c: nat, ivs: seq<int>, i: int, v: seq<int>)
    requires c <= |v| && !UsedByMaps(op, c)
    ensures Subscripts(op, ivs, InsertAt(v, c, i)) == Subscripts(op, ivs, InsertAt(v, c, 0))
  {
    UnifiedInsert(op, ivs, v, c, i);
    UnifiedInsert(op, ivs, v, c, 0);
    IgnoredDim(op.maps, Unified(op, ivs, v), |op.captured| + c, i, 0);
  }

  lemma WindowPositions(before: seq<nat>, positions: seq<nat>, u: seq<int>, dim: nat, i: int)
    requires |before| > 0 && before[0] == dim <= |u| && |positions| == |before| - 1
    requires forall k :: 0 < k < |before| ==> before[k] <= |u|
    requires forall k :: 0 <= k < |positions| ==>
                           positions[k] == if before[k + 1] > dim then before[k + 1] - 1 else before[k + 1]
    ensures [i] + Select(u, positions) == Select(InsertAt(u, dim, i), before) <==>
            forall k :: 0 < k < |before| && before[k] == dim ==> (if dim < |u| then u[dim] else 0) == i
  {
    var l, r := [i] + Select(u, positions), Select(InsertAt(u, dim, i), before);
    forall k | 0 < k < |before|
      ensures l[k] == r[k] <==> (before[k] == dim ==> (if dim < |u| then u[dim] else 0) == i)
    {
      assert positions[k - 1] == if before[k - 1 + 1] > dim then before[k - 1 + 1] - 1 else before[k - 1 + 1];
    }
    assert l[0] == r[0];
  }

  lemma WindowIsWellFormed(op: Access, c: nat, loops: nat)
    requires WellFormed(op, loops) && c < |op.sizes| && IsPlain(op, c) && OnlySubscriptsFirst(op, c)
    ensures WellFormed(AbsorbWindow(op, c), loops + 1)
  {
    NarrowedIsWellFormed(op, c, loops);
    var r, dims := AbsorbWindow(op, c), |op.captured| + |op.sizes|;
    MapsWithoutDim(op.maps, |op.captured| + c, seq(dims - 1, d => 0));
    hide IsBox, AllOver, ReplaceAll, DropFromOrder, UsedBy;
    forall k | 0 <= k < |r.positions| ensures r.positions[k] < dims - 1 {
      assert op.positions[k + 1] != op.positions[0];
    }
  }

  /** What capturing the loop's variable does: variable c is that variable in the subscripts, or 0. */
  lemma CapturingStep(op: Access, c: nat, ivs: seq<int>, i: int, v: seq<int>, r: Access, absorbed: Expr)
    requires WellFormed(op, |ivs|) && c < |op.sizes| && |v| == |op.sizes| - 1
    requires r.captured == op.captured + [Iv(|ivs|)]
    requires r.maps == ReplaceAll(op.maps, Capturing(|op.captured|, |op.captured| + |op.sizes|, c, absorbed))
    requires absorbed == Dim(|op.captured|) || absorbed == Const(0)
    ensures Subscripts(r, ivs + [i], v)
              == Subscripts(op, ivs, InsertAt(v, c, if absorbed == Const(0) then 0 else i))
    ensures AllOver(r.maps, |r.captured| + |v|)
    ensures var captured := Unified(op, ivs, []);
            && |captured| == |op.captured| && Unified(r, ivs + [i], v) == captured + [i] + v
            && Unified(op, ivs, InsertAt(v, c, i)) == captured + InsertAt(v, c, i)
  {
    OuterLoop(op, ivs, i, []);
    var captured, w := Unified(op, ivs, []), InsertAt(v, c, if absorbed == Const(0) then 0 else i);
    assert Unified(r, ivs + [i], v) == captured + [i] + v;
    assert Unified(op, ivs, InsertAt(v, c, i)) == captured + InsertAt(v, c, i);
    assert Unified(op, ivs, w) == captured + w;
    hide IsBox, Unified, UsedBy, AllOver, InsertAt, ReplaceAll, Capturing;
    MapsWithCaptured(op.maps, captured, v, c, i, absorbed);
  }

  /** What the entry loop makes of an access, for whatever variable: it is 0 in the subscripts, and
      the buffer is read at the loop's variable. */
  lemma EntrySubscripts(op: Access, c: nat, ivs: seq<int>, i: int, v: seq<int>)
    requires WellFormed(op, |ivs|) && c < |op.sizes| && IsPlain(op, c) && |v| == |op.sizes| - 1
    ensures var r := AbsorbEntry(op, c, |ivs|);
            && Subscripts(r, ivs + [i], v) == Subscripts(op, ivs, InsertAt(v, c, 0))
            && BufferIndex(r, ivs + [i], v) == [i]
  {
    var r := AbsorbEntry(op, c, |ivs|);
    hide IsBox, UsedBy, AllOver, ReplaceAll, Capturing, DropFromOrder, EvalAll, Unified;
    CapturingStep(op, c, ivs, i, v, r, Const(0));
  }

  /** In iteration i of the entry loop the subscripts are the ones they were exactly if they do not
      tell i from 0. */
  lemma EntryKeepsIff(op: Access, c: nat, ivs: seq<int>, i: int, v: seq<int>)
    requires WellFormed(op, |ivs|) && c < |op.sizes| && IsPlain(op, c) && |v| == |op.sizes| - 1
    ensures Subscripts(AbsorbEntry(op, c, |ivs|), ivs + [i], v) == Subscripts(op, ivs, InsertAt(v, c, i)) <==>
            Subscripts(op, ivs, InsertAt(v, c, i)) == Subscripts(op, ivs, InsertAt(v, c, 0))
  {
    hide AbsorbEntry, BufferIndex, Subscripts, IsPlain;
    EntrySubscripts(op, c, ivs, i, v);
  }

  /** In the loop's iteration i the access is the one it was with i for variable c. */
  lemma EntryStep(op: Access, c: nat, ivs: seq<int>, i: int, v: seq<int>)
    requires WellFormed(op, |ivs|) && c < |op.sizes| && IsPlain(op, c) && OnlySubscriptsFirst(op, c)
             && |v| == |op.sizes| - 1
    requires |op.positions| == 1
    ensures var r := AbsorbEntry(op, c, |ivs|);
            && Subscripts(r, ivs + [i], v) == Subscripts(op, ivs, InsertAt(v, c, i))
            && BufferIndex(r, ivs + [i], v) == BufferIndex(op, ivs, InsertAt(v, c, i)) == [i]
  {
    SameSubscripts(op, c, ivs, i, v);
    UnifiedInsert(op, ivs, v, c, i);
    assert BufferIndex(op, ivs, InsertAt(v, c, i)) == [i];
    hide AbsorbEntry, BufferIndex, Subscripts, IsPlain, UsedByMaps;
    EntrySubscripts(op, c, ivs, i, v);
  }

  lemma EntryIsWellFormed(op: Access, c: nat, loop: nat)
    requires WellFormed(op, loop) && c < |op.sizes| && IsPlain(op, c)
    ensures WellFormed(AbsorbEntry(op, c, loop), loop + 1) && BufferIsSettled(AbsorbEntry(op, c, loop))
  {
    NarrowedIsWellFormed(op, c, loop);
    CapturedIsOver(op, c, Const(0));
    hide IsBox, UsedBy, AllOver, ReplaceAll, Capturing, DropFromOrder;
  }

  lemma CapturedIsOver(op: Access, c: nat, absorbed: Expr)
    requires AllOver(op.maps, |op.captured| + |op.sizes|) && c < |op.sizes|
    requires absorbed == Dim(|op.captured|) || absorbed == Const(0)
    ensures AllOver(ReplaceAll(op.maps, Capturing(|op.captured|, |op.captured| + |op.sizes|, c, absorbed)),
                    |op.captured| + |op.sizes|)
  {
    MapsWithCaptured(op.maps, seq(|op.captured|, d => 0), seq(|op.sizes| - 1, d => 0), c, 0, absorbed);
  }

  /** No dimension of the buffer is subscripted by an intermediate variable. */
  predicate BufferIsSettled(op: Access) {
    forall i :: 0 <= i < |op.positions| ==> op.positions[i] < |op.captured|
  }

  lemma DirectStep(op: Access, c: nat, ivs: seq<int>, i: int, v: seq<int>)
    requires WellFormed(op, |ivs|) && c < |op.sizes| && IsPlain(op, c) && BufferIsSettled(op) && |v| == |op.sizes| - 1
    ensures var r := AbsorbDirect(op, c, |ivs|);
            && Subscripts(r, ivs + [i], v) == Subscripts(op, ivs, InsertAt(v, c, i))
            && BufferIndex(r, ivs + [i], v) == BufferIndex(op, ivs, InsertAt(v, c, i))
  {
    var r := AbsorbDirect(op, c, |ivs|);
    hide IsBox, UsedBy, AllOver, ReplaceAll, Capturing, DropFromOrder, InsertAt, Unified, EvalAll;
    CapturingStep(op, c, ivs, i, v, r, Dim(|op.captured|));
  }

  lemma DirectIsWellFormed(op: Access, c: nat, loop: nat)
    requires WellFormed(op, loop) && c < |op.sizes| && IsPlain(op, c) && BufferIsSettled(op)
    ensures WellFormed(AbsorbDirect(op, c, loop), loop + 1) && BufferIsSettled(AbsorbDirect(op, c, loop))
  {
    NarrowedIsWellFormed(op, c, loop);
    CapturedIsOver(op, c, Dim(|op.captured|));
    hide IsBox, UsedBy, AllOver, ReplaceAll, Capturing, DropFromOrder;
  }

  /** A subscript that is the row variable itself is lost in every iteration but the first. */
  lemma PlainReferenceIsLost(op: Access, c: nat, ivs: seq<int>, i: int, v: seq<int>, r: nat)
    requires WellFormed(op, |ivs|) && c < |op.sizes| && IsPlain(op, c) && |v| == |op.sizes| - 1
    requires r < |op.maps| && op.maps[r] == Dim(|op.captured| + c)
    ensures Subscripts(AbsorbEntry(op, c, |ivs|), ivs + [i], v) == Subscripts(op, ivs, InsertAt(v, c, i)) <==> i == 0
    ensures |op.positions| > 0 ==>
              (Subscripts(AbsorbWindow(op, c), ivs + [i], v) == Subscripts(op, ivs, InsertAt(v, c, i)) <==> i == 0)
  {
    assert Subscripts(op, ivs, InsertAt(v, c, i))[r] == i && Subscripts(op, ivs, InsertAt(v, c, 0))[r] == 0 by {
      UnifiedInsert(op, ivs, v, c, i);
      UnifiedInsert(op, ivs, v, c, 0);
    }
    hide AbsorbEntry, AbsorbWindow, BufferIndex, Subscripts, IsPlain, WellFormed;
    EntrySubscripts(op, c, ivs, i, v);
    if |op.positions| > 0 {
      WindowSubscripts(op, c, ivs, i, v);
    }
  }

  /** One that the passes take and change: the second of two rows is the subscript, too. */
  lemma ReferenceToRowIsLost()
    ensures var op := Access([], [2], [], [Dim(0)], [2], [0], [Dim(0)]);
            UsedByMaps(op, 0) && Subscripts(op, [], [1]) == [1] && Subscripts(AbsorbEntry(op, 0, 0), [1], []) == [0]
  {
    var op := Access([], [2], [], [Dim(0)], [2], [0], [Dim(0)]);
    assert UsesDim(op.maps[0], 0);
    var r := AbsorbEntry(op, 0, 0);
    assert Capturing(0, 1, 0, Const(0))[0] == Const(0);
    assert r.maps == [Const(0)];
    assert Unified(op, [], [1]) == [1];
  }

  // ----- The order of the tile's dimensions

  /** Every variable is one dimension of the tile, a different one each. */
  predicate IsPermutedOrder(order: seq<Expr>) {
    && (forall j :: 0 <= j < |order| ==> order[j].Dim? && order[j].i < |order|)
    && forall j, k :: 0 <= j < k < |order| ==> order[j] != order[k]
  }

  /** After variable c is dropped the order tells the dimension of every variable that is left
      exactly when c was dimension c, or when no variable at all was. */
  lemma DroppedOrderIsPlain(order: seq<Expr>, c: nat)
    requires c < |order| && IsPermutedOrder(order)
    ensures (forall j :: 0 <= j < |order| - 1 ==> DropFromOrder(order, c)[j].Dim?) <==>
            forall j :: 0 <= j < |order| && order[j] == Dim(c) ==> j == c
  {
    var less := DropFromOrder(order, c);
    forall j | 0 <= j < |less| ensures less[j].Dim? <==> Without(order, c)[j] != Dim(c) {
      DroppedDim(Without(order, c)[j], |order|, c);
    }
    assert forall j :: 0 <= j < |less| ==> Without(order, c)[j] == order[if j < c then j else j + 1];
    if j :| 0 <= j < |order| && order[j] == Dim(c) && j != c {
      var k := if j < c then j else j - 1;
      assert Without(order, c)[k] == Dim(c);
      assert !less[k].Dim?;
    }
  }

  /** The number of an element behind the one that is taken out at k is one less. */
  function Shifted(j: nat, k: nat): nat {
    if j > k then j - 1 else j
  }

  /** The tile's shape without the dimension of variable c has every other extent, in order. */
  lemma OtherExtentsStay(op: Access, c: nat, j: nat)
    requires c < |op.sizes| && IsPlain(op, c) && |op.order| == |op.sizes| && j < |op.shape| && j != op.order[c].i
    ensures var r := Narrowed(op, c);
            |r.shape| == |op.shape| - 1 && Shifted(j, op.order[c].i) < |r.shape|
            && r.shape[Shifted(j, op.order[c].i)] == op.shape[j]
  {
  }

  /** The narrowed access tells the place of the extent that variable e had. */
  predicate KeepsDimension(op: Access, c: nat, e: nat)
    requires c < |op.sizes| && IsPlain(op, c) && |op.order| == |op.sizes| && IsPlain(op, e)
  {
    var r := Narrowed(op, c);
    IsPlain(r, Shifted(e, c)) && r.order[Shifted(e, c)].i == Shifted(op.order[e].i, op.order[c].i)
  }

  /** Which it does exactly if the variable was not dimension c, and its dimension was on the same
      side of c as of the dimension that goes. */
  lemma DimensionIsKept(op: Access, c: nat, e: nat)
    requires c < |op.sizes| && e < |op.sizes| && e != c && IsPermutedOrder(op.order) && |op.order| == |op.sizes|
    requires |op.shape| == |op.sizes|
    ensures IsPlain(op, c) && IsPlain(op, e)
    ensures KeepsDimension(op, c, e) <==>
            op.order[e].i != c && (op.order[e].i < c <==> op.order[e].i < op.order[c].i)
  {
    var less := Without(op.order, c);
    assert less[Shifted(e, c)] == op.order[e];
    DroppedDim(op.order[e], |op.order|, c);
    assert op.order[e] != op.order[c];
    assert DropFromOrder(op.order, c)[Shifted(e, c)] == Replace(op.order[e], Dropping(|op.order|, c));
    hide Replace, Dropping;
  }

  /** All other variables keep their dimensions exactly if c was dimension c. */
  lemma DimensionsAreKept(op: Access, c: nat)
    requires c < |op.sizes| && IsPermutedOrder(op.order) && |op.order| == |op.shape| == |op.sizes|
    ensures (forall e: nat :: e < |op.sizes| ==> IsPlain(op, e)) && IsPlain(op, c)
    ensures (forall e: nat :: e < |op.sizes| && e != c ==> KeepsDimension(op, c, e)) <==> op.order[c] == Dim(c)
  {
    forall e: nat | e < |op.sizes| && e != c
      ensures KeepsDimension(op, c, e) <==>
              op.order[e].i != c && (op.order[e].i < c <==> op.order[e].i < op.order[c].i)
    {
      DimensionIsKept(op, c, e);
    }
    hide KeepsDimension;
    if op.order[c] != Dim(c) {
      var e := WhoIs(op.order, c);
      assert !KeepsDimension(op, c, e);
    } else {
      forall e: nat | e < |op.sizes| && e != c ensures KeepsDimension(op, c, e) {
        assert op.order[e] != op.order[c];
      }
    }
  }

  /** Variable j is dimension j of the tile, which has as many elements there as the variable has values. */
  predicate MatchesTile(op: Access) {
    && |op.order| == |op.sizes| && op.shape == op.sizes
    && forall j :: 0 <= j < |op.order| ==> op.order[j] == Dim(j)
  }

  /** With the dimensions in the order of the variables all narrowing keeps it so. */
  lemma NarrowedMatchesTile(op: Access, c: nat)
    requires MatchesTile(op) && c < |op.sizes| && IsPlain(op, c)
    ensures MatchesTile(Narrowed(op, c))
  {
    var r := Narrowed(op, c);
    forall j | 0 <= j < |r.order| ensures r.order[j] == Dim(j) {
      var e := if j < c then j else j + 1;
      assert Without(op.order, c)[j] == op.order[e];
      DroppedDim(op.order[e], |op.order|, c);
    }
  }

  /** Every dimension is that of some variable. */
  lemma WhoIs(order: seq<Expr>, k: nat) returns (e: nat)
    requires IsPermutedOrder(order) && k < |order|
    ensures e < |order| && order[e] == Dim(k)
  {
    var n := |order|;
    var dims := seq(n, j requires 0 <= j < n => order[j].i);
    assert Distinct(dims) by {
      assert forall j, k :: 0 <= j < k < n ==> order[j] != order[k];
    }
    DistinctCardinality(dims);
    if k !in Elems(dims) {
      FewerThan(Elems(dims), Below(n), k);
    }
    e :| 0 <= e < n && dims[e] == k;
  }

  lemma FewerThan(a: set<int>, b: set<int>, k: int)
    requires a <= b && k in b && k !in a
    ensures |a| < |b|
  {
    assert b == (a + {k}) + (b - a - {k});
    assert |a + {k}| == |a| + 1;
  }

  function Below(n: nat): (all: set<int>)
    ensures (forall j :: j in all <==> 0 <= j < n) && |all| == n
  {
    if n == 0 then {} else Below(n - 1) + {n - 1}
  }
}
