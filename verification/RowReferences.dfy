/** Direct subscripts that refer to variables which subscript the address buffer: the passes put 0
    for these, so what they make of an access is what they make of one without such references. */
module RowReferences {
  import opened AffineMaps
  import opened IndirectAccess
  import opened Sequences

  /** The dimensions at the positions become 0. */
  function Blanking(n: nat, positions: seq<nat>): (to: seq<Expr>)
    ensures |to| == n
  {
    seq(n, d requires 0 <= d < n => if d in positions then Const(0) else Dim(d))
  }

  /** The access with 0 in its subscripts for every variable that subscripts the buffer. */
  function Blanked(op: Access): Access {
    op.(maps := ReplaceAll(op.maps, Blanking(|op.captured| + |op.sizes|, op.positions)))
  }

  /** The point with 0 for every variable that subscripts the buffer. */
  function AtNoRow(op: Access, p: seq<int>): (z: seq<int>)
    ensures |z| == |p|
  {
    seq(|p|, x requires 0 <= x < |p| => if |op.captured| + x in op.positions then 0 else p[x])
  }

  lemma BlankedSubscripts(op: Access, p: seq<int>)
    requires AllOver(op.maps, |op.captured| + |op.sizes|) && |p| == |op.sizes|
    requires forall k :: 0 <= k < |op.positions| ==> op.positions[k] >= |op.captured|
    ensures Subscripts(Blanked(op), [], p) == Subscripts(op, [], AtNoRow(op, p))
    ensures BufferIndex(Blanked(op), [], p) == BufferIndex(op, [], p)
    ensures AllOver(Blanked(op).maps, |op.captured| + |op.sizes|)
  {
    var before, after := Unified(op, [], AtNoRow(op, p)), Unified(op, [], p);
    var repl := Blanking(|op.captured| + |op.sizes|, op.positions);
    forall d | 0 <= d < |repl| ensures Eval(repl[d], after) == before[d] {
    }
    ReplacedMaps(op.maps, repl, before, after);
    assert Unified(Blanked(op), [], p) == after;
  }

  lemma BlankedUses(op: Access, r: nat, d: nat)
    requires AllOver(op.maps, |op.captured| + |op.sizes|) && r < |op.maps| && d < |op.captured| + |op.sizes|
    ensures UsesDim(Blanked(op).maps[r], d) <==> UsesDim(op.maps[r], d) && d !in op.positions
  {
    var repl := Blanking(|op.captured| + |op.sizes|, op.positions);
    ReplaceUses(op.maps[r], repl, d);
    assert UsesDim(repl[d], d) <==> d !in op.positions;
  }

  /** Replacing in all maps twice is replacing once. */
  lemma ReplaceAllTwice(maps: seq<Expr>, a: seq<Expr>, b: seq<Expr>, both: seq<Expr>)
    requires AllOver(maps, |a|) && |both| == |a| && forall d :: 0 <= d < |a| ==> both[d] == Replace(a[d], b)
    ensures ReplaceAll(ReplaceAll(maps, a), b) == ReplaceAll(maps, both)
  {
    forall r | 0 <= r < |maps| ensures Replace(Replace(maps[r], a), b) == Replace(maps[r], both) {
      ReplaceTwice(maps[r], a, b, both);
    }
  }

  /** A window loop does with the blanked access what it does with the access. */
  lemma WindowBlanks(op: Access, c: nat)
    requires AllOver(op.maps, |op.captured| + |op.sizes|) && c < |op.sizes| == |op.order| && IsPlain(op, c)
    requires |op.positions| > 0 && op.positions[0] == |op.captured| + c
    requires forall k :: 0 < k < |op.positions| ==> op.positions[k] != op.positions[0]
    ensures AbsorbWindow(Blanked(op), c) == Blanked(AbsorbWindow(op, c))
  {
    var r, n, dim := AbsorbWindow(op, c), |op.captured| + |op.sizes|, |op.captured| + c;
    var blank, drop, blankLess := Blanking(n, op.positions), Dropping(n, dim), Blanking(n - 1, r.positions);
    forall d | 0 <= d < n - 1 ensures d in r.positions <==> (if d < dim then d else d + 1) in op.positions {
      RestOfPositions(op.positions, r.positions, dim, d);
    }
    assert dim in op.positions;
    var both := seq(n, d requires 0 <= d < n => Replace(blank[d], drop));
    assert forall d :: 0 <= d < n ==> both[d] == Replace(drop[d], blankLess);
    hide AllOver, Blanking, Dropping, ReplaceAll, Without;
    ReplaceAllTwice(op.maps, blank, drop, both);
    ReplaceAllTwice(op.maps, drop, blankLess, both);
  }

  lemma RestOfPositions(before: seq<nat>, positions: seq<nat>, dim: nat, d: nat)
    requires |before| > 0 && before[0] == dim && |positions| == |before| - 1
    requires forall k :: 0 < k < |before| ==> before[k] != dim
    requires forall k :: 0 <= k < |positions| ==>
                           positions[k] == if before[k + 1] > dim then before[k + 1] - 1 else before[k + 1]
    ensures d in positions <==> (if d < dim then d else d + 1) in before
  {
    var e := if d < dim then d else d + 1;
    if e in before {
      var k :| 0 <= k < |before| && before[k] == e;
      assert positions[k - 1] == if before[k - 1 + 1] > dim then before[k - 1 + 1] - 1 else before[k - 1 + 1];
    }
    if d in positions {
      var k :| 0 <= k < |positions| && positions[k] == d;
      assert before[k + 1] == e;
    }
  }

  /** The entry loop leaves nothing of the difference. */
  lemma EntryBlanks(op: Access, c: nat, loop: nat)
    requires AllOver(op.maps, |op.captured| + |op.sizes|) && c < |op.sizes| == |op.order| && IsPlain(op, c)
    requires op.positions == [|op.captured| + c]
    ensures AbsorbEntry(Blanked(op), c, loop) == AbsorbEntry(op, c, loop)
  {
    var n := |op.captured| + |op.sizes|;
    var blank, capture := Blanking(n, op.positions), Capturing(|op.captured|, n, c, Const(0));
    assert forall d :: 0 <= d < n ==> capture[d] == Replace(blank[d], capture);
    hide AllOver, Blanking, Capturing, ReplaceAll, Without;
    ReplaceAllTwice(op.maps, blank, capture, capture);
  }
}
