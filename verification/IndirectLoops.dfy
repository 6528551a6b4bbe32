/** Materializing the variables of a gather as loops: the window loops and the entry loop over
    the address buffer, then loops for direct subscripts. */
module IndirectLoops {
  import opened Wrappers
  import opened AffineMaps
  import opened IndirectAccess
  import opened RowReferences
  import opened Digraph
  import opened Sequences

  // ----- What is left of the original access

  /** A list of all variables, each once. */
  predicate IsArrangement(s: seq<nat>, n: nat) {
    && |s| == n && (forall i :: 0 <= i < |s| ==> s[i] < n)
    && forall i, j :: 0 <= i < j < |s| ==> s[i] != s[j]
  }

  /** Point p of the original access has the loops' values at the absorbed variables and v at
      the remaining ones. */
  predicate PointIs(p: seq<int>, absorbed: seq<nat>, remaining: seq<nat>, ivs: seq<int>, v: seq<int>) {
    && |ivs| == |absorbed| && |v| == |remaining| && |p| == |absorbed| + |remaining|
    && (forall k :: 0 <= k < |ivs| ==> absorbed[k] < |p| && p[absorbed[k]] == ivs[k])
    && (forall c :: 0 <= c < |v| ==> remaining[c] < |p| && p[remaining[c]] == v[c])
  }

  /** In the loops the access addresses what the original one did; the buffer holds the row of
      the first rows loops. */
  ghost predicate SameMeaning(orig: Access, op: Access, absorbed: seq<nat>, remaining: seq<nat>, rows: nat) {
    forall ivs, v, p :: PointIs(p, absorbed, remaining, ivs, v) && rows <= |ivs| ==>
      && Subscripts(op, ivs, v) == Subscripts(orig, [], p)
      && ivs[..rows] + BufferIndex(op, ivs, v) == BufferIndex(orig, [], p)
  }

  /** Which map uses which remaining variable has not changed. */
  predicate MapsTrack(orig: Access, op: Access, remaining: seq<nat>) {
    && |op.maps| == |orig.maps|
    && forall r, c :: 0 <= r < |op.maps| && 0 <= c < |remaining| ==>
      (UsesDim(op.maps[r], |op.captured| + c) <==> UsesDim(orig.maps[r], |orig.captured| + remaining[c]))
  }

  /** The order tells the dimension of a remaining variable unless it never did, or that
      dimension was the place of a variable that is gone. */
  predicate OrderTracks(orig: Access, op: Access, absorbed: seq<nat>, remaining: seq<nat>) {
    && |op.order| == |remaining|
    && forall c :: 0 <= c < |remaining| && remaining[c] < |orig.order| ==>
      var now, was := op.order[c], orig.order[remaining[c]];
      if now.Dim? then now.i < |remaining| && was == Dim(remaining[now.i])
      else !was.Dim? || was.i in absorbed
  }

  /** Loops and variables have the trip counts the variables had. */
  predicate SizesTrack(orig: Access, op: Access, trips: seq<nat>, absorbed: seq<nat>, remaining: seq<nat>) {
    && |trips| == |absorbed|
    && (forall k :: 0 <= k < |trips| ==> absorbed[k] < |orig.sizes| && trips[k] == orig.sizes[absorbed[k]])
    && |op.sizes| == |remaining|
       && (forall c :: 0 <= c < |remaining| ==> remaining[c] < |orig.sizes| && op.sizes[c] == orig.sizes[remaining[c]])
  }

  ghost predicate Represents(orig: Access, op: Access, trips: seq<nat>, absorbed: seq<nat>, remaining: seq<nat>,
                             rows: nat)
  {
    && IsArrangement(absorbed + remaining, |orig.sizes|) && |orig.order| == |orig.sizes|
    && rows <= |absorbed|
    && WellFormed(op, |absorbed|)
    && SizesTrack(orig, op, trips, absorbed, remaining)
    && MapsTrack(orig, op, remaining)
    && OrderTracks(orig, op, absorbed, remaining)
    && SameMeaning(orig, op, absorbed, remaining, rows)
  }

  lemma InitiallyRepresents(op: Access, all: seq<nat>)
    requires WellFormed(op, 0) && all == Range(0, |op.sizes|)
    ensures Represents(op, op, [], [], all, 0)
  {
    assert AllOver(op.order, |op.sizes|) && |op.order| == |op.sizes|;
    hide WellFormed;
    RangeIsArrangement(all, |op.sizes|);
    EmptyFront(all);
    hide *;
    InitialMeaning(op, all);
    InitialOrder(op, all);
    InitialMaps(op, all);
    InitialSizes(op, all);
    MakeRepresents(op, all);
  }

  lemma RangeIsArrangement(all: seq<nat>, n: nat)
    requires all == Range(0, n)
    ensures IsArrangement(all, n)
  {
  }

  lemma InitialSizes(op: Access, all: seq<nat>)
    requires all == Range(0, |op.sizes|)
    ensures SizesTrack(op, op, [], [], all)
  {
  }

  lemma MakeRepresents(op: Access, all: seq<nat>)
    requires WellFormed(op, 0) && |op.order| == |op.sizes| && IsArrangement([] + all, |op.sizes|)
    requires SizesTrack(op, op, [], [], all) && MapsTrack(op, op, all) && OrderTracks(op, op, [], all)
             && SameMeaning(op, op, [], all, 0)
    ensures Represents(op, op, [], [], all, 0)
  {
  }

  lemma InitialOrder(op: Access, all: seq<nat>)
    requires all == Range(0, |op.sizes|) && |op.order| == |op.sizes| && AllOver(op.order, |op.sizes|)
    ensures OrderTracks(op, op, [], all)
  {
  }

  lemma InitialMaps(op: Access, all: seq<nat>)
    requires all == Range(0, |op.sizes|)
    ensures MapsTrack(op, op, all)
  {
  }

  lemma InitialMeaning(op: Access, all: seq<nat>)
    requires all == Range(0, |op.sizes|)
    ensures SameMeaning(op, op, [], all, 0)
  {
    hide Subscripts, BufferIndex;
    forall ivs, v, p | PointIs(p, [], all, ivs, v) && 0 <= |ivs|
      ensures Subscripts(op, ivs, v) == Subscripts(op, [], p)
              && ivs[..0] + BufferIndex(op, ivs, v) == BufferIndex(op, [], p)
    {
      assert forall c :: 0 <= c < |p| ==> p[all[c]] == v[c];
      assert p == v && ivs == [];
      assert ivs[..0] + BufferIndex(op, ivs, v) == BufferIndex(op, ivs, v);
    }
  }

  // ----- One variable absorbed

  lemma ArrangementStep(absorbed: seq<nat>, remaining: seq<nat>, n: nat, c: nat)
    requires IsArrangement(absorbed + remaining, n) && c < |remaining|
    ensures IsArrangement(absorbed + [remaining[c]] + Without(remaining, c), n)
    ensures remaining[c] < n && remaining[c] !in absorbed && remaining[c] !in Without(remaining, c)
  {
    var before, after := absorbed + remaining, absorbed + [remaining[c]] + Without(remaining, c);
    var a := |absorbed|;
    assert before[a + c] == remaining[c];
    forall i | 0 <= i < |after|
      ensures after[i] == before[if i < a then i else if i == a then a + c else if i <= a + c then i - 1 else i]
    {
    }
    forall x | x in absorbed ensures x != remaining[c] {
      var k :| 0 <= k < |absorbed| && absorbed[k] == x;
      assert before[k] == x;
    }
    forall x | x in Without(remaining, c) ensures x != remaining[c] {
      var k :| 0 <= k < |Without(remaining, c)| && Without(remaining, c)[k] == x;
      assert before[a + if k < c then k else k + 1] == x;
    }
  }

  lemma PointStep(p: seq<int>, absorbed: seq<nat>, remaining: seq<nat>, c: nat, ivs: seq<int>, v: seq<int>)
    requires c < |remaining| && PointIs(p, absorbed + [remaining[c]], Without(remaining, c), ivs, v)
    ensures |ivs| == |absorbed| + 1
            && PointIs(p, absorbed, remaining, ivs[..|absorbed|], InsertAt(v, c, ivs[|absorbed|]))
    ensures ivs == ivs[..|absorbed|] + [ivs[|absorbed|]]
  {
    var xs, names, w := absorbed + [remaining[c]], Without(remaining, c), InsertAt(v, c, ivs[|absorbed|]);
    forall k | 0 <= k < |absorbed| ensures absorbed[k] < |p| && p[absorbed[k]] == ivs[k] {
      assert xs[k] == absorbed[k];
    }
    forall d | 0 <= d < |w| ensures remaining[d] < |p| && p[remaining[d]] == w[d] {
      if d == c {
        assert xs[|absorbed|] == remaining[c];
      } else {
        assert names[if d < c then d else d - 1] == remaining[d];
      }
    }
  }

  /** In every iteration of the new loop, r is op with the loop's value for variable c. */
  ghost predicate Steps(op: Access, r: Access, loops: nat, c: nat, isRow: bool) {
    && c < |op.sizes|
    && forall ivs: seq<int>, i: int, v: seq<int> ::
         |ivs| == loops && |v| == |op.sizes| - 1 ==> StepsAt(op, r, c, isRow, ivs, i, v)
  }

  predicate StepsAt(op: Access, r: Access, c: nat, isRow: bool, ivs: seq<int>, i: int, v: seq<int>)
    requires c <= |v|
  {
    && Subscripts(r, ivs + [i], v) == Subscripts(op, ivs, InsertAt(v, c, i))
    && (if isRow then [i] else []) + BufferIndex(r, ivs + [i], v) == BufferIndex(op, ivs, InsertAt(v, c, i))
  }

  lemma MeaningStep(orig: Access, op: Access, r: Access, absorbed: seq<nat>, remaining: seq<nat>, rows: nat, c: nat,
                    isRow: bool)
    requires |remaining| == |op.sizes| && rows <= |absorbed| && (isRow ==> rows == |absorbed|)
    requires SameMeaning(orig, op, absorbed, remaining, rows) && Steps(op, r, |absorbed|, c, isRow)
    ensures SameMeaning(orig, r, absorbed + [remaining[c]], Without(remaining, c),
                       if isRow then rows + 1 else rows)
  {
    var rows' := if isRow then rows + 1 else rows;
    forall ivs, v, p | PointIs(p, absorbed + [remaining[c]], Without(remaining, c), ivs, v) && rows' <= |ivs|
      ensures Subscripts(r, ivs, v) == Subscripts(orig, [], p)
              && ivs[..rows'] + BufferIndex(r, ivs, v) == BufferIndex(orig, [], p)
    {
      PointStep(p, absorbed, remaining, c, ivs, v);
      var outer, i := ivs[..|absorbed|], ivs[|absorbed|];
      var w := InsertAt(v, c, i);
      assert StepsAt(op, r, c, isRow, outer, i, v);
      assert outer[..rows] + BufferIndex(op, outer, w) == BufferIndex(orig, [], p);
      hide Subscripts, BufferIndex, PointIs;
      if isRow {
        assert ivs[..rows'] + BufferIndex(r, ivs, v) == outer[..rows] + ([i] + BufferIndex(r, ivs, v));
      } else {
        assert ivs[..rows'] == outer[..rows] && [] + BufferIndex(r, ivs, v) == BufferIndex(r, ivs, v);
      }
    }
  }

  lemma OrderStep(orig: Access, op: Access, r: Access, absorbed: seq<nat>, remaining: seq<nat>, c: nat)
    requires OrderTracks(orig, op, absorbed, remaining) && c < |remaining| && r.order == DropFromOrder(op.order, c)
    requires AllOver(op.order, |remaining|)
    ensures OrderTracks(orig, r, absorbed + [remaining[c]], Without(remaining, c))
  {
    var names := Without(remaining, c);
    forall d | 0 <= d < |names| && names[d] < |orig.order|
      ensures var now, was := r.order[d], orig.order[names[d]];
              if now.Dim? then now.i < |names| && was == Dim(names[now.i])
                  else !was.Dim? || was.i in absorbed + [remaining[c]]
    {
      var e := if d < c then d else d + 1;
      assert names[d] == remaining[e] && Without(op.order, c)[d] == op.order[e];
      DroppedDim(op.order[e], |op.order|, c);
    }
  }

  /** A map with a dimension dropped or captured uses what it used. */
  lemma TrackStep(maps: seq<Expr>, repl: seq<Expr>, r: nat, was: nat, now: nat)
    requires r < |maps| && Over(maps[r], |repl|) && was < |repl| && UsesDim(repl[was], now)
    requires forall d: nat :: d < |repl| && UsesDim(repl[d], now) && UsesDim(maps[r], d) ==> d == was
    ensures UsesDim(ReplaceAll(maps, repl)[r], now) <==> UsesDim(maps[r], was)
  {
    ReplaceUses(maps[r], repl, now);
  }

  lemma SizesStep(orig: Access, op: Access, r: Access, trips: seq<nat>, absorbed: seq<nat>, remaining: seq<nat>, c: nat)
    requires SizesTrack(orig, op, trips, absorbed, remaining) && c < |op.sizes| && r.sizes == Without(op.sizes, c)
    ensures SizesTrack(orig, r, trips + [op.sizes[c]], absorbed + [remaining[c]], Without(remaining, c))
  {
    var names := Without(remaining, c);
    forall d | 0 <= d < |names| ensures names[d] < |orig.sizes| && r.sizes[d] == orig.sizes[names[d]] {
      var e := if d < c then d else d + 1;
      assert names[d] == remaining[e] && r.sizes[d] == op.sizes[e];
    }
  }

  lemma RepresentsStep(orig: Access, op: Access, r: Access, trips: seq<nat>, absorbed: seq<nat>, remaining: seq<nat>,
                       rows: nat, c: nat, isRow: bool)
    requires Represents(orig, op, trips, absorbed, remaining, rows) && c < |op.sizes| && (isRow ==> rows == |absorbed|)
    requires Steps(op, r, |absorbed|, c, isRow) && WellFormed(r, |absorbed| + 1)
    requires |op.order| == |op.sizes| && r.order == DropFromOrder(op.order, c) && r.sizes == Without(op.sizes, c)
    requires MapsTrack(orig, r, Without(remaining, c))
    ensures Represents(orig, r, trips + [op.sizes[c]], absorbed + [remaining[c]], Without(remaining, c),
                       if isRow then rows + 1 else rows)
  {
    hide SameMeaning, Steps, MapsTrack, OrderTracks, DropFromOrder, IsBox, AllOver, IsArrangement, Without;
    SizesStep(orig, op, r, trips, absorbed, remaining, c);
    ArrangementStep(absorbed, remaining, |orig.sizes|, c);
    MeaningStep(orig, op, r, absorbed, remaining, rows, c, isRow);
    OrderStep(orig, op, r, absorbed, remaining, c);
  }

  // ----- The three ways to absorb one

  lemma WindowMapsTrack(orig: Access, op: Access, remaining: seq<nat>, c: nat)
    requires MapsTrack(orig, op, remaining) && c < |remaining| == |op.sizes| == |op.order| && IsPlain(op, c)
             && |op.positions| > 0
    requires AllOver(op.maps, |op.captured| + |op.sizes|)
    ensures MapsTrack(orig, AbsorbWindow(op, c), Without(remaining, c))
  {
    var r, names, n := AbsorbWindow(op, c), Without(remaining, c), |op.captured|;
    var repl := Dropping(n + |op.sizes|, n + c);
    forall m, d | 0 <= m < |op.maps| && 0 <= d < |names|
      ensures UsesDim(r.maps[m], n + d) <==> UsesDim(orig.maps[m], |orig.captured| + names[d])
    {
      var e := if d < c then d else d + 1;
      assert names[d] == remaining[e];
      TrackStep(op.maps, repl, m, n + e, n + d);
    }
  }

  lemma CaptureMapsTrack(orig: Access, op: Access, r: Access, remaining: seq<nat>, c: nat, absorbed: Expr)
    requires MapsTrack(orig, op, remaining) && c < |remaining| == |op.sizes|
    requires AllOver(op.maps, |op.captured| + |op.sizes|)
    requires |r.captured| == |op.captured| + 1 && (absorbed == Const(0) || absorbed == Dim(|op.captured|))
    requires r.maps == ReplaceAll(op.maps, Capturing(|op.captured|, |op.captured| + |op.sizes|, c, absorbed))
    ensures MapsTrack(orig, r, Without(remaining, c))
  {
    var names, n := Without(remaining, c), |op.captured|;
    var repl := Capturing(n, n + |op.sizes|, c, absorbed);
    forall m, d | 0 <= m < |op.maps| && 0 <= d < |names|
      ensures UsesDim(r.maps[m], n + 1 + d) <==> UsesDim(orig.maps[m], |orig.captured| + names[d])
    {
      var e := if d < c then d else d + 1;
      assert names[d] == remaining[e];
      TrackStep(op.maps, repl, m, n + e, n + 1 + d);
    }
  }

  lemma Facts(orig: Access, op: Access, trips: seq<nat>, absorbed: seq<nat>, remaining: seq<nat>, rows: nat)
    requires Represents(orig, op, trips, absorbed, remaining, rows)
    ensures WellFormed(op, |absorbed|) && MapsTrack(orig, op, remaining) && |op.sizes| == |remaining| == |op.order|
    ensures AllOver(op.maps, |op.captured| + |op.sizes|)
  {
  }

  lemma WindowRepresents(orig: Access, op: Access, trips: seq<nat>, absorbed: seq<nat>, remaining: seq<nat>, c: nat)
    requires Represents(orig, op, trips, absorbed, remaining, |absorbed|) && IsPlain(op, c) && c < |op.sizes|
             && OnlySubscriptsFirst(op, c)
    ensures Represents(orig, AbsorbWindow(op, c), trips + [op.sizes[c]], absorbed + [remaining[c]],
                       Without(remaining, c), |absorbed| + 1)
  {
    var r := AbsorbWindow(op, c);
    Facts(orig, op, trips, absorbed, remaining, |absorbed|);
    hide Represents;
    WindowIsWellFormed(op, c, |absorbed|);
    WindowMapsTrack(orig, op, remaining, c);
    assert r.order == Narrowed(op, c).order && r.sizes == Narrowed(op, c).sizes;
    hide AbsorbWindow, MapsTrack, StepsAt, WellFormed, DropFromOrder, Without, UsedBy;
    forall ivs: seq<int>, i: int, v: seq<int> | |ivs| == |absorbed| && |v| == |op.sizes| - 1
      ensures StepsAt(op, r, c, true, ivs, i, v)
    {
      WindowStepsAt(op, c, ivs, i, v);
    }
    RepresentsStep(orig, op, r, trips, absorbed, remaining, |absorbed|, c, true);
  }

  lemma WindowStepsAt(op: Access, c: nat, ivs: seq<int>, i: int, v: seq<int>)
    requires WellFormed(op, |ivs|) && c < |op.sizes| && IsPlain(op, c) && OnlySubscriptsFirst(op, c)
             && |v| == |op.sizes| - 1
    ensures StepsAt(op, AbsorbWindow(op, c), c, true, ivs, i, v)
  {
    WindowStep(op, c, ivs, i, v);
  }

  lemma EntryRepresents(orig: Access, op: Access, trips: seq<nat>, absorbed: seq<nat>, remaining: seq<nat>, rows: nat,
                        c: nat)
    requires Represents(orig, op, trips, absorbed, remaining, rows) && IsPlain(op, c) && c < |op.sizes|
             && OnlySubscriptsFirst(op, c)
    requires |op.positions| == 1
    ensures Represents(orig, AbsorbEntry(op, c, |absorbed|), trips + [op.sizes[c]], absorbed + [remaining[c]],
                       Without(remaining, c), rows)
  {
    var r := AbsorbEntry(op, c, |absorbed|);
    Facts(orig, op, trips, absorbed, remaining, rows);
    hide Represents;
    EntryIsWellFormed(op, c, |absorbed|);
    CaptureMapsTrack(orig, op, r, remaining, c, Const(0));
    assert r.order == Narrowed(op, c).order && r.sizes == Narrowed(op, c).sizes;
    hide AbsorbEntry, MapsTrack, StepsAt, WellFormed, DropFromOrder, Without, UsedBy;
    forall ivs: seq<int>, i: int, v: seq<int> | |ivs| == |absorbed| && |v| == |op.sizes| - 1
      ensures StepsAt(op, r, c, false, ivs, i, v)
    {
      EntryStepsAt(op, c, ivs, i, v);
    }
    RepresentsStep(orig, op, r, trips, absorbed, remaining, rows, c, false);
  }

  lemma EntryStepsAt(op: Access, c: nat, ivs: seq<int>, i: int, v: seq<int>)
    requires WellFormed(op, |ivs|) && c < |op.sizes| && IsPlain(op, c) && OnlySubscriptsFirst(op, c)
             && |v| == |op.sizes| - 1
    requires |op.positions| == 1
    ensures StepsAt(op, AbsorbEntry(op, c, |ivs|), c, false, ivs, i, v)
  {
    EntryStep(op, c, ivs, i, v);
    hide BufferIndex, Subscripts, AbsorbEntry;
  }

  lemma DirectRepresents(orig: Access, op: Access, trips: seq<nat>, absorbed: seq<nat>, remaining: seq<nat>,
                         rows: nat, c: nat)
    requires Represents(orig, op, trips, absorbed, remaining, rows) && IsPlain(op, c) && c < |op.sizes|
             && BufferIsSettled(op)
    ensures Represents(orig, AbsorbDirect(op, c, |absorbed|), trips + [op.sizes[c]], absorbed + [remaining[c]],
                       Without(remaining, c), rows)
  {
    var r := AbsorbDirect(op, c, |absorbed|);
    Facts(orig, op, trips, absorbed, remaining, rows);
    hide Represents;
    DirectIsWellFormed(op, c, |absorbed|);
    CaptureMapsTrack(orig, op, r, remaining, c, Dim(|op.captured|));
    assert r.order == Narrowed(op, c).order && r.sizes == Narrowed(op, c).sizes;
    hide AbsorbDirect, MapsTrack, StepsAt, WellFormed, DropFromOrder, Without, UsedBy;
    forall ivs: seq<int>, i: int, v: seq<int> | |ivs| == |absorbed| && |v| == |op.sizes| - 1
      ensures StepsAt(op, r, c, false, ivs, i, v)
    {
      DirectStepsAt(op, c, ivs, i, v);
    }
    RepresentsStep(orig, op, r, trips, absorbed, remaining, rows, c, false);
  }

  lemma DirectStepsAt(op: Access, c: nat, ivs: seq<int>, i: int, v: seq<int>)
    requires WellFormed(op, |ivs|) && c < |op.sizes| && IsPlain(op, c) && BufferIsSettled(op) && |v| == |op.sizes| - 1
    ensures StepsAt(op, AbsorbDirect(op, c, |ivs|), c, false, ivs, i, v)
  {
    DirectStep(op, c, ivs, i, v);
    hide BufferIndex, Subscripts, AbsorbDirect;
  }

  // ----- Gathers

  /** The access as it comes: every dimension of the address buffer is subscripted by an
      intermediate variable of its own. */
  ghost predicate IsIndirect(orig: Access) {
    && WellFormed(orig, 0) && |orig.positions| > 0
    && (forall k :: 0 <= k < |orig.positions| ==> orig.positions[k] >= |orig.captured|)
    && forall j, k :: 0 <= j < k < |orig.positions| ==> orig.positions[j] != orig.positions[k]
  }

  /** One whose direct subscripts do not depend on these variables. */
  ghost predicate IsGather(orig: Access) {
    IsIndirect(orig) && forall k :: 0 <= k < |orig.positions| ==> !UsedBy(orig.maps, orig.positions[k])
  }

  lemma BlankedIsGather(orig: Access)
    requires IsIndirect(orig)
    ensures IsGather(Blanked(orig))
  {
    BlankedSubscripts(orig, seq(|orig.sizes|, x => 0));
    forall k, r | 0 <= k < |orig.positions| && 0 <= r < |orig.maps|
      ensures !UsesDim(Blanked(orig).maps[r], orig.positions[k])
    {
      BlankedUses(orig, r, orig.positions[k]);
    }
    hide Blanking, ReplaceAll, IsBox;
  }

  /** The variable that subscripts dimension k of the buffer. */
  function RowVariable(orig: Access, k: nat): nat
    requires k < |orig.positions| && orig.positions[k] >= |orig.captured|
  {
    orig.positions[k] - |orig.captured|
  }

  /** The tile dimension of the variable is known when its turn comes: it is no place that
      an earlier one has left. */
  predicate PlainInTurn(orig: Access, k: nat)
    requires k < |orig.positions| && forall j :: 0 <= j <= k ==> orig.positions[j] >= |orig.captured|
  {
    var x := RowVariable(orig, k);
    x < |orig.order| && orig.order[x].Dim? && forall j :: 0 <= j < k ==> orig.order[x].i != RowVariable(orig, j)
  }

  /** The first rows are absorbed, the others still subscript the buffer. */
  predicate AwaitsRows(orig: Access, op: Access, absorbed: seq<nat>, remaining: seq<nat>)
    requires forall k :: 0 <= k < |orig.positions| ==> orig.positions[k] >= |orig.captured|
  {
    && |op.positions| + |absorbed| == |orig.positions|
    && (forall k :: 0 <= k < |absorbed| ==> absorbed[k] == RowVariable(orig, k))
    && forall i :: 0 <= i < |op.positions| ==>
      && |op.captured| <= op.positions[i] < |op.captured| + |remaining|
      && remaining[op.positions[i] - |op.captured|] == RowVariable(orig, |absorbed| + i)
  }

  lemma NextRowIsAlone(orig: Access, op: Access, absorbed: seq<nat>, remaining: seq<nat>)
    requires IsGather(orig) && MapsTrack(orig, op, remaining) && AwaitsRows(orig, op, absorbed, remaining)
             && |op.positions| > 0
    ensures OnlySubscriptsFirst(op, op.positions[0] - |op.captured|)
  {
    var c := op.positions[0] - |op.captured|;
    forall i | 0 < i < |op.positions| ensures op.positions[i] != op.positions[0] {
      assert RowVariable(orig, |absorbed| + 0) != RowVariable(orig, |absorbed| + i);
    }
    assert |orig.captured| + remaining[c] == orig.positions[|absorbed|];
    forall r | 0 <= r < |op.maps| ensures !UsesDim(op.maps[r], |op.captured| + c) {
      assert !UsedBy(orig.maps, orig.positions[|absorbed|]);
    }
  }

  lemma AwaitsStep(orig: Access, op: Access, absorbed: seq<nat>, remaining: seq<nat>, c: nat)
    requires IsGather(orig) && AwaitsRows(orig, op, absorbed, remaining) && |op.positions| > 0
    requires c == op.positions[0] - |op.captured| && |op.sizes| == |remaining| == |op.order| && IsPlain(op, c)
    ensures AwaitsRows(orig, AbsorbWindow(op, c), absorbed + [remaining[c]], Without(remaining, c))
  {
    var r, xs, names := AbsorbWindow(op, c), absorbed + [remaining[c]], Without(remaining, c);
    assert remaining[c] == RowVariable(orig, |absorbed| + 0);
    forall i | 0 <= i < |r.positions|
      ensures |r.captured| <= r.positions[i] < |r.captured| + |names|
      ensures names[r.positions[i] - |r.captured|] == RowVariable(orig, |xs| + i)
    {
      NextAwaits(orig, op, absorbed, remaining, c, i);
    }
    hide IsGather, AbsorbWindow, IsPlain;
    forall k | 0 <= k < |xs| ensures xs[k] == RowVariable(orig, k) {
    }
  }

  lemma NextAwaits(orig: Access, op: Access, absorbed: seq<nat>, remaining: seq<nat>, c: nat, i: nat)
    requires IsGather(orig) && AwaitsRows(orig, op, absorbed, remaining) && i + 1 < |op.positions|
    requires c == op.positions[0] - |op.captured| && |op.sizes| == |remaining| == |op.order| && IsPlain(op, c)
    ensures var r, names := AbsorbWindow(op, c), Without(remaining, c);
            && |r.captured| <= r.positions[i] < |r.captured| + |names|
            && names[r.positions[i] - |r.captured|] == RowVariable(orig, |absorbed| + 1 + i)
  {
    var x := op.positions[i + 1] - |op.captured|;
    assert remaining[x] == RowVariable(orig, |absorbed| + (i + 1));
    assert remaining[c] == RowVariable(orig, |absorbed| + 0) != RowVariable(orig, |absorbed| + (i + 1));
    assert AbsorbWindow(op, c).positions[i] - |op.captured| == if x > c then x - 1 else x;
    hide IsGather, AbsorbWindow, IsPlain;
    assert Without(remaining, c)[if x > c then x - 1 else x] == remaining[x];
  }

  /** The tile dimension of a remaining variable is known exactly when it was, and is no
      place an absorbed one has left. */
  lemma PlainTracks(orig: Access, op: Access, trips: seq<nat>, absorbed: seq<nat>, remaining: seq<nat>, rows: nat,
                    c: nat)
    requires Represents(orig, op, trips, absorbed, remaining, rows) && c < |remaining|
    ensures remaining[c] < |orig.order|
    ensures IsPlain(op, c) <==> orig.order[remaining[c]].Dim? && orig.order[remaining[c]].i !in absorbed
  {
    hide SameMeaning, MapsTrack, IsBox;
    var all := absorbed + remaining;
    var now := op.order[c];
    assert Over(now, |op.sizes|);
    if now.Dim? {
      assert all[|absorbed| + now.i] == remaining[now.i];
      forall k | 0 <= k < |absorbed| ensures absorbed[k] != remaining[now.i] {
        assert all[k] == absorbed[k];
      }
    }
  }

  lemma RowIsPlain(orig: Access, op: Access, trips: seq<nat>, absorbed: seq<nat>, remaining: seq<nat>, rows: nat)
    requires IsGather(orig) && Represents(orig, op, trips, absorbed, remaining, rows)
    requires AwaitsRows(orig, op, absorbed, remaining) && |op.positions| > 0
    ensures IsPlain(op, op.positions[0] - |op.captured|) <==> PlainInTurn(orig, |absorbed|)
  {
    var c, k := op.positions[0] - |op.captured|, |absorbed|;
    PlainTracks(orig, op, trips, absorbed, remaining, rows, c);
    hide Represents, WellFormed;
    assert remaining[c] == RowVariable(orig, k + 0);
    if orig.order[remaining[c]].Dim? {
      var i := orig.order[remaining[c]].i;
      assert i in absorbed <==> exists j :: 0 <= j < k && i == RowVariable(orig, j);
    }
  }

  // ----- The passes

  /** Where the first buffer dimension's variable is in the intermediate ones. */
  function FirstRow(op: Access): int
    requires |op.positions| > 0
  {
    op.positions[0] - |op.captured|
  }

  ghost predicate RowsArePlain(orig: Access, n: nat) {
    IsIndirect(orig) && n <= |orig.positions| && forall k :: 0 <= k < n ==> PlainInTurn(orig, k)
  }

  lemma BlankedRows(orig: Access, n: nat)
    requires IsIndirect(orig)
    ensures RowsArePlain(Blanked(orig), n) <==> RowsArePlain(orig, n)
  {
    BlankedIsGather(orig);
    hide WellFormed, ReplaceAll, Blanking, PlainInTurn;
    if n <= |orig.positions| {
      forall k | 0 <= k < n ensures PlainInTurn(orig, k) <==> PlainInTurn(Blanked(orig), k) {
        SameTurn(orig, k);
      }
    }
  }

  lemma SameTurn(orig: Access, k: nat)
    requires k < |orig.positions| && forall j :: 0 <= j < |orig.positions| ==> orig.positions[j] >= |orig.captured|
    ensures PlainInTurn(orig, k) <==> PlainInTurn(Blanked(orig), k)
  {
    hide ReplaceAll, Blanking;
    assert forall j :: 0 <= j <= k ==> RowVariable(orig, j) == RowVariable(Blanked(orig), j);
  }

  /** The first k dimensions of the buffer are window loops. */
  ghost predicate IsWindowed(orig: Access, op: Access, trips: seq<nat>, absorbed: seq<nat>, remaining: seq<nat>,
                             k: nat)
  {
    && IsGather(orig) && RowsArePlain(orig, k) && |absorbed| == k
    && Represents(orig, op, trips, absorbed, remaining, k) && AwaitsRows(orig, op, absorbed, remaining)
  }

  lemma WindowedFacts(orig: Access, op: Access, trips: seq<nat>, absorbed: seq<nat>, remaining: seq<nat>, k: nat)
    requires IsWindowed(orig, op, trips, absorbed, remaining, k)
    ensures IsGather(orig) && |trips| == |absorbed| == k && |op.positions| + k == |orig.positions|
    ensures |op.sizes| == |remaining| == |op.order| && |orig.order| == |orig.sizes|
    ensures forall i :: 0 <= i < |op.positions| ==> |op.captured| <= op.positions[i] < |op.captured| + |op.sizes|
  {
    Facts(orig, op, trips, absorbed, remaining, k);
  }

  /** The next row can be absorbed exactly when its turn allows it. */
  lemma NextRow(orig: Access, op: Access, trips: seq<nat>, absorbed: seq<nat>, remaining: seq<nat>, k: nat)
    requires IsWindowed(orig, op, trips, absorbed, remaining, k) && |op.positions| > 0
    ensures 0 <= FirstRow(op) < |op.sizes| == |op.order| == |remaining|
    ensures IsPlain(op, FirstRow(op)) <==> RowsArePlain(orig, k + 1)
    ensures OnlySubscriptsFirst(op, FirstRow(op))
  {
    RowIsPlain(orig, op, trips, absorbed, remaining, k);
    Facts(orig, op, trips, absorbed, remaining, k);
    NextRowIsAlone(orig, op, absorbed, remaining);
    hide Represents, WellFormed, MapsTrack, PlainInTurn, IsPlain;
  }

  /** What one window iteration keeps. */
  lemma WindowIteration(orig: Access, op: Access, trips: seq<nat>, absorbed: seq<nat>, remaining: seq<nat>, k: nat)
    requires IsWindowed(orig, op, trips, absorbed, remaining, k) && |op.positions| > 1
    ensures 0 <= FirstRow(op) < |op.sizes| == |op.order| == |remaining|
    ensures IsPlain(op, FirstRow(op)) <==> RowsArePlain(orig, k + 1)
    ensures IsPlain(op, FirstRow(op)) ==>
              var c := FirstRow(op);
              IsWindowed(orig, AbsorbWindow(op, c), trips + [op.sizes[c]], absorbed + [remaining[c]],
                         Without(remaining, c), k + 1)
  {
    NextRow(orig, op, trips, absorbed, remaining, k);
    Facts(orig, op, trips, absorbed, remaining, k);
    assert IsArrangement(absorbed + remaining, |orig.sizes|);
    hide Represents, WellFormed, AbsorbWindow, IsGather, MapsTrack, Without, IsArrangement, PlainInTurn, AwaitsRows,
        IsPlain, OnlySubscriptsFirst;
    var c := FirstRow(op);
    if IsPlain(op, c) {
      WindowRepresents(orig, op, trips, absorbed, remaining, c);
      AwaitsStep(orig, op, absorbed, remaining, c);
    }
  }

  /** What the entry loop leaves: the buffer is read at the variable of loop number rows. */
  predicate ReadsEntry(op: Access, rows: nat) {
    && |op.positions| == 1 && op.positions[0] < |op.captured| && op.captured[op.positions[0]] == Iv(rows)
  }

  /** The last variable that subscripts the buffer has its turn, and the trip count it needs. */
  ghost predicate EntryFits(orig: Access, bufferSize: nat) {
    && RowsArePlain(orig, |orig.positions|)
    && RowVariable(orig, |orig.positions| - 1) < |orig.sizes|
       && orig.sizes[RowVariable(orig, |orig.positions| - 1)] == bufferSize
  }

  /** The entry loop is the loop number rows, over the whole buffer. */
  ghost predicate HasEntryLoop(orig: Access, op: Access, trips: seq<nat>, absorbed: seq<nat>, remaining: seq<nat>,
                               rows: nat, bufferSize: nat)
  {
    && Represents(orig, op, trips, absorbed, remaining, rows) && ReadsEntry(op, rows)
    && rows < |trips| && trips[rows] == bufferSize
  }

  lemma EntryTurn(orig: Access, op: Access, trips: seq<nat>, absorbed: seq<nat>, remaining: seq<nat>, k: nat,
                  bufferSize: nat)
    requires IsWindowed(orig, op, trips, absorbed, remaining, k) && |op.positions| == 1
    ensures 0 <= FirstRow(op) < |op.sizes| == |op.order| == |remaining| && |trips| == k
    ensures IsPlain(op, FirstRow(op)) && op.sizes[FirstRow(op)] == bufferSize <==> EntryFits(orig, bufferSize)
  {
    NextRow(orig, op, trips, absorbed, remaining, k);
    WindowedFacts(orig, op, trips, absorbed, remaining, k);
    assert SizesTrack(orig, op, trips, absorbed, remaining);
    assert remaining[FirstRow(op)] == RowVariable(orig, k + 0) by {
      assert AwaitsRows(orig, op, absorbed, remaining) && |absorbed| == k;
    }
    hide IsWindowed, RowsArePlain, IsGather, IsPlain, OnlySubscriptsFirst;
    assert op.sizes[FirstRow(op)] == orig.sizes[RowVariable(orig, k)];
  }

  lemma EntryIteration(orig: Access, op: Access, trips: seq<nat>, absorbed: seq<nat>, remaining: seq<nat>, k: nat)
    requires IsWindowed(orig, op, trips, absorbed, remaining, k) && |op.positions| == 1
    requires 0 <= FirstRow(op) < |op.sizes| == |op.order| == |remaining| && IsPlain(op, FirstRow(op))
    ensures var c := FirstRow(op);
            HasEntryLoop(orig, AbsorbEntry(op, c, k), trips + [op.sizes[c]], absorbed + [remaining[c]],
                         Without(remaining, c), k, op.sizes[c])
  {
    NextRow(orig, op, trips, absorbed, remaining, k);
    Facts(orig, op, trips, absorbed, remaining, k);
    WindowedFacts(orig, op, trips, absorbed, remaining, k);
    EntryRepresents(orig, op, trips, absorbed, remaining, k, FirstRow(op));
    hide Represents, WellFormed, Without, OnlySubscriptsFirst, IsWindowed, ReplaceAll, Narrowed, IsPlain, RowsArePlain;
  }

  predicate MapUses(op: Access, b: nat, c: nat)
    requires b < |op.maps|
  {
    UsesDim(op.maps[b], |op.captured| + c)
  }

  /** The one remaining variable that map b uses. */
  predicate IsOnlyVariable(op: Access, b: nat, c: nat)
    requires b < |op.maps|
  {
    && c < |op.sizes| && MapUses(op, b, c)
    && forall d :: 0 <= d < |op.sizes| && d != c ==> !MapUses(op, b, d)
  }

  lemma OnlyOne(op: Access, b: nat, c: nat, d: nat)
    requires b < |op.maps| && IsOnlyVariable(op, b, c) && IsOnlyVariable(op, b, d)
    ensures c == d
  {
  }

  method FindReferencedDim(op: Access, b: nat) returns (found: Option<nat>)
    requires b < |op.maps|
    ensures found.Some? ==> IsOnlyVariable(op, b, found.value)
    ensures found.None? ==> forall c: nat :: !IsOnlyVariable(op, b, c)
  {
    found := None;
    for d := 0 to |op.sizes|
      invariant found.None? ==> forall c: nat :: c < d ==> !MapUses(op, b, c)
      invariant found.Some? ==> found.value < d && MapUses(op, b, found.value)
                                && forall c: nat :: c < d && c != found.value ==> !MapUses(op, b, c)
    {
      if MapUses(op, b, d) {
        if found.Some? {
          return None;
        }
        found := Some(d);
      }
    }
  }

  /** In terms of the original access: subscript b depends on variable x and on no other one that is
      left, and the tile dimension of x is known. */
  predicate DirectTurn(orig: Access, b: nat, gone: seq<nat>, x: nat)
    requires b < |orig.maps|
  {
    && x < |orig.sizes| && x !in gone && MapUses(orig, b, x)
    && (forall y: nat :: y < |orig.sizes| && y !in gone && y != x ==> !MapUses(orig, b, y))
    && x < |orig.order| && orig.order[x].Dim? && orig.order[x].i !in gone
  }

  /** The listed subscripts, in turn, each depend on one variable that can be absorbed by then. */
  predicate TakesTurns(orig: Access, gone: seq<nat>, dims: seq<nat>, xs: seq<nat>)
    requires forall m :: 0 <= m < |dims| ==> dims[m] < |orig.maps|
  {
    |xs| == |dims| && forall m :: 0 <= m < |dims| ==> DirectTurn(orig, dims[m], gone + xs[..m], xs[m])
  }

  ghost predicate DirectsArePlain(orig: Access, gone: seq<nat>, dims: seq<nat>)
    requires forall m :: 0 <= m < |dims| ==> dims[m] < |orig.maps|
  {
    exists xs :: TakesTurns(orig, gone, dims, xs)
  }

  /** The variables that subscript the buffer. */
  function RowVariables(orig: Access): (rows: seq<nat>)
    requires forall k :: 0 <= k < |orig.positions| ==> orig.positions[k] >= |orig.captured|
    ensures |rows| == |orig.positions| && forall k :: 0 <= k < |rows| ==> rows[k] == RowVariable(orig, k)
  {
    seq(|orig.positions|, k requires 0 <= k < |orig.positions| => RowVariable(orig, k))
  }

  lemma {:induction false} TurnsAreUnique(orig: Access, gone: seq<nat>, dims: seq<nat>, xs: seq<nat>, ys: seq<nat>,
                                          m: nat)
    requires m <= |dims| && forall j :: 0 <= j < |dims| ==> dims[j] < |orig.maps|
    requires TakesTurns(orig, gone, dims[..m], xs) && TakesTurns(orig, gone, dims, ys)
    ensures xs == ys[..m]
  {
    if m > 0 {
      var xs', x := xs[..m - 1], xs[m - 1];
      forall j | 0 <= j < m - 1 ensures DirectTurn(orig, dims[..m - 1][j], gone + xs'[..j], xs'[j]) {
        assert dims[..m][j] == dims[j] && xs'[..j] == xs[..j];
      }
      TurnsAreUnique(orig, gone, dims, xs', ys, m - 1);
      assert dims[..m][m - 1] == dims[m - 1] && DirectTurn(orig, dims[m - 1], gone + xs', x);
      assert DirectTurn(orig, dims[m - 1], gone + xs', ys[m - 1]);
      assert xs == xs' + [x] && ys[..m] == ys[..m - 1] + [ys[m - 1]];
    }
  }

  /** A list of all variables has them all. */
  lemma ArrangementCovers(s: seq<nat>, n: nat, x: nat)
    requires IsArrangement(s, n) && x < n
    ensures x in s
  {
    var all: seq<nat> := Range(0, n);
    DistinctCardinality(all);
    DistinctCardinality(s);
    forall y: nat | y < n ensures y in Elems(all) {
      assert all[y] == y;
    }
    assert Elems(s) <= Elems(all);
    SubsetCardinality(Elems(s), Elems(all));
    assert Distinct(s) && Distinct(all) && x in Elems(all);
  }

  /** A variable that is not absorbed remains. */
  lemma IsRemaining(absorbed: seq<nat>, remaining: seq<nat>, n: nat, x: nat) returns (c: nat)
    requires IsArrangement(absorbed + remaining, n) && x < n && x !in absorbed
    ensures c < |remaining| && remaining[c] == x
  {
    ArrangementCovers(absorbed + remaining, n, x);
    assert x in remaining;
    c :| 0 <= c < |remaining| && remaining[c] == x;
  }

  /** All variables that subscript the buffer are absorbed. */
  predicate RowsAreGone(orig: Access, absorbed: seq<nat>) {
    forall k :: 0 <= k < |orig.positions| && orig.positions[k] >= |orig.captured| ==> RowVariable(orig, k) in absorbed
  }

  /** What is left of the access uses what the original one did. */
  lemma UsesTrack(orig: Access, op: Access, absorbed: seq<nat>, remaining: seq<nat>, b: nat, c: nat)
    requires IsIndirect(orig) && MapsTrack(Blanked(orig), op, remaining) && RowsAreGone(orig, absorbed)
    requires b < |op.maps| == |orig.maps| && c < |remaining| && remaining[c] < |orig.sizes| && remaining[c] !in absorbed
    ensures MapUses(op, b, c) <==> MapUses(orig, b, remaining[c])
  {
    BlankedUses(orig, b, |orig.captured| + remaining[c]);
    if |orig.captured| + remaining[c] in orig.positions {
      var k :| 0 <= k < |orig.positions| && orig.positions[k] == |orig.captured| + remaining[c];
      assert RowVariable(orig, k) in absorbed;
    }
  }

  /** A variable's turn, in terms of what is left and of the original access. */
  lemma DirectTurnTracks(orig: Access, op: Access, trips: seq<nat>, absorbed: seq<nat>, remaining: seq<nat>, rows: nat,
                         b: nat, c: nat)
    requires IsIndirect(orig) && Represents(Blanked(orig), op, trips, absorbed, remaining, rows)
    requires RowsAreGone(orig, absorbed) && b < |op.maps| && c < |op.sizes|
    ensures |op.maps| == |orig.maps| && |op.sizes| == |remaining|
    ensures IsOnlyVariable(op, b, c) && IsPlain(op, c) <==> DirectTurn(orig, b, absorbed, remaining[c])
  {
    Facts(Blanked(orig), op, trips, absorbed, remaining, rows);
    PlainTracks(Blanked(orig), op, trips, absorbed, remaining, rows, c);
    var full := absorbed + remaining;
    assert IsArrangement(full, |orig.sizes|);
    hide Represents, IsPlain, WellFormed, MapUses, MapsTrack, RowsAreGone;
    forall d: nat | d < |remaining|
      ensures remaining[d] < |orig.sizes| && remaining[d] !in absorbed
      ensures MapUses(op, b, d) <==> MapUses(orig, b, remaining[d])
    {
      RemainingIsLeft(absorbed, remaining, |orig.sizes|, d);
      UsesTrack(orig, op, absorbed, remaining, b, d);
    }
    if IsOnlyVariable(op, b, c) {
      forall y: nat | y < |orig.sizes| && y !in absorbed && y != remaining[c] ensures !MapUses(orig, b, y) {
        var d := IsRemaining(absorbed, remaining, |orig.sizes|, y);
      }
    }
    if forall y: nat :: y < |orig.sizes| && y !in absorbed && y != remaining[c] ==> !MapUses(orig, b, y) {
      forall d: nat | d < |op.sizes| && d != c ensures !MapUses(op, b, d) {
        assert full[|absorbed| + d] != full[|absorbed| + c];
      }
    }
  }

  lemma RemainingIsLeft(absorbed: seq<nat>, remaining: seq<nat>, n: nat, d: nat)
    requires IsArrangement(absorbed + remaining, n) && d < |remaining|
    ensures remaining[d] < n && remaining[d] !in absorbed
  {
    var full := absorbed + remaining;
    assert full[|absorbed| + d] == remaining[d];
    forall k | 0 <= k < |absorbed| ensures absorbed[k] != remaining[d] {
      assert full[k] == absorbed[k];
    }
  }

  /** If the search finds no variable that can be absorbed, the subscript has none. */
  lemma NoTurn(orig: Access, op: Access, trips: seq<nat>, absorbed: seq<nat>, remaining: seq<nat>, rows: nat,
               b: nat, found: Option<nat>, x: nat)
    requires IsIndirect(orig) && Represents(Blanked(orig), op, trips, absorbed, remaining, rows)
    requires RowsAreGone(orig, absorbed) && b < |op.maps| && b < |orig.maps|
    requires found.Some? ==> IsOnlyVariable(op, b, found.value) && !IsPlain(op, found.value)
    requires found.None? ==> forall c: nat :: !IsOnlyVariable(op, b, c)
    ensures !DirectTurn(orig, b, absorbed, x)
  {
    Facts(Blanked(orig), op, trips, absorbed, remaining, rows);
    assert IsArrangement(absorbed + remaining, |orig.sizes|);
    hide Represents, IsPlain, WellFormed, IsOnlyVariable, IsArrangement, RowsAreGone;
    if DirectTurn(orig, b, absorbed, x) {
      var c := IsRemaining(absorbed, remaining, |orig.sizes|, x);
      DirectTurnTracks(orig, op, trips, absorbed, remaining, rows, b, c);
      if found.Some? {
        OnlyOne(op, b, c, found.value);
      }
    }
  }

  /** Then the list as a whole has no turns, either. */
  lemma NoTurns(orig: Access, gone: seq<nat>, dims: seq<nat>, xs: seq<nat>, m: nat)
    requires m < |dims| && (forall j :: 0 <= j < |dims| ==> dims[j] < |orig.maps|)
             && TakesTurns(orig, gone, dims[..m], xs)
    requires forall x :: !DirectTurn(orig, dims[m], gone + xs, x)
    ensures !DirectsArePlain(orig, gone, dims)
  {
    forall ys ensures !TakesTurns(orig, gone, dims, ys) {
      if TakesTurns(orig, gone, dims, ys) {
        assert DirectTurn(orig, dims[m], gone + ys[..m], ys[m]);
        TurnsAreUnique(orig, gone, dims, xs, ys, m);
      }
    }
  }

  lemma OneMoreTurn(orig: Access, gone: seq<nat>, dims: seq<nat>, xs: seq<nat>, m: nat, x: nat)
    requires m < |dims| && (forall j :: 0 <= j < |dims| ==> dims[j] < |orig.maps|)
             && TakesTurns(orig, gone, dims[..m], xs)
    requires DirectTurn(orig, dims[m], gone + xs, x)
    ensures TakesTurns(orig, gone, dims[..m + 1], xs + [x])
  {
    var more := xs + [x];
    forall j | 0 <= j < m + 1 ensures DirectTurn(orig, dims[..m + 1][j], gone + more[..j], more[j]) {
      if j < m {
        assert dims[..m][j] == dims[j] && more[..j] == xs[..j];
      } else {
        assert more[..j] == xs;
      }
    }
  }

  lemma DirectIteration(orig: Access, op: Access, trips: seq<nat>, absorbed: seq<nat>, remaining: seq<nat>,
                        rows: nat, bufferSize: nat, c: nat)
    requires HasEntryLoop(orig, op, trips, absorbed, remaining, rows, bufferSize) && c < |op.sizes| && IsPlain(op, c)
    ensures |op.order| == |op.sizes| == |remaining|
    ensures HasEntryLoop(orig, AbsorbDirect(op, c, |trips|), trips + [op.sizes[c]], absorbed + [remaining[c]],
                         Without(remaining, c),
                         rows, bufferSize)
  {
    Facts(orig, op, trips, absorbed, remaining, rows);
    TripsMatch(orig, op, trips, absorbed, remaining, rows);
    hide Represents, WellFormed, ReplaceAll, Narrowed;
    DirectRepresents(orig, op, trips, absorbed, remaining, rows, c);
  }

  lemma TripsMatch(orig: Access, op: Access, trips: seq<nat>, absorbed: seq<nat>, remaining: seq<nat>, rows: nat)
    requires Represents(orig, op, trips, absorbed, remaining, rows)
    ensures |trips| == |absorbed| && |op.order| == |op.sizes| == |remaining|
  {
  }

  /** An access with the loops that have been put around it. */
  class LoopNest {
    var trips: seq<nat>
    var op: Access
    ghost var absorbed: seq<nat>
    ghost var remaining: seq<nat>

    /** What is left stands for the original access, both without references to rows. */
    ghost predicate HasWindows(orig: Access, k: nat)
      reads this
    {
      && IsWindowed(Blanked(orig), Blanked(op), trips, absorbed, remaining, k)
      && AllOver(op.maps, |op.captured| + |op.sizes|)
    }

    ghost predicate HasEntry(orig: Access, rows: nat, bufferSize: nat)
      reads this
    {
      HasEntryLoop(Blanked(orig), op, trips, absorbed, remaining, rows, bufferSize)
    }

    constructor (gather: Access)
      requires IsIndirect(gather)
      ensures op == gather && trips == [] && absorbed == [] && HasWindows(gather, 0)
    {
      op, trips, absorbed, remaining := gather, [], [], Range(0, |gather.sizes|);
      new;
      InitiallyWindowed(gather, remaining);
    }

    /** A loop for every dimension of the buffer but the last. It fails exactly when the last
        one does not have the size of the hardware's buffer, or a variable's tile dimension
        is not known. */
    method MaterializeWindowLoops(ghost orig: Access, bufferShape: seq<nat>, bufferSize: nat) returns (ok: bool)
      requires IsIndirect(orig) && HasWindows(orig, 0) && |bufferShape| == |op.positions| > 0
      modifies this
      ensures ok <==> bufferShape[|bufferShape| - 1] == bufferSize && RowsArePlain(orig, |bufferShape| - 1)
      ensures ok ==> HasWindows(orig, |bufferShape| - 1) && |op.positions| == 1
    {
      hide RowsArePlain, IsWindowed, AbsorbWindow, Without, IsIndirect, ReplaceAll, AllOver, Blanking;
      if bufferShape[|bufferShape| - 1] != bufferSize {
        return false;
      }
      WindowedFacts(Blanked(orig), Blanked(op), trips, absorbed, remaining, 0);
      var w := |bufferShape| - 1;
      for k := 0 to w
        invariant HasWindows(orig, k) && |op.positions| == |bufferShape| - k
      {
        NextWindow(orig, op, trips, absorbed, remaining, k);
        var c := FirstRow(op);
        if !IsPlain(op, c) {
          FewerRows(orig, k + 1, w);
          return false;
        }
        op, trips, absorbed, remaining :=
          AbsorbWindow(op, c), trips + [op.sizes[c]], absorbed + [remaining[c]], Without(remaining, c);
        WindowedFacts(Blanked(orig), Blanked(op), trips, absorbed, remaining, k + 1);
      }
      WindowedRows(Blanked(orig), Blanked(op), trips, absorbed, remaining, w);
      BlankedRows(orig, w);
      ok := true;
    }

    /** The loop over the entries of the one-dimensional buffer. It fails exactly when the
        variable's tile dimension is not known or its trip count is not the buffer's size. */
    method MaterializeEntryLoop(ghost orig: Access, bufferSize: nat) returns (ok: bool)
      requires IsIndirect(orig) && HasWindows(orig, |trips|) && |op.positions| == 1
      modifies this
      ensures ok <==> EntryFits(orig, bufferSize)
      ensures ok ==> HasEntry(orig, old(|trips|), bufferSize) && absorbed == RowVariables(orig)
    {
      hide EntryFits, IsWindowed, AbsorbEntry, Without, IsPlain, HasEntryLoop, Represents, ReadsEntry, Blanked;
      NextEntry(orig, op, trips, absorbed, remaining, |trips|, bufferSize);
      var c := FirstRow(op);
      if !IsPlain(op, c) || op.sizes[c] != bufferSize {
        return false;
      }
      op, trips, absorbed, remaining :=
        AbsorbEntry(op, c, |trips|), trips + [op.sizes[c]], absorbed + [remaining[c]], Without(remaining, c);
      ok := true;
    }

    /** A loop for the variable of each listed dimension of the base. It fails exactly when some
        subscript, in its turn, does not depend on one variable with a known tile dimension. */
    method MaterializeDirectAccessLoops(ghost orig: Access, ghost rows: nat, ghost bufferSize: nat, dims: seq<nat>)
      returns (ok: bool)
      requires IsIndirect(orig) && HasEntry(orig, rows, bufferSize) && RowsAreGone(orig, absorbed)
      requires |op.maps| == |orig.maps| && forall m :: 0 <= m < |dims| ==> dims[m] < |orig.maps|
      modifies this
      ensures ok <==> DirectsArePlain(orig, old(absorbed), dims)
      ensures ok ==> HasEntry(orig, rows, bufferSize) && |trips| == old(|trips|) + |dims|
      ensures ok ==> exists xs :: TakesTurns(orig, old(absorbed), dims, xs) && absorbed == old(absorbed) + xs
    {
      hide HasEntryLoop, AbsorbDirect, IsOnlyVariable, IsPlain, Without, TakesTurns, DirectTurn, RowsAreGone,
          IsIndirect, Represents, Blanked, DirectsArePlain;
      ghost var gone, xs: seq<nat> := absorbed, [];
      TurnsStart(orig, gone, dims);
      for m := 0 to |dims|
        invariant HasEntry(orig, rows, bufferSize) && |trips| == old(|trips|) + m
        invariant |op.maps| == |orig.maps| && RowsAreGone(orig, absorbed)
        invariant absorbed == gone + xs && TakesTurns(orig, gone, dims[..m], xs)
      {
        var found := FindReferencedDim(op, dims[m]);
        EntryRepresentsOf(orig, op, trips, absorbed, remaining, rows, bufferSize);
        if found.None? || !IsPlain(op, found.value) {
          forall x ensures !DirectTurn(orig, dims[m], gone + xs, x) {
            NoTurn(orig, op, trips, absorbed, remaining, rows, dims[m], found, x);
          }
          NoTurns(orig, gone, dims, xs, m);
          return false;
        }
        var c := found.value;
        OnlyIsThere(op, dims[m], c);
        DirectTurnTracks(orig, op, trips, absorbed, remaining, rows, dims[m], c);
        OneMoreTurn(orig, gone, dims, xs, m, remaining[c]);
        DirectIteration(Blanked(orig), op, trips, absorbed, remaining, rows, bufferSize, c);
        DirectKeepsShape(op, c, |trips|);
        MoreAreGone(orig, absorbed, remaining[c]);
        Reassociate(gone, xs, [remaining[c]]);
        xs := xs + [remaining[c]];
        op, trips, absorbed, remaining :=
          AbsorbDirect(op, c, |trips|), trips + [op.sizes[c]], absorbed + [remaining[c]], Without(remaining, c);
      }
      TurnsEnd(orig, gone, dims, xs);
      assert dims[..|dims|] == dims;
      ok := true;
    }
  }

  lemma InitiallyWindowed(orig: Access, all: seq<nat>)
    requires IsIndirect(orig) && all == Range(0, |orig.sizes|)
    ensures IsWindowed(Blanked(orig), Blanked(orig), [], [], all, 0)
    ensures AllOver(orig.maps, |orig.captured| + |orig.sizes|)
  {
    BlankedIsGather(orig);
    var blank := Blanked(orig);
    assert |blank.sizes| == |orig.sizes| && WellFormed(blank, 0) && IsIndirect(blank);
    hide *;
    InitiallyRepresents(blank, all);
    AwaitsAtFirst(blank, all);
    MakeWindowed(blank, all);
  }

  lemma MakeWindowed(orig: Access, all: seq<nat>)
    requires IsGather(orig) && Represents(orig, orig, [], [], all, 0) && AwaitsRows(orig, orig, [], all)
    ensures IsWindowed(orig, orig, [], [], all, 0)
  {
  }

  lemma TurnsStart(orig: Access, gone: seq<nat>, dims: seq<nat>)
    requires forall m :: 0 <= m < |dims| ==> dims[m] < |orig.maps|
    ensures TakesTurns(orig, gone, dims[..0], []) && gone == gone + []
  {
  }

  lemma TurnsEnd(orig: Access, gone: seq<nat>, dims: seq<nat>, xs: seq<nat>)
    requires (forall m :: 0 <= m < |dims| ==> dims[m] < |orig.maps|) && TakesTurns(orig, gone, dims[..|dims|], xs)
    ensures DirectsArePlain(orig, gone, dims)
  {
    assert dims[..|dims|] == dims;
  }

  lemma OnlyIsThere(op: Access, b: nat, c: nat)
    requires b < |op.maps| && IsOnlyVariable(op, b, c)
    ensures c < |op.sizes|
  {
  }

  lemma MoreAreGone(orig: Access, absorbed: seq<nat>, x: nat)
    requires RowsAreGone(orig, absorbed)
    ensures RowsAreGone(orig, absorbed + [x])
  {
  }

  lemma EntryRepresentsOf(orig: Access, op: Access, trips: seq<nat>, absorbed: seq<nat>, remaining: seq<nat>, rows: nat,
                          bufferSize: nat)
    requires HasEntryLoop(Blanked(orig), op, trips, absorbed, remaining, rows, bufferSize)
    ensures Represents(Blanked(orig), op, trips, absorbed, remaining, rows)
    ensures |op.order| == |op.sizes| == |remaining|
  {
  }

  /** What one window iteration keeps, whether there are references to rows or not. */
  lemma NextWindow(orig: Access, op: Access, trips: seq<nat>, absorbed: seq<nat>, remaining: seq<nat>, k: nat)
    requires IsIndirect(orig) && IsWindowed(Blanked(orig), Blanked(op), trips, absorbed, remaining, k)
    requires AllOver(op.maps, |op.captured| + |op.sizes|) && |op.positions| > 1
    ensures 0 <= FirstRow(op) < |op.sizes| == |op.order| == |remaining|
    ensures IsPlain(op, FirstRow(op)) <==> RowsArePlain(orig, k + 1)
    ensures IsPlain(op, FirstRow(op)) ==>
              var c := FirstRow(op);
              var r := AbsorbWindow(op, c);
              && AllOver(r.maps, |r.captured| + |r.sizes|)
              && IsWindowed(Blanked(orig), Blanked(r), trips + [op.sizes[c]], absorbed + [remaining[c]],
                            Without(remaining, c), k + 1)
  {
    hide *;
    BlankedIsSame(op);
    WindowIteration(Blanked(orig), Blanked(op), trips, absorbed, remaining, k);
    NextRow(Blanked(orig), Blanked(op), trips, absorbed, remaining, k);
    BlankedRows(orig, k + 1);
    var c := FirstRow(op);
    FirstIsAlone(op, c);
    if IsPlain(op, c) {
      WindowBlanks(op, c);
      WindowIsOver(op, c);
    }
  }

  lemma FirstIsAlone(op: Access, c: nat)
    requires OnlySubscriptsFirst(Blanked(op), c)
    ensures |op.positions| > 0 && op.positions[0] == |op.captured| + c
    ensures forall k :: 0 < k < |op.positions| ==> op.positions[k] != op.positions[0]
  {
  }

  lemma BlankedIsSame(op: Access)
    ensures op == Blanked(op).(maps := op.maps)
    ensures |op.positions| > 0 ==> FirstRow(op) == FirstRow(Blanked(op))
    ensures forall c :: IsPlain(op, c) <==> IsPlain(Blanked(op), c)
  {
  }

  lemma WindowIsOver(op: Access, c: nat)
    requires AllOver(op.maps, |op.captured| + |op.sizes|) && c < |op.sizes| == |op.order| && IsPlain(op, c)
             && |op.positions| > 0
    ensures var r := AbsorbWindow(op, c); AllOver(r.maps, |r.captured| + |r.sizes|)
  {
    MapsWithoutDim(op.maps, |op.captured| + c, seq(|op.captured| + |op.sizes| - 1, d => 0));
    hide AllOver, ReplaceAll;
  }

  /** What the entry loop leaves, whether there are references to rows or not. */
  lemma NextEntry(orig: Access, op: Access, trips: seq<nat>, absorbed: seq<nat>, remaining: seq<nat>, k: nat,
                  bufferSize: nat)
    requires IsIndirect(orig) && IsWindowed(Blanked(orig), Blanked(op), trips, absorbed, remaining, k)
    requires AllOver(op.maps, |op.captured| + |op.sizes|) && |op.positions| == 1
    ensures 0 <= FirstRow(op) < |op.sizes| == |op.order| == |remaining| && |trips| == k
    ensures IsPlain(op, FirstRow(op)) && op.sizes[FirstRow(op)] == bufferSize <==> EntryFits(orig, bufferSize)
    ensures var c := FirstRow(op);
            && absorbed + [remaining[c]] == RowVariables(orig)
            && (IsPlain(op, c) ==>
                HasEntryLoop(Blanked(orig), AbsorbEntry(op, c, k), trips + [op.sizes[c]], absorbed + [remaining[c]],
                             Without(remaining, c), k, op.sizes[c]))
  {
    hide *;
    BlankedIsSame(op);
    EntryTurn(Blanked(orig), Blanked(op), trips, absorbed, remaining, k, bufferSize);
    BlankedFits(orig, bufferSize);
    AllRowsTaken(orig, op, trips, absorbed, remaining, k);
    var c := FirstRow(op);
    if IsPlain(op, c) {
      EntryIteration(Blanked(orig), Blanked(op), trips, absorbed, remaining, k);
      OnlyPosition(op);
      EntryBlanks(op, c, k);
    }
  }

  lemma OnlyPosition(op: Access)
    requires |op.positions| == 1 && FirstRow(op) >= 0
    ensures op.positions == [|op.captured| + FirstRow(op)]
  {
  }

  lemma BlankedFits(orig: Access, bufferSize: nat)
    requires IsIndirect(orig)
    ensures EntryFits(Blanked(orig), bufferSize) <==> EntryFits(orig, bufferSize)
  {
    BlankedRows(orig, |orig.positions|);
    hide RowsArePlain, WellFormed, ReplaceAll, Blanking;
    assert RowVariable(orig, |orig.positions| - 1) == RowVariable(Blanked(orig), |orig.positions| - 1);
  }

  lemma AllRowsTaken(orig: Access, op: Access, trips: seq<nat>, absorbed: seq<nat>, remaining: seq<nat>, k: nat)
    requires IsIndirect(orig) && IsWindowed(Blanked(orig), Blanked(op), trips, absorbed, remaining, k)
    requires |op.positions| == 1 && 0 <= FirstRow(op) < |remaining|
    ensures absorbed + [remaining[FirstRow(op)]] == RowVariables(orig)
  {
    var blank := Blanked(orig);
    assert AwaitsRows(blank, Blanked(op), absorbed, remaining) && |absorbed| == k && |orig.positions| == k + 1;
    assert remaining[FirstRow(op)] == RowVariable(blank, k + 0);
    hide IsWindowed, IsIndirect, ReplaceAll;
    forall j | 0 <= j < k ensures absorbed[j] == RowVariable(orig, j) {
      assert absorbed[j] == RowVariable(blank, j);
    }
  }

  lemma WindowedRows(orig: Access, op: Access, trips: seq<nat>, absorbed: seq<nat>, remaining: seq<nat>, k: nat)
    requires IsWindowed(orig, op, trips, absorbed, remaining, k)
    ensures RowsArePlain(orig, k)
  {
  }

  lemma FewerRows(orig: Access, k: nat, n: nat)
    requires !RowsArePlain(orig, k) && k <= n
    ensures !RowsArePlain(orig, n)
  {
  }

  lemma DirectKeepsShape(op: Access, c: nat, loop: nat)
    requires c < |op.sizes| && IsPlain(op, c) && |op.order| == |op.sizes|
    ensures var r := AbsorbDirect(op, c, loop); |r.order| == |r.sizes| && |r.maps| == |op.maps|
  {
  }

  lemma AwaitsAtFirst(orig: Access, all: seq<nat>)
    requires IsGather(orig) && all == Range(0, |orig.sizes|)
    ensures AwaitsRows(orig, orig, [], all)
  {
  }
}
