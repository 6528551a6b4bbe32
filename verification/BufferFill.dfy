/** The fill of the address buffer inside the window loops: the tile of the addresses is pinned at
    every window in turn, what is loaded from it is collapsed to one row, and that is stored. */
module BufferFill {
  import opened AffineMaps
  import opened RowMajor
  import opened Sequences

  /** The addresses, by their index in the address tensor. */
  type AddressTensor = seq<int> -> int

  // ----- The pinned tile

  /** The tile inside the loops with these values, pinned in the order of the dimensions. */
  function PinAll(t: Tile, ivs: seq<int>): (r: Tile)
    requires |ivs| <= |t.indices| == |t.shape|
    ensures |r.indices| == |r.shape| == |t.shape|
    decreases |ivs|
  {
    if ivs == [] then t
    else
      var n := |ivs| - 1;
      PinTile(PinAll(t, ivs[..n]), n, ivs[n])
  }

  /** Where a pinned tile starts, and what is left of its shape: the first pin takes its own start
      from it, too. */
  lemma {:induction false} PinnedAt(t: Tile, ivs: seq<int>)
    requires |ivs| <= |t.indices| && IsTile(t)
    ensures var r := PinAll(t, ivs);
            && IsTile(r)
            && (forall d :: 0 <= d < |ivs| ==> r.indices[d] == ivs[d] && r.shape[d] == 1)
            && (forall d :: |ivs| <= d < |t.indices| ==>
                  r.indices[d] == (if ivs == [] then t.indices[d] else 0) && r.shape[d] == t.shape[d])
    decreases |ivs|
  {
    if ivs != [] {
      var n := |ivs| - 1;
      var before := PinAll(t, ivs[..n]);
      PinnedAt(t, ivs[..n]);
      assert n < |before.indices|;
      PinnedIsBox(before, n, ivs[n]);
      hide IsTile;
      forall d | 0 <= d < n ensures PinTile(before, n, ivs[n]).indices[d] == ivs[d] {
        assert before.indices[d] == ivs[..n][d];
      }
    }
  }

  // ----- Collapsing

  function Picked(s: seq<nat>, group: seq<nat>): (r: seq<nat>)
    requires forall i :: 0 <= i < |group| ==> group[i] < |s|
    ensures |r| == |group|
  {
    seq(|group|, i requires 0 <= i < |group| => s[group[i]])
  }

  /** Where the element at y is once each group of dimensions is one: at its row-major number in
      the group. */
  function Collapsed(y: seq<nat>, shape: seq<nat>, groups: seq<seq<nat>>): (z: seq<int>)
    requires |y| == |shape| && forall g, i :: 0 <= g < |groups| && 0 <= i < |groups[g]| ==> groups[g][i] < |shape|
    ensures |z| == |groups|
  {
    seq(|groups|, g requires 0 <= g < |groups| => Number(Picked(y, groups[g]), Picked(shape, groups[g])))
  }

  lemma {:induction false} NumberOfZeros(coords: seq<nat>, dims: seq<int>)
    requires |coords| == |dims| && forall i :: 0 <= i < |coords| ==> coords[i] == 0
    ensures Number(coords, dims) == 0
    decreases |coords|
  {
    if coords != [] {
      NumberOfZeros(coords[..|coords| - 1], dims[..|coords| - 1]);
    }
  }

  /** With all dimensions in one group and only the last one free, the element is at its index there. */
  lemma CollapsedRow(y: seq<nat>, shape: seq<nat>)
    requires |shape| > 0 && InBox(y, shape) && forall d :: 0 <= d < |shape| - 1 ==> shape[d] == 1
    ensures var groups := LeadingFold(|shape|, |shape| - 1);
            && (forall g, i :: 0 <= g < |groups| && 0 <= i < |groups[g]| ==> groups[g][i] < |shape|)
            && Collapsed(y, shape, groups) == [y[|shape| - 1]]
  {
    var all: seq<nat>, n := Range(0, |shape|), |shape| - 1;
    assert LeadingFold(|shape|, n) == [all];
    assert Picked(y, all) == y && Picked(shape, all) == shape;
    NumberOfZeros(y[..n], shape[..n]);
  }

  // ----- The row

  /** Every element of the tile is stored where collapsing its load puts it. */
  ghost predicate IsFilled(contents: seq<int>, addr: AddressTensor, p: Tile)
    requires |p.indices| == |p.shape| > 0
  {
    var groups := LeadingFold(|p.shape|, |p.shape| - 1);
    && (forall g, i :: 0 <= g < |groups| && 0 <= i < |groups[g]| ==> groups[g][i] < |p.shape|)
    && forall y: seq<nat> :: InBox(y, p.shape) ==> IsStored(contents, addr, p, groups, y)
  }

  predicate IsStored(contents: seq<int>, addr: AddressTensor, p: Tile, groups: seq<seq<nat>>, y: seq<nat>)
    requires |y| == |p.shape| == |p.indices|
    requires forall g, i :: 0 <= g < |groups| && 0 <= i < |groups[g]| ==> groups[g][i] < |p.shape|
  {
    var z := Collapsed(y, p.shape, groups);
    |z| == 1 && 0 <= z[0] < |contents| && contents[z[0]] == addr(Moved(p.indices, y))
  }

  /** The buffer holds the row of the address tensor that the first loops select. */
  predicate IsRow(contents: seq<int>, addr: AddressTensor, row: seq<int>) {
    forall j :: 0 <= j < |contents| ==> contents[j] == addr(row + [j])
  }

  /** Where the tile as it was has what is subscripted by b: the buffer as a whole held that. */
  function PlaceInTile(t: Tile, b: seq<int>): seq<int> {
    if |b| == |t.indices| then Moved(t.indices, b) else b
  }

  /** Where the fills read it: once the tile is pinned it starts at 0. */
  function PlaceFilled(t: Tile, b: seq<int>): seq<int> {
    if |b| == |t.indices| == 1 then Moved(t.indices, b) else b
  }

  function InTile(addr: AddressTensor, t: Tile): AddressTensor {
    b => addr(PlaceInTile(t, b))
  }

  function AsFilled(addr: AddressTensor, t: Tile): AddressTensor {
    b => addr(PlaceFilled(t, b))
  }

  /** An element of a tile with only its last dimension free is stored at its index there. */
  lemma StoredAt(contents: seq<int>, addr: AddressTensor, p: Tile, n: nat, y: seq<nat>)
    requires |p.shape| == |p.indices| == n + 1 && InBox(y, p.shape) && |contents| == p.shape[n]
    requires forall d :: 0 <= d < n ==> p.shape[d] == 1
    ensures var groups := LeadingFold(n + 1, n);
            && (forall g, i :: 0 <= g < |groups| && 0 <= i < |groups[g]| ==> groups[g][i] < |p.shape|)
            && (IsStored(contents, addr, p, groups, y) <==> contents[y[n]] == addr(Moved(p.indices, y)))
  {
    CollapsedRow(y, p.shape);
    hide LeadingFold, Collapsed;
  }

  /** Which is the same as that the entries are what is loaded, in order. */
  lemma FilledIsRow(contents: seq<int>, addr: AddressTensor, p: Tile, n: nat)
    requires |p.shape| == |p.indices| == n + 1 && |contents| == p.shape[n] > 0
    requires forall d :: 0 <= d < n ==> p.shape[d] == 1
    ensures IsFilled(contents, addr, p) <==>
            forall j :: 0 <= j < |contents| ==> contents[j] == addr(Moved(p.indices, ZerosAnd(n, j)))
  {
    hide LeadingFold, IsStored, Moved, InBox, ZerosAnd;
    InRow(p.shape, n, 0);
    StoredAt(contents, addr, p, n, ZerosAnd(n, 0));
    forall y: seq<nat> | InBox(y, p.shape)
      ensures |y| == n + 1 && 0 <= y[n] < |contents| && y == ZerosAnd(n, y[n])
      ensures IsStored(contents, addr, p, LeadingFold(n + 1, n), y) <==> contents[y[n]] == addr(Moved(p.indices, y))
    {
      OnlyLast(p.shape, n, y);
      StoredAt(contents, addr, p, n, y);
    }
    forall j | 0 <= j < |contents| ensures InBox(ZerosAnd(n, j), p.shape) && ZerosAnd(n, j)[n] == j {
      InRow(p.shape, n, j);
    }
  }

  lemma InRow(shape: seq<nat>, n: nat, j: nat)
    requires |shape| == n + 1 && j < shape[n] && forall d :: 0 <= d < n ==> shape[d] == 1
    ensures InBox(ZerosAnd(n, j), shape) && ZerosAnd(n, j)[n] == j
  {
  }

  lemma OnlyLast(shape: seq<nat>, n: nat, y: seq<nat>)
    requires |shape| == n + 1 && InBox(y, shape) && forall d :: 0 <= d < n ==> shape[d] == 1
    ensures |y| == n + 1 && 0 <= y[n] < shape[n] && y == ZerosAnd(n, y[n])
  {
  }

  /** The address at index j of the last dimension, from where the tile starts. */
  function Loaded(addr: AddressTensor, start: seq<int>, j: nat): int
    requires |start| > 0
  {
    addr(Moved(start, ZerosAnd(|start| - 1, j)))
  }

  /** The row of the windows, one entry for each address. */
  lemma RowOfWindows(contents: seq<int>, addr: AddressTensor, t: Tile, ivs: seq<int>)
    requires |t.indices| == |ivs| + 1 && IsTile(t) && |contents| == t.shape[|ivs|]
    requires forall j :: 0 <= j < |contents| ==> contents[j] == Loaded(addr, PinAll(t, ivs).indices, j)
    ensures IsFilled(contents, addr, PinAll(t, ivs)) && IsRow(contents, AsFilled(addr, t), ivs)
  {
    PinnedAt(t, ivs);
    assert t.shape[|ivs|] > 0;
    var p := PinAll(t, ivs);
    hide IsTile, PinAll, IsFilled, Moved;
    FilledIsRow(contents, addr, p, |ivs|);
    forall j | 0 <= j < |contents| ensures contents[j] == addr(PlaceFilled(t, ivs + [j])) {
      PlaceOfRow(t, p, ivs, j);
    }
  }

  lemma PlaceOfRow(t: Tile, p: Tile, ivs: seq<int>, j: nat)
    requires |p.indices| == |t.indices| == |ivs| + 1
    requires forall d :: 0 <= d < |ivs| ==> p.indices[d] == ivs[d]
    requires p.indices[|ivs|] == if ivs == [] then t.indices[|ivs|] else 0
    ensures Moved(p.indices, ZerosAnd(|ivs|, j)) == PlaceFilled(t, ivs + [j])
  {
  }

  function ZerosAnd(n: nat, j: nat): (y: seq<nat>)
    ensures |y| == n + 1 && y[n] == j && forall d :: 0 <= d < n ==> y[d] == 0
  {
    seq(n, d => 0) + [j]
  }

  /** The fills read what the buffer as a whole held exactly if there are no windows or the tile
      starts at 0. */
  lemma FillsReadTileIff(t: Tile)
    ensures (forall b :: |b| == |t.indices| ==> PlaceFilled(t, b) == PlaceInTile(t, b)) <==>
            |t.indices| == 1 || forall d :: 0 <= d < |t.indices| ==> t.indices[d] == 0
  {
    var zeros := seq(|t.indices|, d => 0);
    assert Moved(t.indices, zeros) == t.indices;
    if |t.indices| != 1 && PlaceFilled(t, zeros) == PlaceInTile(t, zeros) {
      assert t.indices == zeros;
    }
    if forall d :: 0 <= d < |t.indices| ==> t.indices[d] == 0 {
      forall b: seq<int> | |b| == |t.indices| ensures Moved(t.indices, b) == b {
      }
    }
  }

  /** Loads the pinned tile of the windows, collapses it and stores it in the buffer. */
  method Fill(buffer: array<int>, addr: AddressTensor, t: Tile, ivs: seq<int>)
    requires |t.indices| == |ivs| + 1 && IsTile(t) && buffer.Length == t.shape[|ivs|]
    modifies buffer
    ensures IsFilled(buffer[..], addr, PinAll(t, ivs)) && IsRow(buffer[..], AsFilled(addr, t), ivs)
  {
    var start := PinAll(t, ivs).indices;
    assert |start| > 0;
    hide *;
    for j := 0 to buffer.Length
      invariant forall i :: 0 <= i < j ==> buffer[i] == Loaded(addr, start, i)
    {
      buffer[j] := Loaded(addr, start, j);
    }
    RowOfWindows(buffer[..], addr, t, ivs);
  }

  // ----- Where the pins of other tiles go

  /** The dimension that is pinned next: the first one that still has more than one element. */
  function PinPlace(shape: seq<nat>): (k: nat)
    ensures k <= |shape| && (forall d :: 0 <= d < k ==> shape[d] == 1) && (k < |shape| ==> shape[k] != 1)
  {
    if shape == [] || shape[0] != 1 then 0 else 1 + PinPlace(shape[1..])
  }

  /** The shape with the first n dimensions pinned. */
  function PinnedShape(shape: seq<nat>, n: nat): (r: seq<nat>)
    requires n <= |shape|
    ensures |r| == |shape|
  {
    seq(|shape|, d requires 0 <= d < |shape| => if d < n then 1 else shape[d])
  }

  /** The loops pin one dimension after the other exactly if each has more than one element: a
      dimension of one element is passed over, and its loop pins the next one. */
  lemma PinsInTurnIff(shape: seq<nat>, n: nat)
    requires n <= |shape|
    ensures (forall m :: 0 <= m < n ==> PinPlace(PinnedShape(shape, m)) == m) <==>
            forall m :: 0 <= m < n ==> shape[m] != 1
  {
    forall m | 0 <= m < n ensures PinPlace(PinnedShape(shape, m)) == m <==> shape[m] != 1 {
      assert PinnedShape(shape, m)[m] == shape[m];
    }
  }

  /** The groups in which a tile's value is folded after a pin are a partition exactly if some
      dimension comes behind the pinned one. */
  lemma PinnedFoldPartitions(shape: seq<nat>)
    requires PinPlace(shape) < |shape|
    ensures Flatten(LeadingFold(|shape|, PinPlace(shape) + 1)) == Range(0, |shape|) <==> PinPlace(shape) + 1 < |shape|
  {
    hide *;
    FoldPartitions(|shape|, PinPlace(shape) + 1);
  }
}
