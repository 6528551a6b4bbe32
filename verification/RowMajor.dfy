/** The coordinates of a tile in a grid of any rank, from its number in row-major order. */
module RowMajor {
  import opened Wrappers
  import opened Divisors

  predicate ArePositive(dims: seq<int>) {
    forall i :: 0 <= i < |dims| ==> dims[i] > 0
  }

  /** The number of tiles. */
  function Size(dims: seq<int>): (p: nat)
    requires ArePositive(dims)
    ensures p > 0
  {
    if dims == [] then 1
    else
      ProductPositive(dims[0], Size(dims[1..]));
      dims[0] * Size(dims[1..])
  }

  lemma ProductPositive(a: nat, b: nat)
    requires a > 0 && b > 0
    ensures a * b > 0
  {
  }

  /** The number of a tile, counted along the last dimension first. */
  function Number(coords: seq<nat>, dims: seq<int>): int
    requires |coords| == |dims|
    decreases |coords|
  {
    var n := |coords|;
    if n == 0 then 0 else Number(coords[..n - 1], dims[..n - 1]) * dims[n - 1] + coords[n - 1]
  }

  predicate InGrid(coords: seq<nat>, dims: seq<int>) {
    |coords| == |dims| && forall i :: 0 <= i < |coords| ==> coords[i] < dims[i]
  }

  /** Coordinate i: the first one is not reduced. */
  function Coord(flat: nat, dims: seq<int>, i: nat): (c: nat)
    requires ArePositive(dims) && i < |dims|
  {
    var v := Whole(flat, Size(dims[i + 1..]));
    if i == 0 then v else v % dims[i]
  }

  function Whole(a: nat, b: nat): (q: nat)
    requires b > 0
    ensures q == a / b
  {
    a / b
  }

  function Coords(flat: nat, dims: seq<int>): (coords: seq<nat>)
    requires ArePositive(dims)
    ensures |coords| == |dims| && forall i :: 0 <= i < |dims| ==> coords[i] == Coord(flat, dims, i)
  {
    seq(|dims|, i requires 0 <= i < |dims| => Coord(flat, dims, i))
  }

  lemma DivideTwice(a: nat, b: nat, c: nat)
    requires b > 0 && c > 0
    ensures b * c > 0 && (a / b) / c == a / (b * c)
  {
    ProductPositive(b, c);
    var q, r := a / b, a % b;
    var q', r' := q / c, q % c;
    assert a == q * b + r && q == q' * c + r';
    assert a == q' * (b * c) + (r' * b + r) by {
      assert (q' * c + r') * b == q' * (b * c) + r' * b;
    }
    Scaled(r' + 1, c, b);
    assert (r' + 1) * b == r' * b + b && c * b == b * c;
    Scaled(0, r', b);
    DivModUnique(a, b * c, q', r' * b + r);
  }

  /** The first coordinates number what is left of the flat number without the other dimensions. */
  lemma {:induction false} FrontNumber(flat: nat, dims: seq<int>, i: nat)
    requires ArePositive(dims) && i < |dims|
    ensures Number(Coords(flat, dims)[..i + 1], dims[..i + 1]) == flat / Size(dims[i + 1..])
  {
    var coords := Coords(flat, dims);
    assert coords[..i + 1][..i] == coords[..i] && dims[..i + 1][..i] == dims[..i];
    if i == 0 {
      assert Number(coords[..0], dims[..0]) == 0;
    } else {
      FrontNumber(flat, dims, i - 1);
      var s := Size(dims[i + 1..]);
      assert dims[i..][1..] == dims[i + 1..];
      assert Size(dims[i..]) == dims[i] * s;
      DivideTwice(flat, s, dims[i]);
      assert s * dims[i] == dims[i] * s;
      assert coords[i] == (flat / s) % dims[i];
    }
  }

  /** The coordinates number the tile, and they are in the grid exactly if the number is. */
  lemma CoordsNumber(flat: nat, dims: seq<int>)
    requires ArePositive(dims) && dims != []
    ensures Number(Coords(flat, dims), dims) == flat
    ensures InGrid(Coords(flat, dims), dims) <==> flat < Size(dims)
  {
    var n, coords := |dims|, Coords(flat, dims);
    FrontNumber(flat, dims, n - 1);
    assert coords[..n] == coords && dims[..n] == dims && dims[n..] == [];
    assert Size(dims) == dims[0] * Size(dims[1..]) && Coord(flat, dims, 0) == flat / Size(dims[1..]);
    WholeBelow(flat, dims[0], Size(dims[1..]));
    forall i | 0 < i < n ensures coords[i] < dims[i] {
      Reduced(flat, dims, i);
    }
    hide Coord, Size, Number, Coords;
  }

  lemma Reduced(flat: nat, dims: seq<int>, i: nat)
    requires ArePositive(dims) && 0 < i < |dims|
    ensures Coord(flat, dims, i) < dims[i]
  {
  }

  lemma WholeBelow(flat: nat, d: nat, s: nat)
    requires s > 0
    ensures flat / s < d <==> flat < d * s
  {
    var q, r := flat / s, flat % s;
    assert flat == q * s + r;
    if q < d {
      Scaled(q + 1, d, s);
    } else {
      Scaled(d, q, s);
    }
  }

  /** Different tiles have different numbers. */
  lemma {:induction false} NumberIsUnique(a: seq<nat>, b: seq<nat>, dims: seq<int>)
    requires ArePositive(dims) && InGrid(a, dims) && InGrid(b, dims) && Number(a, dims) == Number(b, dims)
    ensures a == b
    decreases |dims|
  {
    var n := |dims| - 1;
    if n >= 0 {
      var x, y := Number(a[..n], dims[..n]), Number(b[..n], dims[..n]);
      DivModUnique(Number(a, dims), dims[n], x, a[n]);
      DivModUnique(Number(b, dims), dims[n], y, b[n]);
      NumberIsUnique(a[..n], b[..n], dims[..n]);
      assert a == a[..n] + [a[n]] && b == b[..n] + [b[n]];
    }
  }

  lemma {:induction false} NumberIsInGrid(coords: seq<nat>, dims: seq<int>)
    requires ArePositive(dims) && InGrid(coords, dims)
    ensures 0 <= Number(coords, dims) < Size(dims)
    decreases |dims|
  {
    var n := |dims| - 1;
    if n >= 0 {
      NumberIsInGrid(coords[..n], dims[..n]);
      SizeOfFront(dims);
      Scaled(Number(coords[..n], dims[..n]) + 1, Size(dims[..n]), dims[n]);
      Scaled(0, Number(coords[..n], dims[..n]), dims[n]);
      assert (Number(coords[..n], dims[..n]) + 1) * dims[n] == Number(coords[..n], dims[..n]) * dims[n] + dims[n];
    }
  }

  lemma {:induction false} SizeOfFront(dims: seq<int>)
    requires ArePositive(dims) && dims != []
    ensures Size(dims) == Size(dims[..|dims| - 1]) * dims[|dims| - 1]
  {
    var n := |dims| - 1;
    if n == 0 {
      assert dims[1..] == [] && dims[..0] == [];
    } else {
      SizeOfFront(dims[1..]);
      assert dims[1..][..n - 1] == dims[..n][1..];
      Associative(dims[0], Size(dims[..n][1..]), dims[n]);
    }
  }

  lemma Associative(a: nat, b: nat, c: nat)
    ensures a * (b * c) == (a * b) * c
  {
  }

  /** Numbering and taking apart are inverse to each other. */
  lemma RoundTrip(coords: seq<nat>, dims: seq<int>)
    requires ArePositive(dims) && dims != [] && InGrid(coords, dims)
    ensures Number(coords, dims) >= 0 && Coords(Number(coords, dims), dims) == coords
  {
    NumberIsInGrid(coords, dims);
    CoordsNumber(Number(coords, dims), dims);
    NumberIsUnique(Coords(Number(coords, dims), dims), coords, dims);
  }

  lemma SizeBehind(dims: seq<int>, i: nat)
    requires ArePositive(dims) && i < |dims|
    ensures Size(dims[i..]) == Size(dims[i + 1..]) * dims[i]
  {
    assert dims[i..][0] == dims[i] && dims[i..][1..] == dims[i + 1..];
  }

  /** For every dimension the size of all later ones. */
  method Suffixes(dims: seq<int>) returns (suffix: array<int>)
    requires ArePositive(dims)
    ensures suffix.Length == |dims| && forall i :: 0 <= i < |dims| ==> suffix[i] == Size(dims[i + 1..])
  {
    var k := |dims|;
    suffix := new int[k](_ => 1);
    if k > 0 {
      assert dims[k..] == [];
    }
    assert Size([]) == 1;
    hide Size;
    var i := k - 2;
    while i >= 0
      invariant -2 <= i <= k - 2 && (k >= 1 ==> -1 <= i)
      invariant forall j :: i < j < k && 0 <= j ==> suffix[j] == Size(dims[j + 1..])
    {
      SizeBehind(dims, i + 1);
      suffix[i] := suffix[i + 1] * dims[i + 1];
      i := i - 1;
    }
  }

  /** Takes a flat number apart: divides by the sizes of all later dimensions. */
  method DelinearizeRowMajor(flat: nat, dims: seq<int>) returns (coords: seq<nat>)
    requires ArePositive(dims)
    ensures coords == Coords(flat, dims)
  {
    var suffix := Suffixes(dims);
    coords := [];
    for i := 0 to |dims|
      invariant forall j :: 0 <= j < |dims| ==> suffix[j] == Size(dims[j + 1..])
      invariant |coords| == i && forall j :: 0 <= j < i ==> coords[j] == Coord(flat, dims, j)
    {
      var v := flat;
      if suffix[i] != 1 {
        v := Whole(v, suffix[i]);
      }
      if i != 0 {
        v := v % dims[i];
      }
      IsCoord(flat, dims, i, suffix[i]);
      coords := coords + [v];
    }
  }

  lemma IsCoord(flat: nat, dims: seq<int>, i: nat, s: int)
    requires ArePositive(dims) && i < |dims| && s == Size(dims[i + 1..])
    ensures var v := if s != 1 then Whole(flat, s) else flat;
            Coord(flat, dims, i) == if i != 0 then v % dims[i] else v
  {
  }

  /** The size of the grid once it has one dimension; None if it has none, or one that is not
      positive. */
  method FlatSize(dims: seq<int>) returns (size: Option<nat>)
    ensures size.Some? <==> dims != [] && ArePositive(dims)
    ensures size.Some? ==> ArePositive(dims) && size.value == Size(dims)
  {
    if dims == [] {
      return None;
    }
    var flat := 1;
    for i := 0 to |dims|
      invariant ArePositive(dims[..i]) && flat == Size(dims[..i])
    {
      if dims[i] <= 0 {
        return None;
      }
      assert dims[..i + 1][..i] == dims[..i];
      SizeOfFront(dims[..i + 1]);
      flat := flat * dims[i];
    }
    assert dims[..|dims|] == dims;
    return Some(flat);
  }
}
