/** A hexagon-shaped map of cube coordinates around the origin, and the
    inverse question: which radius a map of a given size has. */
module HexagonGrid {
  import opened HexCoordinates

  /** Number of hexagons within distance `radius` of the origin. */
  function HexCount(radius: nat): nat
  {
    3 * radius * (radius + 1) + 1
  }

  /** All three coordinates within `radius` of zero. */
  predicate InRange(h: Hex, radius: int)
  {
    Abs(h.q) <= radius && Abs(h.r) <= radius && Abs(h.s) <= radius
  }

  /** The generation order: by q ascending, then by r ascending. */
  predicate Before(a: Hex, b: Hex)
  {
    a.q < b.q || (a.q == b.q && a.r < b.r)
  }

  function Max(a: int, b: int): int { if a < b then b else a }
  function Min(a: int, b: int): int { if a < b then a else b }

  /** Size of the column at coordinate q of the map of the given radius. */
  function ColumnSize(radius: int, q: int): int
  {
    2 * radius + 1 - Abs(q)
  }

  /** Total size of the columns from -radius up to (not including) q. */
  function Columns(radius: int, q: int): int
    decreases q + radius
  {
    if q <= -radius then 0 else Columns(radius, q - 1) + ColumnSize(radius, q - 1)
  }

  lemma {:induction false} ColumnsLeftHalf(radius: int, q: int)
    requires -radius <= q <= 0
    ensures 2 * Columns(radius, q) == (q + radius) * (2 * radius + 2) + (q + radius) * (q + radius - 1)
    decreases q + radius
  {
    if q > -radius {
      ColumnsLeftHalf(radius, q - 1);
      var k := q + radius;
      assert k * (2 * radius + 2) == (k - 1) * (2 * radius + 2) + 2 * radius + 2;
      assert k * (k - 1) == (k - 1) * (k - 2) + 2 * (k - 1);
    }
  }

  lemma {:induction false} ColumnsRightHalf(radius: int, q: int)
    requires 0 <= radius && 0 <= q <= radius + 1
    ensures 2 * Columns(radius, q) == 2 * Columns(radius, 0) + q * (4 * radius + 2) - q * (q - 1)
    decreases q
  {
    if q > 0 {
      ColumnsRightHalf(radius, q - 1);
      assert q * (4 * radius + 2) == (q - 1) * (4 * radius + 2) + 4 * radius + 2;
      assert q * (q - 1) == (q - 1) * (q - 2) + 2 * (q - 1);
    }
  }

  /** The columns of a map of radius R add up to 3R(R+1)+1 hexagons. */
  lemma AllColumnsCount(radius: nat)
    ensures Columns(radius, radius + 1) == HexCount(radius)
  {
    ColumnsLeftHalf(radius, 0);
    ColumnsRightHalf(radius, radius + 1);
    assert 2 * Columns(radius, 0) == radius * (2 * radius + 2) + radius * (radius - 1);
  }

  /** Every well-formed hexagon within `radius`, each exactly once, in
      (q, r) order; a negative radius gives no hexagons. */
  method GenerateHexagonGrid(radius: int) returns (hexes: seq<Hex>)
    ensures radius < 0 ==> hexes == []
    ensures radius >= 0 ==> |hexes| == HexCount(radius)
    ensures forall i :: 0 <= i < |hexes| ==> IsCube(hexes[i]) && InRange(hexes[i], radius)
    ensures forall h :: IsCube(h) && InRange(h, radius) ==> h in hexes
    ensures forall i, j :: 0 <= i < j < |hexes| ==> Before(hexes[i], hexes[j])
  {
    hexes := [];
    if radius < 0 {
      return;
    }
    var q := -radius;
    while q <= radius
      invariant -radius <= q <= radius + 1
      invariant ColumnsDone(hexes, radius, q)
    {
      hexes := AddColumn(radius, q, hexes);
      q := q + 1;
    }
    AllColumnsCount(radius);
  }

  /** `hexes` is the map of the given radius up to (not including) column
      q: its well-formed hexagons in range with a smaller q, each once, in
      generation order. */
  ghost predicate ColumnsDone(hexes: seq<Hex>, radius: int, q: int)
  {
    |hexes| == Columns(radius, q)
    && (forall i :: 0 <= i < |hexes| ==> IsCube(hexes[i]) && InRange(hexes[i], radius))
    && (forall i :: 0 <= i < |hexes| ==> hexes[i].q < q)
    && (forall h :: IsCube(h) && InRange(h, radius) && h.q < q ==> h in hexes)
    && (forall i, j :: 0 <= i < j < |hexes| ==> Before(hexes[i], hexes[j]))
  }

  /** The first and last r of column q of the map of the given radius. */
  function FirstRow(radius: int, q: int): int { Max(-radius, -q - radius) }
  function LastRow(radius: int, q: int): int { Min(radius, -q + radius) }

  /** `hexes` is the map up to column q, followed by the hexagons of column
      q before row r. */
  ghost predicate ColumnUpTo(hexes: seq<Hex>, radius: int, q: int, r: int)
  {
    |hexes| == Columns(radius, q) + (r - FirstRow(radius, q))
    && (forall i :: 0 <= i < |hexes| ==> IsCube(hexes[i]) && InRange(hexes[i], radius))
    && (forall i :: 0 <= i < |hexes| ==> Before(hexes[i], Hex(q, r, -q - r)))
    && (forall h :: IsCube(h) && InRange(h, radius) && Before(h, Hex(q, r, -q - r)) ==> h in hexes)
    && (forall i, j :: 0 <= i < j < |hexes| ==> Before(hexes[i], hexes[j]))
  }

  lemma ColumnStart(hexes: seq<Hex>, radius: int, q: int)
    requires -radius <= q <= radius
    requires ColumnsDone(hexes, radius, q)
    ensures ColumnUpTo(hexes, radius, q, FirstRow(radius, q))
  {
  }

  lemma ColumnStep(hexes: seq<Hex>, radius: int, q: int, r: int)
    requires -radius <= q <= radius && FirstRow(radius, q) <= r <= LastRow(radius, q)
    requires ColumnUpTo(hexes, radius, q, r)
    ensures ColumnUpTo(hexes + [Hex(q, r, -q - r)], radius, q, r + 1)
  {
    var h0 := Hex(q, r, -q - r);
    var next := hexes + [h0];
    assert forall i :: 0 <= i < |hexes| ==> next[i] == hexes[i];
    forall h | IsCube(h) && InRange(h, radius) && Before(h, Hex(q, r + 1, -q - r - 1)) ensures h in next {
      if h != h0 {
        assert Before(h, h0);
      }
    }
    forall i, j | 0 <= i < j < |next| ensures Before(next[i], next[j]) {
      if j == |hexes| {
        assert Before(hexes[i], h0);
      }
    }
  }

  lemma ColumnFinish(hexes: seq<Hex>, radius: int, q: int)
    requires -radius <= q <= radius
    requires ColumnUpTo(hexes, radius, q, LastRow(radius, q) + 1)
    ensures ColumnsDone(hexes, radius, q + 1)
  {
    assert LastRow(radius, q) - FirstRow(radius, q) + 1 == ColumnSize(radius, q);
  }

  /** One column of `GenerateHexagonGrid`: the hexagons with coordinate q,
      r ascending, appended after the earlier columns. */
  method AddColumn(radius: int, q: int, start: seq<Hex>) returns (hexes: seq<Hex>)
    requires -radius <= q <= radius
    requires ColumnsDone(start, radius, q)
    ensures ColumnsDone(hexes, radius, q + 1)
  {
    hexes := start;
    var r1 := Max(-radius, -q - radius);
    var r2 := Min(radius, -q + radius);
    var r := r1;
    ColumnStart(hexes, radius, q);
    while r <= r2
      invariant r1 <= r <= r2 + 1
      invariant ColumnUpTo(hexes, radius, q, r)
    {
      ColumnStep(hexes, radius, q, r);
      hexes := hexes + [Hex(q, r, -q - r)];
      r := r + 1;
    }
    ColumnFinish(hexes, radius, q);
  }

  /** `radius` is the smallest non-negative radius whose map holds at least
      `count` hexagons. */
  ghost predicate IsRadiusFor(count: int, radius: nat)
  {
    HexCount(radius) >= count && forall r: nat :: r < radius ==> HexCount(r) < count
  }

  /** The radius of a map of `count` hexagons: peel off the centre, then one
      ring of 6k hexagons per step. */
  method GetRadius(count: int) returns (radius: nat)
    ensures IsRadiusFor(count, radius)
    ensures count <= 1 ==> radius == 0
  {
    radius := 0;
    var rest := count - 1;
    while rest > 0
      invariant rest == count - HexCount(radius)
      invariant forall r: nat :: r < radius ==> HexCount(r) < count
    {
      assert HexCount(radius + 1) == HexCount(radius) + (radius + 1) * 6;
      radius := radius + 1;
      rest := rest - radius * 6;
    }
  }

  /** More radius, strictly more hexagons. */
  lemma HexCountStrictlyIncreasing(a: nat, b: nat)
    requires a < b
    ensures HexCount(a) < HexCount(b)
  {
    assert HexCount(b) - HexCount(a) == 3 * (b - a) * (a + b + 1);
  }

  /** `GetRadius` inverts the size of a generated map: the only radius that
      fits `HexCount(R)` hexagons is R. */
  lemma GetRadiusRoundTrip(radius: nat, r: nat)
    requires IsRadiusFor(HexCount(radius), r)
    ensures r == radius
  {
    if r < radius {
      HexCountStrictlyIncreasing(r, radius);
    }
  }

  /** `GetRadius(GenerateHexagonGrid(radius).Count) == radius`. */
  method RadiusOfGeneratedGrid(radius: nat) returns (r: nat)
    ensures r == radius
  {
    var hexes := GenerateHexagonGrid(radius);
    r := GetRadius(|hexes|);
    GetRadiusRoundTrip(radius, r);
  }
}
