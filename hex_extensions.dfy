/** Cube-coordinate arithmetic on `Hex`: the six directions, componentwise
    addition, subtraction and scaling, length, distance and neighbours.
    C# `int` overflow is not modelled: coordinates are unbounded integers. */
module HexExtensions {
  import opened Common
  import opened HexCoordinates

  /** The six unit directions, in the order of the source table. */
  const Directions: seq<Hex> := [
    Hex(1, 0, -1),
    Hex(1, -1, 0),
    Hex(0, -1, 1),
    Hex(-1, 0, 1),
    Hex(-1, 1, 0),
    Hex(0, 1, -1)
  ]

  /** `Directions[direction]`: an index outside 0..5 is only logged, and then
      the array access throws. */
  function GetDirection(direction: int): (d: Result<Hex>)
    ensures d.Success? <==> 0 <= direction < 6
    ensures d.Success? ==> d.value in Directions
    ensures d.Failure? ==> d.error == IndexOutOfRange
  {
    if 0 <= direction < 6 then Success(Directions[direction]) else Failure(IndexOutOfRange)
  }

  /** Componentwise sum; well-formed hexagons give a well-formed one. */
  function Add(a: Hex, b: Hex): (r: Hex)
    ensures IsCube(a) && IsCube(b) ==> IsCube(r)
  {
    Hex(a.q + b.q, a.r + b.r, a.s + b.s)
  }

  /** Componentwise difference, which adding `b` back undoes; well-formed
      hexagons give a well-formed one. */
  function Subtract(a: Hex, b: Hex): (r: Hex)
    ensures Add(r, b) == a
    ensures IsCube(a) && IsCube(b) ==> IsCube(r)
  {
    Hex(a.q - b.q, a.r - b.r, a.s - b.s)
  }

  /** Componentwise scaling, which keeps the cube format. */
  function Multiply(a: Hex, k: int): (r: Hex)
    ensures IsCube(a) ==> IsCube(r)
  {
    assert a.q * k + a.r * k + a.s * k == (a.q + a.r + a.s) * k;
    Hex(a.q * k, a.r * k, a.s * k)
  }

  /** Half the sum of the absolute coordinates (C# integer division of a
      non-negative value, which agrees with Dafny's). On a well-formed
      hexagon it is the largest absolute coordinate. */
  function Length(h: Hex): (n: nat)
    ensures IsCube(h) ==> n >= Abs(h.q) && n >= Abs(h.r) && n >= Abs(h.s)
    ensures IsCube(h) ==> n == Abs(h.q) || n == Abs(h.r) || n == Abs(h.s)
  {
    (Abs(h.q) + Abs(h.r) + Abs(h.s)) / 2
  }

  /** The length of the difference. Between well-formed hexagons it is zero
      only for equal ones; `DistanceZeroNeedsCube` shows that the format is
      needed. */
  function Distance(a: Hex, b: Hex): (d: nat)
    ensures IsCube(a) && IsCube(b) ==> (d == 0 <==> a == b)
  {
    var h := Subtract(a, b);
    assert h == Hex(0, 0, 0) <==> a == b;
    Length(h)
  }

  /** `Add(hex, GetDirection(direction))`, failing as `GetDirection` does. */
  function GetNeighbor(h: Hex, direction: int): (n: Result<Hex>)
    ensures n.Success? <==> 0 <= direction < 6
    ensures n.Failure? ==> n.error == IndexOutOfRange
  {
    match GetDirection(direction)
    case Success(d) => Success(Add(h, d))
    case Failure(e) => Failure(e)
  }

  /** Every direction is a well-formed hexagon of length 1, and the six are
      pairwise distinct. */
  lemma DirectionsAreUnitCubes()
    ensures |Directions| == 6
    ensures forall i :: 0 <= i < 6 ==> IsCube(Directions[i]) && Length(Directions[i]) == 1
    ensures forall i, j :: 0 <= i < j < 6 ==> Directions[i] != Directions[j]
  {
  }

  /** Subtraction undoes addition, and addition is commutative. */
  lemma AddSubtractInverse(a: Hex, b: Hex)
    ensures Subtract(Add(a, b), b) == a
    ensures Add(a, b) == Add(b, a)
  {
  }

  /** `ID` is twice the length for a well-formed hexagon. */
  lemma IdIsTwiceLength(h: Hex)
    requires IsCube(h)
    ensures ID(h) == 2 * Length(h)
  {
  }

  /** Distance is symmetric and zero from a hexagon to itself. */
  lemma DistanceSymmetric(a: Hex, b: Hex)
    ensures Distance(a, b) == Distance(b, a)
    ensures Distance(a, a) == 0
  {
    var ab, ba := Subtract(a, b), Subtract(b, a);
    assert ba == Hex(-ab.q, -ab.r, -ab.s);
    assert Abs(ba.q) == Abs(ab.q) && Abs(ba.r) == Abs(ab.r) && Abs(ba.s) == Abs(ab.s);
    assert Subtract(a, a) == Hex(0, 0, 0);
  }

  /** Without the format the distance is no metric: Hex(1, 0, 0) is at
      distance 0 from the origin. */
  lemma DistanceZeroNeedsCube()
    ensures Distance(Hex(1, 0, 0), Hex(0, 0, 0)) == 0
  {
    assert Subtract(Hex(1, 0, 0), Hex(0, 0, 0)) == Hex(1, 0, 0);
    assert Abs(1) + Abs(0) + Abs(0) == 1;
  }

  /** Between well-formed hexagons the distance obeys the triangle inequality. */
  lemma DistanceTriangle(a: Hex, b: Hex, c: Hex)
    requires IsCube(a) && IsCube(b) && IsCube(c)
    ensures Distance(a, c) <= Distance(a, b) + Distance(b, c)
  {
    var ab, bc, ac := Subtract(a, b), Subtract(b, c), Subtract(a, c);
    assert Abs(ac.q) <= Abs(ab.q) + Abs(bc.q);
    assert Abs(ac.r) <= Abs(ab.r) + Abs(bc.r);
    assert Abs(ac.s) <= Abs(ab.s) + Abs(bc.s);
    IdIsTwiceLength(ab);
    IdIsTwiceLength(bc);
    IdIsTwiceLength(ac);
  }

  /** Every neighbour in a valid direction is at distance 1, whatever the
      hexagon; the neighbour of a well-formed hexagon is well formed. */
  lemma NeighborAtDistanceOne(h: Hex, direction: int)
    requires 0 <= direction < 6
    ensures GetNeighbor(h, direction).Success?
    ensures Distance(h, GetNeighbor(h, direction).value) == 1
    ensures IsCube(h) ==> IsCube(GetNeighbor(h, direction).value)
  {
    DirectionsAreUnitCubes();
  }
}
