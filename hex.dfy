/** The `Hex` value type: cube coordinates (q, r, s) of a hexagon. A
    well-formed hexagon has q + r + s == 0, but the type does not enforce it. */
module HexCoordinates {

  /** The three cube coordinates, stored exactly as given. */
  datatype Hex = Hex(q: int, r: int, s: int)

  /** The format the constructor checks: the coordinates sum to zero. */
  predicate IsCube(h: Hex)
  {
    h.q + h.r + h.s == 0
  }

  /** Absolute value, as `Mathf.Abs` on an int. */
  function Abs(x: int): (a: nat)
    ensures a == x || a == -x
  {
    if x < 0 then -x else x
  }

  /** The constructor: stores the three coordinates unchanged even when they
      do not sum to zero; in that case it only logs an error, reported here by
      `logged`. */
  function Construct(q: int, r: int, s: int): (result: (Hex, bool))
    ensures result.0.q == q && result.0.r == r && result.0.s == s
    ensures result.1 <==> !IsCube(result.0)
  {
    (Hex(q, r, s), q + r + s != 0)
  }

  /** `ID`: the sum of the absolute coordinates; it is zero only at the origin. */
  function ID(h: Hex): (id: nat)
    ensures id == 0 <==> h == Hex(0, 0, 0)
  {
    Abs(h.q) + Abs(h.r) + Abs(h.s)
  }

  /** `Equals(Hex)`: componentwise comparison, which coincides with
      equality of the stored coordinates. */
  predicate Equals(a: Hex, b: Hex): (r: bool)
    ensures r <==> a == b
  {
    a.q == b.q && a.r == b.r && a.s == b.s
  }

  /** So `Equals` is an equivalence relation. */
  lemma EqualsIsEquivalence(a: Hex, b: Hex, c: Hex)
    ensures Equals(a, a)
    ensures Equals(a, b) ==> Equals(b, a)
    ensures Equals(a, b) && Equals(b, c) ==> Equals(a, c)
  {
  }
}
