/**
  Positions on the 3x3x3 puzzle.  A coordinate names one layer per axis:
  -1, 0 or 1.  The grid of pieces is addressed by shifting each component
  by one, which this module flattens into a single index 0..26.
 */
module Coords {

  /** One component of a position: the layer -1, 0 or 1 along one axis. */
  type Trit = v: int | -1 <= v <= 1

  /** The source's `Vector`, restricted to the domain every position lives in. */
  datatype Coord = Coord(x: Trit, y: Trit, z: Trit)

  const Core: Coord := Coord(0, 0, 0)

  /** Integer absolute value (the source applies `fabs` to integer layers). */
  function Abs(a: int): (r: nat)
    ensures r == a || r == -a
  {
    if a < 0 then -a else a
  }

  /** 1 when the component is off the middle layer, 0 otherwise. */
  function Off(v: Trit): nat
  {
    if v == 0 then 0 else 1
  }

  /**
    |x| + |y| + |z|: the number of faces a piece at `c` touches, so
    0 for the hidden core, 1 for a face centre, 2 for an edge and 3 for
    a corner.
   */
  function Weight(c: Coord): (r: nat)
    ensures r == Off(c.x) + Off(c.y) + Off(c.z)
    ensures r <= 3
    ensures r == 0 <==> c == Core
  {
    Abs(c.x) + Abs(c.y) + Abs(c.z)
  }

  /** Product of two layers; it stays within -1..1 and is 1 when they agree off the middle. */
  function Prod(a: Trit, b: Trit): (r: Trit)
    ensures a == b ==> r == Off(a)
  {
    if a == 0 then 0 else if a == 1 then b else -b
  }

  /** Component-wise product sum, as `Piece::cost` computes it. */
  function Dot(a: Coord, b: Coord): (d: int)
    ensures -3 <= d <= 3
    ensures a == b ==> d == Weight(a)
  {
    Prod(a.x, b.x) + Prod(a.y, b.y) + Prod(a.z, b.z)
  }

  /** Flat cell number of `pieceArr[c.x + 1][c.y + 1][c.z + 1]`. */
  function Index(c: Coord): (n: nat)
    ensures n < 27
  {
    (c.x + 1) * 9 + (c.y + 1) * 3 + (c.z + 1)
  }

  /** The coordinate stored at flat cell `n`. */
  function CoordOf(n: nat): (c: Coord)
    requires n < 27
    ensures Index(c) == n
  {
    var x: Trit := if n < 9 then -1 else if n < 18 then 0 else 1;
    var r := n - (x + 1) * 9;
    var y: Trit := if r < 3 then -1 else if r < 6 then 0 else 1;
    Coord(x, y, r - (y + 1) * 3 - 1)
  }

  /** Index and CoordOf are inverse bijections between coordinates and 0..26. */
  lemma IndexRoundTrip(c: Coord)
    ensures CoordOf(Index(c)) == c
  {
  }

  lemma IndexInjective(a: Coord, b: Coord)
    ensures Index(a) == Index(b) <==> a == b
  {
    if Index(a) == Index(b) {
      IndexRoundTrip(a);
      IndexRoundTrip(b);
    }
  }
}
