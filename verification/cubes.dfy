/**
  The 3x3x3 grid of pieces, its construction in the solved state, and the
  batch write a face turn ends with.
 */
module Cubes {
  import opened Coords
  import opened Pieces

  /** `pieceArr`, flattened: cell `Index(c)` holds the piece stored at coordinate `c`. */
  type Cube = g: seq<Piece> | |g| == 27 witness seq(27, _ => Piece(Core, Core, ""))

  /** `Cube::getPiece`: the piece stored in the cell of `v`. */
  function GetPiece(g: Cube, v: Coord): (p: Piece)
    ensures Consistent(g) ==> p.current == v
  {
    g[Index(v)]
  }

  /** The grid invariant: each cell holds the piece whose current position is that cell. */
  ghost predicate Consistent(g: Cube)
  {
    forall c: Coord :: g[Index(c)].current == c
  }

  /** A piece keeps the label of its home and stays the kind (centre, edge, corner) it was built as. */
  predicate Intact(p: Piece)
  {
    p.colors == Label(p.target) && Weight(p.current) == Weight(p.target)
  }

  /** No piece is duplicated or lost: distinct cells hold pieces with distinct homes. */
  ghost predicate Distinct(g: Cube)
  {
    forall a: Coord, b: Coord :: a != b ==> g[Index(a)].target != g[Index(b)].target
  }

  /** Everything a cube built by the constructor and changed only by face turns satisfies. */
  ghost predicate WellFormed(g: Cube)
  {
    && Consistent(g)
    && (forall c: Coord :: Intact(g[Index(c)]))
    && Distinct(g)
  }

  /** Two cubes that agree on every coordinate are equal. */
  lemma CubeExt(g: Cube, h: Cube)
    requires forall c: Coord :: GetPiece(g, c) == GetPiece(h, c)
    ensures g == h
  {
    forall n | 0 <= n < 27
      ensures g[n] == h[n]
    {
      assert GetPiece(g, CoordOf(n)) == GetPiece(h, CoordOf(n));
    }
  }

  /**
    `Cube::Cube()`: every cell holds the piece whose home and current
    position are that cell, labelled from that position.
   */
  function Solved(): (g: Cube)
    ensures forall c: Coord :: g[Index(c)] == Piece(c, c, Label(c))
  {
    var g := seq(27, n requires 0 <= n < 27 => var c := CoordOf(n); Piece(c, c, Label(c)));
    assert forall c: Coord :: CoordOf(Index(c)) == c by {
      forall c: Coord
        ensures CoordOf(Index(c)) == c
      {
        IndexRoundTrip(c);
      }
    }
    g
  }

  /** The constructed cube satisfies the grid invariant and every other well-formedness condition. */
  lemma SolvedWellFormed()
    ensures WellFormed(Solved())
  {
    var g := Solved();
    forall a: Coord, b: Coord | a != b
      ensures g[Index(a)].target != g[Index(b)].target
    {
    }
  }

  /** Every write of `ps[i]` that no later piece overwrites. */
  ghost predicate LastWrite(ps: seq<Piece>, i: int)
    requires 0 <= i < |ps|
  {
    forall j :: i < j < |ps| ==> ps[j].current != ps[i].current
  }

  /**
    `Cube::rotate`: write each piece, in order, into the cell named by its
    current position.
   */
  function Rotate(g: Cube, ps: seq<Piece>): Cube
    decreases |ps|
  {
    if |ps| == 0 then g
    else Rotate(g[Index(ps[0].current) := ps[0]], ps[1..])
  }

  /** A cell no piece names keeps its piece. */
  lemma {:induction false} RotateUnwritten(g: Cube, ps: seq<Piece>, c: Coord)
    requires forall i :: 0 <= i < |ps| ==> ps[i].current != c
    ensures Rotate(g, ps)[Index(c)] == g[Index(c)]
    decreases |ps|
  {
    if |ps| > 0 {
      IndexInjective(c, ps[0].current);
      assert forall i :: 0 <= i < |ps| - 1 ==> ps[1..][i] == ps[i + 1];
      RotateUnwritten(g[Index(ps[0].current) := ps[0]], ps[1..], c);
    }
  }

  /** A cell receives the last piece written to it. */
  lemma {:induction false} RotateLastWrite(g: Cube, ps: seq<Piece>, i: nat)
    requires i < |ps| && LastWrite(ps, i)
    ensures Rotate(g, ps)[Index(ps[i].current)] == ps[i]
    decreases |ps|
  {
    var h := g[Index(ps[0].current) := ps[0]];
    assert forall j :: 0 <= j < |ps| - 1 ==> ps[1..][j] == ps[j + 1];
    if i == 0 {
      RotateUnwritten(h, ps[1..], ps[0].current);
    } else {
      RotateLastWrite(h, ps[1..], i - 1);
    }
  }
}
