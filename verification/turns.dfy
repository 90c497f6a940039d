/**
  The six face turns.  Each reads the nine pieces of one outer layer,
  gives every one the current position the turn moves it to, and writes
  all nine back in one batch.

  Only TurnOnLayer, TurnOffLayer and TwiceIgnoresInverse look inside
  `Turn`; every other lemma reasons through TurnCell and hides the body.
 */
module Turns {
  import opened Coords
  import opened Pieces
  import opened Cubes
  import opened Moves

  /** The nine pieces of the layer, read in loop order, each with its new current position. */
  function LayerPieces(g: Cube, f: Face, inverse: bool, twice: bool): (ps: seq<Piece>)
    ensures |ps| == 9
    ensures forall m :: 0 <= m < 9 ==>
      ps[m] == GetPiece(g, LayerCells(f)[m]).(current := MovedPos(f, inverse, twice, GetPiece(g, LayerCells(f)[m]).current))
  {
    var cs := LayerCells(f);
    seq(9, m requires 0 <= m < 9 =>
      var p := GetPiece(g, cs[m]);
      p.(current := MovedPos(f, inverse, twice, p.current)))
  }

  /**
    `Cube::front`, `back`, `right`, `left`, `up` and `down`: turn the
    layer of `f` and write its nine pieces back in one batch.
   */
  function Turn(g: Cube, f: Face, inverse: bool, twice: bool): Cube
  {
    Rotate(g, LayerPieces(g, f, inverse, twice))
  }

  /**
    On a consistent cube the layer pieces are those of the layer cells,
    each given its moved position, and no two get the same one.
   */
  lemma LayerPiecesMoved(g: Cube, f: Face, inverse: bool, twice: bool)
    requires Consistent(g)
    ensures forall j :: 0 <= j < 9 ==>
      LayerPieces(g, f, inverse, twice)[j] == GetPiece(g, LayerCells(f)[j]).(current := MovedPos(f, inverse, twice, LayerCells(f)[j]))
    ensures forall i, j :: 0 <= i < j < 9 ==>
      LayerPieces(g, f, inverse, twice)[i].current != LayerPieces(g, f, inverse, twice)[j].current
  {
    var ps := LayerPieces(g, f, inverse, twice);
    var cs := LayerCells(f);
    forall j | 0 <= j < 9
      ensures ps[j] == GetPiece(g, cs[j]).(current := MovedPos(f, inverse, twice, cs[j]))
    {
      assert g[Index(cs[j])].current == cs[j];
    }
    forall i, j | 0 <= i < j < 9
      ensures ps[i].current != ps[j].current
    {
      LayerCellsDistinct(f, i, j);
      MovedPosInjective(f, inverse, twice, cs[i], cs[j]);
    }
  }

  /** A layer cell receives the piece the turn moves there, its current position set to the cell. */
  lemma TurnOnLayer(g: Cube, f: Face, inverse: bool, twice: bool, c: Coord)
    requires Consistent(g) && OnLayer(f, c)
    ensures GetPiece(Turn(g, f, inverse, twice), c) == GetPiece(g, Unmoved(f, inverse, twice, c)).(current := c)
  {
    hide Rotate;
    var ps := LayerPieces(g, f, inverse, twice);
    var d := Unmoved(f, inverse, twice, c);
    var m := Slot(f, d);
    assert ps[m] == g[Index(d)].(current := c) by {
      LayerPiecesMoved(g, f, inverse, twice);
    }
    assert LastWrite(ps, m) by {
      LayerPiecesMoved(g, f, inverse, twice);
    }
    RotateLastWrite(g, ps, m);
  }

  /** A cell off the layer keeps its piece. */
  lemma TurnOffLayer(g: Cube, f: Face, inverse: bool, twice: bool, c: Coord)
    requires Consistent(g) && !OnLayer(f, c)
    ensures GetPiece(Turn(g, f, inverse, twice), c) == GetPiece(g, c)
  {
    hide Rotate;
    var ps := LayerPieces(g, f, inverse, twice);
    LayerCurrentsOnLayer(g, f, inverse, twice);
    assert forall j :: 0 <= j < |ps| ==> ps[j].current != c;
    RotateUnwritten(g, ps, c);
  }

  /** On a consistent cube every layer piece is given a position on the layer. */
  lemma LayerCurrentsOnLayer(g: Cube, f: Face, inverse: bool, twice: bool)
    requires Consistent(g)
    ensures forall j :: 0 <= j < 9 ==> OnLayer(f, LayerPieces(g, f, inverse, twice)[j].current)
  {
    var cs := LayerCells(f);
    forall j | 0 <= j < 9
      ensures OnLayer(f, LayerPieces(g, f, inverse, twice)[j].current)
    {
      assert g[Index(cs[j])].current == cs[j];
    }
  }

  /**
    On a consistent cube every cell `c` ends up holding the piece that was
    in its source cell, with current position `c`: the turn moves pieces
    and changes nothing else about them.
   */
  lemma TurnCell(g: Cube, f: Face, inverse: bool, twice: bool, c: Coord)
    requires Consistent(g)
    ensures GetPiece(Turn(g, f, inverse, twice), c) == GetPiece(g, Source(f, inverse, twice, c)).(current := c)
  {
    hide Turn;
    if OnLayer(f, c) {
      TurnOnLayer(g, f, inverse, twice, c);
    } else {
      TurnOffLayer(g, f, inverse, twice, c);
      assert g[Index(c)].current == c;
    }
  }

  /**
    The same turn read forwards: the piece at each layer position `v`
    moves to `MovedPos(v)` with only its current position changed, and
    every other cell keeps its piece.
   */
  lemma TurnMovesPieces(g: Cube, f: Face, inverse: bool, twice: bool, v: Coord)
    requires Consistent(g)
    ensures OnLayer(f, v) ==>
      GetPiece(Turn(g, f, inverse, twice), MovedPos(f, inverse, twice, v))
        == GetPiece(g, v).(current := MovedPos(f, inverse, twice, v))
    ensures !OnLayer(f, v) ==> GetPiece(Turn(g, f, inverse, twice), v) == GetPiece(g, v)
  {
    hide Turn;
    if OnLayer(f, v) {
      UnmovedMoved(f, inverse, twice, v);
      TurnOnLayer(g, f, inverse, twice, MovedPos(f, inverse, twice, v));
    } else {
      TurnOffLayer(g, f, inverse, twice, v);
    }
  }

  /** A turn keeps the grid invariant. */
  lemma TurnConsistent(g: Cube, f: Face, inverse: bool, twice: bool)
    requires Consistent(g)
    ensures Consistent(Turn(g, f, inverse, twice))
  {
    hide Turn;
    forall c: Coord
      ensures Turn(g, f, inverse, twice)[Index(c)].current == c
    {
      TurnCell(g, f, inverse, twice, c);
    }
  }

  /** Every turn preserves the grid invariant, keeps each piece's home and label, and loses no piece. */
  lemma TurnWellFormed(g: Cube, f: Face, inverse: bool, twice: bool)
    requires WellFormed(g)
    ensures WellFormed(Turn(g, f, inverse, twice))
  {
    hide Turn;
    TurnConsistent(g, f, inverse, twice);
    TurnKeepsAllIntact(g, f, inverse, twice);
    TurnKeepsAllDistinct(g, f, inverse, twice);
  }

  lemma TurnKeepsAllIntact(g: Cube, f: Face, inverse: bool, twice: bool)
    requires WellFormed(g)
    ensures forall c: Coord :: Intact(Turn(g, f, inverse, twice)[Index(c)])
  {
    hide Turn;
    forall c: Coord
      ensures Intact(Turn(g, f, inverse, twice)[Index(c)])
    {
      TurnKeepsIntact(g, f, inverse, twice, c);
    }
  }

  lemma TurnKeepsAllDistinct(g: Cube, f: Face, inverse: bool, twice: bool)
    requires WellFormed(g)
    ensures Distinct(Turn(g, f, inverse, twice))
  {
    hide Turn;
    forall a: Coord, b: Coord | a != b
      ensures Turn(g, f, inverse, twice)[Index(a)].target != Turn(g, f, inverse, twice)[Index(b)].target
    {
      TurnKeepsDistinct(g, f, inverse, twice, a, b);
    }
  }

  /** The piece a turn puts in any cell is intact if every piece was before. */
  lemma TurnKeepsIntact(g: Cube, f: Face, inverse: bool, twice: bool, c: Coord)
    requires WellFormed(g)
    ensures Intact(GetPiece(Turn(g, f, inverse, twice), c))
  {
    hide Turn;
    TurnCell(g, f, inverse, twice, c);
    assert Intact(g[Index(Source(f, inverse, twice, c))]);
  }

  /** Two cells hold pieces with distinct homes after a turn if all cells did before. */
  lemma TurnKeepsDistinct(g: Cube, f: Face, inverse: bool, twice: bool, a: Coord, b: Coord)
    requires WellFormed(g) && a != b
    ensures GetPiece(Turn(g, f, inverse, twice), a).target != GetPiece(Turn(g, f, inverse, twice), b).target
  {
    hide Turn;
    TurnCell(g, f, inverse, twice, a);
    TurnCell(g, f, inverse, twice, b);
    SourceInjective(f, inverse, twice, a, b);
  }

  /** Two turns of the same face: each cell is fed through both source maps. */
  lemma TurnCompose(g: Cube, f: Face, inverse1: bool, twice1: bool, inverse2: bool, twice2: bool, c: Coord)
    requires Consistent(g)
    ensures GetPiece(Turn(Turn(g, f, inverse1, twice1), f, inverse2, twice2), c)
      == GetPiece(g, Source(f, inverse1, twice1, Source(f, inverse2, twice2, c))).(current := c)
  {
    hide Turn;
    var h := Turn(g, f, inverse1, twice1);
    TurnConsistent(g, f, inverse1, twice1);
    TurnCell(h, f, inverse2, twice2, c);
    TurnCell(g, f, inverse1, twice1, Source(f, inverse2, twice2, c));
  }

  /** A quarter turn followed by the quarter turn the other way of the same face restores the cube. */
  lemma InverseUndoesTurn(g: Cube, f: Face, inverse: bool)
    requires Consistent(g)
    ensures Turn(Turn(g, f, inverse, false), f, !inverse, false) == g
  {
    hide Turn;
    InverseAllCells(g, f, inverse);
    CubeExt(Turn(Turn(g, f, inverse, false), f, !inverse, false), g);
  }

  lemma InverseAllCells(g: Cube, f: Face, inverse: bool)
    requires Consistent(g)
    ensures forall c: Coord :: GetPiece(Turn(Turn(g, f, inverse, false), f, !inverse, false), c) == GetPiece(g, c)
  {
    hide Turn;
    forall c: Coord
      ensures GetPiece(Turn(Turn(g, f, inverse, false), f, !inverse, false), c) == GetPiece(g, c)
    {
      InverseCell(g, f, inverse, c);
    }
  }

  lemma InverseCell(g: Cube, f: Face, inverse: bool, c: Coord)
    requires Consistent(g)
    ensures GetPiece(Turn(Turn(g, f, inverse, false), f, !inverse, false), c) == GetPiece(g, c)
  {
    hide Turn;
    TurnCompose(g, f, inverse, false, !inverse, false, c);
    if OnLayer(f, c) {
      UnmovedMoved(f, !inverse, false, c);
    }
    assert g[Index(c)].current == c;
  }

  /** Two quarter turns the same way equal one half turn, whatever the inverse flag of the half turn. */
  lemma TwoQuartersMakeHalf(g: Cube, f: Face, inverse: bool, inverse2: bool)
    requires Consistent(g)
    ensures Turn(Turn(g, f, inverse, false), f, inverse, false) == Turn(g, f, inverse2, true)
  {
    hide Turn;
    TwoQuartersAllCells(g, f, inverse, inverse2);
    CubeExt(Turn(Turn(g, f, inverse, false), f, inverse, false), Turn(g, f, inverse2, true));
  }

  lemma TwoQuartersAllCells(g: Cube, f: Face, inverse: bool, inverse2: bool)
    requires Consistent(g)
    ensures forall c: Coord :: GetPiece(Turn(Turn(g, f, inverse, false), f, inverse, false), c) == GetPiece(Turn(g, f, inverse2, true), c)
  {
    hide Turn;
    forall c: Coord
      ensures GetPiece(Turn(Turn(g, f, inverse, false), f, inverse, false), c) == GetPiece(Turn(g, f, inverse2, true), c)
    {
      TwoQuartersCell(g, f, inverse, inverse2, c);
    }
  }

  lemma TwoQuartersCell(g: Cube, f: Face, inverse: bool, inverse2: bool, c: Coord)
    requires Consistent(g)
    ensures GetPiece(Turn(Turn(g, f, inverse, false), f, inverse, false), c) == GetPiece(Turn(g, f, inverse2, true), c)
  {
    hide Turn;
    TurnCompose(g, f, inverse, false, inverse, false, c);
    TurnCell(g, f, inverse2, true, c);
    if OnLayer(f, c) {
      var d := Source(f, inverse, false, Source(f, inverse, false, c));
      TwoQuarters(f, inverse, d);
      HalfIgnoresInverse(f, d);
      UnmovedMoved(f, inverse2, true, d);
    }
  }

  /** A half turn done twice restores the cube. */
  lemma HalfTurnTwice(g: Cube, f: Face, inverse: bool)
    requires Consistent(g)
    ensures Turn(Turn(g, f, inverse, true), f, inverse, true) == g
  {
    hide Turn;
    HalfTwiceAllCells(g, f, inverse);
    CubeExt(Turn(Turn(g, f, inverse, true), f, inverse, true), g);
  }

  lemma HalfTwiceAllCells(g: Cube, f: Face, inverse: bool)
    requires Consistent(g)
    ensures forall c: Coord :: GetPiece(Turn(Turn(g, f, inverse, true), f, inverse, true), c) == GetPiece(g, c)
  {
    hide Turn;
    forall c: Coord
      ensures GetPiece(Turn(Turn(g, f, inverse, true), f, inverse, true), c) == GetPiece(g, c)
    {
      HalfTwiceCell(g, f, inverse, c);
    }
  }

  lemma HalfTwiceCell(g: Cube, f: Face, inverse: bool, c: Coord)
    requires Consistent(g)
    ensures GetPiece(Turn(Turn(g, f, inverse, true), f, inverse, true), c) == GetPiece(g, c)
  {
    hide Turn;
    TurnCompose(g, f, inverse, true, inverse, true, c);
    if OnLayer(f, c) {
      var d := Source(f, inverse, true, Source(f, inverse, true, c));
      HalfIgnoresInverse(f, d);
      HalfTwice(f, d);
      MovedPosInjective(f, inverse, true, MovedPos(f, inverse, true, d), Source(f, inverse, true, c));
    }
    assert g[Index(c)].current == c;
  }

  /** Four quarter turns of one face the same way restore the cube. */
  lemma FourQuartersRestore(g: Cube, f: Face, inverse: bool)
    requires Consistent(g)
    ensures Turn(Turn(Turn(Turn(g, f, inverse, false), f, inverse, false), f, inverse, false), f, inverse, false) == g
  {
    hide Turn;
    var h := Turn(Turn(g, f, inverse, false), f, inverse, false);
    TwoQuartersMakeHalf(g, f, inverse, inverse);
    TurnConsistent(g, f, inverse, true);
    TwoQuartersMakeHalf(h, f, inverse, inverse);
    HalfTurnTwice(g, f, inverse);
  }

  /** With `twice` set the `inverse` flag makes no difference, on any cube. */
  lemma TwiceIgnoresInverse(g: Cube, f: Face)
    ensures Turn(g, f, true, true) == Turn(g, f, false, true)
  {
    hide Rotate;
    var ps, qs := LayerPieces(g, f, true, true), LayerPieces(g, f, false, true);
    forall m | 0 <= m < 9
      ensures ps[m] == qs[m]
    {
      HalfIgnoresInverse(f, GetPiece(g, LayerCells(f)[m]).current);
    }
    assert ps == qs;
  }

  /**
    A clockwise front turn of the solved cube moves the corner whose home
    is (1, 1, 1) to (1, 1, -1) and the corner whose home is (1, -1, 1) to
    (1, 1, 1).
   */
  lemma FrontTurnExample()
    ensures GetPiece(Turn(Solved(), Front, false, false), Coord(1, 1, -1)).target == Coord(1, 1, 1)
    ensures GetPiece(Turn(Solved(), Front, false, false), Coord(1, 1, 1)).target == Coord(1, -1, 1)
  {
    hide Turn;
    SolvedWellFormed();
    TurnCell(Solved(), Front, false, false, Coord(1, 1, -1));
    TurnCell(Solved(), Front, false, false, Coord(1, 1, 1));
  }
}
