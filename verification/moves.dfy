/**
  Where a face turn sends a position.  Each face fixes one axis; the two
  other ("free") components of a position on its layer are negated and
  swapped by a quarter turn, or both negated by a half turn.
 */
module Moves {
  import opened Coords

  datatype Face = Front | Back | Right | Left | Up | Down

  /** The component along the axis the face fixes: x for front/back, y for right/left, z for up/down. */
  function AxisOf(f: Face, c: Coord): Trit
  {
    match f
    case Front => c.x
    case Back => c.x
    case Right => c.y
    case Left => c.y
    case Up => c.z
    case Down => c.z
  }

  /** The axis a face turns about: 0 for front/back (x), 1 for right/left (y), 2 for up/down (z). */
  function Axis(f: Face): (n: nat)
    ensures n < 3
    ensures forall c: Coord :: AxisOf(f, c) == [c.x, c.y, c.z][n]
  {
    match f
    case Front => 0
    case Back => 0
    case Right => 1
    case Left => 1
    case Up => 2
    case Down => 2
  }

  /** The free component the turn's outer loop runs over: y for front/back, x otherwise. */
  function FreeA(f: Face, c: Coord): Trit
  {
    match f
    case Front => c.y
    case Back => c.y
    case _ => c.x
  }

  /** The free component the turn's inner loop runs over: y for up/down, z otherwise. */
  function FreeB(f: Face, c: Coord): Trit
  {
    match f
    case Up => c.y
    case Down => c.y
    case _ => c.z
  }

  /** `v` with its two free components replaced by `a` and `b`. */
  function Place(f: Face, v: Coord, a: Trit, b: Trit): (w: Coord)
    ensures AxisOf(f, w) == AxisOf(f, v) && FreeA(f, w) == a && FreeB(f, w) == b
  {
    match f
    case Front => Coord(v.x, a, b)
    case Back => Coord(v.x, a, b)
    case Right => Coord(a, v.y, b)
    case Left => Coord(a, v.y, b)
    case Up => Coord(a, b, v.z)
    case Down => Coord(a, b, v.z)
  }

  /** A position is determined by its fixed and free components, and its weight is theirs. */
  lemma Components(f: Face, v: Coord, w: Coord)
    ensures AxisOf(f, v) == AxisOf(f, w) && FreeA(f, v) == FreeA(f, w) && FreeB(f, v) == FreeB(f, w) ==> v == w
    ensures Weight(v) == Off(AxisOf(f, v)) + Off(FreeA(f, v)) + Off(FreeB(f, v))
  {
  }

  /** The layer value of the face: 1 for front, right and up, -1 for back, left and down. */
  function Side(f: Face): Trit
  {
    if f == Front || f == Right || f == Up then 1 else -1
  }

  /** The nine positions a turn of `f` reads. */
  predicate OnLayer(f: Face, c: Coord)
  {
    AxisOf(f, c) == Side(f)
  }

  /** The centre of the face: on its layer, with both free components 0. */
  function Centre(f: Face): (c: Coord)
    ensures OnLayer(f, c) && FreeA(f, c) == 0 && FreeB(f, c) == 0 && Weight(c) == 1
  {
    match f
    case Front => Coord(1, 0, 0)
    case Back => Coord(-1, 0, 0)
    case Right => Coord(0, 1, 0)
    case Left => Coord(0, -1, 0)
    case Up => Coord(0, 0, 1)
    case Down => Coord(0, 0, -1)
  }

  /**
    The three statements every turn applies to the free pair (a, b):
    negate both when `twice`; otherwise negate the first and swap, giving
    (b, -a), or negate the second and swap, giving (-b, a).
   */
  function Spin(a: Trit, b: Trit, twice: bool, negateFirst: bool): (r: (Trit, Trit))
    ensures Off(r.0) + Off(r.1) == Off(a) + Off(b)
    ensures a == 0 && b == 0 ==> r == (0, 0)
  {
    if twice then (-a, -b)
    else if negateFirst then (b, -a)
    else (-b, a)
  }

  /**
    Whether the quarter turn negates the first free component before the
    swap: so do front, left and up clockwise and back, right and down
    counterclockwise; the other six quarter turns negate the second.
   */
  function NegatesFirst(f: Face, inverse: bool): bool
  {
    match f
    case Front => !inverse
    case Back => inverse
    case Right => inverse
    case Left => !inverse
    case Up => !inverse
    case Down => inverse
  }

  /**
    The new current position a turn of `f` gives a piece at `v`.  The
    face's own component never changes, so the layer maps onto itself;
    the centre stays put; and corners stay corners and edges edges.
   */
  function MovedPos(f: Face, inverse: bool, twice: bool, v: Coord): (w: Coord)
    ensures AxisOf(f, w) == AxisOf(f, v)
    ensures OnLayer(f, w) <==> OnLayer(f, v)
    ensures Weight(w) == Weight(v)
    ensures v == Centre(f) ==> w == v
  {
    var s := Spin(FreeA(f, v), FreeB(f, v), twice, NegatesFirst(f, inverse));
    var w := Place(f, v, s.0, s.1);
    Components(f, v, v);
    Components(f, w, w);
    w
  }

  /**
    Where a piece that a turn moves to `w` came from: a half turn undoes
    itself, and each quarter turn is undone by the quarter turn the other
    way.
   */
  function Unmoved(f: Face, inverse: bool, twice: bool, w: Coord): (v: Coord)
    ensures MovedPos(f, inverse, twice, v) == w
  {
    var v := if twice then MovedPos(f, inverse, true, w) else MovedPos(f, !inverse, false, w);
    Components(f, MovedPos(f, inverse, twice, v), w);
    v
  }

  /** Undoing a move gives back the position moved. */
  lemma UnmovedMoved(f: Face, inverse: bool, twice: bool, v: Coord)
    ensures Unmoved(f, inverse, twice, MovedPos(f, inverse, twice, v)) == v
  {
    Components(f, Unmoved(f, inverse, twice, MovedPos(f, inverse, twice, v)), v);
  }

  /** Distinct positions move to distinct positions. */
  lemma MovedPosInjective(f: Face, inverse: bool, twice: bool, u: Coord, v: Coord)
    ensures MovedPos(f, inverse, twice, u) == MovedPos(f, inverse, twice, v) <==> u == v
  {
    UnmovedMoved(f, inverse, twice, u);
    UnmovedMoved(f, inverse, twice, v);
  }

  /** A half turn ignores the inverse flag. */
  lemma HalfIgnoresInverse(f: Face, v: Coord)
    ensures MovedPos(f, true, true, v) == MovedPos(f, false, true, v)
  {
  }

  /** Two quarter turns the same way make a half turn. */
  lemma TwoQuarters(f: Face, inverse: bool, v: Coord)
    ensures MovedPos(f, inverse, false, MovedPos(f, inverse, false, v)) == MovedPos(f, inverse, true, v)
  {
    Components(f, MovedPos(f, inverse, false, MovedPos(f, inverse, false, v)), MovedPos(f, inverse, true, v));
  }

  /** A half turn twice is no move. */
  lemma HalfTwice(f: Face, v: Coord)
    ensures MovedPos(f, false, true, MovedPos(f, false, true, v)) == v
  {
    Components(f, MovedPos(f, false, true, MovedPos(f, false, true, v)), v);
  }

  /**
    The cell that feeds cell `c` in a turn: for a layer cell the position
    the turn moves to `c`, for any other cell `c` itself.
   */
  function Source(f: Face, inverse: bool, twice: bool, c: Coord): (d: Coord)
    ensures OnLayer(f, d) <==> OnLayer(f, c)
    ensures Weight(d) == Weight(c)
    ensures OnLayer(f, c) ==> MovedPos(f, inverse, twice, d) == c
    ensures !OnLayer(f, c) ==> d == c
  {
    if OnLayer(f, c) then Unmoved(f, inverse, twice, c) else c
  }

  /** Distinct cells are fed from distinct cells: a turn permutes the positions. */
  lemma SourceInjective(f: Face, inverse: bool, twice: bool, a: Coord, b: Coord)
    ensures Source(f, inverse, twice, a) == Source(f, inverse, twice, b) <==> a == b
  {
  }

  /** The cell of the turned layer with free components (a, b). */
  function LayerCell(f: Face, a: Trit, b: Trit): (c: Coord)
    ensures OnLayer(f, c) && FreeA(f, c) == a && FreeB(f, c) == b
  {
    Place(f, Centre(f), a, b)
  }

  /** The outer loop variable of the m-th visit (m in 0..8): -1, 0 or 1. */
  function Outer(m: nat): Trit
    requires m < 9
  {
    if m < 3 then -1 else if m < 6 then 0 else 1
  }

  /** The inner loop variable of the m-th visit. */
  function Inner(m: nat): Trit
    requires m < 9
  {
    m - (Outer(m) + 1) * 3 - 1
  }

  /**
    The nine cells a turn reads, in the order of its two nested loops:
    outer over the first free component, inner over the second.
   */
  function LayerCells(f: Face): (cs: seq<Coord>)
    ensures |cs| == 9
    ensures forall m :: 0 <= m < 9 ==> cs[m] == LayerCell(f, Outer(m), Inner(m))
    ensures forall c: Coord :: c in cs <==> OnLayer(f, c)
    ensures forall i, j :: 0 <= i < j < 9 ==> cs[i] != cs[j]
  {
    var cs := seq(9, m requires 0 <= m < 9 => LayerCell(f, Outer(m), Inner(m)));
    CoversLayer(f, cs);
    VisitsOnce(f, cs);
    cs
  }

  /** Nine cells with the loop's free components are the whole layer. */
  lemma CoversLayer(f: Face, cs: seq<Coord>)
    requires |cs| == 9 && forall m :: 0 <= m < 9 ==> cs[m] == LayerCell(f, Outer(m), Inner(m))
    ensures forall c: Coord :: c in cs <==> OnLayer(f, c)
  {
    forall c: Coord | OnLayer(f, c)
      ensures c in cs
    {
      var m := (FreeA(f, c) + 1) * 3 + (FreeB(f, c) + 1);
      assert Outer(m) == FreeA(f, c) && Inner(m) == FreeB(f, c);
      Components(f, cs[m], c);
    }
  }

  /** Distinct loop steps read distinct cells. */
  lemma VisitsOnce(f: Face, cs: seq<Coord>)
    requires |cs| == 9 && forall m :: 0 <= m < 9 ==> cs[m] == LayerCell(f, Outer(m), Inner(m))
    ensures forall i, j :: 0 <= i < j < 9 ==> cs[i] != cs[j]
  {
    forall i, j | 0 <= i < j < 9
      ensures cs[i] != cs[j]
    {
      assert Outer(i) != Outer(j) || Inner(i) != Inner(j);
    }
  }

  /** The visit in which the loops read layer cell `c`. */
  function Slot(f: Face, c: Coord): (m: nat)
    requires OnLayer(f, c)
    ensures m < 9 && LayerCells(f)[m] == c
  {
    var m := (FreeA(f, c) + 1) * 3 + (FreeB(f, c) + 1);
    Components(f, LayerCells(f)[m], c);
    m
  }

  /** The loops read nine distinct cells, so each layer cell exactly once. */
  lemma LayerCellsDistinct(f: Face, j: nat, m: nat)
    requires j < 9 && m < 9
    ensures LayerCells(f)[j] == LayerCells(f)[m] <==> j == m
  {
  }
}
