/**
  The cost heuristic of the whole cube: the sum of the piece costs over
  the edge and corner cells.
 */
module Costs {
  import opened Coords
  import opened Pieces
  import opened Cubes

  /** An edge or corner cell: one the cost loop adds up. */
  predicate Counted(c: Coord)
  {
    Abs(c.x) + Abs(c.y) + Abs(c.z) >= 2
  }

  /** Cost of each cell: the piece's cost for an edge or corner cell, 0 for a centre or the core. */
  function CellCosts(g: Cube): (s: seq<nat>)
    ensures |s| == 27
    ensures forall c: Coord :: s[Index(c)] == if Counted(c) then Pieces.Cost(g[Index(c)]) else 0
  {
    var s := seq(27, n requires 0 <= n < 27 => var c := CoordOf(n); if Counted(c) then Pieces.Cost(g[n]) else 0);
    assert forall c: Coord :: CoordOf(Index(c)) == c by {
      forall c: Coord
        ensures CoordOf(Index(c)) == c
      {
        IndexRoundTrip(c);
      }
    }
    s
  }

  /** Sum of the first n entries. */
  function PartialSum(s: seq<nat>, n: nat): nat
    requires n <= |s|
  {
    if n == 0 then 0 else PartialSum(s, n - 1) + s[n - 1]
  }

  /** `Cube::cost` as a sum over all 27 cells. */
  function CubeCost(g: Cube): nat
  {
    PartialSum(CellCosts(g), 27)
  }

  /** `Cube::cost`: the sum of the cell costs. */
  method Cost(g: Cube) returns (costSum: int)
    ensures costSum == CubeCost(g)
  {
    costSum := CostLoop(g, CellCosts(g));
  }

  /**
    The triple loop of `Cube::cost` over i, j, k in -1..1 (cell order),
    adding the piece's cost wherever |i| + |j| + |k| >= 2; `s` names the
    cell costs the loop is summing.
   */
  method CostLoop(g: Cube, ghost s: seq<nat>) returns (costSum: int)
    requires |s| == 27
    requires forall c: Coord :: s[Index(c)] == if Counted(c) then Pieces.Cost(g[Index(c)]) else 0
    ensures costSum == PartialSum(s, 27)
  {
    costSum := 0;
    var i := -1;
    while i < 2
      invariant -1 <= i <= 2
      invariant costSum == PartialSum(s, (i + 1) * 9)
    {
      var j := -1;
      while j < 2
        invariant -1 <= j <= 2
        invariant costSum == PartialSum(s, (i + 1) * 9 + (j + 1) * 3)
      {
        var k := -1;
        while k < 2
          invariant -1 <= k <= 2
          invariant costSum == PartialSum(s, (i + 1) * 9 + (j + 1) * 3 + (k + 1))
        {
          var c := Coord(i, j, k);
          assert PartialSum(s, Index(c) + 1) == PartialSum(s, Index(c)) + s[Index(c)];
          if Abs(i) + Abs(j) + Abs(k) >= 2 {
            costSum := costSum + Pieces.Cost(GetPiece(g, c));
          }
          k := k + 1;
        }
        j := j + 1;
      }
      i := i + 1;
    }
  }

  /** A prefix sum is 0 exactly when each of its entries is 0. */
  lemma {:induction false} PartialSumZero(s: seq<nat>, n: nat)
    requires n <= |s|
    ensures PartialSum(s, n) == 0 <==> forall m :: 0 <= m < n ==> s[m] == 0
  {
    if n > 0 {
      PartialSumZero(s, n - 1);
    }
  }

  /** A prefix sum of entries each at most 3 where `counted` holds and 0 elsewhere is bounded by 3 per counted entry. */
  lemma {:induction false} PartialSumBound(s: seq<nat>, counted: seq<bool>, n: nat)
    requires |counted| == |s| && n <= |s|
    requires forall m :: 0 <= m < |s| ==> s[m] <= (if counted[m] then 3 else 0)
    ensures PartialSum(s, n) <= 3 * Count(counted, n)
  {
    if n > 0 {
      PartialSumBound(s, counted, n - 1);
    }
  }

  /** Number of true entries among the first n. */
  function Count(b: seq<bool>, n: nat): nat
    requires n <= |b|
  {
    if n == 0 then 0 else Count(b, n - 1) + (if b[n - 1] then 1 else 0)
  }

  /**
    On a well-formed cube the cost is 0 exactly when every edge and corner
    is at home; centres and the core play no part.
   */
  lemma CostZeroIffHome(g: Cube)
    requires WellFormed(g)
    ensures CubeCost(g) == 0 <==> forall c: Coord :: Counted(c) ==> g[Index(c)].target == c
  {
    var s := CellCosts(g);
    PartialSumZero(s, 27);
    forall c: Coord
      ensures s[Index(c)] == 0 <==> (Counted(c) ==> g[Index(c)].target == c)
    {
      if Counted(c) {
        Pieces.CostZeroIffHome(g[Index(c)]);
      }
    }
    forall m | 0 <= m < 27
      ensures s[m] == s[Index(CoordOf(m))]
    {
    }
  }

  /** A freshly constructed cube costs 0. */
  lemma SolvedCostZero()
    ensures CubeCost(Solved()) == 0
  {
    SolvedWellFormed();
    CostZeroIffHome(Solved());
  }

  /** Replacing the piece in a centre or core cell never changes the cost. */
  lemma CentreExempt(g: Cube, c: Coord, p: Piece)
    requires !Counted(c)
    ensures CubeCost(g[Index(c) := p]) == CubeCost(g)
  {
    var h := g[Index(c) := p];
    forall d: Coord
      ensures CellCosts(h)[Index(d)] == CellCosts(g)[Index(d)]
    {
      IndexInjective(c, d);
    }
    forall m | 0 <= m < 27
      ensures CellCosts(h)[m] == CellCosts(g)[m]
    {
      assert Index(CoordOf(m)) == m;
    }
    assert CellCosts(h) == CellCosts(g);
  }

  /** Which cells are edges or corners, in cell order. */
  function CountedCells(): (b: seq<bool>)
    ensures |b| == 27
    ensures forall c: Coord :: b[Index(c)] == Counted(c)
  {
    var b := seq(27, n requires 0 <= n < 27 => Counted(CoordOf(n)));
    assert forall c: Coord :: CoordOf(Index(c)) == c by {
      forall c: Coord
        ensures CoordOf(Index(c)) == c
      {
        IndexRoundTrip(c);
      }
    }
    b
  }

  /** Exactly 20 cells (12 edges and 8 corners) are counted, so the cost never exceeds 60. */
  lemma CostBound(g: Cube)
    ensures Count(CountedCells(), 27) == 20
    ensures CubeCost(g) <= 60
  {
    var b := CountedCells();
    forall m | 0 <= m < 27
      ensures CellCosts(g)[m] <= (if b[m] then 3 else 0)
    {
      assert Index(CoordOf(m)) == m;
    }
    PartialSumBound(CellCosts(g), b, 27);
    CountedBelow(27);
  }

  /** The seven cells below n that hold a face centre or the core. */
  function CentreCellsBelow(n: nat): nat
  {
    (if n > 4 then 1 else 0) + (if n > 10 then 1 else 0) + (if n > 12 then 1 else 0)
    + (if n > 13 then 1 else 0) + (if n > 14 then 1 else 0) + (if n > 16 then 1 else 0)
    + (if n > 22 then 1 else 0)
  }

  /** Below every n, all cells but the centres and the core are counted. */
  lemma {:induction false} CountedBelow(n: nat)
    requires n <= 27
    ensures Count(CountedCells(), n) == n - CentreCellsBelow(n)
  {
    if n > 0 {
      CountedBelow(n - 1);
      CentreCell(n - 1);
    }
  }

  /** Cells 4, 10, 12, 14, 16 and 22 hold face centres and cell 13 the core. */
  lemma CentreCell(m: nat)
    requires m < 27
    ensures !CountedCells()[m] <==> m == 4 || m == 10 || m == 12 || m == 13 || m == 14 || m == 16 || m == 22
  {
    var c := CoordOf(m);
    assert CountedCells()[m] == Counted(c);
    assert m == (c.x + 1) * 9 + (c.y + 1) * 3 + (c.z + 1);
  }
}
