/**
  A piece of the puzzle: its permanent home (`target`), where it sits now
  (`current`) and the colour letters glued to it.
 */
module Pieces {
  import opened Coords

  datatype Piece = Piece(target: Coord, current: Coord, colors: string)

  /**
    The cost table of `Piece::cost`, applied to a dot product: 1 for 1,
    2 for 0 and -1, 3 for -2 and -3, and 0 for every other value (so 2
    and 3, the values of a piece at home, both give 0).
   */
  function CostOfDot(d: int): (r: nat)
    ensures r <= 3
    ensures r == 0 <==> d >= 2 || d < -3
    ensures r == 1 <==> d == 1
    ensures r == 2 <==> d == 0 || d == -1
    ensures r == 3 <==> d == -2 || d == -3
  {
    match d
    case 1 => 1
    case 0 => 2
    case -1 => 2
    case -2 => 3
    case -3 => 3
    case _ => 0
  }

  /** `Piece::cost`: the cost table applied to target . current. */
  function Cost(p: Piece): (r: nat)
    ensures r <= 3
  {
    CostOfDot(Dot(p.target, p.current))
  }

  /** A piece at home costs 0 when it is an edge or corner, 1 as a face centre, 2 as the core. */
  lemma CostAtHome(p: Piece)
    requires p.current == p.target
    ensures Cost(p) == (if Weight(p.target) >= 2 then 0 else 2 - Weight(p.target))
  {
  }

  /**
    For an edge or a corner that is still an edge or a corner of the same
    kind, cost 0 means exactly that the piece is at home.
   */
  lemma {:induction false} CostZeroIffHome(p: Piece)
    requires Weight(p.target) == Weight(p.current) >= 2
    ensures Cost(p) == 0 <==> p.current == p.target
  {
    var t, c := p.target, p.current;
    if Cost(p) == 0 {
      assert Dot(t, c) >= 2;
      // at least two components agree off the middle layer
      assert Prod(t.x, c.x) <= Off(t.x) && Prod(t.y, c.y) <= Off(t.y) && Prod(t.z, c.z) <= Off(t.z);
      assert Prod(t.x, c.x) <= Off(c.x) && Prod(t.y, c.y) <= Off(c.y) && Prod(t.z, c.z) <= Off(c.z);
    }
  }

  /** One colour letter for an axis: `neg` on layer -1, `pos` on layer 1, none on 0. */
  function Letter(v: Trit, neg: char, pos: char): (s: string)
    ensures |s| == Off(v)
    ensures neg != pos ==> (neg in s <==> v == -1) && (pos in s <==> v == 1)
    ensures forall i :: 0 <= i < |s| ==> s[i] == neg || s[i] == pos
  {
    if v == -1 then [neg] else if v == 1 then [pos] else []
  }

  /**
    The colour label the constructor gives the piece whose home is `c`:
    x gives B or G, then y gives O or R, then z gives Y or W.
   */
  function Label(c: Coord): (s: string)
    ensures |s| == Weight(c)
  {
    Letter(c.x, 'B', 'G') + Letter(c.y, 'O', 'R') + Letter(c.z, 'Y', 'W')
  }

  /** The label lists exactly the faces its home touches: one letter per side. */
  lemma LabelLetters(c: Coord)
    ensures 'B' in Label(c) <==> c.x == -1
    ensures 'G' in Label(c) <==> c.x == 1
    ensures 'O' in Label(c) <==> c.y == -1
    ensures 'R' in Label(c) <==> c.y == 1
    ensures 'Y' in Label(c) <==> c.z == -1
    ensures 'W' in Label(c) <==> c.z == 1
  {
    var x, y, z := Letter(c.x, 'B', 'G'), Letter(c.y, 'O', 'R'), Letter(c.z, 'Y', 'W');
    OnlyIn(x, y, z, 'B', 'G');
    OnlyIn(y, x, z, 'O', 'R');
    OnlyIn(z, x, y, 'Y', 'W');
  }

  /** Letters that occur in `s` and in neither `t` nor `u` are found in their concatenation iff in `s`. */
  lemma OnlyIn(s: string, t: string, u: string, neg: char, pos: char)
    requires neg !in t && neg !in u && pos !in t && pos !in u
    ensures neg in s + t + u <==> neg in s
    ensures pos in s + t + u <==> pos in s
    ensures neg in t + s + u <==> neg in s
    ensures pos in t + s + u <==> pos in s
    ensures neg in t + u + s <==> neg in s
    ensures pos in t + u + s <==> pos in s
  {
  }

  /** Distinct homes get distinct labels, so a label identifies its piece. */
  lemma LabelInjective(a: Coord, b: Coord)
    requires Label(a) == Label(b)
    ensures a == b
  {
    LabelLetters(a);
    LabelLetters(b);
  }
}
