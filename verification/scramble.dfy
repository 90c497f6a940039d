/**
  `Cube::scramble` and the `Cube::solve` stub.  The random source is a
  finite stream of `rand()` results passed in explicitly; the algorithm
  string a scramble returns names every turn it applied, one token per
  turn.
 */
module Scrambles {
  import opened Coords
  import opened Cubes
  import opened Moves
  import opened Turns

  datatype Option<T> = None | Some(value: T)

  /** A move number as the scramble draws it: 0 F, 1 B, 2 U, 3 D, 4 R, 5 L. */
  type Code = m: int | 0 <= m < 6

  /** One scramble turn: which face, and the two flags passed to the face turn. */
  datatype Step = Step(move: Code, inverse: bool, twice: bool)

  /** The face each move number turns. */
  function FaceOf(m: Code): Face
  {
    match m
    case 0 => Front
    case 1 => Back
    case 2 => Up
    case 3 => Down
    case 4 => Right
    case _ => Left
  }

  /** C++ integer division, which truncates toward zero. */
  function TruncDiv(a: int, b: int): (q: int)
    requires b > 0
    ensures 0 <= a ==> 0 <= a - q * b < b
    ensures a < 0 ==> -b < a - q * b <= 0
  {
    if a >= 0 then a / b else -((-a) / b)
  }

  /** `move / 2 * 2`: the first move number of the opposite-face pair a move belongs to. */
  function Pair(m: int): int
  {
    TruncDiv(m, 2) * 2
  }

  /** The scramble's memory: the last move and the last-last move, -1 when there is none. */
  datatype Memory = Memory(last: int, lastLast: int)

  const Start: Memory := Memory(-1, -1)

  /** The rejection test of the draw loop: a move is redrawn while it equals either remembered move. */
  predicate Allowed(m: Code, mem: Memory)
  {
    m != mem.last && m != mem.lastLast
  }

  /** Two faces turning about the same axis: a front/back, up/down or right/left pair. */
  predicate Parallel(f: Face, h: Face)
  {
    Axis(f) == Axis(h)
  }

  /** Move numbers share a pair exactly when they turn faces about the same axis. */
  lemma PairIsAxis(m: Code, n: Code)
    ensures Pair(m) == Pair(n) <==> Parallel(FaceOf(m), FaceOf(n))
    ensures Parallel(FaceOf(m), FaceOf(n)) <==> forall c: Coord :: AxisOf(FaceOf(m), c) == AxisOf(FaceOf(n), c)
  {
    var probe := Coord(1, -1, 0);
    assert AxisOf(FaceOf(m), probe) == AxisOf(FaceOf(n), probe) ==> Parallel(FaceOf(m), FaceOf(n));
  }

  /**
    The memory after `m` is chosen: `m` becomes the last move, and the old
    last move is kept as the last-last move only when `m` turns the face
    opposite it.
   */
  function Remember(mem: Memory, m: Code): (r: Memory)
    ensures r.last == m
    ensures 0 <= mem.last < 6 ==> (r.lastLast == mem.last <==> Parallel(FaceOf(m), FaceOf(mem.last)))
    ensures r.lastLast != mem.last ==> r.lastLast == -1
    ensures mem.last == -1 ==> r.lastLast == -1
  {
    var r := Memory(m, if Pair(m) == Pair(mem.last) then mem.last else -1);
    if 0 <= mem.last < 6 then PairIsAxis(m, mem.last); r else r
  }

  /** At most two moves are ever excluded, so some move is always allowed. */
  lemma SomeMoveAllowed(mem: Memory)
    ensures exists m: Code :: Allowed(m, mem)
  {
    if !Allowed(0, mem) && !Allowed(1, mem) {
      assert Allowed(2, mem);
    }
  }

  /**
    The rejection loop: the first roll whose residue mod 6 is allowed,
    with the number of rolls used; `None` when every roll is rejected.
   */
  function Draw(rolls: seq<nat>, mem: Memory): (r: Option<(Code, nat)>)
    decreases |rolls|
    ensures r.Some? ==> 0 < r.value.1 <= |rolls| && r.value.0 == rolls[r.value.1 - 1] % 6
    ensures r.Some? ==> Allowed(r.value.0, mem)
    ensures r.Some? ==> forall j :: 0 <= j < r.value.1 - 1 ==> !Allowed(rolls[j] % 6, mem)
    ensures r.None? ==> forall j :: 0 <= j < |rolls| ==> !Allowed(rolls[j] % 6, mem)
  {
    if |rolls| == 0 then None
    else if Allowed(rolls[0] % 6, mem) then Some((rolls[0] % 6, 1))
    else
      match Draw(rolls[1..], mem)
      case None => None
      case Some((m, k)) => Some((m, k + 1))
  }

  /** `bool((rand() % 3) / 2)`: a half turn on one residue in three. */
  function TwiceFrom(roll: nat): (b: bool)
    ensures b <==> roll % 3 == 2
  {
    (roll % 3) / 2 != 0
  }

  /** `bool(rand() % 2)`: the other way on odd rolls. */
  function InverseFrom(roll: nat): (b: bool)
    ensures b <==> roll % 2 == 1
  {
    roll % 2 != 0
  }

  /**
    Whether the steps obey the draw rule from `mem` on: each move is
    allowed by the memory left by the moves before it.
   */
  ghost predicate Follows(h: seq<Step>, mem: Memory)
    decreases |h|
  {
    |h| == 0 || (Allowed(h[0].move, mem) && Follows(h[1..], Remember(mem, h[0].move)))
  }

  /**
    The move-selection loop of `scramble` for `n` moves from memory `mem`:
    the steps chosen and the number of rolls used; `None` when the rolls
    run out first.
   */
  function Play(n: nat, rolls: seq<nat>, mem: Memory): (r: Option<(seq<Step>, nat)>)
    decreases n
    ensures r.Some? ==> |r.value.0| == n && r.value.1 <= |rolls|
    ensures r.Some? ==> Follows(r.value.0, mem)
  {
    if n == 0 then Some(([], 0))
    else
      match Draw(rolls, mem)
      case None => None
      case Some((m, k)) =>
        if k + 2 > |rolls| then None
        else
          var s := Step(m, InverseFrom(rolls[k + 1]), TwiceFrom(rolls[k]));
          match Play(n - 1, rolls[k + 2..], Remember(mem, m))
          case None => None
          case Some((h, used)) =>
            assert ([s] + h)[1..] == h;
            Some(([s] + h, k + 2 + used))
  }

  /** More rolls after a successful draw do not change it. */
  lemma {:induction false} DrawExtends(rolls: seq<nat>, more: seq<nat>, mem: Memory)
    requires Draw(rolls, mem).Some?
    ensures Draw(rolls + more, mem) == Draw(rolls, mem)
    decreases |rolls|
  {
    assert (rolls + more)[0] == rolls[0];
    if !Allowed(rolls[0] % 6, mem) {
      assert (rolls + more)[1..] == rolls[1..] + more;
      DrawExtends(rolls[1..], more, mem);
    }
  }

  /** After every roll so far was rejected, an allowed roll ends the draw. */
  lemma {:induction false} DrawAppend(rolls: seq<nat>, a: nat, mem: Memory)
    requires Draw(rolls, mem).None? && Allowed(a % 6, mem)
    ensures Draw(rolls + [a], mem) == Some((a % 6, |rolls| + 1))
    decreases |rolls|
  {
    if |rolls| > 0 {
      assert (rolls + [a])[0] == rolls[0];
      assert (rolls + [a])[1..] == rolls[1..] + [a];
      DrawAppend(rolls[1..], a, mem);
    }
  }

  /** A first roll that is allowed is taken at once. */
  lemma DrawFirst(rolls: seq<nat>, mem: Memory)
    requires |rolls| > 0 && Allowed(rolls[0] % 6, mem)
    ensures Draw(rolls, mem) == Some((rolls[0] % 6, 1))
  {
  }

  /** One pass of the selection loop prepends its step to the rest, and adds the rolls it read. */
  function Then(s: Step, k: nat, rest: Option<(seq<Step>, nat)>): Option<(seq<Step>, nat)>
  {
    match rest
    case None => None
    case Some((h, used)) => Some(([s] + h, k + used))
  }

  /** The selection loop unrolled once, for a draw that leaves room for the two flag rolls. */
  lemma PlayUnfold(n: nat, rolls: seq<nat>, mem: Memory, m: Code, k: nat)
    requires n > 0 && Draw(rolls, mem) == Some((m, k)) && k + 2 <= |rolls|
    ensures Play(n, rolls, mem)
      == Then(Step(m, InverseFrom(rolls[k + 1]), TwiceFrom(rolls[k])), k + 2, Play(n - 1, rolls[k + 2..], Remember(mem, m)))
  {
    hide Draw, Follows;
  }

  /** A loop of no moves completes at once, whatever the rolls. */
  lemma PlayZero(rolls: seq<nat>, mem: Memory)
    ensures Play(0, rolls, mem) == Some(([], 0))
  {
    hide Draw, Follows;
  }

  /** A completed loop's first draw succeeded and its two flag rolls were there. */
  lemma PlayFits(n: nat, rolls: seq<nat>, mem: Memory)
    requires n > 0 && Play(n, rolls, mem).Some?
    ensures Draw(rolls, mem).Some? && Draw(rolls, mem).value.1 + 2 <= |rolls|
  {
    hide Draw, Follows;
  }

  /** More rolls after a completed selection loop do not change its steps or the rolls it used. */
  lemma {:induction false} PlayExtends(n: nat, rolls: seq<nat>, more: seq<nat>, mem: Memory)
    requires Play(n, rolls, mem).Some?
    ensures Play(n, rolls + more, mem) == Play(n, rolls, mem)
    decreases n
  {
    hide Draw, Follows, Play;
    if n == 0 {
      PlayZero(rolls, mem);
      PlayZero(rolls + more, mem);
    } else {
      PlayFits(n, rolls, mem);
      var (m, k) := Draw(rolls, mem).value;
      DrawExtends(rolls, more, mem);
      AfterPrefix(rolls, more, k);
      PlayUnfold(n, rolls, mem, m, k);
      PlayUnfold(n, rolls + more, mem, m, k);
      PlayExtends(n - 1, rolls[k + 2..], more, Remember(mem, m));
    }
  }

  /** Rolls to append so that the draw succeeds and leaves room for the two flag rolls. */
  lemma DrawEventually(rolls: seq<nat>, mem: Memory) returns (more: seq<nat>)
    ensures Draw(rolls + more, mem).Some? && Draw(rolls + more, mem).value.1 + 2 <= |rolls + more|
  {
    hide Draw;
    var r1 := rolls;
    if Draw(rolls, mem).None? {
      SomeMoveAllowed(mem);
      var a: Code :| Allowed(a, mem);
      DrawAppend(rolls, a, mem);
      r1 := rolls + [a];
    }
    DrawExtends(r1, [0, 0], mem);
    more := r1[|rolls|..] + [0, 0];
    assert rolls + more == r1 + [0, 0];
  }

  /** `None` only means the rolls ran out: `more` is a continuation of them that completes the loop. */
  lemma {:induction false} PlayEventually(n: nat, rolls: seq<nat>, mem: Memory) returns (more: seq<nat>)
    ensures Play(n, rolls + more, mem).Some?
    decreases n
  {
    hide Draw, Follows, Play;
    more := [];
    if n == 0 {
      PlayZero(rolls + more, mem);
    } else {
      var pad := DrawEventually(rolls, mem);
      var r2 := rolls + pad;
      var (m, k) := Draw(r2, mem).value;
      var tail := PlayEventually(n - 1, r2[k + 2..], Remember(mem, m));
      PlayAfterDraw(n, r2, tail, mem);
      more := pad + tail;
      Associative(rolls, pad, tail);
    }
  }

  lemma Associative(a: seq<nat>, b: seq<nat>, c: seq<nat>)
    ensures (a + b) + c == a + (b + c)
  {
  }

  /** Appending rolls does not change the ones already read, from position `k` on. */
  lemma AfterPrefix(rolls: seq<nat>, more: seq<nat>, k: nat)
    requires k + 2 <= |rolls|
    ensures (rolls + more)[k] == rolls[k] && (rolls + more)[k + 1] == rolls[k + 1]
    ensures (rolls + more)[k + 2..] == rolls[k + 2..] + more
  {
  }

  /** A draw that fits in `rolls`, followed by rolls that complete the rest of the loop, completes the loop. */
  lemma PlayAfterDraw(n: nat, rolls: seq<nat>, tail: seq<nat>, mem: Memory)
    requires n > 0 && Draw(rolls, mem).Some? && Draw(rolls, mem).value.1 + 2 <= |rolls|
    requires Play(n - 1, rolls[Draw(rolls, mem).value.1 + 2..] + tail, Remember(mem, Draw(rolls, mem).value.0)).Some?
    ensures Play(n, rolls + tail, mem).Some?
  {
    hide Draw, Follows, Play;
    var (m, k) := Draw(rolls, mem).value;
    DrawExtends(rolls, tail, mem);
    AfterPrefix(rolls, tail, k);
    PlayUnfold(n, rolls + tail, mem, m, k);
  }

  /** Rolls that make the selection loop choose exactly the steps `h`: the move, then the half-turn roll, then the direction roll. */
  function RollsFor(h: seq<Step>): (rolls: seq<nat>)
    ensures |rolls| == 3 * |h|
    decreases |h|
  {
    if |h| == 0 then []
    else [h[0].move as nat, if h[0].twice then 2 else 0, if h[0].inverse then 1 else 0] + RollsFor(h[1..])
  }

  /** The first three rolls choose the first step; the rest choose the others. */
  lemma RollsForFirst(h: seq<Step>)
    requires |h| > 0
    ensures RollsFor(h)[0] == h[0].move && RollsFor(h)[3..] == RollsFor(h[1..])
    ensures Step(h[0].move, InverseFrom(RollsFor(h)[2]), TwiceFrom(RollsFor(h)[1])) == h[0]
  {
    assert RollsFor(h)[3..] == RollsFor(h[1..]);
  }

  /** Every history that obeys the draw rule, flags included, is what the loop chooses for some rolls. */
  lemma {:induction false} PlayReaches(h: seq<Step>, mem: Memory)
    requires Follows(h, mem)
    ensures Play(|h|, RollsFor(h), mem) == Some((h, |RollsFor(h)|))
    decreases |h|
  {
    hide Draw, Play;
    if |h| == 0 {
      PlayZero(RollsFor(h), mem);
    } else {
      assert Allowed(h[0].move, mem) && Follows(h[1..], Remember(mem, h[0].move));
      hide Follows;
      RollsForFirst(h);
      hide RollsFor;
      var rolls, rest := RollsFor(h), RollsFor(h[1..]);
      DrawFirst(rolls, mem);
      PlayReaches(h[1..], Remember(mem, h[0].move));
      PlayUnfold(|h|, rolls, mem, h[0].move, 1);
      assert Play(|h|, rolls, mem) == Then(h[0], 3, Some((h[1..], |rest|)));
      assert [h[0]] + h[1..] == h;
    }
  }

  /** No face is turned twice in a row. */
  ghost predicate NoRepeat(h: seq<Step>)
  {
    forall i :: 0 < i < |h| ==> h[i].move != h[i - 1].move
  }

  /** No three consecutive turns are about one axis. */
  ghost predicate NoThreeOnAxis(h: seq<Step>)
  {
    forall i :: 1 < i < |h| ==>
      !(Parallel(FaceOf(h[i - 2].move), FaceOf(h[i - 1].move)) && Parallel(FaceOf(h[i - 1].move), FaceOf(h[i].move)))
  }

  /** Three distinct move numbers never share a pair. */
  lemma NoThreeInPair(a: Code, b: Code, c: Code)
    requires a != b && b != c && a != c
    ensures !(Pair(a) == Pair(b) && Pair(b) == Pair(c))
  {
  }

  /** Steps that follow the draw rule repeat no face and never turn three times about one axis in a row. */
  lemma {:induction false} FollowsRules(h: seq<Step>, mem: Memory)
    requires Follows(h, mem)
    ensures NoRepeat(h) && NoThreeOnAxis(h)
    decreases |h|
  {
    if |h| > 0 {
      var mem1 := Remember(mem, h[0].move);
      FollowsRules(h[1..], mem1);
      assert forall i :: 0 <= i < |h| - 1 ==> h[1..][i] == h[i + 1];
      if |h| > 1 {
        assert h[1].move != h[0].move;
        if |h| > 2 {
          var a, b, c := h[0].move, h[1].move, h[2].move;
          assert h[1..][1..] == h[2..];
          assert Follows(h[2..], Remember(mem1, b));
          assert Allowed(c, Remember(mem1, b));
          PairIsAxis(a, b);
          PairIsAxis(b, c);
          if Pair(a) == Pair(b) && Pair(b) == Pair(c) {
            NoThreeInPair(a, b, c);
          }
        }
      }
    }
  }

  /** The letter of a move's token. */
  function FaceLetter(m: Code): char
  {
    match m
    case 0 => 'F'
    case 1 => 'B'
    case 2 => 'U'
    case 3 => 'D'
    case 4 => 'R'
    case _ => 'L'
  }

  /** The move a token letter names, if any. */
  function CodeOf(ch: char): (r: Option<Code>)
    ensures r.Some? ==> FaceLetter(r.value) == ch
  {
    match ch
    case 'F' => Some(0)
    case 'B' => Some(1)
    case 'U' => Some(2)
    case 'D' => Some(3)
    case 'R' => Some(4)
    case 'L' => Some(5)
    case _ => None
  }

  /** Each move has its own letter. */
  lemma LetterRoundTrip(m: Code)
    ensures CodeOf(FaceLetter(m)) == Some(m)
  {
  }

  /** The token of one step: the letter, then `2` for a half turn or `'` for a counterclockwise quarter turn, then a space. */
  function Token(s: Step): string
  {
    [FaceLetter(s.move)] + (if s.twice then "2" else if s.inverse then "'" else "") + " "
  }

  /** The algorithm string: one token per step, in order. */
  function Encode(h: seq<Step>): string
    decreases |h|
  {
    if |h| == 0 then "" else Token(h[0]) + Encode(h[1..])
  }

  /** A step as its token records it: a half turn's inverse flag is dropped. */
  function Canon(s: Step): (t: Step)
    ensures t.move == s.move && t.twice == s.twice
    ensures t.twice ==> !t.inverse
    ensures !s.twice ==> t == s
  {
    if s.twice then s.(inverse := false) else s
  }

  function CanonAll(h: seq<Step>): (k: seq<Step>)
    ensures |k| == |h| && forall i :: 0 <= i < |h| ==> k[i] == Canon(h[i])
  {
    seq(|h|, i requires 0 <= i < |h| => Canon(h[i]))
  }

  /** Reading an algorithm string back into steps; `None` for anything that is not a run of tokens. */
  function Decode(s: string): (r: Option<seq<Step>>)
    decreases |s|
  {
    if |s| == 0 then Some([])
    else
      match CodeOf(s[0])
      case None => None
      case Some(m) =>
        if |s| >= 2 && s[1] == ' ' then Prepend(Step(m, false, false), Decode(s[2..]))
        else if |s| >= 3 && (s[1] == '2' || s[1] == '\'') && s[2] == ' ' then
          Prepend(Step(m, s[1] == '\'', s[1] == '2'), Decode(s[3..]))
        else None
  }

  function Prepend(s: Step, r: Option<seq<Step>>): Option<seq<Step>>
  {
    match r
    case None => None
    case Some(h) => Some([s] + h)
  }

  /** Decoding an encoded history gives back every step, with half turns' inverse flag cleared. */
  lemma {:induction false} DecodeEncode(h: seq<Step>)
    ensures Decode(Encode(h)) == Some(CanonAll(h))
    decreases |h|
  {
    if |h| > 0 {
      DecodeEncode(h[1..]);
      var t := Token(h[0]);
      var rest := Encode(h[1..]);
      assert (t + rest)[0] == FaceLetter(h[0].move);
      LetterRoundTrip(h[0].move);
      if h[0].twice || h[0].inverse {
        assert (t + rest)[1] == t[1] && (t + rest)[2] == ' ';
        assert (t + rest)[3..] == rest;
      } else {
        assert (t + rest)[1] == ' ';
        assert (t + rest)[2..] == rest;
      }
      assert CanonAll(h) == [Canon(h[0])] + CanonAll(h[1..]);
    }
  }

  /** A string that decodes is exactly the encoding of what it decodes to. */
  lemma {:induction false} EncodeDecode(s: string)
    requires Decode(s).Some?
    ensures Encode(Decode(s).value) == s
    decreases |s|
  {
    if |s| > 0 {
      var m := CodeOf(s[0]).value;
      var h := Decode(s).value;
      assert h[1..] == Decode(if s[1] == ' ' then s[2..] else s[3..]).value;
      EncodeDecode(if s[1] == ' ' then s[2..] else s[3..]);
      if s[1] == ' ' {
        assert s == [s[0]] + " " + s[2..];
      } else {
        assert s == [s[0]] + [s[1]] + " " + s[3..];
      }
    }
  }

  /** One step as its face turn. */
  function Apply(g: Cube, s: Step): Cube
  {
    Turn(g, FaceOf(s.move), s.inverse, s.twice)
  }

  /** The cube after the steps, in order. */
  function ApplyAll(g: Cube, h: seq<Step>): Cube
    decreases |h|
  {
    if |h| == 0 then g else ApplyAll(Apply(g, h[0]), h[1..])
  }

  /** Replaying the steps as the string records them gives the same cube. */
  lemma {:induction false} ApplyAllCanon(g: Cube, h: seq<Step>)
    ensures ApplyAll(g, CanonAll(h)) == ApplyAll(g, h)
    decreases |h|
  {
    if |h| > 0 {
      var k := CanonAll(h);
      assert k[1..] == CanonAll(h[1..]);
      if h[0].twice {
        TwiceIgnoresInverse(g, FaceOf(h[0].move));
        assert Apply(g, k[0]) == Apply(g, h[0]) by {
          assert k[0] == h[0].(inverse := false);
          if h[0].inverse {
            assert h[0] == Step(h[0].move, true, true);
          }
        }
      }
      ApplyAllCanon(Apply(g, h[0]), h[1..]);
    }
  }

  /** Turns keep a well-formed cube well-formed, so any sequence of them does. */
  lemma {:induction false} ApplyAllWellFormed(g: Cube, h: seq<Step>)
    ensures WellFormed(g) ==> WellFormed(ApplyAll(g, h))
    decreases |h|
  {
    if |h| > 0 && WellFormed(g) {
      TurnWellFormed(g, FaceOf(h[0].move), h[0].inverse, h[0].twice);
      ApplyAllWellFormed(Apply(g, h[0]), h[1..]);
    }
  }

  /**
    The algorithm string of steps chosen by the draw rule reads back as
    steps that obey the scramble's promises, and replaying it reproduces
    the cube the steps produced.
   */
  lemma Replays(g: Cube, h: seq<Step>)
    requires Follows(h, Start)
    ensures Decode(Encode(h)).Some? && |Decode(Encode(h)).value| == |h|
    ensures NoRepeat(Decode(Encode(h)).value) && NoThreeOnAxis(Decode(Encode(h)).value)
    ensures ApplyAll(g, Decode(Encode(h)).value) == ApplyAll(g, h)
    ensures WellFormed(g) ==> WellFormed(ApplyAll(g, h))
  {
    hide Turn;
    DecodeEncode(h);
    FollowsRules(h, Start);
    ApplyAllCanon(g, h);
    ApplyAllWellFormed(g, h);
  }

  /**
    `Cube::scramble(moves)`: the scrambled cube and the algorithm string.
    Nothing happens for `moves <= 0`.  Otherwise the string decodes to
    exactly `moves` steps that repeat no face and never turn three times in
    a row about one axis, and replaying them on the starting cube gives the
    scrambled cube.  `None` only when the rolls run out.
   */
  function Scramble(g: Cube, moves: int, rolls: seq<nat>): (r: Option<(Cube, string)>)
    ensures moves <= 0 ==> r == Some((g, ""))
    ensures r.Some? ==> Decode(r.value.1).Some?
    ensures r.Some? && moves > 0 ==> |Decode(r.value.1).value| == moves
    ensures r.Some? ==> NoRepeat(Decode(r.value.1).value) && NoThreeOnAxis(Decode(r.value.1).value)
    ensures r.Some? ==> ApplyAll(g, Decode(r.value.1).value) == r.value.0
    ensures r.Some? && WellFormed(g) ==> WellFormed(r.value.0)
  {
    if moves <= 0 then Some((g, ""))
    else
      match Play(moves, rolls, Start)
      case None => None
      case Some((h, _)) =>
        Replays(g, h);
        Some((ApplyAll(g, h), Encode(h)))
  }

  /** More rolls after a completed scramble change neither the cube nor the string. */
  lemma ScrambleExtends(g: Cube, moves: int, rolls: seq<nat>, more: seq<nat>)
    requires Scramble(g, moves, rolls).Some?
    ensures Scramble(g, moves, rolls + more) == Scramble(g, moves, rolls)
  {
    hide Turn;
    if moves > 0 {
      PlayExtends(moves, rolls, more, Start);
    }
  }

  /** A scramble that ran out of rolls completes once `more` rolls follow them. */
  lemma ScrambleEventually(g: Cube, moves: int, rolls: seq<nat>) returns (more: seq<nat>)
    ensures Scramble(g, moves, rolls + more).Some?
  {
    hide Turn;
    more := [];
    if moves > 0 {
      more := PlayEventually(moves, rolls, Start);
    }
  }

  /**
    Every legal history of `moves` turns, each with any flags, is a possible
    scramble: some rolls make `scramble` apply exactly those turns and
    return their string.
   */
  lemma ScrambleReaches(g: Cube, h: seq<Step>)
    requires Follows(h, Start) && |h| > 0
    ensures Scramble(g, |h|, RollsFor(h)) == Some((ApplyAll(g, h), Encode(h)))
  {
    hide Turn;
    PlayReaches(h, Start);
  }

  /** `Cube::solve`: declared but not implemented; it returns the empty algorithm for every cube. */
  function Solve(g: Cube): (r: string)
    ensures |r| == 0
  {
    ""
  }
}
