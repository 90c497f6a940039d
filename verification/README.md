# Rubik's cube coordinate and rotation engine, in Dafny

This project models the core of a small C++ Rubik's cube program
(`helper.h`, `helper.cpp`): pieces that know their home (`targetPos`) and
their present place (`currentPos`), the 3×3×3 grid that stores them by
present place, the six face turns with their clockwise, counterclockwise
and double variants, the cost heuristic, and the scramble generator with
its move-selection rule and algorithm string.

The modules follow the program's structure:

- `Coords` (coords.dfy): the `Vector` of layers -1, 0 and 1, and the flat
  cell number of `pieceArr[x + 1][y + 1][z + 1]`.
- `Pieces` (pieces.dfy): `Piece`, the cost table of `Piece::cost`, and the
  colour labels the constructor writes.
- `Cubes` (cubes.dfy): the 27-cell grid, `getPiece`, the solved cube the
  constructor builds, `rotate` as a batch write, and the grid invariant.
  The invariant says each cell holds the piece whose current position is
  that cell, every piece keeps its label and kind, and no piece is lost or
  duplicated.
- `Moves` (moves.dfy): where a turn sends a position. Each face fixes one
  axis and rewrites the two free components: a double turn negates both,
  and a quarter turn negates one and swaps them. Which component is negated
  depends on the face and the `inverse` flag, exactly as in each turn's
  three-way `if`.
- `Turns` (turns.dfy): `front`, `back`, `right`, `left`, `up` and `down` as
  one function `Turn`. It reads the nine layer pieces in loop order,
  transforms each piece's current position, and writes the nine back
  through `Rotate`. It also holds the algebra of turns.
- `Costs` (costs.dfy): `Cube::cost`, the triple loop over the edge and
  corner cells.
- `Scrambles` (scramble.dfy): `Cube::scramble` and the `Cube::solve` stub.
  `rand()` is a finite stream of draws passed in by the caller.

The clockwise front turn in the code sends the corner at (1, 1, 1) to
(1, 1, -1) (helper.cpp:166). In a right-handed frame with y to the right
and z up, that is clockwise seen from the front. `Turns.FrontTurnExample`
pins this behaviour down.

## Model

| member | source | states |
|---|---|---|
| Coords.Weight | helper.cpp:334 | `fabs(i) + fabs(j) + fabs(k)` counts the faces a position touches. It is at most 3, and 0 only for the core. |
| Coords.Dot | helper.cpp:40-42 | The dot product of two positions lies in -3..3, and a position's dot product with itself is its weight. |
| Coords.Index | helper.cpp:145-147 | The cell a position is stored in is one of the 27 cells of the grid. |
| Coords.CoordOf | helper.cpp:136 | Every one of the 27 cells is the cell of some position. |
| Coords.IndexRoundTrip | helper.cpp:145-147 | Reading a position's cell number back gives the position. |
| Coords.IndexInjective | helper.cpp:136 | Two positions share a cell exactly when they are equal. |
| Pieces.CostOfDot | helper.cpp:44-58 | The cost table: 1 for a dot product of 1, 2 for 0 or -1, 3 for -2 or -3, and 0 for anything else. Each of these holds in both directions. |
| Pieces.Cost | helper.cpp:39-59 | A piece's cost is at most 3. |
| Pieces.CostAtHome | helper.cpp:39-58 | A piece at home costs 0 if it is an edge or corner, 1 if it is a face centre, and 2 if it is the core. This is why the cube's cost skips centres and the core. |
| Pieces.CostZeroIffHome | helper.cpp:39-58 | An edge or corner piece that keeps its kind costs 0 exactly when it is at home. |
| Pieces.Letter | helper.cpp:87-92 | The letter for one axis is `neg` on layer -1, `pos` on layer 1, and absent on layer 0. |
| Pieces.Label | helper.cpp:86-92 | The constructor's label has one letter per face the home touches. |
| Pieces.LabelLetters | helper.cpp:86-92 | B, G, O, R, Y and W occur in a label exactly when the home lies on the back, front, left, right, down and up layer respectively. |
| Pieces.LabelInjective | helper.cpp:86-96 | Distinct homes get distinct labels. |
| Cubes.GetPiece | helper.cpp:145-147 | On a grid that satisfies the invariant, the piece read at `v` has current position `v`. |
| Cubes.Solved | helper.cpp:81-99 | The constructor puts at every position the piece whose home and current position are that position, with that position's label. |
| Cubes.SolvedWellFormed | helper.cpp:81-99 | The constructed cube satisfies the grid invariant. |
| Cubes.RotateUnwritten | helper.cpp:133-138 | `rotate` leaves unchanged every cell that no written piece names as its current position. |
| Cubes.RotateLastWrite | helper.cpp:133-138 | After `rotate`, the cell named by a piece's current position holds that piece, unless a later piece in the batch names the same cell. |
| Costs.CellCosts | helper.cpp:333-336 | An edge or corner cell contributes its piece's cost. A centre or the core contributes 0. |
| Costs.Cost | helper.cpp:328-341 | `Cube::cost` returns the sum of the cell contributions. |
| Costs.CostLoop | helper.cpp:329-340 | After each pass of the triple loop, the running sum equals the sum over the cells visited so far. Cells are visited in storage order. |
| Costs.PartialSumZero | helper.cpp:329-340 | A sum of cell costs is 0 exactly when each summand is 0. |
| Costs.CostZeroIffHome | helper.cpp:328-341 | On a well-formed cube, the cost is 0 exactly when every edge and corner is at home. |
| Costs.SolvedCostZero | helper.cpp:68-71 | A freshly constructed cube costs 0. |
| Costs.CentreExempt | helper.cpp:333-335 | The pieces in centre and core cells never affect the cost. |
| Costs.CountedCells | helper.cpp:334 | Marks which cells the cost loop adds up: the edges and corners. |
| Costs.CostBound | helper.cpp:328-341 | Exactly 20 cells (12 edges and 8 corners) are summed, so the cost never exceeds 60. |
| Costs.CountedBelow | helper.cpp:330-334 | Below every cell number, all cells except the centres and the core are counted. |
| Costs.CentreCell | helper.cpp:334 | The cells the cost loop skips are exactly cells 4, 10, 12, 13, 14, 16 and 22. |
| Moves.Axis | helper.cpp:158-166 | Each face turns about one axis: front and back about x, right and left about y, up and down about z. The component a turn keeps is the one along that axis. |
| Moves.Place | helper.cpp:164-166 | Writing the free components keeps the face's own axis and sets both free components. |
| Moves.Components | helper.cpp:158-162 | A position is determined by its fixed and free components, and its weight is the sum of theirs. |
| Moves.Centre | helper.cpp:161 | The face centre lies on the layer with both free components 0. |
| Moves.Spin | helper.cpp:164-166 | Each of the three component rewrites keeps the number of nonzero components and fixes (0, 0). |
| Moves.MovedPos | helper.cpp:154-321 | A turn never changes the component along its own axis, so it maps its layer onto itself. It keeps a piece's kind (weight) and leaves the centre in place. |
| Moves.Unmoved | helper.cpp:164-166 | Every position is reached by a turn from some position. |
| Moves.UnmovedMoved | helper.cpp:164-166 | The turn the other way (or the same double turn) undoes where a turn sends a position. |
| Moves.MovedPosInjective | helper.cpp:164-166 | Distinct positions go to distinct positions. |
| Moves.HalfIgnoresInverse | helper.cpp:164 | A double turn sends a position to the same place whatever `inverse` is. |
| Moves.TwoQuarters | helper.cpp:164-166 | Two quarter turns the same way send a position where one double turn does. |
| Moves.HalfTwice | helper.cpp:164 | A double turn applied twice puts every position back. |
| Moves.Source | helper.cpp:154-176 | The cell that feeds a cell in a turn: on the layer it is the position the turn moves there, off the layer the cell itself. It keeps weight and layer membership. |
| Moves.SourceInjective | helper.cpp:154-176 | Distinct cells are fed from distinct cells, so a turn permutes the cells. |
| Moves.LayerCell | helper.cpp:161 | The layer cell read for loop values (a, b) lies on the layer with free components a and b. |
| Moves.LayerCells | helper.cpp:158-161 | The two loops visit exactly the nine cells of the layer, each once, outer loop over the first free component and inner over the second. |
| Moves.Slot | helper.cpp:158-161 | Every layer cell is visited by the loops. |
| Moves.LayerCellsDistinct | helper.cpp:158-161 | The loops visit each layer cell exactly once. |
| Turns.LayerPiecesMoved | helper.cpp:158-172 | On a consistent grid, the m-th piece of the batch a turn writes is the piece of the m-th layer cell, with only its current position changed to where the turn sends that cell. No two batch pieces get the same new position. |
| Turns.LayerCurrentsOnLayer | helper.cpp:161-167 | Every new current position in the batch lies on the turned layer. |
| Turns.TurnOnLayer | helper.cpp:154-176 | A layer cell receives the piece the turn moves there, with the cell as its current position. |
| Turns.TurnOffLayer | helper.cpp:174 | A cell off the layer keeps its piece. |
| Turns.TurnCell | helper.cpp:154-176 | Cell-wise reference characterisation: every cell gets the piece from its source cell, unchanged except for its current position. |
| Turns.TurnMovesPieces | helper.cpp:154-176 | Read forwards: the piece at layer position v moves to its new position with nothing else changed, and every piece off the layer stays. |
| Turns.TurnConsistent | helper.cpp:167-174 | A turn keeps every piece stored at its current position. |
| Turns.TurnKeepsIntact | helper.cpp:167 | A turn changes only current positions, so labels and kinds survive. |
| Turns.TurnKeepsAllIntact | helper.cpp:154-176 | After a turn every cell holds an intact piece. |
| Turns.TurnKeepsDistinct | helper.cpp:154-176 | After a turn, distinct cells still hold pieces with distinct homes. |
| Turns.TurnKeepsAllDistinct | helper.cpp:154-176 | A turn neither loses nor duplicates a piece. |
| Turns.TurnWellFormed | helper.cpp:154-321 | All six turns, in all variants, preserve the grid invariant. |
| Turns.TurnCompose | helper.cpp:154-176 | Two turns of one face feed each cell through both source maps. |
| Turns.InverseCell | helper.cpp:151-153 | A quarter turn followed by the opposite quarter turn restores each cell. |
| Turns.InverseAllCells | helper.cpp:151-153 | A quarter turn followed by the opposite quarter turn restores every cell. |
| Turns.InverseUndoesTurn | helper.cpp:151-153 | `inverse` gives the counterclockwise turn, which undoes the clockwise one. |
| Turns.TwoQuartersCell | helper.cpp:164-166 | Two quarter turns the same way agree cell by cell with one double turn. |
| Turns.TwoQuartersAllCells | helper.cpp:164-166 | Two quarter turns the same way agree on every cell with one double turn. |
| Turns.TwoQuartersMakeHalf | helper.cpp:152 | `twice` turns the face twice: two quarter turns either way equal one double turn. |
| Turns.HalfTwiceCell | helper.cpp:164 | A double turn done twice restores each cell. |
| Turns.HalfTwiceAllCells | helper.cpp:164 | A double turn done twice restores every cell. |
| Turns.HalfTurnTwice | helper.cpp:164 | A double turn done twice restores the cube. |
| Turns.FourQuartersRestore | helper.cpp:154-176 | Four quarter turns of one face the same way restore the cube. |
| Turns.TwiceIgnoresInverse | helper.cpp:365 | With `twice` set, `inverse` is disregarded, on every cube. |
| Turns.FrontTurnExample | helper.cpp:164-166 | On the solved cube, a clockwise front turn moves the (1, 1, 1) corner to (1, 1, -1) and the (1, -1, 1) corner to (1, 1, 1). |
| Scrambles.TruncDiv | helper.cpp:360 | C++ division rounds toward zero: the remainder has the sign of the dividend and is smaller than the divisor. |
| Scrambles.PairIsAxis | helper.cpp:359-360 | `move / 2 * 2` is equal for two moves exactly when they turn faces about the same axis (F/B, U/D, R/L). |
| Scrambles.Remember | helper.cpp:359-362 | The memory update: the move becomes the last move. The old last move becomes the last-last move exactly when the two turn opposite faces; otherwise the last-last move is cleared. Before the first move it stays -1. |
| Scrambles.SomeMoveAllowed | helper.cpp:355-357 | At most two moves are excluded, so some move is always allowed. |
| Scrambles.Draw | helper.cpp:355-357 | The rejection loop takes the first draw whose residue mod 6 is neither remembered move, and rejects every draw before it. |
| Scrambles.TwiceFrom | helper.cpp:364 | A double turn is chosen exactly when the draw is 2 mod 3. |
| Scrambles.InverseFrom | helper.cpp:365 | A counterclockwise turn is chosen exactly on an odd draw. |
| Scrambles.Play | helper.cpp:353-366 | The selection loop produces exactly the requested number of steps, each allowed by the memory the steps before it left. |
| Scrambles.DrawExtends | helper.cpp:355-357 | Once a draw has succeeded, later draws do not change the move it chose or the number of draws it used. |
| Scrambles.DrawAppend | helper.cpp:355-357 | After every earlier draw was rejected, an allowed draw ends the loop with its residue. |
| Scrambles.PlayExtends | helper.cpp:353-366 | Once the selection loop has completed, later draws change neither its steps nor the number of draws it used. |
| Scrambles.PlayEventually | helper.cpp:353-366 | A loop that ran out of draws completes for some continuation of them, so `None` only means the draws ran out. |
| Scrambles.PlayReaches | helper.cpp:353-366 | Every history that obeys the draw rule, with any flags, is the loop's choice for some draws: the move draw picks the face, the next draw `twice` and the one after `inverse`. |
| Scrambles.NoThreeInPair | helper.cpp:359-360 | No pair of opposite faces holds three distinct moves. |
| Scrambles.FollowsRules | helper.cpp:350-362 | Steps chosen by the rule never turn the same face twice in a row, and never make three consecutive turns about one axis. |
| Scrambles.CodeOf | helper.cpp:367-396 | A token letter names the move it is the letter of. |
| Scrambles.LetterRoundTrip | helper.cpp:367-396 | Each move has its own letter among F, B, U, D, R and L. |
| Scrambles.Canon | helper.cpp:398-399 | A token records the face and `twice`, and `inverse` only when not `twice`. |
| Scrambles.DecodeEncode | helper.cpp:367-400 | Reading back an algorithm string gives every step, one per token. Only a double turn's ignored `inverse` flag is lost. |
| Scrambles.EncodeDecode | helper.cpp:367-400 | Any string that reads as tokens is exactly the encoding of what it reads as. |
| Scrambles.ApplyAllCanon | helper.cpp:364-399 | Replaying the steps as the string records them gives the same cube as the steps themselves. |
| Scrambles.ApplyAllWellFormed | helper.cpp:367-396 | Any sequence of turns keeps a well-formed cube well-formed. |
| Scrambles.Replays | helper.cpp:348-403 | The algorithm string of a legal scramble reads back as that many legal steps, and replaying them reproduces the scrambled cube. |
| Scrambles.Scramble | helper.cpp:348-403 | With `moves <= 0` the cube is unchanged and the string is empty. Otherwise the string holds exactly `moves` tokens. No face repeats and no three turns in a row share an axis. Replaying the string on the starting cube yields the scrambled cube, which stays well-formed. |
| Scrambles.ScrambleExtends | helper.cpp:348-403 | Once a scramble has completed, more draws change neither the cube nor the string. |
| Scrambles.ScrambleEventually | helper.cpp:348-403 | A scramble that ran out of draws completes for some continuation of them. |
| Scrambles.ScrambleReaches | helper.cpp:348-403 | Every legal history of turns is a possible scramble: some draws make `scramble` apply exactly those turns and return their string. |
| Scrambles.Solve | helper.cpp:405-407 | `solve` is a stub that returns the empty algorithm for every cube. |

## Left out

- Printing (`operator<<` for vectors, pieces and cubes) is output formatting only.
- Memory management is not modelled: the heap arrays, the destructor, the copy constructor and `operator=`. The model's cubes are immutable values, so a copy is the value itself.
- The accessors and setters (`getPieceArr`, `getTargetPos`, `setCurrentPos`, …) and the default `Piece` constructor are not modelled. They only read or write fields.
- Seeding (`srand(time(0))` in the constructor) and `rand()` are left out, because they read the clock and global state. The draws are a parameter (`rolls`) instead.
- Scrambles.Play: the rejection loop's termination under a real generator is not proved, and neither are the draw probabilities. With a finite stream of draws, `None` means the stream ran out (`Scrambles.PlayEventually`, `Scrambles.PlayExtends`). `SomeMoveAllowed` shows why a fair generator always gets past the loop.
- Scrambles.Scramble: its guarantees for `moves > 0` hold when it returns a result; returning none is constrained by separate lemmas, not by its own contract. `Scrambles.ScrambleEventually` and `Scrambles.ScrambleExtends` show that `None` only means the draws ran out, and `Scrambles.ScrambleReaches` shows that every legal history is a possible result.
- Turns.TurnCell and the lemmas built on it require the grid invariant (`Consistent`). On a grid that breaks it, the turn's result is not characterised. The constructor establishes the invariant and every turn keeps it (`Turns.TurnWellFormed`).
- Cubes.GetPiece: a position outside -1..1 on some axis cannot be expressed, because `Trit` excludes it. In the source it would index outside the array.
- Pieces.Cost: the ensures only bounds the cost by 3. The full table is stated on `Pieces.CostOfDot`, of which the cost is an application.
- Integer width: the cost sum never exceeds 60 (`Costs.CostBound`), and moves and draws are small. `int` overflow therefore cannot occur and is not modelled.
- Probabilities: the comments at helper.cpp:364-365 give a one-in-three chance each for a double turn and a counterclockwise quarter turn. The model states which draws choose what (`Scrambles.TwiceFrom`, `Scrambles.InverseFrom`), not how often.
- Default arguments (`scramble(int=20)` and `inverse=false, twice=false` on the six turns, helper.h:49-57) are not modelled: every call in the model passes all arguments explicitly.
- Solving algorithms: `solve` is an empty stub in the source and stays one here.
