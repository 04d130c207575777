# alina-puzzle-15: a Dafny model of the 15-puzzle game logic

`game.js` is a browser sliding-tile puzzle. A photo is cut into a 4x4 grid of slices.
The last slice (index 15) stands for the empty slot. The tiles are shuffled with
Fisher-Yates until `isSolvable()` accepts the board. A click on a tile next to the empty
slot swaps the two. When every slot holds its own slice, the game stops, `emptyIndex`
becomes -1 and the whole photo is drawn.

The model has these modules:

- `JsMath`: JavaScript's `Math.floor(a / b)`, its truncating `%` (so `-1 % 4` is -1) and `Math.abs`.
- `Board`: the board as the row-major sequence of tile indices (a tile record reduced to
  its `index`), arrangements, the destructuring swap, `findIndex` and `checkCompletion`.
- `InversionCount`: inversion counting, with the algebra the parity proofs need.
- `Solvability`: `isSolvable()` exactly as written, and beside it the parity rule it
  was meant to implement.
- `Moves`: the globals as a `Session` value, `moveTile`, the click handler and series of clicks.
- `Shuffle`: the Fisher-Yates pass and the retry loop of `shuffleTiles`.
- `Render`: what `drawTiles` draws: which slots, which slice of the 1280x1280 photo, which caption.
- `Game`: the globals as a class `Puzzle` with `tiles` as an array. Each handler is a
  method whose loops and updates are proved against the pure step that specifies it.

`Math.random` is replaced by supplied choices. A *round* `js` gives, for each `i` in 1..15,
the `j` in 0..i that one Fisher-Yates pass draws. Each retry of `shuffleTiles` consumes one round.

Where the comments in `game.js` and the code disagree, the model follows the code:

- `countInversions` is meant to skip the blank, but its guard compares a tile record with
  the number 15, which always differs, so the blank is counted. This is not harmless. The
  blank's index is the largest, so it forms an inversion with every tile after it,
  15 - p in all (`Solvability.BlankInversions`).
- The comment says the row is counted from the bottom, but `emptyTileRow` is counted from
  the top, plus one.
- A retry shuffles the board the previous attempt left, not a fresh solved board.
- After victory, `drawTiles` draws all 16 slices, because `emptyIndex` is -1 and
  `gameStarted` is false, so the last slice is not hidden.

## Model

| member | source | states |
|---|---|---|
| Board.IndexOf | game.js:69 | `findIndex` gives -1 exactly when the value is absent, and otherwise the first slot holding it |
| Board.Swap | game.js:66 | the swap exchanges two slots, keeps the other slots and keeps the multiset of tiles |
| Board.ArrangementKept | game.js:64-67 | any rearrangement of an arrangement (same length, same multiset) is an arrangement |
| Board.ArrangementFacts | game.js:51-54 | an arrangement holds tiles 0..15 only, each in exactly one slot, none missing |
| Board.BlankSlot | game.js:69 | on an arrangement, `findIndex` finds the blank, and no other slot holds it |
| Board.CompleteIsIdentity | game.js:128-133 | a 16-slot board is complete iff it is the solved order, and the solved order is an arrangement |
| InversionCount.InversionsConcat | game.js:136-147 | the inversions of a concatenation are those within each part plus those across |
| InversionCount.IncreasingNoInversions | game.js:136-147 | an increasing board has no inversions |
| InversionCount.InversionsWithMaximum | game.js:136-147 | the largest tile at slot p adds exactly one inversion per later slot |
| InversionCount.MoveOverBlock | game.js:120-147 | moving a tile back over a block (from after it to before it) changes the inversions by (block tiles below it) - (block tiles above it) |
| Solvability.BlankInversions | game.js:141 | counting the blank adds 15 - p to the inversions of the other tiles |
| Solvability.AsWrittenVerdict | game.js:150-161 | `isSolvable()` accepts iff (inversions without the blank + blank row + blank column) is odd |
| Solvability.CorrectedVerdict | game.js:152-158 | the intended rule accepts iff (inversions without the blank + blank row from the top) is odd |
| Solvability.VerdictsAgreeOnEvenColumns | game.js:136-161 | the as-written and intended verdicts agree exactly when the blank is in column 0 or 2 |
| Solvability.SolvedBoardRejected | game.js:150-161 | `isSolvable()` rejects the solved board; the intended rule accepts it |
| Solvability.NextColumnVerdicts | game.js:150-161 | with the other tiles in the same order and the blank one column right, the intended verdict is unchanged and the as-written verdict flips |
| Solvability.NextRowVerdicts | game.js:150-161 | with the blank one row down and the inversions changed by an odd amount, the intended verdict is unchanged |
| Moves.AdjacentNeighbours | game.js:115-121 | on the board, the adjacency test holds exactly for the slots above, below, and left or right in the same row |
| Moves.NoNeighbourOfSentinel | game.js:117-118 | with `emptyIndex` -1, no slot passes the adjacency test, because of JavaScript's signed remainder |
| Moves.MoveStep | game.js:113-125 | a move keeps the multiset of tiles, keeps `emptyIndex` in -1..15 and marks the game started |
| Moves.MoveEffect | game.js:113-125 | the board changes iff the click is adjacent; `emptyIndex` then becomes the clicked slot; the blank stays under `emptyIndex` |
| Moves.MoveRoundTrip | game.js:120-124 | clicking back where the tile came from restores the board and `emptyIndex` |
| Moves.HorizontalSlide | game.js:120-123 | moving the blank one slot right keeps the intended verdict and flips the as-written one |
| Moves.VerticalSlide | game.js:120-123 | moving the blank one row down keeps the intended verdict |
| Moves.NeighbourSlide | game.js:120-123 | sliding any of the four neighbours into the blank keeps the intended verdict |
| Moves.CorrectedVerdictKept | game.js:113-125 | no move changes the intended verdict |
| Moves.ClickStep | game.js:173-183 | the click handler keeps the invariant (an arrangement; -1 only on a finished, stopped game) and keeps the blank under `emptyIndex` |
| Moves.EarlyVictory | game.js:173-181 | from the start state, a click on any slot but 11, 14 and 15 moves nothing and ends the game as won |
| Moves.WonIsFinal | game.js:173-179 | once won, no click changes the state |
| Moves.VictoryDetected | game.js:177-179 | after a click on another slot, the board is complete iff the game is stopped with `emptyIndex` -1 |
| Moves.Clicks | game.js:165-184 | any series of clicks keeps the invariant |
| Moves.UnsolvableNeverWon | game.js:165-184 | a board the intended rule rejects is never completed, whatever is clicked |
| Moves.NotComplete | game.js:128-133 | a board the intended rule rejects is not complete |
| Shuffle.ShufflePass | game.js:64-67 | a Fisher-Yates pass keeps the multiset of tiles and leaves the slots above its start alone |
| Shuffle.ShuffleRounds | game.js:60-73 | the retry loop keeps the multiset of tiles; an accepted deal passes `isSolvable()`; after an attempt `emptyIndex` is where `findIndex` finds the blank |
| Shuffle.ShuffleDeals | game.js:60-73 | every deal is an arrangement, and after an attempt the blank is exactly at `emptyIndex` |
| Shuffle.NeverDealsSolved | game.js:60-73 | an accepted deal is never the solved board |
| Shuffle.PassWithOneChoice | game.js:64-67 | a pass whose only non-idle choice is at slot i is one swap |
| Shuffle.AcceptedUnsolvableBoard | game.js:136-161 | the board ending in 15, 14, 13 with the blank at 13 is accepted by `isSolvable()` and rejected by the intended rule |
| Shuffle.DealsUnsolvableBoard | game.js:60-73 | one round from the solved board deals that board and `shuffleTiles` accepts it |
| Shuffle.DealtBoardNeverWon | game.js:60-184 | no series of clicks ever completes that deal |
| Render.SourceOriginInImage | game.js:86-87 | each tile's source slice lies inside the photo, and its corner identifies the tile |
| Render.DrawList | game.js:79-110 | no more draw calls than slots; each is for a slot that passes the skip test, and shows that slot's tile's slice and its 1-based number |
| Render.DrawListOrdered | game.js:79 | `forEach` visits the slots in order, so the draw calls come in strictly increasing slot order and no slot is drawn twice |
| Render.DrawListComplete | game.js:79-82 | every slot that passes the skip test gets a draw call |
| Render.DrawnDuringPlay | game.js:82 | during play a slot is drawn iff it is not the empty slot |
| Render.DrawCountDuringPlay | game.js:79-82 | during play fifteen tiles are drawn |
| Render.DrawnAfterVictory | game.js:79-82 | after victory all sixteen slots are drawn, each with its own slice |
| JsMath.FloorDivIsFloor | game.js:115-117 | `Math.floor(a / b)` is the largest q with b * q <= a |
| JsMath.RemSign | game.js:116-118 | JavaScript's remainder takes the sign of the dividend |
| Game.Puzzle.constructor | game.js:6-14 | the initial globals: tiles in order, `emptyIndex` 15, game not started |
| Game.Puzzle.ResetGame | game.js:43-48 | `resetGame` stops the game and sets `emptyIndex` to 15, leaving the tiles |
| Game.Puzzle.SetupTiles | game.js:51-57 | lays the tiles out in order, then its outcome is the retry loop's deal from the solved board |
| Game.Puzzle.ShuffleTiles | game.js:60-73 | the loop's final tiles, `emptyIndex` and verdict are those of `ShuffleRounds` |
| Game.Puzzle.Attempt | game.js:63-71 | one attempt: a pass, then `emptyIndex` from `findIndex`, then the `isSolvable()` verdict |
| Game.Puzzle.FisherYates | game.js:64-67 | the in-place loop leaves the array equal to `ShufflePass` of its old contents |
| Game.Puzzle.CountInversions | game.js:136-147 | the nested loops count exactly the inversions of the board, blank included |
| Game.Puzzle.IsSolvable | game.js:150-162 | returns the `isSolvable()` verdict for the current tiles and `emptyIndex` |
| Game.Puzzle.CheckCompletion | game.js:128-133 | returns true iff every slot holds its own tile |
| Game.Puzzle.MoveTile | game.js:113-125 | the new state is `MoveStep` of the old one |
| Game.Puzzle.Click | game.js:173-183 | the new state is `ClickStep` of the old one, and the invariant is kept |
| Game.Puzzle.DrawTiles | game.js:77-110 | the draw calls are `DrawList` of the state |

## Left out

- The canvas, the DOM, and resizing the viewport (game.js:1-25): there is no screen here.
- Turning a click's pixel position into a slot (game.js:165-171): the clicked slot is an input, assumed to be 0..15.
- Choosing and loading the photo (game.js:28-41): `image.src`, the `load` listener that `initGame` adds again on every reset, and `getRandomPhoto`'s no-repeat loop. `setupTiles` runs when a load finishes; the model calls it directly.
- `Math.random`: replaced by the supplied rounds. `shuffleTiles` retries until accepted; the model retries while rounds remain and reports whether an attempt was accepted.
- Floating point: the tile size in pixels, destination rectangles, the label font and its placement, and `ctx.clearRect`. The source rectangles are exact integers (1280 / 4 = 320) and are modelled.
- `console.log("Victory!")`.
- Everything before the first photo loads, when `tiles` is still the empty array. The resize listener (game.js:24), the direct call of `updateCanvasSize` (game.js:25) and the click listener (game.js:165) are all active before the load that `initGame` starts (game.js:187) completes. The model starts from the solved board of 16 tiles instead. On a click this agrees with the empty array except on slots 11 and 14:
  - A click on slot 15 is ignored in both (game.js:173).
  - On the empty array `checkCompletion` is vacuously true, so a click on any other slot except 11 and 14 declares victory at once: `gameStarted` becomes false and `emptyIndex` becomes -1. The model does the same, because its start board is complete (`Moves.EarlyVictory`).
  - A click on slot 11 or 14 writes `undefined` into that slot and slot 15, and the following `drawTiles` throws a `TypeError` when it reads `tiles[0].index`. The model makes a real move instead, and does not capture the `undefined` tiles or the exception.
  - A redraw before the load draws nothing, where the model would draw fifteen tiles, or sixteen after an early victory (`Render.DrawnAfterVictory`).
- `tiles[i].x` and `tiles[i].y` are written by `setupTiles` but read only by commented-out code. Each tile is reduced to its `index`.
- Game.Puzzle.IsSolvable: only the even-grid branch is written as code, because `gridSize` is the constant 4. `Solvability.Solvable` keeps both branches.
- Game.Puzzle.ResetGame: after a mid-game reset, slot 15 need not hold the blank until the new photo loads and the tiles are dealt again. So the class invariant does not promise that the blank is under `emptyIndex`; `ClickStep` and the lemmas carry that as a separate hypothesis.
- The game keeps the as-written `isSolvable()`, because the model follows the code. The intended rule is proved about separately; see Findings.
- Reachability: the model proves that the intended parity rule is necessary for a board to be won. It does not prove that the rule is sufficient, that is, that every board it accepts can be solved.

## Findings

| source | as written | input that shows it | evidently intended | confidence | as-written member | corrected member |
|---|---|---|---|---|---|---|
| game.js:136-161 | `countInversions` counts the blank (its guard compares a tile record with 15), and `isSolvable` takes the blank's row from the top, plus one. The net test is: odd (inversions without the blank + row + column). | Slots 0..12 hold tiles 0..12, then 15, 14, 13, with the blank at slot 13. Counting the blank, this board has 3 inversions, and with the blank on row 4 `isSolvable()` accepts it, but the parity rule rejects it, so no clicks ever finish it. One round from the solved board (swap slot 15 with 13, all other choices idle) deals it. The solved board itself is rejected. | Inversions among the tiles other than the blank, with the blank's row counted from the bottom: the board can be won only if (inversions + row from the top) is odd, and this is invariant under every move | not executed | Solvability.Solvable, Solvability.AsWrittenVerdict, Shuffle.AcceptedUnsolvableBoard, Shuffle.DealsUnsolvableBoard, Shuffle.DealtBoardNeverWon, Solvability.SolvedBoardRejected | Solvability.SolvableCorrected, Solvability.CorrectedVerdict, Moves.CorrectedVerdictKept, Moves.UnsolvableNeverWon |
