# Snake game state machine

A Dafny model of the gameplay core of canvas-snek, a browser snake game
(`src/index.js`). The game keeps the snake's body inside the play area itself:
the play area is an x-by-y grid whose cells hold `0` when empty, and otherwise a
vector. Every body cell but the head holds the offset to the next segment toward
the head. The head cell holds the head's own position, which only marks the cell
as occupied. Each animation frame may latch a turn. When enough time has passed
it moves the head one cell, which either ends the game on a collision or extends
the head and then shrinks the tail or uses up one pending growth segment. It then
places a fruit on a random empty cell if there is none, and eats the fruit if the
head is on it.

Modules:

- `Options` (`options.dfy`): `Option`, which stands for JavaScript's `null` and
  `undefined`.
- `Vectors` (`vectors.dfy`): the integer `Vector` with `Add`, `Subtract`, `Eq`
  and `Negate`; the four directions `RIGHT`, `DOWN`, `LEFT` and `UP`; and the
  rule `ValidDirectionChange`.
- `PlayArea` (`play_area.dfy`): the grid as an `array2<Cell>` indexed
  `g[x, y]`. It holds `MakePlayArea`, the bounds check, the in-place updates
  `ExtendHead` and `ShrinkTail`, and fruit placement (`GenerateFruit`).
- `Snek` (`snek.dfy`): the class `Game`, holding the closure state of the game
  (`playing`, `growBy`, `turning`, `direction`, `gridSpeed`, `fruitLoc`, `head`,
  `tail`, `playArea`). `Tick` is one frame without the drawing. `Snapshot` is
  the walk that draws the snake.

`Game` carries a ghost sequence `Body` that lists the body cells from tail to
head. The constructor establishes the invariant `Valid()`, and `Tick` keeps it.
The internal steps `ExtendBody`, `ShrinkBody`, `Advance` and `Step` keep its
part `ValidBody()`, which is everything below but the fruit clause. `Feed`
restores the fruit clause. `LatchTurn` keeps `direction` one of the four
directions.
`Valid()` says:

- `Body` starts at `tail` and ends at `head`, and no cell repeats.
- Each body cell but the head holds the offset to its successor, and that offset
  is one of the four directions.
- The head cell holds the head's position.
- The non-zero cells are exactly the body cells.
- `direction` is one of the four directions, and `gridSpeed` is positive.
- A fruit, when there is one, lies on an empty cell.

Inputs that the game reads from its environment are parameters:

- `keyPressed` and `requested` stand for the key state.
- `stepDue` stands for the test `timePassed > gridSpeed`.
- `pick` stands for the random draw: the fruit is the empty cell at index
  `pick % n` of the `n` empty cells, listed row by row. The scan lists each
  empty cell once, so every `pick` below `n` selects a different cell. Every
  index that `Math.floor(Math.random() * n)` can produce is covered.

Facts about the code that the model keeps:

- Links point from the tail toward the head.
- The head cell holds the head's own position.
- Eating a fruit sets `growBy` to 5.
- A frame returns no value.
- With no empty cell left, `generateFruit` throws. `Tick` reports this as
  `crashed`, and the rest of that frame does not run.

## Model

| member | source | states |
|---|---|---|
| `Vectors.Vector.Subtract` | src/index.js:24-26 | adding the difference back to `other` gives this vector again (the partner of `add`, lines 20-22) |
| `Vectors.Vector.Eq` | src/index.js:32-34 | `eq` is exactly structural equality of the two vectors |
| `Vectors.NegateIsInverse` | src/index.js:36-38 | `negate` gives the additive inverse, undoes itself, and changes every non-zero vector |
| `Vectors.AddSubtractRoundTrip` | src/index.js:20-26 | `a.add(b).subtract(a) == b` and `a.add(b.subtract(a)) == b` |
| `Vectors.ValidDirectionChange` | src/index.js:70-80 | `validDirectionChange` with `sameDirection` and `oppositeDirection`: between two of the four directions, a change is valid exactly when one is horizontal and the other vertical |
| `Vectors.RepeatAndReverseRefused` | src/index.js:70-80 | for every vector, keeping it or reversing it is never a valid change |
| `Vectors.ValidChangeTurns` | src/index.js:70-80 | an accepted change never repeats or reverses the direction and swaps horizontal for vertical |
| `PlayArea.OutOfBounds` | src/index.js:142-144 | `outOfBounds` holds exactly when the position lies outside `[0, width) x [0, height)` |
| `PlayArea.MakePlayArea` | src/index.js:58-68 | a fresh grid with `w` rows (outer index x) of `h` cells, every cell 0 |
| `PlayArea.ExtendHead` | src/index.js:131-134 | the new head cell holds its own position; the old head cell holds `newPos - head`, so following it from `head` reaches `newPos`; no other cell changes |
| `PlayArea.ShrinkTail` | src/index.js:136-140 | returns `tail` plus the tail cell's link, clears only the tail cell |
| `PlayArea.PickFrom` | src/index.js:155-156 | the draw yields an element of the candidate list, and nothing exactly when the list is empty |
| `PlayArea.EmptyCellsExact` | src/index.js:147-154 | the row-by-row scan lists exactly the in-bounds cells equal to 0 |
| `PlayArea.GenerateFruit` | src/index.js:146-157 | the nested loops collect the empty cells in scan order; the result lies on an empty cell, and there is none exactly when no cell is 0 |
| `PlayArea.EveryElementCanBePicked` | src/index.js:155 | the draw over a candidate list can select each of its elements |
| `PlayArea.EveryEmptyCellCanBePicked` | src/index.js:155 | every empty cell is the outcome of some draw |
| `PlayArea.DrawsBelowCountDiffer` | src/index.js:146-156 | two different draws below the number of empty cells place the fruit on two different cells, because the scan lists the empty cells in strict row-by-row order |
| `PlayArea.SingleEmptyCellIsPicked` | src/index.js:146-157 | with exactly one empty cell, every draw places the fruit there |
| `Snek.DistinctCardinality` | src/index.js:185-192 | a body without repeated cells has as many distinct cells as it is long |
| `Snek.Game.constructor` | src/index.js:87-111 | a fresh play area with the one-cell snake at (10, 4), heading down (0, 1), `growBy` 3, speed 150, no fruit, playing; the invariant holds |
| `Snek.Game.ExtendBody` | src/index.js:269-270 | the head moves onto an empty neighbour cell, the body gains that cell, the invariant is kept, and no other cell changes between empty and occupied |
| `Snek.Game.ShrinkBody` | src/index.js:273-275 | the tail moves to the second body cell, the body loses its first cell, and the invariant is kept; because the body has two cells here, the tail read is a link and never the head marker |
| `Snek.Game.Advance` | src/index.js:268-278 | a successful step: the head advances, `turning` resets, and then either the tail follows (`growBy` 0) or `growBy` drops by one and the body grows |
| `Snek.Game.LatchTurn` | src/index.js:255-261 | the direction changes only when no turn is pending, a key is held and the change is valid; an accepted change sets `turning` |
| `Snek.Game.Step` | src/index.js:263-279 | when a step is due, a target that is out of bounds or a body cell (the tail included) ends the game with head, tail, body and grid unchanged; otherwise the head advances |
| `Snek.Game.Feed` | src/index.js:281-290 | with no fruit, the drawn empty cell becomes the fruit, or the frame crashes when none is left; a fruit under the head is eaten: `growBy` becomes 5, the fruit is cleared, the speed interval shrinks by 1% |
| `Snek.Game.Tick` | src/index.js:246-290 | one frame: the invariant is kept; a finished game changes nothing; the turn latch, collision, advance with growth or shrink, and fruit placement and eating, as stated case by case in terms of the state before the frame |
| `Snek.Game.Snapshot` | src/index.js:185-192 | following the links from the tail to the head visits exactly the body, in order: first the tail, last the head, no repeats, every non-zero cell once |
| `Snek.Game.OccupiedCountIsLength` | src/index.js:185-192 | the number of non-zero cells equals the length of the body |

## Left out

- Drawing is not modelled: `drawSnekPart`, `horizontalLine`, `verticalLine`,
  `renderLines`, `renderFruit` and `renderYouSuck` (src/index.js:161-243).
  `Snapshot` returns the cells that `drawSnek` would draw.
- The DOM and keyboard wiring is not modelled: `getElementById`,
  `makeKeyHandler` and `addEventListener`. The key state is a parameter. The
  handler only ever requests one of the four directions, which is why `Tick`
  requires `IsDirection(requested)` when a key is held.
- Timing is not modelled: `window.performance.now`, `lastUpdate` and
  `requestAnimationFrame`. Whether a step is due is the `stepDue` parameter.
  After a crashed frame the JavaScript loop is not rescheduled; here the caller
  decides to stop.
- `Math.random` is not modelled; the draw is the `pick` parameter.
- `gridSpeed` is a real number, shrunk exactly by 1% on each fruit. Floating
  point rounding is not modelled.
- `magnitude`, `normalize`, `div`, `toString` and `console.log` are not used by
  the gameplay and are not modelled. `needsFruit` is written but never read, so
  it is not modelled either.
- The play area's size is a pair of naturals. The canvas size divided by the
  block size is not modelled, nor the non-integer sizes it could give.
- The constructor requires a play area larger than the start cell (10, 4).
  With 10 or fewer columns, src/index.js:111 throws a TypeError, because
  `playArea[10]` is `undefined`. With 4 or fewer rows, it writes past the end of
  column 10, which the JavaScript array silently grows to hold.
