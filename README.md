# Little Snake for the Calliope mini: a Dafny model of the game state

This project models the game logic of a snake game for a 5x5 LED display with
two buttons (`main.ts`). The snake moves one cell per tick on a torus. Its
tail follows the head. It crashes when the head lands on the tail. Eating the
mushroom grows the snake, adds one point and shortens the tick interval. The
next mushroom is placed at random off the snake. Button A turns left, B turns
right, and A+B restarts a finished game.

Layout, one module per component:

- `Wrappers.dfy`: `Option`, used for the sprites that may be null (head, mushroom).
- `Heading.dfy`: headings in degrees and the two turns, with TypeScript's truncating `% 360`.
- `Grid.dfy`: `Cell` and `NextPosition` (`computeNextPosition`), with the wrap-around laws.
- `Speed.dfy`: the tick-interval ramp and its closed form after `n` mushrooms.
- `Snake.dfy`: the body as values: shift, growth and collision, with their lemmas.
- `Placement.dfy`: the rejection loop of `setMushroom`, `FirstFreeDraw` (its specification), and a pigeonhole lemma that a free cell exists.
- `Game.dfy`: class `Game`. Its fields are the program's module-level variables. Its methods are the state updates of `moveSnake`, `growTailByOne`, `eatMushroomAndGrowSnake`, `setMushroom`, `startGame`, `clearAllSprites`, the button handlers and one pass of the main loop.

Modelling decisions:

- The tail is a `seq<Cell>` field that the methods reassign. The source keeps a JavaScript array of sprites and calls `push` on it, which a fixed-size Dafny array cannot do. `ShiftTail` runs the source's descending loop on that sequence, one index at a time.
- The random source is a parameter. The caller passes `draws`, the sequence of cells that the `randint(0, 4)` pairs would produce. Each draw is in the grid (`DrawsInGrid`). Rejection sampling accepts the first draw that is off the snake (`FirstFreeDraw`).
- The source loops forever when no draw is ever free. Every operation that places a mushroom therefore requires that some draw is free (`HasFreeDraw`). `FreeCellExists` shows that such a cell exists while the snake has at most 24 cells.
- The head is an `Option<Cell>` because `snakeHead` starts out null and `moveSnake` returns early without one.
- Numbers are unbounded integers. The values stay small: coordinates lie in 0..4, headings in 0..270, intervals in 150..900.
- `Game.Valid()` is the invariant kept by the constructor, `StartGame`, `MoveSnake`, `PressA`, `PressB`, `PressAB` and `Tick`; the smaller steps inside them (`ClearAllSprites`, `SetMushroom`, `GrowTailByOne`, `EatMushroomAndGrowSnake`, `ShiftTail`) are specified field by field instead. Every sprite is on the grid. The mushroom is off the snake. The interval equals `SpeedAfter(score)`. The heading is one of the four canonical values. A crash implies the game is not running, and a running game has a head.

Ordering and termination in the program:

- `startGame` shows its countdown before it places the mushroom (main.ts:177-185). The model places the mushroom as part of the same state update.
- `moveSnake` checks for eating before it handles game over (main.ts:129-137). Still, a tick never both crashes and eats. The mushroom is off the snake, and after the shift the tail lies inside the old body (`Snake.NoCrashIntoOpenCell` applied to the mushroom's cell).
- The placement loop has no cap. Every placement therefore requires `HasFreeDraw`.

## Model

| member | source | states |
|---|---|---|
| `Heading.JsRem360` | main.ts:158 | TypeScript's `% 360`: in [0, 360) for a non-negative dividend, in (-360, 0] for a negative one, and differing from the dividend by a multiple of 360, which fixes the value |
| `Heading.TurnLeft` | main.ts:158 | button A maps each canonical heading to the one 90 degrees to the left (0 to 270, otherwise minus 90), staying canonical |
| `Heading.TurnRight` | main.ts:161 | button B maps each canonical heading to the one 90 degrees to the right (270 to 0, otherwise plus 90), staying canonical |
| `Heading.Opposite` | main.ts:157-162 | two right turns give the canonical heading 180 degrees away, (d + 180) mod 360, which differs from d |
| `Heading.LeftThenRight` | main.ts:157-162 | an A turn followed by a B turn restores any heading in [0, 360) |
| `Heading.RightThenLeft` | main.ts:157-162 | a B turn followed by an A turn restores any heading in [0, 360) |
| `Heading.FourTurnsRestore` | main.ts:157-162 | four turns in one direction restore a canonical heading |
| `Grid.Wrap` | main.ts:93-96 | a wrapped coordinate is always in 0..4; in-range values are kept, -1 becomes 4 and 5 becomes 0 |
| `Grid.NextPosition` | main.ts:87-98 | the next position is always on the grid for any input, and a heading outside {0, 90, 180, 270} leaves an on-grid cell unchanged |
| `Grid.NextPositionIsTorusStep` | main.ts:87-98 | on the grid, a step equals the independent definition: displacement of the heading taken modulo 5 on each axis |
| `Grid.ExactlyOneAxisMoves` | main.ts:88-92 | in a canonical heading exactly one coordinate changes, x for 90/270 and y for 0/180 |
| `Grid.WrapLaws` | main.ts:93-96 | (0,y) left gives (4,y), (4,y) right gives (0,y), (x,0) up gives (x,4), (x,4) down gives (x,0) |
| `Grid.StepThenOppositeStep` | main.ts:87-98 | a step followed by a step in the opposite heading returns to the starting cell |
| `Speed.Ramped` | main.ts:81 | one ramp is the larger of 150 and the old value minus 75: at least both, and equal to one of them; so it never increases an interval at or above 150 and strictly shortens one above 150 |
| `Speed.SpeedAfter` | main.ts:19-21 | the closed form max(150, 900 - 75n) lies between 150 and 900 |
| `Speed.RampedTimesClosedForm` | main.ts:81 | from any interval s >= 150, n ramps give max(150, s - 75n) |
| `Speed.SpeedAfterEats` | main.ts:76-84 | from 900, the interval after n mushrooms is max(150, 900 - 75n) |
| `Speed.RampStep` | main.ts:79-81 | eating one more mushroom moves the closed form from n to n + 1, so score and interval stay in step |
| `Speed.SpeedAfterMonotone` | main.ts:79-82 | the interval is non-increasing in the score, above the floor for fewer than 10 mushrooms and at it from 10 on |
| `Snake.Shifted` | main.ts:109-116 | the shifted tail keeps its length; segment 0 takes the old head and segment i takes old segment i-1 |
| `Snake.GrowthCell` | main.ts:64-71 | the new segment's cell is occupied by the snake, and is a tail cell whenever the tail is non-empty |
| `Snake.Grown` | main.ts:62-73 | growing adds exactly one segment and leaves every existing segment unchanged; the new one is stacked on the last segment, or on the head when the tail was empty |
| `Snake.BodyAfterShift` | main.ts:109-120 | after a move the body is the new head followed by the old body without its last cell |
| `Snake.ShiftedWithinBody` | main.ts:109-116 | every shifted tail cell was occupied by the snake before the move |
| `Snake.CrashIffOntoPriorBody` | main.ts:110-126 | a move collides exactly when the new head is the old head or a tail cell other than the last |
| `Snake.NoCrashIntoOpenCell` | main.ts:122-126 | moving into a cell the snake does not occupy never collides |
| `Snake.ReversalIntoNeckCrashes` | main.ts:110-126 | with two or more tail segments, stepping onto the neck collides |
| `Snake.SingleSegmentReversalSurvives` | main.ts:110-126 | with exactly one tail segment, stepping onto it swaps head and neck and does not collide |
| `Snake.GrowKeepsOccupiedCells` | main.ts:72 | growing leaves the set of occupied cells unchanged |
| `Snake.GrowThenShift` | main.ts:110-115 | after growing, the next shift leaves the whole previous body as the tail, so the stacked segment separates |
| `Placement.FirstFreeDraw` | main.ts:46-55 | the draw rejection sampling accepts is one of the draws and is neither the head nor any tail cell |
| `Placement.FirstFreeDrawAt` | main.ts:46-55 | when draws 0..n-1 are occupied and draw n is free, draw n is the one accepted |
| `Placement.FirstFreeDrawInGrid` | main.ts:47-48 | the accepted draw is on the grid when every draw is |
| `Placement.PickFreeCell` | main.ts:45-55 | the selection loop returns draw number `rejected`; that draw is free, every earlier draw is occupied, and it equals `FirstFreeDraw` |
| `Placement.FreeCellExists` | main.ts:44-57 | a snake of at most 24 cells leaves some grid cell free, so the loop has something to accept |
| `Game.Game.constructor` | main.ts:18-31 | the initial values of the module-level variables: no sprites, interval 900, score 0, not crashed, not running, heading 90 |
| `Game.Game.ClearAllSprites` | main.ts:34-41 | the head, the tail and the mushroom are cleared |
| `Game.Game.SetMushroom` | main.ts:44-59 | the mushroom becomes the first free draw, on the grid and off the head and every tail cell |
| `Game.Game.GrowTailByOne` | main.ts:62-73 | the tail becomes the grown tail and nothing else changes |
| `Game.Game.EatMushroomAndGrowSnake` | main.ts:76-84 | the tail grows by one, the score rises by exactly one, the interval ramps, and a new mushroom is placed off the grown snake |
| `Game.Game.ShiftTail` | main.ts:109-116 | the in-place descending loop leaves exactly the shifted tail |
| `Game.Game.HitsTail` | main.ts:123-126 | the scan reports a hit exactly when the cell equals some tail cell |
| `Game.Game.MoveSnake` | main.ts:101-138 | without a head nothing changes; otherwise `Moved`: the head steps, the tail shifts, crash becomes old crash or a collision (never cleared), the mushroom is eaten exactly when it is the new head (then grow, score, ramp and respawn, with no crash), running drops after a crash, and the invariant is kept |
| `Game.Game.PressA` | main.ts:157-159 | the heading turns left only while running and otherwise stays; the invariant is kept |
| `Game.Game.PressB` | main.ts:160-162 | the heading turns right only while running and otherwise stays; the invariant is kept |
| `Game.Game.StartGame` | main.ts:168-186 | from any previous state: interval 900, score 0, not crashed, running, heading 90, head at (2,2), empty tail, and a mushroom off the head |
| `Game.Game.PressAB` | main.ts:163-165 | a restart exactly when the game is not running; otherwise nothing changes, and no candidates are needed |
| `Game.Game.Tick` | main.ts:189-196 | a pass of the main loop changes nothing when not running (or, as in `moveSnake`'s early return, without a head), and otherwise makes exactly the move `Moved` of `MoveSnake`, keeping the invariant; candidates are needed only when it may eat |

## Left out

- Sprites: `game.createSprite`, `delete` and the mushroom's blink setting are display plumbing. Sprites are plain `Cell` values here.
- Tones, melodies and text: `music.playTone`, `music.startMelody`, `basic.showNumber` and `basic.showString` are not modelled. This includes the countdown in `startGame` and the game-over screen.
- Timing and scheduling are not modelled: `basic.pause`, the `basic.forever` loop itself (only one pass is modelled, as `Tick`), and the background poll that waits for A+B after a crash (main.ts:147-152). That poll makes the same transition as `StartGame`.
- Interleavings of button callbacks with the main loop are not modelled. Neither are ticks that run during `startGame`'s countdown, before the mushroom is placed. Each handler is one atomic state update.
- Randomness: `randint`, `Math.random` and the `seedVal` set-up (main.ts:199-200) are replaced by the caller's sequence of draws.
- The power-up call of `startGame` (main.ts:203) is left to the caller: construct a `Game`, then call `StartGame`.
- Full board: `setMushroom` does not terminate when no draw is ever free. Every placement requires `HasFreeDraw` instead.
