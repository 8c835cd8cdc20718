# the_snake — a verified model of the game state

This project models the game logic of `the_snake.py`, a small Snake game. A
snake moves on a 32 × 24 grid of 20-pixel cells over a 640 × 480 screen, with
wraparound at the edges. It grows by eating an apple and is reset when its
head runs into its own body. Only the state updates are modelled: drawing,
the window, the clock and event polling are left out.

Modules, in dependency order:

- `Wrappers` (`wrappers.dfy`): `Option` (Python's `None`) and `Result` (a raised exception).
- `Grid` (`grid.dfy`): the screen and grid constants, the four direction vectors, pixel
  positions, and `Step`, the toroidal move of the head. `Neighbour` is written
  independently on cell indices, and a lemma shows that `Step` agrees with it.
- `Food` (`food.dfy`): the two list comprehensions of `Apple.randomize_position`, the
  placement outcome `Placement` and the `Apple` class. The random indices are an
  input `choice`, with each index in the inclusive range that `random.randint`
  draws from.
- `SnakeModel` (`snake.dfy`): `Advance`, the specification function of `Snake.move`, and
  `SelfCollision`, the main loop's `head in positions[1:]`. Also the `Snake`
  class: its fields (`positions` is a `seq`), its constructor, the methods
  `UpdateDirection`, `Move` and `Reset`, and the function `HeadPosition`.
- `Input` (`input.dfy`): key events as a sequence of abstract events, the `if`/`elif`
  rule of `handle_keys` (`Accept`), the fold `Pending` over a batch, and the
  `HandleKeys` loop.
- `Game` (`game.dfy`): the fields of the snake and the apple as one value `State`,
  and on it `TickStep` (commit the direction, move, then eat or self-collide),
  `FrameStep` (read the keys first) and `Run` (the loop over a finite sequence of
  frames). The methods `Tick`, `Iteration`, `Start` and `Play` do the same on the
  `Snake` and `Apple` objects, and each is proved equal to its function.

The model follows the code where it differs from what one might expect:

- One might expect new food never to land on the snake. The code builds
  `free_positions` only to decide whether to raise `ValueError`. It then picks
  any cell with two `random.randint` calls (the_snake.py:85-87), so the apple
  may land on the snake. `Food.PlacementMayBeOccupied` shows such a case.
- There is no `grow` operation: `main` does
  `snake.length += 1` (the_snake.py:182).
- The body does not always have `length` or `length + 1` cells: it has one cell fewer than `length` right after eating, because growth
  happens by not trimming on the next move. The invariant kept by every tick
  (`TickStepPlaying`) is `length - 1 <= |positions| <= length`.

## Model

| member | source | states |
|---|---|---|
| `Grid.Opposite` | the_snake.py:12-15 | the reverse of a direction is the direction whose vector is the negated vector; it is never the direction itself |
| `Grid.CellAt` | the_snake.py:72 | the pixel corner `(grid_x * 20, grid_y * 20)` of a cell inside the grid lies inside the screen and on a cell corner |
| `Grid.CellOf` | the_snake.py:72 | every cell corner inside the screen is `CellAt` of exactly the cell obtained by dividing by 20, and that cell is in the grid |
| `Grid.Step` | the_snake.py:112-116 | the new head `((x + dx*20) % 640, (y + dy*20) % 480)` is always inside [0,640)×[0,480), whatever the old head |
| `Grid.StepIsNeighbour` | the_snake.py:112-116 | for every cell of the grid and every direction, the pixel step equals the cell-level neighbour with wraparound at both edges of both axes |
| `Grid.StepOnGrid` | the_snake.py:114-115 | a head on a cell corner inside the screen stays on a cell corner inside the screen |
| `Grid.WrapRight` | the_snake.py:114 | moving right from x = 620 lands on x = 0 in the same row |
| `Grid.WrapLeft` | the_snake.py:114 | moving left from x = 0 lands on x = 620 in the same row |
| `Grid.WrapUp` | the_snake.py:115 | moving up from y = 0 lands on y = 460 in the same column |
| `Grid.WrapDown` | the_snake.py:115 | moving down from y = 460 lands on y = 0 in the same column |
| `Food.AllPositions` | the_snake.py:71-75 | `all_positions` has 32 × 24 entries, each a cell corner inside the screen |
| `Food.IndexCell` | the_snake.py:71-75 | the cell enumerated at each index of `all_positions` lies inside the 32 × 24 grid |
| `Food.AllPositionsAt` | the_snake.py:71-75 | cell `(gx, gy)` sits at index `gx * 24 + gy`: `grid_x` is the outer loop and `grid_y` the inner one |
| `Food.AllPositionsExactly` | the_snake.py:71-75 | a position is in `all_positions` if and only if it is a cell corner inside the screen |
| `Food.AllPositionsDistinct` | the_snake.py:71-75 | no cell appears twice in `all_positions` |
| `Food.FreeOf` | the_snake.py:77-80 | the filter keeps exactly the listed positions that are not occupied, and is no longer than its input |
| `Food.FreePositions` | the_snake.py:77-80 | `free_positions` holds exactly the grid cells that are not in `occupied_position` |
| `Food.Placement` | the_snake.py:66-87 | placement fails if and only if every grid cell is occupied; otherwise the food is the chosen cell `(gx*20, gy*20)`, on the grid |
| `Food.PlacementMayBeOccupied` | the_snake.py:85-87 | with only (0,0) occupied and the choice (0,0), the food is placed on the occupied cell (0,0) |
| `Food.PlacementSucceedsWhenShort` | the_snake.py:82-83 | with fewer than 768 occupied entries, placement never raises and returns the chosen cell |
| `Food.Apple.constructor` | the_snake.py:61-64 | a new apple stands on the chosen cell, because placement with no occupied cells cannot fail |
| `Food.Apple.RandomizePosition` | the_snake.py:66-87 | the result is `Placement(occupied, choice)`; on success the apple moves to that cell, and on the error it stays where it was |
| `SnakeModel.Advance` | the_snake.py:110-118 | the new head is `Step(old head)`; the tail is removed exactly when the old body had at least `length` cells; the new body after its head, followed by the removed tail if any, is exactly the old body |
| `SnakeModel.AdvanceCount` | the_snake.py:117-118 | a move that does not trim adds exactly one cell; a move that trims keeps the number of cells |
| `SnakeModel.AdvanceKeepsLength` | the_snake.py:117-118 | a body of at most `length` cells still has at most `length` after the move, and one of exactly `length` cells keeps that size |
| `SnakeModel.AdvanceOnGrid` | the_snake.py:112-118 | a body on cell corners inside the screen stays so after the move, and so does the removed tail cell |
| `SnakeModel.SelfCollision` | the_snake.py:184 | `head in positions[1:]` holds if and only if some cell after the head equals the head |
| `SnakeModel.NoCollisionAlone` | the_snake.py:184 | a one-cell body, as after `reset`, never collides with itself |
| `SnakeModel.CommitTwice` | the_snake.py:104-108 | committing again with nothing pending leaves the direction as the first commit set it |
| `SnakeModel.Commit` | the_snake.py:104-108 | the committed direction is the current one or the pending one, the pending one whenever it is set; a pending direction that is not the reverse of the current one never yields a reversing turn |
| `SnakeModel.Snake.constructor` | the_snake.py:99-102 | a new snake remembers its spawn position and is in the reset state |
| `SnakeModel.Snake.UpdateDirection` | the_snake.py:104-108 | a pending direction becomes the committed one and is cleared; with none pending the direction is kept; if the pending direction was not a reverse, the new direction is not the reverse of the old |
| `SnakeModel.Snake.Move` | the_snake.py:110-118 | the body and `last` become those given by `Advance`; `length`, `direction`, `next_direction` and the spawn position are not modified |
| `SnakeModel.Snake.HeadPosition` | the_snake.py:135-137 | the head is one of the body's cells, and on the grid when the body is |
| `SnakeModel.Snake.Reset` | the_snake.py:139-145 | `length = 1`, body `[spawn position]`, direction RIGHT, nothing pending, `last = None`; the reset body has no self-collision |
| `Input.Accept` | the_snake.py:154-162 | a key press yields a pending direction if and only if it is an arrow key whose direction is not the reverse of the committed direction, and then it is that arrow's direction |
| `Input.Pending` | the_snake.py:150-162 | the pending direction after a batch of events, read front to back up to the first quit event, is either the old pending direction or the direction accepted for some key press of the batch |
| `Input.UntilQuit` | the_snake.py:150-153 | the events read before the quit event: a prefix of the batch with no quit in it that stops at the first quit event, and the whole batch when there is no quit |
| `Input.LastAcceptedWins` | the_snake.py:150-162 | after a batch, the pending direction is that of the last accepted arrow key before the first quit event, or the old pending direction when no key was accepted |
| `Input.PendingNeverReverse` | the_snake.py:154-162 | if the pending direction is not the reverse of the committed one, no batch of events makes it so |
| `Input.NoArrowNoChange` | the_snake.py:154-162 | a batch without arrow keys leaves the pending direction unchanged |
| `Input.HandleKeys` | the_snake.py:148-162 | reports quit exactly when the batch holds a quit event; the pending direction becomes the fold `Pending` over the batch; only `next_direction` is modified |
| `Game.TickStep` | the_snake.py:178-185 | a tick keeps the spawn position, leaves nothing pending and a non-empty body, and keeps `length` positive |
| `Game.TickStepCases` | the_snake.py:178-185 | if the moved head is on the apple, `length` grows by exactly 1, the apple is re-placed (or stays when placement raises), and there is no collision test; otherwise a head in the rest of the body resets the snake to one cell at the spawn heading right; otherwise the snake only moves and keeps its length and apple; the body and `last` are those of `Advance` with the committed direction, which is never a reversing turn when none was pending |
| `Game.TickStepFull` | the_snake.py:181-183 | placement raises during a tick only when the grown body covers every grid cell |
| `Game.TickStepPlaying` | the_snake.py:178-185 | a tick keeps the loop invariant: a non-empty body of `length - 1` to `length` cells, every cell and the apple on the grid, no reversing turn pending |
| `Game.Tick` | the_snake.py:178-185 | the outcome and the new fields of the snake and the apple are exactly `TickStep` of the old ones |
| `Game.FrameStep` | the_snake.py:174-185 | an iteration reports quit exactly when the frame's events hold a quit event, and then only the pending direction changes, to the fold `Pending` over the events; the spawn position is kept and the body stays non-empty |
| `Game.FrameStepPlaying` | the_snake.py:174-185 | handling the keys and playing the tick keep the loop invariant |
| `Game.Iteration` | the_snake.py:175-185 | the quit flag, the outcome and the new fields of the snake and the apple are exactly `FrameStep` of the old ones. It also states the cases: on quit, no tick is played (body, length, direction, `last` and the apple are unchanged, and the outcome, then `Advanced`, carries no meaning) and `next_direction` becomes the fold `Pending` over the events. Otherwise the tick moves the snake with the direction the events left pending, which is never the reverse of the old one, and leaves nothing pending. When the moved head is on the apple, the length grows by exactly 1 and the apple moves to the chosen cell (or stays when placement raises). On self-collision the snake is back at one cell at the spawn heading right, with nothing pending. Otherwise the length and the apple are unchanged. It keeps the loop invariant, and a raised placement means every grid cell is under the snake |
| `Game.Run` | the_snake.py:174-185 | the loop over the frames from tick `k` counts between 0 and all of the frames as played, and counts all of them exactly when it is still running at the end |
| `Game.RunFrame` | the_snake.py:174-185 | running from frame `k` plays frame `k` and stops there on a quit or a raised placement, and otherwise goes on from frame `k + 1` with the new state |
| `Game.RunStopsAt` | the_snake.py:174-176 | no frame before the one the loop stops at has a quit event |
| `Game.RunCrashFull` | the_snake.py:181-183 | the loop crashes only in a state whose body covers every grid cell |
| `Game.RunPlaying` | the_snake.py:174-185 | the state the loop stops in satisfies the loop invariant |
| `Game.Start` | the_snake.py:168-171 | the game starts with a one-cell snake at (320, 240) heading right, with nothing pending and `last = None`, and the apple on the second chosen cell, which is the state `StartState`; the second placement cannot raise |
| `Game.Play` | the_snake.py:165-185 | the outcome and the final fields of the snake and the apple are exactly `Run` over the frames from `StartState`. Every frame keeps `length - 1 <= len(positions) <= length` and all cells on the grid. The run stops at the first frame with a quit event, or when placement raises, which happens only with every grid cell under the snake |

## Left out

- Drawing: `GameObject.draw`, `Apple.draw`, `Snake.draw`, `screen.fill` and `pg.display.update`. These only call the external graphics library.
- Window and clock setup (`pg.display.set_mode`, `set_caption`, `pg.time.Clock`) and frame pacing with `clock.tick(SPEED)`. These are I/O and timing.
- Event polling with `pg.event.get()`: a frame's events are an input sequence. `pg.quit()` and `SystemExit` become the `quit` result of `HandleKeys` and the `Quit` outcome of `Play`.
- `random.randint`: its two results are the `choice` cell passed in, with 0 ≤ gx ≤ 31 and 0 ≤ gy ≤ 23.
- The colour constants, and `Apple.__init__` passing the colour as the position. `randomize_position` overwrites that position at once, and only drawing could notice it.
- The default `occupied_position=None`: callers pass the empty sequence instead, as `Apple()` does.
- Game.Play: runs `main`'s endless `while running` loop only over a finite sequence of frames, as `Game.Run` does on values.
