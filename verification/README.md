# Snake: a verified model of the game core

This project models the core of a small terminal snake game written in Rust:

- **Snake** (`player.dfy`, from `src/player.rs`): the snake's body is an ordered sequence of grid cells with the head at the front. It also carries a heading (`Up`, `Down`, `Left`, `Right`) and a one-shot growth flag. The module covers moving, the four guarded turns, the out-of-bounds and self-collision tests, cell membership, and eating.
- **Game** (`game.dfy`, from `src/game.rs`): one pass through the body of the game loop, written as a pure function `Step(state, key, choice)`. The pass runs in this order:
  1. the top-of-loop `running` test;
  2. input handling;
  3. the move;
  4. the round-ending test;
  5. eating the apple;
  6. respawning the apple on a free cell.

  `key` is the key the input controller has latched. `choice` is the index the random generator would pick among the free cells.
- **Render** (`renderer.dfy`, from `src/renderer.rs`): the layout arithmetic of the terminal renderer (scale factor, grid extent, paddings) and the frame-buffer edits `clear`, `put_char`, `draw_text` and `draw_padding`. The frame buffer is a `seq<seq<char>>`. The terminal size is a parameter.
- **Wrappers** (`wrappers.dfy`): the `Option` type used for the apple.

Behaviour of the code worth knowing:
- **Quit:** a `Quit` key read during a tick does not cut that tick short. The player still moves and the apple is still handled. The loop stops at the next top-of-loop test (`Game.QuitStillMoves`, `Game.QuitHaltsNextTick`).
- **Self-collision:** `collides_with_self` compares only the head with the later segments. Two later segments on the same cell do not count (`Snake.TailOverlapIsNotSelfCollision`). The two readings agree on every body whose segments behind the head are distinct (`Snake.SelfCollisionIffOverlap`), and the game keeps that invariant (`Game.StepPreservesGood`).
- **`put_char`:** it does not clamp or scale. It indexes the buffer directly, so its precondition is that the cell exists.
- **`draw_text`:** it is a no-op.
- **Scale factor:** there is no doubled horizontal scale; the scale factor is the same on both axes.
- **Integer division:** Rust's `/` on `i32` rounds toward zero. `Render.TruncDiv` models that, so a negative grid size is handled as the code handles it. A grid size of zero makes the code divide by zero, and is excluded by a precondition.

## Model

| member | source | states |
|---|---|---|
| Snake.NewPlayer | src/player.rs:20-26 | the start body is (5,1),(4,1),(3,1),(2,1),(1,1) heading Right with no meal pending; it is an unbroken, non-overlapping chain of five cells whose only neighbour of the head inside the body lies opposite the heading |
| Snake.Move | src/player.rs:34-50 | an empty body is left alone; otherwise the new head is the old head plus the heading's unit offset, the heading is kept, and the flag ends cleared; without a pending meal the old body is the new tail plus the dropped last cell (length kept), with one the new tail is the whole old body (length + 1) |
| Snake.Turn | src/player.rs:113-115 | sets the heading to the requested one, whatever it was, and leaves body and flag untouched |
| Snake.TurnUp | src/player.rs:52-56 | heading becomes Up unless it is the opposite of Up; body and flag untouched |
| Snake.TurnDown | src/player.rs:58-62 | heading becomes Down unless it is the opposite of Down; body and flag untouched |
| Snake.TurnLeft | src/player.rs:64-68 | heading becomes Left unless it is the opposite of Left; body and flag untouched |
| Snake.TurnRight | src/player.rs:70-74 | heading becomes Right unless it is the opposite of Right; body and flag untouched |
| Snake.NoTurnReverses | src/player.rs:52-74 | for every requested turn the resulting heading is never the opposite of the current one, and body and flag are unchanged |
| Snake.TurnNoOpIff | src/player.rs:52-74 | a turn leaves the player unchanged exactly when it asks for the current heading or its opposite |
| Snake.OutOfBounds | src/player.rs:76-83 | true iff the body is non-empty and the head lies outside [0,g) x [0,g) |
| Snake.Contains | src/player.rs:101-106 | the front-to-back coordinate scan finds a cell exactly when the cell is in the sequence |
| Snake.CollidesWithSelf | src/player.rs:85-94 | true iff the body is non-empty and the head equals a segment at some index of at least 1 |
| Snake.Collides | src/player.rs:100-107 | true iff (x, y) is one of the body's cells |
| Snake.Eat | src/player.rs:109-111 | sets the growth flag and leaves body and heading unchanged |
| Snake.MoveStepsToNeighbour | src/player.rs:36-42 | the new head shares an edge with the old head and differs from it |
| Snake.MovePreservesConnected | src/player.rs:34-50 | a body whose consecutive cells share edges keeps that shape after a move |
| Snake.MovePreservesDistinct | src/player.rs:34-50 | a non-overlapping body stays non-overlapping after a move whose head does not hit the body |
| Snake.SelfCollisionIffOverlap | src/player.rs:85-94 | when the cells behind the head are distinct, the head-only test holds exactly when some two segments overlap |
| Snake.TailOverlapIsNotSelfCollision | src/player.rs:85-94 | the body (0,0),(1,0),(1,0) overlaps but is not reported as self-colliding |
| Snake.FirstMoveFromStart | src/player.rs:20-50 | one move from the start gives (6,1)..(2,1); eating first gives six cells (6,1)..(1,1); a Left turn from the start is ignored and the head still goes to (6,1) |
| Game.NewGame | src/game.rs:24-33 | a new game is running, has score 0, no apple, the given grid size and the start player |
| Game.HandleInput | src/game.rs:67-82 | Quit clears running and turns nothing; any other key keeps running and the body and applies the guarded turn toward the key's heading; the heading never becomes the reverse of the old one; apple, score and grid size are untouched |
| Game.Column | src/game.rs:88-89 | the inner range yields exactly the cells (x, y') with y <= y' < g |
| Game.Columns | src/game.rs:88-89 | the flattened ranges yield exactly the cells with x' in [x, g) and y in [0, g) |
| Game.ColumnsLength | src/game.rs:88-89 | the grid scan has (g - x) * g cells |
| Game.Unoccupied | src/game.rs:86-91 | the filter keeps exactly the scanned cells that are not occupied, and never lengthens the list |
| Game.FreeCells | src/game.rs:86-91 | a cell is free exactly when it lies in [0,g) x [0,g) and is not in the body |
| Game.FullGridHasNoFreeCell | src/game.rs:93-95 | when every grid cell is under the body there is no free cell, so the apple is not placed |
| Game.FullBodyHasNoFreeCell | src/game.rs:84-95 | a body of g*g distinct in-grid cells leaves no free cell |
| Game.SpawnApple | src/game.rs:84-95 | with a free cell, the apple is placed on the free cell the choice indexes, which is inside the grid and off the body; with none, the apple is left as it was; nothing else changes |
| Game.EatApple | src/game.rs:50-53 | an apple under the body is cleared and growth scheduled; otherwise the state is returned unchanged; body and heading are never changed |
| Game.Step | src/game.rs:37-63 | a tick halts with no change exactly when running was already false; the score and grid size never change; a tick ends the round only when the moved player is out of bounds or self-colliding, and goes on only when it is neither |
| Game.StepTurnsThenMoves | src/game.rs:44-57 | a tick past the top of the loop leaves the player with the heading input handling gave it and the body of that turned player after one move, with `running` as input handling left it; a continuing tick whose moved body is not on the apple leaves the player exactly as the move made it (no growth scheduled), keeps an existing apple where it was, and with no apple places one on the chosen free cell, or none if no cell is free |
| Game.QuitStillMoves | src/game.rs:44-58 | a running tick that reads Quit still moves the player along its unchanged heading, does not halt, and leaves running false |
| Game.QuitHaltsNextTick | src/game.rs:38-40 | the tick after a Quit tick stops at the top of the loop and changes nothing, whatever its key |
| Game.EndBeforeApple | src/game.rs:45-53 | a round-ending tick returns the moved state: the apple is untouched and no meal is scheduled |
| Game.EatingRespawns | src/game.rs:50-57 | an apple under the moved body schedules growth, and the same tick puts a new apple on the chosen free cell, or none if there is none |
| Game.AppleOffBody | src/game.rs:50-57 | after a tick that goes on, the apple is never on the body, and it is absent only when there is no free cell |
| Game.NewGameGood | src/game.rs:24-33 | on a grid of side at least 6 the new game's body is non-empty, unbroken, non-overlapping and inside the grid |
| Game.SmallGridEndsAtOnce | src/game.rs:45-48 | on a grid of side at most 6, the first tick with any key but Up or Down ends the round |
| Game.StepPreservesGood | src/game.rs:44-58 | every tick that goes on keeps the body non-empty, unbroken, non-overlapping and in the grid, and the apple in the grid and off the body |
| Render.TruncDiv | src/renderer.rs:34-39 | on a non-negative dividend the quotient is the floor quotient for a positive divisor and its negation for a negative one |
| Render.New | src/renderer.rs:29-57 | scale = min(w, h) / g rounded toward zero (the floor quotient for g > 0; for g < 0, minus the floor quotient by -g), grid extent = g * scale = abs(g) * abs(scale), the largest such multiple not above min(w, h); padding + grid + padding = extent on both axes; left <= right <= left + 1 and top <= bottom <= top + 1, all non-negative; the buffer is height rows of width spaces |
| Render.GridFits | src/renderer.rs:34-36 | g times the truncated quotient of min(w, h) by g is non-negative, at most min(w, h), and within abs(g) of it |
| Render.Blank | src/renderer.rs:42 | exactly height rows, each of exactly width spaces |
| Render.Clear | src/renderer.rs:93-99 | every cell becomes a space, the shape of every row is kept, and the layout fields are unchanged |
| Render.PutChar | src/renderer.rs:101-103 | requires the cell to exist; sets that cell and leaves every other cell and the buffer shape unchanged |
| Render.DrawText | src/renderer.rs:105 | the renderer is unchanged |
| Render.FillRow | src/renderer.rs:61-63 | cells x0 <= x < x1 of the row get the glyph and all others keep their value |
| Render.FillRect | src/renderer.rs:60-64 | cells in rows [y0, y1) and columns [x0, x1) get the glyph, all others keep their value, and the shape is kept |
| Render.DrawPadding | src/renderer.rs:59-83 | the four loop nests give exactly the reference padded buffer: a cell becomes the block glyph iff y < top, y >= height - bottom, x < left or x >= width - right; every other cell is unchanged |
| Render.ClearRestoresBlank | src/renderer.rs:93-99 | clearing a well-formed renderer gives back the buffer it was built with |
| Render.ClearKeepsWellFormed | src/renderer.rs:93-99 | clearing keeps the buffer height x width and the paddings inside it |
| Render.PutCharKeepsWellFormed | src/renderer.rs:101-103 | writing one cell keeps the buffer height x width and the paddings inside it |
| Render.PaddingIdempotent | src/renderer.rs:59-83 | padding an already padded buffer changes nothing |
| Render.PaddingFramesField | src/renderer.rs:34-40 | on a fresh renderer, a cell is not padding exactly when it lies in the centred gridW x gridH field |
| Render.FreshFrame | src/renderer.rs:59-99 | a cleared and padded fresh frame holds spaces on the field and the block glyph everywhere else |

## Left out

- Terminal output: `present`, cursor `Hide`/`Show`, `Drop` and `crossterm::terminal::size()` (src/renderer.rs:30, 43, 86-90, 107-119) are terminal I/O. The terminal width and height are parameters of `Render.New`.
- Frame pacing: the 200 ms frame pacing with `Instant` and `sleep` (src/game.rs:21, 42, 60-63) is wall-clock behaviour with no logical content.
- Random choice: `rand::rng()` and `random_range` (src/game.rs:85, 94) are replaced by the caller-supplied `choice`. It must index a free cell whenever there is one; `choice == 0` always qualifies.
- Whole loop: `Game::run` as a loop over many ticks is not written as one function. `Step` models one pass through the loop body, and `QuitHaltsNextTick` and `StepPreservesGood` relate consecutive passes. The `self.running = true` at src/game.rs:36 is covered by `NewGame` starting with `running` set.
- Drawing: `Game::render`, `draw_score`, `draw_apple` and `Player::draw` (src/game.rs:98-114, src/player.rs:28-32) only forward to the renderer.
- `Player::body` (src/player.rs:96-98) is a read accessor; it is the `body` field of the datatype.
- Input controller: src/controller.rs polls crossterm for events, which is I/O. Its latched key is the abstract `Key` argument of `Step`.
- Process setup: src/main.rs does raw-mode setup and teardown, and fixes the grid size at 18.
- Snake.Move: coordinates are unbounded integers, not `i32`. Overflow would need about 2^31 moves in one direction, and in the game a head outside the grid ends the round at once.
- Render.New: the terminal extent is any non-negative integer rather than a `u16`, which is at most 65535; nothing in the arithmetic depends on that bound. It also requires a non-zero grid size, because the source divides by the grid size and panics on zero.
