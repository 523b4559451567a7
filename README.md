# cgol-rs in Dafny

A model of cgol-rs: Conway's Game of Life on a fixed 32 × 32 world with no
wrap-around, plus the interactive session that drives it. The model has
three modules.

- **Engine** (`engine.dfy`) is the rule, the neighbour count and the generation step.
  - The world is an `array2<bool>` indexed `[row, column]`, the same as the
    source's `world[y][x]`. Its value is a `Grid` (`seq<seq<bool>>`).
  - `NextCell` is the B3/S23 rule.
  - `Count` is the specification of the neighbour count: the number of live
    cells among the eight Moore neighbours that lie inside the world. It is
    defined as the size of a set. Lemmas prove it equal to the sum, over the
    eight offsets in the source's order, of a bounds-guarded lookup.
  - The method `NeighborCount` performs the source's eight guarded lookups and
    is proved to return `Count`.
  - The method `NextState` works the way the source does. It fills a separate
    buffer with nested `while` loops, reads only the unmodified world, and
    copies the buffer back. The inner loop is the method `NextRow`. It is proved to leave exactly `Step` of the old
    world, so the update is synchronous.
- **Fixtures** (`fixtures.dfy`) covers the unit tests' world: a 2 × 2 block at
  rows and columns 1–2. It holds the values the tests pin down, proved for
  the model:
  - the rule table;
  - seven neighbour counts;
  - the block is a still life.
- **Shell** (`shell.dfy`) covers the session loop.
  - A `SessionState` holds the world, the pause flag, the step speed (frames
    per generation), the generation counter `step` and the frame counter
    `cycles`.
  - `Apply` gives the effect of one event:
    - a left or right button release sets or clears the cell under the pointer;
    - S steps once;
    - Space toggles the pause;
    - Up and Down change the speed, and Down never takes it below 1;
    - R resets the session.
  - `TickState` is the end of a frame. The world advances when the session is
    not paused and `cycles % stepSpeed == 0`, and `cycles` then goes up by one
    either way.
  - `RunEvents`, `Frame` and `RunFrames` run the events of a frame up to a
    Quit, and then the main loop.
  - The class `Session` keeps the world in place. Each of its methods is proved
    to move its state exactly as these functions say.

## Model

| member | source | states |
|---|---|---|
| Engine.NextCell | src/main.rs:19-25 | the next state is alive iff the count is 2 or 3 for a live cell, or exactly 3 for a dead one |
| Engine.NextCellOnlyTwoOrThree | src/main.rs:19-25 | only counts 2 and 3 give a live cell; 3 always does; 2 does exactly when the cell is alive |
| Engine.BoundCheckAtEdge | src/main.rs:28-30 | for an in-world centre, the bounds test (0 ≤ x < length and 0 ≤ y < length) turns a neighbour away iff it lies one step beyond an edge: no lookup wraps around, and every lookup it lets through is in range |
| Engine.Count | src/main.rs:33-76 | the number of live in-world Moore neighbours, which is at most 8 |
| Engine.CountIsOffsetSum | src/main.rs:33-76 | the size of the set of live in-world neighbours equals the sum of the bounds-guarded lookups over the eight offsets |
| Engine.CountUnrolled | src/main.rs:33-76 | Count is the eight guarded lookups added in the source's order |
| Engine.CountIgnoresSelf | src/main.rs:33-76 | changing the cell itself never changes its own count: the count never includes the centre |
| Engine.CountAtCorner | src/main.rs:33-76 | a corner cell has a count of at most 3 |
| Engine.QuietNeighbourhood | src/main.rs:33-76 | a cell whose in-world neighbours are all dead has a count of 0, whether the cell itself is alive or dead |
| Engine.NeighborCount | src/main.rs:28-76 | for an in-world centre, the eight guarded lookups return Count of the world; every array read is in range |
| Engine.Step | src/main.rs:78-92 | the next generation is again a 32 × 32 world |
| Engine.NextRow | src/main.rs:83-88 | the inner loop fills row y of the buffer with the rule applied to the unmodified world, and leaves every other row of the buffer unchanged |
| Engine.NextState | src/main.rs:78-92 | afterwards the world is Step of the world before: every cell follows the rule applied to the old state and the old count |
| Engine.DeadStaysDead | src/main.rs:78-92 | a step of the all-dead world leaves it all dead |
| Fixtures.TestWorld | src/main.rs:210-217 | builds a fresh world holding exactly the 2 × 2 block |
| Fixtures.NextCellTable | src/main.rs:239-248 | the rule gives the seven results the test expects |
| Fixtures.BlockCounts | src/main.rs:227-237 | the block gives the seven neighbour counts the test expects |
| Fixtures.BlockIsStillLife | src/main.rs:219-225 | one generation leaves the block unchanged |
| Fixtures.TestNextState | src/main.rs:219-225 | NextState on the test world gives back the block |
| Fixtures.LoneCornerCellDies | src/main.rs:78-92 | a lone live corner cell dies and the world becomes all dead |
| Shell.Initial | src/main.rs:131-135 | the initial session is well formed (step speed at least 1) |
| Shell.SetCell | src/main.rs:145-154 | the addressed cell gets the new value and no other cell changes |
| Shell.Apply | src/main.rs:141-185 | every event keeps the session well formed, so the step speed stays at least 1 |
| Shell.TickState | src/main.rs:187-191 | a tick keeps the session well formed and adds exactly 1 to the frame counter |
| Shell.TickGating | src/main.rs:187-191 | the tick advances one generation and the step counter iff not paused and cycles % stepSpeed == 0; otherwise the world and step are unchanged; pause and speed never change |
| Shell.RunEvents | src/main.rs:140-186 | the frame's events keep the session well formed, and the loop stops iff a Quit is among them |
| Shell.Frame | src/main.rs:139-191 | a frame keeps the session well formed |
| Shell.RunFrames | src/main.rs:139-191 | any run of frames keeps the session well formed |
| Shell.Ticks | src/main.rs:187-191 | n frames without events add n to the frame counter and keep the pause flag and step speed |
| Shell.SpeedCommands | src/main.rs:166-173 | Up adds 1 to the step speed and Down takes 1 off unless it is 1; neither changes the world, pause, step or cycles |
| Shell.RepeatedDown | src/main.rs:169-173 | k presses of Down give max(1, stepSpeed − k) and change nothing else |
| Shell.OtherButtonsIgnored | src/main.rs:145-155 | releasing any button other than left or right is admitted at every position and changes nothing |
| Shell.TogglePauseTwice | src/main.rs:163-165 | Space flips only the pause flag; two presses restore the state |
| Shell.RunEventsSplit | src/main.rs:140-186 | events run in sequence: a Quit-free prefix, then the rest |
| Shell.ResetAfterAnything | src/main.rs:174-180 | after any events without a Quit, R gives an all-dead world with cycles 0, step speed 3, no pause and step 0 |
| Shell.ResetFrame | src/main.rs:174-191 | a frame that ends in R ends with the dead world, speed 3, no pause, and step and cycles both at 1, because the tick at frame counter 0 advances |
| Shell.OneBeatInWindow | src/main.rs:187 | any stepSpeed consecutive frame counters hold exactly one multiple of stepSpeed |
| Shell.QuietTicks | src/main.rs:187-191 | frames that do not advance change only the frame counter |
| Shell.TicksAdd | src/main.rs:187-191 | a + b frames are a frames followed by b frames |
| Shell.PausedTicks | src/main.rs:187-191 | while paused, frames change only the frame counter |
| Shell.OneGenerationPerInterval | src/main.rs:187-191 | while running, any stepSpeed consecutive frames advance the world by exactly one generation, wherever the frame counter starts |
| Shell.EmptyFramesAreTicks | src/main.rs:139-191 | n frames without events run the main loop as n ticks and never stop it |
| Shell.RunFramesStop | src/main.rs:139-143 | once a Quit has ended the loop, later frames change nothing |
| Shell.Session.constructor | src/main.rs:131-135 | a fresh all-dead world, no pause, step speed 3, both counters 0 |
| Shell.Session.Click | src/main.rs:145-154 | a left release sets cell [py/25][px/25] alive, a right release sets it dead, and other buttons do nothing at any position, as Apply says |
| Shell.Session.StepOnce | src/main.rs:158-162 | the world advances one generation in place and step goes up by 1, as Apply says for S |
| Shell.Session.TogglePause | src/main.rs:163-165 | the pause flag flips, as Apply says for Space |
| Shell.Session.IncrementStepSpeed | src/main.rs:166-168 | the step speed goes up by 1, as Apply says for Up |
| Shell.Session.DecrementStepSpeed | src/main.rs:169-173 | the step speed goes down by 1 unless it is 1, as Apply says for Down |
| Shell.Session.Reset | src/main.rs:174-180 | the world is cleared in place and the session is the initial one |
| Shell.Session.HandleEvent | src/main.rs:141-185 | the state moves as Apply says, and the result is true exactly for Quit |
| Shell.Session.Tick | src/main.rs:187-191 | the state moves as TickState says |
| Shell.Session.RunFrame | src/main.rs:139-191 | the events are handled in order up to a Quit, then the tick runs unless the loop ended, as Frame says |
| Shell.Session.Run | src/main.rs:139-191 | frames run one after another until the first Quit, as RunFrames says |

## Left out

- SDL setup is outside the model: the context, the window, the canvas and the event pump. Events are given to `RunFrame` and `Run` as sequences.
- Rendering is outside the model: `draw_world`, and the clear and present of each frame. They draw the live cells and change no session state.
- The start time, the step printout after S, and the commented-out sleep are side effects with no modelled behaviour.
- The panic from `keycode.unwrap()` on a key without a keycode is not modelled. The model treats every key it does not name as `OtherKey`, which has no effect.
- Shell.Session.Click: requires a left or right release to lie inside the 800 × 800 window; `Apply`, `RunEvents`, `Frame` and `RunFrames` require the same of the left and right releases among their events. Releases of other buttons are allowed anywhere, and the model ignores them, as the source does. The source does not check the position of a left or right release.
  - Its `x / 25` and `y / 25` are i32 divisions that round toward zero. A left or right release at −24…−1 therefore edits column 0 (or row 0) in the source. The model's Euclidean `/` would give −1 there, so these clicks are not modelled.
  - A left or right release at −25 or below, or at 800 or above, panics on the array index in the source. That panic is not modelled.
- Engine.NeighborCount: requires an in-world centre. The source is only called that way. An off-world centre would go through unchecked `as usize` casts, which are not modelled.
- The frame counter (`u64`) and the generation counter (`i32`) are unbounded naturals, so their wrap-around and overflow are not modelled. The step speed is also unbounded, where the source has a `u64`.
- The source's `'running` loop runs without end until a Quit. `Run` models any finite prefix of its frames.
- `get_neighbor_count` takes the world by value. `NeighborCount` reads the array instead, and is proved not to change it.
