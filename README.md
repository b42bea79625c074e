# Game of Life on a 5×5 LED board — Dafny model

This project models the core of an interactive Conway's Game of Life for a handheld board with a
5×5 LED matrix, two push buttons (A and B), a hardware random number generator and a serial port.
Everything modelled lives in `src/main.rs`:

- **The world.** `done` tests whether the 5×5 `u8` frame buffer is all zero. `life` runs one
  generation on a torus. It copies the buffer into a snapshot, reads only the snapshot and writes
  each new pixel into the live buffer. Module `GameOfLife` (`life.dfy`) holds both. `Successor` is
  the board `life` produces, and the method `Life` is the in-place loop, proved to produce it.
- **The whole-board loops of the main loop.** Re-randomising sets every pixel to `random byte % 2`.
  Complementing turns 1 into 0 and anything else into 1. The paint sweep renders the board as
  ASCII: `X` for a pixel equal to 1, `.` otherwise, and `\n\r` after each row. Module `Board`
  (`board.dfy`) holds a value-level function for each loop, its in-place loop method, and lemmas.
- **The frame controller.** One pass of the `loop` in `init` does these steps in order:
  - tick, and every eleventh pass a generation, the stagnation check and maybe a re-randomisation;
  - the A press check;
  - the A release check;
  - the B press check;
  - the B cooldown;
  - the paint sweep.

  Module `MainLoop` (`main_loop.dfy`) states each step as a function on the loop's state and
  composes them into `Frame`. Module `Runs` (`runs.dfy`) states properties of many passes.
  Module `Engine` (`engine.dfy`) is the loop as an object. Its fields are the loop's locals and
  its world is a 5×5 array. `Controller.Frame` is proved to do exactly what `MainLoop.Frame`
  describes.
- Module `Scenarios` (`scenarios.dfy`) runs concrete boards through one generation.

Inputs that come from hardware are parameters:
- The three button readings of a pass are a `Buttons` value. A is read twice, once at the press
  check and once at the release check, and the two reads may differ.
- The random number generator is a function `rand: nat -> u8`. A pass draws bytes `rand(0)`,
  `rand(1)`, … in order and reports how many it used.
- What the pass writes to the serial port is returned as a byte sequence.

## Where the code and its own comments differ (the model follows the code)

The header comment at src/main.rs:6-18 describes the intended behaviour. The comments at
src/main.rs:223 ("every 10 ticks") and src/main.rs:242 ("for 1000 ticks") describe the tick and
stagnation thresholds. The code differs from them as follows.

- `same_board_count` is never reset. The `else` branch at src/main.rs:238-240 only copies the
  world into `last_world`. So the count is the total number of unchanged generations, not a run of
  consecutive ones. Once it passes 50, every later generation boundary re-randomises the board
  (`Runs.StagnationIsPermanent`).
- The boot loop at src/main.rs:200-204 only rebinds its loop variable and never writes to the
  world. The game therefore starts from the all-zero board (`MainLoop.Boot`), not a random one.
- A generation runs when `tick_count` passes 10, i.e. once every 11 passes, not every tenth pass.
- The B ignore window is 100 passes, not 5. Stagnation triggers after more than 50 unchanged
  generations.
- Each serial repaint is 35 bytes: 5 rows of 5 glyphs plus `\n\r`. An `ESC c` precedes it for
  each event of the pass that replaced the board: generation, A press, complement.
- `done` is never called from the loop. The header comment's "wait 5 frames, then reseed an empty
  board" (src/main.rs:15-17) is not implemented, and neither is its 5-frame B ignore
  (src/main.rs:13).

## Model

| member | source | states |
|---|---|---|
| GameOfLife.Done | src/main.rs:131-133 | `done(fb)` is true exactly when every pixel equals 0 |
| GameOfLife.DoneIffNoPopulation | src/main.rs:131-133 | the buffer is done exactly when the sum of its pixels is 0 |
| GameOfLife.Snapshot | src/main.rs:137 | the copy `prev` holds, pixel for pixel, what the buffer held |
| GameOfLife.StepsApart | src/main.rs:140-153 | on a ring of 5, one step back and one step forward land on two different cells, both adjacent to the start and neither equal to it |
| GameOfLife.NeighbourCoords | src/main.rs:140-153 | definition: the eight coordinates `(row ± 1, col ± 1)` that `life` lists, computed with `+ 4` and `+ 1` modulo 5 and kept in source order; properties in NeighbourCoordsAreTheMooreNeighbourhood |
| GameOfLife.Neighbours | src/main.rs:154 | definition: the sum of the snapshot over those coordinates; properties in NeighboursAreTheWrappedSum and NeighboursRange |
| GameOfLife.NextCell | src/main.rs:156-160 | definition: a 1 with fewer than 2 or more than 3 neighbours becomes 0, a 0 with exactly 3 becomes 1, and every other value is kept unchanged, including values other than 0 and 1; properties in SuccessorIsB3S23 |
| GameOfLife.Successor | src/main.rs:136-163 | definition: NextCell at every pixel, all read from the same snapshot; properties in SuccessorIsB3S23, SuccessorBinary, SuccessorOfDone and the scenarios; Life is proved to compute it |
| GameOfLife.NeighbourCoordsAreTheMooreNeighbourhood | src/main.rs:140-153 | the eight coordinates `life` lists are pairwise distinct, none is the cell itself, and each is at most one step away (mod 5) in each axis |
| GameOfLife.NeighboursAreTheWrappedSum | src/main.rs:140-154 | the neighbour count is the sum of the eight snapshot cells at `((row ± 1) mod 5, (col ± 1) mod 5)` |
| GameOfLife.NeighboursRange | src/main.rs:154 | on a 0/1 board a cell has between 0 and 8 live neighbours |
| GameOfLife.SuccessorIsB3S23 | src/main.rs:156-160 | on a 0/1 board a cell is alive next generation exactly when it has 3 live neighbours, or is alive with 2 (Conway's B3/S23), and dead otherwise |
| GameOfLife.SuccessorBinary | src/main.rs:154-159 | a generation keeps every pixel in {0, 1} |
| GameOfLife.SuccessorOfDone | src/main.rs:136-163 | the all-zero board stays all-zero, so `done` stays true |
| GameOfLife.Life | src/main.rs:136-163 | the in-place loop leaves the buffer equal to the generation computed from the snapshot of the old buffer alone |
| Scenarios.FullBoardDies | src/main.rs:136-163 | on the full 5×5 torus every cell has 8 neighbours and the board dies |
| Scenarios.BlinkerTurnsVertical | src/main.rs:136-163 | a horizontal blinker becomes vertical |
| Scenarios.BlinkerTurnsHorizontal | src/main.rs:136-163 | a vertical blinker becomes horizontal |
| Scenarios.BlockIsStill | src/main.rs:136-163 | a 2×2 block is unchanged |
| Scenarios.CornerBornThroughWrap | src/main.rs:140-158 | cell (0,0) sees (4,4), (4,0) and (0,4) through the wrap, counts 3 and is born |
| Board.Reseed | src/main.rs:261-265 | definition: pixel (i,j) is byte number base + 5i + j modulo 2, with the bytes drawn in row-major order (the same loop is at src/main.rs:245-249 with base 0); properties in ReseedBinary and ReseedReachesEveryBoard |
| Board.ReseedBinary | src/main.rs:245-249 | a re-randomised board is a 0/1 board; pixel (i,j) is 1 exactly when the (5i+j)-th byte drawn is odd |
| Board.ReseedReachesEveryBoard | src/main.rs:261-265 | every 0/1 board is produced by some sequence of 25 random bytes |
| Board.ReseedInPlace | src/main.rs:261-265 | the in-place loop leaves the board that the 25 bytes drawn in row-major order describe |
| Board.Complement | src/main.rs:290-298 | definition: a pixel equal to 1 becomes 0, and any other value becomes 1; properties in ComplementFlips and ComplementInvolution |
| Board.ComplementFlips | src/main.rs:290-298 | the complement of any board is a 0/1 board, and on a 0/1 board it turns every 1 into 0 and every 0 into 1 |
| Board.ComplementInvolution | src/main.rs:290-298 | complementing twice gives the board back exactly when the board is a 0/1 board |
| Board.ComplementInPlace | src/main.rs:290-298 | the in-place loop leaves the complement of the old board |
| Board.Render | src/main.rs:326-359 | definition: for each row, `X` for each pixel equal to 1 and `.` for any other value, then `\n\r`; properties in RenderLayout and RenderDeterminesBoard |
| Board.RenderRowsAt | src/main.rs:326-359 | row i of the rendering occupies offsets 7i .. 7i+6 |
| Board.RenderLayout | src/main.rs:326-359 | the rendering is 35 bytes; offset 7i+j is `X` when pixel (i,j) is 1 and `.` otherwise; offsets 7i+5 and 7i+6 are `\n` and `\r` |
| Board.RenderDeterminesBoard | src/main.rs:326-359 | two 0/1 boards with the same rendering are the same board |
| Board.PaintRow | src/main.rs:327-359 | one row of the sweep writes that row's five glyphs and `\n\r` when `update_serial` is set, and nothing otherwise |
| Board.Paint | src/main.rs:326-359 | the sweep writes nothing when `update_serial` is clear, and the rendering of the board when it is set |
| MainLoop.Boot | src/main.rs:191-212 | definition: the state before the loop: an all-zero world and snapshot (the boot randomisation loop writes nothing), every counter 0, both latches clear, a repaint pending |
| MainLoop.Tick | src/main.rs:221-254 | definition: tick +1; past 10: a `life` step, `ESC c`, a repaint request, then the stagnation compare (a match adds 1, anything else copies the world into the snapshot and never resets the count), a reseed from bytes 0..24 when the count exceeds 50, and the tick reset to 0; properties in TickSchedule and StagnationCheck |
| MainLoop.PressA | src/main.rs:257-275 | definition: when A reads low, a reseed from the next 25 unused bytes, the A latch set, a repaint request and `ESC c`; properties in BGuard and FrameWorld |
| MainLoop.ReleaseA | src/main.rs:279-281 | definition: the A latch is cleared when it is set and A reads high at the second read; properties in BGuard |
| MainLoop.PressB | src/main.rs:286-308 | definition: when neither latch is set and B reads low, a complement, the B latch set, a repaint request and `ESC c`; properties in BGuard, FrameWorld and BCooldown |
| MainLoop.Cooldown | src/main.rs:314-322 | definition: while B is latched with a count below 100 the count rises by one; otherwise the count and the latch are reset; properties in BCooldown, CooldownCount and CooldownWindow |
| MainLoop.PaintSerial | src/main.rs:326-362 | definition: the rendering is appended when a repaint is pending, then the request is cleared; properties in SerialOutput |
| MainLoop.Frame | src/main.rs:218-363 | definition: the stages Tick, PressA, ReleaseA, PressB, Cooldown and PaintSerial in program order; properties in FrameKeepsInv and the lemmas after it, and in Runs |
| MainLoop.BootInv | src/main.rs:191-212 | the boot state (all-zero world and snapshot, counters 0, latches clear, repaint pending) satisfies the loop invariant |
| MainLoop.TickKeepsInv | src/main.rs:221-254 | the tick stage keeps the invariant and draws at most 25 random bytes |
| MainLoop.ButtonsKeepInv | src/main.rs:256-362 | the button and paint stages keep the invariant, draw at most 25 more bytes and clear `update_serial` |
| MainLoop.FrameKeepsInv | src/main.rs:218-363 | every pass keeps the world and snapshot 0/1, `tick_count` in [0,10], and `b_ignore_count` in [1,100] while B is ignored and 0 otherwise; it ends with `update_serial` clear and draws at most 50 bytes |
| MainLoop.TickSchedule | src/main.rs:221-254 | a pass runs a generation exactly when `tick_count` is 10 on entry; it then leaves `tick_count` at 0, and otherwise one higher |
| MainLoop.StagnationCheck | src/main.rs:234-250 | at a generation the snapshot ends equal to the stepped world; the count rises by one exactly when the stepped world equals the old snapshot; the board is re-randomised exactly when the new count exceeds 50; otherwise neither changes, and the count never decreases |
| MainLoop.ButtonsKeepStagnation | src/main.rs:256-362 | the stages after the tick never touch the snapshot, the stagnation count or the tick count |
| MainLoop.BGuard | src/main.rs:256-286 | B fires exactly when A was not latched-and-still-down at the release check, B is not ignored and B reads low; A held through both reads blocks it, keeps `a_ignore` set and leaves the freshly re-randomised board |
| MainLoop.BCooldown | src/main.rs:300-322 | a complement starts the cooldown at 1; below 100 the count rises and B cannot fire; at 100 the count and the latch reset; with no latch and no complement they stay reset |
| MainLoop.FrameWorld | src/main.rs:256-308 | the board at the end of a pass is the board after the tick stage and the A press, complemented exactly when B fired |
| MainLoop.ClearsBeforePaint | src/main.rs:228-308 | before the paint sweep a pass has written exactly one `ESC c` per event (generation, A press, complement), and a repaint is pending exactly when one was left over or an event happened |
| MainLoop.SerialOutput | src/main.rs:228-362 | a pass writes one `ESC c` per event (generation, A press, complement); when a repaint was pending or any event happened, the 35-byte rendering of the final board follows |
| Runs.Trace | src/main.rs:218-363 | from any state, any sequence of inputs gives a run that starts in that state |
| Runs.RunUnique | src/main.rs:218-363 | the loop is deterministic: two runs from the same state over the same inputs go through the same states |
| Runs.RunExtends | src/main.rs:218-363 | a run followed by one more pass is a run |
| Runs.RunKeepsInv | src/main.rs:218-363 | the invariant holds at every state of a run that starts in it |
| Runs.TickAfterMod | src/main.rs:221-253 | counting up with the wrap from 10 to 0 is counting modulo 11 |
| Runs.RunTicks | src/main.rs:221-253 | after n passes `tick_count` has advanced by n mod 11 |
| Runs.GenerationPeriod | src/main.rs:221-226 | pass n runs a generation exactly when (initial tick + n + 1) is a multiple of 11 |
| Runs.BootGenerations | src/main.rs:207-226 | from boot, generations run on passes 10, 21, 32, …: one pass in 11 |
| Runs.SameBoardNeverDecreases | src/main.rs:236-240 | `same_board_count` never decreases along a run |
| Runs.StagnationIsPermanent | src/main.rs:236-250 | once the count exceeds 50, every later generation boundary replaces the stepped board with a re-randomised 0/1 board |
| Runs.CooldownCount | src/main.rs:300-322 | k passes after a complement (1 ≤ k ≤ 100), B is still ignored with the count at k |
| Runs.CooldownWindow | src/main.rs:286-322 | after a complement in pass m, none of passes m+1 .. m+100 can complement, whatever the buttons read; pass m+101 starts with B accepted again |
| Engine.Controller.constructor | src/main.rs:191-212 | the object starts in the boot state with a fresh all-zero world array |
| Engine.Controller.Frame | src/main.rs:218-363 | one pass changes the fields, the world array and the serial output exactly as `MainLoop.Frame` describes, and keeps the invariant |
| Engine.Controller.AdvanceTick | src/main.rs:221-254 | the tick and generation boundary, in place, as `MainLoop.Tick` |
| Engine.Controller.CheckA | src/main.rs:257-275 | the A press, in place, as `MainLoop.PressA` |
| Engine.Controller.ReleaseA | src/main.rs:279-281 | the A release, as `MainLoop.ReleaseA` |
| Engine.Controller.CheckB | src/main.rs:286-308 | the B press, in place, as `MainLoop.PressB` |
| Engine.Controller.CountBCooldown | src/main.rs:314-322 | the B cooldown count, as `MainLoop.Cooldown` |
| Engine.Controller.PaintSweep | src/main.rs:326-362 | the serial output of the paint sweep and the cleared repaint flag, as `MainLoop.PaintSerial` |

## Left out

- LED driving (`set_led`, src/main.rs:37-109) and the 1 ms pulses carry no state and are not
  modelled. Note that the paint call passes world row `i` as `x`, which selects the column pins
  (src/main.rs:333), so the image on the LEDs is the transpose of the world.
- The serial transport and its error logging (src/main.rs:112-122) are not modelled. The model
  returns the bytes each pass writes; a failed write only drops a byte on the wire.
- The boot-time `ESC c` (src/main.rs:188) is outside the loop. `Engine.Controller.constructor`
  does not emit it, because a constructor returns no bytes.
- The boot loop's 25 discarded random draws (src/main.rs:200-204) are not modelled, because each
  pass gets its own random source.
- The debounce and pulse delays (`timer.delay_ms`) are not modelled, because timing carries no
  state.
- Peripheral acquisition, UART configuration and RTT set-up (src/main.rs:168-185) are not
  modelled. Neither is a panic from `unwrap()` on a failed GPIO read.
- The infinite `loop` is modelled as one pass (`Frame`) plus finite runs of passes (`Runs.IsRun`).
- GameOfLife.Neighbours: sums as an unbounded integer. The source's `u8` sum could overflow only
  for pixel values above 31, and the loop never produces those (every board is 0/1 by
  `MainLoop.FrameKeepsInv`).
- Runs.SameBoardNeverDecreases: `same_board_count` is an unbounded integer. In the source it is
  an `i32` that would overflow after 2^31 − 1 unchanged generations, roughly seven years of
  running.
- The behaviours in the header comment that the code does not implement (a 5-frame B ignore, a
  wait-then-reseed of an empty board) are not modelled.
