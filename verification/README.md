# Tanki game core in Dafny

This project is a verified model of two small parts of a 2D tank game. The
first is the destructible terrain `Block`. The second is the fixed-rate game
loop `GameLoop.run`.

- `java_int.dfy` (module `JavaInt`) holds Java's 32-bit `int` and 64-bit
  `long` types. It writes out their wrap-around explicitly, because Dafny's
  integers are unbounded.
- `block.dfy` (module `Blocks`) models `Block` as an immutable value. The
  constructor derives the centre and end from the origin. Each width and
  height is 100, and health starts at 6. `ReduceHealth` returns the block as
  it is after a hit. `ApplyHits` applies a sequence of hits in order. The
  additions and the subtraction wrap as Java `int` arithmetic does. Even so,
  a fresh block hit by non-negative amounts is alive exactly when the hits
  add up to at most 5: with non-negative hits, the health subtraction
  cannot overflow while the block is alive.
- `game_loop.dfy` (module `GameLoop`) models `run`. It is a pure function
  from per-iteration observations to a trace of `Update`, `Render` and
  `Sleep` events. Each observation holds three things:
  - the elapsed milliseconds,
  - the state's `gameOver` flag, read after the render,
  - whether the sleep was interrupted.

  `Loop(gameOver, obs)` follows the Java `while (!gameOver) { … }` and the
  render after it, step by step. `Run` starts it with the local flag
  `false`. `RunLoop` is an imperative version that mirrors the Java
  statements. It is proved to compute the same outcome.

  A finite sequence of observations may contain no `true` sample. In that
  case the outcome is `Running` with the trace so far. The model therefore
  does not need a precondition that the game ever ends.

Two consequences of the statement order in `run` are easy to miss.

- **The body always runs once.** The loop tests a local flag that starts
  `false`, not the state's flag. So even when the game is already over, the
  body still runs once. The result is update, render, an optional sleep,
  then the final render: two renders. See `GameLoop.GameOverAtFirstIteration`.
- **Sleep in the last iteration.** `gameOver` is assigned before the delay is
  computed. So the terminating iteration still sleeps when it finished early.
  A stopped trace ends `Update, Render, Render` only when that iteration
  used up its whole period. Otherwise it ends `Update, Render, Sleep(d),
  Render`. See `GameLoop.StoppedRunEnding`.

## Model

| member | source | states |
|---|---|---|
| `JavaInt.Wrap32` | src/Blocks/Block.java:35 | Java `int` arithmetic: exact inside the 32-bit range, shifted by 2^32 just outside it |
| `JavaInt.Wrap64` | src/Engine/GameLoop.java:71 | Java `long` arithmetic: exact inside the 64-bit range, shifted by 2^64 just above it |
| `Blocks.NewBlock` | src/Blocks/Block.java:21-32 | a new block keeps its origin, has end = origin + 100 and centre = origin + 50 (with `int` wrap-around near the top of the range), is alive and has health 6 |
| `Blocks.GetXPixels` | src/Blocks/Block.java:50-52 | the width getter returns 100, the amount by which the end lies past the origin (and twice the centre offset) |
| `Blocks.GetYPixels` | src/Blocks/Block.java:54-56 | the height getter returns 100, the amount by which the end lies below the origin (and twice the centre offset) |
| `Blocks.ReduceHealth` | src/Blocks/Block.java:34-40 | health drops by exactly the amount, with no clamping (only `int` wrap-around); health below 1 means dead; a dead block stays dead even when the amount is negative; origin, centre and end are unchanged |
| `Blocks.ApplyHits` | src/Blocks/Block.java:34-40 | after any sequence of hits, the geometry is as before and a dead block is still dead |
| `Blocks.AliveAfterHits` | src/Blocks/Block.java:34-40 | from a block whose flag matches `health >= 1`, non-negative hits leave it alive iff health minus their sum is at least 1, and its health is then exactly that difference |
| `Blocks.FreshBlockAliveIffDamageAtMostFive` | src/Blocks/Block.java:13-39 | a freshly placed block hit by non-negative amounts is alive iff they sum to at most 5, and then has 6 minus the sum |
| `Blocks.ZeroHitsChangeNothing` | src/Blocks/Block.java:34-40 | any number of zero hits leaves a block unchanged, alive flag included, when its flag implies health of at least 1 (every reachable block, dead ones with health raised by a negative hit included) |
| `Blocks.NegativeHitDoesNotRevive` | src/Blocks/Block.java:34-40 | killing a block with 6 and then hitting it with -10 gives health 10, yet it stays dead |
| `Blocks.TwoHitsOfThree` | src/Blocks/Block.java:21-40 | a block at (200, 300) hit twice for 3 is dead, with centre (250, 350) and end (300, 400) |
| `GameLoop.TargetPeriod` | src/Engine/GameLoop.java:71 | `1000 / FPS` with FPS = 60 is 16, the largest whole period that fits 60 times into a second |
| `GameLoop.Delay` | src/Engine/GameLoop.java:71-72 | the delay is positive exactly when the iteration took less than 16 ms (and the `long` subtraction did not overflow); it is then the rest of the period |
| `GameLoop.SleepAfter` | src/Engine/GameLoop.java:71-73 | an iteration sleeps at most once, and only when the delay is positive, for exactly that delay; with no catch-up otherwise |
| `GameLoop.Iteration` | src/Engine/GameLoop.java:65-73 | one body pass is update then render, then a sleep of exactly 16 - elapsed ms whenever elapsed < 16, including a negative elapsed from a clock that stepped back (longer than 16 ms); no sleep when elapsed >= 16 or the `long` subtraction overflows |
| `GameLoop.Loop` | src/Engine/GameLoop.java:63-77 | with the flag already true, only the render after the loop happens; with it false and an observation left, the run starts with that iteration's update and render; with no observation left, the loop is still running (`RunClosedForm` and `RunLoop` characterise it fully) |
| `GameLoop.Run` | src/Engine/GameLoop.java:62-77 | the local flag starts false, so any run with an observation starts with update then render; a run stops only after at least one iteration and then ends with a render (`RunClosedForm` and `RunLoop` characterise it fully) |
| `GameLoop.RunLoop` | src/Engine/GameLoop.java:61-78 | the statement-by-statement loop produces the same outcome as the functional model `Run` |
| `GameLoop.RunClosedForm` | src/Engine/GameLoop.java:62-77 | the run is one body pass for each iteration up to and including the first that samples `gameOver`, then one final render; without such a sample the loop is still running |
| `GameLoop.StopsIffSomeIterationSeesGameOver` | src/Engine/GameLoop.java:63-69 | the loop stops iff some iteration samples `gameOver` as true |
| `GameLoop.UpdateAndRenderCounts` | src/Engine/GameLoop.java:63-77 | updates = index of the first true sample + 1 (all observations if none); a stopped run has renders = updates + 1, a running one renders = updates |
| `GameLoop.StoppedRunEnding` | src/Engine/GameLoop.java:67-77 | a stopped trace ends with the terminating iteration's update, render and optional sleep, then the final render |
| `GameLoop.GameOverAtFirstIteration` | src/Engine/GameLoop.java:62-77 | the body runs at least once: a game already over renders twice, not once |
| `GameLoop.RunOrdered` | src/Engine/GameLoop.java:67-73 | in every trace each update is immediately followed by a render, and each sleep is positive and comes straight after a render |
| `GameLoop.InterruptsDoNotMatter` | src/Engine/GameLoop.java:69-75 | interrupted sleeps change neither whether the loop stops nor any event apart from the interruption mark |

## Left out

- `GameFrame` (the buffered rendering pipeline, sprite rotation, the game-over banner): it is drawing code on the windowing toolkit. Its bullet and rocket loops swallow null-pointer and concurrent-modification errors, but its enemy-tank loop has no such catch. Here `render` is an abstract `Render` event.
- Exceptions from `update` and `render`: the model assumes both return normally. An unchecked exception from either (for example a concurrent modification in the enemy-tank loop) escapes `run`'s `catch (InterruptedException)`. `run` then ends with no final render, so `RunClosedForm`, `UpdateAndRenderCounts` and `StoppedRunEnding` do not cover that case.
- `GameLoop.init`: it shows dialogs, registers listeners and starts the network server and client threads. All of that is I/O and concurrency.
- `Start` (the menu window, sound, click regions): it is user-interface event handling.
- `GameState.update` and the network threads that mutate the entity lists: they are not in the modelled files. `update` is an abstract `Update` event, and its effect shows only through the sampled `gameOver` flag.
- Real time: the clock and `Thread.sleep` are inputs and events. `elapsed` is taken as the `long` difference of the two clock reads, so the model makes no pacing or timing guarantee.
- Removal of dead blocks from their owning collection: this is decided outside `Block`.

