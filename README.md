# Flappy Bird game state, modelled in Dafny

This project models the game-state logic of the `GameView` class of the Android
Flappy Bird clone (`app/src/main/java/top/alanpu/android/flappybird/GameView.kt`)
and proves properties about it. That logic covers:

- the lazily grown pool of pipes;
- one tick of the game loop: the bird moves, the pipes scroll and are recycled at
  the right edge with a fresh random length, gravity builds up;
- the random length of a pipe;
- the alive/score check: the zero-size guard, the top/ground test, the collision
  test that stops at the first hit, and scoring once per pass;
- the fall after death, which stops the game and sends one GAME_OVER message;
- the touch that makes the bird jump;
- the reset at the start of every game.

Modules, leaves first:

- `dimensions.dfy` (`Dimensions`): the class's constants (`groundHeight`,
  `pipeGap`, `pipeBaseLength`, `pipeVelocity`, `pipeInterval`, and so on). It also
  holds the `Geometry` value: the view's size and the bitmap sizes.
- `kotlin_math.dfy` (`KotlinMath`): Kotlin's `Int` division and `Float.toInt()`.
  Both round toward zero. Dafny's `/` is Euclidean and `.Floor` rounds down.
- `pipes.dfy` (`Pipes`): the `Pipe` record, `calculatePipeLength`, `pipeCount`,
  the pipe that `getPipe` creates, and one pipe's scroll and recycling. It also
  holds `AdvancedPool`, the pool after the scroll loop of a tick.
- `physics.dfy` (`Physics`): the velocity update of a tick and the steps of the
  fall loop.
- `collision.dfy` (`Collision`): `isAlive` as a function (`AliveCheck`), and the
  lemmas about collisions and scoring.
- `game.dfy` (`Game`): the class `GameView`. Its fields are the ones the source
  updates in place. Its methods model `getPipe`, the loop body of `run`,
  `isAlive`, `score`, `fall`, `stopGame`, `resetData` and the jump in
  `onTouchEvent`. Each method is proved against the functions of the other
  modules. `Valid()` is established by the constructor and kept by `ResetData`,
  `Tick`, `OnTouchDown`, `Fall` and `FinishRun`. The inner steps (`GetPipe`,
  `ScrollPipes`, `Score`, `IsAlive`, `ScanPipes`, `StopGame`) do not state it:
  `GetPipe` in the middle of a tick's scroll loop leaves the pool partly grown.
  `Valid()` says four things:
  - the pool is empty or holds `pipeCount + 1` pipes;
  - every pipe lies right of `-pipeWidth` and never right of the place where it
    was created;
  - on a screen tall enough, every pipe length is in range;
  - the velocity is at most 10.5.

The bird's coordinates and velocity are Kotlin `Float`s and are modelled as `real`.
`birdPosX` is `measuredWidth / 3`, which is not a multiple of half a pixel, so
scaled integers would not be exact. The random fraction of `Random().nextFloat()`
is a parameter in [0, 1). A tick takes two sequences of fractions, one entry per
pipe index. The first is used when `getPipe` creates the pipe at that index. The
second is used when the tick recycles it.

Two behaviours of the code that the model keeps as written:

- The scroll loop and the scan of `isAlive` visit `0..pipeCount` inclusive, so a
  tick keeps `pipeCount + 1` pipes. The model keeps that count.
- A recycled pipe goes to `measuredWidth` for every index, not to an offset that
  depends on its index. A pipe is created at
  `measuredWidth + (pipeWidth + pipeInterval) * index`, so its position never
  exceeds that value afterwards (`Pipes.InPlace`).

The pipe length never puts the gap's bottom on the ground, provided the baseline
is not negative. The top of the gap is at least `pipeBaseLength + 10` = 110 pixels
down. The margin below the gap is smaller: its bottom is at least 89 pixels above
the ground (`Pipes.LongestGapAboveGround`, `Pipes.PipeLength`).

## Model

| member | source | states |
|---|---|---|
| `KotlinMath.TruncDiv` | app/src/main/java/top/alanpu/android/flappybird/GameView.kt:384 | Kotlin `Int` division by a positive divisor: the quotient rounds toward zero for both signs of the dividend |
| `KotlinMath.TruncToInt` | app/src/main/java/top/alanpu/android/flappybird/GameView.kt:260 | `Float.toInt()` drops the fraction: the result is within one of the value and never farther from zero |
| `Pipes.Baseline` | app/src/main/java/top/alanpu/android/flappybird/GameView.kt:259 | the span of the random part of a pipe length: `(measuredHeight - pipeGap - groundHeight - 2 * pipeBaseLength) / 2` with Kotlin's truncating division |
| `Pipes.NewPipe` | app/src/main/java/top/alanpu/android/flappybird/GameView.kt:331-332 | the pipe `getPipe` creates: at `measuredWidth + (pipeWidth + pipeInterval) * index`, with a generated length, not passed |
| `Pipes.AdvancedPool` | app/src/main/java/top/alanpu/android/flappybird/GameView.kt:146-154 | the pool after the scroll loop over `0..pipeCount` inclusive: each index created if missing, then scrolled or recycled by `Step` |
| `Physics.FallSteps` | app/src/main/java/top/alanpu/android/flappybird/GameView.kt:189-202 | the number of 15-pixel steps the fall loop makes from a height to the ground |
| `Collision.Engaged` | app/src/main/java/top/alanpu/android/flappybird/GameView.kt:232 | the pipe is between the bird's left edge and the right border: `position + pipeWidth >= birdPosX` and `position < measuredWidth` |
| `Collision.Overlaps` | app/src/main/java/top/alanpu/android/flappybird/GameView.kt:220-233 | the bird's span, inset by 10 on the right, meets the pipe's span |
| `Collision.OutsideGap` | app/src/main/java/top/alanpu/android/flappybird/GameView.kt:221-234 | the bird's top is at or above the gap's top, or its bottom at or below the gap's bottom |
| `Collision.Collides` | app/src/main/java/top/alanpu/android/flappybird/GameView.kt:232-235 | the three tests of the scan together: the pipe that makes `isAlive` return false |
| `Collision.Scores` | app/src/main/java/top/alanpu/android/flappybird/GameView.kt:238 | the pipe outside the engaged zone, left of the bird and not yet passed |
| `Collision.Mark` | app/src/main/java/top/alanpu/android/flappybird/GameView.kt:238-241 | the pipe as the scan leaves it: marked passed exactly when it scores |
| `Collision.MarkPassed` | app/src/main/java/top/alanpu/android/flappybird/GameView.kt:228-242 | `Mark` applied to every pipe of a scanned prefix |
| `Dimensions.Geometry.GroundPosY` | app/src/main/java/top/alanpu/android/flappybird/GameView.kt:176 | `groundPosY`: the top of the ground, `measuredHeight - groundHeight`, also the lower bound of the test at line 224 |
| `Pipes.PooledOrNew` | app/src/main/java/top/alanpu/android/flappybird/GameView.kt:330-335 | what `getPipe` yields for an index: the pooled pipe, or the new one it creates when the pool ends before that index |
| `Physics.VelocityAfter` | app/src/main/java/top/alanpu/android/flappybird/GameView.kt:160-162 | the gravity step of a tick repeated over `n` ticks without a touch |
| `Collision.ZeroSize` | app/src/main/java/top/alanpu/android/flappybird/GameView.kt:216 | the guard `width == 0 \|\| height == 0` |
| `Collision.OutOfBounds` | app/src/main/java/top/alanpu/android/flappybird/GameView.kt:224 | the bird touches the top (`birdPosY <= 5`) or the ground (`birdPosY >= measuredHeight - groundHeight`) |
| `Collision.Scanned` | app/src/main/java/top/alanpu/android/flappybird/GameView.kt:216-226 | both guards passed, so the loop over the pipes runs |
| `Collision.CountScoring` | app/src/main/java/top/alanpu/android/flappybird/GameView.kt:239 | how many times the scan calls `score()` over a prefix of the pool |
| `Pipes.PipeLength` | app/src/main/java/top/alanpu/android/flappybird/GameView.kt:258-261 | when the baseline is not negative, the length lies in `[pipeBaseLength + 10, pipeBaseLength + baseline + 10]`; it is strictly below the upper end when the baseline is positive; and the gap's bottom `length + pipeGap` stays above `measuredHeight - groundHeight`, for every fraction in [0, 1) |
| `Pipes.LongestGapAboveGround` | app/src/main/java/top/alanpu/android/flappybird/GameView.kt:259 | the longest length the generator can return still leaves the gap's bottom at least 89 pixels above the ground |
| `Pipes.PipeCount` | app/src/main/java/top/alanpu/android/flappybird/GameView.kt:384 | `pipeCount` is never negative and is 0 when the view is narrower than a pipe (Kotlin's truncation, not Euclidean division); otherwise `pipeCount` pipe-plus-interval slots and one more pipe fit in the width and one more slot would not |
| `Pipes.Step` | app/src/main/java/top/alanpu/android/flappybird/GameView.kt:148-153 | while `position - pipeVelocity > -pipeWidth`, the pipe only moves left by exactly `pipeVelocity`, keeping its length and flag; otherwise it is recycled to `measuredWidth`, not passed, with a length in range on a tall enough screen; either way it ends right of `-pipeWidth`, and it stays passed exactly when it was passed and was not recycled |
| `Pipes.NewPipeInPlace` | app/src/main/java/top/alanpu/android/flappybird/GameView.kt:331-332 | a created pipe lies right of `-pipeWidth`, at its creation offset, with a length in range |
| `Pipes.StepInPlace` | app/src/main/java/top/alanpu/android/flappybird/GameView.kt:148-153 | the scroll and recycling keep a pipe right of `-pipeWidth`, never right of its creation offset, and keep its length in range |
| `Pipes.AdvancedPoolInPlace` | app/src/main/java/top/alanpu/android/flappybird/GameView.kt:146-154 | after a tick's scroll loop the pool holds exactly `pipeCount + 1` pipes, has lost none, and every pipe is in place |
| `Physics.NextVelocity` | app/src/main/java/top/alanpu/android/flappybird/GameView.kt:160-162 | a tick never lowers the velocity and raises it by at most 0.5; it raises it whenever it is at most 10; it keeps a velocity of at most 10.5 at most 10.5 |
| `Physics.VelocityAfterTicks` | app/src/main/java/top/alanpu/android/flappybird/GameView.kt:160-162 | from `h` half-pixels per tick with `h <= 21`, `n` ticks without a touch give `(h + n) / 2`, capped at 10.5 |
| `Physics.VelocityStaysAtMax` | app/src/main/java/top/alanpu/android/flappybird/GameView.kt:160-162 | at 10.5 the velocity no longer changes |
| `Physics.VelocityFromReset` | app/src/main/java/top/alanpu/android/flappybird/GameView.kt:385 | from the reset velocity of 8, the velocity rises by 0.5 per tick and stays at 10.5 from the fifth tick on |
| `Physics.FallStepsExact` | app/src/main/java/top/alanpu/android/flappybird/GameView.kt:189-202 | the fall makes no step from the ground or below; from above it makes `ceil((groundPosY - birdPosY) / 15)` steps: the least number that reaches the ground, ending less than 15 pixels below it |
| `Physics.FallFromTenStepsAbove` | app/src/main/java/top/alanpu/android/flappybird/GameView.kt:176-202 | a bird 150 pixels above the ground lands after exactly 10 steps |
| `Collision.FirstCollision` | app/src/main/java/top/alanpu/android/flappybird/GameView.kt:228-237 | the scan stops at the least index whose pipe collides, or runs through all pipes if none collides |
| `Collision.AliveCheck` | app/src/main/java/top/alanpu/android/flappybird/GameView.kt:211-245 | `isAlive` keeps the pool's size and never changes a pipe's position or length |
| `Collision.GuardsLeavePoolAlone` | app/src/main/java/top/alanpu/android/flappybird/GameView.kt:216-226 | with zero width or height the result is alive with no change; with the bird at `y <= 5` or `y >= measuredHeight - groundHeight` it is dead, with no point added and no pipe marked |
| `Collision.AliveIffNoCollision` | app/src/main/java/top/alanpu/android/flappybird/GameView.kt:216-244 | the result is alive if and only if the view has no size, or the bird is within bounds and collides with no pipe |
| `Collision.MarksExactlyScoringPipes` | app/src/main/java/top/alanpu/android/flappybird/GameView.kt:228-241 | a pipe changes if and only if it comes before the first collision, is left of the bird, is outside the engaged zone and is not yet passed; it then only becomes passed; passed pipes, and pipes from the first collision on, are untouched |
| `Collision.ScoreIsNewlyPassed` | app/src/main/java/top/alanpu/android/flappybird/GameView.kt:238-241 | the score rises by exactly the number of pipes switched from not passed to passed |
| `Collision.CheckIdempotent` | app/src/main/java/top/alanpu/android/flappybird/GameView.kt:238-241 | checking again with the bird where it was gives the same result, leaves the pool as it is and adds no point |
| `Game.PassedUntilRecycled` | app/src/main/java/top/alanpu/android/flappybird/GameView.kt:146-153 | a passed pipe either scrolls on, stays passed and is left alone by the check, or is recycled to `measuredWidth` with its flag cleared |
| `Game.GameView.constructor` | app/src/main/java/top/alanpu/android/flappybird/GameView.kt:37-56 | a new view holds the field initialisers: no score, alive, not running, velocity 8, no pipes |
| `Game.GameView.ResetData` | app/src/main/java/top/alanpu/android/flappybird/GameView.kt:380-389 | a new game: score 0, bird at a third of the width and a third of the way to the ground, velocity 8, `pipeCount` as computed, empty pool, both flags set; the invariant holds |
| `Game.GameView.GetPipe` | app/src/main/java/top/alanpu/android/flappybird/GameView.kt:329-336 | returns the pipe at `index`; when `index` is the pool's size, first appends one pipe at `measuredWidth + (pipeWidth + pipeInterval) * index` and leaves earlier pipes unchanged |
| `Game.GameView.ScrollPipes` | app/src/main/java/top/alanpu/android/flappybird/GameView.kt:146-154 | the pool after the loop over `0..pipeCount` is `AdvancedPool` of the old pool: each index is created if missing, then scrolled or recycled |
| `Game.GameView.Score` | app/src/main/java/top/alanpu/android/flappybird/GameView.kt:250-253 | the score rises by one |
| `Game.GameView.IsAlive` | app/src/main/java/top/alanpu/android/flappybird/GameView.kt:211-245 | result, new pool and added points are those of `AliveCheck` on the old pool |
| `Game.GameView.ScanPipes` | app/src/main/java/top/alanpu/android/flappybird/GameView.kt:228-244 | the loop marks and scores pipes in index order up to the first collision, returns false there, and returns true if there is none |
| `Game.GameView.Tick` | app/src/main/java/top/alanpu/android/flappybird/GameView.kt:143-163 | the bird moves by the pre-update velocity; the pipes scroll, then the check runs on the scrolled pool; the velocity takes its gravity step; afterwards the pool holds exactly `pipeCount + 1` pipes, all right of `-pipeWidth`; the score has not decreased; the invariant is kept |
| `Game.GameView.OnTouchDown` | app/src/main/java/top/alanpu/android/flappybird/GameView.kt:266-270 | a touch sets the velocity to -10 and keeps the invariant |
| `Game.GameView.StopGame` | app/src/main/java/top/alanpu/android/flappybird/GameView.kt:341-343 | clears `running` and `alive` and changes nothing else, so a second call changes nothing |
| `Game.GameView.Fall` | app/src/main/java/top/alanpu/android/flappybird/GameView.kt:175-206 | the bird drops 15 pixels per step, `FallSteps` steps in all, and ends on or below the ground; then both flags are clear and exactly one GAME_OVER message has been sent |
| `Game.GameView.FinishRun` | app/src/main/java/top/alanpu/android/flappybird/GameView.kt:165-169 | after the loop, only a game still running with a dead bird falls and reports game over; otherwise nothing changes |

## Left out

- Rendering (`draw`, the canvas, the bitmaps, the rotated bird, the score text): only drawing calls, with no state of the game beyond the positions modelled here.
- The game thread, `startGame`, `resume`, `pause` and the surface callbacks: they start threads and pace them with `sleep(15)`, `sleep(300)` and `join(500)`. `stopGame` is modelled only by its two flag updates.
- The repetition of `run`'s loop: `Tick` is one pass of its body. How many passes happen depends on the player's touches and on `stopGame` calls from the UI thread, so it is not modelled. `FinishRun` is what follows the loop.
- `MediaPlayer`, `Handler` and `AlertDialog`: the sound of a point is not modelled, and the GAME_OVER message is a counter, `gameOverMessages`.
- Touch events other than `ACTION_DOWN`: the framework handles them through `super.onTouchEvent`.
- `java.util.Random`: its fraction is a parameter.
- Float rounding: the bird's values and `nextFloat()` are exact reals. A fraction that rounds `pipeBaseLength + baseline * r` up to the next integer is not modelled.
- The rotation counter `i` of `fall` and the rotated bitmap: only the number of steps is kept.
- The view's size is fixed for the life of a `GameView`. A view with zero size models the one before the framework's layout pass. The change of size during a session is framework behaviour and is not modelled.
- `Pipe` objects are values in a sequence, not shared objects. The source only reaches a pipe through the list and through the local that `getPipe` returns, so nothing aliases it.
- `score` is unbounded: the wrap-around of Kotlin's `Int` after 2^31 - 1 points is not modelled.
- `Game.GameView.GetPipe`: requires `index <= |pipes|`. For a larger index, the source appends one pipe and then throws `IndexOutOfBoundsException`. Its callers never pass such an index.
- `Game.GameView.IsAlive`: requires the pool to hold `pipeCount + 1` pipes and reads them directly. Its one caller runs it after the scroll loop has created every pipe, so the creating branch of `getPipe` is never reached there.
- `MainActivity.kt`, `GameActivity.kt` and `extension/Extension.kt`: navigation, audio and display-metric glue.
