# MarioGame driver model

A Dafny model of the game driver of the Mario AI Framework
(`src/engine/core/MarioGame.java`): the object that runs one episode of the
platformer for an agent, and the step API an external learning client uses
to drive the same world tick by tick.

What is modelled:

- **The episode loop** (`gameLoop`, module `GameLoop`). It settles a fresh
  world with Mario's initial power state. While the world is running, each
  iteration does the following, unless the pause flag is set:
  - asks the agent for actions;
  - advances the world one tick;
  - appends the tick's events to the game history and one record to the
    agent history.

  Each iteration then paces to the target frame rate against a deadline that
  grows by a fixed step. An interrupted sleep ends the loop early with the
  result so far.
- **Frame pacing** (`getDelay` and the deadline arithmetic, module `Pacing`).
- **The power-state ordinal** (module `Engine`): how `marioState` sets the
  large and fire flags, and how the ordinal is read back into each agent
  record.
- **The step API** (class `Game.MarioGame`):
  - `resetGame` builds a settled world and resets the progress marker;
  - `stepGame` builds the five-slot action vector;
  - `computeDone` reports whether the episode is over;
  - `computeReward` is the per-tick reward state machine of module `Reward`:
    collect +1, hurt -1, win +10, a kill +1 only when Mario is past the
    progress marker, and +1 each time Mario gets more than 8 tiles past the
    marker, which then moves to his tile.
- **Frame serialisation** (`initGame`, `getFrameSize` and
  `computeObservationRGB`, module `Frame`). It fills a little-endian
  `java.nio` byte buffer of 4 × 256 × 256 × 3 bytes, row by row, with each
  pixel's red, green and blue channels as 32-bit ints, then flips the buffer
  for reading.

The world's physics, the level loader and the agent are not modelled. They
are function values in `Engine.Collaborators`, called exactly where the
driver calls them. Events outside the simulation come in as one
`GameLoop.Tick` per loop iteration: the pause flag, the wall clock at the
pacing step, and whether the sleep was interrupted.

Two details of the code that the model keeps:

- The frame buffer is allocated by `initGame` (line 400), not by the
  constructor.
- Pacing happens only when `getDelay(fps) > 0` (lines 131-136 and 379), that
  is for `1 <= fps <= 1000`. A rate above 1000 gives a delay of 0 and no
  pacing at all.

## Model

| member | source | states |
|---|---|---|
| Engine.NoActions | src/engine/core/MarioGame.java:335 | the settling update gets an action vector of `numberOfActions` (5) slots, all released |
| Engine.BuildActions | src/engine/core/MarioGame.java:425-430 | the action vector has five slots, holding left, right, down, speed and jump in that order |
| Engine.WithInitialPower | src/engine/core/MarioGame.java:333-334 | Mario is large iff `marioState > 0` and fire iff `marioState > 1` (so fire implies large), and nothing else about him changes |
| Engine.PowerOrdinal | src/engine/core/MarioGame.java:370 | the recorded power state is in 0..2; it is 0 exactly when Mario is neither large nor fire, and 2 exactly when he is both |
| Engine.InitialPowerOrdinal | src/engine/core/MarioGame.java:333-334 | setting the power from `marioState` and reading the ordinal back as line 370 does gives `marioState` clamped to [0, 2], and exactly `marioState` for 0, 1 and 2 |
| Reward.SumEventRewards | src/engine/core/MarioGame.java:444-477 | the event loop of computeReward gives, per tick, (#collect) - (#hurt) + 10·(#win), plus (#kills) when Mario's tile is past the marker; this count is independent of the switch |
| Reward.NextMarker | src/engine/core/MarioGame.java:478-479 | the marker never goes back; it moves iff Mario is more than 8 tiles past it, and then to Mario's tile; afterwards Mario is at most 8 tiles past it |
| Reward.StrideBonus | src/engine/core/MarioGame.java:478-481 | the progress bonus is 1 exactly when the marker moves and 0 exactly when it stays |
| Reward.RepeatCallEarnsNothing | src/engine/core/MarioGame.java:478-481 | a second call on the same tile, on a tick with no events, earns nothing: a stride bonus is never paid twice |
| Reward.RepeatCallPaysEventsAgain | src/engine/core/MarioGame.java:446-481 | a second call without a step in between pays the same tick's events again but never the stride bonus, and its kills do not pay when the first call moved the marker |
| Reward.EventsRewardAppend | src/engine/core/MarioGame.java:446-477 | the event reward is additive: splitting a tick's events in two splits the reward the same way |
| Reward.NeutralEventsEarnNothing | src/engine/core/MarioGame.java:460-472 | bump, jump, land, kick and lose events earn nothing, whether or not kills pay |
| Reward.KillsPayOnlyWithProgress | src/engine/core/MarioGame.java:452-481 | of two calls on the same tile and events, neither earning a stride bonus, the one with the marker behind Mario earns exactly the number of kill events more than the one with the marker at or ahead of him |
| Reward.BonusesAreSpaced | src/engine/core/MarioGame.java:478-481 | over any run of calls the marker only advances, and every bonus paid accounts for at least 9 tiles of marker movement |
| Reward.MarkerStaysBehindMario | src/engine/core/MarioGame.java:478-479 | the marker never passes the furthest tile Mario has reached |
| Reward.BonusesBoundedByProgress | src/engine/core/MarioGame.java:478-481 | over an episode, 9 × (bonuses paid) is at most the distance from the starting marker to Mario's furthest tile |
| Reward.NoBonusWithinStride | src/engine/core/MarioGame.java:456-481 | however many calls and kills there are, while Mario stays within 8 tiles of the marker no bonus is paid and the marker stays put |
| Pacing.GetDelay | src/engine/core/MarioGame.java:131-136 | no delay for a rate that is not positive; otherwise the largest d with d·fps ≤ 1000; the delay is positive exactly for rates 1..1000 |
| Pacing.SleepFor | src/engine/core/MarioGame.java:382 | the sleep is never negative: it is the time left to the deadline, or 0 when the deadline has passed |
| Pacing.DeadlineDoesNotDrift | src/engine/core/MarioGame.java:379-382 | after k paced frames the deadline is exactly start + k·delay, whatever the clock readings |
| GameLoop.Record | src/engine/core/MarioGame.java:369-371 | the agent record holds the actions used, the world's tick and the power ordinal of Mario after the update |
| GameLoop.TickEventsAt | src/engine/core/MarioGame.java:367-368 | entry j of the per-iteration event list is empty for a paused iteration, else the events of the world iteration j produced |
| GameLoop.RecordsCountActiveTicks | src/engine/core/MarioGame.java:354-372 | the agent history grows by exactly one record per iteration that was not paused |
| GameLoop.EventsAreConcatenated | src/engine/core/MarioGame.java:354-372 | the game history is the in-order concatenation of the events of the iterations that were not paused |
| GameLoop.PausedTicksChangeNothing | src/engine/core/MarioGame.java:355-372 | iterations while paused change neither the world nor either history |
| GameLoop.HistoriesOnlyGrow | src/engine/core/MarioGame.java:368-371 | both histories are only ever appended to |
| GameLoop.RanWhileRunningAt | src/engine/core/MarioGame.java:354 | every iteration that ran started from a running world |
| GameLoop.SleepsAt | src/engine/core/MarioGame.java:379-382 | paced iteration j sleeps until start + (j+1)·delay, or not at all if that time has passed |
| GameLoop.PlayTick | src/engine/core/MarioGame.java:356-371 | an iteration that is not paused advances the world once with the agent's actions, appends exactly that tick's events, and appends exactly one record |
| GameLoop.Iterate | src/engine/core/MarioGame.java:355-386 | one loop iteration extends the bookkeeping, the deadline and the sleeps by exactly one tick of the schedule, and reports an interrupted sleep only when pacing is on |
| GameLoop.RunLoop | src/engine/core/MarioGame.java:326-389 | the loop starts from the world `Settle` builds (lines 327-335: a new world with the timer in milliseconds, Mario's initial power, one update with all keys released); the result is the bookkeeping of exactly the iterations run, each of which started while running; no iteration but the last was interrupted; a normal exit means the world is no longer running, and an interrupt means pacing was on; the deadline is start + iterations·delay and each sleep is as in SleepsAt |
| Frame.SizesAgree | src/engine/core/MarioGame.java:400 | the buffer capacity is Integer.SIZE/Byte.SIZE × height × width × 3 = 786432 bytes, 3072 per row and 12 per pixel |
| Frame.IntRoundTrip | src/engine/core/MarioGame.java:401 | every 32-bit int written by putInt in little-endian order reads back as itself |
| Frame.ChannelBytes | src/engine/core/MarioGame.java:493 | a colour channel (0..255) is written as its own value followed by three zero bytes |
| Frame.ColorOf | src/engine/core/MarioGame.java:491-492 | each channel of the colour of a packed pixel is in 0..255 |
| Frame.PackArgb | src/engine/core/MarioGame.java:491 | a packed pixel is a Java int (-2^31 .. 2^31-1), negative exactly when its alpha is 0x80 or more, so every opaque pixel is negative |
| Frame.ColorOfPackArgb | src/engine/core/MarioGame.java:491-492 | the colour of a packed pixel, as a Java int with any alpha, is the red, green and blue it was packed from |
| Frame.Offset | src/engine/core/MarioGame.java:489-493 | channel c of pixel (x, y) starts at byte 4·(3·(256y + x) + c): rows top to bottom, pixels left to right, three 4-byte ints each |
| Frame.RowBytesAt | src/engine/core/MarioGame.java:490-494 | pixel x of a row sits at bytes 12x .. 12x+12 of the row's bytes |
| Frame.FrameBytesAt | src/engine/core/MarioGame.java:489-495 | row y of the frame sits at bytes 3072y .. 3072y+3072 |
| Frame.FrameLayout | src/engine/core/MarioGame.java:489-495 | channel c of pixel (x, y) is the little-endian int at byte 4·(3·(256y + x) + c) |
| Frame.FrameRoundTrip | src/engine/core/MarioGame.java:489-495 | decoding the frame at pixel (x, y) gives back the red, green and blue of the image's pixel there |
| Frame.PutPixel | src/engine/core/MarioGame.java:493 | the red, green and blue ints of one pixel are appended at the position, which advances by 12; the bytes from the new position on are unchanged |
| Frame.PutRow | src/engine/core/MarioGame.java:490-494 | the inner loop appends the bytes of every pixel of row y, left to right; the bytes from the new position on are unchanged |
| Frame.PutFrame | src/engine/core/MarioGame.java:489-495 | the two loops fill the whole buffer with the frame's bytes, top row first |
| Frame.ByteBuffer.AllocateDirect | src/engine/core/MarioGame.java:400 | a new buffer is zero-filled, with position 0 and limit equal to its capacity |
| Frame.ByteBuffer.Clear | src/engine/core/MarioGame.java:488 | the position goes back to 0 and the limit to the capacity |
| Frame.ByteBuffer.PutInt | src/engine/core/MarioGame.java:493 | putInt appends the four little-endian bytes of the int, advances by four and leaves the rest of the buffer alone |
| Frame.ByteBuffer.Flip | src/engine/core/MarioGame.java:496 | the limit becomes the old position and the position 0 |
| Game.MarioGame.constructor | src/engine/core/MarioGame.java:127-129 | the game keeps the kill events; it starts with no world, marker 0 and no frame buffer |
| Game.MarioGame.RunGame | src/engine/core/MarioGame.java:310-323 | the result is the world and both histories of exactly the loop iterations run, each of which started while the world was running; no iteration but the last had its sleep interrupted while pacing; the game keeps the final world; a normal exit leaves the episode done, an interrupt means pacing was on and the last iteration's sleep was interrupted, and running out of schedule leaves it not done |
| Game.MarioGame.InitGame | src/engine/core/MarioGame.java:400-401 | a fresh buffer of 4·256·256·3 bytes, with position 0 and limit equal to capacity |
| Game.MarioGame.GetFrameSize | src/engine/core/MarioGame.java:117-119 | the frame size is the buffer's capacity, 786432 bytes |
| Game.MarioGame.ResetGame | src/engine/core/MarioGame.java:404-410 | a fresh world for the level with the timer in milliseconds, settled by one update with no keys; the marker is back to 0; the power state is not set |
| Game.MarioGame.ComputeDone | src/engine/core/MarioGame.java:419-421 | the episode is done exactly when the world has won, lost or timed out |
| Game.MarioGame.StepGame | src/engine/core/MarioGame.java:423-432 | the world advances once with the action vector (left, right, down, speed, jump) |
| Game.MarioGame.ComputeReward | src/engine/core/MarioGame.java:443-483 | the reward of the last tick, with kills paid against the marker as it was before the call, plus the stride bonus; the marker becomes NextMarker of the old marker |
| Game.MarioGame.ComputeObservationRGB | src/engine/core/MarioGame.java:485-496 | after the flip at line 496 the buffer holds exactly the frame's bytes of the image, with position 0 and limit at the capacity, ready to be read; the socket write of line 497 is not modelled |

## Left out

- The socket server is not modelled because it is network I/O: the no-argument constructor with its port and listener (lines 84-111), `getPort`, and the final write of the buffer to the connection (line 497).
- Game.MarioGame.ComputeObservationRGB: its contract describes the buffer after the flip at line 496. Java then writes the buffer to the client at line 497, which moves its position forward by the bytes written; that write and its effect on the position are not modelled.
- The Swing window, `MarioRender`, `renderWorld` and `getSnapshot` are left out as rendering. The rendered image is the parameter `image` of `ComputeObservationRGB`, a function from (x, y) to the packed pixel.
- The visuals flag and `initializeVisuals` in `runGame`, `gameLoop` and `resetGame` only affect rendering and are not modelled.
- `MarioWorld` (physics, `initializeLevel`, `update`, `clone`), the level loader and the agent are function values in `Engine.Collaborators`. The forward model is a copy of the world value.
- The agent is part of `env`, fixed when the object is built. Java's `runGame` takes the agent on every call and stores it with `setAgent` (lines 139, 310 and 322); a different agent per episode is modelled by building the game with a different `env`.
- GameLoop.Record: records hold a copy of the action vector and `RunGame`'s result holds a copy of the world, while Java holds references to both. Each Java record keeps the agent's own `boolean[]` (lines 358 and 369), the same array passed to `update` (line 367), so an agent that reuses and later changes one array changes every record that holds it. `new MarioResult(this.world, …)` (line 388) returns the game's live world, so a later `stepGame` (line 431) changes the world inside an earlier result; in the model `StepGame` changes only the game's own world.
- The agent's internal state is not modelled, and neither is `agent.initialize` (line 350). The agent sees the world and the number of decisions asked for so far.
- `MarioTimer`, the agent's time budget of `maxTime` (40 ms) per decision (lines 27-30, 349-350 and 357-358), is left out. The agent is modelled as a function of the world copy and the number of decisions made so far only, so an agent whose decisions depend on the time it has left is not captured.
- The verbose slow-agent log (lines 359-365) and `setAgent`'s key-listener hookup (lines 138-143) are left out. They affect diagnostics and input wiring only.
- The wall clock, `Thread.sleep` and its interruption, and the pause flag set from another thread are inputs, one `Tick` per iteration. The sleeps are returned rather than performed.
- GameLoop.RunLoop: the model stops with `ScheduleExhausted` when the finite schedule of ticks runs out. The real loop has no such bound; the exit exists only so the loop provably terminates.
- Floats are modelled as integers. The reward and `lastMarioTile` only ever hold small whole numbers, which a float holds exactly. Mario's `x` and `y` are fractional floats in the game; the driver only copies them into each agent record (line 369) and does no arithmetic on them, so they are integers here.
- Game.MarioGame: the calls Java would fail with a NullPointerException are excluded by preconditions rather than modelled as errors. `ComputeDone`, `StepGame` and `ComputeReward` require a world, but in Java `world` is null before the first `resetGame` or `runGame` (lines 420, 431, 445). `GetFrameSize` and `ComputeObservationRGB` require the buffer, which is null before `initGame` (lines 118, 488). Conversely, `ResetGame` accepts a call before `initGame`, where Java fails at line 408 because `render` is still null. `ComputeObservationRGB` accepts a call after `initGame` but before any `resetGame`, where Java fails at lines 487-488 because `renderTarget` is only created at line 413. `RunGame` accepts any agent, where Java's `runGame` with visuals off and a `KeyAdapter` agent fails at line 141 because `render` is null. Finally, `worker` is assigned only by the accept handler of the no-argument constructor (line 93), so on a game built with `MarioGame(killEvents)` (lines 127-129), the only constructor modelled, Java's `computeObservationRGB` always fails at line 497 after filling the buffer; the model returns normally.
- Game.MarioGame.ResetGame: the Java `int` overflow of `1000 * timer` for very large timers is not modelled. Neither is `long` overflow of the pacing deadline.
- Frame.ByteBuffer.PutInt: a put past the limit (BufferOverflowException in Java) is excluded by a precondition rather than modelled as an error. The frame loop never reaches the limit.
- Frame.ByteBuffer: the buffer is always little-endian, because `initGame` sets that order before any use. Big-endian order is not modelled.
- The numeric event codes (`EventType.values()[code - 1]`, line 447) are not modelled; events carry their `EventType` directly.
- `getCompletionPercentage` and `getHeightBonus` (lines 435-441) are left out. They divide floats read from the level, which is not modelled.
- The `playGame` and shorter `runGame` overloads (lines 156-308) are left out. They only fill in default arguments, and `playGame` passes a keyboard agent.
