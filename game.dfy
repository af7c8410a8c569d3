/** The MarioGame driver object: it owns the world, the progress marker of the
    reward and the frame buffer, and offers the timed episode (runGame) and
    the step API used by external clients (initGame, resetGame, stepGame,
    computeReward, computeDone, computeObservationRGB). */
module Game {
  import opened Engine
  import Reward
  import Frame
  import GameLoop
  import Pacing

  class MarioGame {
    /** The events that kill the player in the worlds this game creates. */
    const killEvents: seq<MarioEvent>
    /** The world, level loader and agent the driver calls. */
    const env: Collaborators
    /** The current world; none before the first episode or reset. */
    var world: Option<World>
    /** The progress marker of computeReward. */
    var lastMarioTile: int
    /** The frame buffer; allocated by initGame. */
    var byteBuffer: Frame.ByteBuffer?

    /** The frame buffer is allocated at its fixed capacity. */
    ghost predicate FrameReady()
      reads this, byteBuffer
    {
      byteBuffer != null && byteBuffer.Valid() && byteBuffer.data.Length == Frame.FrameSize
    }

    /** MarioGame(killEvents). */
    constructor (killEvents: seq<MarioEvent>, env: Collaborators)
      ensures this.killEvents == killEvents && this.env == env
      ensures world == None && lastMarioTile == 0 && byteBuffer == null
    {
      this.killEvents := killEvents;
      this.env := env;
      world := None;
      lastMarioTile := 0;
      byteBuffer := null;
    }

    /** runGame: play one timed episode; the game keeps its final world. The
        result is the bookkeeping of the `iterations` loop iterations run. */
    method RunGame(level: string, timer: int, marioState: int, fps: int, start: int, schedule: seq<GameLoop.Tick>)
      returns (result: MarioResult, exit: GameLoop.Exit, iterations: nat)
      modifies this`world
      ensures iterations <= |schedule|
      ensures var h := GameLoop.Replay(env, GameLoop.Initial(env, killEvents, level, timer, marioState), schedule[..iterations]);
              result == MarioResult(h.world, h.gameEvents, h.agentEvents)
      ensures GameLoop.RanWhileRunning(env, GameLoop.Initial(env, killEvents, level, timer, marioState), schedule[..iterations])
      ensures forall j :: 0 <= j < iterations - 1 ==> !(Pacing.GetDelay(fps) > 0 && schedule[j].interrupted)
      ensures world == Some(result.world)
      ensures exit == GameLoop.Finished ==> ComputeDone()
      ensures exit == GameLoop.Interrupted ==> Pacing.GetDelay(fps) > 0 && iterations > 0 && schedule[iterations - 1].interrupted
      ensures exit == GameLoop.ScheduleExhausted ==> iterations == |schedule| && !ComputeDone()
    {
      var sleeps, currentTime;
      result, exit, iterations, sleeps, currentTime := GameLoop.RunLoop(env, killEvents, level, timer, marioState, fps, start, schedule);
      world := Some(result.world);
    }

    /** initGame: allocate the frame buffer, 4 bytes per channel, 3 channels
        per pixel of the 256 x 256 screen, in little-endian order. */
    method InitGame()
      modifies this`byteBuffer
      ensures FrameReady() && fresh(byteBuffer) && fresh(byteBuffer.data)
      ensures byteBuffer.data.Length == 4 * 256 * 256 * 3
      ensures byteBuffer.position == 0 && byteBuffer.limit == byteBuffer.data.Length
    {
      byteBuffer := new Frame.ByteBuffer.AllocateDirect(Frame.IntSize * Frame.Height * Frame.Width * 3);
    }

    /** getFrameSize: the capacity of the frame buffer. */
    method GetFrameSize() returns (size: nat)
      requires FrameReady()
      ensures size == Frame.FrameSize
    {
      size := byteBuffer.data.Length;
    }

    /** resetGame: a fresh, settled world for the level and the progress
        marker back to 0, so a new episode's rewards do not depend on the
        previous one. The power state is not set here. */
    method ResetGame(level: string, timer: int)
      modifies this`world, this`lastMarioTile
      ensures world == Some(env.update(env.newWorld(killEvents, level, 1000 * timer), NoActions()))
      ensures lastMarioTile == 0
    {
      var w := env.newWorld(killEvents, level, 1000 * timer);
      world := Some(env.update(w, NoActions()));
      lastMarioTile := 0;
    }

    /** computeDone: the episode is over once the world is not running. */
    predicate ComputeDone()
      reads this
      requires world.Some?
      ensures ComputeDone() <==> world.value.gameStatus in {Won, Lost, TimedOut}
    {
      world.value.gameStatus != Running
    }

    /** stepGame: advance the world once with the five keys in their fixed
        order left, right, down, speed, jump. */
    method StepGame(left: bool, right: bool, down: bool, speed: bool, jump: bool)
      requires world.Some?
      modifies this`world
      ensures world == Some(env.update(old(world).value, [left, right, down, speed, jump]))
    {
      var actions := BuildActions(left, right, down, speed, jump);
      assert actions == [left, right, down, speed, jump];
      world := Some(env.update(world.value, actions));
    }

    /** computeReward: the reward of the last tick, with kills paid against
        the marker as it was before this call, and the marker advanced when
        Mario is more than a stride past it. */
    method ComputeReward() returns (reward: int)
      requires world.Some?
      modifies this`lastMarioTile
      ensures reward == Reward.TickReward(old(lastMarioTile), world.value.lastFrameEvents, world.value.mario.mapX)
      ensures lastMarioTile == Reward.NextMarker(old(lastMarioTile), world.value.mario.mapX)
    {
      var marioTile := world.value.mario.mapX;
      reward := Reward.SumEventRewards(world.value.lastFrameEvents, marioTile, lastMarioTile);
      if marioTile > lastMarioTile + Reward.Stride {
        lastMarioTile := marioTile;
        reward := reward + 1;
      }
    }

    /** computeObservationRGB: write the rendered image into the frame
        buffer, row by row, each pixel as red, green, blue ints, then flip
        it for reading. `image` is the packed pixel at (x, y) of the
        rendered snapshot. */
    method ComputeObservationRGB(image: (int, int) -> int)
      requires FrameReady()
      modifies byteBuffer, byteBuffer.data
      ensures FrameReady()
      ensures byteBuffer.data[..] == Frame.FrameBytes(image, Frame.Height)
      ensures byteBuffer.position == 0 && byteBuffer.limit == Frame.FrameSize
    {
      var buf := byteBuffer;
      buf.Clear();
      Frame.PutFrame(buf, image);
      buf.Flip();
    }
  }
}
