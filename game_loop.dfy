/** The episode loop of MarioGame (gameLoop): settle the world, then, while it
    is running, ask the agent for actions, advance the world once, append the
    tick's events and one agent record, and pace to the target frame rate.

    What happens outside the simulation on each iteration comes in as a
    `Tick`: whether the pause flag was set, the clock reading at the pacing
    step, and whether the pacing sleep was interrupted. */
module GameLoop {
  import opened Engine
  import Pacing

  datatype Tick = Tick(paused: bool, now: int, interrupted: bool)

  /** Why the loop stopped. `ScheduleExhausted` only arises because the model
      runs over a finite schedule of ticks. */
  datatype Exit = Finished | Interrupted | ScheduleExhausted

  /** The world and the two histories the loop accumulates. */
  datatype History = History(world: World, gameEvents: seq<MarioEvent>, agentEvents: seq<MarioAgentEvent>)

  /** The agent record of a tick, read from the world after the update. */
  function Record(actions: seq<bool>, w: World): (r: MarioAgentEvent)
    ensures r.actions == actions && r.time == w.currentTick
    ensures r.marioState == PowerOrdinal(w.mario)
  {
    MarioAgentEvent(actions, w.mario.x, w.mario.y, PowerOrdinal(w.mario), w.mario.onGround, w.currentTick)
  }

  /** The world at the start of the loop: created from the level with the
      timer in milliseconds, powered up from `marioState`, and settled by one
      update with no keys pressed. */
  function Settle(env: Collaborators, killEvents: seq<MarioEvent>, level: string, timer: int, marioState: int): World
  {
    var w := env.newWorld(killEvents, level, 1000 * timer);
    env.update(w.(mario := WithInitialPower(w.mario, marioState)), NoActions())
  }

  /** The bookkeeping of one iteration. */
  function Advance(env: Collaborators, h: History, paused: bool): History
  {
    if paused then h
    else
      var actions := env.agent(h.world, |h.agentEvents|);
      var w := env.update(h.world, actions);
      History(w, h.gameEvents + w.lastFrameEvents, h.agentEvents + [Record(actions, w)])
  }

  /** The bookkeeping of a run of iterations, in order. */
  function Replay(env: Collaborators, h: History, ticks: seq<Tick>): History
    decreases |ticks|
  {
    if ticks == [] then h
    else Advance(env, Replay(env, h, ticks[..|ticks| - 1]), ticks[|ticks| - 1].paused)
  }

  /** The number of iterations that were not paused. */
  function ActiveCount(ticks: seq<Tick>): (n: nat)
    ensures n <= |ticks|
  {
    if ticks == [] then 0
    else ActiveCount(ticks[..|ticks| - 1]) + (if ticks[|ticks| - 1].paused then 0 else 1)
  }

  function Flatten(ss: seq<seq<MarioEvent>>): seq<MarioEvent>
  {
    if ss == [] then [] else Flatten(ss[..|ss| - 1]) + ss[|ss| - 1]
  }

  /** The events each iteration contributes, read off the world it produced:
      none for a paused iteration. */
  function TickEvents(env: Collaborators, h: History, ticks: seq<Tick>): (r: seq<seq<MarioEvent>>)
    ensures |r| == |ticks|
    decreases |ticks|
  {
    if ticks == [] then []
    else
      var front := ticks[..|ticks| - 1];
      TickEvents(env, h, front)
        + [if ticks[|ticks| - 1].paused then [] else Replay(env, h, ticks).world.lastFrameEvents]
  }

  /** One agent record per iteration that was not paused. */
  lemma {:induction false} RecordsCountActiveTicks(env: Collaborators, h: History, ticks: seq<Tick>)
    ensures |Replay(env, h, ticks).agentEvents| == |h.agentEvents| + ActiveCount(ticks)
    decreases |ticks|
  {
    if ticks != [] {
      RecordsCountActiveTicks(env, h, ticks[..|ticks| - 1]);
    }
  }

  /** Entry `j` holds the events of the world iteration `j` produced. */
  lemma {:induction false} TickEventsAt(env: Collaborators, h: History, ticks: seq<Tick>, j: int)
    requires 0 <= j < |ticks|
    ensures TickEvents(env, h, ticks)[j] ==
            if ticks[j].paused then [] else Replay(env, h, ticks[..j + 1]).world.lastFrameEvents
    decreases |ticks|
  {
    var front := ticks[..|ticks| - 1];
    if j < |ticks| - 1 {
      TickEventsAt(env, h, front, j);
      assert front[..j + 1] == ticks[..j + 1];
    } else {
      assert ticks[..j + 1] == ticks;
    }
  }

  /** The event history is the in-order concatenation of the events of the
      iterations that were not paused. */
  lemma {:induction false} EventsAreConcatenated(env: Collaborators, h: History, ticks: seq<Tick>)
    ensures Replay(env, h, ticks).gameEvents == h.gameEvents + Flatten(TickEvents(env, h, ticks))
    decreases |ticks|
  {
    if ticks != [] {
      var front := ticks[..|ticks| - 1];
      EventsAreConcatenated(env, h, front);
      var prev := TickEvents(env, h, front);
      var last := if ticks[|ticks| - 1].paused then [] else Replay(env, h, ticks).world.lastFrameEvents;
      assert TickEvents(env, h, ticks) == prev + [last];
      assert Flatten(prev + [last]) == Flatten(prev) + last by {
        assert (prev + [last])[..|prev|] == prev;
      }
    }
  }

  /** Paused iterations change neither the world nor either history. */
  lemma {:induction false} PausedTicksChangeNothing(env: Collaborators, h: History, ticks: seq<Tick>)
    requires forall j :: 0 <= j < |ticks| ==> ticks[j].paused
    ensures Replay(env, h, ticks) == h
    decreases |ticks|
  {
    if ticks != [] {
      PausedTicksChangeNothing(env, h, ticks[..|ticks| - 1]);
    }
  }

  /** The histories are only ever appended to. */
  lemma {:induction false} HistoriesOnlyGrow(env: Collaborators, h: History, ticks: seq<Tick>)
    ensures h.gameEvents <= Replay(env, h, ticks).gameEvents
    ensures h.agentEvents <= Replay(env, h, ticks).agentEvents
    decreases |ticks|
  {
    if ticks != [] {
      HistoriesOnlyGrow(env, h, ticks[..|ticks| - 1]);
    }
  }

  /** The loop's starting point: the settled world and empty histories. */
  function Initial(env: Collaborators, killEvents: seq<MarioEvent>, level: string, timer: int, marioState: int): History
  {
    History(Settle(env, killEvents, level, timer, marioState), [], [])
  }

  /** Every iteration of `ticks` started with the world still running. */
  predicate RanWhileRunning(env: Collaborators, h: History, ticks: seq<Tick>)
    decreases |ticks|
  {
    ticks == [] ||
    (RanWhileRunning(env, h, ticks[..|ticks| - 1]) &&
     Replay(env, h, ticks[..|ticks| - 1]).world.gameStatus == Running)
  }

  lemma {:induction false} RanWhileRunningAt(env: Collaborators, h: History, ticks: seq<Tick>, j: int)
    requires RanWhileRunning(env, h, ticks)
    requires 0 <= j < |ticks|
    ensures Replay(env, h, ticks[..j]).world.gameStatus == Running
    decreases |ticks|
  {
    var front := ticks[..|ticks| - 1];
    if j < |ticks| - 1 {
      RanWhileRunningAt(env, h, front, j);
      assert front[..j] == ticks[..j];
    }
  }

  /** The sleeps a run of paced iterations asks for. */
  function Sleeps(start: int, delay: nat, ticks: seq<Tick>): (r: seq<nat>)
    ensures |r| == |ticks|
    decreases |ticks|
  {
    if ticks == [] then []
    else Sleeps(start, delay, ticks[..|ticks| - 1]) + [Pacing.SleepFor(Pacing.Deadline(start, delay, |ticks|), ticks[|ticks| - 1].now)]
  }

  /** The sleep of paced iteration `j` waits until `start + (j + 1) * delay`,
      or not at all if that time has passed. */
  lemma {:induction false} SleepsAt(start: int, delay: nat, ticks: seq<Tick>, j: int)
    requires 0 <= j < |ticks|
    ensures Sleeps(start, delay, ticks)[j] == Pacing.SleepFor(start + (j + 1) * delay, ticks[j].now)
    decreases |ticks|
  {
    var front := ticks[..|ticks| - 1];
    if j < |ticks| - 1 {
      SleepsAt(start, delay, front, j);
    } else {
      Pacing.DeadlineDoesNotDrift(start, delay, j + 1);
    }
  }

  /** What one more iteration of the schedule adds to the bookkeeping, the
      running record and the sleeps. */
  lemma StepOfSchedule(env: Collaborators, h: History, schedule: seq<Tick>, i: nat, start: int, delay: nat)
    requires i < |schedule|
    ensures Replay(env, h, schedule[..i + 1]) == Advance(env, Replay(env, h, schedule[..i]), schedule[i].paused)
    ensures RanWhileRunning(env, h, schedule[..i]) && Replay(env, h, schedule[..i]).world.gameStatus == Running
            ==> RanWhileRunning(env, h, schedule[..i + 1])
    ensures Sleeps(start, delay, schedule[..i + 1]) ==
            Sleeps(start, delay, schedule[..i]) + [Pacing.SleepFor(Pacing.Deadline(start, delay, i + 1), schedule[i].now)]
  {
    assert schedule[..i + 1][..i] == schedule[..i];
  }

  /** One iteration that is not paused: ask the agent on a copy of the world,
      advance the world once, and append the tick's events and one record. */
  method PlayTick(env: Collaborators, world: World, gameEvents: seq<MarioEvent>, agentEvents: seq<MarioAgentEvent>)
    returns (world': World, gameEvents': seq<MarioEvent>, agentEvents': seq<MarioAgentEvent>)
    ensures History(world', gameEvents', agentEvents') == Advance(env, History(world, gameEvents, agentEvents), false)
    ensures gameEvents' == gameEvents + world'.lastFrameEvents
    ensures |agentEvents'| == |agentEvents| + 1 && agentEvents'[..|agentEvents|] == agentEvents
  {
    var actions := env.agent(world, |agentEvents|);
    world' := env.update(world, actions);
    gameEvents' := gameEvents + world'.lastFrameEvents;
    agentEvents' := agentEvents + [Record(actions, world')];
  }

  /** One iteration of the loop body, from the state after `i` iterations of
      `schedule`: advance unless paused, then pace; `stop` reports an
      interrupted sleep. */
  method Iterate(env: Collaborators, ghost h0: History, schedule: seq<Tick>, i: nat, start: int, delay: nat,
                 world: World, gameEvents: seq<MarioEvent>, agentEvents: seq<MarioAgentEvent>,
                 currentTime: int, sleeps: seq<nat>)
    returns (world': World, gameEvents': seq<MarioEvent>, agentEvents': seq<MarioAgentEvent>,
             currentTime': int, sleeps': seq<nat>, stop: bool)
    requires i < |schedule|
    requires History(world, gameEvents, agentEvents) == Replay(env, h0, schedule[..i])
    requires RanWhileRunning(env, h0, schedule[..i]) && world.gameStatus == Running
    requires currentTime == Pacing.Deadline(start, delay, if delay > 0 then i else 0)
    requires sleeps == if delay > 0 then Sleeps(start, delay, schedule[..i]) else []
    requires delay > 0 ==> forall j :: 0 <= j < i ==> !schedule[j].interrupted
    ensures History(world', gameEvents', agentEvents') == Replay(env, h0, schedule[..i + 1])
    ensures RanWhileRunning(env, h0, schedule[..i + 1])
    ensures currentTime' == Pacing.Deadline(start, delay, if delay > 0 then i + 1 else 0)
    ensures sleeps' == if delay > 0 then Sleeps(start, delay, schedule[..i + 1]) else []
    ensures stop <==> delay > 0 && schedule[i].interrupted
    ensures !stop && delay > 0 ==> forall j :: 0 <= j < i + 1 ==> !schedule[j].interrupted
  {
    var tick := schedule[i];
    StepOfSchedule(env, h0, schedule, i, start, delay);
    world', gameEvents', agentEvents' := world, gameEvents, agentEvents;
    if !tick.paused {
      world', gameEvents', agentEvents' := PlayTick(env, world, gameEvents, agentEvents);
    }
    currentTime', sleeps', stop := currentTime, sleeps, false;
    if delay > 0 {
      currentTime' := currentTime + delay;
      sleeps' := sleeps + [Pacing.SleepFor(currentTime', tick.now)];
      stop := tick.interrupted;
    }
  }

  /** The episode loop. It returns the result, why it stopped, the number of
      iterations run, the sleeps it asked for and the final deadline. */
  method RunLoop(env: Collaborators, killEvents: seq<MarioEvent>, level: string, timer: int,
                 marioState: int, fps: int, start: int, schedule: seq<Tick>)
    returns (result: MarioResult, exit: Exit, iterations: nat, sleeps: seq<nat>, currentTime: int)
    ensures iterations <= |schedule|
    // the result is the bookkeeping of exactly the iterations run, whatever the exit
    ensures var h := Replay(env, Initial(env, killEvents, level, timer, marioState), schedule[..iterations]);
            result == MarioResult(h.world, h.gameEvents, h.agentEvents)
    ensures RanWhileRunning(env, Initial(env, killEvents, level, timer, marioState), schedule[..iterations])
    // no iteration before the last one was interrupted
    ensures forall j :: 0 <= j < iterations - 1 ==> !(Pacing.GetDelay(fps) > 0 && schedule[j].interrupted)
    ensures exit == Finished ==> result.world.gameStatus != Running
    ensures exit == Interrupted ==> Pacing.GetDelay(fps) > 0 && iterations > 0 && schedule[iterations - 1].interrupted
    ensures exit == ScheduleExhausted ==> iterations == |schedule| && result.world.gameStatus == Running
    // pacing: the deadline advances by the fixed step once per iteration
    ensures currentTime == Pacing.Deadline(start, Pacing.GetDelay(fps), if Pacing.GetDelay(fps) > 0 then iterations else 0)
    ensures sleeps == if Pacing.GetDelay(fps) > 0 then Sleeps(start, Pacing.GetDelay(fps), schedule[..iterations]) else []
  {
    var world := Settle(env, killEvents, level, timer, marioState);
    ghost var h0 := Initial(env, killEvents, level, timer, marioState);
    var gameEvents: seq<MarioEvent> := [];
    var agentEvents: seq<MarioAgentEvent> := [];
    var delay := Pacing.GetDelay(fps);
    currentTime := start;
    sleeps := [];
    iterations := 0;
    exit := Finished;
    while world.gameStatus == Running
      invariant iterations <= |schedule|
      invariant History(world, gameEvents, agentEvents) == Replay(env, h0, schedule[..iterations])
      invariant RanWhileRunning(env, h0, schedule[..iterations])
      invariant delay > 0 ==> forall j :: 0 <= j < iterations ==> !schedule[j].interrupted
      invariant currentTime == Pacing.Deadline(start, delay, if delay > 0 then iterations else 0)
      invariant sleeps == if delay > 0 then Sleeps(start, delay, schedule[..iterations]) else []
      invariant exit == Finished
      decreases |schedule| - iterations
    {
      if iterations == |schedule| {
        exit := ScheduleExhausted;
        break;
      }
      var stop;
      world, gameEvents, agentEvents, currentTime, sleeps, stop :=
        Iterate(env, h0, schedule, iterations, start, delay, world, gameEvents, agentEvents, currentTime, sleeps);
      iterations := iterations + 1;
      if stop {
        exit := Interrupted;
        break;
      }
    }
    result := MarioResult(world, gameEvents, agentEvents);
  }
}
