/** The values the MarioGame driver exchanges with its collaborators: the
    events a world tick emits, Mario's visible state, the world snapshot, the
    action vector, the per-tick agent record and the episode result. The
    world's physics, the level loader and the agent are not modelled; they are
    function values bundled in `Collaborators`. */
module Engine {

  datatype Option<T> = None | Some(value: T)

  /** The kinds of event a world tick can emit. */
  datatype EventType =
    | Bump | StompKill | FireKill | ShellKill | FallKill
    | Jump | Land | Collect | Hurt | Kick | Lose | Win

  /** The four ways an enemy can be killed. */
  predicate IsKill(t: EventType)
  {
    t.StompKill? || t.FireKill? || t.ShellKill? || t.FallKill?
  }

  /** A game event: its type, its parameter, where Mario was and the tick. */
  datatype MarioEvent = MarioEvent(eventType: EventType, eventParam: int, marioX: int, marioY: int, time: int)

  datatype GameStatus = Running | Won | Lost | TimedOut

  /** Mario's state as far as the driver reads it. `mapX` is the tile column
      Mario stands in (getMapX). The positions `x` and `y` are
      floats in the game; the driver only copies them into each agent record
      and does no arithmetic on them, so they are held as integers here. */
  datatype Mario = Mario(x: int, y: int, mapX: int, isLarge: bool, isFire: bool, onGround: bool)

  /** A world snapshot. `physics` stands for everything else the world holds
      (tile map, sprites, timers), which only the world's own update reads. */
  datatype World = World(
    gameStatus: GameStatus,
    mario: Mario,
    currentTick: int,
    lastFrameEvents: seq<MarioEvent>,
    physics: seq<int>)

  /** One entry of the agent history: the actions, Mario's position, his
      power ordinal, whether he is on the ground, and the world tick. */
  datatype MarioAgentEvent = MarioAgentEvent(
    actions: seq<bool>, marioX: int, marioY: int, marioState: int, onGround: bool, time: int)

  /** What an episode returns: the final world and the two histories. */
  datatype MarioResult = MarioResult(world: World, gameEvents: seq<MarioEvent>, agentEvents: seq<MarioAgentEvent>)

  /** The collaborators the driver calls but whose code is not modelled:
      `newWorld` is `new MarioWorld(killEvents)` followed by
      `initializeLevel(level, timerMillis)`, `update` advances the world one
      tick, and `agent` is `getActions` on a forward model (a copy of the
      world, here a value) given the number of decisions asked for so far. */
  datatype Collaborators = Collaborators(
    newWorld: (seq<MarioEvent>, string, int) -> World,
    update: (World, seq<bool>) -> World,
    agent: (World, nat) -> seq<bool>)

  /** Slots of the action vector, in the order the step API fills them. */
  const NumberOfActions: nat := 5
  const Left: nat := 0
  const Right: nat := 1
  const Down: nat := 2
  const Speed: nat := 3
  const JumpKey: nat := 4

  /** The all-false action vector used for the settling update. */
  function NoActions(): (a: seq<bool>)
    ensures |a| == NumberOfActions
    ensures forall i :: 0 <= i < |a| ==> !a[i]
  {
    seq(NumberOfActions, _ => false)
  }

  /** The five-slot action vector the step API builds, filled slot by slot. */
  method BuildActions(left: bool, right: bool, down: bool, speed: bool, jump: bool) returns (actions: seq<bool>)
    ensures |actions| == NumberOfActions
    ensures actions[Left] == left && actions[Right] == right && actions[Down] == down
    ensures actions[Speed] == speed && actions[JumpKey] == jump
  {
    var a := new bool[NumberOfActions];
    a[Left] := left;
    a[Right] := right;
    a[Down] := down;
    a[Speed] := speed;
    a[JumpKey] := jump;
    actions := a[..];
  }

  /** Mario's power flags as the episode start sets them from `marioState`
      (0 small, 1 large, 2 fire); every other field is kept. */
  function WithInitialPower(m: Mario, marioState: int): (r: Mario)
    ensures r.isLarge <==> marioState > 0
    ensures r.isFire <==> marioState > 1
    ensures r.isFire ==> r.isLarge
    ensures r.(isLarge := m.isLarge, isFire := m.isFire) == m
  {
    m.(isLarge := marioState > 0, isFire := marioState > 1)
  }

  /** The power ordinal stored in each agent record. */
  function PowerOrdinal(m: Mario): (r: int)
    ensures 0 <= r <= 2
    ensures r == 0 <==> !m.isLarge && !m.isFire
    ensures r == 2 <==> m.isLarge && m.isFire
  {
    (if m.isLarge then 1 else 0) + (if m.isFire then 1 else 0)
  }

  function Clamp(v: int, lo: int, hi: int): int
    requires lo <= hi
  {
    if v < lo then lo else if v > hi then hi else v
  }

  /** Recording the initial power state gives back `marioState` clamped to
      [0, 2], and exactly `marioState` for 0, 1 and 2. */
  lemma InitialPowerOrdinal(m: Mario, marioState: int)
    ensures PowerOrdinal(WithInitialPower(m, marioState)) == Clamp(marioState, 0, 2)
    ensures 0 <= marioState <= 2 ==> PowerOrdinal(WithInitialPower(m, marioState)) == marioState
  {
  }
}
