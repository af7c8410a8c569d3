/** The per-tick reward of the step API: a fold over the events of the last
    tick plus a progress bonus driven by the marker `lastMarioTile`. Rewards
    and tiles are small whole numbers, so they are integers here. */
module Reward {
  import opened Engine

  /** How far past the marker Mario must be for the progress bonus. */
  const Stride: int := 8

  /** Number of events of type `t` in `es`. */
  function CountOf(es: seq<MarioEvent>, t: EventType): (n: nat)
    ensures n <= |es|
  {
    if es == [] then 0
    else CountOf(es[..|es| - 1], t) + (if es[|es| - 1].eventType == t then 1 else 0)
  }

  /** Number of kill events (stomp, fire, shell, fall) in `es`. */
  function KillCount(es: seq<MarioEvent>): (n: nat)
    ensures n <= |es|
  {
    if es == [] then 0
    else KillCount(es[..|es| - 1]) + (if IsKill(es[|es| - 1].eventType) then 1 else 0)
  }

  /** The reward the events of one tick earn, stated by counting: collect +1,
      hurt -1, win +10, and each kill +1 only when `killsPay` (Mario is past
      the progress marker). */
  function EventsReward(es: seq<MarioEvent>, killsPay: bool): int
  {
    CountOf(es, Collect) - CountOf(es, Hurt) + 10 * CountOf(es, Win)
      + (if killsPay then KillCount(es) else 0)
  }

  /** The loop of computeReward over the last tick's events, with the marker
      as it was before this call. */
  method SumEventRewards(events: seq<MarioEvent>, marioTile: int, lastMarioTile: int) returns (reward: int)
    ensures reward == EventsReward(events, marioTile > lastMarioTile)
  {
    reward := 0;
    var i := 0;
    while i < |events|
      invariant 0 <= i <= |events|
      invariant reward == EventsReward(events[..i], marioTile > lastMarioTile)
    {
      assert events[..i + 1][..i] == events[..i];
      match events[i].eventType {
        case Collect =>
          reward := reward + 1;
        case StompKill | FireKill | ShellKill | FallKill =>
          if marioTile > lastMarioTile {
            reward := reward + 1;
          }
        case Bump =>
        case Jump =>
        case Land =>
        case Hurt =>
          reward := reward - 1;
        case Kick =>
        case Lose =>
        case Win =>
          reward := reward + 10;
      }
      i := i + 1;
    }
    assert events[..i] == events;
  }

  /** The progress marker after one call: it moves to Mario's tile exactly
      when he is more than a stride past it. */
  function NextMarker(marker: int, marioTile: int): (r: int)
    ensures r >= marker
    ensures r != marker <==> marioTile > marker + Stride
    ensures r != marker ==> r == marioTile
    ensures marioTile <= r + Stride
  {
    if marioTile > marker + Stride then marioTile else marker
  }

  /** The progress bonus of one call. */
  function StrideBonus(marker: int, marioTile: int): (b: int)
    ensures b == 1 <==> NextMarker(marker, marioTile) != marker
    ensures b == 0 <==> NextMarker(marker, marioTile) == marker
  {
    if marioTile > marker + Stride then 1 else 0
  }

  /** The whole reward of one call of computeReward. */
  function TickReward(marker: int, es: seq<MarioEvent>, marioTile: int): int
  {
    EventsReward(es, marioTile > marker) + StrideBonus(marker, marioTile)
  }

  /** A second call with the same tile and no new events earns nothing: the
      progress bonus is never paid twice for the same tile. */
  lemma RepeatCallEarnsNothing(marker: int, marioTile: int)
    ensures TickReward(NextMarker(marker, marioTile), [], marioTile) == 0
  {
  }

  /** Without a step in between, a second call reads the same tick's events
      again and pays them again, but never the progress bonus; and when the
      first call moved the marker, the kills of the repeat do not pay. */
  lemma RepeatCallPaysEventsAgain(marker: int, es: seq<MarioEvent>, marioTile: int)
    ensures var m := NextMarker(marker, marioTile);
            StrideBonus(m, marioTile) == 0 &&
            TickReward(m, es, marioTile) == EventsReward(es, marioTile > m)
    ensures NextMarker(marker, marioTile) != marker ==>
            TickReward(NextMarker(marker, marioTile), es, marioTile) == EventsReward(es, false)
  {
  }

  lemma {:induction false} CountOfAppend(a: seq<MarioEvent>, b: seq<MarioEvent>, t: EventType)
    ensures CountOf(a + b, t) == CountOf(a, t) + CountOf(b, t)
    decreases |b|
  {
    if b == [] {
      assert a + b == a;
    } else {
      assert (a + b)[..|a + b| - 1] == a + b[..|b| - 1];
      CountOfAppend(a, b[..|b| - 1], t);
    }
  }

  lemma {:induction false} KillCountAppend(a: seq<MarioEvent>, b: seq<MarioEvent>)
    ensures KillCount(a + b) == KillCount(a) + KillCount(b)
    decreases |b|
  {
    if b == [] {
      assert a + b == a;
    } else {
      assert (a + b)[..|a + b| - 1] == a + b[..|b| - 1];
      KillCountAppend(a, b[..|b| - 1]);
    }
  }

  /** The event part of the reward is a fold: splitting a tick's events in
      two splits the reward the same way. */
  lemma EventsRewardAppend(a: seq<MarioEvent>, b: seq<MarioEvent>, killsPay: bool)
    ensures EventsReward(a + b, killsPay) == EventsReward(a, killsPay) + EventsReward(b, killsPay)
  {
    CountOfAppend(a, b, Collect);
    CountOfAppend(a, b, Hurt);
    CountOfAppend(a, b, Win);
    KillCountAppend(a, b);
  }

  /** Bump, jump, land, kick and lose events earn nothing. */
  lemma {:induction false} NeutralEventsEarnNothing(es: seq<MarioEvent>, killsPay: bool)
    requires forall i :: 0 <= i < |es| ==> es[i].eventType in {Bump, Jump, Land, Kick, Lose}
    ensures EventsReward(es, killsPay) == 0
  {
    if es != [] {
      NeutralEventsEarnNothing(es[..|es| - 1], killsPay);
    }
  }

  /** Kill events pay exactly when Mario is past the marker, and then each
      pays one: of two calls on the same tile and events that earn no bonus,
      one with the marker behind Mario and one with it at or ahead of him,
      the first earns exactly the kill count more. */
  lemma KillsPayOnlyWithProgress(es: seq<MarioEvent>, marioTile: int, behind: int, ahead: int)
    requires behind < marioTile <= behind + Stride
    requires marioTile <= ahead
    ensures TickReward(behind, es, marioTile) - TickReward(ahead, es, marioTile) == KillCount(es)
  {
  }

  /** The marker after a run of calls with the given tiles. */
  function MarkerAfter(marker: int, tiles: seq<int>): int
    decreases |tiles|
  {
    if tiles == [] then marker else MarkerAfter(NextMarker(marker, tiles[0]), tiles[1..])
  }

  /** The number of progress bonuses paid over a run of calls. */
  function Bonuses(marker: int, tiles: seq<int>): nat
    decreases |tiles|
  {
    if tiles == [] then 0
    else StrideBonus(marker, tiles[0]) + Bonuses(NextMarker(marker, tiles[0]), tiles[1..])
  }

  /** Each bonus moves the marker forward by more than a stride, so the marker
      never goes back and the bonuses are spaced at least 9 tiles apart. */
  lemma {:induction false} BonusesAreSpaced(marker: int, tiles: seq<int>)
    ensures MarkerAfter(marker, tiles) >= marker
    ensures (Stride + 1) * Bonuses(marker, tiles) <= MarkerAfter(marker, tiles) - marker
    decreases |tiles|
  {
    if tiles != [] {
      BonusesAreSpaced(NextMarker(marker, tiles[0]), tiles[1..]);
    }
  }

  /** The marker never passes the furthest tile Mario has reached. */
  lemma {:induction false} MarkerStaysBehindMario(marker: int, tiles: seq<int>, furthest: int)
    requires marker <= furthest
    requires forall i :: 0 <= i < |tiles| ==> tiles[i] <= furthest
    ensures MarkerAfter(marker, tiles) <= furthest
    decreases |tiles|
  {
    if tiles != [] {
      MarkerStaysBehindMario(NextMarker(marker, tiles[0]), tiles[1..], furthest);
    }
  }

  /** Over a whole episode, the bonuses paid are bounded by the progress made:
      at most one per nine tiles beyond the starting marker. */
  lemma BonusesBoundedByProgress(marker: int, tiles: seq<int>, furthest: int)
    requires marker <= furthest
    requires forall i :: 0 <= i < |tiles| ==> tiles[i] <= furthest
    ensures (Stride + 1) * Bonuses(marker, tiles) <= furthest - marker
  {
    BonusesAreSpaced(marker, tiles);
    MarkerStaysBehindMario(marker, tiles, furthest);
  }

  /** While Mario stays within a stride of the marker, however many calls
      (and kills) there are, no bonus is paid and the marker stays put. */
  lemma {:induction false} NoBonusWithinStride(marker: int, tiles: seq<int>)
    requires forall i :: 0 <= i < |tiles| ==> tiles[i] <= marker + Stride
    ensures Bonuses(marker, tiles) == 0
    ensures MarkerAfter(marker, tiles) == marker
    decreases |tiles|
  {
    if tiles != [] {
      NoBonusWithinStride(marker, tiles[1..]);
    }
  }
}
