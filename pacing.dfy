/** Frame pacing of the episode loop: a per-frame delay derived from the
    target frame rate and a deadline that grows by that delay. */
module Pacing {

  /** Milliseconds per frame for a target rate; 0 (no pacing) for a rate
      that is not positive. Java's `1000 / fps` truncates toward zero, which
      for positive operands agrees with Dafny's division. */
  function GetDelay(fps: int): (d: nat)
    ensures fps <= 0 ==> d == 0
    ensures fps > 0 ==> d * fps <= 1000 < (d + 1) * fps
    ensures d > 0 <==> 1 <= fps <= 1000
  {
    if fps <= 0 then 0 else 1000 / fps
  }

  /** The sleep before the next frame: never negative. */
  function SleepFor(deadline: int, now: int): (ms: nat)
    ensures ms >= deadline - now
    ensures ms == 0 || ms == deadline - now
  {
    if deadline - now > 0 then deadline - now else 0
  }

  /** The deadline after `k` paced frames, advanced one fixed step per frame
      as the loop does. */
  function Deadline(start: int, delay: nat, k: nat): int
  {
    if k == 0 then start else Deadline(start, delay, k - 1) + delay
  }

  /** Advancing the deadline step by step gives exactly `start + k * delay`:
      rounding in `1000 / fps` does not accumulate beyond the fixed step. */
  lemma {:induction false} DeadlineDoesNotDrift(start: int, delay: nat, k: nat)
    ensures Deadline(start, delay, k) == start + k * delay
  {
    if k > 0 {
      DeadlineDoesNotDrift(start, delay, k - 1);
      assert k * delay == (k - 1) * delay + delay;
    }
  }
}
