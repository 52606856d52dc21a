/**
 * The tick interval of the game, in milliseconds. It starts at 900 and each
 * mushroom eaten shortens it by 75, never below 150.
 */
module Speed {

  const INITIAL_SPEED: int := 900
  const SPEED_STEP: int := 75
  const MIN_SPEED: int := 150

  function Max(a: int, b: int): int {
    if a >= b then a else b
  }

  /** The interval after one mushroom: `Math.max(MIN_SPEED, speed - SPEED_STEP)`. */
  function Ramped(speed: int): (r: int)
    ensures r >= MIN_SPEED
    ensures r == MIN_SPEED || r == speed - SPEED_STEP
    ensures r >= speed - SPEED_STEP
    ensures speed >= MIN_SPEED ==> r <= speed
    ensures speed > MIN_SPEED ==> r < speed
  {
    Max(MIN_SPEED, speed - SPEED_STEP)
  }

  /** `Ramped` applied `n` times. */
  function RampedTimes(speed: int, n: nat): int {
    if n == 0 then speed else Ramped(RampedTimes(speed, n - 1))
  }

  /** Closed form of the interval after `n` mushrooms in one session. */
  function SpeedAfter(n: nat): (r: int)
    ensures MIN_SPEED <= r <= INITIAL_SPEED
  {
    Max(MIN_SPEED, INITIAL_SPEED - SPEED_STEP * n)
  }

  /** From any interval at or above the floor, `n` ramps subtract `n` steps down to the floor. */
  lemma {:induction false} RampedTimesClosedForm(speed: int, n: nat)
    requires speed >= MIN_SPEED
    ensures RampedTimes(speed, n) == Max(MIN_SPEED, speed - SPEED_STEP * n)
  {
    if n > 0 {
      RampedTimesClosedForm(speed, n - 1);
    }
  }

  /** Starting from 900, after `n` mushrooms the interval is `max(150, 900 - 75 * n)`. */
  lemma SpeedAfterEats(n: nat)
    ensures RampedTimes(INITIAL_SPEED, n) == SpeedAfter(n)
  {
    RampedTimesClosedForm(INITIAL_SPEED, n);
  }

  /** One more mushroom moves the closed form one step on. */
  lemma RampStep(n: nat)
    ensures Ramped(SpeedAfter(n)) == SpeedAfter(n + 1)
  {
  }

  /** The interval never increases over a session and reaches the floor after ten mushrooms. */
  lemma SpeedAfterMonotone(m: nat, n: nat)
    requires m <= n
    ensures SpeedAfter(n) <= SpeedAfter(m)
    ensures n >= 10 ==> SpeedAfter(n) == MIN_SPEED
    ensures n < 10 ==> SpeedAfter(n) > MIN_SPEED
  {
  }
}
