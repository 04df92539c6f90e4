// The speed ramp of the game loop: `updateInterval` lowers the delay between
// ticks by a fixed step, down to a floor. Whether the step is due (the source
// tests the elapsed seconds against a period) is the boolean `trigger`.
module Speed {

  const InitialInterval: int := 1000
  const IntervalDecrementRate: int := 10
  const MinimumInterval: int := 200

  function Max(a: int, b: int): int {
    if a >= b then a else b
  }

  /** `updateInterval`: when the step is due the interval drops by the
      decrement but not below the floor; otherwise it stays. It never rises,
      and an interval at or above the floor stays at or above it. When the
      step is due but would go below the floor, the result is exactly the
      floor: `RampFormula` on the single update `[true]` gives
      `Max(MinimumInterval, cur - IntervalDecrementRate)` for every `cur` at
      or above the floor. */
  function NextInterval(cur: int, trigger: bool): (next: int)
    ensures !trigger ==> next == cur
    ensures trigger && cur - IntervalDecrementRate >= MinimumInterval ==> next == cur - IntervalDecrementRate
    ensures cur >= MinimumInterval ==> MinimumInterval <= next <= cur
  {
    if trigger then Max(MinimumInterval, cur - IntervalDecrementRate) else cur
  }

  /** The interval after one update per element of `triggers`, in order. */
  function Ramp(cur: int, triggers: seq<bool>): int
    decreases |triggers|
  {
    if triggers == [] then cur else Ramp(NextInterval(cur, triggers[0]), triggers[1..])
  }

  /** How many of the updates were due. */
  function Due(triggers: seq<bool>): nat
    decreases |triggers|
  {
    if triggers == [] then 0 else (if triggers[0] then 1 else 0) + Due(triggers[1..])
  }

  /** After any run of updates starting at or above the floor, the interval is
      the start lowered by one decrement per due update, clamped at the floor. */
  lemma {:induction false} RampFormula(cur: int, triggers: seq<bool>)
    requires cur >= MinimumInterval
    ensures Ramp(cur, triggers) == Max(MinimumInterval, cur - IntervalDecrementRate * Due(triggers))
    decreases |triggers|
  {
    if triggers != [] {
      RampFormula(NextInterval(cur, triggers[0]), triggers[1..]);
    }
  }

  /** From the initial 1000, the interval never rises and never drops below
      200. */
  lemma RampBounds(triggers: seq<bool>)
    ensures MinimumInterval <= Ramp(InitialInterval, triggers) <= InitialInterval
  {
    RampFormula(InitialInterval, triggers);
  }
}
