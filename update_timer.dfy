/**
 * The interactive-mode timer: while the watch is visible and not in
 * ambient mode, the update handler reposts itself with a delay that lands
 * the next repaint on the next whole second of the wall clock.
 */
module UpdateTimer {
  import opened JavaLang

  /** INTERACTIVE_UPDATE_RATE_MS, one second. */
  const UpdateRateMs: int := 1000

  /** `INTERACTIVE_UPDATE_RATE_MS - (timeMs % INTERACTIVE_UPDATE_RATE_MS)`
      with Java's truncating `%`. */
  function TimerDelay(now: int): int {
    UpdateRateMs - Rem(now, UpdateRateMs)
  }

  /** A wall-clock time that is a whole second. */
  predicate OnSecond(t: int) {
    t % UpdateRateMs == 0
  }

  /** The delay is positive and ends on a whole second. For a time at or
      after the epoch it is at most one second and it is the first whole
      second to come; before the epoch (where `%` is negative) it lies in
      [1000, 2000). */
  lemma TimerDelayAligned(now: int)
    ensures OnSecond(now + TimerDelay(now))
    ensures 0 < TimerDelay(now)
    ensures now >= 0 ==> TimerDelay(now) <= UpdateRateMs
    ensures now >= 0 ==> forall t :: now < t < now + TimerDelay(now) ==> !OnSecond(t)
    ensures now < 0 ==> UpdateRateMs <= TimerDelay(now) < 2 * UpdateRateMs
  {
    if now >= 0 {
      var q := now / 1000;
      assert now == q * 1000 + now % 1000;
      assert now + TimerDelay(now) == (q + 1) * 1000;
      MultipleMod(q + 1, 1000);
      forall t | now < t < now + TimerDelay(now)
        ensures !OnSecond(t)
      {
        BetweenSeconds(q, t);
      }
    } else {
      var q := (-now) / 1000;
      assert -now == q * 1000 + (-now) % 1000;
      assert now + TimerDelay(now) == (1 - q) * 1000;
      MultipleMod(1 - q, 1000);
    }
  }

  /** No whole second lies strictly between two consecutive ones. */
  lemma BetweenSeconds(q: int, t: int)
    requires q * 1000 < t < (q + 1) * 1000
    ensures !OnSecond(t)
  {
    var d, r := t / 1000, t % 1000;
    assert t == d * 1000 + r;
    assert d == q;
    assert r > 0;
  }
}
