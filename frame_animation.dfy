/**
 * The background animation: `nextFrame` advances a frame index modulo the
 * number of raster frames, incrementing before it returns, so that frame 0
 * comes back only after a full wrap. `NextFrameIndex` is the effect of one
 * call; `Advance` is the effect of several in a row.
 */
module FrameAnimation {

  /** Number of raster frames, frame_00 .. frame_38. */
  const FrameCount: nat := 39

  /** The frame index after one `nextFrame(max)` call starting from `prev`:
      from inside [0, max) it is the successor modulo `max`. */
  function NextFrameIndex(prev: int, max: int): (n: int)
    ensures 0 <= prev < max ==> n == (prev + 1) % max
    ensures 0 <= prev < max ==> 0 <= n < max
  {
    if prev + 1 == max then 0 else prev + 1
  }

  /** The frame index after `k` successive `nextFrame(max)` calls. */
  function Advance(prev: int, max: int, k: nat): int {
    if k == 0 then prev else NextFrameIndex(Advance(prev, max, k - 1), max)
  }

  /** The i-th of successive calls shows frame (prev + i) mod max. */
  lemma {:induction false} AdvanceIsModular(prev: int, max: int, k: nat)
    requires 0 <= prev < max
    ensures Advance(prev, max, k) == (prev + k) % max
  {
    if k > 0 {
      AdvanceIsModular(prev, max, k - 1);
      var a := prev + k - 1;
      var p := Advance(prev, max, k - 1);
      assert p == a % max && 0 <= p < max;
      assert Advance(prev, max, k) == (p + 1) % max;
      SuccessorMod(a, max);
      assert a + 1 == prev + k;
    }
  }

  /** ((a mod m) + 1) mod m == (a + 1) mod m. */
  lemma SuccessorMod(a: int, m: int)
    requires m > 0
    ensures ((a % m) + 1) % m == (a + 1) % m
  {
    var q, r := a / m, a % m;
    assert a == q * m + r;
    if r + 1 < m {
      assert a + 1 == q * m + (r + 1);
      ModOfMultiplePlus(q, m, r + 1);
      ModOfMultiplePlus(0, m, r + 1);
    } else {
      assert a + 1 == (q + 1) * m + 0;
      ModOfMultiplePlus(q + 1, m, 0);
      ModOfMultiplePlus(1, m, 0);
    }
  }

  /** (q * m + r) mod m == r for 0 <= r < m. */
  lemma ModOfMultiplePlus(q: int, m: int, r: int)
    requires m > 0 && 0 <= r < m
    ensures (q * m + r) % m == r
  {
    var x := q * m + r;
    var q', r' := x / m, x % m;
    assert x == q' * m + r';
    var d := q - q';
    assert d * m == r' - r by {
      assert q * m - q' * m == (q - q') * m;
    }
    if d > 0 {
      MulAtLeast(d, m);
    } else if d < 0 {
      MulAtLeast(-d, m);
    }
  }

  lemma MulAtLeast(d: int, m: int)
    requires d >= 1 && m > 0
    ensures d * m >= m
  {
  }

  /** Any `max` successive calls from a valid index show every frame. */
  lemma EveryFrameShown(prev: int, max: int, target: int)
    requires 0 <= prev < max
    requires 0 <= target < max
    ensures exists i :: 1 <= i <= max && Advance(prev, max, i) == target
  {
    var i := if target > prev then target - prev else target - prev + max;
    AdvanceIsModular(prev, max, i);
    if target > prev {
      ModOfMultiplePlus(0, max, target);
    } else {
      ModOfMultiplePlus(1, max, target);
    }
    assert Advance(prev, max, i) == target;
  }

  /** Calls never leave [0, max) once inside it. */
  lemma {:induction false} AdvanceInRange(prev: int, max: int, k: nat)
    requires 0 <= prev < max
    ensures 0 <= Advance(prev, max, k) < max
  {
    if k > 0 {
      AdvanceInRange(prev, max, k - 1);
    }
  }
}
