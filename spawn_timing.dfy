/**
 * When the scene releases the next lemming. The release test compares the
 * elapsed time divided by the release delay (a real-valued division) with the
 * number of lemmings released so far; at most one lemming is released per call.
 */
module SpawnTiming {

  /** Delay in milliseconds between releases at release rate 50. */
  const BaseDelay := 3500

  /** Milliseconds between two releases for a release rate in [0, 100). */
  function SpawnDelay(releaseRate: int): (d: int)
    requires 0 <= releaseRate < 100
    ensures d == 70 * (100 - releaseRate)
    ensures 70 <= d <= 7000
  {
    BaseDelay * (100 - releaseRate) / 50
  }

  /**
   * The release test as written: elapsed / delay > released, in real arithmetic.
   * Since the delay is positive it is the exact integer test `time > spawned * delay`.
   */
  function SpawnDue(time: int, spawned: int, releaseRate: int): (due: bool)
    requires 0 <= releaseRate < 100
    ensures due <==> time > spawned * SpawnDelay(releaseRate)
  {
    (time as real) / (SpawnDelay(releaseRate) as real) > spawned as real
  }

  /** The release fires when it is due and the level still has lemmings to release. */
  predicate SpawnFires(time: int, spawned: int, capacity: int, releaseRate: int)
    requires 0 <= releaseRate < 100
  {
    SpawnDue(time, spawned, releaseRate) && spawned < capacity
  }

  /** The release counter after one release check at the given elapsed time. */
  function NextCount(time: int, spawned: int, capacity: int, releaseRate: int): (n: int)
    requires 0 <= releaseRate < 100
    // at most one release per check
    ensures spawned <= n <= spawned + 1
    // a release happens exactly when the time is past `spawned` whole delays and capacity remains
    ensures n == spawned + 1 <==> spawned < capacity && time > spawned * SpawnDelay(releaseRate)
    // the counter never passes the level's capacity
    ensures spawned <= capacity ==> n <= capacity
    // once the capacity is reached further checks change nothing
    ensures spawned >= capacity ==> n == spawned
  {
    if SpawnFires(time, spawned, capacity, releaseRate) then spawned + 1 else spawned
  }

  /** With nothing released yet, any positive elapsed time is enough for the first release. */
  lemma FirstReleaseAtAnyPositiveTime(time: int, releaseRate: int)
    requires 0 <= releaseRate < 100
    requires time > 0
    ensures SpawnDue(time, 0, releaseRate)
  {
  }

  /** The test is strict: exactly `k` delays after the start, the (k+1)-th lemming is not yet due. */
  lemma NoReleaseAtExactMultiple(k: int, releaseRate: int)
    requires 0 <= releaseRate < 100
    ensures !SpawnDue(k * SpawnDelay(releaseRate), k, releaseRate)
    ensures SpawnDue(k * SpawnDelay(releaseRate) + 1, k, releaseRate)
  {
  }

  /** At release rate 50 the delay is 3500 ms; the second lemming is due only after 3500 ms. */
  lemma HalfRateSchedule()
    ensures SpawnDelay(50) == 3500
    ensures SpawnDue(1, 0, 50) && SpawnDue(3499, 0, 50)
    ensures !SpawnDue(3500, 1, 50) && SpawnDue(3501, 1, 50)
    ensures !SpawnDue(7000, 2, 50) && SpawnDue(7001, 2, 50)
  {
  }

  // ----- the counter over many ticks -----

  function Min(a: int, b: int): int
  {
    if a <= b then a else b
  }

  /** Number of whole-or-partial delays in `time`: the least c with time <= c * d. */
  function CeilDiv(time: int, d: int): int
    requires time >= 0 && d > 0
  {
    (time + d - 1) / d
  }

  lemma CeilDivBounds(time: int, d: int)
    requires time >= 0 && d > 0
    ensures CeilDiv(time, d) >= 0
    ensures (CeilDiv(time, d) - 1) * d < time <= CeilDiv(time, d) * d
  {
  }

  lemma CeilDivUnique(time: int, d: int, k: int)
    requires time >= 0 && d > 0
    requires (k - 1) * d < time <= k * d
    ensures CeilDiv(time, d) == k
  {
    CeilDivBounds(time, d);
  }

  lemma IntMulMonotone(a: int, b: int, d: int)
    requires a <= b && d > 0
    ensures a * d <= b * d
  {
  }

  /** Total time covered by a sequence of ticks. */
  function Elapsed(deltas: seq<int>): (total: int)
    ensures (forall k :: 0 <= k < |deltas| ==> deltas[k] >= 0) ==> total >= 0
  {
    if deltas == [] then 0
    else
      assert forall k :: 0 <= k < |deltas[1..]| ==> deltas[1..][k] == deltas[k + 1];
      deltas[0] + Elapsed(deltas[1..])
  }

  /** The release counter after a sequence of ticks, each advancing the clock then checking once. */
  function SpawnedAfter(time: int, spawned: int, deltas: seq<int>, capacity: int, releaseRate: int): int
    requires 0 <= releaseRate < 100
    decreases |deltas|
  {
    if deltas == [] then spawned
    else
      var now := time + deltas[0];
      SpawnedAfter(now, NextCount(now, spawned, capacity, releaseRate), deltas[1..], capacity, releaseRate)
  }

  /** One tick no longer than the delay keeps the counter at min(ceil(time / delay), capacity). */
  lemma KeepsPaceOneTick(time: int, dt: int, spawned: int, capacity: int, releaseRate: int)
    requires 0 <= releaseRate < 100
    requires time >= 0 && capacity >= 0
    requires 0 <= dt <= SpawnDelay(releaseRate)
    requires spawned == Min(CeilDiv(time, SpawnDelay(releaseRate)), capacity)
    ensures NextCount(time + dt, spawned, capacity, releaseRate)
         == Min(CeilDiv(time + dt, SpawnDelay(releaseRate)), capacity)
  {
    var d := SpawnDelay(releaseRate);
    var c := CeilDiv(time, d);
    var now := time + dt;
    CeilDivBounds(time, d);
    assert (c + 1) * d == c * d + d;
    if now > c * d {
      CeilDivUnique(now, d, c + 1);
    } else {
      CeilDivUnique(now, d, c);
    }
  }

  /**
   * When no tick is longer than the release delay, the release counter equals
   * min(ceil(elapsed / delay), capacity) after every tick: releases follow the
   * clock and not the number of frames.
   */
  lemma {:induction false} SpawnKeepsPace(time: int, spawned: int, deltas: seq<int>, capacity: int, releaseRate: int)
    requires 0 <= releaseRate < 100
    requires time >= 0 && capacity >= 0
    requires forall k :: 0 <= k < |deltas| ==> 0 <= deltas[k] <= SpawnDelay(releaseRate)
    requires spawned == Min(CeilDiv(time, SpawnDelay(releaseRate)), capacity)
    ensures SpawnedAfter(time, spawned, deltas, capacity, releaseRate)
         == Min(CeilDiv(time + Elapsed(deltas), SpawnDelay(releaseRate)), capacity)
    decreases |deltas|
  {
    if deltas != [] {
      var now := time + deltas[0];
      KeepsPaceOneTick(time, deltas[0], spawned, capacity, releaseRate);
      forall k | 0 <= k < |deltas[1..]| ensures 0 <= deltas[1..][k] <= SpawnDelay(releaseRate) {
        assert deltas[1..][k] == deltas[k + 1];
      }
      SpawnKeepsPace(now, NextCount(now, spawned, capacity, releaseRate), deltas[1..], capacity, releaseRate);
    }
  }

  /**
   * Whatever the tick lengths, the counter never runs ahead of the clock:
   * it stays at or below min(ceil(elapsed / delay), capacity).
   */
  lemma {:induction false} SpawnNeverAhead(time: int, spawned: int, deltas: seq<int>, capacity: int, releaseRate: int)
    requires 0 <= releaseRate < 100
    requires time >= 0
    requires forall k :: 0 <= k < |deltas| ==> 0 <= deltas[k]
    requires spawned <= Min(CeilDiv(time, SpawnDelay(releaseRate)), capacity)
    ensures SpawnedAfter(time, spawned, deltas, capacity, releaseRate)
         <= Min(CeilDiv(time + Elapsed(deltas), SpawnDelay(releaseRate)), capacity)
    decreases |deltas|
  {
    if deltas != [] {
      var d := SpawnDelay(releaseRate);
      var now := time + deltas[0];
      var next := NextCount(now, spawned, capacity, releaseRate);
      CeilDivBounds(time, d);
      CeilDivBounds(now, d);
      var c, c' := CeilDiv(time, d), CeilDiv(now, d);
      if c > c' {
        IntMulMonotone(c', c - 1, d);
      }
      if next == spawned + 1 && spawned >= c' {
        IntMulMonotone(c', spawned, d);
      }
      forall k | 0 <= k < |deltas[1..]| ensures 0 <= deltas[1..][k] {
        assert deltas[1..][k] == deltas[k + 1];
      }
      SpawnNeverAhead(now, next, deltas[1..], capacity, releaseRate);
    }
  }

  /** A single tick of two delays releases only one lemming: long frames make releases lag. */
  lemma LongTickLags(capacity: int)
    requires capacity >= 2
    ensures SpawnedAfter(0, 0, [7000], capacity, 50) == 1
    ensures Min(CeilDiv(7000, SpawnDelay(50)), capacity) == 2
  {
  }
}
