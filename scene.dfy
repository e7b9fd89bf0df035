/**
 * The scene's per-tick bookkeeping: the clock, the release counter, the
 * lemming roster with its cached alive flags, and the terrain mask.
 */
module Scene {
  import opened Geometry
  import opened Lemmings
  import opened Terrain
  import opened SpawnTiming
  import opened Roster

  /** Every lemming is picked through a 16 x 16 box anchored at its position. */
  const LemmingSize := Vec2(16, 16)

  class Scene {
    /** Elapsed level time in milliseconds. */
    var currentTime: int
    /** Number of lemmings released so far. */
    var currentAlive: int
    /** Level attributes, fixed by the level load. */
    var numLemmings: nat
    var releaseRate: int
    var spawnPos: Vec2
    /** The roster: one slot per lemming of the level, and the alive flags cached at the last update. */
    var lemmings: array<Lemming>
    var alive: array<bool>
    /** The terrain mask, indexed [x, y]. */
    var mask: array2<int>

    /**
     * The roster and the flags have one slot per lemming of the level, the
     * release rate keeps the delay positive, and no slot at or beyond the
     * release counter is alive or flagged alive.
     */
    ghost predicate Valid()
      reads this, lemmings, alive
    {
      lemmings.Length == numLemmings && alive.Length == numLemmings
      && 0 <= currentAlive && 0 <= releaseRate < 100
      && (forall i :: currentAlive <= i < numLemmings ==> !lemmings[i].alive)
      && (forall i :: currentAlive <= i < numLemmings ==> !alive[i])
    }

    /** A scene with a loaded level, its clock and release counter at zero. */
    constructor (levelLemmings: nat, levelReleaseRate: int, levelSpawnPos: Vec2, levelMask: array2<int>)
      requires 0 <= levelReleaseRate < 100
      ensures Valid()
      ensures fresh(lemmings) && fresh(alive) && mask == levelMask
      ensures numLemmings == levelLemmings && releaseRate == levelReleaseRate && spawnPos == levelSpawnPos
      ensures currentTime == 0 && currentAlive == 0
      ensures forall i :: 0 <= i < numLemmings ==> lemmings[i] == Unspawned && !alive[i]
    {
      numLemmings, releaseRate, spawnPos := levelLemmings, levelReleaseRate, levelSpawnPos;
      mask := levelMask;
      currentTime := 0;
      currentAlive := 0;
      lemmings := new Lemming[levelLemmings](_ => Unspawned);
      alive := new bool[levelLemmings](_ => false);
    }

    /**
     * Loading a level: the roster is sized to the level, every slot is reset,
     * the clock restarts at zero. The release counter is left as it was.
     */
    method InitCurrentLevel(levelLemmings: nat, levelReleaseRate: int, levelSpawnPos: Vec2, levelMask: array2<int>)
      requires Valid()
      requires 0 <= levelReleaseRate < 100
      modifies this
      ensures Valid()
      ensures fresh(lemmings) && fresh(alive) && mask == levelMask
      ensures numLemmings == levelLemmings && releaseRate == levelReleaseRate && spawnPos == levelSpawnPos
      ensures currentTime == 0 && currentAlive == old(currentAlive)
      ensures forall i :: 0 <= i < numLemmings ==> lemmings[i] == Unspawned && !alive[i]
    {
      numLemmings, releaseRate, spawnPos := levelLemmings, levelReleaseRate, levelSpawnPos;
      mask := levelMask;
      currentTime := 0;
      lemmings := new Lemming[levelLemmings](_ => Unspawned);
      alive := new bool[levelLemmings](_ => false);
    }

    /**
     * One tick: advance the clock by `deltaTime`, run the release check at the
     * new time, then update the roster. A lemming released in this tick is
     * already updated in this tick.
     */
    method Update(deltaTime: int, step: Step) returns (ghost visited: seq<nat>)
      requires Valid()
      modifies this`currentTime, this`currentAlive, lemmings, alive
      ensures Valid()
      ensures currentTime == old(currentTime) + deltaTime
      ensures currentAlive == NextCount(currentTime, old(currentAlive), numLemmings, releaseRate)
      ensures var released := Release(old(lemmings[..]), old(currentAlive), currentAlive != old(currentAlive), spawnPos);
              lemmings[..] == UpdatedRoster(released, step, deltaTime)
              && alive[..] == AliveFlags(released)
              && visited == LiveIndices(released)
      ensures currentAlive != old(currentAlive) ==>
              alive[old(currentAlive)] && lemmings[old(currentAlive)] == step(Init(Walker, spawnPos), deltaTime)
    {
      currentTime := currentTime + deltaTime;
      SpawnLemmings();
      visited := UpdateLemmings(deltaTime, step);
    }

    /**
     * The release check: when the elapsed time divided by the release delay
     * exceeds the number released and the level has lemmings left, the next
     * slot is initialised as a walker at the spawn position.
     */
    method SpawnLemmings()
      requires Valid()
      modifies this`currentAlive, lemmings
      ensures Valid()
      ensures currentAlive == NextCount(currentTime, old(currentAlive), numLemmings, releaseRate)
      ensures old(currentAlive) <= numLemmings ==> currentAlive <= numLemmings
      ensures lemmings[..] == Release(old(lemmings[..]), old(currentAlive), currentAlive != old(currentAlive), spawnPos)
    {
      var delay := SpawnDelay(releaseRate) as real;
      if (currentTime as real) / delay > currentAlive as real {
        if currentAlive < numLemmings {
          currentAlive := currentAlive + 1;
          lemmings[currentAlive - 1] := Init(Walker, spawnPos);
        }
      }
    }

    /**
     * Refresh every alive flag from its lemming and step the live lemmings,
     * in increasing index order; `visited` records the slots stepped.
     */
    method UpdateLemmings(deltaTime: int, step: Step) returns (ghost visited: seq<nat>)
      requires Valid()
      modifies lemmings, alive
      ensures Valid()
      ensures lemmings[..] == UpdatedRoster(old(lemmings[..]), step, deltaTime)
      ensures alive[..] == AliveFlags(old(lemmings[..]))
      ensures visited == LiveIndices(old(lemmings[..]))
    {
      ghost var before := lemmings[..];
      visited := [];
      for i := 0 to numLemmings
        invariant forall k :: 0 <= k < i ==> alive[k] == before[k].alive
        invariant forall k :: 0 <= k < i ==>
                    lemmings[k] == (if before[k].alive then step(before[k], deltaTime) else before[k])
        invariant forall k :: i <= k < numLemmings ==> lemmings[k] == before[k] && alive[k] == old(alive[k])
        invariant visited == LiveIndices(before[..i])
      {
        alive[i] := lemmings[i].alive;
        if alive[i] {
          lemmings[i] := step(lemmings[i], deltaTime);
          visited := visited + [i];
        }
        assert before[..i + 1][..i] == before[..i];
      }
      assert before[..numLemmings] == before;
    }

    /** Whether slot `i` is flagged alive and its 16 x 16 box contains `point`. */
    ghost predicate HitAt(i: int, point: Vec2)
      reads this, lemmings, alive
      requires Valid() && 0 <= i < numLemmings
    {
      alive[i] && InsideRectangle(point, lemmings[i].pos, LemmingSize)
    }

    /** The first slot, by index, whose lemming is flagged alive and covers the point; -1 if none. */
    method GetLemmingIndexInPos(posX: int, posY: int) returns (index: int)
      requires Valid()
      ensures -1 <= index < numLemmings
      ensures 0 <= index ==> HitAt(index, Vec2(posX, posY))
      ensures 0 <= index ==> forall j :: 0 <= j < index ==> !HitAt(j, Vec2(posX, posY))
      ensures index == -1 <==> forall j :: 0 <= j < numLemmings ==> !HitAt(j, Vec2(posX, posY))
    {
      for i := 0 to numLemmings
        invariant forall j :: 0 <= j < i ==> !HitAt(j, Vec2(posX, posY))
      {
        if alive[i] {
          var lemmingPosition := lemmings[i].pos;
          if InsideRectangle(Vec2(posX, posY), lemmingPosition, LemmingSize) {
            assert HitAt(i, Vec2(posX, posY));
            return i;
          }
        }
      }
      return -1;
    }

    /** Reassign the job of one lemming; nothing else in the roster changes. */
    method AssignJob(lemmingIndex: int, jobToAssign: Job)
      requires Valid()
      requires 0 <= lemmingIndex < numLemmings
      modifies lemmings
      ensures Valid()
      ensures lemmings[..] == old(lemmings[..])[lemmingIndex := ChangeJob(old(lemmings[lemmingIndex]), jobToAssign)]
    {
      lemmings[lemmingIndex] := ChangeJob(lemmings[lemmingIndex], jobToAssign);
    }

    /** Erase one terrain pixel (set it to empty). */
    method EraseMask(x: int, y: int)
      requires Valid()
      requires 0 <= x < mask.Length0 && 0 <= y < mask.Length1
      modifies mask
      ensures Valid()
      ensures Snapshot(mask) == SetPixel(old(Snapshot(mask)), x, y, Empty)
    {
      mask[x, y] := Empty;
      MaskWritten(old(Snapshot(mask)), x, y, Empty);
    }

    /** Fill one terrain pixel (set it to solid). */
    method ApplyMask(x: int, y: int)
      requires Valid()
      requires 0 <= x < mask.Length0 && 0 <= y < mask.Length1
      modifies mask
      ensures Valid()
      ensures Snapshot(mask) == SetPixel(old(Snapshot(mask)), x, y, Solid)
    {
      mask[x, y] := Solid;
      MaskWritten(old(Snapshot(mask)), x, y, Solid);
    }

    /** After writing pixel (x, y) of the mask, its snapshot is the old one with that pixel set. */
    lemma MaskWritten(before: Grid, x: int, y: int, v: int)
      requires SameShape(before, Snapshot(mask)) && InGrid(before, x, y)
      requires Snapshot(mask)[x][y] == v
      requires forall i, j :: InGrid(before, i, j) && (i != x || j != y) ==> Snapshot(mask)[i][j] == before[i][j]
      ensures Snapshot(mask) == SetPixel(before, x, y, v)
    {
      var now, want := Snapshot(mask), SetPixel(before, x, y, v);
      forall i | 0 <= i < |now| ensures now[i] == want[i] {
        assert |now[i]| == |want[i]|;
      }
    }

    /** The number of lemmings flagged alive never exceeds the number released nor the roster size. */
    ghost function AliveCount(): (k: nat)
      reads this, lemmings, alive
      requires Valid()
      ensures k <= currentAlive && k <= numLemmings
    {
      CountAliveBound(alive[..], currentAlive);
      CountAlive(alive[..])
    }
  }

  /**
   * A client of the scene at release rate 50 (one lemming every 3500 ms) with
   * two lemmings: the first is released on the first tick, the second only once
   * the clock is past 3500 ms, and none after that.
   */
  method ReleaseScenario(levelMask: array2<int>)
  {
    var scene := new Scene(2, 50, Vec2(40, 20), levelMask);
    var idle: Step := (l, dt) => l;
    ghost var trace := scene.Update(1, idle);
    assert scene.currentAlive == 1 && scene.alive[0] && scene.lemmings[0] == Init(Walker, Vec2(40, 20));
    trace := scene.Update(3499, idle);
    assert scene.currentTime == 3500 && scene.currentAlive == 1 && !scene.alive[1];
    assert scene.alive[0] && scene.lemmings[0] == Init(Walker, Vec2(40, 20));
    trace := scene.Update(1, idle);
    assert scene.currentAlive == 2 && scene.alive[1];
    assert scene.alive[0] && scene.lemmings[0] == Init(Walker, Vec2(40, 20));
    trace := scene.Update(10000, idle);
    assert scene.currentAlive == 2;
    assert scene.alive[0] && scene.lemmings[0] == Init(Walker, Vec2(40, 20));
    var hit := scene.GetLemmingIndexInPos(40, 20);
    assert scene.HitAt(0, Vec2(40, 20));
    assert hit == 0;
    hit := scene.GetLemmingIndexInPos(56, 20);
    assert hit == -1;
  }

  /**
   * Reloading a level keeps the release counter: after one lemming of the first
   * level was released, the reloaded level never releases into slot 0, and its
   * first release goes to slot 1 only once the clock is past one delay.
   */
  method ReloadScenario(levelMask: array2<int>)
  {
    var scene := new Scene(2, 50, Vec2(40, 20), levelMask);
    var idle: Step := (l, dt) => l;
    ghost var trace := scene.Update(1, idle);
    assert scene.currentAlive == 1;
    scene.InitCurrentLevel(2, 50, Vec2(40, 20), levelMask);
    assert scene.currentTime == 0 && scene.currentAlive == 1;
    trace := scene.Update(3500, idle);
    assert scene.currentAlive == 1;
    assert scene.lemmings[0] == Unspawned && scene.lemmings[1] == Unspawned;
    trace := scene.Update(1, idle);
    assert scene.currentAlive == 2;
    assert scene.lemmings[0] == Unspawned && scene.lemmings[1] == Init(Walker, Vec2(40, 20));
  }

  /**
   * Reloading with a level of no more lemmings than were already released: the
   * kept counter is at or above the new count, so nothing is ever released.
   */
  method ReloadToSmallerLevel(levelMask: array2<int>)
  {
    var scene := new Scene(3, 50, Vec2(40, 20), levelMask);
    var idle: Step := (l, dt) => l;
    ghost var trace := scene.Update(1, idle);
    trace := scene.Update(3500, idle);
    trace := scene.Update(3500, idle);
    assert scene.currentAlive == 3;
    scene.InitCurrentLevel(2, 50, Vec2(40, 20), levelMask);
    assert scene.currentAlive == 3 && scene.numLemmings == 2;
    trace := scene.Update(100000, idle);
    assert scene.currentAlive == 3;
    assert scene.lemmings[0] == Unspawned && scene.lemmings[1] == Unspawned;
    assert !scene.alive[0] && !scene.alive[1];
  }
}
