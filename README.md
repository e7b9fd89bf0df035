# Lemmings scene bookkeeping, modelled in Dafny

This project models the per-tick bookkeeping of the Lemmings game scene
(`Lemmings/Scene.cpp`). The scene owns four pieces of state:

- a clock, `currentTime`, advanced by each tick's `deltaTime`;
- a release counter, `currentAlive`, the number of lemmings released so far;
- a roster with one slot per lemming of the level, plus a parallel vector of
  alive flags cached at the last update;
- the terrain mask, a grid of pixel values (0 empty, 255 solid).

Its operations are modelled as methods of the class `Scene.Scene`:

- the tick (`Update`): advance the clock, run the release check, update the roster;
- the release check (`SpawnLemmings`);
- the roster update (`UpdateLemmings`);
- picking a lemming under a point (`GetLemmingIndexInPos`);
- job reassignment (`AssignJob`);
- the two terrain edits (`EraseMask`, `ApplyMask`);
- loading a level (`InitCurrentLevel`).

Each method's `ensures` ties the new state to a value-level specification.
These are written as functions over sequences and grids in the modules
`SpawnTiming`, `Roster`, `Terrain` and `Geometry`. The lemmas beside those
functions prove what the scene promises.

Files:

- `geometry.dfy` (module `Geometry`): integer points and the half-open rectangle test.
- `lemmings.dfy` (module `Lemmings`): the lemming as the scene sees it. It has a
  position, a job tag (`Walker`, `Digger`, `Escaper`, or `NoJob` for a slot never
  initialised) and an alive flag. The lemming's own per-tick behaviour is a
  parameter `step: (Lemming, int) -> Lemming`.
- `terrain.dfy` (module `Terrain`): the mask as a grid value, pixel writes, and
  sequences of edits.
- `spawn_timing.dfy` (module `SpawnTiming`): the release delay, the release
  test, and the release counter over many ticks.
- `roster.dfy` (module `Roster`): the roster after a release and after an
  update, the order in which slots are stepped, and a count of alive flags.
- `scene.dfy` (module `Scene`): the class `Scene` and a client scenario.

## The release test

The delay is `3500 * (100 - releaseRate) / 50`. For an integer rate this is
exactly `70 * (100 - releaseRate)`. The source then compares
`(int)currentTime / delay` with `currentAlive`. Because `delay` is a `float`,
this is a real-valued division with no rounding down.

`SpawnTiming.SpawnDue` states the test in Dafny's exact reals.
Its contract proves that, for a positive delay, it is the
integer test `currentTime > currentAlive * delay`. So:

- the first lemming is released on the first tick with a positive clock;
- once k lemmings are released, the next one is released on the first check
  whose clock is strictly past k delays.

A floor-based reading of the test (`floor(time / delay) > count`) would release
the first lemming only after one full delay. The model follows the code, not
that reading.

Both pace lemmas start from a counter that is on pace with the clock. In
practice that means a counter of 0 at clock 0, which only a freshly
constructed scene guarantees.

- `SpawnTiming.SpawnKeepsPace` covers the case where no tick is longer than the
  delay. From a counter of 0 at clock 0, the counter is then always
  `min(ceil(time / delay), numLemmings)`.
- `SpawnTiming.SpawnNeverAhead` covers any tick lengths. From a counter of 0 at
  clock 0, the counter never exceeds that value.
- `SpawnTiming.LongTickLags` shows the counter falling behind after a single
  long tick, because at most one lemming is released per tick.

Loading a level does not reset the counter (`InitCurrentLevel`, as in the
source). So a reloaded level starts at clock 0 with the counter of the previous
one, which is ahead of the clock. What happens next depends on the new level's
lemming count:

- If the kept counter is below it, the first `currentAlive` slots are never
  released. The first release goes to slot `currentAlive`, and only once the
  clock is past `currentAlive` delays. The client `Scene.ReloadScenario` shows
  this for a counter of 1: slot 0 stays unreleased and slot 1 is released just
  after 3500 ms.
- If the kept counter is at or above it, the release check never fires again
  and the level releases no lemming at all. The counter then exceeds the
  level's lemming count. The client `Scene.ReloadToSmallerLevel` shows this: three
  lemmings released, then a level of two, and no slot is ever released.

This is why `Scene.Valid()` does not contain `currentAlive <= numLemmings`: a
level load can break it. `SpawnLemmings` preserves that bound whenever it
holds before the call.

## Model

| member | source | states |
|---|---|---|
| `Geometry.InsideRectangle` | Lemmings/Scene.cpp:226-233 | containment is half-open on both axes: the origin lies inside every non-empty box; a point on the far edge `origin + size` (either axis), or before the origin, is outside; an empty box contains nothing |
| `Geometry.InsideRectangleIsBoxMembership` | Lemmings/Scene.cpp:226-233 | the four comparisons hold exactly when the point is the origin shifted by some offset `(i, j)` with `0 <= i < size.x` and `0 <= j < size.y` |
| `Terrain.SetPixel` | Lemmings/Scene.cpp:218-224 | writing a pixel sets that pixel to the value and leaves the grid's shape and every other pixel unchanged |
| `Terrain.SetPixelIdempotent` | Lemmings/Scene.cpp:218-224 | erasing or applying the same pixel twice gives the same mask as doing it once |
| `Terrain.ApplyEdit` | Lemmings/Scene.cpp:218-224 | an erase sets pixel (x, y) to 0 and an apply sets it to 255; no other pixel changes and the mask keeps its dimensions |
| `Terrain.ErasedStaysEmpty` | Lemmings/Scene.cpp:218-224 | an erased pixel stays empty through any sequence of edits that does not apply solid terrain to that pixel |
| `SpawnTiming.SpawnDelay` | Lemmings/Scene.cpp:162 | the release delay equals `70 * (100 - releaseRate)`, between 70 and 7000 ms, so always positive |
| `SpawnTiming.SpawnDue` | Lemmings/Scene.cpp:163 | the release test as written (elapsed time divided by the delay in real division, no rounding, compared strictly with the number released) holds exactly when `time > released * delay` |
| `SpawnTiming.NextCount` | Lemmings/Scene.cpp:159-170 | one check raises the counter by at most one; it does so exactly when capacity remains and the time is past `released` delays; it never passes the capacity; once the capacity is reached it is a no-op |
| `SpawnTiming.FirstReleaseAtAnyPositiveTime` | Lemmings/Scene.cpp:163 | with nothing released, any positive time makes the first release due |
| `SpawnTiming.NoReleaseAtExactMultiple` | Lemmings/Scene.cpp:163 | the test is strict: at exactly `k` delays with `k` released nothing is due, one millisecond later it is |
| `SpawnTiming.HalfRateSchedule` | Lemmings/Scene.cpp:162-163 | at release rate 50 the delay is 3500 ms; the second lemming is due after 3500 ms and the third after 7000 ms, not at those instants |
| `SpawnTiming.KeepsPaceOneTick` | Lemmings/Scene.cpp:32-36 | one tick no longer than the delay keeps the counter at `min(ceil(time / delay), capacity)` |
| `SpawnTiming.SpawnKeepsPace` | Lemmings/Scene.cpp:32-36 | from a counter on pace with the clock (0 at clock 0, as in a freshly constructed scene), over any run of ticks no longer than the delay, the counter equals `min(ceil(elapsed / delay), capacity)` |
| `SpawnTiming.SpawnNeverAhead` | Lemmings/Scene.cpp:32-36 | from a counter at or below the pace bound (0 at clock 0, as in a freshly constructed scene), over any run of non-negative ticks, the counter never exceeds `min(ceil(elapsed / delay), capacity)`; a counter kept across a level load can start above it |
| `SpawnTiming.LongTickLags` | Lemmings/Scene.cpp:159-170 | a single 7000 ms tick at rate 50 releases one lemming, although the clock covers two delays |
| `Roster.LiveIndicesInOrder` | Lemmings/Scene.cpp:174-179 | the slots handed to the lemming update are exactly the live ones, each once, in strictly increasing index order |
| `Roster.CountAliveBound` | Lemmings/Scene.cpp:172-180 | if no flag from position `n` on is raised, at most `n` flags are raised |
| `Scene.Scene.constructor` | Lemmings/Scene.cpp:23-29 | a new scene holds the level's attributes and mask; the clock and release counter are zero; every slot is unreleased and flagged dead |
| `Scene.Scene.InitCurrentLevel` | Lemmings/Scene.cpp:142-151 | loading a level resizes the roster and flags to the level's count, resets every slot, sets the clock to zero, and leaves the release counter as it was |
| `Scene.Scene.Update` | Lemmings/Scene.cpp:32-40 | the clock advances by exactly `deltaTime`; the release check runs at the new time, then the roster update runs on the roster after the release; a lemming released in this tick is stepped in this tick |
| `Scene.Scene.SpawnLemmings` | Lemmings/Scene.cpp:159-170 | the counter becomes `NextCount` of the clock; if it rose, only the slot at the old count changes, to a walker at the spawn position; `currentAlive <= numLemmings` is preserved |
| `Scene.Scene.UpdateLemmings` | Lemmings/Scene.cpp:172-180 | each flag becomes the alive state its lemming had before being stepped; exactly the live lemmings are stepped, in index order; the others are left as they were |
| `Scene.Scene.GetLemmingIndexInPos` | Lemmings/Scene.cpp:197-211 | returns -1 or an index below `numLemmings`; an index returned is flagged alive, its 16 x 16 box contains the point, and it is the smallest such index; -1 is returned exactly when no flagged lemming's box contains the point; no state changes |
| `Scene.Scene.AssignJob` | Lemmings/Scene.cpp:213-216 | only slot `lemmingIndex` changes, and only its job |
| `Scene.Scene.EraseMask` | Lemmings/Scene.cpp:218-220 | the mask becomes the old mask with pixel `(x, y)` set to 0 |
| `Scene.Scene.ApplyMask` | Lemmings/Scene.cpp:222-224 | the mask becomes the old mask with pixel `(x, y)` set to 255 |
| `Scene.Scene.AliveCount` | Lemmings/Scene.cpp:159-180 | the number of lemmings flagged alive is at most the number released and at most the roster size |

`Scene.Valid()` is the class invariant. It says the roster and the flags have
one slot per lemming of the level, and the release rate is in [0, 100). It also
says no slot at or beyond the release counter is alive or flagged alive. Every
method keeps it. It is what `AliveCount` rests on.

## Left out

- Rendering, shader setup, map and UI setup: `render`, `initShaders`, `initMap`,
  `initUI`, `updateUI`, `getMaskedMap`. These are OpenGL and UI calls with no
  bookkeeping.
- `updateCurrentLevel` (door and trapdoor animation). Those classes are not part
  of this model, and `Update` does not model the call.
- Level file loading. The level's lemming count, release rate, spawn position
  and mask are parameters of the constructor and of `InitCurrentLevel`.
- Lemming behaviour. Lemming.cpp and the job classes are not part of this model.
  The lemming's update is an arbitrary total function passed to `Update` and
  `UpdateLemmings`.
- `Init` and `ChangeJob` are given the behaviour the scene relies on. `Init`
  places a live lemming with the job. `ChangeJob` replaces only the job.
- A default-constructed roster slot is assumed not alive (`Unspawned`).
- In the source a lemming holds a reference to the mask, and its update may edit
  the mask (a digger). The step function here cannot touch the mask.
- JobFactory.h: jobs are tags. Fresh allocation of a job object per call, and
  its ownership, are not modelled.
- Floating point. `currentTime` is a `float` in the source and positions are
  float vectors. Here both are integers with exact comparisons, so float
  rounding after a very long run is not captured.
- A release rate of 100 or more is excluded. In the source's float arithmetic:
  - At rate 100 the delay is 0.0. Any positive clock gives an infinite quotient,
    so one lemming is released per tick until the level's count is reached.
  - At rate 100 and a clock of 0, the quotient is NaN and nothing is released.
  - Above rate 100 the delay is negative, so at a positive clock nothing is
    ever released.
- Integer overflow of the clock and of `deltaTime` is not modelled; integers are
  unbounded.
- The initial value of `currentAlive` comes from Scene.h, which is not part of
  this model. The constructor sets it to 0. `InitCurrentLevel` leaves it as it
  was, as the source does.
- Scene.Scene.EraseMask: requires the pixel to be inside the mask. The same
  goes for `ApplyMask`. The pixel write itself (VariableTexture.cpp) is not part
  of this model, and the scene does no bounds check.
- Scene.Scene.AssignJob: requires `0 <= lemmingIndex < numLemmings`, since the
  source indexes the roster without a bounds check.
- Scene.Scene.UpdateLemmings: the visit order is recorded as a ghost trace.
  With a pure step function the order cannot change the resulting roster.
