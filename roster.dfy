/** Value-level views of the lemming roster used to specify the scene's per-tick updates. */
module Roster {
  import opened Geometry
  import opened Lemmings

  /** The alive flags refreshed from each lemming's own state. */
  function AliveFlags(roster: seq<Lemming>): seq<bool>
  {
    seq(|roster|, i requires 0 <= i < |roster| => roster[i].alive)
  }

  /** Every live lemming takes one step; the others are left as they are. */
  function UpdatedRoster(roster: seq<Lemming>, step: Step, deltaTime: int): seq<Lemming>
  {
    seq(|roster|, i requires 0 <= i < |roster| =>
      if roster[i].alive then step(roster[i], deltaTime) else roster[i])
  }

  /** The roster after a release check: when it fires, slot `spawned` holds a fresh walker. */
  function Release(roster: seq<Lemming>, spawned: int, fires: bool, spawnPos: Vec2): seq<Lemming>
    requires fires ==> 0 <= spawned < |roster|
  {
    if fires then roster[spawned := Init(Walker, spawnPos)] else roster
  }

  /** The indices handed to the step, in the order the scene visits them. */
  function LiveIndices(roster: seq<Lemming>): seq<nat>
  {
    if roster == [] then []
    else
      var n := |roster| - 1;
      LiveIndices(roster[..n]) + (if roster[n].alive then [n] else [])
  }

  /**
   * The visit order is strictly increasing and lists exactly the live slots:
   * each live lemming is updated once, in index order, and no other is.
   */
  lemma {:induction false} LiveIndicesInOrder(roster: seq<Lemming>)
    ensures forall k :: 0 <= k < |LiveIndices(roster)| ==>
              LiveIndices(roster)[k] < |roster| && roster[LiveIndices(roster)[k]].alive
    ensures forall i :: 0 <= i < |roster| && roster[i].alive ==> i in LiveIndices(roster)
    ensures forall j, k :: 0 <= j < k < |LiveIndices(roster)| ==> LiveIndices(roster)[j] < LiveIndices(roster)[k]
  {
    if roster != [] {
      var n := |roster| - 1;
      var prefix := roster[..n];
      LiveIndicesInOrder(prefix);
      assert forall i :: 0 <= i < n ==> prefix[i] == roster[i];
    }
  }

  /** Number of raised flags. */
  function CountAlive(flags: seq<bool>): nat
  {
    if flags == [] then 0
    else CountAlive(flags[..|flags| - 1]) + (if flags[|flags| - 1] then 1 else 0)
  }

  /** When every flag from `spawned` on is down, at most `spawned` flags are up. */
  lemma {:induction false} CountAliveBound(flags: seq<bool>, spawned: int)
    requires 0 <= spawned
    requires forall i :: spawned <= i < |flags| ==> !flags[i]
    ensures CountAlive(flags) <= spawned
    ensures CountAlive(flags) <= |flags|
  {
    if flags != [] {
      var n := |flags| - 1;
      var prefix := flags[..n];
      if spawned <= n {
        CountAliveBound(prefix, spawned);
      } else {
        CountAliveBound(prefix, n);
      }
    }
  }
}
