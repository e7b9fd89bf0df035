/**
 * The lemming as the scene sees it: a position, a job tag and an alive flag.
 * How a lemming moves and when it dies is not modelled here; the scene is
 * handed that behaviour as an opaque step function.
 */
module Lemmings {
  import opened Geometry

  /** The job a lemming carries; `NoJob` is the empty job slot of a lemming never initialised. */
  datatype Job = NoJob | Walker | Digger | Escaper

  datatype Lemming = Lemming(pos: Vec2, job: Job, alive: bool)

  /** A default-constructed roster slot: not yet released, so not alive. */
  const Unspawned: Lemming := Lemming(Vec2(0, 0), NoJob, false)

  /** Releasing a lemming: it takes the job, stands at the position and is alive. */
  function Init(job: Job, position: Vec2): Lemming
  {
    Lemming(position, job, true)
  }

  /** Reassignment replaces the job wholesale and touches nothing else. */
  function ChangeJob(l: Lemming, job: Job): Lemming
  {
    l.(job := job)
  }

  /** The opaque per-tick behaviour of a lemming (movement, job logic, death). */
  type Step = (Lemming, int) -> Lemming
}
