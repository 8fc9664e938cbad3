/** The collector actor: its configuration, fixed at construction, and the
    episode loop that applies the two truncation policies step by step. */
module Collector {
  import opened Truncation

  class ToyCollector {
    /** Inclusive bounds of the target step count drawn for each episode. */
    const lowSteps: int
    const highSteps: int
    /** The simulated cost of one step, in clock ticks. The episode loop does
        not read it: the sleep only shows in the clock readings the caller
        supplies, and the lemmas that rely on it take it as the bound in
        `SleptAtLeast` or `ExactClock`. */
    const stepTime: nat
    /** The optional step-count cap and time cap. */
    const maxSteps: Option<int>
    const maxTime: Option<int>

    constructor (lowSteps: int, highSteps: int, stepTime: nat, maxSteps: Option<int>, maxTime: Option<int>)
      ensures this.lowSteps == lowSteps && this.highSteps == highSteps && this.stepTime == stepTime
      ensures this.maxSteps == maxSteps && this.maxTime == maxTime
    {
      this.lowSteps := lowSteps;
      this.highSteps := highSteps;
      this.stepTime := stepTime;
      this.maxSteps := maxSteps;
      this.maxTime := maxTime;
    }

    /** Runs one episode of `numSteps` steps (the value drawn from
        `[lowSteps, highSteps]`). After step `i` the clock reads `elapsed[i]`
        ticks since the episode started. Returns the number of steps
        completed and which terminal state was reached. */
    method RunEpisode(numSteps: int, elapsed: seq<int>) returns (steps: int, ending: Ending)
      requires lowSteps <= numSteps <= highSteps
      requires numSteps <= |elapsed|
      ensures Outcome(steps, ending) == Episode(Limits(maxSteps, maxTime), numSteps, elapsed)
    {
      var limits := Limits(maxSteps, maxTime);
      var step: nat := 0;
      while step < numSteps
        invariant step == 0 || step <= numSteps
        invariant EpisodeFrom(limits, numSteps, elapsed, step) == Episode(limits, numSteps, elapsed)
        decreases numSteps - step
      {
        if maxSteps.Some? && step >= maxSteps.value {
          return step + 1, StepCapReached;
        }
        if maxTime.Some? && elapsed[step] >= maxTime.value {
          return step + 1, TimeCapReached;
        }
        step := step + 1;
      }
      return numSteps, Completed;
    }
  }
}
