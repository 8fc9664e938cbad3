/** The truncation decision of one episode: the two stopping policies, a
    step-by-step reference definition of what an episode reports, and the
    characterisation of that report as "first step at which a policy fires". */
module Truncation {

  datatype Option<T> = None | Some(value: T)

  /** Which terminal state the episode reached; each one prints its own log line. */
  datatype Ending = Completed | StepCapReached | TimeCapReached

  /** What an episode reports: the number of steps completed, and how it ended. */
  datatype Outcome = Outcome(steps: int, ending: Ending)

  /** The two optional caps of a collector: a step index and an elapsed time (in ticks). */
  datatype Limits = Limits(maxSteps: Option<int>, maxTime: Option<int>)

  /** The step-count policy: the zero-based step index has reached the cap. */
  predicate StepCapFires(step: int, limits: Limits)
  {
    limits.maxSteps.Some? && step >= limits.maxSteps.value
  }

  /** The time policy: the elapsed time has reached or passed the cap. */
  predicate TimeCapFires(elapsed: int, limits: Limits)
  {
    limits.maxTime.Some? && elapsed >= limits.maxTime.value
  }

  /** The per-step stop test: either policy fires after step `step`. */
  predicate ShouldStop(step: int, elapsed: int, limits: Limits)
  {
    StepCapFires(step, limits) || TimeCapFires(elapsed, limits)
  }

  /** No policy fires at any step in `[from, numSteps)`. */
  predicate NoStopFrom(limits: Limits, numSteps: int, elapsed: seq<int>, from: nat)
    requires numSteps <= |elapsed|
  {
    forall j :: from <= j < numSteps ==> !ShouldStop(j, elapsed[j], limits)
  }

  /** Step `i` is executed, a policy fires after it, and none fired before it. */
  predicate FirstStopAt(limits: Limits, numSteps: int, elapsed: seq<int>, i: int)
    requires numSteps <= |elapsed|
  {
    && 0 <= i < numSteps
    && ShouldStop(i, elapsed[i], limits)
    && forall j :: 0 <= j < i ==> !ShouldStop(j, elapsed[j], limits)
  }

  /** What the episode reports when it is about to execute step `step`,
      having executed the earlier ones without a policy firing.
      `elapsed[i]` is the clock reading taken after step `i`. */
  function EpisodeFrom(limits: Limits, numSteps: int, elapsed: seq<int>, step: nat): (o: Outcome)
    requires numSteps <= |elapsed|
    ensures step < numSteps ==> step + 1 <= o.steps <= numSteps
    ensures o.ending == Completed ==> o.steps == numSteps
    decreases numSteps - step
  {
    if step >= numSteps then Outcome(numSteps, Completed)
    else if StepCapFires(step, limits) then Outcome(step + 1, StepCapReached)
    else if TimeCapFires(elapsed[step], limits) then Outcome(step + 1, TimeCapReached)
    else EpisodeFrom(limits, numSteps, elapsed, step + 1)
  }

  /** What an episode with target step count `numSteps` reports. It never
      reports more than the target, it reports at least one step when at
      least one is due, and with no step due it reports the target itself. */
  function Episode(limits: Limits, numSteps: int, elapsed: seq<int>): (o: Outcome)
    requires numSteps <= |elapsed|
    ensures o.steps <= numSteps
    ensures numSteps >= 1 ==> 1 <= o.steps
    ensures numSteps <= 0 ==> o == Outcome(numSteps, Completed)
  {
    EpisodeFrom(limits, numSteps, elapsed, 0)
  }

  /** From step `step` on, the episode either completes with no policy firing
      at any remaining step, or stops right after the first remaining step at
      which a policy fires, the step-count policy taking precedence. */
  lemma {:induction false} EpisodeFromEnding(limits: Limits, numSteps: int, elapsed: seq<int>, step: nat)
    requires numSteps <= |elapsed|
    ensures var o := EpisodeFrom(limits, numSteps, elapsed, step);
      && (o.ending == Completed ==> NoStopFrom(limits, numSteps, elapsed, step))
      && (o.ending != Completed ==>
            && step <= o.steps - 1 < numSteps
            && ShouldStop(o.steps - 1, elapsed[o.steps - 1], limits)
            && (forall j :: step <= j < o.steps - 1 ==> !ShouldStop(j, elapsed[j], limits))
            && (o.ending == StepCapReached <==> StepCapFires(o.steps - 1, limits)))
    decreases numSteps - step
  {
    if step < numSteps && !ShouldStop(step, elapsed[step], limits) {
      EpisodeFromEnding(limits, numSteps, elapsed, step + 1);
    }
  }

  /** The episode completes exactly when no policy fires at any executed step. */
  lemma CompletionCharacterization(limits: Limits, numSteps: int, elapsed: seq<int>)
    requires numSteps <= |elapsed|
    ensures Episode(limits, numSteps, elapsed).ending == Completed <==> NoStopFrom(limits, numSteps, elapsed, 0)
    ensures Episode(limits, numSteps, elapsed).ending == Completed ==> Episode(limits, numSteps, elapsed).steps == numSteps
  {
    EpisodeFromEnding(limits, numSteps, elapsed, 0);
    var o := Episode(limits, numSteps, elapsed);
    if o.ending != Completed {
      assert ShouldStop(o.steps - 1, elapsed[o.steps - 1], limits);
    }
  }

  /** The episode is truncated after step `i` exactly when `i` is the first
      step at which a policy fires; it then reports `i + 1` steps. */
  lemma FirstStopCharacterization(limits: Limits, numSteps: int, elapsed: seq<int>, i: int)
    requires numSteps <= |elapsed|
    ensures FirstStopAt(limits, numSteps, elapsed, i)
        <==> (Episode(limits, numSteps, elapsed).ending != Completed && Episode(limits, numSteps, elapsed).steps == i + 1)
  {
    EpisodeFromEnding(limits, numSteps, elapsed, 0);
    var o := Episode(limits, numSteps, elapsed);
    if FirstStopAt(limits, numSteps, elapsed, i) {
      assert ShouldStop(i, elapsed[i], limits);
      if o.ending != Completed {
        var s := o.steps - 1;
        assert ShouldStop(s, elapsed[s], limits);
      }
    }
  }

  /** The episode's report, stated without reference to the loop: one plus the
      first step at which a policy fires, with the step-count policy named when
      both fire there, or the target step count when no policy ever fires. */
  lemma {:induction false} EpisodeIsFirstFiringPlusOne(limits: Limits, numSteps: int, elapsed: seq<int>, i: int)
    requires numSteps <= |elapsed|
    requires FirstStopAt(limits, numSteps, elapsed, i)
    ensures Episode(limits, numSteps, elapsed)
         == Outcome(i + 1, if StepCapFires(i, limits) then StepCapReached else TimeCapReached)
  {
    FirstStopCharacterization(limits, numSteps, elapsed, i);
    EpisodeFromEnding(limits, numSteps, elapsed, 0);
  }
}
