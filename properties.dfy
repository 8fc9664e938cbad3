/** Consequences of the truncation decision: bounds, the behaviour of each
    cap on its own, the check order, and what a well-behaved clock implies. */
module EpisodeProperties {
  import opened Truncation

  const NO_LIMITS := Limits(None, None)

  /** The clock never runs backwards within an episode. */
  predicate Monotone(elapsed: seq<int>)
  {
    forall i, j :: 0 <= i <= j < |elapsed| ==> elapsed[i] <= elapsed[j]
  }

  /** Each step sleeps `stepTime` ticks before its reading is taken, so the
      reading after step `i` is at least `(i + 1) * stepTime`. */
  predicate SleptAtLeast(elapsed: seq<int>, stepTime: nat)
  {
    forall i :: 0 <= i < |elapsed| ==> (i + 1) * stepTime <= elapsed[i]
  }

  /** A clock that reads exactly the accumulated sleep time. */
  predicate ExactClock(elapsed: seq<int>, stepTime: nat)
  {
    forall i :: 0 <= i < |elapsed| ==> elapsed[i] == (i + 1) * stepTime
  }

  /** `loose` is at least as permissive a cap as `tight`: unset, or set no lower. */
  predicate NoTighter(tight: Option<int>, loose: Option<int>)
  {
    loose.None? || (tight.Some? && tight.value <= loose.value)
  }

  /** With neither cap set the episode runs all of its target steps. */
  lemma NoLimitsRunToCompletion(numSteps: int, elapsed: seq<int>)
    requires numSteps <= |elapsed|
    ensures Episode(NO_LIMITS, numSteps, elapsed) == Outcome(numSteps, Completed)
  {
    CompletionCharacterization(NO_LIMITS, numSteps, elapsed);
  }

  /** A step cap `k` bounds the report by `k + 1` (by 1 for a negative cap,
      which fires after the very first step), whatever the clock reads. */
  lemma StepCapBound(k: int, maxTime: Option<int>, numSteps: int, elapsed: seq<int>)
    requires numSteps <= |elapsed|
    ensures Episode(Limits(Some(k), maxTime), numSteps, elapsed).steps <= (if k < 0 then 1 else k + 1)
  {
    var limits := Limits(Some(k), maxTime);
    var i := if k < 0 then 0 else k;
    if i < numSteps {
      CompletionCharacterization(limits, numSteps, elapsed);
      assert ShouldStop(i, elapsed[i], limits);
      EpisodeFromEnding(limits, numSteps, elapsed, 0);
    }
  }

  /** Without a time cap, a step cap `k` that the target reaches truncates the
      episode after exactly `k + 1` steps, and it is the step cap that fires. */
  lemma StepCapExact(k: int, numSteps: int, elapsed: seq<int>)
    requires numSteps <= |elapsed|
    requires 0 <= k < numSteps
    ensures Episode(Limits(Some(k), None), numSteps, elapsed) == Outcome(k + 1, StepCapReached)
  {
    EpisodeIsFirstFiringPlusOne(Limits(Some(k), None), numSteps, elapsed, k);
  }

  /** Without a time cap, a step cap the target never reaches changes nothing. */
  lemma StepCapNotReached(k: int, numSteps: int, elapsed: seq<int>)
    requires numSteps <= |elapsed|
    requires numSteps <= k
    ensures Episode(Limits(Some(k), None), numSteps, elapsed) == Outcome(numSteps, Completed)
  {
    CompletionCharacterization(Limits(Some(k), None), numSteps, elapsed);
  }

  /** A step cap of 0 fires after the first step, whatever the time cap. */
  lemma ZeroStepCapStopsAfterOne(maxTime: Option<int>, numSteps: int, elapsed: seq<int>)
    requires numSteps <= |elapsed|
    requires numSteps >= 1
    ensures Episode(Limits(Some(0), maxTime), numSteps, elapsed) == Outcome(1, StepCapReached)
  {
    // Unfolding the first step of the episode suffices.
  }

  /** When both caps fire at the first firing step, the step-count check,
      evaluated first, decides the ending; the count is `i + 1` either way. */
  lemma StepCapCheckedFirst(limits: Limits, numSteps: int, elapsed: seq<int>, i: int)
    requires numSteps <= |elapsed|
    requires FirstStopAt(limits, numSteps, elapsed, i)
    requires StepCapFires(i, limits) && TimeCapFires(elapsed[i], limits)
    ensures Episode(limits, numSteps, elapsed) == Outcome(i + 1, StepCapReached)
  {
    EpisodeIsFirstFiringPlusOne(limits, numSteps, elapsed, i);
  }

  /** A time-capped ending means the reading after the last step reached the
      cap (with `>=`), the step cap did not fire there, and no earlier step
      met either condition. */
  lemma TimeCapEnding(limits: Limits, numSteps: int, elapsed: seq<int>)
    requires numSteps <= |elapsed|
    requires Episode(limits, numSteps, elapsed).ending == TimeCapReached
    ensures var s := Episode(limits, numSteps, elapsed).steps;
      && 1 <= s <= numSteps
      && TimeCapFires(elapsed[s - 1], limits)
      && !StepCapFires(s - 1, limits)
      && forall j :: 0 <= j < s - 1 ==> !ShouldStop(j, elapsed[j], limits)
  {
    EpisodeFromEnding(limits, numSteps, elapsed, 0);
  }

  /** A reading exactly equal to the time cap already truncates the episode. */
  lemma TimeCapInclusive(t: int, numSteps: int, elapsed: seq<int>, i: int)
    requires numSteps <= |elapsed|
    requires 0 <= i < numSteps && elapsed[i] == t
    requires forall j :: 0 <= j < i ==> elapsed[j] < t
    ensures Episode(Limits(None, Some(t)), numSteps, elapsed) == Outcome(i + 1, TimeCapReached)
  {
    EpisodeIsFirstFiringPlusOne(Limits(None, Some(t)), numSteps, elapsed, i);
  }

  /** Since every step sleeps `stepTime` ticks, a time cap `t` stops the
      episode no later than the first step count `k` with `k * stepTime >= t`. */
  lemma TimeCapBoundBySleep(maxSteps: Option<int>, t: int, numSteps: int, elapsed: seq<int>, stepTime: nat, k: int)
    requires numSteps <= |elapsed|
    requires SleptAtLeast(elapsed, stepTime)
    requires 1 <= k <= numSteps && t <= k * stepTime
    ensures Episode(Limits(maxSteps, Some(t)), numSteps, elapsed).steps <= k
  {
    var limits := Limits(maxSteps, Some(t));
    assert ShouldStop(k - 1, elapsed[k - 1], limits);
    CompletionCharacterization(limits, numSteps, elapsed);
    EpisodeFromEnding(limits, numSteps, elapsed, 0);
  }

  /** With a clock that never runs backwards, a time-capped episode has run
      exactly the steps whose readings were below the cap, plus the one whose
      reading reached it, whatever the step cap. */
  lemma MonotoneClockTimeTruncation(maxSteps: Option<int>, t: int, numSteps: int, elapsed: seq<int>)
    requires numSteps <= |elapsed|
    requires Monotone(elapsed)
    requires Episode(Limits(maxSteps, Some(t)), numSteps, elapsed).ending == TimeCapReached
    ensures var s := Episode(Limits(maxSteps, Some(t)), numSteps, elapsed).steps;
      forall i :: 0 <= i < numSteps ==> (elapsed[i] < t <==> i < s - 1)
  {
    var limits := Limits(maxSteps, Some(t));
    TimeCapEnding(limits, numSteps, elapsed);
    var s := Episode(limits, numSteps, elapsed).steps;
    forall i | 0 <= i < numSteps
      ensures elapsed[i] < t <==> i < s - 1
    {
      if i < s - 1 {
        assert !ShouldStop(i, elapsed[i], limits);
      } else {
        assert elapsed[s - 1] <= elapsed[i];
      }
    }
  }

  /** With a clock that reads exactly the accumulated sleep time, a time-capped
      episode reports the first step count whose accumulated time reaches the
      cap, and a completed one never reached it, whatever the step cap. */
  lemma ExactClockFirstMultiple(maxSteps: Option<int>, t: int, numSteps: int, elapsed: seq<int>, stepTime: nat)
    requires numSteps <= |elapsed|
    requires ExactClock(elapsed, stepTime)
    ensures var o := Episode(Limits(maxSteps, Some(t)), numSteps, elapsed);
      && (o.ending == TimeCapReached ==> t <= o.steps * stepTime)
      && (o.ending == TimeCapReached && o.steps >= 2 ==> (o.steps - 1) * stepTime < t)
      && (o.ending == Completed && numSteps >= 1 ==> numSteps * stepTime < t)
  {
    var limits := Limits(maxSteps, Some(t));
    var o := Episode(limits, numSteps, elapsed);
    EpisodeFromEnding(limits, numSteps, elapsed, 0);
    if o.ending == TimeCapReached {
      assert TimeCapFires(elapsed[o.steps - 1], limits);
      assert elapsed[o.steps - 1] == o.steps * stepTime;
      if o.steps >= 2 {
        assert !ShouldStop(o.steps - 2, elapsed[o.steps - 2], limits);
        assert elapsed[o.steps - 2] == (o.steps - 1) * stepTime;
      }
    } else if o.ending == Completed && numSteps >= 1 {
      assert !ShouldStop(numSteps - 1, elapsed[numSteps - 1], limits);
      assert elapsed[numSteps - 1] == numSteps * stepTime;
    }
  }

  /** A time cap first reached on the last step truncates the episode, yet the
      count reported equals the target: three steps of 10 ticks against a cap
      of 25 ticks report 3 of 3, although the steps need 30 ticks in all. */
  lemma LastStepTimeTruncation()
    ensures Episode(Limits(None, Some(25)), 3, [10, 20, 30]) == Outcome(3, TimeCapReached)
  {
    // Unfolding the three steps of the episode suffices.
  }

  /** Loosening either cap never makes an episode stop earlier. */
  lemma {:induction false} LooserLimitsRunLonger(tight: Limits, loose: Limits, numSteps: int, elapsed: seq<int>, step: nat)
    requires numSteps <= |elapsed|
    requires NoTighter(tight.maxSteps, loose.maxSteps) && NoTighter(tight.maxTime, loose.maxTime)
    ensures EpisodeFrom(tight, numSteps, elapsed, step).steps <= EpisodeFrom(loose, numSteps, elapsed, step).steps
    decreases numSteps - step
  {
    if step < numSteps && !ShouldStop(step, elapsed[step], tight) {
      assert !ShouldStop(step, elapsed[step], loose);
      LooserLimitsRunLonger(tight, loose, numSteps, elapsed, step + 1);
    }
  }

  /** The demonstration collector's configuration, counted in ticks of 100 ms:
      1 to 20 steps of 0.2 s each, no step cap, a 2.0 s time cap. */
  const DEMO_LOW_STEPS := 1
  const DEMO_HIGH_STEPS := 20
  const DEMO_STEP_TIME: nat := 2
  const DEMO_LIMITS := Limits(None, Some(20))

  /** An episode of the demonstration collector, whose readings include its
      own step time of sleep per step, completes between 1 and 10 steps and
      never more than it drew. */
  lemma DemoCollectorBound(numSteps: int, elapsed: seq<int>)
    requires DEMO_LOW_STEPS <= numSteps <= DEMO_HIGH_STEPS
    requires numSteps <= |elapsed|
    requires SleptAtLeast(elapsed, DEMO_STEP_TIME)
    ensures var s := Episode(DEMO_LIMITS, numSteps, elapsed).steps;
      1 <= s <= 10 && s <= numSteps
  {
    if numSteps >= 10 {
      TimeCapBoundBySleep(None, 20, numSteps, elapsed, DEMO_STEP_TIME, 10);
    }
  }

  /** Five steps against a step cap of 2 report 3, truncated by the step cap. */
  lemma FiveStepsCapTwo(elapsed: seq<int>)
    requires 5 <= |elapsed|
    ensures Episode(Limits(Some(2), None), 5, elapsed) == Outcome(3, StepCapReached)
  {
    // Unfolding the three steps of the episode suffices.
  }

  /** Ten steps of 10 ticks against a 25-tick time cap report 3, the readings
      10 and 20 staying below the cap and 30 reaching it. */
  lemma TenStepsTimeCap(elapsed: seq<int>)
    requires 10 <= |elapsed|
    requires ExactClock(elapsed, 10)
    ensures Episode(Limits(None, Some(25)), 10, elapsed) == Outcome(3, TimeCapReached)
  {
    // Unfolding the three steps of the episode suffices.
  }
}
