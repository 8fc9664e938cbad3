# Episode truncation in the toy collector

A `ToyCollector` actor runs one "episode" at a time. It draws a target step
count from an inclusive range and then executes the steps one by one. After
each step it applies two optional truncation policies, in a fixed order:

1. a step-count cap: the zero-based step index has reached `max_steps`;
2. a time cap: the time elapsed since the episode started has reached `max_time`.

The first policy that fires ends the episode, and the collector reports
`step + 1`. If neither fires, it reports the target step count.

The model has four modules:

- `Truncation` (truncation.dfy) holds the policies as predicates.
  `EpisodeFrom` and `Episode` are a step-by-step reference definition of what
  an episode reports. Its lemmas characterise that report as "one plus the
  first step at which a policy fires, or the target if none fires".
- `Collector` (collector.dfy) holds the class `ToyCollector`. Its fields are
  fixed at construction. `RunEpisode` is the step loop, a `while` loop with
  early returns, proved to report exactly `Episode`.
- `EpisodeProperties` (properties.dfy) proves the consequences: bounds, each
  cap on its own, the check order, and what a monotone clock, or a clock that
  includes the per-step sleep, implies.
- `Demo` (demo.dfy) builds the demonstration collector and runs two episodes.

Modelling choices:

- The random draw is a parameter `numSteps` with `lowSteps <= numSteps <= highSteps`.
  `random.randint` is inclusive on both ends and fails when `low > high`.
- The clock is a parameter `elapsed: seq<int>`. `elapsed[i]` is the reading,
  in integer ticks since the episode started, taken after step `i`. There is
  one reading for each step that can run. `RunEpisode` assumes nothing else
  about the readings. Monotonicity (`Monotone`) and the per-step sleep
  (`SleptAtLeast`, `ExactClock`) are stated as explicit hypotheses, and only
  the lemmas that need them assume them.
- `numSteps`, `max_steps` and `max_time` are unbounded integers of any sign,
  because the source validates none of them. A negative target gives an empty
  `range`, and the source then reports that negative target unchanged. A step
  cap of 0 or below fires after the first step. A time cap of 0 or below does so
  whenever the first reading is non-negative; a clock that has jumped backwards
  can give a negative reading that stays below it.
- `Ending` records which of the three closing log lines the episode prints
  (main.py:49, 53, 57). This is the observable effect of the check order,
  because the returned count is the same whichever policy fires.
- A time-capped episode whose cap is first reached on its last step reports
  the same count as natural completion (`LastStepTimeTruncation`). So "the
  natural duration exceeds the cap" does not imply "fewer steps than the target
  are reported".
- The collector keeps no state between episodes. `RunEpisode` modifies
  nothing, and its report is a function of its arguments alone.
  `RunDemoEpisodes` runs two episodes on one collector to show that repeated
  calls are independent. The source's `main` does not do this: it spawns the
  collector on a mesh of four processes and runs one episode on each
  (main.py:63-65).

## Model

| member | source | states |
|---|---|---|
| `Truncation.EpisodeFrom` | main.py:43-58 | from step `step` on, what is reported lies in `[step + 1, numSteps]` whenever a step remains, and a completed episode reports the target |
| `Truncation.Episode` | main.py:43-58 | the report never exceeds the target, is at least 1 when at least one step is due, and is the target itself, with a completed ending, when the loop body never runs |
| `Truncation.EpisodeFromEnding` | main.py:43-58 | from any step, the episode either completes with no policy firing at any remaining step, or stops right after the first remaining step where a policy fires; it names the step-count policy exactly when that policy fired there |
| `Truncation.CompletionCharacterization` | main.py:43-58 | the episode completes if and only if no policy fires at any executed step, and a completed episode reports the target step count |
| `Truncation.FirstStopCharacterization` | main.py:43-58 | the episode is truncated reporting `i + 1` if and only if `i` is the first step at which a policy fires (both directions) |
| `Truncation.EpisodeIsFirstFiringPlusOne` | main.py:48-54 | when `i` is the first firing step, the report is `i + 1`, and the ending is step-cap if that check fired, otherwise time-cap |
| `Collector.ToyCollector.constructor` | main.py:16-30 | the collector stores the step range, the step time and both optional caps unchanged |
| `Collector.ToyCollector.RunEpisode` | main.py:36-58 | the loop over steps `0 .. numSteps - 1`, with its early returns after the step-cap check and then the time check, reports exactly `Episode` of the collector's own caps |
| `EpisodeProperties.NoLimitsRunToCompletion` | main.py:48-58 | with both caps unset, the episode reports exactly the target step count and completes |
| `EpisodeProperties.StepCapBound` | main.py:48-50 | a step cap `k` bounds the report by `k + 1` (by 1 when `k < 0`), whatever the time cap and the clock |
| `EpisodeProperties.StepCapExact` | main.py:48-50 | with no time cap and `0 <= k < numSteps`, the episode reports exactly `k + 1`, truncated by the step cap |
| `EpisodeProperties.StepCapNotReached` | main.py:48-50 | with no time cap and a step cap no lower than the target, the episode completes and reports the target |
| `EpisodeProperties.ZeroStepCapStopsAfterOne` | main.py:48-50 | a step cap of 0 truncates every episode of at least one step after exactly one step, whatever the time cap |
| `EpisodeProperties.StepCapCheckedFirst` | main.py:48-54 | when both policies fire at the first firing step, the step-count branch is the one taken, and the report is `i + 1` |
| `EpisodeProperties.TimeCapEnding` | main.py:48-54 | a time-capped ending means the reading after the last step reached the cap, the step cap did not fire there, and no earlier step met either condition |
| `EpisodeProperties.TimeCapInclusive` | main.py:52-54 | a reading exactly equal to the time cap truncates the episode (the comparison is `>=`, not `>`) |
| `EpisodeProperties.TimeCapBoundBySleep` | main.py:46-54 | since every step sleeps `stepTime` before its reading, a time cap `t` stops the episode by any step count `k` with `k * stepTime >= t` |
| `EpisodeProperties.MonotoneClockTimeTruncation` | main.py:41-54 | with a clock that never runs backwards, and whatever the step cap, a time-truncated episode ran exactly the steps whose readings were below the cap, plus the step whose reading reached it |
| `EpisodeProperties.ExactClockFirstMultiple` | main.py:46-58 | with a clock that reads exactly the accumulated sleep, and whatever the step cap, a time-truncated report is the first step count whose accumulated time reaches the cap, and a completed episode never reached it |
| `EpisodeProperties.LastStepTimeTruncation` | main.py:52-58 | a cap first reached on the last step is a time truncation that reports the full target (3 of 3 steps of 10 ticks against a cap of 25) |
| `EpisodeProperties.LooserLimitsRunLonger` | main.py:48-54 | loosening either cap (raising it or unsetting it) never makes an episode report fewer steps |
| `EpisodeProperties.DemoCollectorBound` | main.py:64 | the demonstration collector (1 to 20 steps of 0.2 s, a 2.0 s cap, in 100 ms ticks) reports between 1 and 10 steps, and never more than it drew |
| `EpisodeProperties.FiveStepsCapTwo` | main.py:48-50 | five steps against a step cap of 2 report 3, truncated by the step cap |
| `EpisodeProperties.TenStepsTimeCap` | main.py:52-54 | ten steps of 10 ticks against a 25-tick time cap report 3, truncated by the time cap |
| `Demo.RunDemoEpisodes` | main.py:64-65 | two episodes on one demonstration collector, with readings that include the collector's own step time, each report between 1 and 10 steps and no more than drawn, independently of each other (`main` itself runs one episode per actor) |

## Left out

- Actor plumbing is not modelled: `Actor`, `@endpoint`, `proc_mesh`, `spawn` and `.call()` (main.py:12, 61-65). They are calls into a runtime whose code is not part of this model.
- The rank and pool-size lookup (main.py:27-28) is not modelled. It only feeds the log prefix, and `current_rank`/`current_size` are external calls.
- `async` and `asyncio.run` concurrency are not modelled (main.py:36, 61, 68-69). A single episode is sequential.
- Logging (main.py:32-33, 39, 45, 49, 53, 57) is not modelled, except that `Ending` records which closing line is printed.
- `random.randint` (main.py:38) becomes the parameter `numSteps` with the inclusive range as a precondition. The error that `randint` raises when `low_steps > high_steps` is not modelled.
- Wall-clock time and floats are not modelled: `time.time()`, `time.sleep` and float `step_time`/`max_time` (main.py:41, 46, 52) become integer ticks. A reading is taken for every step, even where the source skips `time.time()` because the step cap already fired or `max_time` is unset. Float rounding in the subtraction and comparison is not modelled.
- `Collector.ToyCollector.constructor`: `stepTime` is a `nat`. A negative `step_time` makes `time.sleep` raise on the first step, and that error path is not modelled.
- A sleep interrupted by the environment, which aborts the episode, is not modelled.
