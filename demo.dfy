/** A client of the collector: the demonstration configuration, run twice. */
module Demo {
  import opened Truncation
  import opened Collector
  import opened EpisodeProperties

  /** Builds the demonstration collector and runs two episodes on it, each
      with readings that include the collector's own step time of sleep per
      step. The collector keeps no state between episodes, so each report
      obeys the same bound on its own. */
  method RunDemoEpisodes(n1: int, elapsed1: seq<int>, n2: int, elapsed2: seq<int>) returns (s1: int, s2: int)
    requires DEMO_LOW_STEPS <= n1 <= DEMO_HIGH_STEPS && n1 <= |elapsed1| && SleptAtLeast(elapsed1, DEMO_STEP_TIME)
    requires DEMO_LOW_STEPS <= n2 <= DEMO_HIGH_STEPS && n2 <= |elapsed2| && SleptAtLeast(elapsed2, DEMO_STEP_TIME)
    ensures 1 <= s1 <= 10 && s1 <= n1
    ensures 1 <= s2 <= 10 && s2 <= n2
  {
    var collector := new ToyCollector(DEMO_LOW_STEPS, DEMO_HIGH_STEPS, DEMO_STEP_TIME,
                                      DEMO_LIMITS.maxSteps, DEMO_LIMITS.maxTime);
    var ending1, ending2;
    s1, ending1 := collector.RunEpisode(n1, elapsed1);
    DemoCollectorBound(n1, elapsed1);
    s2, ending2 := collector.RunEpisode(n2, elapsed2);
    DemoCollectorBound(n2, elapsed2);
  }
}
