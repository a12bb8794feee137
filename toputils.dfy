/** The older timing helpers of the top-level `utils.py`: a moving average that
    checks its method name and keeps only the time and value sums, and a delayer
    whose default average is this one's weighted mean. Here the weighted mean is the
    value sum over the time sum, `Σ v / Σ t`, where `minesweeper/utils.py` takes
    `Σ t·v / Σ t`. */
module TopUtils {
  import opened Errors
  import opened Utils

  /** The weighted average of this file: the values per unit of time, and 0 when the
      entries have no time. */
  function ValuePerTime(ts: seq<TimeValue>): (r: real)
    ensures SumTime(ts) != 0 ==> r * (SumTime(ts) as real) == SumValue(ts)
  {
    if SumTime(ts) != 0 then SumValue(ts) / (SumTime(ts) as real) else 0.0
  }

  /** `TimeMovingAverage` of `utils.py`. */
  class TimeMovingAverage {
    var averaging: string
    var timeWindow: int
    var timeline: seq<TimeValue>
    var timeStored: int
    var valueStored: real

    /** The running sums are the sums over the timeline, and the timeline is empty or
        fits the window. */
    ghost predicate Valid()
      reads this
    {
      timeStored == SumTime(timeline) && valueStored == SumValue(timeline)
      && (timeline == [] || timeStored <= timeWindow)
    }

    /** The constructor once the method name has been accepted: an empty average. */
    constructor (timeWindowMs: int, averaging: string)
      ensures Valid() && this.averaging == averaging && timeWindow == timeWindowMs && timeline == []
    {
      this.averaging := averaging;
      timeWindow := timeWindowMs;
      timeline := [];
      timeStored := 0;
      valueStored := 0.0;
    }

    /** `add_next(time_ms, value)`: the entry joins the end of the queue, then the
        oldest entries leave while the stored time is over the window, as `Evict`
        says. */
    method AddNext(timeMs: int, value: real)
      requires Valid()
      modifies this
      ensures Valid() && averaging == old(averaging) && timeWindow == old(timeWindow)
      ensures timeline == Evict(old(timeline) + [TimeValue(timeMs, value)], timeWindow)
    {
      ghost var full := timeline + [TimeValue(timeMs, value)];
      SumsAppend(timeline, TimeValue(timeMs, value));
      timeline := timeline + [TimeValue(timeMs, value)];
      timeStored := timeStored + timeMs;
      valueStored := valueStored + value;
      while |timeline| > 0 && timeStored > timeWindow
        invariant timeStored == SumTime(timeline) && valueStored == SumValue(timeline)
        invariant Evict(timeline, timeWindow) == Evict(full, timeWindow)
        invariant averaging == old(averaging) && timeWindow == old(timeWindow)
        decreases |timeline|
      {
        EvictStep(timeline, timeWindow);
        PopOldest();
      }
    }

    /** One turn of the eviction loop: `popleft` and take the entry out of both
        running sums. */
    method PopOldest()
      requires |timeline| > 0
      requires timeStored == SumTime(timeline) && valueStored == SumValue(timeline)
      modifies this
      ensures timeline == old(timeline)[1..]
      ensures timeStored == SumTime(timeline) && valueStored == SumValue(timeline)
      ensures averaging == old(averaging) && timeWindow == old(timeWindow)
    {
      var next := timeline[0];
      SumsFront(timeline);
      timeline := timeline[1..];
      timeStored := timeStored - next.time;
      valueStored := valueStored - next.value;
    }

    /** `average`: `Σ v / Σ t` for the weighted method, the plain mean otherwise,
        read off the running sums. */
    function Average(): (r: real)
      requires Valid()
      reads this
      ensures averaging == "weighted" ==> r == ValuePerTime(timeline)
      ensures averaging != "weighted" ==> r == PlainMean(timeline)
    {
      if averaging == "weighted" then
        (if timeStored != 0 then valueStored / (timeStored as real) else 0.0)
      else
        (if |timeline| != 0 then valueStored / (|timeline| as real) else 0.0)
    }
  }

  /** `TimeMovingAverage(time_window_ms, method)`: a `ValueError` exactly when the
      method is neither `weighted` nor `unweighted`; otherwise an empty average. */
  method NewTimeMovingAverage(timeWindowMs: int, averaging: string) returns (r: Result<TimeMovingAverage>)
    ensures r.Err? <==> averaging != "weighted" && averaging != "unweighted"
    ensures r.Ok? ==> fresh(r.value) && r.value.Valid() && r.value.timeline == []
                      && r.value.averaging == averaging && r.value.timeWindow == timeWindowMs
  {
    if averaging != "weighted" && averaging != "unweighted" {
      return Err("Invalid averaging method for time-based moving average");
    }
    var avg := new TimeMovingAverage(timeWindowMs, averaging);
    return Ok(avg);
  }

  /** The single-item test expects a weighted average of 5 after one entry of value
      5 lasting 20 ms; this file's weighted mean gives 5/20 instead, while the mean
      of `minesweeper/utils.py` gives 5. */
  lemma SingleItemWeighted()
    ensures ValuePerTime([TimeValue(20, 5.0)]) == 0.25
    ensures WeightedMean([TimeValue(20, 5.0)]) == 5.0
  {
    SumsAppend([], TimeValue(20, 5.0));
    assert [] + [TimeValue(20, 5.0)] == [TimeValue(20, 5.0)];
  }

  /** On the worked example with a window of 15, this file's weighted mean is 2/15
      where the documented value is 3/5, the mean of `minesweeper/utils.py`. */
  lemma DocsExampleWeighted()
    ensures ValuePerTime(DocsEntries()) == 2.0 / 15.0
    ensures WeightedMean(DocsEntries()) == 0.6
  {
    DocsSums();
  }

  /** Over lag entries this file's weighted mean is the number of lagging ticks per
      millisecond of delay, not a share of the ticks: two lagging ticks and one
      tick of 1 ms give 2. */
  lemma LagPerTime(ts: seq<TimeValue>)
    requires LagEntries(ts)
    ensures ValuePerTime(ts) == if SumTime(ts) != 0 then (Lagging(ts) as real) / (SumTime(ts) as real) else 0.0
  {
    LagSum(ts);
  }

  /** Two lagging ticks and one tick of 1 ms: a weighted lag ratio of 2. */
  lemma LagRatioAboveOne()
    ensures LagEntries([TimeValue(0, 1.0), TimeValue(0, 1.0), TimeValue(1, 0.0)])
    ensures ValuePerTime([TimeValue(0, 1.0), TimeValue(0, 1.0), TimeValue(1, 0.0)]) == 2.0
  {
    var e := [TimeValue(0, 1.0), TimeValue(0, 1.0), TimeValue(1, 0.0)];
    SumsAppend(e[..2], e[2]);
    SumsAppend(e[..1], e[1]);
    SumsAppend([], e[0]);
    assert e[..2] == e[..1] + [e[1]] && e[..1] == [] + [e[0]] && e == e[..2] + [e[2]];
  }

  /** `Delayer` of `utils.py`: a frame rate and a 20-second weighted average of the
      ticks' lag flags. */
  class Delayer {
    var fps: int
    const ticks: TimeMovingAverage

    ghost predicate Valid()
      reads this, ticks
    {
      ticks.Valid() && LagEntries(ticks.timeline)
    }

    constructor (initialFps: int)
      ensures Valid() && fps == initialFps && fresh(ticks)
      ensures ticks.timeWindow == 20000 && ticks.averaging == "weighted" && ticks.timeline == []
    {
      fps := initialFps;
      ticks := new TimeMovingAverage(20000, "weighted");
    }

    /** `tick_delay(delay)`, with the time the clock reports for the tick as
        `tickTime`: a rate of 0 fails with the division by zero before anything is
        recorded; otherwise the delay is the frame budget less the tick time, never
        below 0, and the tick joins the average with its lag flag. (The source
        returns nothing; the delay is returned here to state it.) */
    method TickDelay(tickTime: int, delay: bool) returns (r: Result<int>)
      requires Valid()
      modifies ticks
      ensures Valid() && ticks.averaging == old(ticks.averaging) && ticks.timeWindow == old(ticks.timeWindow)
      ensures r.Err? <==> fps == 0
      ensures fps == 0 ==> ticks.timeline == old(ticks.timeline)
      ensures fps != 0 ==> r == Ok(Delay(fps, tickTime))
                           && ticks.timeline == Evict(old(ticks.timeline) + [TimeValue(r.value, LagFlag(r.value))], ticks.timeWindow)
    {
      if fps == 0 {
        return Err("integer division or modulo by zero");
      }
      var d := Delay(fps, tickTime);
      ghost var full := ticks.timeline + [TimeValue(d, LagFlag(d))];
      LagEntriesAppend(ticks.timeline, TimeValue(d, LagFlag(d)));
      LagEntriesEvict(full, ticks.timeWindow);
      ticks.AddNext(d, LagFlag(d));
      return Ok(d);
    }

    /** `lag_ratio`: the weighted average, which over lag entries is the number of
        lagging ticks per millisecond of delay. */
    function LagRatio(): (r: real)
      requires Valid()
      reads this, ticks
      ensures ticks.averaging == "weighted" ==>
                r == if SumTime(ticks.timeline) != 0 then (Lagging(ticks.timeline) as real) / (SumTime(ticks.timeline) as real) else 0.0
    {
      LagPerTime(ticks.timeline);
      ticks.Average()
    }
  }
}
