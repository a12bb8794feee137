/** Timing helpers of `minesweeper/utils.py`: a moving average over a sliding time
    window, a delayer that keeps a tick rate and records how often ticks lag, and a
    repeater that fires every so many ticks. The moving average keeps its entries in
    a first-in first-out queue with running sums; after every addition the oldest
    entries leave until the stored time fits the window. */
module Utils {

  /** One entry of the timeline: a duration in milliseconds and a value. */
  datatype TimeValue = TimeValue(time: int, value: real)

  /** The total duration of the entries. */
  function SumTime(ts: seq<TimeValue>): int
  {
    if |ts| == 0 then 0 else SumTime(ts[..|ts| - 1]) + ts[|ts| - 1].time
  }

  /** The total of the values. */
  function SumValue(ts: seq<TimeValue>): real
  {
    if |ts| == 0 then 0.0 else SumValue(ts[..|ts| - 1]) + ts[|ts| - 1].value
  }

  /** A duration times a value. */
  function Product(time: int, value: real): real
  {
    (time as real) * value
  }

  /** The total of each duration times its value. */
  function SumTimeValue(ts: seq<TimeValue>): real
  {
    if |ts| == 0 then 0.0 else SumTimeValue(ts[..|ts| - 1]) + Product(ts[|ts| - 1].time, ts[|ts| - 1].value)
  }

  /** Appending an entry adds it to each sum. */
  lemma SumsAppend(ts: seq<TimeValue>, x: TimeValue)
    ensures SumTime(ts + [x]) == SumTime(ts) + x.time
    ensures SumValue(ts + [x]) == SumValue(ts) + x.value
    ensures SumTimeValue(ts + [x]) == SumTimeValue(ts) + Product(x.time, x.value)
  {
    assert (ts + [x])[..|ts|] == ts;
  }

  /** Removing the oldest entry takes it out of each sum. */
  lemma {:induction false} SumsFront(ts: seq<TimeValue>)
    requires |ts| > 0
    ensures SumTime(ts) == ts[0].time + SumTime(ts[1..])
    ensures SumValue(ts) == ts[0].value + SumValue(ts[1..])
    ensures SumTimeValue(ts) == Product(ts[0].time, ts[0].value) + SumTimeValue(ts[1..])
  {
    if |ts| > 1 {
      var init := ts[..|ts| - 1];
      SumsFront(init);
      assert init[1..] == ts[1..][..|ts| - 2];
    } else {
      assert ts[..0] == [] && ts[1..] == [];
    }
  }

  /** The eviction loop of `add_next`: while entries remain and their total time is
      over the window, the oldest one leaves. */
  function Evict(ts: seq<TimeValue>, window: int): (r: seq<TimeValue>)
    ensures |r| <= |ts|
    decreases |ts|
  {
    if |ts| > 0 && SumTime(ts) > window then Evict(ts[1..], window) else ts
  }

  /** What `Evict` keeps is a suffix of the queue, and it is empty or fits the
      window. */
  lemma {:induction false} EvictKeeps(ts: seq<TimeValue>, window: int)
    ensures var r := Evict(ts, window);
            |r| <= |ts| && r == ts[|ts| - |r|..] && (r == [] || SumTime(r) <= window)
    decreases |ts|
  {
    if |ts| > 0 && SumTime(ts) > window {
      EvictKeeps(ts[1..], window);
      var r := Evict(ts, window);
      assert ts[1..][|ts| - 1 - |r|..] == ts[|ts| - |r|..];
    }
  }

  /** Nothing leaves that did not have to: every longer suffix than what `Evict`
      keeps (each queue the loop passed through) was over the window. */
  lemma {:induction false} EvictMinimal(ts: seq<TimeValue>, window: int, j: nat)
    requires j < |ts| - |Evict(ts, window)|
    ensures SumTime(ts[j..]) > window
    decreases |ts|
  {
    if j > 0 {
      EvictMinimal(ts[1..], window, j - 1);
      assert ts[1..][j - 1..] == ts[j..];
    } else {
      assert ts[0..] == ts;
    }
  }

  /** A queue over the window loses its oldest entry first. */
  lemma EvictStep(ts: seq<TimeValue>, window: int)
    requires |ts| > 0 && SumTime(ts) > window
    ensures Evict(ts, window) == Evict(ts[1..], window)
  {
  }

  /** A queue that already fits the window loses nothing. */
  lemma EvictFits(ts: seq<TimeValue>, window: int)
    requires SumTime(ts) <= window
    ensures Evict(ts, window) == ts
  {
  }

  /** The weighted average of the entries, `Σ t·v / Σ t`, and 0 when they have no
      time. */
  function WeightedMean(ts: seq<TimeValue>): (r: real)
    ensures SumTime(ts) != 0 ==> r * (SumTime(ts) as real) == SumTimeValue(ts)
  {
    if SumTime(ts) != 0 then SumTimeValue(ts) / (SumTime(ts) as real) else 0.0
  }

  /** The unweighted average of the entries, `Σ v / n`, and 0 when there are none. */
  function PlainMean(ts: seq<TimeValue>): real
  {
    if |ts| != 0 then SumValue(ts) / (|ts| as real) else 0.0
  }

  /** With every entry lasting the same positive time, both averages agree. */
  lemma EqualTimesAgree(ts: seq<TimeValue>, unit: int)
    requires unit > 0 && forall i :: 0 <= i < |ts| ==> ts[i].time == unit
    ensures WeightedMean(ts) == PlainMean(ts)
  {
    EqualTimesSums(ts, unit);
    if |ts| != 0 {
      var u := unit as real;
      var n := |ts| as real;
      assert (unit * |ts|) as real == u * n;
      CancelUnit(u, SumValue(ts), n);
    }
  }

  /** A common positive factor cancels from a quotient. */
  lemma CancelUnit(u: real, v: real, n: real)
    requires u > 0.0 && n > 0.0
    ensures (u * v) / (u * n) == v / n
  {
  }

  /** With every entry lasting `unit`, the time sum is `unit · n` and the weighted sum
      is `unit · Σ v`. */
  lemma {:induction false} EqualTimesSums(ts: seq<TimeValue>, unit: int)
    requires forall i :: 0 <= i < |ts| ==> ts[i].time == unit
    ensures SumTime(ts) == unit * |ts|
    ensures SumTimeValue(ts) == (unit as real) * SumValue(ts)
  {
    if |ts| > 0 {
      EqualTimesSums(ts[..|ts| - 1], unit);
      assert SumTime(ts) == unit * (|ts| - 1) + unit;
    }
  }

  /** `TimeMovingAverage` of `minesweeper/utils.py`. */
  class TimeMovingAverage {
    var averaging: string
    var timeWindow: int
    var timeline: seq<TimeValue>
    var timeStored: int
    var valueStored: real
    var timeValueStored: real
    /** `saturated`: whether the stored time ever reached the window. */
    var saturated: bool

    /** The running sums are the sums over the timeline, and the timeline is empty or
        fits the window. */
    ghost predicate Valid()
      reads this
    {
      timeStored == SumTime(timeline) && valueStored == SumValue(timeline)
      && timeValueStored == SumTimeValue(timeline)
      && (timeline == [] || timeStored <= timeWindow)
    }

    /** `TimeMovingAverage(time_window_ms, method)`: an empty, unsaturated average. */
    constructor (timeWindowMs: int, averaging: string)
      ensures Valid() && this.averaging == averaging && timeWindow == timeWindowMs
      ensures timeline == [] && !saturated
    {
      this.averaging := averaging;
      timeWindow := timeWindowMs;
      timeline := [];
      timeStored := 0;
      valueStored := 0.0;
      timeValueStored := 0.0;
      saturated := false;
    }

    /** `add_next(time_ms, value)`: the entry joins the end of the queue, the average
        is saturated from now on if the stored time reaches the window, and then the
        oldest entries leave as `Evict` says. */
    method AddNext(timeMs: int, value: real)
      requires Valid()
      modifies this
      ensures Valid() && averaging == old(averaging) && timeWindow == old(timeWindow)
      ensures timeline == Evict(old(timeline) + [TimeValue(timeMs, value)], timeWindow)
      ensures saturated == (old(saturated) || old(timeStored) + timeMs >= timeWindow)
    {
      ghost var full := timeline + [TimeValue(timeMs, value)];
      SumsAppend(timeline, TimeValue(timeMs, value));
      timeline := timeline + [TimeValue(timeMs, value)];
      timeStored := timeStored + timeMs;
      valueStored := valueStored + value;
      timeValueStored := timeValueStored + Product(timeMs, value);
      if timeStored >= timeWindow {
        saturated := true;
      }
      while |timeline| > 0 && timeStored > timeWindow
        invariant timeStored == SumTime(timeline) && valueStored == SumValue(timeline)
        invariant timeValueStored == SumTimeValue(timeline)
        invariant Evict(timeline, timeWindow) == Evict(full, timeWindow)
        invariant averaging == old(averaging) && timeWindow == old(timeWindow)
        invariant saturated == (old(saturated) || old(timeStored) + timeMs >= timeWindow)
        decreases |timeline|
      {
        EvictStep(timeline, timeWindow);
        PopOldest();
      }
    }

    /** One turn of the eviction loop: `popleft` and take the entry out of the
        running sums. */
    method PopOldest()
      requires |timeline| > 0
      requires timeStored == SumTime(timeline) && valueStored == SumValue(timeline)
      requires timeValueStored == SumTimeValue(timeline)
      modifies this
      ensures timeline == old(timeline)[1..]
      ensures timeStored == SumTime(timeline) && valueStored == SumValue(timeline)
      ensures timeValueStored == SumTimeValue(timeline)
      ensures averaging == old(averaging) && timeWindow == old(timeWindow) && saturated == old(saturated)
    {
      var next := timeline[0];
      SumsFront(timeline);
      timeline := timeline[1..];
      timeStored := timeStored - next.time;
      valueStored := valueStored - next.value;
      timeValueStored := timeValueStored - Product(next.time, next.value);
    }

    /** `average`: the weighted mean of the timeline when the method is `weighted`,
        its plain mean for any other method, read off the running sums. */
    function Average(): (r: real)
      requires Valid()
      reads this
      ensures averaging == "weighted" ==> r == WeightedMean(timeline)
      ensures averaging != "weighted" ==> r == PlainMean(timeline)
    {
      if averaging == "weighted" then
        (if timeStored != 0 then timeValueStored / (timeStored as real) else 0.0)
      else
        (if |timeline| != 0 then valueStored / (|timeline| as real) else 0.0)
    }
  }

  /** The saturation test with unit times: for a window `w >= 1`, adding the values
      `1 .. w - 1` with time 1 leaves the average unsaturated after each of them, and
      adding `w` saturates it. */
  method SaturationWithUnits(window: int, averaging: string) returns (early: bool, last: bool)
    requires window >= 1
    ensures !early && last
  {
    var avg := new TimeMovingAverage(window, averaging);
    early := false;
    var val := 1;
    while val < window
      invariant 1 <= val <= window
      invariant avg.Valid() && avg.timeWindow == window && avg.timeStored == val - 1
      invariant !avg.saturated && !early
    {
      EvictFits(avg.timeline + [TimeValue(1, val as real)], window);
      SumsAppend(avg.timeline, TimeValue(1, val as real));
      avg.AddNext(1, val as real);
      early := early || avg.saturated;
      val := val + 1;
    }
    avg.AddNext(1, window as real);
    last := avg.saturated;
  }

  /** The worked example of the class: durations 5, 2, 4, 4 with values 1, 0, 0, 1.
      A window of 15 keeps all four (plain mean 1/2, weighted mean 3/5); a window of
      12 drops the oldest (plain mean 1/3, weighted mean 2/5). */
  method DocsExample(window: int, averaging: string) returns (average: real)
    requires window == 15 || window == 12
    ensures window == 15 && averaging == "weighted" ==> average == 0.6
    ensures window == 15 && averaging != "weighted" ==> average == 0.5
    ensures window == 12 && averaging == "weighted" ==> average == 0.4
    ensures window == 12 && averaging != "weighted" ==> average == 1.0 / 3.0
  {
    var avg := DocsFirstThree(window, averaging);
    avg.AddNext(4, 1.0);
    if window == 12 {
      DocsWindow12();
    } else {
      DocsWindow15();
    }
    average := avg.Average();
  }

  /** The first three additions of the worked example, which every window of at
      least 11 keeps. */
  method DocsFirstThree(window: int, averaging: string) returns (avg: TimeMovingAverage)
    requires window >= 11
    ensures fresh(avg) && avg.Valid() && avg.timeWindow == window && avg.averaging == averaging
    ensures avg.timeline + [TimeValue(4, 1.0)] == DocsEntries()
  {
    avg := new TimeMovingAverage(window, averaging);
    KeepAll([], TimeValue(5, 1.0), window);
    avg.AddNext(5, 1.0);
    assert avg.timeline == [TimeValue(5, 1.0)] && SumTime(avg.timeline) == 5;
    KeepAll(avg.timeline, TimeValue(2, 0.0), window);
    avg.AddNext(2, 0.0);
    assert avg.timeline == [TimeValue(5, 1.0), TimeValue(2, 0.0)] && SumTime(avg.timeline) == 7;
    KeepAll(avg.timeline, TimeValue(4, 0.0), window);
    avg.AddNext(4, 0.0);
    assert avg.timeline == [TimeValue(5, 1.0), TimeValue(2, 0.0), TimeValue(4, 0.0)];
  }

  /** The entries of the worked example, oldest first. */
  function DocsEntries(): seq<TimeValue>
  {
    [TimeValue(5, 1.0), TimeValue(2, 0.0), TimeValue(4, 0.0), TimeValue(4, 1.0)]
  }

  /** A window of 15 keeps every entry of the example. */
  lemma DocsWindow15()
    ensures Evict(DocsEntries(), 15) == DocsEntries()
    ensures WeightedMean(DocsEntries()) == 0.6 && PlainMean(DocsEntries()) == 0.5
  {
    var e := DocsEntries();
    DocsSums();
    EvictFits(e, 15);
  }

  /** A window of 12 drops the oldest entry of the example. */
  lemma DocsWindow12()
    ensures Evict(DocsEntries(), 12) == DocsEntries()[1..]
    ensures WeightedMean(DocsEntries()[1..]) == 0.4 && PlainMean(DocsEntries()[1..]) == 1.0 / 3.0
  {
    var e := DocsEntries();
    DocsSums();
    SumsFront(e);
    DropOldest(e, 12);
  }

  /** The sums of the example's entries. */
  lemma DocsSums()
    ensures SumTime(DocsEntries()) == 15 && SumValue(DocsEntries()) == 2.0
    ensures SumTimeValue(DocsEntries()) == 9.0
  {
    var e := DocsEntries();
    SumsAppend(e[..3], e[3]);
    SumsAppend(e[..2], e[2]);
    SumsAppend(e[..1], e[1]);
    SumsAppend([], e[0]);
    assert e[..3] == e[..2] + [e[2]] && e[..2] == e[..1] + [e[1]] && e[..1] == [] + [e[0]];
    assert e == e[..3] + [e[3]];
  }

  /** An entry that still fits the window removes nothing. */
  lemma KeepAll(ts: seq<TimeValue>, x: TimeValue, window: int)
    requires SumTime(ts) + x.time <= window
    ensures Evict(ts + [x], window) == ts + [x]
    ensures SumTime(ts + [x]) == SumTime(ts) + x.time && SumValue(ts + [x]) == SumValue(ts) + x.value
    ensures SumTimeValue(ts + [x]) == SumTimeValue(ts) + Product(x.time, x.value)
  {
    SumsAppend(ts, x);
    EvictFits(ts + [x], window);
  }

  /** When the queue is over the window but fits without its oldest entry, exactly
      that entry leaves. */
  lemma DropOldest(ts: seq<TimeValue>, window: int)
    requires |ts| > 0 && SumTime(ts) > window && SumTime(ts[1..]) <= window
    ensures Evict(ts, window) == ts[1..]
  {
    EvictFits(ts[1..], window);
  }

  /** Python's `a // b`: the quotient rounded down, for either sign of `b`. */
  function FloorDiv(a: int, b: int): (q: int)
    requires b != 0
    ensures b > 0 ==> b * q <= a < b * q + b
    ensures b < 0 ==> b * q + b < a <= b * q
  {
    if b > 0 || a % b == 0 then a / b else a / b - 1
  }

  /** The delay `tick_delay` computes: the frame budget `1000 // fps` less the time
      the tick took, never below 0, and 1 when the rate is 0. */
  function Delay(fps: int, tickTime: int): (d: int)
    ensures d >= 0
    ensures fps == 0 ==> d == 1
    ensures fps != 0 ==> (d == 0 <==> tickTime >= FloorDiv(1000, fps))
    ensures fps != 0 && d > 0 ==> tickTime + d == FloorDiv(1000, fps)
  {
    if fps != 0 then (if FloorDiv(1000, fps) - tickTime > 0 then FloorDiv(1000, fps) - tickTime else 0) else 1
  }

  /** The lag flag a tick of this delay records: 1 exactly when there was no time
      left to wait. */
  function LagFlag(d: int): (v: real)
    ensures v == 1.0 <==> d == 0
    ensures v == 0.0 <==> d != 0
  {
    if d == 0 then 1.0 else 0.0
  }

  /** Every entry is a tick's delay with its lag flag. */
  ghost predicate LagEntries(ts: seq<TimeValue>)
  {
    forall i :: 0 <= i < |ts| ==> ts[i].value == LagFlag(ts[i].time)
  }

  /** The number of lagging entries. */
  function Lagging(ts: seq<TimeValue>): (n: nat)
    ensures n <= |ts|
  {
    if |ts| == 0 then 0 else Lagging(ts[..|ts| - 1]) + (if ts[|ts| - 1].time == 0 then 1 else 0)
  }

  /** Over lag entries the value sum counts the lagging ticks. */
  lemma {:induction false} LagSum(ts: seq<TimeValue>)
    requires LagEntries(ts)
    ensures SumValue(ts) == Lagging(ts) as real
  {
    if |ts| > 0 {
      var init := ts[..|ts| - 1];
      assert LagEntries(init) by {
        forall i | 0 <= i < |init|
          ensures init[i].value == LagFlag(init[i].time)
        {
          assert init[i] == ts[i];
        }
      }
      LagSum(init);
    }
  }

  /** A tick recorded with its lag flag keeps a queue of lag entries. */
  lemma LagEntriesAppend(ts: seq<TimeValue>, x: TimeValue)
    requires LagEntries(ts) && x.value == LagFlag(x.time)
    ensures LagEntries(ts + [x])
  {
    forall i | 0 <= i < |ts| + 1
      ensures (ts + [x])[i].value == LagFlag((ts + [x])[i].time)
    {
      if i < |ts| {
        assert (ts + [x])[i] == ts[i];
      }
    }
  }

  /** A queue suffix of lag entries holds lag entries. */
  lemma LagEntriesSuffix(ts: seq<TimeValue>, k: nat)
    requires LagEntries(ts) && k <= |ts|
    ensures LagEntries(ts[k..])
  {
    forall i | 0 <= i < |ts| - k
      ensures ts[k..][i].value == LagFlag(ts[k..][i].time)
    {
      assert ts[k..][i] == ts[k + i];
    }
  }

  /** Eviction keeps a queue of lag entries. */
  lemma LagEntriesEvict(ts: seq<TimeValue>, window: int)
    requires LagEntries(ts)
    ensures LagEntries(Evict(ts, window))
  {
    EvictKeeps(ts, window);
    LagEntriesSuffix(ts, |ts| - |Evict(ts, window)|);
  }

  /** `Delayer`: a frame rate and the moving average of its ticks' lag flags. */
  class Delayer {
    var fps: int
    const ticks: TimeMovingAverage

    ghost predicate Valid()
      reads this, ticks
    {
      ticks.Valid() && LagEntries(ticks.timeline)
    }

    /** `Delayer(initial_fps)`: the default average, a 20-second unweighted window. */
    constructor (initialFps: int)
      ensures Valid() && fps == initialFps && fresh(ticks)
      ensures ticks.timeWindow == 20000 && ticks.averaging == "unweighted" && ticks.timeline == []
    {
      fps := initialFps;
      ticks := new TimeMovingAverage(20000, "unweighted");
    }

    /** `tick_delay(delay)`, with the time the clock reports for the tick as
        `tickTime`: the delay is `Delay(fps, tickTime)`, and the tick joins the average
        with its lag flag. */
    method TickDelay(tickTime: int, delay: bool) returns (d: int)
      requires Valid()
      modifies ticks
      ensures Valid() && d == Delay(fps, tickTime)
      ensures ticks.averaging == old(ticks.averaging) && ticks.timeWindow == old(ticks.timeWindow)
      ensures ticks.timeline == Evict(old(ticks.timeline) + [TimeValue(d, LagFlag(d))], ticks.timeWindow)
    {
      d := Delay(fps, tickTime);
      ghost var full := ticks.timeline + [TimeValue(d, LagFlag(d))];
      LagEntriesAppend(ticks.timeline, TimeValue(d, LagFlag(d)));
      LagEntriesEvict(full, ticks.timeWindow);
      ticks.AddNext(d, LagFlag(d));
    }

    /** `lag_ratio`: with the unweighted average, the share of the remembered ticks
        that lagged, a proportion between 0 and 1. */
    function LagRatio(): (r: real)
      requires Valid()
      reads this, ticks
      ensures ticks.averaging != "weighted" ==>
                r == (if |ticks.timeline| == 0 then 0.0 else (Lagging(ticks.timeline) as real) / (|ticks.timeline| as real))
      ensures ticks.averaging != "weighted" ==> 0.0 <= r <= 1.0
    {
      LagSum(ticks.timeline);
      ticks.Average()
    }
  }

  /** A count of ticks that is at least 1: the count itself when it is positive,
      and 1 otherwise. A count-based repeater first fires on tick
      `AtLeastOne(initial_delay)` and then every `AtLeastOne(repeat)` ticks. */
  function AtLeastOne(n: int): (k: nat)
    ensures k >= 1
    ensures n >= 1 ==> k == n
  {
    if n <= 0 then 1 else n
  }

  /** Whether the `k`-th tick (counting from 1) fires. */
  predicate FiresOn(initialDelay: int, repeat: int, k: nat)
    ensures FiresOn(initialDelay, repeat, k) ==> k >= 1
    ensures initialDelay >= 1 && repeat >= 1 && FiresOn(initialDelay, repeat, k) ==> k >= initialDelay && (k - initialDelay) % repeat == 0
  {
    k >= AtLeastOne(initialDelay) && (k - AtLeastOne(initialDelay)) % AtLeastOne(repeat) == 0
  }

  /** The wait counter after `k` ticks. */
  function WaitAfter(initialDelay: int, repeat: int, k: nat): (w: int)
    ensures k < AtLeastOne(initialDelay) ==> w == initialDelay - k
    ensures FiresOn(initialDelay, repeat, k) ==> w == repeat
    ensures k >= AtLeastOne(initialDelay) ==> w <= repeat
  {
    if k < AtLeastOne(initialDelay) then initialDelay - k
    else repeat - (k - AtLeastOne(initialDelay)) % AtLeastOne(repeat)
  }

  /** Counting one further step modulo `p`. */
  lemma ModNext(x: nat, p: nat)
    requires p > 0
    ensures (x + 1) % p == if x % p == p - 1 then 0 else x % p + 1
  {
    var q, r := x / p, x % p;
    if r == p - 1 {
      assert x + 1 == p * (q + 1) + 0;
      ModUnique(x + 1, p, q + 1, 0);
    } else {
      assert x + 1 == p * q + (r + 1);
      ModUnique(x + 1, p, q, r + 1);
    }
  }

  /** Division with remainder has one answer. */
  lemma ModUnique(a: int, p: int, q: int, r: int)
    requires p > 0 && 0 <= r < p && a == p * q + r
    ensures a % p == r
  {
    var q', r' := a / p, a % p;
    if q' > q {
      assert p * q' == p * q + p * (q' - q);
      MulAtLeast(p, q' - q);
      assert false;
    } else if q' < q {
      assert p * q == p * q' + p * (q - q');
      MulAtLeast(p, q - q');
      assert false;
    }
  }

  /** A positive number times a positive whole number is at least the number. */
  lemma MulAtLeast(p: int, d: int)
    requires p > 0 && d >= 1
    ensures p * d >= p
  {
    assert p * d == p * (d - 1) + p;
  }

  /** `TickRepeater(repeat, initial_delay, time_based)`. Each tick takes what the
      tick generator gives off the counter: 1 when counting ticks, the milliseconds
      the clock reports since its previous tick when time based. */
  class TickRepeater {
    var repeatInterval: int
    var waitTicks: int
    const timeBased: bool
    /** The initial delay it was built with, and the ticks so far. */
    ghost const initialDelay: int
    ghost var ticks: nat

    /** A counting repeater's counter is the one `WaitAfter` gives. */
    ghost predicate Valid()
      reads this
    {
      !timeBased ==> waitTicks == WaitAfter(initialDelay, repeatInterval, ticks)
    }

    constructor (repeat: int, initialDelay: int, timeBased: bool)
      ensures Valid() && repeatInterval == repeat && waitTicks == initialDelay && this.timeBased == timeBased
      ensures this.initialDelay == initialDelay && ticks == 0
    {
      repeatInterval := repeat;
      waitTicks := initialDelay;
      this.timeBased := timeBased;
      this.initialDelay := initialDelay;
      ticks := 0;
    }

    /** `tick()`, with `clockReading` what the clock would report (read only when
        time based): the counter drops by the generator's amount; when it reaches 0
        or less it is reloaded with `repeat` and the tick fires. Counting ticks, the
        first firing comes on tick `AtLeastOne(initial_delay)` and the next ones every
        `AtLeastOne(repeat)` ticks. */
    method Tick(clockReading: int) returns (fire: bool)
      requires Valid()
      modifies this
      ensures Valid() && ticks == old(ticks) + 1 && repeatInterval == old(repeatInterval)
      ensures var step := if timeBased then clockReading else 1;
              fire == (old(waitTicks) - step <= 0) && waitTicks == if fire then repeatInterval else old(waitTicks) - step
      ensures !timeBased ==> fire == FiresOn(initialDelay, repeatInterval, ticks)
    {
      ghost var k := ticks;
      ghost var first, period := AtLeastOne(initialDelay), AtLeastOne(repeatInterval);
      if k >= first {
        ModNext(k - first, period);
      }
      var step := if timeBased then clockReading else 1;
      waitTicks := waitTicks - step;
      ticks := ticks + 1;
      if waitTicks <= 0 {
        waitTicks := repeatInterval;
        fire := true;
      } else {
        fire := false;
      }
    }
  }
}
