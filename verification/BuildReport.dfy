/** The event sweep of the build report: sort all starts and stops, run one cumulative
    weighted clock over them, and give every task the clock's advance while it ran. */
module BuildReport {
  import opened Sequences
  import opened BuildTimeline

  /** "start" < "stop" in the alphabet, and the sort key is (time, action). */
  datatype Action = Start | Stop

  datatype Event = Event(time: real, action: Action, target: Target)

  predicate KeyLess(a: Event, b: Event) {
    a.time < b.time || (a.time == b.time && a.action == Start && b.action == Stop)
  }

  predicate SortedByKey(events: seq<Event>) {
    forall i, j :: 0 <= i < j < |events| ==> !KeyLess(events[j], events[i])
  }

  function StartOf(t: Target): Event { Event(t.start, Start, t) }

  function StopOf(t: Target): Event { Event(t.end, Stop, t) }

  ghost function Tasks(entries: seq<Target>): set<Target> { set t | t in entries }

  /** A list of events is the sorted timeline of the tasks: exactly their starts and stops, once each. */
  ghost predicate IsTimeline(events: seq<Event>, tasks: set<Target>) {
    && SortedByKey(events)
    && Distinct(events)
    && (forall t :: t in tasks ==> StartOf(t) in events && StopOf(t) in events)
    && (forall i :: 0 <= i < |events| ==>
          var t := events[i].target; t in tasks && (events[i] == StartOf(t) || events[i] == StopOf(t)))
  }

  /** Sorting by key; nothing is promised about the order of ties. */
  method SortByKey(events: seq<Event>) returns (sorted: seq<Event>)
    requires Distinct(events)
    ensures SortedByKey(sorted) && Distinct(sorted)
    ensures forall e :: e in sorted <==> e in events
  {
    sorted := [];
    for i := 0 to |events|
      invariant SortedByKey(sorted) && Distinct(sorted)
      invariant forall e :: e in sorted <==> e in events[..i]
    {
      var j := |sorted|;
      while j > 0 && KeyLess(events[i], sorted[j - 1])
        invariant 0 <= j <= |sorted|
        invariant forall k :: j <= k < |sorted| ==> KeyLess(events[i], sorted[k])
      {
        j := j - 1;
      }
      assert events[i] !in events[..i];
      sorted := sorted[..j] + [events[i]] + sorted[j..];
      assert events[..i + 1] == events[..i] + [events[i]];
    }
    assert events[..|events|] == events;
  }

  datatype SummaryError = IndexError | KeyError | ZeroDivisionError

  datatype Summary =
    | Summary(length: real, weightedTotal: real, totalCpuTime: real, warned: bool)
    | Failed(error: SummaryError)

  // ---------------------------------------------------------------- the scan for the time range

  /** The running minimum as the reporter keeps it: any negative value counts as "not set". */
  function ScanEarliest(starts: seq<real>): real {
    if starts == [] then -1.0 else
      var e := ScanEarliest(starts[..|starts| - 1]);
      var s := starts[|starts| - 1];
      if e < 0.0 || s < e then s else e
  }

  function ScanLatest(ends: seq<real>): real {
    if ends == [] then 0.0 else
      var l := ScanLatest(ends[..|ends| - 1]);
      var e := ends[|ends| - 1];
      if e > l then e else l
  }

  ghost predicate IsLeast(m: real, s: seq<real>) {
    m in s && forall x :: x in s ==> m <= x
  }

  ghost predicate IsGreatest(m: real, s: seq<real>) {
    m in s && forall x :: x in s ==> x <= m
  }

  lemma {:induction false} ScanOfNonNegative(starts: seq<real>)
    requires starts != [] && forall x :: x in starts ==> 0.0 <= x
    ensures IsLeast(ScanEarliest(starts), starts)
    decreases |starts|
  {
    var n := |starts| - 1;
    assert forall x :: x in starts <==> x in starts[..n] || x == starts[n];
    if n > 0 {
      ScanOfNonNegative(starts[..n]);
    }
  }

  lemma {:induction false} ScanBelongs(starts: seq<real>)
    requires starts != []
    ensures ScanEarliest(starts) in starts
    ensures starts[|starts| - 1] < 0.0 ==> ScanEarliest(starts) == starts[|starts| - 1]
    ensures 0.0 <= starts[|starts| - 1] ==> 0.0 <= ScanEarliest(starts)
    decreases |starts|
  {
    var n := |starts| - 1;
    assert starts == starts[..n] + [starts[n]];
    if n > 0 {
      ScanBelongs(starts[..n]);
    }
  }

  /** The -1 sentinel is harmless exactly when no start is negative, or when the last entry
      happens to be the earliest. */
  lemma EarliestScanExact(starts: seq<real>)
    requires starts != []
    ensures IsLeast(ScanEarliest(starts), starts)
       <==> (forall x :: x in starts ==> 0.0 <= x) || IsLeast(starts[|starts| - 1], starts)
  {
    ScanBelongs(starts);
    if forall x :: x in starts ==> 0.0 <= x {
      ScanOfNonNegative(starts);
    }
  }

  lemma {:induction false} LatestScanExact(ends: seq<real>)
    ensures (exists x :: x in ends && 0.0 <= x) ==> IsGreatest(ScanLatest(ends), ends)
    ensures (forall x :: x in ends ==> x < 0.0) ==> ScanLatest(ends) == 0.0
    decreases |ends|
  {
    if ends != [] {
      var n := |ends| - 1;
      assert forall x :: x in ends <==> x in ends[..n] || x == ends[n];
      LatestScanExact(ends[..n]);
      if x: real :| x in ends[..n] && 0.0 <= x {
        assert IsGreatest(ScanLatest(ends[..n]), ends[..n]);
      }
    }
  }

  function Starts(entries: seq<Target>): seq<real> { seq(|entries|, i requires 0 <= i < |entries| => entries[i].start) }

  function Ends(entries: seq<Target>): seq<real> { seq(|entries|, i requires 0 <= i < |entries| => entries[i].end) }

  function TotalDuration(entries: seq<Target>): real {
    if entries == [] then 0.0 else
      var t := entries[|entries| - 1];
      TotalDuration(entries[..|entries| - 1]) + (t.end - t.start)
  }

  // ---------------------------------------------------------------- one step of the sweep

  ghost function Clock(tasks: set<Target>, first: real, x: real): real {
    Integral(tasks, Share, first, x)
  }

  ghost function Started(events: seq<Event>, tasks: set<Target>, i: nat): set<Target>
    requires i <= |events|
  {
    set t | t in tasks && StartOf(t) in events[..i]
  }

  ghost function Stopped(events: seq<Event>, tasks: set<Target>, i: nat): set<Target>
    requires i <= |events|
  {
    set t | t in tasks && StopOf(t) in events[..i]
  }

  lemma NextEvent(events: seq<Event>, tasks: set<Target>, i: nat)
    requires IsTimeline(events, tasks) && i < |events|
    ensures events[i].time == if events[i].action == Start then events[i].target.start else events[i].target.end
    ensures events[i].target in tasks
    ensures Started(events, tasks, i + 1)
         == Started(events, tasks, i) + if events[i].action == Start then {events[i].target} else {}
    ensures Stopped(events, tasks, i + 1)
         == Stopped(events, tasks, i) + if events[i].action == Stop then {events[i].target} else {}
  {
    assert forall e :: e in events[..i + 1] <==> e in events[..i] || e == events[i];
  }

  lemma AllEvents(events: seq<Event>, tasks: set<Target>)
    requires IsTimeline(events, tasks)
    ensures Started(events, tasks, 0) == Stopped(events, tasks, 0) == {}
    ensures |events| > 0 ==>
      var first, final := events[0].time, events[|events| - 1].time;
      first <= final && Clock(tasks, first, first) == TotalAccrued(tasks, {}, first, final) == 0.0
    ensures Started(events, tasks, |events|) == Stopped(events, tasks, |events|) == tasks
  {
    assert events[..|events|] == events;
    if |events| > 0 {
      LastIsLatest(events, |events| - 1);
    }
  }

  /** When time has really advanced, the started but not stopped tasks are those running
      since the last event. */
  lemma TrackedAreRunning(events: seq<Event>, tasks: set<Target>, i: nat)
    requires IsTimeline(events, tasks) && 0 < i < |events|
    requires events[i - 1].time < events[i].time
    ensures Started(events, tasks, i) - Stopped(events, tasks, i) == RunningAt(tasks, events[i - 1].time)
  {
    var x := events[i - 1].time;
    forall t | t in tasks
      ensures StartOf(t) in events[..i] <==> t.start <= x
      ensures StopOf(t) in events[..i] <==> t.end <= x
    {
      SeenIffNotLater(events, i, StartOf(t));
      SeenIffNotLater(events, i, StopOf(t));
    }
  }

  lemma SeenIffNotLater(events: seq<Event>, i: nat, e: Event)
    requires SortedByKey(events) && 0 < i < |events| && events[i - 1].time < events[i].time
    requires e in events
    ensures e in events[..i] <==> e.time <= events[i - 1].time
  {
    var k :| 0 <= k < |events| && events[k] == e;
    if k < i - 1 {
      assert !KeyLess(events[i - 1], events[k]);
    }
    if i < k {
      assert !KeyLess(events[k], events[i]);
    }
    if k < i {
      assert events[..i][k] == e;
    }
  }

  lemma NoCutBetweenEvents(events: seq<Event>, tasks: set<Target>, i: nat)
    requires IsTimeline(events, tasks) && 0 < i < |events|
    ensures events[i - 1].time <= events[i].time
    ensures Uncut(tasks, events[i - 1].time, events[i].time)
  {
    assert !KeyLess(events[i], events[i - 1]);
    forall b | b in Breaks(tasks)
      ensures !(events[i - 1].time < b < events[i].time)
    {
      var t :| t in tasks && (b == t.start || b == t.end);
      var e := if b == t.start then StartOf(t) else StopOf(t);
      assert e in events;
      if events[i - 1].time < events[i].time {
        SeenIffNotLater(events, i, e);
        var k :| 0 <= k < |events| && events[k] == e;
        if i < k {
          assert !KeyLess(events[k], events[i]);
        } else if k < i {
          assert events[..i][k] == e;
        }
      }
    }
  }

  // ---------------------------------------------------------------- the sweep

  lemma AdvanceClock(tasks: set<Target>, first: real, last: real, time: real)
    requires first <= last <= time && Uncut(tasks, last, time)
    ensures Clock(tasks, first, time)
         == Clock(tasks, first, last) + Area(Share(RunningAt(tasks, last)), last, time)
  {
    IntegralSplits(tasks, Share, first, last, time);
    UncutIntegral(tasks, Share, last, time);
  }

  /** The clock's increment: the elapsed time divided by the number of tracked tasks. */
  function Tick(elapsed: real, running: nat): real {
    if running > 0 then elapsed / (running as real) else 0.0
  }

  lemma TickIsShare(running: set<Target>, last: real, time: real)
    ensures Tick(time - last, |running|) == Area(Share(running), last, time)
  {
    if running != {} {
      var n := |running| as real;
      assert (time - last) / n == (1.0 / n) * (time - last);
    }
  }

  lemma NoTimeNoTick(running: nat)
    ensures Tick(0.0, running) == 0.0
  {
  }

  lemma FirstIsEarliest(events: seq<Event>, tasks: set<Target>, i: nat)
    requires IsTimeline(events, tasks) && i < |events|
    ensures events[0].time <= events[i].time
  {
    LastIsLatest(events, i);
  }

  lemma TickAdvancesClock(events: seq<Event>, tasks: set<Target>, i: nat, tracked: set<Target>)
    requires IsTimeline(events, tasks) && 0 < i < |events|
    requires tracked == Started(events, tasks, i) - Stopped(events, tasks, i)
    ensures events[i - 1].time <= events[i].time
    ensures Clock(tasks, events[0].time, events[i].time)
         == Clock(tasks, events[0].time, events[i - 1].time) + Tick(events[i].time - events[i - 1].time, |tracked|)
  {
    hide IsTimeline, Clock, Started, Stopped, RunningAt, Uncut, Tick, Area, Share;
    var first, last, time := events[0].time, events[i - 1].time, events[i].time;
    FirstIsEarliest(events, tasks, i - 1);
    NoCutBetweenEvents(events, tasks, i);
    if last < time {
      AdvanceClock(tasks, first, last, time);
      TrackedAreRunning(events, tasks, i);
      TickIsShare(tracked, last, time);
    } else {
      NoTimeNoTick(|tracked|);
    }
  }

  /** The start of an ordered task is processed before its stop: the tie rule at work. */
  lemma StopFindsTask(events: seq<Event>, tasks: set<Target>, i: nat)
    requires IsTimeline(events, tasks) && i < |events|
    ensures events[i].action == Start ==> events[i].target !in Started(events, tasks, i)
    ensures events[i].action == Stop ==> events[i].target !in Stopped(events, tasks, i)
    ensures events[i].action == Stop ==>
      (events[i].target in Started(events, tasks, i) <==> events[i].target.start <= events[i].target.end)
  {
    var t := events[i].target;
    assert events[i] !in events[..i];
    if events[i].action == Stop {
      var k :| 0 <= k < |events| && events[k] == StartOf(t);
      if k < i {
        assert events[..i][k] == StartOf(t);
        assert !KeyLess(events[i], events[k]);
      } else if k > i {
        assert !KeyLess(events[k], events[i]);
      }
    }
  }

  /** A task that starts here has not been stopped before. */
  lemma StartIsNotStopped(events: seq<Event>, tasks: set<Target>, i: nat)
    requires IsTimeline(events, tasks) && i < |events| && events[i].action == Start
    requires Stopped(events, tasks, i) <= Started(events, tasks, i)
    ensures events[i].target !in Stopped(events, tasks, i)
  {
    assert events[i] !in events[..i];
  }

  /** Bring the weighted clock up to the time of event i. */
  method AdvanceTo(events: seq<Event>, ghost tasks: set<Target>, i: nat, lastTime: real, lastWeightedTime: real,
                   running: map<Target, real>)
    returns (weightedTime: real)
    requires IsTimeline(events, tasks) && i < |events|
    requires running.Keys == Started(events, tasks, i) - Stopped(events, tasks, i)
    requires lastTime == events[if i == 0 then 0 else i - 1].time
    requires lastWeightedTime == Clock(tasks, events[0].time, lastTime)
    ensures weightedTime == Clock(tasks, events[0].time, events[i].time)
  {
    hide IsTimeline, Integral, Clock, Started, Stopped;
    weightedTime := lastWeightedTime + Tick(events[i].time - lastTime, |running|);
    assert |running| == |running.Keys|;
    if i == 0 {
      NoTimeNoTick(|running|);
    } else {
      TickAdvancesClock(events, tasks, i, running.Keys);
    }
  }

  method Sweep(events: seq<Event>, ghost tasks: set<Target>) returns (ok: bool, weightedTotal: real)
    requires events != [] && IsTimeline(events, tasks)
    modifies tasks`weightedDuration
    ensures ok <==> Ordered(tasks)
    ensures ok ==> forall t :: t in tasks ==> t.weightedDuration == Weight(tasks, t)
    ensures ok ==> weightedTotal == BusyTime(tasks, events[0].time, events[|events| - 1].time)
  {
    hide IsTimeline, Integral, Clock, Weight, TotalAccrued, Started, Stopped;
    ghost var first, final := events[0].time, events[|events| - 1].time;
    ghost var stopped: set<Target> := {};
    AllEvents(events, tasks);
    weightedTotal := 0.0;
    var running: map<Target, real> := map[];
    var lastTime := events[0].time;
    var lastWeightedTime := 0.0;
    for i := 0 to |events|
      invariant lastTime == events[if i == 0 then 0 else i - 1].time
      invariant lastWeightedTime == Clock(tasks, first, lastTime)
      invariant stopped == Stopped(events, tasks, i) <= Started(events, tasks, i)
      invariant running.Keys == Started(events, tasks, i) - stopped
      invariant forall t :: t in running ==> running[t] == Clock(tasks, first, t.start)
      invariant forall t :: t in stopped ==> t.start <= t.end && t.weightedDuration == Weight(tasks, t)
      invariant weightedTotal == TotalAccrued(tasks, stopped, first, final)
    {
      var event := events[i];
      var target := event.target;
      lastWeightedTime := AdvanceTo(events, tasks, i, lastTime, lastWeightedTime, running);
      NextEvent(events, tasks, i);
      StopFindsTask(events, tasks, i);
      if event.action == Start {
        StartIsNotStopped(events, tasks, i);
        running := running[target := lastWeightedTime];
      } else {
        if target !in running {
          return false, weightedTotal;
        }
        var weightedDuration := lastWeightedTime - running[target];
        target.weightedDuration := weightedDuration;
        weightedTotal := weightedTotal + weightedDuration;
        running := running - {target};
        ChargeOnStop(events, tasks, i, stopped);
        stopped := stopped + {target};
      }
      lastTime := event.time;
    }
    AllEvents(events, tasks);
    assert running.Keys == {};
    ChargesConserveBusyTime(tasks, first, final);
    return true, weightedTotal;
  }

  lemma LastIsLatest(events: seq<Event>, i: nat)
    requires SortedByKey(events) && i < |events|
    ensures events[0].time <= events[i].time <= events[|events| - 1].time
  {
    assert i > 0 ==> !KeyLess(events[i], events[0]);
    assert i < |events| - 1 ==> !KeyLess(events[|events| - 1], events[i]);
  }

  lemma ChargeOnStop(events: seq<Event>, tasks: set<Target>, i: nat, stopped: set<Target>)
    requires IsTimeline(events, tasks) && i < |events| && events[i].action == Stop
    requires events[i].target !in stopped && events[i].target.start <= events[i].target.end
    ensures var t := events[i].target; var first, final := events[0].time, events[|events| - 1].time;
      && Weight(tasks, t) == Clock(tasks, first, t.end) - Clock(tasks, first, t.start)
      && TotalAccrued(tasks, stopped + {t}, first, final)
         == TotalAccrued(tasks, stopped, first, final) + Weight(tasks, t)
  {
    var t := events[i].target;
    var first, final := events[0].time, events[|events| - 1].time;
    TotalAccruedRemove(tasks, stopped + {t}, t, first, final);
    assert stopped + {t} - {t} == stopped;
    var k :| 0 <= k < |events| && events[k] == StartOf(t);
    LastIsLatest(events, k);
    LastIsLatest(events, i);
    AccrualByPhase(tasks, t, first, final);
    IntegralSplits(tasks, Share, first, t.start, t.end);
  }

  // ---------------------------------------------------------------- the report

  /** The unsorted list the reporter builds: a start and a stop for every entry. */
  ghost function Pairs(entries: seq<Target>): seq<Event> {
    if entries == [] then [] else
      var t := entries[|entries| - 1];
      Pairs(entries[..|entries| - 1]) + [StartOf(t), StopOf(t)]
  }

  lemma {:induction false} PairsListed(entries: seq<Target>)
    requires Distinct(entries)
    ensures Distinct(Pairs(entries))
    ensures |Pairs(entries)| == 2 * |entries|
    ensures forall t :: t in entries ==> StartOf(t) in Pairs(entries) && StopOf(t) in Pairs(entries)
    ensures forall e :: e in Pairs(entries) ==> e.target in entries && (e == StartOf(e.target) || e == StopOf(e.target))
    decreases |entries|
  {
    if entries != [] {
      var n := |entries| - 1;
      PairsListed(entries[..n]);
      assert entries == entries[..n] + [entries[n]];
      assert entries[n] !in entries[..n];
    }
  }

  lemma TimelineOf(entries: seq<Target>, events: seq<Event>)
    requires Distinct(entries) && SortedByKey(events) && Distinct(events)
    requires forall e :: e in events <==> e in Pairs(entries)
    ensures IsTimeline(events, Tasks(entries))
    ensures entries != [] <==> events != []
  {
    PairsListed(entries);
    assert events != [] ==> events[0] in Pairs(entries);
    if entries != [] {
      assert entries[0] in entries;
      assert StartOf(entries[0]) in events;
    }
  }

  /** The first event is at the least start, the last at the greatest stop. */
  lemma TimelineRange(entries: seq<Target>, events: seq<Event>, lo: real, hi: real)
    requires IsTimeline(events, Tasks(entries)) && Ordered(Tasks(entries)) && events != []
    requires IsLeast(lo, Starts(entries)) && IsGreatest(hi, Ends(entries))
    ensures events[0].time == lo && events[|events| - 1].time == hi
  {
    var i :| 0 <= i < |entries| && Starts(entries)[i] == lo;
    var j :| 0 <= j < |entries| && Ends(entries)[j] == hi;
    assert entries[i] in Tasks(entries) && entries[j] in Tasks(entries);
    var a :| 0 <= a < |events| && events[a] == StartOf(entries[i]);
    var b :| 0 <= b < |events| && events[b] == StopOf(entries[j]);
    LastIsLatest(events, a);
    LastIsLatest(events, b);
    EventWithin(entries, events[0], lo, hi);
    EventWithin(entries, events[|events| - 1], lo, hi);
  }

  lemma EventWithin(entries: seq<Target>, e: Event, lo: real, hi: real)
    requires e.target in Tasks(entries) && (e == StartOf(e.target) || e == StopOf(e.target))
    requires Ordered(Tasks(entries)) && IsLeast(lo, Starts(entries)) && IsGreatest(hi, Ends(entries))
    ensures lo <= e.time <= hi
  {
    var k :| 0 <= k < |entries| && entries[k] == e.target;
    assert Starts(entries)[k] in Starts(entries) && Ends(entries)[k] in Ends(entries);
  }

  function Abs(x: real): real { if x < 0.0 then -x else x }

  method CollectTimes(entries: seq<Target>)
    returns (taskStartStopTimes: seq<Event>, earliest: real, latest: real, totalCpuTime: real)
    ensures taskStartStopTimes == Pairs(entries)
    ensures earliest == ScanEarliest(Starts(entries)) && latest == ScanLatest(Ends(entries))
    ensures totalCpuTime == TotalDuration(entries)
  {
    taskStartStopTimes := [];
    earliest, latest, totalCpuTime := -1.0, 0.0, 0.0;
    for i := 0 to |entries|
      invariant earliest == ScanEarliest(Starts(entries[..i]))
      invariant latest == ScanLatest(Ends(entries[..i]))
      invariant totalCpuTime == TotalDuration(entries[..i])
      invariant taskStartStopTimes == Pairs(entries[..i])
    {
      var target := entries[i];
      assert entries[..i + 1][..i] == entries[..i];
      assert Starts(entries[..i + 1])[..i] == Starts(entries[..i]);
      assert Ends(entries[..i + 1])[..i] == Ends(entries[..i]);
      if earliest < 0.0 || target.start < earliest {
        earliest := target.start;
      }
      if target.end > latest {
        latest := target.end;
      }
      totalCpuTime := totalCpuTime + (target.end - target.start);
      taskStartStopTimes := taskStartStopTimes + [StartOf(target), StopOf(target)];
    }
    assert entries[..|entries|] == entries;
  }

  /** What the report on these entries must be; `weights` are the weighted durations it stores. */
  ghost predicate Summarizes(entries: seq<Target>, r: Summary, weights: map<Target, real>) {
    && weights.Keys == Tasks(entries)
    && (r == Failed(IndexError) <==> entries == [])
    && (r == Failed(KeyError) <==> entries != [] && !Ordered(Tasks(entries)))
    && (r == Failed(ZeroDivisionError) <==>
          entries != [] && Ordered(Tasks(entries)) && ScanLatest(Ends(entries)) == ScanEarliest(Starts(entries)))
    && (entries != [] && Ordered(Tasks(entries)) ==> forall t :: t in weights ==> weights[t] == Weight(Tasks(entries), t))
    && (r.Summary? ==>
          && r.length == ScanLatest(Ends(entries)) - ScanEarliest(Starts(entries))
          && r.totalCpuTime == TotalDuration(entries)
          && r.warned == (Abs(r.length - r.weightedTotal) > 500.0)
          && forall lo, hi :: IsLeast(lo, Starts(entries)) && IsGreatest(hi, Ends(entries)) ==>
               r.weightedTotal == BusyTime(Tasks(entries), lo, hi))
  }

  ghost function WeightsOf(entries: seq<Target>): map<Target, real>
    reads Tasks(entries)
  {
    map t | t in Tasks(entries) :: t.weightedDuration
  }

  method SummarizeEntries(entries: seq<Target>) returns (r: Summary)
    requires Distinct(entries)
    modifies (set t | t in entries)`weightedDuration
    ensures Summarizes(entries, r, WeightsOf(entries))
    ensures r.Summary? ==> r.totalCpuTime == TotalDuration(entries) && r.length == ScanLatest(Ends(entries)) - ScanEarliest(Starts(entries))
  {
    hide IsTimeline, BusyTime, Weight, IsLeast, IsGreatest, Ordered, ScanEarliest, ScanLatest, Starts, Ends, TotalDuration, Abs,
      SortedByKey, Pairs, Distinct;
    var taskStartStopTimes, earliest, latest, totalCpuTime := CollectTimes(entries);
    var length := latest - earliest;
    PairsListed(entries);
    taskStartStopTimes := SortByKey(taskStartStopTimes);
    TimelineOf(entries, taskStartStopTimes);
    if |taskStartStopTimes| == 0 {
      return Failed(IndexError);
    }
    var ok, weightedTotal := Sweep(taskStartStopTimes, Tasks(entries));
    if !ok {
      return Failed(KeyError);
    }
    forall lo, hi | IsLeast(lo, Starts(entries)) && IsGreatest(hi, Ends(entries))
      ensures weightedTotal == BusyTime(Tasks(entries), lo, hi)
    {
      TimelineRange(entries, taskStartStopTimes, lo, hi);
    }
    var warned := Abs(length - weightedTotal) > 500.0;
    if length == 0.0 {
      return Failed(ZeroDivisionError);
    }
    return Summary(length, weightedTotal, totalCpuTime, warned);
  }

  lemma DurationOfOne(t: Target)
    ensures TotalDuration([]) == 0.0 && TotalDuration([t]) == t.end - t.start
  {
    assert [t][..0] == [];
  }

  lemma {:induction false} DurationWithout(entries: seq<Target>, k: nat)
    requires k < |entries|
    ensures TotalDuration(entries) == TotalDuration(Without(entries, k)) + (entries[k].end - entries[k].start)
    decreases |entries|
  {
    var n := |entries| - 1;
    if k < n {
      DurationWithout(entries[..n], k);
      var rest := Without(entries, k);
      assert rest[..n - 1] == Without(entries[..n], k);
      assert rest[n - 1] == entries[n];
    } else {
      assert Without(entries, k) == entries[..n];
    }
  }

  lemma {:induction false} DurationOfPermutation(entries: seq<Target>, other: seq<Target>)
    requires multiset(entries) == multiset(other)
    ensures TotalDuration(entries) == TotalDuration(other)
    decreases |entries|
  {
    hide TotalDuration, Without;
    if entries == [] {
      assert |multiset(other)| == 0;
    } else {
      var n := |entries| - 1;
      var t := entries[n];
      assert t in multiset(entries) && t in multiset(other);
      var k :| 0 <= k < |other| && other[k] == t;
      DurationWithout(entries, n);
      DurationWithout(other, k);
      MultisetWithout(entries, n);
      MultisetWithout(other, k);
      SameRest(multiset(Without(entries, n)), multiset(Without(other, k)), t);
      DurationOfPermutation(Without(entries, n), Without(other, k));
    }
  }

  lemma SameTasks(entries: seq<Target>, other: seq<Target>)
    requires multiset(entries) == multiset(other)
    ensures Tasks(entries) == Tasks(other)
    ensures |entries| == |other|
  {
    assert |multiset(entries)| == |entries| && |multiset(other)| == |other|;
    forall u: Target ensures u in entries <==> u in other {
      assert u in entries <==> u in multiset(entries);
      assert u in other <==> u in multiset(other);
    }
  }

  lemma SameBounds(entries: seq<Target>, other: seq<Target>, lo: real, hi: real)
    requires Tasks(entries) == Tasks(other) && IsLeast(lo, Starts(entries)) && IsGreatest(hi, Ends(entries))
    ensures IsLeast(lo, Starts(other)) && IsGreatest(hi, Ends(other))
  {
    TimesIncluded(entries, other);
    TimesIncluded(other, entries);
  }

  lemma TimesIncluded(entries: seq<Target>, other: seq<Target>)
    requires Tasks(entries) <= Tasks(other)
    ensures forall x :: x in Starts(entries) ==> x in Starts(other)
    ensures forall x :: x in Ends(entries) ==> x in Ends(other)
  {
    forall k | 0 <= k < |entries| ensures entries[k].start in Starts(other) && entries[k].end in Ends(other) {
      assert entries[k] in Tasks(entries);
      var m :| 0 <= m < |other| && other[m] == entries[k];
      assert Starts(other)[m] == entries[k].start && Ends(other)[m] == entries[k].end;
    }
  }

  /** Two reports on the same entries in different orders, ties broken in any way: they fail alike
      and store the same weights, and with non-negative stamps they agree in everything. */
  lemma OrderIrrelevant(entries: seq<Target>, other: seq<Target>, r: Summary, q: Summary,
                        weights: map<Target, real>, others: map<Target, real>)
    requires multiset(entries) == multiset(other)
    requires Summarizes(entries, r, weights) && Summarizes(other, q, others)
    ensures r == Failed(IndexError) <==> q == Failed(IndexError)
    ensures r == Failed(KeyError) <==> q == Failed(KeyError)
    ensures r != Failed(KeyError) ==> weights == others
    ensures (forall t :: t in entries ==> 0.0 <= t.start) ==> r == q
  {
    hide Weight, BusyTime, ScanEarliest, ScanLatest, IsLeast, IsGreatest, Starts, Ends, Ordered;
    SameTasks(entries, other);
    DurationOfPermutation(entries, other);
    if (forall t :: t in entries ==> 0.0 <= t.start) && entries != [] && Ordered(Tasks(entries)) {
      assert forall t :: t in other ==> t in Tasks(entries);
      ScanFindsRange(entries);
      ScanFindsRange(other);
      SameBounds(entries, other, ScanEarliest(Starts(entries)), ScanLatest(Ends(entries)));
      RangeUnique(other, ScanEarliest(Starts(entries)), ScanLatest(Ends(entries)));
      var e: SummaryError := if r.Failed? then r.error else if q.Failed? then q.error else IndexError;
      assert r == Failed(e) <==> q == Failed(e) by {
        match e { case IndexError => case KeyError => case ZeroDivisionError => }
      }
      assert r.Summary? ==> r.length == q.length && r.weightedTotal == q.weightedTotal;
    }
  }

  lemma RangeUnique(entries: seq<Target>, lo: real, hi: real)
    requires IsLeast(lo, Starts(entries)) && IsGreatest(hi, Ends(entries))
    requires IsLeast(ScanEarliest(Starts(entries)), Starts(entries)) && IsGreatest(ScanLatest(Ends(entries)), Ends(entries))
    ensures lo == ScanEarliest(Starts(entries)) && hi == ScanLatest(Ends(entries))
  {
  }

  /** With non-negative stamps the two scans find the range. */
  lemma ScanFindsRange(entries: seq<Target>)
    requires entries != [] && Ordered(Tasks(entries))
    requires forall t :: t in entries ==> 0.0 <= t.start
    ensures var lo, hi := ScanEarliest(Starts(entries)), ScanLatest(Ends(entries));
      IsLeast(lo, Starts(entries)) && IsGreatest(hi, Ends(entries)) && lo <= hi
  {
    var lo, hi := ScanEarliest(Starts(entries)), ScanLatest(Ends(entries));
    assert entries[0] in Tasks(entries);
    assert Ends(entries)[0] in Ends(entries) && 0.0 <= Ends(entries)[0];
    forall x | x in Starts(entries) ensures 0.0 <= x {
      var k :| 0 <= k < |entries| && Starts(entries)[k] == x;
      assert entries[k] in entries;
    }
    EarliestScanExact(Starts(entries));
    LatestScanExact(Ends(entries));
    var k :| 0 <= k < |entries| && Starts(entries)[k] == lo;
    assert entries[k] in Tasks(entries) && Ends(entries)[k] in Ends(entries);
  }

  /** For non-negative stamps the reported length bounds the weighted total, the two agree exactly
      when some task was running at every instant, and the warning appears exactly for more than
      500 s of idle time. */
  lemma LengthBoundsTotal(entries: seq<Target>, r: Summary, weights: map<Target, real>)
    requires Summarizes(entries, r, weights) && r.Summary?
    requires forall t :: t in entries ==> 0.0 <= t.start
    ensures var lo, hi := ScanEarliest(Starts(entries)), ScanLatest(Ends(entries));
      && IsLeast(lo, Starts(entries)) && IsGreatest(hi, Ends(entries)) && r.length == hi - lo
      && 0.0 <= r.weightedTotal <= r.length
      && (r.weightedTotal == r.length <==> NeverIdle(Tasks(entries), lo, hi))
      && (r.warned <==> IdleTime(Tasks(entries), lo, hi) > 500.0)
  {
    hide ScanEarliest, ScanLatest, IsLeast, IsGreatest, Starts, Ends, Ordered, BusyTime, IdleTime, NeverIdle, Weight;
    var lo, hi := ScanEarliest(Starts(entries)), ScanLatest(Ends(entries));
    ScanFindsRange(entries);
    BusyAtMostElapsed(Tasks(entries), lo, hi);
    BusyPlusIdle(Tasks(entries), lo, hi);
  }
}
