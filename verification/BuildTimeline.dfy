/** What "weighted duration" means: the time axis of a build is cut at every task
    start and stop, and each piece is charged to the tasks running on it.  Nothing
    here knows about events, sorting or the cumulative clock of the reporter. */
module BuildTimeline {
  import opened Sequences

  /** One build step of the log (`Target`). The interval never changes after construction. */
  class Target {
    const start: real
    const end: real
    var targets: seq<string>
    var weightedDuration: real

    constructor (start: real, end: real)
      ensures this.start == start && this.end == end
      ensures targets == [] && weightedDuration == 0.0
    {
      this.start, this.end := start, end;
      targets, weightedDuration := [], 0.0;
    }
  }

  ghost predicate Ordered(tasks: set<Target>) {
    forall t :: t in tasks ==> t.start <= t.end
  }

  ghost function RunningAt(tasks: set<Target>, x: real): set<Target> {
    set t | t in tasks && t.start <= x < t.end
  }

  ghost function Breaks(tasks: set<Target>): set<real> {
    (set t | t in tasks :: t.start) + (set t | t in tasks :: t.end)
  }

  /** A density says how much an instant counts, given the set of tasks that run in it. */
  type Density = set<Target> -> real

  function Share(running: set<Target>): real {
    if running == {} then 0.0 else 1.0 / (|running| as real)
  }

  function Busy(running: set<Target>): real {
    if running == {} then 0.0 else 1.0
  }

  function Idle(running: set<Target>): real {
    if running == {} then 1.0 else 0.0
  }

  function ShareOf(t: Target): Density {
    (running: set<Target>) => if t in running then 1.0 / (|running| as real) else 0.0
  }

  ghost function Ahead(tasks: set<Target>, x: real, y: real): set<real> {
    set b | b in Breaks(tasks) + {y} && x < b <= y
  }

  lemma {:induction false} Least(s: set<real>, w: real) returns (m: real)
    requires w in s
    ensures m in s && forall b :: b in s ==> m <= b
    decreases s
  {
    m := w;
    if v: real :| v in s && v < w {
      m := Least(s - {w}, v);
      forall b | b in s ensures m <= b { assert b == w || b in s - {w}; }
    }
  }

  lemma LeastExists(s: set<real>, w: real)
    requires w in s
    ensures exists m :: m in s && forall b :: b in s ==> m <= b
  {
    var m := Least(s, w);
  }

  /** The first cut after x, up to y. */
  ghost function NextCut(tasks: set<Target>, x: real, y: real): (n: real)
    requires x < y
    ensures x < n <= y && n in Ahead(tasks, x, y)
    ensures forall b :: b in Breaks(tasks) && x < b <= y ==> n <= b
    ensures Ahead(tasks, n, y) < Ahead(tasks, x, y)
  {
    assert y in Ahead(tasks, x, y);
    LeastExists(Ahead(tasks, x, y), y);
    var n :| n in Ahead(tasks, x, y) && forall b :: b in Ahead(tasks, x, y) ==> n <= b;
    assert forall b :: b in Breaks(tasks) && x < b <= y ==> b in Ahead(tasks, x, y);
    assert n in Ahead(tasks, x, y) && n !in Ahead(tasks, n, y);
    n
  }

  function Area(height: real, from: real, to: real): real {
    height * (to - from)
  }

  /** The integral of a density over [x, y]: piece by piece between cuts. */
  ghost function Integral(tasks: set<Target>, f: Density, x: real, y: real): real
    decreases Ahead(tasks, x, y)
  {
    if y <= x then 0.0 else
      var n := NextCut(tasks, x, y);
      Area(f(RunningAt(tasks, x)), x, n) + Integral(tasks, f, n, y)
  }

  /** What a task is charged: its share of every instant at which it runs. */
  ghost function Weight(tasks: set<Target>, t: Target): real {
    Integral(tasks, Share, t.start, t.end)
  }

  /** The total length of time in [x, y] covered by at least one task. */
  ghost function BusyTime(tasks: set<Target>, x: real, y: real): real {
    Integral(tasks, Busy, x, y)
  }

  /** The total length of time in [x, y] covered by no task. */
  ghost function IdleTime(tasks: set<Target>, x: real, y: real): real {
    Integral(tasks, Idle, x, y)
  }

  ghost predicate Uncut(tasks: set<Target>, x: real, y: real) {
    forall b :: b in Breaks(tasks) ==> !(x < b < y)
  }

  lemma RunningConstant(tasks: set<Target>, x: real, z: real)
    requires x <= z
    requires forall b :: b in Breaks(tasks) ==> !(x < b <= z)
    ensures RunningAt(tasks, x) == RunningAt(tasks, z)
  {
    forall t | t in tasks
      ensures t in RunningAt(tasks, x) <==> t in RunningAt(tasks, z)
    {
      assert t.start in Breaks(tasks) && t.end in Breaks(tasks);
    }
  }

  /** The first piece may be peeled off at any point up to the next cut that is a cut or the end. */
  lemma FirstPiece(tasks: set<Target>, f: Density, l: real, x: real, n: real, y: real)
    requires x < n <= y && Uncut(tasks, x, n) && n in Breaks(tasks) + {y}
    requires l == f(RunningAt(tasks, x))
    ensures NextCut(tasks, x, y) == n
    ensures Integral(tasks, f, x, y) == Area(l, x, n) + Integral(tasks, f, n, y)
  {
    var m := NextCut(tasks, x, y);
    assert m in Ahead(tasks, x, y);
    assert m == n;
  }

  lemma UncutIntegral(tasks: set<Target>, f: Density, x: real, y: real)
    requires x <= y && Uncut(tasks, x, y)
    ensures Integral(tasks, f, x, y) == Area(f(RunningAt(tasks, x)), x, y)
  {
    if x < y {
      FirstPiece(tasks, f, f(RunningAt(tasks, x)), x, y, y);
    }
  }

  lemma SplitInsidePiece(tasks: set<Target>, f: Density, x: real, y: real, n: real, z: real)
    requires x < y < n <= z && Uncut(tasks, x, n) && n in Breaks(tasks) + {z}
    ensures Integral(tasks, f, x, z) == Integral(tasks, f, x, y) + Integral(tasks, f, y, z)
  {
    var l := f(RunningAt(tasks, x));
    assert f(RunningAt(tasks, y)) == l by { RunningConstant(tasks, x, y); }
    calc {
      Integral(tasks, f, x, z);
      { FirstPiece(tasks, f, l, x, n, z); }
      Area(l, x, n) + Integral(tasks, f, n, z);
      Area(l, x, y) + Area(l, y, n) + Integral(tasks, f, n, z);
      { FirstPiece(tasks, f, l, y, n, z); }
      Area(l, x, y) + Integral(tasks, f, y, z);
      { FirstPiece(tasks, f, l, x, y, y); }
      Integral(tasks, f, x, y) + Integral(tasks, f, y, z);
    }
  }

  lemma {:induction false} IntegralSplits(tasks: set<Target>, f: Density, x: real, y: real, z: real)
    requires x <= y <= z
    ensures Integral(tasks, f, x, z) == Integral(tasks, f, x, y) + Integral(tasks, f, y, z)
    decreases Ahead(tasks, x, z)
  {
    if x < y < z {
      var n := NextCut(tasks, x, z);
      if n <= y {
        IntegralSplits(tasks, f, n, y, z);
        FirstPiece(tasks, f, f(RunningAt(tasks, x)), x, n, z);
        FirstPiece(tasks, f, f(RunningAt(tasks, x)), x, n, y);
      } else {
        SplitInsidePiece(tasks, f, x, y, n, z);
      }
    }
  }

  // ---------------------------------------------------------------- densities compared

  lemma AreaMonotone(h: real, k: real, x: real, y: real)
    requires x <= y && h <= k
    ensures Area(h, x, y) <= Area(k, x, y)
  {
    var rise, width := k - h, y - x;
    assert 0.0 <= rise * width;
    assert rise * width == k * width - h * width;
  }

  /** A density that is nowhere larger has an integral that is not larger. */
  lemma {:induction false} IntegralMonotone(tasks: set<Target>, f: Density, g: Density, x: real, y: real)
    requires forall z: real :: x <= z < y ==> f(RunningAt(tasks, z)) <= g(RunningAt(tasks, z))
    ensures Integral(tasks, f, x, y) <= Integral(tasks, g, x, y)
    decreases Ahead(tasks, x, y)
  {
    if x < y {
      var n := NextCut(tasks, x, y);
      AreaMonotone(f(RunningAt(tasks, x)), g(RunningAt(tasks, x)), x, n);
      IntegralMonotone(tasks, f, g, n, y);
    }
  }

  lemma AreaSum(h: real, k: real, x: real, y: real)
    ensures Area(h + k, x, y) == Area(h, x, y) + Area(k, x, y)
  {
  }

  lemma {:induction false} IntegralSum(tasks: set<Target>, f: Density, g: Density, h: Density, x: real, y: real)
    requires forall z: real :: h(RunningAt(tasks, z)) == f(RunningAt(tasks, z)) + g(RunningAt(tasks, z))
    ensures Integral(tasks, h, x, y) == Integral(tasks, f, x, y) + Integral(tasks, g, x, y)
    decreases Ahead(tasks, x, y)
  {
    if x < y {
      var n := NextCut(tasks, x, y);
      var r := RunningAt(tasks, x);
      AreaSum(f(r), g(r), x, n);
      IntegralSum(tasks, f, g, h, n, y);
    }
  }

  lemma {:induction false} IntegralAgrees(tasks: set<Target>, f: Density, g: Density, x: real, y: real)
    requires forall z: real :: x <= z < y ==> f(RunningAt(tasks, z)) == g(RunningAt(tasks, z))
    ensures Integral(tasks, f, x, y) == Integral(tasks, g, x, y)
    decreases Ahead(tasks, x, y)
  {
    if x < y {
      IntegralAgrees(tasks, f, g, NextCut(tasks, x, y), y);
    }
  }

  function Constant(c: real): Density {
    (running: set<Target>) => c
  }

  lemma AreaConstant(c: real, x: real, n: real, y: real)
    ensures Area(c, x, n) + Area(c, n, y) == Area(c, x, y)
  {
  }

  lemma {:induction false} IntegralOfConstant(tasks: set<Target>, c: real, x: real, y: real)
    requires x <= y
    ensures Integral(tasks, Constant(c), x, y) == Area(c, x, y)
    decreases Ahead(tasks, x, y)
  {
    if x < y {
      var n := NextCut(tasks, x, y);
      IntegralOfConstant(tasks, c, n, y);
      AreaConstant(c, x, n, y);
    }
  }

  // ---------------------------------------------------------------- what a task is charged

  /** What task t has been charged by time x, counting from lo. */
  ghost function Accrued(tasks: set<Target>, t: Target, lo: real, x: real): real {
    Integral(tasks, ShareOf(t), lo, x)
  }

  lemma NoIntegral(tasks: set<Target>, f: Density, x: real)
    ensures Integral(tasks, f, x, x) == 0.0
  {
  }

  /** A task accrues nothing before it starts, its share while it runs, nothing after it stops. */
  lemma AccrualByPhase(tasks: set<Target>, t: Target, lo: real, x: real)
    requires t in tasks && lo <= t.start <= t.end && lo <= x
    ensures x <= t.start ==> Accrued(tasks, t, lo, x) == 0.0
    ensures t.start <= x <= t.end ==> Accrued(tasks, t, lo, x) == Integral(tasks, Share, t.start, x)
    ensures t.end <= x ==> Accrued(tasks, t, lo, x) == Weight(tasks, t)
  {
    hide Integral, RunningAt, Share, ShareOf;
    if x <= t.start {
      NotCharged(tasks, t, lo, x);
      NoIntegral(tasks, Share, t.start);
    } else {
      AccruedWhileRunning(tasks, t, lo, if x <= t.end then x else t.end);
      if t.end <= x {
        IntegralSplits(tasks, ShareOf(t), lo, t.end, x);
        NotCharged(tasks, t, t.end, x);
      }
    }
  }

  lemma AccruedWhileRunning(tasks: set<Target>, t: Target, lo: real, x: real)
    requires t in tasks && lo <= t.start <= x <= t.end
    ensures Accrued(tasks, t, lo, x) == Integral(tasks, Share, t.start, x)
  {
    IntegralSplits(tasks, ShareOf(t), lo, t.start, x);
    NotCharged(tasks, t, lo, t.start);
    IntegralAgrees(tasks, ShareOf(t), Share, t.start, x);
  }

  lemma NotCharged(tasks: set<Target>, t: Target, x: real, y: real)
    requires x <= y && (y <= t.start || t.end <= x)
    ensures Integral(tasks, ShareOf(t), x, y) == 0.0
  {
    IntegralAgrees(tasks, ShareOf(t), Constant(0.0), x, y);
    IntegralOfConstant(tasks, 0.0, x, y);
  }

  /** A task is never charged more than its duration, and never less than the n-th part of it. */
  lemma WeightBounds(tasks: set<Target>, t: Target)
    requires t in tasks && t.start <= t.end
    ensures Area(1.0 / (|tasks| as real), t.start, t.end) <= Weight(tasks, t) <= t.end - t.start
  {
    var least := 1.0 / (|tasks| as real);
    forall z: real | t.start <= z < t.end
      ensures least <= Share(RunningAt(tasks, z)) <= 1.0
    {
      ShareBounds(tasks, RunningAt(tasks, z), t);
    }
    IntegralMonotone(tasks, Share, Constant(1.0), t.start, t.end);
    IntegralMonotone(tasks, Constant(least), Share, t.start, t.end);
    IntegralOfConstant(tasks, 1.0, t.start, t.end);
    IntegralOfConstant(tasks, least, t.start, t.end);
  }

  lemma ShareBounds(tasks: set<Target>, running: set<Target>, t: Target)
    requires t in running && running <= tasks
    ensures 0 < |running| <= |tasks|
    ensures 1.0 / (|tasks| as real) <= Share(running) <= 1.0
  {
    SubsetSize(running, tasks);
  }

  // ---------------------------------------------------------------- conservation

  /** The charges of all tasks of `some`, added up. */
  ghost function TotalAccrued(tasks: set<Target>, some: set<Target>, lo: real, x: real): real {
    if some == {} then 0.0 else
      var t :| t in some;
      Accrued(tasks, t, lo, x) + TotalAccrued(tasks, some - {t}, lo, x)
  }

  lemma {:induction false} TotalAccruedRemove(tasks: set<Target>, some: set<Target>, t: Target, lo: real, x: real)
    requires t in some
    ensures TotalAccrued(tasks, some, lo, x)
         == Accrued(tasks, t, lo, x) + TotalAccrued(tasks, some - {t}, lo, x)
    decreases some
  {
    var c :| c in some
      && TotalAccrued(tasks, some, lo, x) == Accrued(tasks, c, lo, x) + TotalAccrued(tasks, some - {c}, lo, x);
    if c != t {
      TotalAccruedRemove(tasks, some - {c}, t, lo, x);
      TotalAccruedRemove(tasks, some - {t}, c, lo, x);
      assert some - {c} - {t} == some - {t} - {c};
    }
  }

  /** The part of an instant charged to the tasks of `some`. */
  function JointShare(some: set<Target>): Density {
    (running: set<Target>) => if running == {} then 0.0 else (|some * running| as real) / (|running| as real)
  }

  lemma JointShareSplits(some: set<Target>, t: Target, running: set<Target>)
    requires t in some
    ensures JointShare(some)(running) == ShareOf(t)(running) + JointShare(some - {t})(running)
  {
    if t in running {
      assert some * running == {t} + (some - {t}) * running;
      var n := |running| as real;
      assert n > 0.0;
      var k := |(some - {t}) * running| as real;
      assert (1.0 + k) / n == 1.0 / n + k / n;
    } else {
      assert some * running == (some - {t}) * running;
    }
  }

  lemma {:induction false} TotalIsJoint(tasks: set<Target>, some: set<Target>, lo: real, x: real)
    requires lo <= x
    ensures TotalAccrued(tasks, some, lo, x) == Integral(tasks, JointShare(some), lo, x)
    decreases some
  {
    hide Integral, RunningAt, TotalAccrued, JointShare, ShareOf;
    if some == {} {
      NobodyAccrues(tasks, lo, x);
    } else {
      var t: Target :| t in some;
      TotalAccruedRemove(tasks, some, t, lo, x);
      TotalIsJoint(tasks, some - {t}, lo, x);
      forall z: real
        ensures JointShare(some)(RunningAt(tasks, z))
             == ShareOf(t)(RunningAt(tasks, z)) + JointShare(some - {t})(RunningAt(tasks, z))
      {
        JointShareSplits(some, t, RunningAt(tasks, z));
      }
      IntegralSum(tasks, ShareOf(t), JointShare(some - {t}), JointShare(some), lo, x);
    }
  }

  lemma NobodyAccrues(tasks: set<Target>, lo: real, x: real)
    requires lo <= x
    ensures TotalAccrued(tasks, {}, lo, x) == Integral(tasks, JointShare({}), lo, x)
  {
    IntegralAgrees(tasks, JointShare({}), Constant(0.0), lo, x);
    IntegralOfConstant(tasks, 0.0, lo, x);
  }

  /** At every moment x the charges made so far add up to the busy time so far. */
  lemma ChargesConserveBusyTime(tasks: set<Target>, lo: real, x: real)
    requires lo <= x
    ensures TotalAccrued(tasks, tasks, lo, x) == BusyTime(tasks, lo, x)
  {
    TotalIsJoint(tasks, tasks, lo, x);
    forall z: real
      ensures JointShare(tasks)(RunningAt(tasks, z)) == Busy(RunningAt(tasks, z))
    {
      assert tasks * RunningAt(tasks, z) == RunningAt(tasks, z);
    }
    IntegralAgrees(tasks, JointShare(tasks), Busy, lo, x);
  }

  // ---------------------------------------------------------------- idle gaps

  ghost predicate NeverIdle(tasks: set<Target>, x: real, y: real) {
    forall z: real :: x <= z < y ==> RunningAt(tasks, z) != {}
  }

  /** Elapsed time is busy time plus idle time. */
  lemma BusyPlusIdle(tasks: set<Target>, x: real, y: real)
    requires x <= y
    ensures BusyTime(tasks, x, y) + IdleTime(tasks, x, y) == y - x
  {
    IntegralSum(tasks, Busy, Idle, Constant(1.0), x, y);
    IntegralOfConstant(tasks, 1.0, x, y);
  }

  /** Busy time never exceeds elapsed time, and reaches it exactly when there is no idle gap. */
  lemma {:induction false} BusyAtMostElapsed(tasks: set<Target>, x: real, y: real)
    requires x <= y
    ensures 0.0 <= BusyTime(tasks, x, y) <= y - x
    ensures BusyTime(tasks, x, y) == y - x <==> NeverIdle(tasks, x, y)
    decreases Ahead(tasks, x, y)
  {
    if x < y {
      var n := NextCut(tasks, x, y);
      BusyAtMostElapsed(tasks, n, y);
      forall z: real | x <= z < n
        ensures RunningAt(tasks, z) == RunningAt(tasks, x)
      {
        RunningConstant(tasks, x, z);
      }
    }
  }
}
