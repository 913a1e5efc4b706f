/** The slot allocator over a whole run: requests come one after the other, every span is
    placed on a line of its process, and lines are opened only when none is free. */
module SlotLayout {
  import opened Sequences
  import opened SlotLines

  datatype Pid = Engine(id: int) | Smg

  datatype Step = NextRequest | Place(pid: Pid, span: Span)

  datatype Placed = Placed(pid: Pid, span: Span, line: nat)

  /** graph: the lines of each process, line number l at index l - 1.  status: the line last used
      by the current request in each process.  history: every span placed, in order. */
  datatype State = State(graph: map<Pid, seq<Line>>, status: map<Pid, nat>, history: seq<Placed>)

  const START := State(map[], map[], [])

  function LinesOf(st: State, pid: Pid): seq<Line> {
    if pid in st.graph then st.graph[pid] else []
  }

  /** The first line, from index k on, whose neighbour check finds no conflict; |lines| if none. */
  function FirstFree(lines: seq<Line>, s: Span, k: nat): (r: nat)
    requires k <= |lines|
    ensures k <= r <= |lines|
    ensures r < |lines| ==> !NeighbourCheck(lines[r], s)
    ensures forall j :: k <= j < r ==> NeighbourCheck(lines[j], s)
    decreases |lines| - k
  {
    if k == |lines| || !NeighbourCheck(lines[k], s) then k else FirstFree(lines, s, k + 1)
  }

  /** The current request stays on its line if the span has no duration or fits. */
  predicate KeepsLine(st: State, pid: Pid, s: Span) {
    && pid in st.status && 1 <= st.status[pid] <= |LinesOf(st, pid)|
    && (s.start == s.end || !NeighbourCheck(LinesOf(st, pid)[st.status[pid] - 1], s))
  }

  function FindLine(st: State, pid: Pid, s: Span): (l: nat)
    ensures 1 <= l <= |LinesOf(st, pid)| + 1
  {
    if KeepsLine(st, pid, s) then st.status[pid] else FirstFree(LinesOf(st, pid), s, 0) + 1
  }

  /** Put s on line l, which may be a new one. */
  function PutOn(lines: seq<Line>, l: nat, s: Span): seq<Line>
    requires 1 <= l <= |lines| + 1
  {
    if l == |lines| + 1 then lines + [Inserted([], s)] else lines[l - 1 := Inserted(lines[l - 1], s)]
  }

  function Apply(st: State, step: Step): State {
    match step
    case NextRequest => st.(status := map[])
    case Place(pid, s) =>
      var l := FindLine(st, pid, s);
      State(st.graph[pid := PutOn(LinesOf(st, pid), l, s)], st.status[pid := l], st.history + [Placed(pid, s, l)])
  }

  function Run(steps: seq<Step>): State {
    if steps == [] then START else Apply(Run(steps[..|steps| - 1]), steps[|steps| - 1])
  }

  lemma RunStep(steps: seq<Step>, step: Step)
    ensures Run(steps + [step]) == Apply(Run(steps), step)
  {
    assert (steps + [step])[..|steps|] == steps;
  }

  /** A span without duration follows its request onto a line where something is running across it:
      the one placement the check is not asked about. */
  predicate Blind(st: State, step: Step) {
    && step.Place? && step.span.start == step.span.end && KeepsLine(st, step.pid, step.span)
    && NeighbourCheck(LinesOf(st, step.pid)[st.status[step.pid] - 1], step.span)
  }

  ghost predicate NeverBlind(steps: seq<Step>, pid: Pid) {
    forall k :: 0 <= k < |steps| && steps[k].Place? && steps[k].pid == pid ==> !Blind(Run(steps[..k]), steps[k])
  }

  // ---------------------------------------------------------------- what every step keeps

  /** Placement i put s on line k + 1 of pid. */
  predicate PlacedAt(h: seq<Placed>, i: int, pid: Pid, k: int, s: Span) {
    0 <= i < |h| && h[i].pid == pid && h[i].line == k + 1 && h[i].span == s
  }

  /** Line k + 1 of pid is sorted, in use, and holds only what was placed on it. */
  ghost predicate LineOk(h: seq<Placed>, pid: Pid, k: nat, line: Line) {
    && Sorted(line) && line != []
    && (forall s :: s in line ==> exists i :: PlacedAt(h, i, pid, k, s))
  }

  ghost predicate LinesOk(st: State) {
    forall pid, k :: pid in st.graph && 0 <= k < |st.graph[pid]| ==> LineOk(st.history, pid, k, st.graph[pid][k])
  }

  ghost predicate HistoryOnLines(st: State) {
    forall i :: 0 <= i < |st.history| ==>
      var p := st.history[i];
      p.pid in st.graph && 1 <= p.line <= |st.graph[p.pid]| && p.span in st.graph[p.pid][p.line - 1]
  }

  ghost predicate StatusInRange(st: State) {
    forall pid :: pid in st.status ==> pid in st.graph && 1 <= st.status[pid] <= |st.graph[pid]|
  }

  ghost predicate Inv(st: State) {
    LinesOk(st) && HistoryOnLines(st) && StatusInRange(st)
  }

  /** The point of the layout: two spans on the same line of the process never overlap. */
  ghost predicate NoCollision(h: seq<Placed>, pid: Pid) {
    forall i, j :: 0 <= i < j < |h| && h[i].pid == h[j].pid == pid && h[i].line == h[j].line ==>
      !Overlap(h[i].span, h[j].span)
  }

  ghost predicate AllDisjoint(lines: seq<Line>) {
    forall k :: 0 <= k < |lines| ==> DisjointLine(lines[k])
  }

  lemma HistoryGrows(h: seq<Placed>, p: Placed, pid: Pid, k: nat, line: Line)
    requires LineOk(h, pid, k, line)
    ensures LineOk(h + [p], pid, k, line)
  {
    forall s | s in line
      ensures exists i :: PlacedAt(h + [p], i, pid, k, s)
    {
      var i :| PlacedAt(h, i, pid, k, s);
      assert PlacedAt(h + [p], i, pid, k, s);
    }
  }

  lemma LineGrows(h: seq<Placed>, pid: Pid, k: nat, line: Line, s: Span)
    requires line == [] || LineOk(h, pid, k, line)
    ensures LineOk(h + [Placed(pid, s, k + 1)], pid, k, Inserted(line, s))
  {
    var h' := h + [Placed(pid, s, k + 1)];
    InsertKeepsSorted(line, s);
    InsertedMembers(line, s);
    forall x | x in Inserted(line, s)
      ensures exists i :: PlacedAt(h', i, pid, k, x)
    {
      if x == s {
        assert PlacedAt(h', |h|, pid, k, x);
      } else {
        var i :| PlacedAt(h, i, pid, k, x);
        assert PlacedAt(h', i, pid, k, x);
      }
    }
  }

  lemma PlaceKeepsLines(st: State, pid: Pid, s: Span)
    requires LinesOk(st)
    ensures LinesOk(Apply(st, Place(pid, s)))
  {
    hide LineOk, FindLine, KeepsLine, Inserted;
    var lines, l := LinesOf(st, pid), FindLine(st, pid, s);
    var after := Apply(st, Place(pid, s));
    forall p, k | p in after.graph && 0 <= k < |after.graph[p]|
      ensures LineOk(after.history, p, k, after.graph[p][k])
    {
      if p == pid && k == l - 1 {
        LineGrows(st.history, pid, k, if k < |lines| then lines[k] else [], s);
      } else {
        HistoryGrows(st.history, Placed(pid, s, l), p, k, st.graph[p][k]);
      }
    }
  }

  lemma PutOnKeeps(lines: seq<Line>, l: nat, s: Span)
    requires 1 <= l <= |lines| + 1
    ensures |lines| <= |PutOn(lines, l, s)| && l <= |PutOn(lines, l, s)| && s in PutOn(lines, l, s)[l - 1]
    ensures forall k, x :: 0 <= k < |lines| && x in lines[k] ==> x in PutOn(lines, l, s)[k]
  {
    InsertedMembers(if l <= |lines| then lines[l - 1] else [], s);
  }

  lemma PlaceStaysOnLines(st: State, pid: Pid, s: Span)
    requires HistoryOnLines(st)
    ensures HistoryOnLines(Apply(st, Place(pid, s)))
  {
    hide PutOn, FindLine;
    var lines, l := LinesOf(st, pid), FindLine(st, pid, s);
    PutOnKeeps(lines, l, s);
    var after := Apply(st, Place(pid, s));
    assert after.graph[pid] == PutOn(lines, l, s);
    forall i | 0 <= i < |after.history|
      ensures var p := after.history[i];
        p.pid in after.graph && 1 <= p.line <= |after.graph[p.pid]| && p.span in after.graph[p.pid][p.line - 1]
    {
      if i < |st.history| {
        assert st.history[i].span in LinesOf(st, st.history[i].pid)[st.history[i].line - 1];
      }
    }
  }

  lemma StepKeepsStatus(st: State, step: Step)
    requires StatusInRange(st)
    ensures StatusInRange(Apply(st, step))
  {
  }

  /** Over any run every line of a process is sorted and in use, holds what was placed on it and
      nothing else, and the line numbers are exactly 1..n. */
  lemma {:induction false} RunKeepsInv(steps: seq<Step>)
    ensures Inv(Run(steps))
    decreases |steps|
  {
    hide LinesOk, HistoryOnLines, StatusInRange, PutOn, FindLine;
    EmptyInv();
    if steps != [] {
      var st, step := Run(steps[..|steps| - 1]), steps[|steps| - 1];
      RunKeepsInv(steps[..|steps| - 1]);
      StepKeepsStatus(st, step);
      match step
      case NextRequest => SameLines(st, Apply(st, step));
      case Place(pid, s) =>
        PlaceKeepsLines(st, pid, s);
        PlaceStaysOnLines(st, pid, s);
    }
  }

  lemma EmptyInv()
    ensures Inv(START)
  {
  }

  lemma SameLines(st: State, after: State)
    requires after.graph == st.graph && after.history == st.history
    ensures (LinesOk(st) ==> LinesOk(after)) && (HistoryOnLines(st) ==> HistoryOnLines(after))
  {
    hide LineOk;
  }

  // ---------------------------------------------------------------- requests stay on their lines

  /** How many placements the steps make. */
  function Placements(steps: seq<Step>): nat {
    if steps == [] then 0 else
      Placements(steps[..|steps| - 1]) + if steps[|steps| - 1].Place? then 1 else 0
  }

  /** Placement i of the history is the one made by step k, if i placements precede it. */
  lemma {:induction false} RecordedAt(steps: seq<Step>, k: nat)
    requires k < |steps|
    ensures |Run(steps).history| == Placements(steps) && Run(steps[..k]).history <= Run(steps).history
    ensures steps[k].Place? ==>
      && Placements(steps[..k]) < |Run(steps).history|
      && Run(steps).history[Placements(steps[..k])]
         == Placed(steps[k].pid, steps[k].span, FindLine(Run(steps[..k]), steps[k].pid, steps[k].span))
    decreases |steps|
  {
    hide FindLine, PutOn;
    var n := |steps| - 1;
    HistoryCounts(steps[..n]);
    if k < n {
      RecordedAt(steps[..n], k);
      assert steps[..n][..k] == steps[..k];
    }
  }

  lemma {:induction false} HistoryCounts(steps: seq<Step>)
    ensures |Run(steps).history| == Placements(steps)
    decreases |steps|
  {
    hide FindLine, PutOn;
    if steps != [] {
      HistoryCounts(steps[..|steps| - 1]);
    }
  }

  /** Step j is the last placement of pid in the current request. */
  ghost predicate LastPlace(steps: seq<Step>, j: int, pid: Pid) {
    && 0 <= j < |steps| && IsPlaceOf(steps[j], pid)
    && forall i :: j < i < |steps| ==> steps[i] != NextRequest && !IsPlaceOf(steps[i], pid)
  }

  predicate IsPlaceOf(step: Step, pid: Pid) { step.Place? && step.pid == pid }

  /** The line of the placement that step j made. */
  function LineOfStep(steps: seq<Step>, j: nat): nat
    requires j < |steps| && Placements(steps[..j]) < |Run(steps).history|
  {
    Run(steps).history[Placements(steps[..j])].line
  }

  /** The status of a request is the line of its last placement in the process. */
  lemma {:induction false} StatusExactly(steps: seq<Step>, pid: Pid)
    ensures pid in Run(steps).status <==> exists j :: LastPlace(steps, j, pid)
    ensures forall j :: LastPlace(steps, j, pid) ==>
      Placements(steps[..j]) < |Run(steps).history| && pid in Run(steps).status && LineOfStep(steps, j) == Run(steps).status[pid]
    decreases |steps|
  {
    hide FindLine, PutOn, Placements;
    if steps != [] {
      var n := |steps| - 1;
      StatusExactly(steps[..n], pid);
      forall j | LastPlace(steps, j, pid)
        ensures Placements(steps[..j]) < |Run(steps).history| && pid in Run(steps).status && LineOfStep(steps, j) == Run(steps).status[pid]
      {
        RecordedAt(steps, j);
        if j < n {
          EarlierLast(steps, j, pid);
          RecordedAt(steps[..n], j);
          assert steps[..n][..j] == steps[..j];
        }
      }
      if pid in Run(steps).status {
        if IsPlaceOf(steps[n], pid) {
          assert LastPlace(steps, n, pid);
        } else {
          var j :| LastPlace(steps[..n], j, pid);
          LaterLast(steps, j, pid);
        }
      }
    }
  }

  lemma EarlierLast(steps: seq<Step>, j: nat, pid: Pid)
    requires LastPlace(steps, j, pid) && j < |steps| - 1
    ensures LastPlace(steps[..|steps| - 1], j, pid)
    ensures steps[|steps| - 1] != NextRequest && !IsPlaceOf(steps[|steps| - 1], pid)
  {
  }

  lemma LaterLast(steps: seq<Step>, j: int, pid: Pid)
    requires steps != [] && LastPlace(steps[..|steps| - 1], j, pid)
    requires steps[|steps| - 1] != NextRequest && !IsPlaceOf(steps[|steps| - 1], pid)
    ensures LastPlace(steps, j, pid)
  {
    var n := |steps| - 1;
    assert forall i :: 0 <= i < n ==> steps[..n][i] == steps[i];
  }

  /** Request affinity: a span goes to the line of its request's last span in the process, if it has no
      duration or the check on that line reports no conflict. */
  lemma RequestStays(steps: seq<Step>, k: nat, j: nat)
    requires j < k < |steps| && steps[k].Place? && LastPlace(steps[..k], j, steps[k].pid)
    ensures Placements(steps[..j]) < |Run(steps).history| && Placements(steps[..k]) < |Run(steps).history|
    ensures var l, lines := LineOfStep(steps, j), LinesOf(Run(steps[..k]), steps[k].pid);
      && 1 <= l <= |lines|
      && (steps[k].span.start == steps[k].span.end || !NeighbourCheck(lines[l - 1], steps[k].span) ==>
            Run(steps).history[Placements(steps[..k])] == Placed(steps[k].pid, steps[k].span, l))
  {
    hide NeighbourCheck, Run, LinesOk, HistoryOnLines, Placements;
    RecordedAt(steps, k);
    RecordedAt(steps, j);
    StatusExactly(steps[..k], steps[k].pid);
    assert steps[..k][..j] == steps[..j];
    RunKeepsInv(steps[..k]);
  }

  /** Otherwise it goes to the lowest line whose check reports no conflict, or to the next new one. */
  lemma LowestFree(steps: seq<Step>, k: nat)
    requires k < |steps| && steps[k].Place?
    requires forall j :: LastPlace(steps[..k], j, steps[k].pid) ==>
      && steps[k].span.start != steps[k].span.end && Placements(steps[..j]) < |Run(steps).history|
      && var lines := LinesOf(Run(steps[..k]), steps[k].pid);
         1 <= LineOfStep(steps, j) <= |lines| ==> NeighbourCheck(lines[LineOfStep(steps, j) - 1], steps[k].span)
    ensures Placements(steps[..k]) < |Run(steps).history|
    ensures var l, lines := LineOfStep(steps, k), LinesOf(Run(steps[..k]), steps[k].pid);
      && 1 <= l <= |lines| + 1
      && (l <= |lines| ==> !NeighbourCheck(lines[l - 1], steps[k].span))
      && (forall i :: 0 <= i < l - 1 ==> NeighbourCheck(lines[i], steps[k].span))
  {
    hide NeighbourCheck, Run, Placements;
    RecordedAt(steps, k);
    StatusExactly(steps[..k], steps[k].pid);
    if j :| LastPlace(steps[..k], j, steps[k].pid) {
      RecordedAt(steps, j);
      assert steps[..k][..j] == steps[..j];
    }
  }

  // ---------------------------------------------------------------- when spans collide

  /** A line found for a span, if it is not a new one, passed the check, except at a blind step. */
  lemma FoundLinePasses(st: State, pid: Pid, s: Span)
    ensures var lines, l := LinesOf(st, pid), FindLine(st, pid, s);
      l <= |lines| ==> (NeighbourCheck(lines[l - 1], s) <==> Blind(st, Place(pid, s)))
  {
    hide NeighbourCheck;
  }

  /** An existing line is chosen only if nothing on it overlaps the span, except at a blind step. */
  lemma FoundLineIsFree(st: State, pid: Pid, s: Span)
    requires AllDisjoint(LinesOf(st, pid)) && !Blind(st, Place(pid, s))
    ensures var lines, l := LinesOf(st, pid), FindLine(st, pid, s);
      l <= |lines| ==> !HasOverlap(lines[l - 1], s)
  {
    hide NeighbourCheck, DisjointLine, HasOverlap, FindLine, Blind;
    FoundLinePasses(st, pid, s);
    var lines, l := LinesOf(st, pid), FindLine(st, pid, s);
    if l <= |lines| {
      NeighboursDecide(lines[l - 1], s);
    }
  }

  lemma SightedKeepsDisjoint(st: State, pid: Pid, s: Span)
    requires AllDisjoint(LinesOf(st, pid)) && !Blind(st, Place(pid, s))
    ensures AllDisjoint(LinesOf(Apply(st, Place(pid, s)), pid))
  {
    hide NeighbourCheck, DisjointLine, FindLine, Blind, Inserted;
    FoundLinePasses(st, pid, s);
    var lines, l := LinesOf(st, pid), FindLine(st, pid, s);
    EmptyLine(s);
    InsertKeepsDisjoint(if l <= |lines| then lines[l - 1] else [], s);
  }

  lemma EmptyLine(s: Span)
    ensures DisjointLine([]) && !NeighbourCheck([], s)
  {
  }

  lemma StoredSpanIsMissed(st: State, pid: Pid, s: Span, i: nat)
    requires HistoryOnLines(st) && AllDisjoint(LinesOf(st, pid)) && !Blind(st, Place(pid, s))
    requires i < |st.history| && st.history[i].pid == pid && st.history[i].line == FindLine(st, pid, s)
    ensures !Overlap(st.history[i].span, s)
  {
    hide AllDisjoint, FindLine, DisjointLine, HasOverlap, Overlap, Blind;
    FoundLineIsFree(st, pid, s);
    MemberMissed(LinesOf(st, pid)[st.history[i].line - 1], st.history[i].span, s);
  }

  lemma SightedAvoidsCollision(st: State, pid: Pid, s: Span)
    requires HistoryOnLines(st) && AllDisjoint(LinesOf(st, pid)) && NoCollision(st.history, pid) && !Blind(st, Place(pid, s))
    ensures NoCollision(Apply(st, Place(pid, s)).history, pid)
  {
    hide HistoryOnLines, AllDisjoint, FindLine, Overlap, PutOn, LinesOf, Blind;
    forall i: nat | i < |st.history| && st.history[i].pid == pid && st.history[i].line == FindLine(st, pid, s)
      ensures !Overlap(st.history[i].span, s)
    {
      StoredSpanIsMissed(st, pid, s, i);
    }
  }

  lemma BlindCollides(st: State, pid: Pid, s: Span)
    requires LinesOk(st) && Blind(st, Place(pid, s))
    ensures !NoCollision(Apply(st, Place(pid, s)).history, pid)
  {
    hide NeighbourCheck, Sorted;
    var k := st.status[pid] - 1;
    var line := st.graph[pid][k];
    PointConflictOverlaps(line, s.start);
    var m :| 0 <= m < |line| && Overlap(line[m], s);
    assert LineOk(st.history, pid, k, line) && line[m] in line;
    var i :| PlacedAt(st.history, i, pid, k, line[m]);
    var after := Apply(st, Place(pid, s)).history;
    assert after[i] == st.history[i] && after[|st.history|] == Placed(pid, s, k + 1);
  }

  lemma CollisionStays(h: seq<Placed>, p: Placed, pid: Pid)
    ensures NoCollision(h + [p], pid) ==> NoCollision(h, pid)
    ensures p.pid != pid && NoCollision(h, pid) ==> NoCollision(h + [p], pid)
  {
    assert forall i :: 0 <= i < |h| ==> (h + [p])[i] == h[i];
  }

  /** One step decides, for one process, whether it stays free of collisions. */
  lemma StepCollides(st: State, step: Step, pid: Pid)
    requires Inv(st) && AllDisjoint(LinesOf(st, pid)) && NoCollision(st.history, pid)
    ensures var after := Apply(st, step); var blind := Blind(st, step) && step.pid == pid;
      && (NoCollision(after.history, pid) <==> !blind)
      && (!blind ==> AllDisjoint(LinesOf(after, pid)))
  {
    hide LinesOk, HistoryOnLines, NoCollision, FindLine, PutOn, Blind, AllDisjoint;
    match step
    case NextRequest => NotBlind(st);
    case Place(p, s) =>
      if p != pid {
        CollisionStays(st.history, Placed(p, s, FindLine(st, p, s)), pid);
      } else if Blind(st, step) {
        BlindCollides(st, pid, s);
      } else {
        SightedKeepsDisjoint(st, pid, s);
        SightedAvoidsCollision(st, pid, s);
      }
  }

  lemma NotBlind(st: State)
    ensures !Blind(st, NextRequest)
  {
  }

  lemma NeverBlindSteps(steps: seq<Step>, step: Step, pid: Pid)
    ensures NeverBlind(steps + [step], pid) <==> NeverBlind(steps, pid) && !(Blind(Run(steps), step) && step.pid == pid)
  {
    hide Run, KeepsLine, NeighbourCheck;
    var all := steps + [step];
    assert all[..|steps|] == steps && all[|steps|] == step;
    assert forall k :: 0 <= k < |steps| ==> all[..k] == steps[..k] && all[k] == steps[k];
  }

  /** Over any run, of any spans: the spans of a process stay apart exactly when no step is blind. */
  lemma {:induction false} CollisionFreeExactly(steps: seq<Step>, pid: Pid)
    ensures NeverBlind(steps, pid) <==> NoCollision(Run(steps).history, pid)
    ensures NeverBlind(steps, pid) ==> AllDisjoint(LinesOf(Run(steps), pid))
    decreases |steps|
  {
    hide Apply, NoCollision, NeverBlind, Blind, AllDisjoint, Inv, LinesOf;
    if steps == [] {
      NothingCollides(pid);
    } else {
      var before, step := steps[..|steps| - 1], steps[|steps| - 1];
      CollisionFreeExactly(before, pid);
      assert before + [step] == steps;
      NeverBlindSteps(before, step, pid);
      RunKeepsInv(before);
      if NeverBlind(before, pid) {
        StepCollides(Run(before), step, pid);
      } else {
        StaysCollided(Run(before), step, pid);
      }
    }
  }

  lemma NothingCollides(pid: Pid)
    ensures NeverBlind([], pid) && NoCollision([], pid) && AllDisjoint(LinesOf(START, pid))
  {
  }

  lemma StaysCollided(st: State, step: Step, pid: Pid)
    requires !NoCollision(st.history, pid)
    ensures !NoCollision(Apply(st, step).history, pid)
  {
    hide NoCollision, FindLine, PutOn;
    if step.Place? {
      CollisionStays(st.history, Placed(step.pid, step.span, FindLine(st, step.pid, step.span)), pid);
    }
  }

  /** No placement of the process is without duration. */
  ghost predicate NoPoints(h: seq<Placed>, pid: Pid) {
    forall i :: 0 <= i < |h| && h[i].pid == pid ==> h[i].span.start != h[i].span.end
  }

  lemma {:induction false} NoPointsNeverBlind(steps: seq<Step>, pid: Pid)
    requires NoPoints(Run(steps).history, pid)
    ensures NeverBlind(steps, pid)
    decreases |steps|
  {
    hide KeepsLine, NeighbourCheck, FindLine, PutOn;
    if steps != [] {
      var before, step := steps[..|steps| - 1], steps[|steps| - 1];
      var h, all := Run(before).history, Run(steps).history;
      assert forall i :: 0 <= i < |h| ==> all[i] == h[i];
      NoPointsNeverBlind(before, pid);
      assert before + [step] == steps;
      NeverBlindSteps(before, step, pid);
      assert step.Place? ==> all[|h|].span == step.span && all[|h|].pid == step.pid;
    }
  }

  /** Without spans of no duration nothing ever collides, even if some end before they start. */
  lemma NoPointsNoCollision(steps: seq<Step>, pid: Pid)
    requires NoPoints(Run(steps).history, pid)
    ensures NoCollision(Run(steps).history, pid)
  {
    NoPointsNeverBlind(steps, pid);
    CollisionFreeExactly(steps, pid);
  }

  // ---------------------------------------------------------------- when spans of positive duration collide

  /** Two spans of positive duration on the same line of the process never overlap. */
  ghost predicate NoProperCollision(h: seq<Placed>, pid: Pid) {
    forall i, j :: 0 <= i < j < |h| && h[i].pid == h[j].pid == pid && h[i].line == h[j].line ==>
      Proper(h[i].span) && Proper(h[j].span) ==> !Overlap(h[i].span, h[j].span)
  }

  /** The step puts a span without duration where another one is running and goes on for more than a tick. */
  ghost predicate Hiding(st: State, step: Step) {
    && step.Place? && step.span.start == step.span.end
    && var l := FindLine(st, step.pid, step.span);
       l <= |LinesOf(st, step.pid)| && CoversWithRoom(LinesOf(st, step.pid)[l - 1], step.span.start)
  }

  ghost predicate NeverHiding(steps: seq<Step>, pid: Pid) {
    forall k :: 0 <= k < |steps| && steps[k].Place? && steps[k].pid == pid ==> !Hiding(Run(steps[..k]), steps[k])
  }

  ghost predicate AllNearly(lines: seq<Line>) {
    forall k :: 0 <= k < |lines| ==> NearlyDisjoint(lines[k])
  }

  lemma PlaceStaysNearly(st: State, pid: Pid, s: Span)
    requires AllNearly(LinesOf(st, pid)) && !Hiding(st, Place(pid, s))
    ensures AllNearly(LinesOf(Apply(st, Place(pid, s)), pid))
  {
    hide NeighbourCheck, NearlyDisjoint, FindLine, Blind, Inserted, CoversWithRoom;
    FoundLinePasses(st, pid, s);
    var lines, l := LinesOf(st, pid), FindLine(st, pid, s);
    NothingNear(s);
    var line := if l <= |lines| then lines[l - 1] else [];
    if NeighbourCheck(line, s) {
      BlindIsPoint(st, pid, s);
      PointStaysNearly(line, s.start);
    } else {
      PassedStaysNearly(line, s);
    }
  }

  lemma NothingNear(s: Span)
    ensures NearlyDisjoint([]) && !NeighbourCheck([], s)
  {
  }

  lemma BlindIsPoint(st: State, pid: Pid, s: Span)
    requires Blind(st, Place(pid, s))
    ensures s == Span(s.start, s.start)
  {
  }

  lemma PlaceAvoidsProper(st: State, pid: Pid, s: Span)
    requires HistoryOnLines(st) && AllNearly(LinesOf(st, pid)) && NoProperCollision(st.history, pid)
    ensures NoProperCollision(Apply(st, Place(pid, s)).history, pid)
  {
    hide HistoryOnLines, AllNearly, FindLine, Overlap, PutOn, LinesOf;
    forall i: nat | i < |st.history| && st.history[i].pid == pid && st.history[i].line == FindLine(st, pid, s) && Proper(s)
      ensures !Overlap(st.history[i].span, s)
    {
      ProperIsMissed(st, pid, s, i);
    }
  }

  lemma ProperIsMissed(st: State, pid: Pid, s: Span, i: nat)
    requires HistoryOnLines(st) && AllNearly(LinesOf(st, pid)) && Proper(s)
    requires i < |st.history| && st.history[i].pid == pid && st.history[i].line == FindLine(st, pid, s)
    ensures !Overlap(st.history[i].span, s)
  {
    hide FindLine, NearlyDisjoint, NeighbourCheck, Overlap, KeepsLine;
    FoundLinePasses(st, pid, s);
    var line := LinesOf(st, pid)[st.history[i].line - 1];
    var k :| 0 <= k < |line| && line[k] == st.history[i].span;
    PassedSeparates(line, s, k);
  }

  lemma NeverHidingSteps(steps: seq<Step>, step: Step, pid: Pid)
    ensures NeverHiding(steps + [step], pid) <==> NeverHiding(steps, pid) && !(step.Place? && step.pid == pid && Hiding(Run(steps), step))
  {
    hide Run, Hiding;
    var all := steps + [step];
    assert all[..|steps|] == steps && all[|steps|] == step;
    assert forall k :: 0 <= k < |steps| ==> all[..k] == steps[..k] && all[k] == steps[k];
  }

  lemma ProperStays(h: seq<Placed>, p: Placed, pid: Pid)
    requires p.pid != pid && NoProperCollision(h, pid)
    ensures NoProperCollision(h + [p], pid)
  {
    assert forall i :: 0 <= i < |h| ==> (h + [p])[i] == h[i];
  }

  /** Spans without duration inside a span of their own request do no harm as long as the span ends
      within a tick: then no two spans of positive duration ever collide. */
  lemma {:induction false} NeverHidingNoProperCollision(steps: seq<Step>, pid: Pid)
    requires NeverHiding(steps, pid)
    ensures AllNearly(LinesOf(Run(steps), pid)) && NoProperCollision(Run(steps).history, pid)
    decreases |steps|
  {
    hide NoProperCollision, NeverHiding, Hiding, AllNearly, LinesOk, HistoryOnLines, StatusInRange, FindLine, PutOn;
    if steps == [] {
      NothingProperCollides(pid);
    } else {
      var before, step := steps[..|steps| - 1], steps[|steps| - 1];
      assert before + [step] == steps;
      NeverHidingSteps(before, step, pid);
      NeverHidingNoProperCollision(before, pid);
      RunKeepsInv(before);
      if step.Place? && step.pid == pid {
        PlaceStaysNearly(Run(before), pid, step.span);
        PlaceAvoidsProper(Run(before), pid, step.span);
      } else if step.Place? {
        var st := Run(before);
        ProperStays(st.history, Placed(step.pid, step.span, FindLine(st, step.pid, step.span)), pid);
      }
    }
  }

  lemma NothingProperCollides(pid: Pid)
    ensures AllNearly(LinesOf(START, pid)) && NoProperCollision([], pid)
  {
  }

  // ---------------------------------------------------------------- how many lines are opened

  /** The earlier placements of the same process that clash with placement i. */
  ghost function Rivals(h: seq<Placed>, i: int): set<int>
    requires 0 <= i < |h|
  {
    set j: int | 0 <= j < i && h[j].pid == h[i].pid && Clash(h[j].span, h[i].span)
  }

  ghost predicate AllProper(h: seq<Placed>, pid: Pid) {
    forall i :: 0 <= i < |h| && h[i].pid == pid ==> Proper(h[i].span)
  }

  /** Among spans of positive duration the rivals are the earlier spans that overlap. */
  lemma RivalsOverlap(h: seq<Placed>, i: int)
    requires 0 <= i < |h| && AllProper(h, h[i].pid)
    ensures Rivals(h, i) == set j: int | 0 <= j < i && h[j].pid == h[i].pid && Overlap(h[j].span, h[i].span)
  {
    hide Clash, Overlap, Proper;
    forall j | 0 <= j < i && h[j].pid == h[i].pid ensures Clash(h[j].span, h[i].span) <==> Overlap(h[j].span, h[i].span) {
      ClashIsOverlap(h[j].span, h[i].span);
    }
  }

  /** The placements of pid that are open at time x. */
  ghost function OpenAt(h: seq<Placed>, pid: Pid, x: int): set<int> {
    set j: int | 0 <= j < |h| && h[j].pid == pid && h[j].span.start <= x < h[j].span.end
  }

  ghost predicate InStartOrder(h: seq<Placed>, pid: Pid) {
    forall i, j :: 0 <= i < j < |h| && h[i].pid == h[j].pid == pid ==> h[i].span.start <= h[j].span.start
  }

  /** Some placement of pid has at least n - 1 rivals. */
  ghost predicate HasCrowd(h: seq<Placed>, pid: Pid, n: nat) {
    exists i :: 0 <= i < |h| && h[i].pid == pid && |Rivals(h, i)| + 1 >= n
  }

  /** At some time at least n spans of pid are open. */
  ghost predicate HasDepth(h: seq<Placed>, pid: Pid, n: nat) {
    exists x :: |OpenAt(h, pid, x)| >= n
  }

  predicate OnLine(h: seq<Placed>, i: int, k: nat) {
    0 <= i < |h| && h[i].line == k + 1
  }

  ghost predicate Represented(h: seq<Placed>, some: set<int>, k: nat) {
    exists i :: i in some && OnLine(h, i, k)
  }

  /** A set with a placement on each of n lines has at least n members. */
  lemma {:induction false} OnePerLine(h: seq<Placed>, n: nat, some: set<int>)
    requires forall k: nat :: k < n ==> Represented(h, some, k)
    ensures |some| >= n
  {
    if n > 0 {
      assert Represented(h, some, n - 1);
      var i :| i in some && OnLine(h, i, n - 1);
      forall k: nat | k < n - 1
        ensures Represented(h, some - {i}, k)
      {
        assert Represented(h, some, k);
        var j :| j in some && OnLine(h, j, k);
        assert j in some - {i};
      }
      OnePerLine(h, n - 1, some - {i});
    }
  }

  /** When a line is opened, every line before it carries a span that clashes with the new one. */
  lemma NewLineHasRivals(st: State, pid: Pid, s: Span, k: nat)
    requires LinesOk(st)
    requires FindLine(st, pid, s) == |LinesOf(st, pid)| + 1 && k < |LinesOf(st, pid)|
    ensures exists i :: 0 <= i < |st.history| && OnLine(st.history, i, k)
                     && st.history[i].pid == pid && Clash(st.history[i].span, s)
  {
    hide NeighbourCheck, Sorted, Clash;
    var line := st.graph[pid][k];
    assert LineOk(st.history, pid, k, line);
    assert NeighbourCheck(line, s);
    ConflictIsClash(line, s);
    var m :| 0 <= m < |line| && Clash(line[m], s);
    assert line[m] in line;
    var i :| PlacedAt(st.history, i, pid, k, line[m]);
    assert OnLine(st.history, i, k);
  }

  lemma NewLineIsCrowded(st: State, pid: Pid, s: Span)
    requires LinesOk(st) && FindLine(st, pid, s) == |LinesOf(st, pid)| + 1
    ensures var h := Apply(st, Place(pid, s)).history;
      HasCrowd(h, pid, |LinesOf(st, pid)| + 1)
  {
    hide LinesOk, Clash;
    var n := |LinesOf(st, pid)|;
    var h := Apply(st, Place(pid, s)).history;
    var last := |st.history|;
    var crowd := Rivals(h, last) + {last};
    forall k: nat | k < n + 1
      ensures Represented(h, crowd, k)
    {
      if k == n {
        assert last in crowd && OnLine(h, last, k);
      } else {
        NewLineHasRivals(st, pid, s, k);
        var i :| 0 <= i < last && OnLine(st.history, i, k) && st.history[i].pid == pid && Clash(st.history[i].span, s);
        assert i in crowd && OnLine(h, i, k);
      }
    }
    OnePerLine(h, n + 1, crowd);
  }

  lemma NewLineIsDeep(st: State, pid: Pid, s: Span)
    requires LinesOk(st) && FindLine(st, pid, s) == |LinesOf(st, pid)| + 1
    requires InStartOrder(Apply(st, Place(pid, s)).history, pid) && AllProper(Apply(st, Place(pid, s)).history, pid)
    ensures var h := Apply(st, Place(pid, s)).history;
      HasDepth(h, pid, |LinesOf(st, pid)| + 1)
  {
    hide LinesOk, KeepsLine;
    var n := |LinesOf(st, pid)|;
    var h := Apply(st, Place(pid, s)).history;
    var last := |st.history|;
    var open := OpenAt(h, pid, s.start);
    assert h[last].span == s;
    forall k: nat | k < n + 1
      ensures Represented(h, open, k)
    {
      if k == n {
        assert last in open && OnLine(h, last, k);
      } else {
        NewLineHasRivals(st, pid, s, k);
        var i :| 0 <= i < last && OnLine(st.history, i, k) && st.history[i].pid == pid && Clash(st.history[i].span, s);
        assert h[i].span.start <= h[last].span.start && Proper(h[i].span);
        assert i in open && OnLine(h, i, k);
      }
    }
    OnePerLine(h, n + 1, open);
  }

  lemma CrowdGrows(h: seq<Placed>, p: Placed, pid: Pid, n: nat)
    ensures HasCrowd(h, pid, n) ==> HasCrowd(h + [p], pid, n)
    ensures HasDepth(h, pid, n) ==> HasDepth(h + [p], pid, n)
    ensures InStartOrder(h + [p], pid) ==> InStartOrder(h, pid)
    ensures AllProper(h + [p], pid) ==> AllProper(h, pid)
  {
    assert forall i :: 0 <= i < |h| ==> (h + [p])[i] == h[i];
    if i :| 0 <= i < |h| && h[i].pid == pid && |Rivals(h, i)| + 1 >= n {
      assert Rivals(h, i) == Rivals(h + [p], i);
    }
    if x :| |OpenAt(h, pid, x)| >= n {
      SubsetSize(OpenAt(h, pid, x), OpenAt(h + [p], pid, x));
    }
  }

  /** Why a process has n lines. */
  ghost predicate Justified(h: seq<Placed>, pid: Pid, n: nat) {
    n > 0 ==> HasCrowd(h, pid, n) && (InStartOrder(h, pid) && AllProper(h, pid) ==> HasDepth(h, pid, n))
  }

  lemma PlaceJustified(st: State, pid: Pid, s: Span)
    requires LinesOk(st) && Justified(st.history, pid, |LinesOf(st, pid)|)
    ensures var after := Apply(st, Place(pid, s)); Justified(after.history, pid, |LinesOf(after, pid)|)
  {
    hide LinesOk, FindLine, Inserted, HasCrowd, HasDepth, InStartOrder, AllProper;
    var after := Apply(st, Place(pid, s));
    if FindLine(st, pid, s) == |LinesOf(st, pid)| + 1 {
      NewLineIsCrowded(st, pid, s);
      if InStartOrder(after.history, pid) && AllProper(after.history, pid) {
        NewLineIsDeep(st, pid, s);
      }
    } else {
      CrowdGrows(st.history, Placed(pid, s, FindLine(st, pid, s)), pid, |LinesOf(st, pid)|);
    }
  }

  lemma {:induction false} RunJustified(steps: seq<Step>, pid: Pid)
    ensures Justified(Run(steps).history, pid, |LinesOf(Run(steps), pid)|)
    decreases |steps|
  {
    hide LinesOk, HistoryOnLines, StatusInRange, FindLine, PutOn, HasCrowd, HasDepth, InStartOrder, AllProper;
    if steps != [] {
      var before, step := steps[..|steps| - 1], steps[|steps| - 1];
      RunJustified(before, pid);
      RunKeepsInv(before);
      var st := Run(before);
      if step.Place? && step.pid == pid {
        PlaceJustified(st, pid, step.span);
      } else if step.Place? {
        CrowdGrows(st.history, Placed(step.pid, step.span, FindLine(st, step.pid, step.span)), pid, |LinesOf(st, pid)|);
      }
    }
  }

  /** Greedy colouring bound, for any run of any spans: a process never gets more lines than one plus
      the number of earlier spans that clash with some single span of it. */
  lemma LinesWithinCrowd(steps: seq<Step>, pid: Pid)
    requires LinesOf(Run(steps), pid) != []
    ensures var st := Run(steps);
      exists i :: 0 <= i < |st.history| && st.history[i].pid == pid && |LinesOf(st, pid)| <= |Rivals(st.history, i)| + 1
  {
    hide Run, Rivals, LinesOf;
    RunJustified(steps, pid);
    var st := Run(steps);
    assert HasCrowd(st.history, pid, |LinesOf(st, pid)|);
    var i :| 0 <= i < |st.history| && st.history[i].pid == pid && |Rivals(st.history, i)| + 1 >= |LinesOf(st, pid)|;
  }

  // ---------------------------------------------------------------- no layout does better

  /** Spans open at one time need different lines. */
  lemma {:induction false} DepthNeedsLines(h: seq<Placed>, pid: Pid, x: int, m: nat, some: set<int>)
    requires NoCollision(h, pid) && some <= OpenAt(h, pid, x)
    requires forall i :: i in some ==> 1 <= h[i].line <= m
    ensures |some| <= m
  {
    if i :| i in some && h[i].line == m {
      forall j | j in some - {i} ensures 1 <= h[j].line <= m - 1 {
        assert i < j ==> h[i].line != h[j].line;
        assert j < i ==> h[j].line != h[i].line;
      }
      DepthNeedsLines(h, pid, x, m - 1, some - {i});
    } else if m > 0 {
      DepthNeedsLines(h, pid, x, m - 1, some);
    } else {
      assert some == {};
    }
  }

  /** Another layout of the same spans: same placements, lines chosen in any way. */
  ghost predicate SameSpans(h: seq<Placed>, other: seq<Placed>) {
    |h| == |other| && forall i :: 0 <= i < |h| ==> h[i].pid == other[i].pid && h[i].span == other[i].span
  }

  lemma SameOpen(h: seq<Placed>, other: seq<Placed>, pid: Pid, x: int)
    requires SameSpans(h, other)
    ensures OpenAt(other, pid, x) == OpenAt(h, pid, x)
    ensures forall i :: i in OpenAt(h, pid, x) ==> 0 <= i < |h| && h[i].pid == pid
  {
  }

  lemma DepthAtMostLines(st: State, pid: Pid, x: int)
    requires HistoryOnLines(st) && NoCollision(st.history, pid)
    ensures |OpenAt(st.history, pid, x)| <= |LinesOf(st, pid)|
  {
    DepthNeedsLines(st.history, pid, x, |LinesOf(st, pid)|, OpenAt(st.history, pid, x));
  }

  lemma ProperNoCollision(steps: seq<Step>, pid: Pid)
    requires AllProper(Run(steps).history, pid)
    ensures NoCollision(Run(steps).history, pid)
  {
    hide Run;
    NoPointsNoCollision(steps, pid);
  }

  lemma EmptyDepth(h: seq<Placed>, pid: Pid)
    ensures HasDepth(h, pid, 0)
  {
    assert |OpenAt(h, pid, 0)| >= 0;
  }

  /** Spans of a process laid out in start order use exactly as many lines as spans are open at the
      busiest moment, whatever the other processes do. */
  lemma LinesEqualDepth(steps: seq<Step>, pid: Pid)
    requires AllProper(Run(steps).history, pid) && InStartOrder(Run(steps).history, pid)
    ensures var st := Run(steps);
      && (exists x :: |OpenAt(st.history, pid, x)| == |LinesOf(st, pid)|)
      && (forall x :: |OpenAt(st.history, pid, x)| <= |LinesOf(st, pid)|)
  {
    hide Run, LinesOk, HistoryOnLines, StatusInRange, LinesOf, NoCollision, OpenAt, HasCrowd, InStartOrder, AllProper;
    RunKeepsInv(steps);
    RunJustified(steps, pid);
    ProperNoCollision(steps, pid);
    var st := Run(steps);
    EmptyDepth(st.history, pid);
    forall x ensures |OpenAt(st.history, pid, x)| <= |LinesOf(st, pid)| {
      DepthAtMostLines(st, pid, x);
    }
    var x :| |OpenAt(st.history, pid, x)| >= |LinesOf(st, pid)|;
    assert |OpenAt(st.history, pid, x)| == |LinesOf(st, pid)|;
  }

  /** No layout of the same spans without a collision in pid, however found, gives pid fewer lines. */
  ghost predicate FewestLines(h: seq<Placed>, pid: Pid, n: nat) {
    forall other: seq<Placed>, m: nat :: SameSpans(h, other) && NoCollision(other, pid) && Uses(other, pid, m) ==> n <= m
  }

  /** The layout draws pid on lines 1 to m at most. */
  ghost predicate Uses(h: seq<Placed>, pid: Pid, m: nat) {
    forall i :: 0 <= i < |h| && h[i].pid == pid ==> 1 <= h[i].line <= m
  }

  lemma StartOrderIsOptimal(steps: seq<Step>, pid: Pid)
    requires AllProper(Run(steps).history, pid) && InStartOrder(Run(steps).history, pid)
    ensures FewestLines(Run(steps).history, pid, |LinesOf(Run(steps), pid)|)
  {
    hide Run, LinesOf, NoCollision, InStartOrder, AllProper, OpenAt, SameSpans;
    LinesEqualDepth(steps, pid);
    var h := Run(steps).history;
    var x :| |OpenAt(h, pid, x)| == |LinesOf(Run(steps), pid)|;
    forall other: seq<Placed>, m: nat | SameSpans(h, other) && NoCollision(other, pid) && Uses(other, pid, m)
      ensures |LinesOf(Run(steps), pid)| <= m
    {
      SameOpen(h, other, pid, x);
      OpenIndices(other, pid, x);
      DepthNeedsLines(other, pid, x, m, OpenAt(other, pid, x));
    }
  }

  lemma OpenIndices(h: seq<Placed>, pid: Pid, x: int)
    ensures forall i :: i in OpenAt(h, pid, x) ==> 0 <= i < |h| && h[i].pid == pid
  {
  }

  // ---------------------------------------------------------------- a span without duration

  const LONG := Span(0, 10)
  const POINT := Span(5, 5)
  const LATE := Span(6, 8)

  /** A span without duration follows its request onto a line unchecked, and there hides the span
      that is still running: the two others end up on one line although they overlap. */
  lemma ZeroLengthCollision(pid: Pid)
    ensures Run([Place(pid, LONG), Place(pid, POINT), Place(pid, LATE)]).history
         == [Placed(pid, LONG, 1), Placed(pid, POINT, 1), Placed(pid, LATE, 1)]
    ensures Overlap(LONG, LATE)
    ensures Run([Place(pid, LONG), Place(pid, LATE)]).history == [Placed(pid, LONG, 1), Placed(pid, LATE, 2)]
  {
    hide Apply, Inserted, NeighbourCheck, OneLine;
    var s1, s2, s3 := Place(pid, LONG), Place(pid, POINT), Place(pid, LATE);
    var h1, h2 := [Placed(pid, LONG, 1)], [Placed(pid, LONG, 1), Placed(pid, POINT, 1)];
    assert [s1] == [] + [s1] && [s1, s2] == [s1] + [s2] && [s1, s2, s3] == [s1, s2] + [s3] && [s1, s3] == [s1] + [s3];
    RunStep([], s1);
    FirstPlace(pid, LONG);
    assert Run([s1]) == OneLine(pid, [LONG], h1);
    RunStep([s1], s2);
    SamePlace(pid, [LONG], h1, POINT);
    PointFollows();
    assert h1 + [Placed(pid, POINT, 1)] == h2;
    assert Run([s1, s2]) == OneLine(pid, [LONG, POINT], h2);
    RunStep([s1, s2], s3);
    LateIsFree();
    SamePlace(pid, [LONG, POINT], h2, LATE);
    OneLineHistory(pid, Inserted([LONG, POINT], LATE), h2 + [Placed(pid, LATE, 1)]);
    var h := Run([s1, s2, s3]).history;
    assert h == h2 + [Placed(pid, LATE, 1)];
    RunStep([s1], s3);
    SecondLine(pid, h1);
  }

  /** In that run a step is blind and hides the long span. */
  lemma ZeroLengthHides(pid: Pid)
    ensures !NeverBlind([Place(pid, LONG), Place(pid, POINT), Place(pid, LATE)], pid)
    ensures !NeverHiding([Place(pid, LONG), Place(pid, POINT), Place(pid, LATE)], pid)
  {
    hide Run, NeverBlind, NeverHiding;
    var steps := [Place(pid, LONG), Place(pid, POINT), Place(pid, LATE)];
    ZeroLengthCollision(pid);
    CollisionFreeExactly(steps, pid);
    var h := Run(steps).history;
    assert h[0].line == h[2].line && Overlap(h[0].span, h[2].span) && Proper(h[0].span) && Proper(h[2].span);
    if NeverHiding(steps, pid) {
      NeverHidingNoProperCollision(steps, pid);
    }
  }

  lemma SecondLine(pid: Pid, h: seq<Placed>)
    ensures Apply(OneLine(pid, [LONG], h), Place(pid, LATE)).history == h + [Placed(pid, LATE, 2)]
  {
    assert [LONG][1..] == [] && StartsBefore([], 6) == 0 && StartsBefore([LONG], 6) == 1;
    assert NeighbourCheck([LONG], LATE);
    assert FirstFree([[LONG]], LATE, 0) == 1;
  }

  lemma OneLineHistory(pid: Pid, line: Line, h: seq<Placed>)
    ensures OneLine(pid, line, h).history == h
  {
  }

  /** A state with a single line, used by the current request. */
  function OneLine(pid: Pid, line: Line, h: seq<Placed>): State {
    State(map[pid := [line]], map[pid := 1], h)
  }

  lemma FirstPlace(pid: Pid, s: Span)
    ensures Apply(START, Place(pid, s)) == OneLine(pid, [s], [Placed(pid, s, 1)])
  {
    assert Inserted([], s) == [s];
    assert PutOn([], 1, s) == [[s]];
  }

  lemma SamePlace(pid: Pid, line: Line, h: seq<Placed>, s: Span)
    requires s.start == s.end || !NeighbourCheck(line, s)
    ensures Apply(OneLine(pid, line, h), Place(pid, s)) == OneLine(pid, Inserted(line, s), h + [Placed(pid, s, 1)])
  {
    hide NeighbourCheck, Inserted;
    assert [line][0 := Inserted(line, s)] == [Inserted(line, s)];
  }

  lemma PointFollows()
    ensures Inserted([LONG], POINT) == [LONG, POINT]
  {
    assert [LONG][1..] == [];
    assert Before(LONG, POINT) && Rank([], POINT) == 0 && Rank([LONG], POINT) == 1;
  }

  lemma LateIsFree()
    ensures !NeighbourCheck([LONG, POINT], LATE)
  {
    assert [LONG, POINT][1..] == [POINT] && [POINT][1..] == [];
    assert StartsBefore([], 6) == 0 && StartsBefore([POINT], 6) == 1 && StartsBefore([LONG, POINT], 6) == 2;
  }
}
