/** The converter's layout stage in its own form: containers with sorted interval lists, a
    dictionary of containers per process, and spans that receive a line number. */
module TraceLayout {
  import opened Sequences
  import opened Sorting
  import opened SlotLines
  import opened SlotLayout

  lemma {:induction false} StartsBeforeUnique(line: Line, x: int, n: nat)
    requires n <= |line|
    requires forall k :: 0 <= k < n ==> line[k].start < x
    requires n < |line| ==> x <= line[n].start
    ensures StartsBefore(line, x) == n
  {
    if n > 0 {
      StartsBeforeUnique(line[1..], x, n - 1);
    }
  }

  lemma {:induction false} RankUnique(line: Line, s: Span, n: nat)
    requires n <= |line|
    requires forall k :: 0 <= k < n ==> Before(line[k], s)
    requires n < |line| ==> !Before(line[n], s)
    ensures Rank(line, s) == n
  {
    if n > 0 {
      RankUnique(line[1..], s, n - 1);
    }
  }

  class SpanLayoutContainer {
    var intervals: seq<Span>

    constructor ()
      ensures intervals == []
    {
      intervals := [];
    }

    /** bisect_left(intervals, (x, -inf)) */
    method BisectStart(x: int) returns (lo: nat)
      requires Sorted(intervals)
      ensures lo == StartsBefore(intervals, x)
    {
      lo := 0;
      var hi := |intervals|;
      while lo < hi
        invariant lo <= hi <= |intervals|
        invariant forall k :: 0 <= k < lo ==> intervals[k].start < x
        invariant forall k :: hi <= k < |intervals| ==> x <= intervals[k].start
      {
        var mid := (lo + hi) / 2;
        if intervals[mid].start < x {
          lo := mid + 1;
        } else {
          hi := mid;
        }
      }
      StartsBeforeUnique(intervals, x, lo);
    }

    /** The insertion point of insort_left. */
    method BisectSpan(s: Span) returns (lo: nat)
      requires Sorted(intervals)
      ensures lo == Rank(intervals, s)
    {
      lo := 0;
      var hi := |intervals|;
      while lo < hi
        invariant lo <= hi <= |intervals|
        invariant forall k :: 0 <= k < lo ==> Before(intervals[k], s)
        invariant forall k :: hi <= k < |intervals| ==> !Before(intervals[k], s)
      {
        var mid := (lo + hi) / 2;
        if Before(intervals[mid], s) {
          lo := mid + 1;
        } else {
          hi := mid;
        }
      }
      RankUnique(intervals, s, lo);
    }

    method CheckOverlap(start: int, end: int) returns (conflict: bool)
      requires Sorted(intervals)
      ensures conflict == NeighbourCheck(intervals, Span(start, end))
    {
      var idx := BisectStart(start);
      if idx > 0 && intervals[idx - 1].end > start {
        return true;
      }
      if idx < |intervals| && intervals[idx].start < end {
        return true;
      }
      return false;
    }

    method InsertSpan(start: int, end: int)
      requires Sorted(intervals)
      modifies this
      ensures intervals == Inserted(old(intervals), Span(start, end)) && Sorted(intervals)
    {
      InsertKeepsSorted(intervals, Span(start, end));
      var idx := BisectSpan(Span(start, end));
      intervals := intervals[..idx] + [Span(start, end)] + intervals[idx..];
    }
  }

  /** The lines of one process as a dictionary: keys in insertion order, and the containers. */
  datatype Slots = Slots(order: seq<nat>, at: map<nat, SpanLayoutContainer>)

  ghost predicate NumberedFromOne(slots: Slots) {
    && |slots.order| > 0
    && (forall i :: 0 <= i < |slots.order| ==> slots.order[i] == i + 1)
    && (forall l :: l in slots.at <==> 1 <= l <= |slots.order|)
  }

  /** Line numbers of every process are exactly 1..n, in the order they were lined, and no
      container serves twice. */
  ghost predicate Wired(graph: map<Pid, Slots>, repr: set<SpanLayoutContainer>) {
    && (forall p :: p in graph ==> NumberedFromOne(graph[p]))
    && (forall p, l :: p in graph && l in graph[p].at ==> graph[p].at[l] in repr)
    && (forall p, l, q, m :: p in graph && l in graph[p].at && q in graph && m in graph[q].at && graph[p].at[l] == graph[q].at[m]
          ==> p == q && l == m)
  }

  function LineAt(lines: map<Pid, seq<Line>>, pid: Pid, l: nat): Line {
    if pid in lines && 1 <= l <= |lines[pid]| then lines[pid][l - 1] else []
  }

  /** With these container contents the graph shows these lines. */
  ghost predicate Shows(graph: map<Pid, Slots>, contents: map<SpanLayoutContainer, Line>, lines: map<Pid, seq<Line>>) {
    && Wired(graph, contents.Keys)
    && graph.Keys == lines.Keys
    && (forall p :: p in graph ==> |graph[p].order| == |lines[p]|)
    && (forall p, l :: p in graph && l in graph[p].at ==> contents[graph[p].at[l]] == LineAt(lines, p, l))
  }

  function SlotsOf(graph: map<Pid, Slots>, pid: Pid): Slots {
    if pid in graph then graph[pid] else Slots([], map[])
  }

  /** `graph[pid][len(graph[pid]) + 1] = c` */
  function Opened(graph: map<Pid, Slots>, pid: Pid, c: SpanLayoutContainer): map<Pid, Slots> {
    var slots := SlotsOf(graph, pid);
    var line := |slots.order| + 1;
    graph[pid := Slots(slots.order + [line], slots.at[line := c])]
  }

  function LinesOpened(lines: map<Pid, seq<Line>>, pid: Pid): map<Pid, seq<Line>> {
    lines[pid := (if pid in lines then lines[pid] else []) + [[]]]
  }

  lemma OpenedNumbered(slots: Slots, c: SpanLayoutContainer)
    requires NumberedFromOne(slots) || slots == Slots([], map[])
    ensures var line := |slots.order| + 1;
      line !in slots.at && NumberedFromOne(Slots(slots.order + [line], slots.at[line := c]))
  {
  }

  /** The number of a new line is free: nothing is overwritten when it is lined. */
  lemma NewLineIsFree(graph: map<Pid, Slots>, repr: set<SpanLayoutContainer>, pid: Pid, c: SpanLayoutContainer)
    requires Wired(graph, repr) && c !in repr
    ensures |SlotsOf(graph, pid).order| + 1 !in SlotsOf(graph, pid).at
    ensures Wired(Opened(graph, pid, c), repr + {c})
  {
    hide NumberedFromOne;
    OpenedNumbered(SlotsOf(graph, pid), c);
  }

  lemma OpenedAt(graph: map<Pid, Slots>, repr: set<SpanLayoutContainer>, pid: Pid, c: SpanLayoutContainer, p: Pid, l: nat)
    requires Wired(graph, repr) && c !in repr
    requires p in Opened(graph, pid, c) && l in Opened(graph, pid, c)[p].at
    ensures var old' := p in graph && l in graph[p].at; var new' := p == pid && l == |SlotsOf(graph, pid).order| + 1;
      && (old' <==> !new')
      && Opened(graph, pid, c)[p].at[l] == if new' then c else graph[p].at[l]
  {
    NewLineIsFree(graph, repr, pid, c);
  }

  lemma LineAtOpened(lines: map<Pid, seq<Line>>, pid: Pid, p: Pid, l: nat)
    ensures LineAt(LinesOpened(lines, pid), p, l) == LineAt(lines, p, l)
  {
  }

  lemma OpenedContent(graph: map<Pid, Slots>, contents: map<SpanLayoutContainer, Line>, lines: map<Pid, seq<Line>>,
                      pid: Pid, c: SpanLayoutContainer, p: Pid, l: nat)
    requires Shows(graph, contents, lines) && c !in contents
    requires p in Opened(graph, pid, c) && l in Opened(graph, pid, c)[p].at
    ensures Opened(graph, pid, c)[p].at[l] in contents[c := []]
    ensures contents[c := []][Opened(graph, pid, c)[p].at[l]] == LineAt(LinesOpened(lines, pid), p, l)
  {
    hide Opened, LinesOpened, NumberedFromOne;
    OpenedAt(graph, contents.Keys, pid, c, p, l);
    LineAtOpened(lines, pid, p, l);
    if p == pid && l == |SlotsOf(graph, pid).order| + 1 {
      assert pid in graph ==> |lines[pid]| == |graph[pid].order|;
    }
  }

  lemma OpenedLengths(graph: map<Pid, Slots>, lines: map<Pid, seq<Line>>, pid: Pid, c: SpanLayoutContainer)
    requires graph.Keys == lines.Keys && forall p :: p in graph ==> |graph[p].order| == |lines[p]|
    ensures Opened(graph, pid, c).Keys == LinesOpened(lines, pid).Keys
    ensures forall p :: p in Opened(graph, pid, c) ==> |Opened(graph, pid, c)[p].order| == |LinesOpened(lines, pid)[p]|
  {
  }

  lemma OpenShows(graph: map<Pid, Slots>, contents: map<SpanLayoutContainer, Line>, lines: map<Pid, seq<Line>>,
                  pid: Pid, c: SpanLayoutContainer)
    requires Shows(graph, contents, lines) && c !in contents
    ensures Shows(Opened(graph, pid, c), contents[c := []], LinesOpened(lines, pid))
    ensures |SlotsOf(graph, pid).order| == if pid in lines then |lines[pid]| else 0
    ensures Sorted([])
  {
    NewLineIsFree(graph, contents.Keys, pid, c);
    OpenedLengths(graph, lines, pid, c);
    forall p, l: nat | p in Opened(graph, pid, c) && l in Opened(graph, pid, c)[p].at
      ensures Opened(graph, pid, c)[p].at[l] in contents[c := []]
      ensures contents[c := []][Opened(graph, pid, c)[p].at[l]] == LineAt(LinesOpened(lines, pid), p, l)
    {
      OpenedContent(graph, contents, lines, pid, c, p, l);
    }
    assert contents[c := []].Keys == contents.Keys + {c};
  }

  lemma InsertShows(graph: map<Pid, Slots>, contents: map<SpanLayoutContainer, Line>, lines: map<Pid, seq<Line>>,
                    pid: Pid, l: nat, line: Line)
    requires Shows(graph, contents, lines) && pid in graph && l in graph[pid].at
    ensures 1 <= l <= |lines[pid]|
    ensures Shows(graph, contents[graph[pid].at[l] := line], lines[pid := lines[pid][l - 1 := line]])
  {
  }

  class SlotGraph {
    var graph: map<Pid, Slots>
    ghost var Repr: set<SpanLayoutContainer>

    constructor ()
      ensures Represents(map[]) && Repr == {}
    {
      graph, Repr := map[], {};
    }

    ghost function Contents(): map<SpanLayoutContainer, Line>
      reads this, Repr
    {
      map c | c in Repr :: c.intervals
    }

    ghost predicate AllSorted()
      reads this, Repr
    {
      forall c :: c in Repr ==> Sorted(c.intervals)
    }

    /** The graph is well formed and its lines are `lines`. */
    ghost predicate Represents(lines: map<Pid, seq<Line>>)
      reads this, Repr
    {
      Shows(graph, Contents(), lines) && AllSorted()
    }

    /** `graph[pid][line] = SpanLayoutContainer()` for the next line number of pid. */
    method OpenLine(pid: Pid, ghost lines: map<Pid, seq<Line>>) returns (line: nat)
      requires Represents(lines)
      modifies this
      ensures var before := if pid in lines then lines[pid] else [];
        line == |before| + 1 && Represents(LinesOpened(lines, pid))
      ensures fresh(Repr - old(Repr)) && old(Repr) <= Repr
    {
      hide Shows, Sorted, Opened, LinesOpened, SlotsOf;
      var container := new SpanLayoutContainer();
      OpenShows(graph, Contents(), lines, pid, container);
      Repr := Repr + {container};
      line := |SlotsOf(graph, pid).order| + 1;
      graph := Opened(graph, pid, container);
      assert Contents() == old(Contents())[container := []];
    }

    /** Try the lines of pid in the order they were lined. */
    method SearchLines(pid: Pid, start: int, end: int, ghost lines: map<Pid, seq<Line>>) returns (found: bool, line: nat)
      requires Represents(lines) && pid in graph
      ensures var free := FirstFree(lines[pid], Span(start, end), 0);
        && found == (free < |lines[pid]|)
        && (found ==> line == free + 1)
    {
      var order := graph[pid].order;
      for i := 0 to |order|
        invariant FirstFree(lines[pid], Span(start, end), 0) == FirstFree(lines[pid], Span(start, end), i)
      {
        line := order[i];
        var conflict := graph[pid].at[line].CheckOverlap(start, end);
        if !conflict {
          return true, line;
        }
      }
      return false, 0;
    }

    /** Ask line `line` of pid whether it is free. */
    method Conflicts(pid: Pid, line: nat, start: int, end: int, ghost lines: map<Pid, seq<Line>>) returns (conflict: bool)
      requires Represents(lines) && pid in lines && 1 <= line <= |lines[pid]|
      ensures pid in graph
      ensures conflict == NeighbourCheck(lines[pid][line - 1], Span(start, end))
    {
      conflict := graph[pid].at[line].CheckOverlap(start, end);
    }

    method FindLine(status: map<Pid, nat>, pid: Pid, start: int, end: int, ghost st: State)
      returns (line: nat, status': map<Pid, nat>)
      requires Represents(st.graph) && status == st.status && StatusInRange(st)
      modifies this
      ensures line == SlotLayout.FindLine(st, pid, Span(start, end)) && status' == status[pid := line]
      ensures Represents(WithOpened(st, pid, line))
      ensures fresh(Repr - old(Repr)) && old(Repr) <= Repr
    {
      hide Represents, NeighbourCheck, LinesOpened, FirstFree;
      SameGraph(st.graph);
      status' := status;
      if pid in status {
        line := status[pid];
        if start == end {
          return;
        }
        var conflict := Conflicts(pid, line, start, end, st.graph);
        if !conflict {
          return;
        }
      }
      if pid in graph {
        var found;
        found, line := SearchLines(pid, start, end, st.graph);
        if found {
          status' := status[pid := line];
          return;
        }
      }
      line := OpenLine(pid, st.graph);
      status' := status[pid := line];
    }

    lemma SameGraph(lines: map<Pid, seq<Line>>)
      requires Represents(lines)
      ensures graph.Keys == lines.Keys
    {
    }

    /** `graph[pid][line].insert_span(start, end)` */
    method Store(pid: Pid, line: nat, start: int, end: int, ghost lines: map<Pid, seq<Line>>)
      requires Represents(lines) && pid in lines && 1 <= line <= |lines[pid]|
      modifies Repr
      ensures Represents(lines[pid := lines[pid][line - 1 := Inserted(lines[pid][line - 1], Span(start, end))]])
    {
      hide Sorted, Inserted, NumberedFromOne, Wired, LineAt;
      ContainerAt(lines, pid, line);
      var container := graph[pid].at[line];
      InsertShows(graph, Contents(), lines, pid, line, Inserted(container.intervals, Span(start, end)));
      container.InsertSpan(start, end);
      assert Contents() == old(Contents())[container := Inserted(old(container.intervals), Span(start, end))];
    }

    /** One round of the layout loops: find a line, store the span there. */
    method Place(status: map<Pid, nat>, span: LayoutSpan, ghost st: State) returns (status': map<Pid, nat>)
      requires Represents(st.graph) && status == st.status && StatusInRange(st)
      modifies this, Repr, span`tid
      ensures span.tid == SlotLayout.FindLine(st, span.pid, Span(span.start, span.end))
      ensures status' == status[span.pid := span.tid]
      ensures Represents(Apply(st, SlotLayout.Place(span.pid, Span(span.start, span.end))).graph)
      ensures fresh(Repr - old(Repr)) && old(Repr) <= Repr
    {
      hide *;
      PlacedLines(st, span.pid, Span(span.start, span.end));
      var line;
      line, status' := FindLine(status, span.pid, span.start, span.end, st);
      Store(span.pid, line, span.start, span.end, WithOpened(st, span.pid, line));
      span.tid := line;
    }

    lemma ContainerAt(lines: map<Pid, seq<Line>>, pid: Pid, line: nat)
      requires Represents(lines) && pid in lines && 1 <= line <= |lines[pid]|
      ensures pid in graph && line in graph[pid].at && graph[pid].at[line] in Repr
      ensures graph[pid].at[line].intervals == lines[pid][line - 1]
    {
    }
  }

  lemma PlacedLines(st: State, pid: Pid, s: Span)
    ensures var line := SlotLayout.FindLine(st, pid, s); var lined := WithOpened(st, pid, line);
      && pid in lined && 1 <= line <= |lined[pid]|
      && Apply(st, SlotLayout.Place(pid, s)).graph
         == lined[pid := lined[pid][line - 1 := Inserted(lined[pid][line - 1], s)]]
  {
    hide Inserted;
    var lines, line := LinesOf(st, pid), SlotLayout.FindLine(st, pid, s);
    if line == |lines| + 1 {
      assert (lines + [[]])[line - 1 := Inserted([], s)] == lines + [Inserted([], s)];
    }
  }

  /** A span of the trace; `tid` is the line it is drawn on. */
  class LayoutSpan {
    const pid: Pid
    const start: int
    const end: int
    var tid: nat

    constructor (pid: Pid, start: int, end: int)
      ensures this.pid == pid && this.start == start && this.end == end && tid == 0
    {
      this.pid, this.start, this.end, tid := pid, start, end, 0;
    }
  }

  /** The lines after find_line: a new, still empty line if the number returned is new. */
  function WithOpened(st: State, pid: Pid, line: nat): map<Pid, seq<Line>> {
    var lines := LinesOf(st, pid);
    if line == |lines| + 1 then LinesOpened(st.graph, pid) else st.graph
  }

  // ---------------------------------------------------------------- the layout stage

  function SpanOf(s: LayoutSpan): Span { Span(s.start, s.end) }

  function PlaceSteps(spans: seq<LayoutSpan>): seq<Step> {
    seq(|spans|, i requires 0 <= i < |spans| => SlotLayout.Place(spans[i].pid, SpanOf(spans[i])))
  }

  /** The history records exactly these spans, in this order, on the lines they now carry. */
  ghost predicate Recorded(h: seq<Placed>, order: seq<LayoutSpan>)
    reads order
  {
    |h| == |order| && forall i :: 0 <= i < |h| ==> h[i] == Placed(order[i].pid, SpanOf(order[i]), order[i].tid)
  }

  lemma {:induction false} RunStatus(steps: seq<Step>)
    ensures StatusInRange(Run(steps))
    decreases |steps|
  {
    if steps != [] {
      RunStatus(steps[..|steps| - 1]);
    }
  }

  /** One request: a fresh status, then its spans in the given order. */
  method PlaceAll(graph: SlotGraph, spans: seq<LayoutSpan>, ghost steps: seq<Step>, ghost order: seq<LayoutSpan>)
    requires graph.Represents(Run(steps).graph) && Recorded(Run(steps).history, order)
    requires Distinct(order + spans)
    modifies graph, graph.Repr, (set s | s in spans)`tid
    ensures graph.Represents(Run(steps + [NextRequest] + PlaceSteps(spans)).graph)
    ensures Recorded(Run(steps + [NextRequest] + PlaceSteps(spans)).history, order + spans)
    ensures fresh(graph.Repr - old(graph.Repr))
  {
    hide SlotGraph.Represents, Apply, Run, StatusInRange, PlaceSteps, Distinct;
    NoSpans(spans);
    var status: map<Pid, nat> := map[];
    ghost var done := steps + [NextRequest];
    RunStep(steps, NextRequest);
    NextRequestClears(Run(steps));
    for i := 0 to |spans|
      invariant done == steps + [NextRequest] + PlaceSteps(spans[..i])
      invariant graph.Represents(Run(done).graph)
      invariant status == Run(done).status
      invariant Recorded(Run(done).history, order + spans[..i])
      invariant fresh(graph.Repr - old(graph.Repr))
    {
      ghost var step := SlotLayout.Place(spans[i].pid, SpanOf(spans[i]));
      RunStep(done, step);
      RunStatus(done);
      PlaceRecords(Run(done), spans[i].pid, SpanOf(spans[i]));
      assert spans[i] !in order + spans[..i] by { AppearsOnce(order, spans, i); }
      status := graph.Place(status, spans[i], Run(done));
      assert order + spans[..i + 1] == order + spans[..i] + [spans[i]];
      NextSpan(spans, i);
      done := done + [step];
    }
    assert spans[..|spans|] == spans;
  }

  lemma NoSpans(spans: seq<LayoutSpan>)
    ensures PlaceSteps(spans[..0]) == []
  {
  }

  lemma NextSpan(spans: seq<LayoutSpan>, i: nat)
    requires i < |spans|
    ensures PlaceSteps(spans[..i + 1]) == PlaceSteps(spans[..i]) + [SlotLayout.Place(spans[i].pid, SpanOf(spans[i]))]
  {
  }

  lemma AppearsOnce(order: seq<LayoutSpan>, spans: seq<LayoutSpan>, i: nat)
    requires Distinct(order + spans) && i < |spans|
    ensures spans[i] !in order + spans[..i]
  {
    assert (order + spans)[|order| + i] == spans[i];
    assert order + spans[..i] == (order + spans)[..|order| + i];
  }

  lemma NextRequestClears(st: State)
    ensures Apply(st, NextRequest) == State(st.graph, map[], st.history)
  {
  }

  lemma PlaceRecords(st: State, pid: Pid, s: Span)
    ensures var after := Apply(st, SlotLayout.Place(pid, s)); var l := SlotLayout.FindLine(st, pid, s);
      after.history == st.history + [Placed(pid, s, l)] && after.status == st.status[pid := l]
  {
  }

  datatype LayoutResult = IndexError | Laid(graph: SlotGraph)

  /** Every request's spans and the gateway's spans are different objects, the latter under one pid. */
  ghost predicate WellSeparated(roots: seq<seq<LayoutSpan>>, smg: seq<LayoutSpan>) {
    && Apart(roots)
    && Distinct(smg) && (forall a :: a in smg ==> a.pid == Smg)
    && (forall i, a :: 0 <= i < |roots| && a in roots[i] ==> a !in smg && a.pid != Smg)
  }

  ghost predicate Apart(roots: seq<seq<LayoutSpan>>) {
    && (forall i :: 0 <= i < |roots| ==> Distinct(roots[i]))
    && (forall i, j, a :: 0 <= i < j < |roots| && a in roots[i] ==> a !in roots[j])
  }

  ghost predicate Within(a: LayoutSpan, roots: seq<seq<LayoutSpan>>) {
    exists i :: 0 <= i < |roots| && a in roots[i]
  }

  /** Two spans drawn on the same line of a process never overlap. */
  ghost predicate DrawnApart(order: seq<LayoutSpan>)
    reads order
  {
    forall a, b :: a in order && b in order && a != b && a.pid == b.pid && a.tid == b.tid ==>
      !Overlap(SpanOf(a), SpanOf(b))
  }

  lemma RecordedDrawnApart(h: seq<Placed>, order: seq<LayoutSpan>)
    requires Recorded(h, order) && Distinct(order)
    ensures DrawnApart(order) <==> forall pid :: NoCollision(h, pid)
  {
    if DrawnApart(order) {
      forall i, j | 0 <= i < j < |h| && h[i].pid == h[j].pid && h[i].line == h[j].line
        ensures !Overlap(h[i].span, h[j].span)
      {
        assert order[i] in order && order[j] in order;
      }
    }
    if forall pid :: NoCollision(h, pid) {
      NoCollisionDrawn(h, order);
    }
  }

  lemma NoCollisionDrawn(h: seq<Placed>, order: seq<LayoutSpan>)
    requires Recorded(h, order) && forall pid :: NoCollision(h, pid)
    ensures DrawnApart(order)
  {
    forall a, b | a in order && b in order && a != b && a.pid == b.pid && a.tid == b.tid
      ensures !Overlap(SpanOf(a), SpanOf(b))
    {
      var i :| 0 <= i < |order| && order[i] == a;
      var j :| 0 <= j < |order| && order[j] == b;
      assert NoCollision(h, a.pid) && h[i].span == SpanOf(a) && h[j].span == SpanOf(b);
    }
  }

  /** Every span of the trace is drawn apart from the others exactly when no step is blind. */
  lemma DrawnApartExactly(steps: seq<Step>, order: seq<LayoutSpan>)
    requires Recorded(Run(steps).history, order) && Distinct(order)
    ensures DrawnApart(order) <==> forall pid :: NeverBlind(steps, pid)
    ensures (forall a :: a in order ==> a.start != a.end) ==> DrawnApart(order)
  {
    hide Run, NeverBlind, NoCollision, DrawnApart;
    RecordedDrawnApart(Run(steps).history, order);
    forall pid
      ensures NeverBlind(steps, pid) <==> NoCollision(Run(steps).history, pid)
      ensures (forall a :: a in order ==> a.start != a.end) ==> NoCollision(Run(steps).history, pid)
    {
      CollisionFreeExactly(steps, pid);
      if forall a :: a in order ==> a.start != a.end {
        NoPointsNoCollision(steps, pid);
      }
    }
  }

  /** The same for two spans of positive duration. */
  ghost predicate ProperDrawnApart(order: seq<LayoutSpan>)
    reads order
  {
    forall a, b :: a in order && b in order && a != b && a.pid == b.pid && a.tid == b.tid ==>
      Proper(SpanOf(a)) && Proper(SpanOf(b)) ==> !Overlap(SpanOf(a), SpanOf(b))
  }

  /** If no step hides a running span, spans of positive duration are drawn apart. */
  lemma ProperApart(steps: seq<Step>, order: seq<LayoutSpan>)
    requires Recorded(Run(steps).history, order) && forall pid :: NeverHiding(steps, pid)
    ensures ProperDrawnApart(order)
  {
    hide Run, NeverHiding, AllNearly;
    var h := Run(steps).history;
    forall a, b | a in order && b in order && a != b && a.pid == b.pid && a.tid == b.tid && Proper(SpanOf(a)) && Proper(SpanOf(b))
      ensures !Overlap(SpanOf(a), SpanOf(b))
    {
      var i :| 0 <= i < |order| && order[i] == a;
      var j :| 0 <= j < |order| && order[j] == b;
      NeverHidingNoProperCollision(steps, a.pid);
      assert h[i].span == SpanOf(a) && h[j].span == SpanOf(b);
    }
  }

  function StartOf(a: LayoutSpan): int { a.start }

  /** Where a request starts: at its first span, once these are sorted. */
  function FirstStart(request: seq<LayoutSpan>): int {
    if request == [] then 0 else request[0].start
  }

  /** Every request's spans by start; then the requests by the start of their first span. */
  ghost predicate RequestsSorted(roots: seq<seq<LayoutSpan>>, bySpan: seq<seq<LayoutSpan>>, engine: seq<seq<LayoutSpan>>) {
    && |bySpan| == |roots| && (forall k :: 0 <= k < |roots| ==> StableSort(roots[k], bySpan[k], StartOf))
    && StableSort(bySpan, engine, FirstStart)
  }

  method SortRequests(roots: seq<seq<LayoutSpan>>)
    returns (ok: bool, engine: seq<seq<LayoutSpan>>, ghost bySpan: seq<seq<LayoutSpan>>)
    requires Apart(roots)
    ensures ok <==> [] !in roots
    ensures ok ==> RequestsSorted(roots, bySpan, engine)
    ensures ok ==> forall r, i, j :: 0 <= r < |engine| && 0 <= i < j < |engine[r]| ==> engine[r][i].start <= engine[r][j].start
    ensures ok ==> [] !in engine
    ensures ok ==> forall q, r :: 0 <= q < r < |engine| && engine[q] != [] && engine[r] != [] ==> engine[q][0].start <= engine[r][0].start
    ensures ok ==> Apart(engine) && forall a :: Within(a, engine) <==> Within(a, roots)
  {
    hide Ordered, Precedes;
    var sorted := [];
    for i := 0 to |roots|
      invariant |sorted| == i
      invariant forall k :: 0 <= k < i ==> StableSort(roots[k], sorted[k], StartOf)
    {
      var spans := SortedBy(roots[i], StartOf);
      sorted := sorted + [spans];
    }
    engine := [];
    for i := 0 to |roots|
      invariant [] !in roots[..i]
    {
      assert roots[..i + 1] == roots[..i] + [roots[i]];
      EmptyTogether(roots[i], sorted[i]);
      if sorted[i] == [] {
        assert roots[i] in roots;
        return false, engine, sorted;
      }
    }
    assert roots[..|roots|] == roots;
    RequestsDiffer(roots, sorted);
    engine := SortedBy(sorted, FirstStart);
    StillApart(sorted, engine);
    InOrder(roots, sorted, engine);
    forall a: LayoutSpan
      ensures Within(a, engine) <==> Within(a, roots)
    {
      if i :| 0 <= i < |roots| && a in roots[i] {
        assert sorted[i] in engine;
      }
      if j :| 0 <= j < |engine| && a in engine[j] {
        assert engine[j] in sorted;
      }
    }
    bySpan := sorted;
    return true, engine, bySpan;
  }

  lemma InStartOrderOf(spans: seq<LayoutSpan>, sorted: seq<LayoutSpan>)
    requires StableSort(spans, sorted, StartOf)
    ensures forall i, j :: 0 <= i < j < |sorted| ==> sorted[i].start <= sorted[j].start
  {
    hide Precedes, Distinct;
    forall i, j | 0 <= i < j < |sorted| ensures sorted[i].start <= sorted[j].start {
      assert StartOf(sorted[i]) <= StartOf(sorted[j]);
    }
  }

  lemma InOrder(roots: seq<seq<LayoutSpan>>, bySpan: seq<seq<LayoutSpan>>, engine: seq<seq<LayoutSpan>>)
    requires RequestsSorted(roots, bySpan, engine) && [] !in roots
    ensures forall r, i, j :: 0 <= r < |engine| && 0 <= i < j < |engine[r]| ==> engine[r][i].start <= engine[r][j].start
    ensures [] !in engine
    ensures forall q, r :: 0 <= q < r < |engine| && engine[q] != [] && engine[r] != [] ==> engine[q][0].start <= engine[r][0].start
  {
    hide Precedes, Distinct;
    forall r | 0 <= r < |engine|
      ensures engine[r] != [] && forall i, j :: 0 <= i < j < |engine[r]| ==> engine[r][i].start <= engine[r][j].start
    {
      assert engine[r] in bySpan;
      var k :| 0 <= k < |bySpan| && bySpan[k] == engine[r];
      assert StableSort(roots[k], bySpan[k], StartOf) && roots[k] in roots;
      EmptyTogether(roots[k], bySpan[k]);
      forall i, j | 0 <= i < j < |engine[r]| ensures engine[r][i].start <= engine[r][j].start {
        assert StartOf(bySpan[k][i]) <= StartOf(bySpan[k][j]);
      }
    }
    forall q, r | 0 <= q < r < |engine| && engine[q] != [] && engine[r] != [] ensures engine[q][0].start <= engine[r][0].start {
      assert FirstStart(engine[q]) <= FirstStart(engine[r]);
    }
  }

  lemma RequestsDiffer(roots: seq<seq<LayoutSpan>>, bySpan: seq<seq<LayoutSpan>>)
    requires Apart(roots) && |bySpan| == |roots| && [] !in roots
    requires forall k :: 0 <= k < |roots| ==> StableSort(roots[k], bySpan[k], StartOf)
    ensures Distinct(bySpan) && Apart(bySpan)
  {
    forall i, j | 0 <= i < j < |bySpan| ensures bySpan[i] != bySpan[j] {
      assert roots[i] in roots;
      assert roots[i][0] in bySpan[i] && roots[i][0] !in bySpan[j];
    }
  }

  lemma StillApart(bySpan: seq<seq<LayoutSpan>>, engine: seq<seq<LayoutSpan>>)
    requires Apart(bySpan) && Distinct(engine) && forall r :: r in engine <==> r in bySpan
    ensures Apart(engine)
  {
    forall i | 0 <= i < |engine| ensures Distinct(engine[i]) {
      assert engine[i] in bySpan;
    }
    forall i, j, a | 0 <= i < j < |engine| && a in engine[i] ensures a !in engine[j] {
      assert engine[i] in bySpan && engine[j] in bySpan;
    }
  }

  /** The steps of the requests one after the other, and their spans in that order. */
  function StepsOf(requests: seq<seq<LayoutSpan>>): seq<Step> {
    if requests == [] then [] else
      var n := |requests| - 1;
      StepsOf(requests[..n]) + [NextRequest] + PlaceSteps(requests[n])
  }

  function SpansOf(requests: seq<seq<LayoutSpan>>): seq<LayoutSpan> {
    if requests == [] then [] else
      var n := |requests| - 1;
      SpansOf(requests[..n]) + requests[n]
  }

  /** The steps in full: for every request a fresh start, then its spans in order under their process
      and with their times. */
  lemma {:induction false} StepsOfAll(a: seq<seq<LayoutSpan>>, b: seq<seq<LayoutSpan>>, request: seq<LayoutSpan>)
    ensures StepsOf(a + b) == StepsOf(a) + StepsOf(b) && SpansOf(a + b) == SpansOf(a) + SpansOf(b)
    ensures StepsOf([request])[..1] == [NextRequest] && |StepsOf([request])| == 1 + |request| && SpansOf([request]) == request
    ensures forall i :: 0 <= i < |request| ==>
      StepsOf([request])[1 + i] == SlotLayout.Place(request[i].pid, Span(request[i].start, request[i].end))
    decreases |b|
  {
    hide StepsOf, SpansOf;
    OneMoreRequest([], request);
    assert [] + [request] == [request];
    NothingLaid();
    if b == [] {
      assert a + b == a;
    } else {
      var n := |b| - 1;
      assert a + b == a + b[..n] + [b[n]] && b == b[..n] + [b[n]];
      StepsOfAll(a, b[..n], request);
      OneMoreRequest(a + b[..n], b[n]);
      OneMoreRequest(b[..n], b[n]);
    }
  }

  lemma OneMoreRequest(requests: seq<seq<LayoutSpan>>, request: seq<LayoutSpan>)
    ensures StepsOf(requests + [request]) == StepsOf(requests) + [NextRequest] + PlaceSteps(request)
    ensures SpansOf(requests + [request]) == SpansOf(requests) + request
  {
    hide PlaceSteps;
    assert (requests + [request])[..|requests|] == requests;
  }

  /** generate_perfetto_span_layout: the sorted requests and then the sorted gateway spans, as one
      more request, make the steps; every span carries the line its step gave it.  Spans are drawn
      apart exactly when no step is blind, and gateway spans of positive duration get as few lines
      as any layout could give them. */
  method GeneratePerfettoSpanLayout(roots: seq<seq<LayoutSpan>>, smg: seq<LayoutSpan>)
    returns (result: LayoutResult, ghost bySpan: seq<seq<LayoutSpan>>, ghost engine: seq<seq<LayoutSpan>>, ghost gateway: seq<LayoutSpan>)
    requires WellSeparated(roots, smg)
    modifies (set r, s | r in roots && s in r :: s)`tid, (set s | s in smg)`tid
    ensures result.IndexError? <==> [] in roots
    ensures result.Laid? ==> RequestsSorted(roots, bySpan, engine) && StableSort(smg, gateway, StartOf)
    ensures result.Laid? ==> forall r, i, j :: 0 <= r < |engine| && 0 <= i < j < |engine[r]| ==> engine[r][i].start <= engine[r][j].start
    ensures result.Laid? ==> [] !in engine
    ensures result.Laid? ==> forall q, r :: 0 <= q < r < |engine| && engine[q] != [] && engine[r] != [] ==> engine[q][0].start <= engine[r][0].start
    ensures result.Laid? ==> forall i, j :: 0 <= i < j < |gateway| ==> gateway[i].start <= gateway[j].start
    ensures result.Laid? ==> LaidOut(result.graph, engine + [gateway])
    ensures result.Laid? ==> forall a :: a in SpansOf(engine + [gateway]) <==> Within(a, roots) || a in smg
    ensures result.Laid? ==>
      (DrawnApart(SpansOf(engine + [gateway])) <==> forall pid :: NeverBlind(StepsOf(engine + [gateway]), pid))
    ensures result.Laid? && (forall a :: a in SpansOf(engine + [gateway]) ==> a.start != a.end) ==>
      DrawnApart(SpansOf(engine + [gateway]))
    ensures result.Laid? && (forall pid :: NeverHiding(StepsOf(engine + [gateway]), pid)) ==>
      ProperDrawnApart(SpansOf(engine + [gateway]))
    ensures result.Laid? && (forall a :: a in smg ==> Proper(SpanOf(a))) ==>
      var st := Run(StepsOf(engine + [gateway])); FewestLines(st.history, Smg, |LinesOf(st, Smg)|)
  {
    hide SlotGraph.Represents, Apply, Run, Recorded, PlaceSteps, StepsOf, SpansOf, DrawnApart, InStartOrder, StableSort,
      RequestsSorted, NeverBlind, NeverHiding, ProperDrawnApart, AllProper, FewestLines, LinesOf;
    engine, gateway := [], [];
    var ok, requests;
    ok, requests, bySpan := SortRequests(roots);
    if !ok {
      return IndexError, bySpan, engine, gateway;
    }
    engine := requests;
    var graph := new SlotGraph();
    ghost var steps: seq<Step>, order: seq<LayoutSpan> := [], [];
    NothingLaid();
    for i := 0 to |requests|
      invariant steps == StepsOf(requests[..i]) && order == SpansOf(requests[..i])
      invariant graph.Represents(Run(steps).graph) && Recorded(Run(steps).history, order)
      invariant fresh(graph) && fresh(graph.Repr)
    {
      assert requests[..i + 1] == requests[..i] + [requests[i]];
      OneMoreRequest(requests[..i], requests[i]);
      SpansOfRequests(requests[..i + 1]);
      assert forall a :: a in requests[i] ==> Within(a, requests);
      PlaceAll(graph, requests[i], steps, order);
      steps := steps + [NextRequest] + PlaceSteps(requests[i]);
      order := order + requests[i];
    }
    assert requests[..|requests|] == requests;
    var smgSorted := SortedBy(smg, StartOf);
    gateway := smgSorted;
    InStartOrderOf(smg, gateway);
    GatewayApart(roots, smg, requests, smgSorted);
    OneMoreRequest(requests, smgSorted);
    PlaceAll(graph, smgSorted, steps, order);
    result := Laid(graph);
    DrawnApartExactly(StepsOf(engine + [gateway]), SpansOf(engine + [gateway]));
    if forall pid :: NeverHiding(StepsOf(engine + [gateway]), pid) {
      ProperApart(StepsOf(engine + [gateway]), SpansOf(engine + [gateway]));
    }
    if forall a :: a in smg ==> Proper(SpanOf(a)) {
      GatewayOptimal(StepsOf(engine + [gateway]), order, smg, gateway);
    }
  }

  /** The spans in the order of drawing are those of the requests, each once. */
  lemma {:induction false} SpansOfRequests(requests: seq<seq<LayoutSpan>>)
    requires Apart(requests)
    ensures Distinct(SpansOf(requests)) && forall a: LayoutSpan :: a in SpansOf(requests) <==> Within(a, requests)
    decreases |requests|
  {
    if requests != [] {
      var n := |requests| - 1;
      SpansOfRequests(requests[..n]);
      forall a: LayoutSpan
        ensures Within(a, requests) <==> Within(a, requests[..n]) || a in requests[n]
      {
        if Within(a, requests[..n]) {
          var k :| 0 <= k < n && a in requests[..n][k];
          assert a in requests[k];
        }
        if Within(a, requests) {
          var k :| 0 <= k < |requests| && a in requests[k];
          assert k < n ==> requests[..n][k] == requests[k];
        }
      }
      DistinctConcat(SpansOf(requests[..n]), requests[n]);
    }
  }

  lemma GatewayApart(roots: seq<seq<LayoutSpan>>, smg: seq<LayoutSpan>, engine: seq<seq<LayoutSpan>>, gateway: seq<LayoutSpan>)
    requires WellSeparated(roots, smg) && StableSort(smg, gateway, StartOf) && Apart(engine)
    requires forall a :: Within(a, engine) <==> Within(a, roots)
    ensures var all := SpansOf(engine + [gateway]);
      Distinct(all) && forall a :: a in all <==> Within(a, roots) || a in smg
    ensures forall a :: a in SpansOf(engine) ==> a.pid != Smg
  {
    hide Ordered, Precedes, SpansOf;
    OneMoreRequest(engine, gateway);
    SpansOfRequests(engine);
    forall a | a in SpansOf(engine) ensures a.pid != Smg && a !in smg {
      assert Within(a, roots);
    }
    DistinctConcat(SpansOf(engine), gateway);
  }

  /** The graph shows the lines of the run of these requests, and each span carries its line. */
  ghost predicate LaidOut(graph: SlotGraph, requests: seq<seq<LayoutSpan>>)
    reads graph, graph.Repr, SpansOf(requests)
  {
    && Distinct(SpansOf(requests)) && Recorded(Run(StepsOf(requests)).history, SpansOf(requests))
    && graph.Represents(Run(StepsOf(requests)).graph)
  }

  lemma NothingLaid()
    ensures StepsOf([]) == [] && Run([]) == START && SpansOf([]) == [] && Recorded([], [])
  {
  }

  lemma GatewayOptimal(steps: seq<Step>, order: seq<LayoutSpan>, smg: seq<LayoutSpan>, gateway: seq<LayoutSpan>)
    requires Recorded(Run(steps).history, order + gateway) && StableSort(smg, gateway, StartOf)
    requires forall a :: a in order ==> a.pid != Smg
    requires forall a :: a in smg ==> Proper(SpanOf(a))
    ensures FewestLines(Run(steps).history, Smg, |LinesOf(Run(steps), Smg)|)
  {
    hide Run, FewestLines, LinesOf, Precedes;
    var h := Run(steps).history;
    assert forall i :: 0 <= i < |order| ==> order[i] in order && h[i].pid == order[i].pid != Smg;
    forall i | 0 <= i < |h| && h[i].pid == Smg ensures Proper(h[i].span) {
      assert gateway[i - |order|] in gateway;
    }
    assert InStartOrder(h, Smg);
    StartOrderIsOptimal(steps, Smg);
  }
}
