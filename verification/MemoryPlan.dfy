/** The two-pass reuse planner of the code generator: drop pointless trailing lines, then plan
    every remaining memory line with the state of the subgraph it stands in. */
module MemoryPlan {

  datatype Line =
    | Planning(name: string)              // still to be planned
    | Planned(name: string, state: nat)   // what plan(state) left in its place
    | EnterSubgraph
    | ExitSubgraph
    | Other(text: string)

  datatype Outcome = Done | IndexError | AssertionError

  // ---------------------------------------------------------------- pass one: trimming

  predicate Pointless(line: Line, outNames: set<string>) {
    line.Planning? && line.name !in outNames
  }

  function Trimmed(lines: seq<Line>, outNames: set<string>): seq<Line> {
    if lines != [] && Pointless(lines[|lines| - 1], outNames) then Trimmed(lines[..|lines| - 1], outNames) else lines
  }

  /** Only planning lines that name no output go, and all of them at the end go. */
  lemma {:induction false} TrimmedExactly(lines: seq<Line>, outNames: set<string>)
    ensures var t := Trimmed(lines, outNames);
      && t <= lines
      && (forall i :: |t| <= i < |lines| ==> lines[i].Planning? && lines[i].name !in outNames)
      && (t != [] ==> !(t[|t| - 1].Planning? && t[|t| - 1].name !in outNames))
    decreases |lines|
  {
    if lines != [] && Pointless(lines[|lines| - 1], outNames) {
      TrimmedExactly(lines[..|lines| - 1], outNames);
    }
  }

  // ---------------------------------------------------------------- subgraph instances

  /** Subgraphs open before line i, the whole program counted as one. */
  function Depth(lines: seq<Line>, i: nat): int
    requires i <= |lines|
  {
    if i == 0 then 1 else
      Depth(lines, i - 1) + match lines[i - 1] { case EnterSubgraph => 1 case ExitSubgraph => -1 case _ => 0 }
  }

  /** The program itself is the subgraph entered at -1, from depth 0. */
  function EntryDepth(lines: seq<Line>, e: int): int
    requires -1 <= e < |lines|
  {
    if e == -1 then 0 else Depth(lines, e)
  }

  /** The subgraph entered at e has not been left when line i is reached. */
  ghost predicate Open(lines: seq<Line>, e: int, i: nat)
    requires i <= |lines|
  {
    && -1 <= e < i
    && (e >= 0 ==> lines[e] == EnterSubgraph)
    && (forall k: nat :: e < k <= i ==> Depth(lines, k) > EntryDepth(lines, e))
  }

  /** Line i stands directly in the subgraph entered at e. */
  ghost predicate Innermost(lines: seq<Line>, e: int, i: nat)
    requires i <= |lines|
  {
    Open(lines, e, i) && forall d :: Open(lines, d, i) ==> d <= e
  }

  /** The planning state of the subgraph entered at e: states are numbered as they are created. */
  function StateOf(lines: seq<Line>, e: int): nat {
    if 0 <= e <= |lines| then 1 + EntersBefore(lines, e) else 0
  }

  function EntersBefore(lines: seq<Line>, i: nat): nat
    requires i <= |lines|
  {
    if i == 0 then 0 else EntersBefore(lines, i - 1) + if lines[i - 1] == EnterSubgraph then 1 else 0
  }

  lemma {:induction false} EntersGrow(lines: seq<Line>, i: nat, j: nat)
    requires i < j <= |lines|
    ensures EntersBefore(lines, i) <= EntersBefore(lines, j)
    ensures lines[i] == EnterSubgraph ==> EntersBefore(lines, i) < EntersBefore(lines, j)
    decreases j
  {
    if i < j - 1 {
      EntersGrow(lines, i, j - 1);
    }
  }

  /** Different subgraph instances have different states. */
  lemma StatesDiffer(lines: seq<Line>, d: int, e: int)
    requires -1 <= d < e < |lines|
    requires (d >= 0 ==> lines[d] == EnterSubgraph) && lines[e] == EnterSubgraph
    ensures StateOf(lines, d) != StateOf(lines, e)
  {
    if d >= 0 {
      EntersGrow(lines, d, e);
    }
  }

  /** What the second pass makes of the lines: every planning line is planned once, with the state
      of the subgraph it stands in, and nothing else changes. */
  ghost predicate PlannedByInstance(lines: seq<Line>, after: seq<Line>) {
    && |after| == |lines|
    && (forall i :: 0 <= i < |lines| && !lines[i].Planning? ==> after[i] == lines[i])
    && (forall i :: 0 <= i < |lines| && lines[i].Planning? ==>
          exists e :: Innermost(lines, e, i) && after[i] == Planned(lines[i].name, StateOf(lines, e)))
  }

  lemma InnermostUnique(lines: seq<Line>, d: int, e: int, i: nat)
    requires i <= |lines| && Innermost(lines, d, i) && Innermost(lines, e, i)
    ensures d == e
  {
  }

  /** Two planned lines share a planning state exactly when they stand in the same subgraph instance. */
  lemma SharedStateExactly(lines: seq<Line>, after: seq<Line>, i: nat, j: nat, d: int, e: int)
    requires PlannedByInstance(lines, after)
    requires i < |lines| && j < |lines| && lines[i].Planning? && lines[j].Planning?
    requires Innermost(lines, d, i) && Innermost(lines, e, j)
    ensures after[i].Planned? && after[j].Planned?
    ensures after[i].state == after[j].state <==> d == e
  {
    var d' :| Innermost(lines, d', i) && after[i] == Planned(lines[i].name, StateOf(lines, d'));
    var e' :| Innermost(lines, e', j) && after[j] == Planned(lines[j].name, StateOf(lines, e'));
    InnermostUnique(lines, d, d', i);
    InnermostUnique(lines, e, e', j);
    if d < e {
      StatesDiffer(lines, d, e);
    } else if e < d {
      StatesDiffer(lines, e, d);
    }
  }

  // ---------------------------------------------------------------- pass two: the stack

  /** When the pass gets through: a planning or exit line always finds an open subgraph, and
      exactly one is open at the end. */
  ghost predicate StackSuffices(lines: seq<Line>) {
    NeverStarved(lines, |lines|) && Depth(lines, |lines|) == 1
  }

  ghost predicate NeverStarved(lines: seq<Line>, n: nat)
    requires n <= |lines|
  {
    forall i :: 0 <= i < n && (lines[i].Planning? || lines[i] == ExitSubgraph) ==> Depth(lines, i) >= 1
  }

  /** The final assertion fails: some subgraph was never left. */
  ghost predicate LeftOpen(lines: seq<Line>) {
    NeverStarved(lines, |lines|) && Depth(lines, |lines|) > 1
  }

  lemma {:induction false} DepthOfPrefix(lines: seq<Line>, n: nat, i: nat)
    requires i <= n <= |lines|
    ensures Depth(lines[..n], i) == Depth(lines, i)
    decreases i
  {
    if i > 0 {
      DepthOfPrefix(lines, n, i - 1);
    }
  }

  /** Trimming never changes how the second pass ends. */
  lemma {:induction false} TrimmingKeepsOutcome(lines: seq<Line>, outNames: set<string>)
    ensures StackSuffices(Trimmed(lines, outNames)) <==> StackSuffices(lines)
    ensures LeftOpen(Trimmed(lines, outNames)) <==> LeftOpen(lines)
    decreases |lines|
  {
    if lines != [] && Pointless(lines[|lines| - 1], outNames) {
      var n := |lines| - 1;
      TrimmingKeepsOutcome(lines[..n], outNames);
      forall i: nat | i <= n ensures Depth(lines[..n], i) == Depth(lines, i) {
        DepthOfPrefix(lines, n, i);
      }
      assert Depth(lines, n + 1) == Depth(lines, n);
      assert NeverStarved(lines, n + 1) <==> NeverStarved(lines[..n], n) && Depth(lines, n) >= 1 by {
        assert forall i :: 0 <= i < n ==> lines[..n][i] == lines[i];
      }
    }
  }

  /** The stack holds the open subgraphs, outermost first; entry m was pushed from depth m. */
  ghost predicate StackHolds(lines: seq<Line>, i: nat, opens: seq<int>)
    requires i <= |lines|
  {
    && |opens| == Depth(lines, i)
    && (forall m :: 0 <= m < |opens| ==> Open(lines, opens[m], i) && EntryDepth(lines, opens[m]) == m)
    && (forall e :: Open(lines, e, i) ==> e in opens)
    && (forall m, n :: 0 <= m < n < |opens| ==> opens[m] < opens[n])
  }

  lemma StackAtStart(lines: seq<Line>)
    ensures StackHolds(lines, 0, [-1])
    ensures NeverStarved(lines, 0) && EntersBefore(lines, 0) == 0
  {
  }

  lemma StaysOpen(lines: seq<Line>, e: int, i: nat)
    requires i < |lines| && -1 <= e < i
    ensures Open(lines, e, i + 1) <==> Open(lines, e, i) && Depth(lines, i + 1) > EntryDepth(lines, e)
  {
  }

  lemma OnEnter(lines: seq<Line>, i: nat, opens: seq<int>)
    requires i < |lines| && lines[i] == EnterSubgraph && StackHolds(lines, i, opens)
    ensures StackHolds(lines, i + 1, opens + [i])
  {
    hide Depth;
    DepthStep(lines, i);
    forall e | -1 <= e < i ensures Open(lines, e, i + 1) <==> Open(lines, e, i) && Depth(lines, i + 1) > EntryDepth(lines, e) {
      StaysOpen(lines, e, i);
    }
  }

  lemma OnExit(lines: seq<Line>, i: nat, opens: seq<int>)
    requires i < |lines| && lines[i] == ExitSubgraph && StackHolds(lines, i, opens) && opens != []
    ensures StackHolds(lines, i + 1, opens[..|opens| - 1])
  {
    hide Depth;
    DepthStep(lines, i);
    forall e | -1 <= e < i ensures Open(lines, e, i + 1) <==> Open(lines, e, i) && Depth(lines, i + 1) > EntryDepth(lines, e) {
      StaysOpen(lines, e, i);
    }
  }

  lemma OnOther(lines: seq<Line>, i: nat, opens: seq<int>)
    requires i < |lines| && lines[i] != EnterSubgraph && lines[i] != ExitSubgraph && StackHolds(lines, i, opens)
    ensures StackHolds(lines, i + 1, opens)
    ensures opens != [] ==> Innermost(lines, opens[|opens| - 1], i)
  {
    hide Depth;
    DepthStep(lines, i);
    forall e | -1 <= e < i ensures Open(lines, e, i + 1) <==> Open(lines, e, i) && Depth(lines, i + 1) > EntryDepth(lines, e) {
      StaysOpen(lines, e, i);
    }
  }

  lemma DepthStep(lines: seq<Line>, i: nat)
    requires i < |lines|
    ensures Depth(lines, i + 1)
         == Depth(lines, i) + match lines[i] { case EnterSubgraph => 1 case ExitSubgraph => -1 case _ => 0 }
  {
  }

  /** The bookkeeping of the pass at line i, read off the stack. */
  lemma StackTells(lines: seq<Line>, i: nat, opens: seq<int>)
    requires i < |lines| && StackHolds(lines, i, opens)
    ensures EntersBefore(lines, i + 1) == EntersBefore(lines, i) + if lines[i] == EnterSubgraph then 1 else 0
    ensures StateOf(lines, i) == 1 + EntersBefore(lines, i)
    ensures opens != [] ==> -1 <= opens[|opens| - 1] < i
    ensures NeverStarved(lines, i) && (opens != [] || (!lines[i].Planning? && lines[i] != ExitSubgraph)) ==> NeverStarved(lines, i + 1)
    ensures opens == [] && (lines[i].Planning? || lines[i] == ExitSubgraph) ==> !NeverStarved(lines, |lines|)
  {
    assert opens != [] ==> Open(lines, opens[|opens| - 1], i);
  }

  lemma StackAtEnd(lines: seq<Line>, opens: seq<int>)
    requires StackHolds(lines, |lines|, opens)
    ensures |opens| == Depth(lines, |lines|)
  {
  }

  class PythonWrapperCodegen {
    var lines: seq<Line>

    method MemoryPlanReuse(outNames: set<string>) returns (outcome: Outcome)
      modifies this
      ensures outcome == Done <==> StackSuffices(old(lines))
      ensures outcome == AssertionError <==> LeftOpen(old(lines))
      ensures outcome == Done ==> PlannedByInstance(Trimmed(old(lines), outNames), lines)
    {
      while lines != [] && lines[|lines| - 1].Planning? && lines[|lines| - 1].name !in outNames
        invariant Trimmed(lines, outNames) == Trimmed(old(lines), outNames)
        decreases |lines|
      {
        lines := lines[..|lines| - 1];
      }
      TrimmingKeepsOutcome(old(lines), outNames);
      outcome := PlanLines();
    }

    method PlanLines() returns (outcome: Outcome)
      modifies this
      ensures outcome == Done <==> StackSuffices(old(lines))
      ensures outcome == AssertionError <==> LeftOpen(old(lines))
      ensures outcome == Done ==> PlannedByInstance(old(lines), lines)
      ensures outcome == Done ==> |lines| == |old(lines)| && forall i :: 0 <= i < |lines| ==>
        if old(lines)[i].Planning? then lines[i].Planned? && lines[i].name == old(lines)[i].name else lines[i] == old(lines)[i]
    {
      hide Depth, Open, Innermost, EntersBefore, NeverStarved, StackHolds;
      ghost var was := lines;
      var planningStates: seq<nat>, pastPlanningStates: seq<nat> := [0], [];
      var created := 1;
      ghost var opens := [-1];
      StackAtStart(was);
      for i := 0 to |lines|
        invariant |lines| == |was| && lines[i..] == was[i..]
        invariant StackHolds(was, i, opens)
        invariant |planningStates| == |opens|
        invariant forall m :: 0 <= m < |opens| ==> planningStates[m] == StateOf(was, opens[m])
        invariant created == 1 + EntersBefore(was, i)
        invariant NeverStarved(was, i)
        invariant forall k :: 0 <= k < i && !was[k].Planning? ==> lines[k] == was[k]
        invariant forall k :: 0 <= k < i && was[k].Planning? ==>
          exists e :: Innermost(was, e, k) && lines[k] == Planned(was[k].name, StateOf(was, e))
      {
        var line := lines[i];
        assert line == was[i] by { assert lines[i..][0] == was[i..][0]; }
        StackTells(was, i, opens);
        match line
        case Planning(name) =>
          OnOther(was, i, opens);
          if |planningStates| == 0 {
            return IndexError;
          }
          lines := lines[i := Planned(name, planningStates[|planningStates| - 1])];
        case EnterSubgraph =>
          OnEnter(was, i, opens);
          planningStates, created := planningStates + [created], created + 1;
          opens := opens + [i];
        case ExitSubgraph =>
          if |planningStates| == 0 {
            return IndexError;
          }
          OnExit(was, i, opens);
          pastPlanningStates := pastPlanningStates + [planningStates[|planningStates| - 1]];
          planningStates := planningStates[..|planningStates| - 1];
          opens := opens[..|opens| - 1];
        case _ =>
          OnOther(was, i, opens);
      }
      StackAtEnd(was, opens);
      if |planningStates| == 0 {
        return IndexError;
      }
      pastPlanningStates := pastPlanningStates + [planningStates[|planningStates| - 1]];
      planningStates := planningStates[..|planningStates| - 1];
      if |planningStates| != 0 {
        return AssertionError;
      }
      return Done;
    }
  }

  // ---------------------------------------------------------------- balanced lines

  /** Bracket structure: lines without brackets, a bracketed block, or two blocks in a row. */
  datatype Block = Flat(line: Line) | Subgraph(body: Block) | Then(first: Block, second: Block) | Empty

  function LinesOf(b: Block): seq<Line> {
    match b
    case Empty => []
    case Flat(line) => if line == EnterSubgraph || line == ExitSubgraph then [] else [line]
    case Subgraph(body) => [EnterSubgraph] + LinesOf(body) + [ExitSubgraph]
    case Then(first, second) => LinesOf(first) + LinesOf(second)
  }

  /** Lines at..at + n neither fall below their starting depth nor end above it. */
  ghost predicate Level(lines: seq<Line>, at: nat, n: nat)
    requires at + n <= |lines|
  {
    && Depth(lines, at + n) == Depth(lines, at)
    && (forall i: nat :: at <= i <= at + n ==> Depth(lines, i) >= Depth(lines, at))
    && (forall i: nat :: at <= i < at + n && lines[i] == ExitSubgraph ==> Depth(lines, i) > Depth(lines, at))
  }

  lemma FlatLevel(lines: seq<Line>, at: nat, n: nat)
    requires n <= 1 && at + n <= |lines|
    requires n == 1 ==> lines[at] != EnterSubgraph && lines[at] != ExitSubgraph
    ensures Level(lines, at, n)
  {
    if n == 1 {
      DepthStep(lines, at);
    }
  }

  lemma SubgraphLevel(lines: seq<Line>, at: nat, n: nat)
    requires n >= 2 && at + n <= |lines| && Level(lines, at + 1, n - 2)
    requires lines[at] == EnterSubgraph && lines[at + n - 1] == ExitSubgraph
    ensures Level(lines, at, n)
  {
    DepthStep(lines, at);
    DepthStep(lines, at + n - 1);
  }

  lemma ThenLevel(lines: seq<Line>, at: nat, m: nat, n: nat)
    requires m <= n && at + n <= |lines| && Level(lines, at, m) && Level(lines, at + m, n - m)
    ensures Level(lines, at, n)
  {
  }

  lemma {:induction false} BlockLevel(pre: seq<Line>, b: Block, post: seq<Line>)
    ensures Level(pre + LinesOf(b) + post, |pre|, |LinesOf(b)|)
    decreases b
  {
    hide Level, Depth;
    var lines := pre + LinesOf(b) + post;
    match b
    case Empty =>
      FlatLevel(lines, |pre|, 0);
    case Flat(line) =>
      FlatLevel(lines, |pre|, |LinesOf(b)|);
    case Subgraph(body) =>
      assert lines == (pre + [EnterSubgraph]) + LinesOf(body) + ([ExitSubgraph] + post);
      BlockLevel(pre + [EnterSubgraph], body, [ExitSubgraph] + post);
      SubgraphLevel(lines, |pre|, |LinesOf(b)|);
    case Then(first, second) =>
      assert lines == pre + LinesOf(first) + (LinesOf(second) + post);
      assert lines == (pre + LinesOf(first)) + LinesOf(second) + post;
      BlockLevel(pre, first, LinesOf(second) + post);
      BlockLevel(pre + LinesOf(first), second, post);
      ThenLevel(lines, |pre|, |LinesOf(first)|, |LinesOf(b)|);
  }

  /** Enters and exits match like brackets. */
  ghost predicate Balanced(lines: seq<Line>) {
    exists b: Block :: LinesOf(b) == lines
  }

  /** No exit line leaves the program itself. */
  ghost predicate RootKept(lines: seq<Line>) {
    forall i :: 0 <= i < |lines| && lines[i] == ExitSubgraph ==> Depth(lines, i) >= 2
  }

  lemma BalancedIsLevel(lines: seq<Line>, b: Block)
    requires LinesOf(b) == lines
    ensures Level(lines, 0, |lines|)
  {
    assert [] + lines + [] == lines;
    BlockLevel([], b, []);
  }

  /** The exit that closes the subgraph entered at `at`. */
  lemma ClosingExit(lines: seq<Line>, at: nat, n: nat) returns (k: nat)
    requires n > 0 && at + n <= |lines| && Level(lines, at, n) && lines[at] == EnterSubgraph
    ensures at < k < at + n && lines[k] == ExitSubgraph
    ensures Level(lines, at + 1, k - at - 1) && Level(lines, k + 1, at + n - k - 1)
  {
    hide Depth;
    DepthStep(lines, at);
    k := at + 1;
    while Depth(lines, k + 1) > Depth(lines, at)
      invariant at < k < at + n
      decreases at + n - k
      invariant forall i: nat :: at < i <= k ==> Depth(lines, i) > Depth(lines, at)
    {
      k := k + 1;
    }
    DepthStep(lines, k);
    forall i: nat | at < i < k && lines[i] == ExitSubgraph ensures Depth(lines, i) > Depth(lines, at + 1) {
      DepthStep(lines, i);
    }
  }

  lemma SkipLine(lines: seq<Line>, at: nat, n: nat)
    requires n > 0 && at + n <= |lines| && Level(lines, at, n) && lines[at] != EnterSubgraph
    ensures lines[at] != ExitSubgraph && Level(lines, at + 1, n - 1)
  {
    DepthStep(lines, at);
  }

  lemma CutAt(lines: seq<Line>, at: nat, k: nat, n: nat)
    requires at < k < at + n <= |lines|
    ensures lines[at..at + n] == [lines[at]] + lines[at + 1..k] + [lines[k]] + lines[k + 1..at + n]
  {
  }

  lemma {:induction false} LevelIsBlock(lines: seq<Line>, at: nat, n: nat) returns (b: Block)
    requires at + n <= |lines| && Level(lines, at, n)
    ensures LinesOf(b) == lines[at..at + n]
    decreases n
  {
    hide Level, Depth, LinesOf;
    if n == 0 {
      BlockLines(Empty, Empty, Other(""));
      return Empty;
    }
    if lines[at] == EnterSubgraph {
      var k := ClosingExit(lines, at, n);
      var body := LevelIsBlock(lines, at + 1, k - at - 1);
      var rest := LevelIsBlock(lines, k + 1, at + n - k - 1);
      b := Then(Subgraph(body), rest);
      BlockLines(body, rest, lines[at]);
      CutAt(lines, at, k, n);
    } else {
      SkipLine(lines, at, n);
      var rest := LevelIsBlock(lines, at + 1, n - 1);
      b := Then(Flat(lines[at]), rest);
      BlockLines(Empty, rest, lines[at]);
      assert lines[at..at + n] == [lines[at]] + lines[at + 1..at + n];
    }
  }

  lemma BlockLines(body: Block, rest: Block, line: Line)
    ensures LinesOf(Empty) == []
    ensures LinesOf(Then(Subgraph(body), rest)) == [EnterSubgraph] + LinesOf(body) + [ExitSubgraph] + LinesOf(rest)
    ensures line != EnterSubgraph && line != ExitSubgraph ==> LinesOf(Then(Flat(line), rest)) == [line] + LinesOf(rest)
  {
  }

  lemma RootKeptIsLevel(lines: seq<Line>)
    requires RootKept(lines) && Depth(lines, |lines|) == 1
    ensures Level(lines, 0, |lines|)
  {
    StaysAboveRoot(lines, |lines|);
  }

  lemma {:induction false} StaysAboveRoot(lines: seq<Line>, n: nat)
    requires RootKept(lines) && n <= |lines|
    ensures forall i: nat :: i <= n ==> Depth(lines, i) >= 1
    decreases n
  {
    if n > 0 {
      StaysAboveRoot(lines, n - 1);
    }
  }

  /** The final assertion passes balanced lines and some others: of the lines it accepts, the
      balanced ones are those in which no exit leaves the program itself. */
  lemma BalancedExactly(lines: seq<Line>)
    ensures Balanced(lines) <==> StackSuffices(lines) && RootKept(lines)
  {
    hide Depth, Level;
    if b: Block :| LinesOf(b) == lines {
      BalancedIsLevel(lines, b);
      LevelSuffices(lines);
    }
    if StackSuffices(lines) && RootKept(lines) {
      RootKeptIsLevel(lines);
      var b := LevelIsBlock(lines, 0, |lines|);
      assert lines[0..|lines|] == lines;
    }
  }

  lemma LevelSuffices(lines: seq<Line>)
    requires Level(lines, 0, |lines|)
    ensures StackSuffices(lines) && RootKept(lines)
  {
  }

  /** An exit paid for by the root state and a later enter cancel out. */
  lemma UnbalancedAccepted()
    ensures StackSuffices([ExitSubgraph, EnterSubgraph]) && !Balanced([ExitSubgraph, EnterSubgraph])
  {
    var odd := [ExitSubgraph, EnterSubgraph];
    DepthStep(odd, 0);
    DepthStep(odd, 1);
    BalancedExactly(odd);
    assert odd[0] == ExitSubgraph;
  }
}
