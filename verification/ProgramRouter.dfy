/** The router's periodic balancing of token load: pausing programs on a backend that is over its
    capacity, and resuming paused programs where there is room. */
module ProgramRouter {
  import opened Sequences
  import opened Sorting

  /** Tokens reserved for every program on a backend. */
  const BUFFER_PER_PROGRAM := 100

  datatype Program = Program(id: string, tokens: nat, marked: bool)

  // ---------------------------------------------------------------- load

  function Tokens(programs: seq<Program>): nat {
    if programs == [] then 0 else Tokens(programs[..|programs| - 1]) + programs[|programs| - 1].tokens
  }

  /** int(reasoning + coefficient * acting), for token counts. */
  function ActiveTokens(coefficient: real, reasoning: nat, acting: nat): int {
    (reasoning as real + coefficient * acting as real).Floor
  }

  lemma ActiveGrows(coefficient: real, reasoning: nat, acting: nat, more: nat)
    requires 0.0 <= coefficient && acting <= more
    ensures ActiveTokens(coefficient, reasoning, acting) <= ActiveTokens(coefficient, reasoning, more)
  {
    var extra := (more - acting) as real;
    assert more as real == acting as real + extra;
    assert coefficient * (acting as real + extra) == coefficient * acting as real + coefficient * extra;
    assert 0.0 <= coefficient * extra;
  }

  lemma ActiveSum(coefficient: real, reasoning: nat, more: nat, acting: nat)
    ensures ActiveTokens(coefficient, reasoning + more, acting) == ActiveTokens(coefficient, reasoning, acting) + more
  {
    var x := reasoning as real + coefficient * acting as real;
    assert (reasoning + more) as real + coefficient * acting as real == x + more as real;
  }

  lemma ActiveAtOne(reasoning: nat, acting: nat)
    ensures ActiveTokens(1.0, reasoning, acting) == reasoning + acting
  {
    assert reasoning as real + 1.0 * acting as real == (reasoning + acting) as real;
  }

  lemma NoTokens()
    ensures Tokens([]) == 0
  {
  }

  lemma TokensPush(programs: seq<Program>, p: Program)
    ensures Tokens(programs + [p]) == Tokens(programs) + p.tokens
  {
    assert (programs + [p])[..|programs|] == programs;
  }

  lemma {:induction false} TokensWithout(programs: seq<Program>, i: nat)
    requires i < |programs|
    ensures Tokens(programs) == Tokens(Without(programs, i)) + programs[i].tokens
    decreases |programs|
  {
    var n := |programs| - 1;
    if i < n {
      TokensWithout(programs[..n], i);
      assert Without(programs, i) == Without(programs[..n], i) + [programs[n]];
      TokensPush(Without(programs[..n], i), programs[n]);
    } else {
      assert Without(programs, i) == programs[..n];
    }
  }

  function MarkAll(programs: seq<Program>): seq<Program> {
    seq(|programs|, i requires 0 <= i < |programs| => programs[i].(marked := true))
  }

  function Unmarked(programs: seq<Program>): seq<Program> {
    if programs == [] then [] else
      var p := programs[|programs| - 1];
      Unmarked(programs[..|programs| - 1]) + if p.marked then [] else [p]
  }

  lemma {:induction false} UnmarkedAre(programs: seq<Program>)
    ensures forall p :: p in Unmarked(programs) ==> p in programs && !p.marked
    decreases |programs|
  {
    if programs != [] {
      UnmarkedAre(programs[..|programs| - 1]);
    }
  }

  /** Marking a program takes it out of the unmarked ones and changes nothing else. */
  lemma MarkOne(programs: seq<Program>, i: nat) returns (j: nat)
    requires i < |programs| && !programs[i].marked
    ensures var after := programs[i := programs[i].(marked := true)];
      && Tokens(after) == Tokens(programs) && MarkAll(after) == MarkAll(programs)
      && j < |Unmarked(programs)| && Unmarked(programs)[j] == programs[i]
      && Unmarked(after) == Without(Unmarked(programs), j)
  {
    hide MarkAll, Tokens, Unmarked, Without;
    SameMarked(programs, i);
    SameTokens(programs, i);
    j := TakeUnmarked(programs, i);
  }

  lemma {:induction false} SameTokens(programs: seq<Program>, i: nat)
    requires i < |programs|
    ensures Tokens(programs[i := programs[i].(marked := true)]) == Tokens(programs)
    decreases |programs|
  {
    var n := |programs| - 1;
    var after := programs[i := programs[i].(marked := true)];
    if i < n {
      SameTokens(programs[..n], i);
      assert after[..n] == programs[..n][i := programs[i].(marked := true)];
    } else {
      assert after[..n] == programs[..n];
    }
  }

  lemma {:induction false} TakeUnmarked(programs: seq<Program>, i: nat) returns (j: nat)
    requires i < |programs| && !programs[i].marked
    ensures var after := programs[i := programs[i].(marked := true)];
      && j < |Unmarked(programs)| && Unmarked(programs)[j] == programs[i]
      && Unmarked(after) == Without(Unmarked(programs), j)
    decreases |programs|
  {
    var n := |programs| - 1;
    var after := programs[i := programs[i].(marked := true)];
    if i < n {
      j := TakeUnmarked(programs[..n], i);
      assert after[..n] == programs[..n][i := programs[i].(marked := true)];
    } else {
      assert after[..n] == programs[..n];
      j := |Unmarked(programs[..n])|;
    }
  }

  lemma SameMarked(programs: seq<Program>, i: nat)
    requires i < |programs|
    ensures MarkAll(programs[i := programs[i].(marked := true)]) == MarkAll(programs)
  {
  }

  lemma {:induction false} NoneUnmarked(programs: seq<Program>)
    requires forall i :: 0 <= i < |programs| ==> programs[i].marked
    ensures Unmarked(programs) == [] && MarkAll(programs) == programs
    decreases |programs|
  {
    if programs != [] {
      NoneUnmarked(programs[..|programs| - 1]);
    }
    assert forall i :: 0 <= i < |programs| ==> programs[i].(marked := true) == programs[i];
  }

  // ---------------------------------------------------------------- pausing

  predicate Eligible(p: Program, unmarked: bool) {
    !unmarked || !p.marked
  }

  /** The first of the programs with the fewest tokens, marked ones not counted if `unmarked` is set. */
  method Smallest(programs: seq<Program>, unmarked: bool) returns (found: bool, i: nat)
    ensures !found ==> forall k :: 0 <= k < |programs| ==> !Eligible(programs[k], unmarked)
    ensures found ==> i < |programs| && Eligible(programs[i], unmarked)
    ensures found ==> forall k :: 0 <= k < |programs| && Eligible(programs[k], unmarked) ==>
      programs[i].tokens <= programs[k].tokens && (k < i ==> programs[i].tokens < programs[k].tokens)
  {
    found, i := false, 0;
    for n := 0 to |programs|
      invariant !found ==> forall k :: 0 <= k < n ==> !Eligible(programs[k], unmarked)
      invariant found ==> i < n && Eligible(programs[i], unmarked)
      invariant found ==> forall k :: 0 <= k < n && Eligible(programs[k], unmarked) ==>
        programs[i].tokens <= programs[k].tokens && (k < i ==> programs[i].tokens < programs[k].tokens)
    {
      if Eligible(programs[n], unmarked) && (!found || programs[n].tokens < programs[i].tokens) {
        found, i := true, n;
      }
    }
  }

  /** Smallest first, and nothing smaller was kept. */
  ghost predicate SmallestFirst(paused: seq<Program>, kept: seq<Program>) {
    && (forall i, j :: 0 <= i < j < |paused| ==> paused[i].tokens <= paused[j].tokens)
    && (forall i, k :: 0 <= i < |paused| && 0 <= k < |kept| ==> paused[i].tokens <= kept[k].tokens)
  }

  class BackendState {
    const totalTokensCapacity: int
    const toolCoefficient: real
    var sharedTokens: int
    var futurePausedTokens: int
    /** The programs on this backend by what they are doing, each in the order of the dictionary. */
    var reasoning: seq<Program>
    var acting: seq<Program>

    constructor (totalTokensCapacity: int, toolCoefficient: real)
      ensures this.totalTokensCapacity == totalTokensCapacity && this.toolCoefficient == toolCoefficient
      ensures sharedTokens == futurePausedTokens == 0 && reasoning == acting == []
    {
      this.totalTokensCapacity, this.toolCoefficient := totalTokensCapacity, toolCoefficient;
      sharedTokens, futurePausedTokens, reasoning, acting := 0, 0, [], [];
    }

    /** The capacity that would remain with these programs. */
    function RemainingWith(reasoning: seq<Program>, acting: seq<Program>): int
      reads `sharedTokens
    {
      totalTokensCapacity - (ActiveTokens(toolCoefficient, Tokens(reasoning), Tokens(acting)) - sharedTokens
                             + (|reasoning| + |acting|) * BUFFER_PER_PROGRAM)
    }

    function RemainingCapacity(): int
      reads this
    {
      RemainingWith(reasoning, acting)
    }

    /** An empty backend without shared tokens has its whole capacity left. */
    lemma EmptyBackend()
      requires sharedTokens == 0
      ensures RemainingWith([], []) == totalTokensCapacity
    {
    }

    /** Every further shared token leaves one token more. */
    twostate lemma SharedTokensHelp(reasoning: seq<Program>, acting: seq<Program>)
      ensures RemainingWith(reasoning, acting) - old(RemainingWith(reasoning, acting)) == sharedTokens - old(sharedTokens)
    {
    }

    /** A further program that reasons takes exactly what is required for it. */
    lemma ReasoningTakes(reasoning: seq<Program>, acting: seq<Program>, p: Program)
      ensures RemainingWith(reasoning + [p], acting) == RemainingWith(reasoning, acting) - p.tokens - BUFFER_PER_PROGRAM
      ensures RemainingWith(reasoning + [p], acting) == RemainingWith(reasoning, acting) - Required(p)
    {
      hide Tokens;
      TokensPush(reasoning, p);
      ActiveSum(toolCoefficient, Tokens(reasoning), p.tokens, Tokens(acting));
    }

    /** At coefficient 1 a further acting program takes as much; at any other, one that is alone takes
        its tokens times the coefficient, rounded down, and the buffer. */
    lemma ActingTakes(reasoning: seq<Program>, acting: seq<Program>, p: Program)
      ensures toolCoefficient == 1.0 ==>
        RemainingWith(reasoning, acting + [p]) == RemainingWith(reasoning, acting) - p.tokens - BUFFER_PER_PROGRAM
      ensures RemainingWith([], [p]) == RemainingWith([], []) - (toolCoefficient * p.tokens as real).Floor - BUFFER_PER_PROGRAM
    {
      hide Tokens;
      TokensPush(acting, p);
      TokensPush([], p);
      assert [] + [p] == [p];
      NoTokens();
      ActiveAtOne(Tokens(reasoning), Tokens(acting));
      ActiveAtOne(Tokens(reasoning), Tokens(acting) + p.tokens);
    }

    /** Every pause frees at least the buffer of the program. */
    lemma PausingHelps(acting: seq<Program>, i: nat)
      requires 0.0 <= toolCoefficient && i < |acting|
      ensures RemainingWith(reasoning, acting) + BUFFER_PER_PROGRAM <= RemainingWith(reasoning, Without(acting, i))
    {
      hide ActiveTokens, Tokens;
      TokensWithout(acting, i);
      ActiveGrows(toolCoefficient, Tokens(reasoning), Tokens(Without(acting, i)), Tokens(acting));
    }

    lemma {:induction false} FewerIsSafer(acting: seq<Program>)
      requires 0.0 <= toolCoefficient
      ensures RemainingWith(reasoning, acting) <= RemainingWith(reasoning, [])
      decreases |acting|
    {
      hide ActiveTokens, Tokens;
      if acting != [] {
        PausingHelps(acting, |acting| - 1);
        FewerIsSafer(Without(acting, |acting| - 1));
      }
    }

    lemma SameRemaining(reasoning: seq<Program>, reasoning': seq<Program>, acting: seq<Program>, acting': seq<Program>)
      requires Tokens(reasoning) == Tokens(reasoning') && |reasoning| == |reasoning'|
      requires Tokens(acting) == Tokens(acting') && |acting| == |acting'|
      ensures RemainingWith(reasoning, acting) == RemainingWith(reasoning', acting')
    {
    }

    /** By how much these programs exceed the capacity after the release of all marked ones, negative if
        they do not: what capacity_overflow measures when it includes future releases. */
    function OverflowWith(reasoning: seq<Program>, acting: seq<Program>): int
      reads this
    {
      0 - RemainingWith(reasoning, acting) - futurePausedTokens
    }

    /** _pause_until_safe.  What decides is whether the reasoning programs alone exceed the capacity.  If
        not, just as many acting programs are paused as needed, smallest first, and nothing is marked.
        If they do, every acting program is paused and every reasoning program is marked, smallest first,
        however small the overload: a mark does not change the remaining capacity that the loop looks
        at.  Every mark was needed exactly if all of them but the largest do not cover the overflow. */
    method PauseUntilSafe() returns (paused: seq<Program>, marked: seq<Program>)
      requires 0.0 <= toolCoefficient
      modifies this
      ensures sharedTokens == old(sharedTokens)
      ensures multiset(acting) + multiset(paused) == multiset(old(acting)) && SmallestFirst(paused, acting)
      ensures futurePausedTokens == old(futurePausedTokens) + Tokens(marked)
      ensures old(RemainingWith(reasoning, [])) < 0 ==>
        && acting == [] && reasoning == MarkAll(old(reasoning))
        && multiset(marked) == multiset(Unmarked(old(reasoning))) && SmallestFirst(marked, [])
        && RemainingWith(reasoning, acting) == old(RemainingWith(reasoning, [])) < 0
        && OverflowWith(reasoning, acting) == old(OverflowWith(reasoning, [])) - Tokens(marked)
      ensures old(RemainingWith(reasoning, [])) >= 0 ==>
        && RemainingWith(reasoning, acting) >= 0 && reasoning == old(reasoning) && marked == []
        && (paused != [] ==> RemainingWith(reasoning, acting + [paused[|paused| - 1]]) < 0)
      ensures EachMarkNeeded(marked, old(OverflowWith(reasoning, []))) <==>
        old(RemainingWith(reasoning, [])) >= 0 || OnlyLargestInExcess(Unmarked(old(reasoning)), old(OverflowWith(reasoning, [])))
    {
      hide Tokens, ActiveTokens, Unmarked, MarkAll, SmallestFirst, Without, EachMarkNeeded, OnlyLargestInExcess, Marking, Pausing, RemainingWith;
      paused, marked := [], [];
      NothingPaused(acting);
      NothingMarked(reasoning, 0);
      ghost var r0, a0, f0 := reasoning, acting, futurePausedTokens;
      while RemainingCapacity() < 0
        invariant sharedTokens == old(sharedTokens)
        invariant Pausing(a0, acting, paused)
        invariant Marking(r0, reasoning, marked)
        invariant RemainingCapacity() == RemainingWith(r0, acting)
        invariant futurePausedTokens == f0 + Tokens(marked)
        invariant (reasoning == r0 && marked == []) || (acting == [] && RemainingWith(r0, []) < 0)
        invariant paused != [] ==> RemainingWith(r0, acting + [paused[|paused| - 1]]) < 0
        decreases |acting|, |Unmarked(reasoning)|
      {
        FewerIsSafer(acting);
        var found, i := Smallest(acting, false);
        if found {
          PauseNext(a0, acting, paused, i);
          SameRemaining(r0, r0, acting, Without(acting, i) + [acting[i]]);
          paused := paused + [acting[i]];
          acting := Without(acting, i);
          continue;
        }
        assert acting == [] by { assert acting != [] ==> Eligible(acting[0], false); }
        found, i := Smallest(reasoning, true);
        if !found {
          break;
        }
        MarkNext(r0, reasoning, marked, i);
        SameRemaining(reasoning, reasoning[i := reasoning[i].(marked := true)], acting, acting);
        marked := marked + [reasoning[i]];
        futurePausedTokens := futurePausedTokens + reasoning[i].tokens;
        reasoning := reasoning[i := reasoning[i].(marked := true)];
      }
      FewerIsSafer(acting);
      PausingIs(a0, acting, paused);
      if RemainingCapacity() < 0 {
        AllMarked(r0, reasoning, marked, old(OverflowWith(reasoning, [])));
      } else {
        NothingMarked(reasoning, old(OverflowWith(reasoning, [])));
      }
    }
  }

  /** When each of the marks was made, those before it did not cover the overflow. */
  ghost predicate EachMarkNeeded(marked: seq<Program>, overflow: int) {
    forall i :: 0 <= i < |marked| ==> Tokens(marked[..i]) < overflow
  }

  function Largest(programs: seq<Program>): nat {
    if programs == [] then 0 else
      var l, t := Largest(programs[..|programs| - 1]), programs[|programs| - 1].tokens;
      if l < t then t else l
  }

  /** There is nothing to mark, or the programs without the largest do not cover the overflow. */
  predicate OnlyLargestInExcess(programs: seq<Program>, overflow: int) {
    programs == [] || Tokens(programs) - Largest(programs) < overflow
  }

  /** From r0 the programs `marked` have been marked, smallest first, and nothing else has changed. */
  ghost predicate Marking(r0: seq<Program>, reasoning: seq<Program>, marked: seq<Program>) {
    && MarkAll(reasoning) == MarkAll(r0)
    && multiset(Unmarked(reasoning)) + multiset(marked) == multiset(Unmarked(r0)) && SmallestFirst(marked, Unmarked(reasoning))
  }

  lemma NothingMarked(reasoning: seq<Program>, overflow: int)
    ensures Marking(reasoning, reasoning, []) && EachMarkNeeded([], overflow) && Tokens([]) == 0
  {
  }

  lemma MarkNext(r0: seq<Program>, reasoning: seq<Program>, marked: seq<Program>, i: nat)
    requires Marking(r0, reasoning, marked) && i < |reasoning| && !reasoning[i].marked
    requires forall k :: 0 <= k < |reasoning| && !reasoning[k].marked ==> reasoning[i].tokens <= reasoning[k].tokens
    ensures var after := reasoning[i := reasoning[i].(marked := true)];
      && Marking(r0, after, marked + [reasoning[i]]) && Tokens(after) == Tokens(reasoning)
      && |Unmarked(after)| < |Unmarked(reasoning)| && |after| == |reasoning|
    ensures Tokens(marked + [reasoning[i]]) == Tokens(marked) + reasoning[i].tokens
  {
    hide Tokens, Unmarked, MarkAll, SmallestFirst, Without;
    UnmarkedAre(reasoning);
    var j := MarkOne(reasoning, i);
    TakeOne(Unmarked(reasoning), marked, j, Unmarked(r0));
    TokensPush(marked, reasoning[i]);
  }

  lemma AllMarked(r0: seq<Program>, reasoning: seq<Program>, marked: seq<Program>, overflow: int)
    requires Marking(r0, reasoning, marked) && forall i :: 0 <= i < |reasoning| ==> reasoning[i].marked
    ensures reasoning == MarkAll(r0) && multiset(marked) == multiset(Unmarked(r0)) && SmallestFirst(marked, [])
    ensures EachMarkNeeded(marked, overflow) <==> OnlyLargestInExcess(Unmarked(r0), overflow)
  {
    hide Unmarked, MarkAll, EachMarkNeeded, OnlyLargestInExcess;
    NoneUnmarked(reasoning);
    NeededExactly(marked, Unmarked(r0), overflow);
  }

  lemma {:induction false} TokensOfPrefix(programs: seq<Program>, i: nat)
    requires i <= |programs|
    ensures Tokens(programs[..i]) <= Tokens(programs)
    decreases |programs|
  {
    if i < |programs| {
      TokensOfPrefix(programs[..|programs| - 1], i);
      assert programs[..|programs| - 1][..i] == programs[..i];
    } else {
      assert programs[..i] == programs;
    }
  }

  lemma {:induction false} LargestIs(programs: seq<Program>)
    requires programs != []
    ensures exists p :: p in programs && p.tokens == Largest(programs)
    ensures forall p :: p in programs ==> p.tokens <= Largest(programs)
    decreases |programs|
  {
    var n := |programs| - 1;
    assert programs == programs[..n] + [programs[n]];
    if n > 0 {
      LargestIs(programs[..n]);
      var p :| p in programs[..n] && p.tokens == Largest(programs[..n]);
      assert p in programs;
    }
    assert programs[n] in programs;
  }

  lemma {:induction false} TokensOfPermutation(some: seq<Program>, other: seq<Program>)
    requires multiset(some) == multiset(other)
    ensures Tokens(some) == Tokens(other)
    decreases |some|
  {
    hide Without, Tokens;
    if some == [] {
      assert |multiset(other)| == 0;
    } else {
      var n := |some| - 1;
      assert some[n] in multiset(some) && some[n] in multiset(other);
      var k :| 0 <= k < |other| && other[k] == some[n];
      TokensWithout(other, k);
      MultisetWithout(other, k);
      MultisetWithout(some, n);
      TokensWithout(some, n);
      SameRest(multiset(Without(some, n)), multiset(Without(other, k)), some[n]);
      assert |multiset(some)| == |some| && |multiset(Without(some, n))| == |Without(some, n)|;
      TokensOfPermutation(Without(some, n), Without(other, k));
    }
  }

  /** Marks made smallest first were all needed exactly if the last one was. */
  lemma NeededExactly(marked: seq<Program>, programs: seq<Program>, overflow: int)
    requires multiset(marked) == multiset(programs) && SmallestFirst(marked, [])
    ensures EachMarkNeeded(marked, overflow) <==> OnlyLargestInExcess(programs, overflow)
  {
    hide Tokens, Largest;
    TokensOfPermutation(marked, programs);
    assert |multiset(marked)| == |marked| && |multiset(programs)| == |programs|;
    if marked != [] {
      var n := |marked| - 1;
      LastIsLargest(marked, programs);
      TokensPush(marked[..n], marked[n]);
      assert marked == marked[..n] + [marked[n]];
      forall i | 0 <= i < |marked| ensures Tokens(marked[..i]) <= Tokens(marked[..n]) {
        TokensOfPrefix(marked[..n], i);
        assert marked[..n][..i] == marked[..i];
      }
    }
  }

  lemma LastIsLargest(marked: seq<Program>, programs: seq<Program>)
    requires multiset(marked) == multiset(programs) && SmallestFirst(marked, []) && marked != [] && programs != []
    ensures marked[|marked| - 1].tokens == Largest(programs)
  {
    LargestIs(programs);
    var p :| p in programs && p.tokens == Largest(programs);
    assert p in multiset(marked);
    var k :| 0 <= k < |marked| && marked[k] == p;
    assert marked[|marked| - 1] in multiset(programs);
  }

  /** More is marked than needed: the overflow is 300 tokens, and the first mark covers it. */
  method MarksMoreThanNeeded() returns (marked: seq<Program>)
    ensures marked == [Program("a", 500, false), Program("b", 600, false)] && !EachMarkNeeded(marked, 300)
  {
    var backend := new BackendState(1000, 1.0);
    var a, b := Program("a", 500, false), Program("b", 600, false);
    backend.reasoning := [a, b];
    TwoPrograms(a, b);
    var paused;
    paused, marked := backend.PauseUntilSafe();
    SmallThenLarge(marked, a, b);
    assert Tokens(marked[..1]) == 500 by { assert marked[..1] == [a]; }
  }

  lemma TwoPrograms(a: Program, b: Program)
    requires !a.marked && !b.marked
    ensures Tokens([a, b]) == a.tokens + b.tokens && Tokens([]) == 0 && Tokens([a]) == a.tokens && Unmarked([a, b]) == [a, b]
  {
    assert [a, b][..1] == [a] && [a][..0] == [];
    assert Unmarked([a]) == [a];
    assert [] + [a] == [a] && [a] + [b] == [a, b];
    TokensPush([], a);
    TokensPush([a], b);
  }

  lemma SmallThenLarge(marked: seq<Program>, a: Program, b: Program)
    requires multiset(marked) == multiset([a, b]) && SmallestFirst(marked, []) && a.tokens < b.tokens
    ensures marked == [a, b]
  {
    assert |multiset(marked)| == |marked|;
    assert marked[0] in multiset([a, b]) && marked[1] in multiset([a, b]);
    assert marked == [marked[0], marked[1]];
  }

  /** From a0 the programs `paused` have been paused, smallest first. */
  ghost predicate Pausing(a0: seq<Program>, acting: seq<Program>, paused: seq<Program>) {
    multiset(acting) + multiset(paused) == multiset(a0) && SmallestFirst(paused, acting)
  }

  lemma PausingIs(a0: seq<Program>, acting: seq<Program>, paused: seq<Program>)
    requires Pausing(a0, acting, paused)
    ensures multiset(acting) + multiset(paused) == multiset(a0) && SmallestFirst(paused, acting)
  {
  }

  lemma PauseNext(a0: seq<Program>, acting: seq<Program>, paused: seq<Program>, i: nat)
    requires Pausing(a0, acting, paused) && i < |acting|
    requires forall k :: 0 <= k < |acting| ==> acting[i].tokens <= acting[k].tokens
    ensures Pausing(a0, Without(acting, i), paused + [acting[i]])
    ensures |Without(acting, i)| < |acting| && |Without(acting, i) + [acting[i]]| == |acting|
    ensures Tokens(Without(acting, i) + [acting[i]]) == Tokens(acting)
  {
    hide Tokens, SmallestFirst, Without;
    TakeOne(acting, paused, i, a0);
  }

  lemma NothingPaused(acting: seq<Program>)
    ensures Pausing(acting, acting, [])
  {
  }

  /** The next smallest program is taken. */
  lemma TakeOne(acting: seq<Program>, paused: seq<Program>, i: nat, all: seq<Program>)
    requires i < |acting| && SmallestFirst(paused, acting)
    requires forall k :: 0 <= k < |acting| ==> acting[i].tokens <= acting[k].tokens
    requires multiset(acting) + multiset(paused) == multiset(all)
    ensures SmallestFirst(paused + [acting[i]], Without(acting, i))
    ensures multiset(Without(acting, i)) + multiset(paused + [acting[i]]) == multiset(all)
    ensures |Without(acting, i)| < |acting| && |Without(acting, i) + [acting[i]]| == |acting|
    ensures Tokens(Without(acting, i) + [acting[i]]) == Tokens(acting)
  {
    SmallestNext(acting, paused, i);
    hide Tokens, SmallestFirst, Without;
    TokensWithout(acting, i);
    TokensPush(Without(acting, i), acting[i]);
    MultisetWithout(acting, i);
    assert |multiset(acting)| == |acting| && |multiset(Without(acting, i))| == |Without(acting, i)|;
    assert multiset(paused + [acting[i]]) == multiset(paused) + multiset{acting[i]};
  }

  lemma SmallestNext(acting: seq<Program>, paused: seq<Program>, i: nat)
    requires i < |acting| && SmallestFirst(paused, acting)
    requires forall k :: 0 <= k < |acting| ==> acting[i].tokens <= acting[k].tokens
    ensures SmallestFirst(paused + [acting[i]], Without(acting, i))
  {
    var rest := Without(acting, i);
    forall k | 0 <= k < |rest|
      ensures acting[i].tokens <= rest[k].tokens && forall j :: 0 <= j < |paused| ==> paused[j].tokens <= rest[k].tokens
    {
      assert rest[k] == acting[if k < i then k else k + 1];
    }
  }

  // ---------------------------------------------------------------- resuming

  /** A backend as the resume step sees it: usable if its configuration is known and it is healthy. */
  datatype Offer = Offer(usable: bool, remaining: int)

  /** An entry of the list of capacities: which backend, and how much it still takes. */
  datatype Cap = Cap(backend: nat, remaining: int)

  datatype Placement = Placement(program: Program, backend: nat)

  function Required(p: Program): int { p.tokens + BUFFER_PER_PROGRAM }

  function Need(programs: seq<Program>): int {
    if programs == [] then 0 else Need(programs[..|programs| - 1]) + Required(programs[|programs| - 1])
  }

  /** Walk through the candidates in order of priority and take each that still fits the total. */
  function Selected(candidates: seq<Program>, total: int): seq<Program> {
    if candidates == [] then [] else
      var n := |candidates| - 1;
      var chosen := Selected(candidates[..n], total);
      if Need(chosen) + Required(candidates[n]) <= total then chosen + [candidates[n]] else chosen
  }

  function TotalOffered(offers: seq<Offer>): int {
    if offers == [] then 0 else
      var o := offers[|offers| - 1];
      TotalOffered(offers[..|offers| - 1]) + if o.usable && o.remaining > BUFFER_PER_PROGRAM then o.remaining else 0
  }

  /** The tokens required by what was placed on the backend. */
  function Load(placements: seq<Placement>, backend: nat): int {
    if placements == [] then 0 else
      var last := placements[|placements| - 1];
      Load(placements[..|placements| - 1], backend) + if last.backend == backend then Required(last.program) else 0
  }

  function Left(offers: seq<Offer>, placements: seq<Placement>, backend: nat): int
    requires backend < |offers|
  {
    offers[backend].remaining - Load(placements, backend)
  }

  lemma LoadPush(placements: seq<Placement>, p: Placement)
    ensures forall b: nat ::
      Load(placements + [p], b) == Load(placements, b) + if p.backend == b then Required(p.program) else 0
  {
    assert (placements + [p])[..|placements|] == placements;
  }

  /** The list holds exactly the usable backends with more room than the buffer, each once, with what
      is left of them. */
  ghost predicate CapsTell(offers: seq<Offer>, placements: seq<Placement>, caps: seq<Cap>) {
    && (forall j :: 0 <= j < |caps| ==> CapTells(offers, placements, caps[j]))
    && (forall i, j :: 0 <= i < j < |caps| ==> caps[i].backend != caps[j].backend)
    && (forall b: nat :: b < |offers| && offers[b].usable && Left(offers, placements, b) > BUFFER_PER_PROGRAM ==>
          Lists(caps, b))
  }

  ghost predicate CapTells(offers: seq<Offer>, placements: seq<Placement>, c: Cap) {
    && c.backend < |offers| && offers[c.backend].usable
    && c.remaining == Left(offers, placements, c.backend) > BUFFER_PER_PROGRAM
  }

  ghost predicate Lists(caps: seq<Cap>, backend: nat) {
    exists j :: 0 <= j < |caps| && caps[j].backend == backend
  }

  function Fullness(c: Cap): int { -c.remaining }

  function Smallness(p: Program): int { 0 - p.tokens }

  lemma SortedStillTell(offers: seq<Offer>, placements: seq<Placement>, caps: seq<Cap>, sorted: seq<Cap>)
    requires CapsTell(offers, placements, caps) && StableSort(caps, sorted, Fullness)
    ensures CapsTell(offers, placements, sorted)
  {
    hide Precedes, Ordered, Left, CapTells;
    forall j | 0 <= j < |sorted| ensures CapTells(offers, placements, sorted[j]) {
      assert sorted[j] in caps;
    }
    forall i, j | 0 <= i < j < |sorted| ensures sorted[i].backend != sorted[j].backend {
      assert sorted[i] in caps && sorted[j] in caps;
      var k :| 0 <= k < |caps| && caps[k] == sorted[i];
      var l :| 0 <= l < |caps| && caps[l] == sorted[j];
      assert k != l;
    }
    forall b: nat | b < |offers| && offers[b].usable && Left(offers, placements, b) > BUFFER_PER_PROGRAM
      ensures Lists(sorted, b)
    {
      assert Lists(caps, b);
      var k :| 0 <= k < |caps| && caps[k].backend == b;
      assert caps[k] in sorted;
    }
  }

  lemma CapsDistinct(offers: seq<Offer>, placements: seq<Placement>, caps: seq<Cap>)
    requires CapsTell(offers, placements, caps)
    ensures Distinct(caps)
  {
  }

  lemma NoBackends()
    ensures CapsTell([], [], []) && TotalOffered([]) == 0
  {
  }

  lemma NextBackend(offers: seq<Offer>, i: nat, caps: seq<Cap>)
    requires i < |offers| && CapsTell(offers[..i], [], caps)
    ensures var takes := offers[i].usable && offers[i].remaining > BUFFER_PER_PROGRAM;
      CapsTell(offers[..i + 1], [], if takes then caps + [Cap(i, offers[i].remaining)] else caps)
  {
    var takes := offers[i].usable && offers[i].remaining > BUFFER_PER_PROGRAM;
    var after := if takes then caps + [Cap(i, offers[i].remaining)] else caps;
    forall j | 0 <= j < |after| ensures CapTells(offers[..i + 1], [], after[j]) {
      assert j < |caps| ==> CapTells(offers[..i], [], caps[j]);
    }
    forall j | 0 <= j < |caps| ensures caps[j].backend < i {
      assert CapTells(offers[..i], [], caps[j]);
    }
    forall b: nat | b < i + 1 && offers[..i + 1][b].usable && Left(offers[..i + 1], [], b) > BUFFER_PER_PROGRAM
      ensures Lists(after, b)
    {
      if b == i {
        assert after[|caps|].backend == b;
      } else {
        assert Left(offers[..i], [], b) == Left(offers[..i + 1], [], b) && Lists(caps, b);
        var j :| 0 <= j < |caps| && caps[j].backend == b;
        assert after[j].backend == b;
      }
    }
  }

  /** The list of backends that can take anything at all, and their total. */
  method CollectCaps(offers: seq<Offer>) returns (caps: seq<Cap>, total: int)
    ensures CapsTell(offers, [], caps) && total == TotalOffered(offers)
  {
    hide CapsTell;
    NoBackends();
    caps, total := [], 0;
    for i := 0 to |offers|
      invariant CapsTell(offers[..i], [], caps) && total == TotalOffered(offers[..i])
    {
      assert offers[..i + 1][..i] == offers[..i];
      NextBackend(offers, i, caps);
      if offers[i].usable && offers[i].remaining > BUFFER_PER_PROGRAM {
        caps, total := caps + [Cap(i, offers[i].remaining)], total + offers[i].remaining;
      }
    }
    assert offers[..|offers|] == offers;
  }

  method SelectCandidates(candidates: seq<Program>, total: int) returns (chosen: seq<Program>)
    ensures chosen == Selected(candidates, total)
  {
    chosen := [];
    var cumulative := 0;
    for i := 0 to |candidates|
      invariant chosen == Selected(candidates[..i], total) && cumulative == Need(chosen)
    {
      assert candidates[..i + 1][..i] == candidates[..i];
      if cumulative + Required(candidates[i]) <= total {
        assert (chosen + [candidates[i]])[..|chosen|] == chosen;
        chosen, cumulative := chosen + [candidates[i]], cumulative + Required(candidates[i]);
      }
    }
    assert candidates[..|candidates|] == candidates;
  }

  lemma {:induction false} SelectedFrom(candidates: seq<Program>, total: int)
    requires Distinct(candidates)
    ensures Distinct(Selected(candidates, total)) && forall p :: p in Selected(candidates, total) ==> p in candidates
    decreases |candidates|
  {
    if candidates != [] {
      var n := |candidates| - 1;
      SelectedFrom(candidates[..n], total);
      assert candidates[n] !in candidates[..n];
    }
  }

  ghost predicate IsPlaced(placements: seq<Placement>, p: Program) {
    exists k :: 0 <= k < |placements| && placements[k].program == p
  }

  /** Nobody was given more than it had offered, every program went to the backend with the most room
      at that moment, more than the buffer, largest programs first, and none was placed twice. */
  ghost predicate WellPlaced(offers: seq<Offer>, placements: seq<Placement>) {
    && (forall k :: 0 <= k < |placements| ==> BestAt(offers, placements[..k], placements[k].backend))
    && LoadsWithin(offers, placements)
    && (forall i, j :: 0 <= i < j < |placements| ==>
          placements[i].program != placements[j].program && placements[i].program.tokens >= placements[j].program.tokens)
  }

  ghost predicate LoadsWithin(offers: seq<Offer>, placements: seq<Placement>) {
    forall b: nat :: b < |offers| ==> Load(placements, b) == 0 || Load(placements, b) <= offers[b].remaining
  }

  /** After these placements the backend is usable, has more room than the buffer, and none has more. */
  ghost predicate BestAt(offers: seq<Offer>, placements: seq<Placement>, backend: nat) {
    && backend < |offers| && offers[backend].usable && Left(offers, placements, backend) > BUFFER_PER_PROGRAM
    && (forall b: nat :: b < |offers| && offers[b].usable ==> Left(offers, placements, b) <= Left(offers, placements, backend))
  }

  /** The program fits none of the usable backends, unless it has no tokens and exactly the buffer is left. */
  ghost predicate FitsNowhere(offers: seq<Offer>, placements: seq<Placement>, p: Program) {
    forall b: nat :: b < |offers| && offers[b].usable ==>
      Left(offers, placements, b) < Required(p) || (p.tokens == 0 && Left(offers, placements, b) == BUFFER_PER_PROGRAM)
  }

  lemma TooLargeForCaps(offers: seq<Offer>, placements: seq<Placement>, caps: seq<Cap>, p: Program)
    requires CapsTell(offers, placements, caps) && forall j :: 0 <= j < |caps| ==> caps[j].remaining < Required(p)
    ensures FitsNowhere(offers, placements, p)
  {
    hide Left;
    forall b: nat | b < |offers| && offers[b].usable && Left(offers, placements, b) > BUFFER_PER_PROGRAM
      ensures Left(offers, placements, b) < Required(p)
    {
      assert Lists(caps, b);
      var j :| 0 <= j < |caps| && caps[j].backend == b;
      assert CapTells(offers, placements, caps[j]);
    }
  }

  lemma LeftPush(offers: seq<Offer>, placements: seq<Placement>, p: Placement)
    ensures forall b: nat :: b < |offers| ==>
      Left(offers, placements + [p], b) == Left(offers, placements, b) - if p.backend == b then Required(p.program) else 0
  {
    LoadPush(placements, p);
  }

  /** A program is placed on the first backend of the list, which stays in it while more than the
      buffer is left. */
  lemma FirstStays(offers: seq<Offer>, placements: seq<Placement>, caps: seq<Cap>, p: Program)
    requires CapsTell(offers, placements, caps) && caps != [] && caps[0].remaining - Required(p) > BUFFER_PER_PROGRAM
    ensures CapsTell(offers, placements + [Placement(p, caps[0].backend)],
                     caps[0 := Cap(caps[0].backend, caps[0].remaining - Required(p))])
  {
    var after := placements + [Placement(p, caps[0].backend)];
    var rest := caps[0 := Cap(caps[0].backend, caps[0].remaining - Required(p))];
    LeftPush(offers, placements, Placement(p, caps[0].backend));
    hide Left, Required;
    forall j | 0 <= j < |caps| ensures CapTells(offers, after, rest[j]) {
      assert CapTells(offers, placements, caps[j]);
    }
    forall b: nat | b < |offers| && offers[b].usable && Left(offers, after, b) > BUFFER_PER_PROGRAM
      ensures Lists(rest, b)
    {
      if b == caps[0].backend {
        assert rest[0].backend == b;
      } else {
        assert Lists(caps, b);
        var j :| 0 <= j < |caps| && caps[j].backend == b;
        assert rest[j].backend == b;
      }
    }
  }

  lemma FirstLeaves(offers: seq<Offer>, placements: seq<Placement>, caps: seq<Cap>, p: Program)
    requires CapsTell(offers, placements, caps) && caps != [] && caps[0].remaining - Required(p) <= BUFFER_PER_PROGRAM
    ensures CapsTell(offers, placements + [Placement(p, caps[0].backend)], caps[1..])
  {
    var after := placements + [Placement(p, caps[0].backend)];
    LeftPush(offers, placements, Placement(p, caps[0].backend));
    hide Left, Required;
    assert CapTells(offers, placements, caps[0]);
    forall j | 0 <= j < |caps| - 1 ensures CapTells(offers, after, caps[1..][j]) {
      assert CapTells(offers, placements, caps[j + 1]);
    }
    forall b: nat | b < |offers| && offers[b].usable && Left(offers, after, b) > BUFFER_PER_PROGRAM
      ensures Lists(caps[1..], b)
    {
      assert b != caps[0].backend && Lists(caps, b);
      var j :| 0 <= j < |caps| && caps[j].backend == b;
      assert caps[1..][j - 1].backend == b;
    }
  }

  /** The head of the sorted list is the roomiest of all backends. */
  lemma HeadIsRoomiest(offers: seq<Offer>, placements: seq<Placement>, caps: seq<Cap>, b: nat)
    requires CapsTell(offers, placements, caps) && Ordered(caps, Fullness) && caps != []
    requires b < |offers| && offers[b].usable
    ensures caps[0].backend < |offers| && Left(offers, placements, b) <= Left(offers, placements, caps[0].backend)
  {
    hide Left;
    assert CapTells(offers, placements, caps[0]);
    if Left(offers, placements, b) > BUFFER_PER_PROGRAM {
      assert Lists(caps, b);
      var j :| 0 <= j < |caps| && caps[j].backend == b;
      assert CapTells(offers, placements, caps[j]);
      assert Fullness(caps[0]) <= Fullness(caps[j]);
    }
  }

  lemma StaysWellPlaced(offers: seq<Offer>, placements: seq<Placement>, caps: seq<Cap>, p: Program)
    requires WellPlaced(offers, placements) && CapsTell(offers, placements, caps) && Ordered(caps, Fullness) && caps != []
    requires Required(p) <= caps[0].remaining
    requires forall k :: 0 <= k < |placements| ==> placements[k].program != p && placements[k].program.tokens >= p.tokens
    ensures WellPlaced(offers, placements + [Placement(p, caps[0].backend)])
  {
    hide CapsTell, Ordered, BestAt, Left, Load, LoadsWithin;
    var last := Placement(p, caps[0].backend);
    var after := placements + [last];
    HeadIsBest(offers, placements, caps);
    LoadsStayWithin(offers, placements, last);
    forall k | 0 <= k < |after| ensures BestAt(offers, after[..k], after[k].backend) {
      assert after[..k] == placements[..k];
      if k < |placements| {
        assert after[k] == placements[k];
      } else {
        assert placements[..k] == placements;
      }
    }
  }

  lemma LoadsStayWithin(offers: seq<Offer>, placements: seq<Placement>, p: Placement)
    requires LoadsWithin(offers, placements) && p.backend < |offers|
    requires Required(p.program) <= Left(offers, placements, p.backend)
    ensures LoadsWithin(offers, placements + [p])
  {
    hide Load;
    LoadPush(placements, p);
  }

  lemma HeadIsBest(offers: seq<Offer>, placements: seq<Placement>, caps: seq<Cap>)
    requires CapsTell(offers, placements, caps) && Ordered(caps, Fullness) && caps != []
    ensures BestAt(offers, placements, caps[0].backend) && CapTells(offers, placements, caps[0])
  {
    hide Left, Ordered;
    assert CapTells(offers, placements, caps[0]);
    forall b: nat | b < |offers| && offers[b].usable
      ensures Left(offers, placements, b) <= Left(offers, placements, caps[0].backend)
    {
      HeadIsRoomiest(offers, placements, caps, b);
    }
  }

  predicate TooLarge(caps: seq<Cap>, p: Program) {
    forall j :: 0 <= j < |caps| ==> caps[j].remaining < Required(p)
  }

  /** The first n programs of the list are placed or too large for every backend of the list. */
  ghost predicate Settled(placements: seq<Placement>, caps: seq<Cap>, order: seq<Program>, n: nat)
    requires n <= |order|
  {
    && (forall k :: 0 <= k < n ==> IsPlaced(placements, order[k]) || TooLarge(caps, order[k]))
    && (forall k :: 0 <= k < |placements| ==> placements[k].program in order[..n])
  }

  lemma SkippedProgram(placements: seq<Placement>, caps: seq<Cap>, order: seq<Program>, n: nat)
    requires n < |order| && Settled(placements, caps, order, n) && TooLarge(caps, order[n])
    ensures Settled(placements, caps, order, n + 1)
  {
    hide TooLarge, IsPlaced;
    assert forall x :: x in order[..n] ==> x in order[..n + 1];
  }

  /** After a placement the capacities are no larger than before. */
  lemma PlacedProgram(placements: seq<Placement>, caps: seq<Cap>, order: seq<Program>, n: nat, after: seq<Cap>, backend: nat)
    requires n < |order| && Settled(placements, caps, order, n)
    requires forall j :: 0 <= j < |after| ==> exists k :: 0 <= k < |caps| && after[j].remaining <= caps[k].remaining
    ensures Settled(placements + [Placement(order[n], backend)], after, order, n + 1)
  {
    var all := placements + [Placement(order[n], backend)];
    forall k | 0 <= k < n + 1
      ensures IsPlaced(all, order[k]) || TooLarge(after, order[k])
    {
      if k == n {
        assert all[|placements|].program == order[n];
      } else if IsPlaced(placements, order[k]) {
        var m :| 0 <= m < |placements| && placements[m].program == order[k];
        assert all[m].program == order[k];
      }
    }
    assert forall x :: x in order[..n] ==> x in order[..n + 1];
    assert order[..n + 1][n] == order[n];
  }

  lemma ResortedSettled(placements: seq<Placement>, caps: seq<Cap>, sorted: seq<Cap>, order: seq<Program>, n: nat)
    requires n <= |order| && Settled(placements, caps, order, n) && StableSort(caps, sorted, Fullness)
    ensures Settled(placements, sorted, order, n)
  {
    hide Precedes, Ordered, Distinct, IsPlaced;
    forall j | 0 <= j < |sorted| ensures sorted[j] in caps {
      assert sorted[j] in sorted;
    }
  }

  /** What remains is too large as well, since the smallest of it is. */
  lemma EverythingSettled(offers: seq<Offer>, placements: seq<Placement>, caps: seq<Cap>, chosen: seq<Program>, order: seq<Program>, n: nat)
    requires n <= |order| && Settled(placements, caps, order, n) && CapsTell(offers, placements, caps)
    requires StableSort(chosen, order, Smallness)
    requires n == |order| || caps == [] || (Ordered(caps, Fullness) && Required(order[|order| - 1]) > caps[0].remaining)
    ensures forall p :: p in chosen ==> IsPlaced(placements, p) || FitsNowhere(offers, placements, p)
    ensures forall k :: 0 <= k < |placements| ==> placements[k].program in chosen
  {
    hide CapsTell, Precedes, Distinct, IsPlaced, FitsNowhere;
    forall k | 0 <= k < |order|
      ensures IsPlaced(placements, order[k]) || FitsNowhere(offers, placements, order[k])
    {
      if n <= k {
        assert k < |order| - 1 ==> Smallness(order[k]) <= Smallness(order[|order| - 1]);
        assert forall j :: 0 < j < |caps| ==> Fullness(caps[0]) <= Fullness(caps[j]);
        assert TooLarge(caps, order[k]);
      }
      if TooLarge(caps, order[k]) {
        TooLargeForCaps(offers, placements, caps, order[k]);
      }
    }
    forall k | 0 <= k < |placements| ensures placements[k].program in chosen {
      assert placements[k].program in order[..n] && placements[k].program in order;
    }
  }

  lemma PlacedSoFar(placements: seq<Placement>, caps: seq<Cap>, chosen: seq<Program>, order: seq<Program>, n: nat)
    requires n < |order| && Settled(placements, caps, order, n) && StableSort(chosen, order, Smallness)
    ensures forall k :: 0 <= k < |placements| ==>
      placements[k].program != order[n] && placements[k].program.tokens >= order[n].tokens
  {
    hide Precedes;
    forall k | 0 <= k < |placements|
      ensures placements[k].program != order[n] && placements[k].program.tokens >= order[n].tokens
    {
      assert placements[k].program in order[..n];
      var m :| 0 <= m < n && order[m] == placements[k].program;
      assert Smallness(order[m]) <= Smallness(order[n]);
    }
  }

  /** Only selected programs are placed, and those that are not fit no usable backend. */
  ghost predicate Outcome(offers: seq<Offer>, candidates: seq<Program>, placements: seq<Placement>) {
    var chosen := Selected(candidates, TotalOffered(offers));
    && WellPlaced(offers, placements)
    && (forall k :: 0 <= k < |placements| ==> placements[k].program in chosen)
    && (forall p :: p in chosen ==> IsPlaced(placements, p) || FitsNowhere(offers, placements, p))
  }

  /** _greedy_resume, from the recorded capacities and the candidates in order of priority to the
      placements.  The loop stops early when the smallest program exceeds the largest capacity; still,
      every selected program that is not placed fits no usable backend. */
  method GreedyResume(offers: seq<Offer>, candidates: seq<Program>) returns (placements: seq<Placement>)
    requires Distinct(candidates)
    ensures Outcome(offers, candidates, placements)
  {
    hide CapsTell, WellPlaced, Settled, Precedes, Ordered, IsPlaced, FitsNowhere, Selected, TotalOffered, Distinct;
    placements := [];
    var caps, total := CollectCaps(offers);
    NothingPlaced(offers);
    var chosen := SelectCandidates(candidates, total);
    SelectedFrom(candidates, total);
    var order := SortedBy(chosen, Smallness);
    NothingSettled(caps, order);
    if caps == [] || chosen == [] {
      SortedEmpty(chosen, order);
      EverythingSettled(offers, placements, caps, chosen, order, 0);
      return;
    }
    SortedEmpty(chosen, order);
    CapsDistinct(offers, placements, caps);
    var sorted := SortedBy(caps, Fullness);
    SortedStillTell(offers, placements, caps, sorted);
    ResortedSettled(placements, caps, sorted, order, 0);
    caps := sorted;
    var minRequired := Required(order[|order| - 1]);
    for i := 0 to |order|
      invariant CapsTell(offers, placements, caps) && Ordered(caps, Fullness)
      invariant WellPlaced(offers, placements) && Settled(placements, caps, order, i)
    {
      if caps == [] || minRequired > caps[0].remaining {
        EverythingSettled(offers, placements, caps, chosen, order, i);
        return;
      }
      var program := order[i];
      if Required(program) > caps[0].remaining {
        HeadIsLargest(caps, program);
        SkippedProgram(placements, caps, order, i);
        continue;
      }
      PlacedSoFar(placements, caps, chosen, order, i);
      StaysWellPlaced(offers, placements, caps, program);
      var head := caps[0];
      var left := head.remaining - Required(program);
      if left > BUFFER_PER_PROGRAM {
        FirstStays(offers, placements, caps, program);
        PlacedProgram(placements, caps, order, i, caps[0 := Cap(head.backend, left)], head.backend);
        caps, placements := caps[0 := Cap(head.backend, left)], placements + [Placement(program, head.backend)];
        CapsDistinct(offers, placements, caps);
        sorted := SortedBy(caps, Fullness);
        SortedStillTell(offers, placements, caps, sorted);
        ResortedSettled(placements, caps, sorted, order, i + 1);
        caps := sorted;
      } else {
        FirstLeaves(offers, placements, caps, program);
        PlacedProgram(placements, caps, order, i, caps[1..], head.backend);
        TailOrdered(caps);
        caps, placements := caps[1..], placements + [Placement(program, head.backend)];
      }
    }
    EverythingSettled(offers, placements, caps, chosen, order, |order|);
  }

  lemma NothingPlaced(offers: seq<Offer>)
    ensures WellPlaced(offers, [])
  {
  }

  lemma NothingSettled(caps: seq<Cap>, order: seq<Program>)
    ensures Settled([], caps, order, 0)
    ensures caps == [] ==> Ordered(caps, Fullness)
  {
  }

  lemma SortedEmpty(chosen: seq<Program>, order: seq<Program>)
    requires StableSort(chosen, order, Smallness)
    ensures chosen == [] <==> order == []
  {
    hide Precedes;
    EmptyTogether(chosen, order);
  }

  lemma HeadIsLargest(caps: seq<Cap>, p: Program)
    requires Ordered(caps, Fullness) && caps != [] && caps[0].remaining < Required(p)
    ensures TooLarge(caps, p)
  {
    assert forall j :: 0 < j < |caps| ==> Fullness(caps[0]) <= Fullness(caps[j]);
  }

  lemma TailOrdered(caps: seq<Cap>)
    requires Ordered(caps, Fullness) && caps != []
    ensures Ordered(caps[1..], Fullness)
  {
  }

  lemma WithinOffers(offers: seq<Offer>, placements: seq<Placement>)
    requires WellPlaced(offers, placements)
    ensures forall k :: 0 <= k < |placements| ==>
      && placements[k].backend < |offers| && offers[placements[k].backend].usable
      && Required(placements[k].program) <= offers[placements[k].backend].remaining
  {
    hide Load;
    forall k | 0 <= k < |placements|
      ensures placements[k].backend < |offers| && offers[placements[k].backend].usable
      ensures Required(placements[k].program) <= offers[placements[k].backend].remaining
    {
      assert BestAt(offers, placements[..k], placements[k].backend);
      LoadAtLeast(placements, k);
    }
  }

  lemma {:induction false} LoadAtLeast(placements: seq<Placement>, k: nat)
    requires k < |placements|
    ensures Load(placements, placements[k].backend) >= Required(placements[k].program)
    decreases |placements|
  {
    var n := |placements| - 1;
    if k < n {
      LoadAtLeast(placements[..n], k);
    } else {
      LoadNonNegative(placements[..n], placements[k].backend);
    }
  }

  lemma {:induction false} LoadNonNegative(placements: seq<Placement>, b: nat)
    ensures Load(placements, b) >= 0
    decreases |placements|
  {
    if placements != [] {
      LoadNonNegative(placements[..|placements| - 1], b);
    }
  }
}
