/** Which programs the resume step leaves waiting although they fit.  Programs are selected against the
    total of all backends; this loses nothing exactly when at most one backend has room. */
module ResumeSelection {
  import opened Sequences
  import opened ProgramRouter

  /** Every candidate was resumed or fits no usable backend. */
  ghost predicate NoneLeft(offers: seq<Offer>, candidates: seq<Program>, placements: seq<Placement>) {
    forall p :: p in candidates ==> IsPlaced(placements, p) || FitsNowhere(offers, placements, p)
  }

  /** A usable backend with more room than the buffer. */
  predicate Roomy(offers: seq<Offer>, b: nat) {
    b < |offers| && offers[b].usable && offers[b].remaining > BUFFER_PER_PROGRAM
  }

  // ---------------------------------------------------------------- needs

  lemma NeedPush(programs: seq<Program>, p: Program)
    ensures Need(programs + [p]) == Need(programs) + Required(p)
  {
    assert (programs + [p])[..|programs|] == programs;
  }

  lemma {:induction false} NeedWithout(programs: seq<Program>, i: nat)
    requires i < |programs|
    ensures Need(programs) == Need(Without(programs, i)) + Required(programs[i])
    decreases |programs|
  {
    var n := |programs| - 1;
    if i < n {
      NeedWithout(programs[..n], i);
      assert Without(programs, i) == Without(programs[..n], i) + [programs[n]];
      NeedPush(Without(programs[..n], i), programs[n]);
    } else {
      assert Without(programs, i) == programs[..n];
    }
  }

  lemma StillIn(programs: seq<Program>, i: nat, p: Program)
    requires i < |programs| && p in programs && p != programs[i]
    ensures p in Without(programs, i)
  {
    var k :| 0 <= k < |programs| && programs[k] == p;
    assert Without(programs, i)[if k < i then k else k - 1] == p;
  }

  /** Different programs taken from a list need no more than the list. */
  lemma {:induction false} NeedMonotone(some: seq<Program>, programs: seq<Program>)
    requires Distinct(some) && forall p :: p in some ==> p in programs
    ensures Need(some) <= Need(programs)
    decreases |some|
  {
    if some == [] {
      NeedNonNegative(programs);
    } else {
      var n := |some| - 1;
      assert some[n] in some && some[n] in programs;
      var i :| 0 <= i < |programs| && programs[i] == some[n];
      forall p | p in some[..n] ensures p in Without(programs, i) {
        var k :| 0 <= k < n && some[k] == p;
        assert some[k] in some;
        StillIn(programs, i, p);
      }
      NeedMonotone(some[..n], Without(programs, i));
      NeedWithout(programs, i);
    }
  }

  lemma {:induction false} NeedNonNegative(programs: seq<Program>)
    ensures 0 <= Need(programs)
    decreases |programs|
  {
    if programs != [] {
      NeedNonNegative(programs[..|programs| - 1]);
    }
  }

  // ---------------------------------------------------------------- the selection

  lemma {:induction false} SelectedWithin(candidates: seq<Program>, total: int)
    requires 0 <= total
    ensures Need(Selected(candidates, total)) <= total
    decreases |candidates|
  {
    if candidates != [] {
      var n := |candidates| - 1;
      SelectedWithin(candidates[..n], total);
      NeedPush(Selected(candidates[..n], total), candidates[n]);
    }
  }

  /** The selection cannot be extended: a candidate left out exceeds what remains of the total. */
  lemma {:induction false} SelectionMaximal(candidates: seq<Program>, total: int, p: Program)
    requires p in candidates && p !in Selected(candidates, total)
    ensures Need(Selected(candidates, total)) + Required(p) > total
    decreases |candidates|
  {
    var n := |candidates| - 1;
    var chosen := Selected(candidates[..n], total);
    NeedPush(chosen, candidates[n]);
    if p in candidates[..n] {
      SelectionMaximal(candidates[..n], total, p);
    }
  }

  /** In the order of priority, a candidate is selected exactly when it fits what the selected ones before
      it leave of the total. */
  lemma {:induction false} SelectedExactly(candidates: seq<Program>, total: int, i: nat)
    requires Distinct(candidates) && i < |candidates|
    ensures candidates[i] in Selected(candidates, total) <==>
      Need(Selected(candidates[..i], total)) + Required(candidates[i]) <= total
    ensures Selected(candidates[..i], total) <= Selected(candidates, total)
    decreases |candidates|
  {
    hide Need;
    var n := |candidates| - 1;
    SelectedFrom(candidates[..n], total);
    assert candidates[n] !in candidates[..n];
    if i < n {
      SelectedExactly(candidates[..n], total, i);
      assert candidates[..n][..i] == candidates[..i] && candidates[..n][i] == candidates[i];
    }
  }

  /** Everything is selected exactly when all candidates together fit the total. */
  lemma {:induction false} AllSelectedExactly(candidates: seq<Program>, total: int)
    requires 0 <= total
    ensures Selected(candidates, total) == candidates <==> Need(candidates) <= total
    decreases |candidates|
  {
    SelectedWithin(candidates, total);
    if candidates != [] && Need(candidates) <= total {
      AllSelectedExactly(candidates[..|candidates| - 1], total);
    }
  }

  // ---------------------------------------------------------------- totals

  /** The total is what all usable backends with more room than the buffer offer, and the load of a
      backend what is required by all programs placed on it. */
  lemma {:induction false} TotalConcat(a: seq<Offer>, b: seq<Offer>)
    ensures TotalOffered(a + b) == TotalOffered(a) + TotalOffered(b)
    decreases |b|
  {
    if b == [] {
      assert a + b == a;
    } else {
      var n := |b| - 1;
      assert (a + b)[..|a| + n] == a + b[..n];
      TotalConcat(a, b[..n]);
    }
  }

  lemma {:induction false} LoadConcat(a: seq<Placement>, b: seq<Placement>, backend: nat)
    ensures Load(a + b, backend) == Load(a, backend) + Load(b, backend)
    decreases |b|
  {
    if b == [] {
      assert a + b == a;
    } else {
      var n := |b| - 1;
      assert (a + b)[..|a| + n] == a + b[..n];
      LoadConcat(a, b[..n], backend);
    }
  }

  lemma SingleAmounts(o: Offer, p: Placement, backend: nat)
    ensures TotalOffered([o]) == if o.usable && o.remaining > BUFFER_PER_PROGRAM then o.remaining else 0
    ensures Load([p], backend) == if p.backend == backend then p.program.tokens + BUFFER_PER_PROGRAM else 0
    ensures Need([p.program]) == p.program.tokens + BUFFER_PER_PROGRAM
  {
    assert [o][..0] == [] && [p][..0] == [] && [p.program][..0] == [];
  }

  lemma {:induction false} TotalOfOne(offers: seq<Offer>, n: nat, b: nat)
    requires n <= |offers| && Roomy(offers, b) && forall c: nat :: Roomy(offers, c) ==> c == b
    ensures TotalOffered(offers[..n]) == if b < n then offers[b].remaining else 0
  {
    if n > 0 {
      TotalOfOne(offers, n - 1, b);
      assert offers[..n][..n - 1] == offers[..n - 1];
      assert Roomy(offers, n - 1) ==> n - 1 == b;
    }
  }

  lemma {:induction false} TotalOfTwo(offers: seq<Offer>, n: nat, b: nat, c: nat)
    requires n <= |offers| && Roomy(offers, b) && Roomy(offers, c) && b != c
    ensures TotalOffered(offers[..n]) >= (if b < n then offers[b].remaining else 0) + (if c < n then offers[c].remaining else 0)
  {
    if n > 0 {
      TotalOfTwo(offers, n - 1, b, c);
      assert offers[..n][..n - 1] == offers[..n - 1];
    }
  }

  lemma {:induction false} TotalNonNegative(offers: seq<Offer>)
    ensures 0 <= TotalOffered(offers)
    decreases |offers|
  {
    if offers != [] {
      TotalNonNegative(offers[..|offers| - 1]);
    }
  }

  // ---------------------------------------------------------------- one roomy backend

  function Programs(placements: seq<Placement>): seq<Program> {
    seq(|placements|, k requires 0 <= k < |placements| => placements[k].program)
  }

  lemma PlacedOnRoomy(offers: seq<Offer>, placements: seq<Placement>)
    requires WellPlaced(offers, placements)
    ensures forall k :: 0 <= k < |placements| ==> Roomy(offers, placements[k].backend)
  {
    forall k | 0 <= k < |placements| ensures Roomy(offers, placements[k].backend) {
      assert BestAt(offers, placements[..k], placements[k].backend);
      LoadNonNegative(placements[..k], placements[k].backend);
    }
  }

  lemma {:induction false} LoadOfAll(placements: seq<Placement>, b: nat)
    requires forall k :: 0 <= k < |placements| ==> placements[k].backend == b
    ensures Load(placements, b) == Need(Programs(placements))
    decreases |placements|
  {
    if placements != [] {
      var n := |placements| - 1;
      LoadOfAll(placements[..n], b);
      assert Programs(placements)[..n] == Programs(placements[..n]);
    }
  }

  lemma ProgramsDistinct(offers: seq<Offer>, placements: seq<Placement>)
    requires WellPlaced(offers, placements)
    ensures Distinct(Programs(placements))
    ensures forall p :: p in Programs(placements) <==> IsPlaced(placements, p)
  {
    forall p | IsPlaced(placements, p) ensures p in Programs(placements) {
      var k :| 0 <= k < |placements| && placements[k].program == p;
      assert Programs(placements)[k] == p;
    }
  }

  /** On the only roomy backend, what is left is too little for a candidate that was not selected. */
  lemma OnlyBackendFull(offers: seq<Offer>, candidates: seq<Program>, placements: seq<Placement>, b: nat, p: Program)
    requires Distinct(candidates) && Outcome(offers, candidates, placements)
    requires Roomy(offers, b) && forall c: nat :: Roomy(offers, c) ==> c == b
    requires p in candidates && p !in Selected(candidates, TotalOffered(offers))
    ensures Left(offers, placements, b) < Required(p) || (p.tokens == 0 && Left(offers, placements, b) == BUFFER_PER_PROGRAM)
  {
    hide Selected, Need, Load, Roomy, WellPlaced, Distinct, Programs;
    var total := TotalOffered(offers);
    var chosen := Selected(candidates, total);
    TotalOfOne(offers, |offers|, b);
    assert offers[..|offers|] == offers && b < |offers| by { RoomyIs(offers, b); }
    RoomyIs(offers, b);
    PlacedOnRoomy(offers, placements);
    LoadOfAll(placements, b);
    ProgramsDistinct(offers, placements);
    SelectedFrom(candidates, total);
    SelectionMaximal(candidates, total, p);
    if q: Program :| q in chosen && !IsPlaced(placements, q) {
      OneMoreNeeded(placements, chosen, q);
      SelectedWithin(candidates, total);
    } else {
      NeedMonotone(chosen, Programs(placements));
    }
  }

  lemma RoomyIs(offers: seq<Offer>, b: nat)
    requires Roomy(offers, b)
    ensures b < |offers| && offers[b].usable && offers[b].remaining > BUFFER_PER_PROGRAM
  {
  }

  lemma OneMoreNeeded(placements: seq<Placement>, chosen: seq<Program>, q: Program)
    requires Distinct(Programs(placements)) && q !in Programs(placements) && q in chosen
    requires forall p :: p in Programs(placements) ==> p in chosen
    ensures Need(Programs(placements)) + Required(q) <= Need(chosen)
  {
    hide Need, Programs;
    NeedPush(Programs(placements), q);
    NeedMonotone(Programs(placements) + [q], chosen);
  }

  lemma OneRoomyLeavesNone(offers: seq<Offer>, candidates: seq<Program>, placements: seq<Placement>)
    requires Distinct(candidates) && Outcome(offers, candidates, placements)
    requires forall b: nat, c: nat :: Roomy(offers, b) && Roomy(offers, c) ==> b == c
    ensures NoneLeft(offers, candidates, placements)
  {
    hide Selected, Load, WellPlaced, IsPlaced, Distinct;
    forall p | p in candidates && p !in Selected(candidates, TotalOffered(offers))
      ensures FitsNowhere(offers, placements, p)
    {
      forall b: nat | b < |offers| && offers[b].usable
        ensures Left(offers, placements, b) < Required(p) || (p.tokens == 0 && Left(offers, placements, b) == BUFFER_PER_PROGRAM)
      {
        if Roomy(offers, b) {
          OnlyBackendFull(offers, candidates, placements, b, p);
        } else {
          LoadNonNegative(placements, b);
        }
      }
    }
  }

  /** Whatever the backends, nothing that fits is left if all candidates together fit the total. */
  lemma SmallListLeavesNone(offers: seq<Offer>, candidates: seq<Program>, placements: seq<Placement>)
    requires Outcome(offers, candidates, placements) && Need(candidates) <= TotalOffered(offers)
    ensures NoneLeft(offers, candidates, placements)
  {
    hide WellPlaced, IsPlaced, FitsNowhere;
    TotalNonNegative(offers);
    AllSelectedExactly(candidates, TotalOffered(offers));
  }

  // ---------------------------------------------------------------- two roomy backends

  /** A program as large as the total, and a tiny one behind it. */
  function Blocking(offers: seq<Offer>): seq<Program>
    requires TotalOffered(offers) >= BUFFER_PER_PROGRAM
  {
    [Program("large", TotalOffered(offers) - BUFFER_PER_PROGRAM, false), Program("tiny", 1, false)]
  }

  lemma NoBackendHoldsTotal(offers: seq<Offer>, b: nat, c: nat)
    requires Roomy(offers, b) && Roomy(offers, c) && b != c
    ensures TotalOffered(offers) >= 2 * BUFFER_PER_PROGRAM
    ensures forall d: nat :: d < |offers| && offers[d].usable ==> offers[d].remaining < TotalOffered(offers)
  {
    assert offers[..|offers|] == offers;
    TotalOfTwo(offers, |offers|, b, c);
    forall d: nat | d < |offers| && offers[d].usable ensures offers[d].remaining < TotalOffered(offers) {
      if Roomy(offers, d) {
        TotalOfTwo(offers, |offers|, d, if d == b then c else b);
      }
    }
  }

  lemma BlockingSelection(offers: seq<Offer>)
    requires TotalOffered(offers) >= BUFFER_PER_PROGRAM
    ensures Selected(Blocking(offers), TotalOffered(offers)) == [Blocking(offers)[0]] && Distinct(Blocking(offers))
  {
    hide TotalOffered;
    var list, total := Blocking(offers), TotalOffered(offers);
    assert list[..1] == [list[0]] && list[..1][..0] == [];
    assert Selected([], total) == [] && Need([]) == 0;
    NeedPush([], list[0]);
    assert [] + [list[0]] == [list[0]];
    assert Selected([list[0]], total) == [list[0]];
  }

  /** Between two roomy backends the large program blocks the tiny one: nothing is resumed. */
  lemma TwoRoomyLeave(offers: seq<Offer>, placements: seq<Placement>, b: nat, c: nat)
    requires Roomy(offers, b) && Roomy(offers, c) && b != c
    ensures TotalOffered(offers) >= BUFFER_PER_PROGRAM
    ensures Outcome(offers, Blocking(offers), placements) <==> placements == []
    ensures Required(Blocking(offers)[1]) <= Left(offers, [], b) && !NoneLeft(offers, Blocking(offers), [])
  {
    hide Selected, TotalOffered, Distinct;
    NoBackendHoldsTotal(offers, b, c);
    BlockingSelection(offers);
    NothingPlaced(offers);
    var tiny := Blocking(offers)[1];
    assert !FitsNowhere(offers, [], tiny);
    assert tiny in Blocking(offers) && !IsPlaced([], tiny);
    if Outcome(offers, Blocking(offers), placements) {
      WithinOffers(offers, placements);
    }
  }

  /** The offers decide: no list of candidates leaves a program waiting that fits, if and only if at
      most one usable backend has more room than the buffer. */
  lemma NoneLeftExactly(offers: seq<Offer>)
    ensures (forall candidates, placements ::
               Distinct(candidates) && Outcome(offers, candidates, placements) ==> NoneLeft(offers, candidates, placements))
       <==> (forall b: nat, c: nat :: Roomy(offers, b) && Roomy(offers, c) ==> b == c)
  {
    hide Outcome, NoneLeft, Roomy, Distinct;
    if b: nat, c: nat :| Roomy(offers, b) && Roomy(offers, c) && b != c {
      TwoRoomyLeave(offers, [], b, c);
      BlockingSelection(offers);
    } else {
      forall candidates, placements | Distinct(candidates) && Outcome(offers, candidates, placements)
        ensures NoneLeft(offers, candidates, placements)
      {
        OneRoomyLeavesNone(offers, candidates, placements);
      }
    }
  }

  lemma TwoEqualOffers(offers: seq<Offer>)
    requires offers == [Offer(true, 600), Offer(true, 600)]
    ensures TotalOffered(offers) == 1200 && Roomy(offers, 0) && Roomy(offers, 1)
  {
    assert offers[..1][..0] == [] && TotalOffered(offers[..1]) == 600;
  }

  /** The resume step at such an input: nothing is resumed, although the second program fits either
      backend. */
  method FittingProgramNotTried() returns (placements: seq<Placement>)
    ensures var tiny := Program("tiny", 1, false); var offers := [Offer(true, 600), Offer(true, 600)];
      placements == [] && Required(tiny) <= Left(offers, placements, 0) && !FitsNowhere(offers, placements, tiny)
  {
    hide Outcome, TotalOffered;
    var offers := [Offer(true, 600), Offer(true, 600)];
    TwoEqualOffers(offers);
    var candidates := [Program("large", 1100, false), Program("tiny", 1, false)];
    assert candidates == Blocking(offers);
    BlockingSelection(offers);
    placements := GreedyResume(offers, candidates);
    TwoRoomyLeave(offers, placements, 0, 1);
  }
}
