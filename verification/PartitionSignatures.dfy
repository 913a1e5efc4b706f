/** The backward pass that gives every partition its inputs, outputs and deallocations. */
module PartitionSignatures {
  import opened PartitionGraph

  // ---------------------------------------------------------------- what the pass computes

  /** partition_input_names: what is touched but not produced here, by real name, and what is freed
      here but was produced elsewhere. */
  function InputNames(g: Graph, p: Partition): set<Name>
    requires Resolved(g)
  {
    (set x | x in TouchedNames(p) && !IsNone(g, x) && x !in OutputNames(p) :: Real(g, x))
    + ((FreedNames(p) - OutputNames(p)) * NameToNode(g))
  }

  /** returned_output_names, given the names still unmet after the partition. */
  function ReturnedNames(g: Graph, p: Partition, unmet: set<Name>): set<Name>
    requires Resolved(g)
  {
    set x | x in OutputNames(p) * unmet + (InputNames(g, p) * NameToNode(g) - FreedNames(p)) :: Real(g, x)
  }

  function UnmetBefore(g: Graph, p: Partition, unmet: set<Name>): set<Name>
    requires Resolved(g)
  {
    InputNames(g, p) + (unmet - ReturnedNames(g, p, unmet))
  }

  function SignatureOf(g: Graph, p: Partition, unmet: set<Name>): Signature
    requires Resolved(g)
  {
    var inputNodes := InputNames(g, p) * NameToNode(g);
    Signature(inputNodes,
              set x | x in ReturnedNames(g, p, unmet) && !IsNone(g, x),
              map x | x in inputNodes :: x in FreedNames(p))
  }

  /** The names unmet before partition k: needed from k on and not produced on the way. */
  function Unmet(g: Graph, k: nat): set<Name>
    requires Resolved(g) && k <= |g.parts|
    decreases |g.parts| - k
  {
    if k == |g.parts| then g.outputs else UnmetBefore(g, g.parts[k], Unmet(g, k + 1))
  }

  function Signatures(g: Graph): (signatures: seq<Signature>)
    requires Resolved(g)
    ensures |signatures| == |g.parts|
  {
    seq(|g.parts|, k requires 0 <= k < |g.parts| => SignatureOf(g, g.parts[k], Unmet(g, k + 1)))
  }

  // ---------------------------------------------------------------- the inputs of a partition

  /** Where a freed name comes from. */
  lemma FreedComesFromBefore(g: Graph, k: nat, x: Name)
    requires WellFormed(g) && k < |g.parts|
    requires x in FreedNames(g.parts[k]) && x !in OutputNames(g.parts[k]) && x in NameToNode(g)
    ensures x in DefinedBefore(g, k) && x !in ReleasedBefore(g, k) && Real(g, x) == x
  {
    var p := g.parts[k];
    var j :| 0 <= j < |p| && x in p[j].lastUsage;
    assert NodeOk(g, k, j);
    PrefixNames(p, j + 1);
    DefinedAt(g, k, j);
  }

  /** An alias that a node makes stands for a buffer it touches, and that exists before the node is done. */
  lemma AliasOfNode(g: Graph, q: nat, m: nat, y: Name)
    requires WellFormed(g) && q < |g.parts| && m < |g.parts[q]|
    requires y in g.parts[q][m].outputs && y in g.realName && !IsNone(g, y) && Real(g, y) in NameToNode(g)
    ensures Real(g, y) in Defined(g, q, m + 1)
  {
    assert NodeOk(g, q, m);
    RealIsReal(g, y);
    assert Real(g, y) in Needed(g, g.parts[q][m]);
  }

  lemma ProducedBy(g: Graph, k: nat, y: Name) returns (q: nat, m: nat)
    requires k <= |g.parts| && y in DefinedBefore(g, k) && y !in g.inputs
    ensures q < k && m < |g.parts[q]| && y in g.parts[q][m].outputs
  {
    q :| 0 <= q < k && y in OutputNames(g.parts[q]);
    m :| 0 <= m < |g.parts[q]| && y in g.parts[q][m].outputs;
  }

  /** An alias made by an earlier partition stands for a buffer that existed before. */
  lemma AliasOfEarlier(g: Graph, k: nat, y: Name)
    requires WellFormed(g) && k <= |g.parts| && y in g.realName && !IsNone(g, y)
    requires y in DefinedBefore(g, k) && Real(g, y) in NameToNode(g)
    ensures Real(g, y) in DefinedBefore(g, k)
  {
    hide WellFormed, IsNone, DefinedBefore, Defined, NameToNode, OutputNames, Real;
    AliasIsNoInput(g, y);
    var q, m := ProducedBy(g, k, y);
    AliasOfNode(g, q, m, y);
    DefinedWithin(g, q, m + 1);
    DefinedMonotone(g, q + 1, k);
  }

  lemma AliasIsNoInput(g: Graph, y: Name)
    requires WellFormed(g) && y in g.realName && !IsNone(g, y)
    ensures Resolved(g) && y !in g.inputs
  {
    RealIsReal(g, y);
  }

  lemma TouchedComesFromBefore(g: Graph, k: nat, y: Name)
    requires WellFormed(g) && k < |g.parts|
    requires y in TouchedNames(g.parts[k]) && y !in OutputNames(g.parts[k]) && !IsNone(g, y)
    requires Real(g, y) in NameToNode(g)
    ensures Real(g, y) in DefinedBefore(g, k) && Real(g, y) !in ReleasedBefore(g, k)
  {
    var p := g.parts[k];
    var j :| 0 <= j < |p| && y in p[j].readNames + p[j].writeNames;
    assert NodeOk(g, k, j);
    assert Real(g, y) in Needed(g, p[j]);
    PrefixNames(p, j + 1);
    DefinedAt(g, k, j);
    if y in g.realName {
      assert y in Defined(g, k, j + 1);
      AliasOfEarlier(g, k, y);
    }
  }

  /** Every input with a node existed before the partition and has not been released. */
  lemma InputsComeFromBefore(g: Graph, k: nat, x: Name)
    requires WellFormed(g) && k < |g.parts| && x in InputNames(g, g.parts[k])
    ensures Real(g, x) == x
    ensures x in NameToNode(g) ==> x in DefinedBefore(g, k) && x !in ReleasedBefore(g, k) && x !in OutputNames(g.parts[k])
  {
    var p := g.parts[k];
    if x in (FreedNames(p) - OutputNames(p)) * NameToNode(g) {
      FreedComesFromBefore(g, k, x);
    } else {
      var y :| y in TouchedNames(p) && !IsNone(g, y) && y !in OutputNames(p) && x == Real(g, y);
      RealIsReal(g, y);
      if x in NameToNode(g) {
        TouchedComesFromBefore(g, k, y);
      }
    }
    ProducedOnce(g, k);
  }

  // ---------------------------------------------------------------- unmet names

  /** Unmet names are real, existed before, and have not been released. */
  lemma {:induction false} UnmetIsLive(g: Graph, k: nat, x: Name)
    requires WellFormed(g) && k <= |g.parts| && x in Unmet(g, k)
    ensures Real(g, x) == x
    ensures x in NameToNode(g) ==> x in DefinedBefore(g, k) && x !in ReleasedBefore(g, k)
    decreases |g.parts| - k
  {
    if k == |g.parts| {
      DefinedMonotone(g, k, k);
      OutputsNotReleased(g, k, x);
    } else if x in InputNames(g, g.parts[k]) {
      InputsComeFromBefore(g, k, x);
    } else {
      UnmetIsLive(g, k + 1, x);
      DefinedWithin(g, k, 0);
    }
  }

  lemma OutputsNotReleased(g: Graph, k: nat, x: Name)
    requires WellFormed(g) && k <= |g.parts| && x in g.outputs
    ensures x !in ReleasedBefore(g, k)
  {
    forall i, j | 0 <= i < k && 0 <= j < |g.parts[i]|
      ensures x !in g.parts[i][j].lastUsage
    {
      assert NodeOk(g, i, j);
    }
  }

  /** The pass subtracts what is returned; that amounts to subtracting what is produced. */
  lemma UnmetStep(g: Graph, k: nat)
    requires WellFormed(g) && k < |g.parts|
    ensures Unmet(g, k) == InputNames(g, g.parts[k]) + (Unmet(g, k + 1) - OutputNames(g.parts[k]))
  {
    var p, unmet := g.parts[k], Unmet(g, k + 1);
    forall x | x in unmet
      ensures x in OutputNames(p) ==> x in ReturnedNames(g, p, unmet)
    {
      UnmetIsLive(g, k + 1, x);
    }
    forall x | x in ReturnedNames(g, p, unmet)
      ensures x in OutputNames(p) || x in InputNames(g, p)
    {
      ReturnedAreReal(g, k, x);
    }
  }

  /** Taking real names at the end of a step changes nothing. */
  lemma ReturnedAreReal(g: Graph, k: nat, x: Name)
    requires WellFormed(g) && k < |g.parts|
    ensures x in ReturnedNames(g, g.parts[k], Unmet(g, k + 1)) <==>
      || x in OutputNames(g.parts[k]) * Unmet(g, k + 1)
      || x in InputNames(g, g.parts[k]) * NameToNode(g) - FreedNames(g.parts[k])
  {
    var p, unmet := g.parts[k], Unmet(g, k + 1);
    var names := OutputNames(p) * unmet + (InputNames(g, p) * NameToNode(g) - FreedNames(p));
    forall y | y in names ensures Real(g, y) == y {
      if y in unmet {
        UnmetIsLive(g, k + 1, y);
      } else {
        InputsComeFromBefore(g, k, y);
      }
    }
    if x in names {
      assert Real(g, x) == x;
    }
  }

  ghost predicate ProducedBetween(g: Graph, x: Name, k: nat, j: nat)
    requires j <= |g.parts|
  {
    exists i :: k <= i < j && x in OutputNames(g.parts[i])
  }

  ghost predicate NeededFrom(g: Graph, x: Name, k: nat)
    requires Resolved(g) && k <= |g.parts|
  {
    || (x in g.outputs && !ProducedBetween(g, x, k, |g.parts|))
    || (exists j :: k <= j < |g.parts| && x in InputNames(g, g.parts[j]) && !ProducedBetween(g, x, k, j))
  }

  /** Exact liveness: a name is unmet before partition k iff a later partition takes it as input, or
      it is a graph output, and nothing produces it on the way. */
  lemma {:induction false} UnmetExactly(g: Graph, k: nat, x: Name)
    requires WellFormed(g) && k <= |g.parts|
    ensures x in Unmet(g, k) <==> NeededFrom(g, x, k)
    decreases |g.parts| - k
  {
    hide InputNames, OutputNames, ReturnedNames, NeededFrom, NodeOk;
    if k == |g.parts| {
      NeededAtEnd(g, x);
    } else {
      UnmetExactly(g, k + 1, x);
      UnmetStep(g, k);
      NeededStep(g, x, k);
    }
  }

  /** The outputs of a partition: what it produces and is needed later, and its own inputs that it does
      not free, as long as they have a layout. */
  lemma OutputsExactly(g: Graph, k: nat, x: Name)
    requires Resolved(g) && WellFormed(g) && k < |g.parts|
    ensures x in Signatures(g)[k].outputNodes <==>
      && !IsNone(g, x)
      && (|| (x in OutputNames(g.parts[k]) && NeededFrom(g, x, k + 1))
          || (x in Signatures(g)[k].inputNodes && x !in FreedNames(g.parts[k])))
  {
    hide WellFormed, InputNames, OutputNames, FreedNames, NameToNode, ReturnedNames, NeededFrom, IsNone, Unmet;
    ReturnedAreReal(g, k, x);
    UnmetExactly(g, k + 1, x);
  }

  lemma TouchedIsInput(g: Graph, k: nat, j: nat, y: Name)
    requires Resolved(g) && WellFormed(g) && k < |g.parts| && j < |g.parts[k]|
    requires y in g.parts[k][j].readNames + g.parts[k][j].writeNames && !IsNone(g, y)
    requires Real(g, y) !in OutputNames(g.parts[k])
    ensures Real(g, y) in InputNames(g, g.parts[k])
  {
    hide IsNone;
    var p := g.parts[k];
    RealIsReal(g, y);
    if y in OutputNames(p) {
      var m :| 0 <= m < |p| && y in p[m].outputs;
      assert NodeOk(g, k, m);
      assert Real(g, y) in p[m].readNames + p[m].writeNames;
      assert Real(g, y) in TouchedNames(p);
    } else {
      assert y in TouchedNames(p);
    }
  }

  /** The inputs of a partition: the buffers with a node that some node of it works on or is the last to
      use, except those it produces itself. */
  lemma InputsExactly(g: Graph, k: nat, x: Name)
    requires Resolved(g) && WellFormed(g) && k < |g.parts|
    ensures x in Signatures(g)[k].inputNodes <==>
      && x in NameToNode(g) && x !in OutputNames(g.parts[k])
      && (exists j :: 0 <= j < |g.parts[k]| && x in Needed(g, g.parts[k][j]) + g.parts[k][j].lastUsage)
  {
    hide WellFormed, NameToNode, OutputNames, IsNone, Unmet;
    var p := g.parts[k];
    if x in Signatures(g)[k].inputNodes {
      InputsComeFromBefore(g, k, x);
      if x in FreedNames(p) {
        var j :| 0 <= j < |p| && x in p[j].lastUsage;
        assert x in Needed(g, p[j]) + p[j].lastUsage;
      } else {
        var y :| y in TouchedNames(p) && !IsNone(g, y) && Real(g, y) == x;
        var j :| 0 <= j < |p| && y in p[j].readNames + p[j].writeNames;
        assert x in Needed(g, p[j]) + p[j].lastUsage;
      }
    }
    if j :| 0 <= j < |p| && x in Needed(g, p[j]) + p[j].lastUsage && x in NameToNode(g) && x !in OutputNames(p) {
      if x in p[j].lastUsage {
        assert x in FreedNames(p);
      } else {
        var y :| y in p[j].readNames + p[j].writeNames && !IsNone(g, y) && Real(g, y) == x;
        TouchedIsInput(g, k, j, y);
      }
    }
  }

  /** The deallocations: for every input, whether the partition is its last user. */
  lemma DeallocationExactly(g: Graph, k: nat, x: Name)
    requires Resolved(g) && k < |g.parts|
    ensures Signatures(g)[k].deallocation.Keys == Signatures(g)[k].inputNodes
    ensures x in Signatures(g)[k].inputNodes ==>
      (Signatures(g)[k].deallocation[x] <==> exists j :: 0 <= j < |g.parts[k]| && x in g.parts[k][j].lastUsage)
  {
    hide InputNames, ReturnedNames, Unmet, NameToNode;
    if x in FreedNames(g.parts[k]) {
      var j :| 0 <= j < |g.parts[k]| && x in g.parts[k][j].lastUsage;
    }
  }

  lemma NeededAtEnd(g: Graph, x: Name)
    requires Resolved(g)
    ensures NeededFrom(g, x, |g.parts|) <==> x in g.outputs
  {
    NothingBetween(g, x, |g.parts|);
  }

  lemma ProducedStep(g: Graph, x: Name, k: nat, j: nat)
    requires k < j <= |g.parts|
    ensures ProducedBetween(g, x, k, j) <==> x in OutputNames(g.parts[k]) || ProducedBetween(g, x, k + 1, j)
  {
  }

  lemma NeededStep(g: Graph, x: Name, k: nat)
    requires Resolved(g) && k < |g.parts|
    ensures NeededFrom(g, x, k) <==>
      x in InputNames(g, g.parts[k]) || (NeededFrom(g, x, k + 1) && x !in OutputNames(g.parts[k]))
  {
    hide InputNames, OutputNames, ProducedBetween;
    ProducedStep(g, x, k, |g.parts|);
    NothingBetween(g, x, k);
    forall j | k < j < |g.parts|
      ensures ProducedBetween(g, x, k, j) <==> x in OutputNames(g.parts[k]) || ProducedBetween(g, x, k + 1, j)
    {
      ProducedStep(g, x, k, j);
    }
  }

  lemma NothingBetween(g: Graph, x: Name, k: nat)
    requires k <= |g.parts|
    ensures !ProducedBetween(g, x, k, k)
  {
  }

  /** Before the first partition only graph inputs (and names without a node) are unmet. */
  lemma OnlyInputsAtStart(g: Graph, x: Name)
    requires WellFormed(g) && x in Unmet(g, 0) && x in NameToNode(g)
    ensures x in g.inputs
  {
    UnmetIsLive(g, 0, x);
  }

  // ---------------------------------------------------------------- running with the signatures

  /** What is given or allocated and not yet freed is live. */
  lemma {:induction false} StaysLive(g: Graph, p: Partition, given: set<Name>, j: nat, x: Name)
    requires Resolved(g) && j <= |p|
    requires x in given || exists i :: 0 <= i < j && x in Allocated(g, p[i])
    requires x !in FreedNames(p[..j])
    ensures x in LiveInside(g, p, given, j)
  {
    if j > 0 {
      assert p[..j][j - 1] == p[j - 1];
      if x !in Allocated(g, p[j - 1]) {
        assert forall i :: 0 <= i < j - 1 ==> p[..j - 1][i] == p[..j][i];
        StaysLive(g, p, given, j - 1, x);
      }
    }
  }

  /** What node j of partition k needs is an input of the partition, or allocated in it by then. */
  lemma NeededAvailable(g: Graph, k: nat, j: nat, r: Name)
    requires WellFormed(g) && k < |g.parts| && j < |g.parts[k]| && r in Needed(g, g.parts[k][j])
    ensures r in InputNames(g, g.parts[k]) || exists i :: 0 <= i <= j && r in Allocated(g, g.parts[k][i])
  {
    var p := g.parts[k];
    var y :| y in p[j].readNames + p[j].writeNames && !IsNone(g, y) && Real(g, y) in NameToNode(g) && r == Real(g, y);
    assert NodeOk(g, k, j);
    RealIsReal(g, y);
    assert y in TouchedNames(p);
    if r in OutputNames(p[..j + 1]) {
      var i :| 0 <= i < |p[..j + 1]| && r in p[..j + 1][i].outputs;
      assert r in Allocated(g, p[i]);
    } else if y in OutputNames(p) {
      NotProducedLater(g, k, j, r);
      MutatedInside(g, k, y);
    }
  }

  lemma NotProducedLater(g: Graph, k: nat, j: nat, r: Name)
    requires WellFormed(g) && k < |g.parts| && j < |g.parts[k]|
    requires r in Defined(g, k, j + 1) && r !in OutputNames(g.parts[k][..j + 1])
    ensures r !in OutputNames(g.parts[k])
  {
    ProducedOnce(g, k);
  }

  /** A buffer mutated inside a partition that did not produce it is an input of the partition. */
  lemma MutatedInside(g: Graph, k: nat, y: Name)
    requires WellFormed(g) && k < |g.parts| && y in OutputNames(g.parts[k]) && !IsNone(g, y)
    requires Real(g, y) !in OutputNames(g.parts[k])
    ensures Real(g, y) in InputNames(g, g.parts[k])
  {
    var p := g.parts[k];
    var m :| 0 <= m < |p| && y in p[m].outputs;
    assert NodeOk(g, k, m);
    RealIsReal(g, y);
    assert Real(g, y) in TouchedNames(p);
  }

  lemma NodeRunsInside(g: Graph, k: nat, j: nat, given: set<Name>)
    requires WellFormed(g) && k < |g.parts| && j < |g.parts[k]|
    requires given == InputNames(g, g.parts[k]) * NameToNode(g)
    ensures NodeRuns(g, g.parts[k][j], LiveInside(g, g.parts[k], given, j))
  {
    var p := g.parts[k];
    forall r | r in Needed(g, p[j])
      ensures r in LiveInside(g, p, given, j) + Allocated(g, p[j])
    {
      NeededAvailable(g, k, j, r);
      assert NodeOk(g, k, j);
      if r !in Allocated(g, p[j]) {
        StaysLive(g, p, given, j, r);
      }
    }
  }

  lemma OutputsStayLive(g: Graph, k: nat, given: set<Name>, x: Name)
    requires WellFormed(g) && k < |g.parts| && given == InputNames(g, g.parts[k]) * NameToNode(g)
    requires x in ReturnedNames(g, g.parts[k], Unmet(g, k + 1)) && !IsNone(g, x)
    ensures x in LiveInside(g, g.parts[k], given, |g.parts[k]|)
    ensures x in NameToNode(g)
  {
    var p := g.parts[k];
    ReturnedAreReal(g, k, x);
    PrefixNames(p, |p|);
    DefinedMonotone(g, k, k + 1);
    DefinedWithin(g, k, 0);
    if x in OutputNames(p) * Unmet(g, k + 1) {
      UnmetIsLive(g, k + 1, x);
      DefinedMonotone(g, k + 1, k + 1);
      var i :| 0 <= i < |p| && x in p[i].outputs;
      assert x in Allocated(g, p[i]);
    }
    StaysLive(g, p, given, |p|, x);
  }

  /** Called with its declared inputs, every partition function runs to the end. */
  lemma EveryPartitionRuns(g: Graph, k: nat)
    requires Resolved(g) && WellFormed(g) && k < |g.parts|
    ensures PartitionRuns(g, g.parts[k], Signatures(g)[k])
  {
    hide WellFormed, NodeRuns, LiveInside, InputNames, ReturnedNames, NameToNode, Unmet;
    var p, sig := g.parts[k], Signatures(g)[k];
    forall j: nat | j < |p| ensures NodeRuns(g, p[j], LiveInside(g, p, sig.inputNodes, j)) {
      NodeRunsInside(g, k, j, sig.inputNodes);
    }
    forall x | x in sig.outputNodes ensures x in LiveInside(g, p, sig.inputNodes, |p|) {
      OutputsStayLive(g, k, sig.inputNodes, x);
    }
  }

  /** Partition k is the last user of a buffer without layout that another partition produced. */
  ghost predicate FreesForeignNone(g: Graph, k: nat)
    requires Resolved(g) && k < |g.parts|
  {
    exists x :: x in (FreedNames(g.parts[k]) - OutputNames(g.parts[k])) * NameToNode(g) && IsNone(g, x)
  }

  /** The documented rule "a buffer without layout is no partition input" holds exactly when the
      partition frees no such buffer of another partition. */
  lemma NoneInputExactly(g: Graph, k: nat)
    requires Resolved(g) && WellFormed(g) && k < |g.parts|
    ensures (exists x :: x in Signatures(g)[k].inputNodes && IsNone(g, x)) <==> FreesForeignNone(g, k)
  {
    hide WellFormed, TouchedNames, FreedNames, OutputNames, NameToNode, InputNames, ReturnedNames, IsNone, Unmet;
    var p := g.parts[k];
    assert Signatures(g)[k].inputNodes == InputNames(g, p) * NameToNode(g);
    if FreesForeignNone(g, k) {
      var x :| x in (FreedNames(p) - OutputNames(p)) * NameToNode(g) && IsNone(g, x);
      FreedIsInput(g, p, x);
      assert x in Signatures(g)[k].inputNodes;
    }
    if x :| x in Signatures(g)[k].inputNodes && IsNone(g, x) {
      InputWithoutLayout(g, k, x);
    }
  }

  lemma FreedIsInput(g: Graph, p: Partition, x: Name)
    requires Resolved(g) && x in (FreedNames(p) - OutputNames(p)) * NameToNode(g)
    ensures x in InputNames(g, p)
  {
    hide FreedNames, OutputNames, NameToNode, TouchedNames, IsNone;
  }

  lemma InputWithoutLayout(g: Graph, k: nat, x: Name)
    requires WellFormed(g) && k < |g.parts| && x in InputNames(g, g.parts[k]) && IsNone(g, x)
    ensures x in (FreedNames(g.parts[k]) - OutputNames(g.parts[k])) * NameToNode(g)
  {
    forall y ensures !IsNone(g, y) ==> Real(g, y) != x {
      RealIsReal(g, y);
    }
  }

  lemma {:induction false} UnmetHasLayout(g: Graph, k: nat, x: Name)
    requires WellFormed(g) && k <= |g.parts| && x in Unmet(g, k) && x in NameToNode(g)
    requires forall i :: k <= i < |g.parts| ==> !FreesForeignNone(g, i)
    ensures !IsNone(g, x)
    decreases |g.parts| - k
  {
    if k < |g.parts| {
      if x in InputNames(g, g.parts[k]) {
        NoneInputExactly(g, k);
      } else {
        UnmetHasLayout(g, k + 1, x);
      }
    }
  }

  /** A call leaves the caller with what it returns and with what it did not free. */
  lemma CallerKeeps(g: Graph, k: nat, x: Name)
    requires Resolved(g) && k < |g.parts|
    requires || x in Signatures(g)[k].outputNodes
             || (x in CallerBefore(g, Signatures(g), k) && x !in FreedNames(g.parts[k]))
    ensures x in CallerBefore(g, Signatures(g), k + 1)
  {
    hide FreedNames, ReturnedNames, InputNames, NameToNode, Unmet, IsNone;
    var sig := Signatures(g)[k];
    assert x in sig.deallocation ==> sig.deallocation[x] == (x in FreedNames(g.parts[k]));
  }

  lemma UnmetIsReturned(g: Graph, k: nat, x: Name)
    requires Resolved(g) && WellFormed(g) && k < |g.parts| && x in Unmet(g, k + 1) && x in OutputNames(g.parts[k]) && !IsNone(g, x)
    ensures x in Signatures(g)[k].outputNodes
  {
    hide WellFormed, InputNames, OutputNames, FreedNames, NameToNode, Unmet, IsNone, ReturnedNames;
    ReturnedAreReal(g, k, x);
  }

  /** The caller holds whatever is still unmet. */
  lemma {:induction false} CallerHoldsUnmet(g: Graph, k: nat, x: Name)
    requires Resolved(g) && WellFormed(g) && k <= |g.parts| && x in Unmet(g, k) && x in NameToNode(g)
    requires forall i :: 0 <= i < |g.parts| ==> !FreesForeignNone(g, i)
    ensures x in CallerBefore(g, Signatures(g), k)
  {
    hide WellFormed, InputNames, ReturnedNames, FreesForeignNone, CallerBefore, Signatures, Unmet, NameToNode, IsNone;
    if k == 0 {
      OnlyInputsAtStart(g, x);
      CallerAtStart(g);
    } else {
      if x in OutputNames(g.parts[k - 1]) {
        UnmetHasLayout(g, k, x);
        UnmetIsReturned(g, k - 1, x);
      } else {
        UnmetStep(g, k - 1);
        CallerHoldsUnmet(g, k - 1, x);
        UnmetIsLive(g, k, x);
        DefinedWithin(g, k - 1, 0);
      }
      CallerKeeps(g, k - 1, x);
    }
  }

  lemma CallerAtStart(g: Graph)
    requires Resolved(g)
    ensures |Signatures(g)| == |g.parts|
    ensures CallerBefore(g, Signatures(g), 0) == g.inputs
  {
  }

  lemma CallerComesFrom(g: Graph, k: nat, x: Name)
    requires Resolved(g) && k < |g.parts| && x in CallerBefore(g, Signatures(g), k + 1)
    ensures x in CallerBefore(g, Signatures(g), k) || !IsNone(g, x)
  {
    hide ReturnedNames, InputNames, FreedNames, NameToNode, Unmet, IsNone;
  }

  lemma {:induction false} CallerHasLayouts(g: Graph, k: nat, x: Name)
    requires Resolved(g) && WellFormed(g) && k <= |g.parts| && x in CallerBefore(g, Signatures(g), k)
    ensures !IsNone(g, x)
  {
    hide CallerBefore, IsNone, SignatureOf;
    if k == 0 {
      CallerAtStart(g);
    } else {
      CallerComesFrom(g, k - 1, x);
      if x in CallerBefore(g, Signatures(g), k - 1) {
        CallerHasLayouts(g, k - 1, x);
      }
    }
  }

  lemma InputsHeld(g: Graph, k: nat)
    requires Resolved(g) && WellFormed(g) && k < |g.parts|
    requires forall i :: 0 <= i < |g.parts| ==> !FreesForeignNone(g, i)
    ensures Signatures(g)[k].inputNodes <= CallerBefore(g, Signatures(g), k)
  {
    hide WellFormed, InputNames, ReturnedNames, FreesForeignNone, CallerBefore, NameToNode, IsNone, Unmet;
    assert Signatures(g)[k].inputNodes == InputNames(g, g.parts[k]) * NameToNode(g);
    UnmetStep(g, k);
    forall x | x in Signatures(g)[k].inputNodes ensures x in CallerBefore(g, Signatures(g), k) {
      CallerHoldsUnmet(g, k, x);
    }
  }

  lemma OutputsHeld(g: Graph)
    requires Resolved(g) && WellFormed(g)
    requires forall i :: 0 <= i < |g.parts| ==> !FreesForeignNone(g, i)
    ensures g.outputs <= CallerBefore(g, Signatures(g), |g.parts|)
  {
    hide WellFormed, FreesForeignNone, CallerBefore, Signatures, NameToNode;
    forall x | x in g.outputs ensures x in CallerBefore(g, Signatures(g), |g.parts|) {
      OutputsHaveNodes(g, x);
      CallerHoldsUnmet(g, |g.parts|, x);
    }
  }

  lemma InputMissing(g: Graph, k: nat)
    requires Resolved(g) && WellFormed(g) && k < |g.parts| && FreesForeignNone(g, k)
    ensures !(Signatures(g)[k].inputNodes <= CallerBefore(g, Signatures(g), k))
  {
    hide WellFormed, FreesForeignNone, CallerBefore, Signatures, IsNone;
    NoneInputExactly(g, k);
    var x :| x in Signatures(g)[k].inputNodes && IsNone(g, x);
    if x in CallerBefore(g, Signatures(g), k) {
      CallerHasLayouts(g, k, x);
    }
  }

  /** The partitioned program runs with the computed signatures, never reading a missing buffer and
      ending with all graph outputs, exactly when no partition is the last user of a buffer without
      layout that another partition produced. */
  lemma RunsExactlyWhen(g: Graph)
    requires Resolved(g) && WellFormed(g)
    ensures RunsSafely(g, Signatures(g)) <==> forall k :: 0 <= k < |g.parts| ==> !FreesForeignNone(g, k)
  {
    hide WellFormed, PartitionRuns, FreesForeignNone, CallerBefore, Signatures;
    CallerAtStart(g);
    forall k: nat | k < |g.parts| ensures PartitionRuns(g, g.parts[k], Signatures(g)[k]) {
      EveryPartitionRuns(g, k);
    }
    if forall k :: 0 <= k < |g.parts| ==> !FreesForeignNone(g, k) {
      forall k: nat | k < |g.parts| ensures Signatures(g)[k].inputNodes <= CallerBefore(g, Signatures(g), k) {
        InputsHeld(g, k);
      }
      OutputsHeld(g);
    } else {
      var k: nat :| k < |g.parts| && FreesForeignNone(g, k);
      InputMissing(g, k);
    }
  }

  lemma OutputsHaveNodes(g: Graph, x: Name)
    requires WellFormed(g) && x in g.outputs
    ensures x in NameToNode(g)
  {
  }

  /** Returned buffers exist and are still in use. */
  lemma ReturnedInUse(g: Graph, k: nat, x: Name)
    requires Resolved(g) && WellFormed(g) && k < |g.parts| && x in ReturnedNames(g, g.parts[k], Unmet(g, k + 1))
    ensures x in DefinedBefore(g, k + 1) && x !in ReleasedBefore(g, k + 1)
  {
    hide WellFormed, InputNames, OutputNames, FreedNames, NameToNode, Unmet, ReturnedNames, DefinedBefore, ReleasedBefore;
    ReturnedAreReal(g, k, x);
    DefinedWithin(g, k, 0);
    DefinedMonotone(g, k + 1, k + 1);
    if x in OutputNames(g.parts[k]) * Unmet(g, k + 1) {
      UnmetIsLive(g, k + 1, x);
    } else {
      InputsComeFromBefore(g, k, x);
    }
  }

  lemma {:induction false} CallerDefined(g: Graph, k: nat, x: Name)
    requires Resolved(g) && WellFormed(g) && k <= |g.parts| && x in CallerBefore(g, Signatures(g), k)
    ensures x in DefinedBefore(g, k)
  {
    hide WellFormed, SignatureOf, IsNone, ReturnedNames, InputNames, NameToNode, Unmet, DefinedBefore, CallerBefore;
    CallerAtStart(g);
    if k == 0 {
      DefinedMonotone(g, 0, 0);
      InputsAreDefined(g);
    } else {
      CallResult(g, k - 1, x);
      DefinedMonotone(g, k - 1, k);
      if x in CallerBefore(g, Signatures(g), k - 1) {
        CallerDefined(g, k - 1, x);
      } else {
        ReturnedInUse(g, k - 1, x);
      }
    }
  }

  lemma InputsAreDefined(g: Graph)
    ensures g.inputs <= DefinedBefore(g, 0)
  {
  }

  /** What the caller holds after a call was returned, or was held and not handed over to be freed. */
  lemma CallResult(g: Graph, k: nat, x: Name)
    requires Resolved(g) && k < |g.parts| && x in CallerBefore(g, Signatures(g), k + 1)
    ensures || x in ReturnedNames(g, g.parts[k], Unmet(g, k + 1))
            || (x in CallerBefore(g, Signatures(g), k)
                && x !in InputNames(g, g.parts[k]) * NameToNode(g) * FreedNames(g.parts[k]))
  {
    hide ReturnedNames, InputNames, FreedNames, NameToNode, Unmet, IsNone;
    var sig := Signatures(g)[k];
    assert x in sig.deallocation ==> sig.deallocation[x] == (x in FreedNames(g.parts[k]));
  }

  /** Nothing is leaked: a buffer past its last use is no longer held by the caller. */
  lemma {:induction false} ReleasedIsGone(g: Graph, k: nat, x: Name)
    requires Resolved(g) && WellFormed(g) && k <= |g.parts| && x in ReleasedBefore(g, k)
    ensures x !in CallerBefore(g, Signatures(g), k)
  {
    hide WellFormed, CallerBefore, SignatureOf, IsNone, ReturnedNames, InputNames, NameToNode, Unmet;
    NothingReleasedAtStart(g);
    if k > 0 && x in CallerBefore(g, Signatures(g), k) {
      CallResult(g, k - 1, x);
      DefinedWithin(g, k - 1, 0);
      if x in ReturnedNames(g, g.parts[k - 1], Unmet(g, k)) {
        ReturnedInUse(g, k - 1, x);
      } else if x in ReleasedBefore(g, k - 1) {
        ReleasedIsGone(g, k - 1, x);
      } else {
        CallerDefined(g, k - 1, x);
        FreedHeldIsInput(g, k - 1, x);
      }
    }
  }

  lemma NothingReleasedAtStart(g: Graph)
    ensures ReleasedBefore(g, 0) == {}
  {
  }

  lemma FreedHeldIsInput(g: Graph, k: nat, x: Name)
    requires WellFormed(g) && k < |g.parts| && x in DefinedBefore(g, k) && x in FreedNames(g.parts[k])
    ensures x in InputNames(g, g.parts[k]) * NameToNode(g) * FreedNames(g.parts[k])
  {
    hide WellFormed, IsNone, DefinedBefore;
    ProducedOnce(g, k);
    DefinedMonotone(g, k, k);
  }

  // ---------------------------------------------------------------- a program that does not run

  const TOKEN := Name("token")
  const DATA := Name("data")

  /** Partition 0 produces data and a token without layout; partition 1 reads both and is their last user. */
  function TokenProgram(): Graph {
    Graph({}, {}, [[Node({DATA, TOKEN}, {}, {DATA, TOKEN}, {})], [Node({}, {DATA, TOKEN}, {}, {DATA, TOKEN})]],
          map[], {TOKEN}, {})
  }

  /** A well-formed program may still be cut so that its signatures cannot be honoured. */
  lemma TokenProgramFails()
    ensures WellFormed(TokenProgram()) && !RunsSafely(TokenProgram(), Signatures(TokenProgram()))
  {
    TokenProgramWellFormed();
    var g := TokenProgram();
    assert g.parts[1][0].lastUsage == {DATA, TOKEN} && g.parts[0][0].outputs == {DATA, TOKEN};
    assert TOKEN in FreedNames(g.parts[1]) && TOKEN in OutputNames(g.parts[0]) && TOKEN !in OutputNames(g.parts[1]);
    assert TOKEN in NameToNode(g) && IsNone(g, TOKEN);
    assert TOKEN in (FreedNames(g.parts[1]) - OutputNames(g.parts[1])) * NameToNode(g);
    assert FreesForeignNone(g, 1);
    RunsExactlyWhen(g);
  }

  lemma TokenProgramWellFormed()
    ensures WellFormed(TokenProgram())
  {
    var g := TokenProgram();
    assert TOKEN != DATA by { assert |TOKEN.id| != |DATA.id|; }
    assert NodeOk(g, 0, 0) by { TokenNodeOk(0); }
    assert NodeOk(g, 1, 0) by { TokenNodeOk(1); }
    forall k, j | 0 <= k < |g.parts| && 0 <= j < |g.parts[k]| ensures NodeOk(g, k, j) {
      assert j == 0 && (k == 0 || k == 1);
    }
  }

  lemma TokenNodeOk(k: nat)
    requires k < 2
    ensures NodeOk(TokenProgram(), k, 0)
  {
    hide DefinedBefore, ReleasedBefore, OutputNames, FreedNames;
    var g := TokenProgram();
    DefinedAt(g, k, 0);
    TokenNames();
    assert g.parts[k][..0] == [];
    assert Defined(g, k, 0) == if k == 0 then {} else {DATA, TOKEN};
    assert Released(g, k, 0) == {};
  }

  lemma TokenNames()
    ensures var g := TokenProgram();
      && OutputNames([]) == FreedNames([]) == {}
      && DefinedBefore(g, 0) == ReleasedBefore(g, 0) == ReleasedBefore(g, 1) == {}
      && DefinedBefore(g, 1) == {DATA, TOKEN}
  {
    var g := TokenProgram();
    assert g.parts[0][0].outputs == {DATA, TOKEN} && g.parts[0][0].lastUsage == {};
    assert OutputNames(g.parts[0]) == {DATA, TOKEN};
    assert FreedNames(g.parts[0]) == {};
  }

  // ---------------------------------------------------------------- the pass itself

  method CollectNames(g: Graph, p: Partition)
    returns (outputNames: set<Name>, touched: set<Name>, toFree: set<Name>)
    ensures outputNames == OutputNames(p) && touched == TouchedNames(p) && toFree == FreedNames(p)
  {
    outputNames, touched, toFree := {}, {}, {};
    for j := 0 to |p|
      invariant outputNames == OutputNames(p[..j]) && touched == TouchedNames(p[..j]) && toFree == FreedNames(p[..j])
    {
      PrefixStep(p, j);
      outputNames := outputNames + p[j].outputs;
      touched := touched + p[j].readNames + p[j].writeNames;
      toFree := toFree + p[j].lastUsage;
    }
    assert p[..|p|] == p;
  }

  /** One round of the reverse loop. */
  method SignPartition(g: Graph, p: Partition, unmetOutputNames: set<Name>, nameToNode: set<Name>)
    returns (signature: Signature, stillUnmet: set<Name>)
    requires Resolved(g) && nameToNode == NameToNode(g)
    ensures signature == SignatureOf(g, p, unmetOutputNames) && stillUnmet == UnmetBefore(g, p, unmetOutputNames)
  {
    hide OutputNames, TouchedNames, FreedNames, NameToNode, IsNone, Real;
    var outputNames, touched, bufferNamesToFree := CollectNames(g, p);
    var returnedOutputNames := outputNames * unmetOutputNames;
    var partitionInputNames := (set x | x in touched && !IsNone(g, x)) - outputNames;
    partitionInputNames := set x | x in partitionInputNames :: Real(g, x);
    var extraInputNames := set x | x in bufferNamesToFree - outputNames && x in nameToNode;
    partitionInputNames := partitionInputNames + extraInputNames;
    assert partitionInputNames == InputNames(g, p);
    var inputNodes := set x | x in partitionInputNames && x in nameToNode;
    var inputDeallocation := map x | x in partitionInputNames && x in nameToNode :: x in bufferNamesToFree;
    var extraOutputNames := set x | x in partitionInputNames && x in nameToNode && x !in bufferNamesToFree;
    returnedOutputNames := returnedOutputNames + extraOutputNames;
    assert returnedOutputNames == outputNames * unmetOutputNames + (InputNames(g, p) * nameToNode - bufferNamesToFree);
    returnedOutputNames := set x | x in returnedOutputNames :: Real(g, x);
    var outputNodes := set x | x in returnedOutputNames && !IsNone(g, x);
    signature := Signature(inputNodes, outputNodes, inputDeallocation);
    stillUnmet := partitionInputNames + (unmetOutputNames - returnedOutputNames);
  }

  lemma SignaturesAre(g: Graph, signatures: seq<Signature>)
    requires Resolved(g) && |signatures| == |g.parts|
    requires forall i :: 0 <= i < |g.parts| ==> signatures[i] == SignatureOf(g, g.parts[i], Unmet(g, i + 1))
    ensures signatures == Signatures(g)
  {
    hide SignatureOf, Unmet;
  }

  /** The reverse loop: one signature per partition, from the last to the first. */
  method GetGraphPartitionSignature(g: Graph) returns (signatures: seq<Signature>)
    requires Resolved(g)
    ensures signatures == Signatures(g)
    ensures WellFormed(g) ==>
      (RunsSafely(g, signatures) <==> forall k :: 0 <= k < |g.parts| ==> !FreesForeignNone(g, k))
  {
    hide RunsSafely, WellFormed, SignatureOf, UnmetBefore, NameToNode, IsNone, FreesForeignNone, Signatures;
    signatures := [];
    var unmetOutputNames := g.outputs;
    var nameToNode := NameToNode(g);
    for k := |g.parts| downto 0
      invariant unmetOutputNames == Unmet(g, k)
      invariant |signatures| == |g.parts| - k
      invariant forall i :: k <= i < |g.parts| ==> signatures[i - k] == SignatureOf(g, g.parts[i], Unmet(g, i + 1))
    {
      var signature;
      signature, unmetOutputNames := SignPartition(g, g.parts[k], unmetOutputNames, nameToNode);
      signatures := [signature] + signatures;
    }
    SignaturesAre(g, signatures);
    if WellFormed(g) {
      RunsExactlyWhen(g);
    }
  }
}
