/** The partitioned program whose signatures are computed, and what it means to run it. */
module PartitionGraph {

  datatype Name = Name(id: string)

  /** A scheduler node: the buffers it produces, reads, writes, and those it is the last to use. */
  datatype Node = Node(outputs: set<Name>, readNames: set<Name>, writeNames: set<Name>, lastUsage: set<Name>)

  type Partition = seq<Node>

  /** realName maps the output of an in-place mutation to the buffer it mutates; noneLayout are the
      buffers that are never allocated as such. */
  datatype Graph = Graph(inputs: set<Name>, outputs: set<Name>, parts: seq<Partition>,
                         realName: map<Name, Name>, noneLayout: set<Name>, mutationOutputs: set<Name>)

  function Real(g: Graph, x: Name): Name {
    if x in g.realName then g.realName[x] else x
  }

  /** Mutations are recorded against the original buffer, never against another mutation. */
  ghost predicate Resolved(g: Graph) {
    forall x :: x in g.realName ==> g.realName[x] !in g.realName
  }

  /** is_none_layout: a mutation output counts as its real buffer. */
  predicate IsNone(g: Graph, x: Name)
    requires Resolved(g)
    decreases if x in g.realName then 1 else 0
  {
    x in g.noneLayout && (x in g.mutationOutputs && x in g.realName ==> IsNone(g, g.realName[x]))
  }

  function OutputNames(p: Partition): set<Name> {
    set i, x | 0 <= i < |p| && x in p[i].outputs :: x
  }

  function TouchedNames(p: Partition): set<Name> {
    set i, x | 0 <= i < |p| && x in p[i].readNames + p[i].writeNames :: x
  }

  function FreedNames(p: Partition): set<Name> {
    set i, x | 0 <= i < |p| && x in p[i].lastUsage :: x
  }

  /** name_to_node: the graph inputs and everything some node produces. */
  function NameToNode(g: Graph): set<Name> {
    g.inputs + set k, x | 0 <= k < |g.parts| && x in OutputNames(g.parts[k]) :: x
  }

  // ---------------------------------------------------------------- well-formed programs

  /** Everything defined before node j of partition k runs. */
  ghost function Defined(g: Graph, k: nat, j: nat): set<Name>
    requires k < |g.parts| && j <= |g.parts[k]|
  {
    DefinedBefore(g, k) + OutputNames(g.parts[k][..j])
  }

  ghost function DefinedBefore(g: Graph, k: nat): set<Name>
    requires k <= |g.parts|
  {
    g.inputs + set i, x | 0 <= i < k && x in OutputNames(g.parts[i]) :: x
  }

  /** Everything some node before node j of partition k was the last to use. */
  ghost function Released(g: Graph, k: nat, j: nat): set<Name>
    requires k < |g.parts| && j <= |g.parts[k]|
  {
    ReleasedBefore(g, k) + FreedNames(g.parts[k][..j])
  }

  ghost function ReleasedBefore(g: Graph, k: nat): set<Name>
    requires k <= |g.parts|
  {
    set i, x | 0 <= i < k && x in FreedNames(g.parts[i]) :: x
  }

  /** The buffers a node really works on: what it touches, by real name, if it is allocated at all. */
  ghost function Needed(g: Graph, node: Node): set<Name>
    requires Resolved(g)
  {
    set x | x in node.readNames + node.writeNames && !IsNone(g, x) && Real(g, x) in NameToNode(g) :: Real(g, x)
  }

  /** What the scheduler guarantees about node j of partition k. */
  ghost predicate NodeOk(g: Graph, k: nat, j: nat)
    requires Resolved(g) && k < |g.parts| && j < |g.parts[k]|
  {
    var node := g.parts[k][j];
    // names are produced once
    && node.outputs !! Defined(g, k, j)
    // nodes come in topological order
    && (forall x :: x in node.readNames + node.writeNames && x in NameToNode(g) ==> x in Defined(g, k, j + 1))
    && Needed(g, node) <= Defined(g, k, j + 1)
    // a mutation touches the buffer it mutates
    && (forall x :: x in node.outputs && x in g.realName ==> g.realName[x] in node.readNames + node.writeNames)
    // last uses are last: nothing released is needed or released again, or is a graph output
    && (Needed(g, node) + node.lastUsage) !! Released(g, k, j)
    && node.lastUsage !! g.outputs
    && (forall x :: x in node.lastUsage ==> Real(g, x) == x && (x in NameToNode(g) ==> x in Defined(g, k, j + 1)))
  }

  ghost predicate WellFormed(g: Graph) {
    && Resolved(g)
    && (forall x :: x in g.realName ==> x in g.noneLayout && x in g.mutationOutputs && x in NameToNode(g))
    && (forall x :: x in g.inputs ==> Real(g, x) == x && !IsNone(g, x))
    && (forall x :: x in g.outputs ==> Real(g, x) == x && !IsNone(g, x) && x in NameToNode(g))
    && (forall k, j :: 0 <= k < |g.parts| && 0 <= j < |g.parts[k]| ==> NodeOk(g, k, j))
  }

  // ---------------------------------------------------------------- running a partition

  datatype Signature = Signature(inputNodes: set<Name>, outputNodes: set<Name>, deallocation: map<Name, bool>)

  /** Buffers a node allocates: outputs that are neither mutations of others nor without layout. */
  ghost function Allocated(g: Graph, node: Node): set<Name>
    requires Resolved(g)
  {
    set x | x in node.outputs && Real(g, x) == x && !IsNone(g, x)
  }

  /** Node j may run when what it needs is live or its own. */
  ghost predicate NodeRuns(g: Graph, node: Node, live: set<Name>)
    requires Resolved(g)
  {
    Needed(g, node) <= live + Allocated(g, node)
  }

  ghost function LiveAfter(g: Graph, node: Node, live: set<Name>): set<Name>
    requires Resolved(g)
  {
    live + Allocated(g, node) - node.lastUsage
  }

  /** The live buffers inside a partition function after its first j nodes. */
  ghost function LiveInside(g: Graph, p: Partition, given: set<Name>, j: nat): set<Name>
    requires Resolved(g) && j <= |p|
  {
    if j == 0 then given else LiveAfter(g, p[j - 1], LiveInside(g, p, given, j - 1))
  }

  /** The partition function called with its declared inputs finds every buffer it needs and
      can return every declared output. */
  ghost predicate PartitionRuns(g: Graph, p: Partition, sig: Signature)
    requires Resolved(g)
  {
    && (forall j :: 0 <= j < |p| ==> NodeRuns(g, p[j], LiveInside(g, p, sig.inputNodes, j)))
    && sig.outputNodes <= LiveInside(g, p, sig.inputNodes, |p|)
  }

  /** The caller's buffers after the call: deallocated inputs are gone, outputs are there. */
  ghost function CallerAfter(sig: Signature, env: set<Name>): set<Name> {
    env - (set x | x in sig.deallocation && sig.deallocation[x]) + sig.outputNodes
  }

  /** The caller's buffers before partition k. */
  ghost function CallerBefore(g: Graph, sigs: seq<Signature>, k: nat): set<Name>
    requires k <= |sigs|
  {
    if k == 0 then g.inputs else CallerAfter(sigs[k - 1], CallerBefore(g, sigs, k - 1))
  }

  /** The whole program runs: every call finds its inputs, every partition runs, and all graph
      outputs are there in the end. */
  ghost predicate RunsSafely(g: Graph, sigs: seq<Signature>)
    requires Resolved(g) && |sigs| == |g.parts|
  {
    && (forall k :: 0 <= k < |sigs| ==>
          sigs[k].inputNodes <= CallerBefore(g, sigs, k) && PartitionRuns(g, g.parts[k], sigs[k]))
    && g.outputs <= CallerBefore(g, sigs, |sigs|)
  }

  // ---------------------------------------------------------------- consequences of well-formedness

  lemma RealIsReal(g: Graph, x: Name)
    requires WellFormed(g)
    ensures Real(g, Real(g, x)) == Real(g, x)
    ensures IsNone(g, Real(g, x)) == IsNone(g, x)
  {
  }

  lemma DefinedAt(g: Graph, k: nat, j: nat)
    requires k < |g.parts| && j < |g.parts[k]|
    ensures Defined(g, k, j + 1) == Defined(g, k, j) + g.parts[k][j].outputs
    ensures Released(g, k, j + 1) == Released(g, k, j) + g.parts[k][j].lastUsage
    ensures DefinedBefore(g, k) <= Defined(g, k, j) && ReleasedBefore(g, k) <= Released(g, k, j)
  {
    PrefixStep(g.parts[k], j);
  }

  lemma PrefixStep(p: Partition, j: nat)
    requires j < |p|
    ensures OutputNames(p[..j + 1]) == OutputNames(p[..j]) + p[j].outputs
    ensures TouchedNames(p[..j + 1]) == TouchedNames(p[..j]) + p[j].readNames + p[j].writeNames
    ensures FreedNames(p[..j + 1]) == FreedNames(p[..j]) + p[j].lastUsage
  {
    var q, r := p[..j + 1], p[..j];
    assert forall i :: 0 <= i < j ==> q[i] == r[i];
    assert q[j] == p[j];
    forall x
      ensures x in TouchedNames(q) <==> x in TouchedNames(r) + p[j].readNames + p[j].writeNames
    {
      if x in TouchedNames(r) {
        var i :| 0 <= i < |r| && x in r[i].readNames + r[i].writeNames;
        assert x in q[i].readNames + q[i].writeNames;
      }
      if x in p[j].readNames + p[j].writeNames {
        assert x in q[j].readNames + q[j].writeNames;
      }
    }
  }

  lemma PrefixNames(p: Partition, j: nat)
    requires j <= |p|
    ensures OutputNames(p[..j]) <= OutputNames(p) && FreedNames(p[..j]) <= FreedNames(p)
    ensures p[..|p|] == p
  {
    assert forall i :: 0 <= i < j ==> p[..j][i] == p[i];
  }

  lemma DefinedWithin(g: Graph, k: nat, j: nat)
    requires k < |g.parts| && j <= |g.parts[k]|
    ensures Defined(g, k, j) <= DefinedBefore(g, k + 1) == DefinedBefore(g, k) + OutputNames(g.parts[k])
    ensures Released(g, k, j) <= ReleasedBefore(g, k + 1) == ReleasedBefore(g, k) + FreedNames(g.parts[k])
  {
    PrefixNames(g.parts[k], j);
  }

  lemma DefinedMonotone(g: Graph, k: nat, m: nat)
    requires k <= m <= |g.parts|
    ensures DefinedBefore(g, k) <= DefinedBefore(g, m) <= NameToNode(g)
    ensures m == |g.parts| ==> DefinedBefore(g, m) == NameToNode(g)
  {
  }

  /** A partition produces nothing that exists before it. */
  lemma ProducedOnce(g: Graph, k: nat)
    requires WellFormed(g) && k < |g.parts|
    ensures OutputNames(g.parts[k]) !! DefinedBefore(g, k)
  {
    hide DefinedBefore;
    forall i, x | 0 <= i < |g.parts[k]| && x in g.parts[k][i].outputs
      ensures x !in DefinedBefore(g, k)
    {
      assert NodeOk(g, k, i);
      DefinedAt(g, k, i);
    }
  }
}
