/** Reading a ninja log: records are grouped by command hash, and the reader starts over
    whenever a record cannot belong to the same build as the records kept so far. */
module NinjaLog {
  import opened Sequences
  import opened BuildTimeline
  import opened BuildReport

  /** A log line with five fields; any other line is corrupt and skipped. Times are in seconds. */
  datatype Record = Record(start: real, end: real, name: string, hash: string)

  datatype Line = Corrupt | Fields(record: Record)

  function Records(log: seq<Line>): seq<Record> {
    if log == [] then [] else
      var rest := Records(log[..|log| - 1]);
      match log[|log| - 1]
      case Corrupt => rest
      case Fields(r) => rest + [r]
  }

  /** The records are exactly those of the well-formed lines, unchanged and in order. */
  lemma {:induction false} RecordsConcat(a: seq<Line>, b: seq<Line>)
    ensures Records(a + b) == Records(a) + Records(b)
    decreases |b|
  {
    if b == [] {
      assert a + b == a;
    } else {
      var n := |b| - 1;
      assert (a + b)[..|a| + n] == a + b[..n];
      RecordsConcat(a, b[..n]);
    }
  }

  lemma RecordsOfLine(r: Record)
    ensures Records([Fields(r)]) == [r] && Records([Corrupt]) == []
  {
    assert [Fields(r)][..0] == [] && [Corrupt][..0] == [];
  }

  // ---------------------------------------------------------------- which records are kept

  predicate SameInterval(a: Record, b: Record) {
    a.start == b.start && a.end == b.end
  }

  /** Record n cannot belong to the build of records k..n: its end goes backwards, or its command
      already ran there at another time. */
  predicate Clashes(rs: seq<Record>, k: nat, n: nat)
    requires k <= n < |rs|
  {
    || (k < n && rs[n].end < rs[n - 1].end)
    || (exists i :: k <= i < n && rs[i].hash == rs[n].hash && !SameInterval(rs[i], rs[n]))
  }

  /** Where the kept records begin after n records: the last clash, or the very beginning. */
  function KeptFrom(rs: seq<Record>, n: nat, showAll: bool): (k: nat)
    requires n <= |rs|
    ensures k <= n && (0 < n ==> k < n)
  {
    if n == 0 then 0 else
      var k := KeptFrom(rs, n - 1, showAll);
      if !showAll && Clashes(rs, k, n - 1) then n - 1 else k
  }

  function Window(rs: seq<Record>, showAll: bool): seq<Record> {
    rs[KeptFrom(rs, |rs|, showAll)..]
  }

  /** Records k..n form one build: end times never go back and a command hash names one interval. */
  ghost predicate OneBuild(rs: seq<Record>, k: nat, n: nat)
    requires k <= n <= |rs|
  {
    && (forall i, j :: k <= i < j < n ==> rs[i].end <= rs[j].end)
    && (forall i, j :: k <= i < j < n && rs[i].hash == rs[j].hash ==> SameInterval(rs[i], rs[j]))
  }

  /** A record clashes exactly when the kept records and it are no longer one build. */
  lemma ClashExactly(rs: seq<Record>, k: nat, n: nat)
    requires k <= n < |rs| && OneBuild(rs, k, n)
    ensures Clashes(rs, k, n) <==> !OneBuild(rs, k, n + 1)
  {
    if !Clashes(rs, k, n) {
      ExtendBuild(rs, k, n);
    } else if k < n && rs[n].end < rs[n - 1].end {
      assert !OneBuild(rs, k, n + 1);
    } else {
      var i :| k <= i < n && rs[i].hash == rs[n].hash && !SameInterval(rs[i], rs[n]);
      assert !OneBuild(rs, k, n + 1);
    }
  }

  lemma {:induction false} KeptIsOneBuild(rs: seq<Record>, n: nat)
    requires n <= |rs|
    ensures OneBuild(rs, KeptFrom(rs, n, false), n)
  {
    hide OneBuild, Clashes;
    if n == 0 {
      NothingIsOneBuild(rs);
    } else {
      KeptIsOneBuild(rs, n - 1);
      var k := KeptFrom(rs, n - 1, false);
      if Clashes(rs, k, n - 1) {
        SingleRecordIsOneBuild(rs, n - 1);
      } else {
        ExtendBuild(rs, k, n - 1);
      }
    }
  }

  lemma NothingIsOneBuild(rs: seq<Record>)
    ensures OneBuild(rs, 0, 0)
  {
  }

  lemma SingleRecordIsOneBuild(rs: seq<Record>, n: nat)
    requires n < |rs|
    ensures OneBuild(rs, n, n + 1)
  {
  }

  lemma {:induction false} KeptStartsAtClash(rs: seq<Record>, n: nat)
    requires n <= |rs|
    ensures var k := KeptFrom(rs, n, false); k > 0 ==> Clashes(rs, KeptFrom(rs, k, false), k)
  {
    if n > 0 {
      KeptStartsAtClash(rs, n - 1);
    }
  }

  lemma {:induction false} OneBuildIsKept(rs: seq<Record>, n: nat)
    requires n <= |rs| && OneBuild(rs, 0, n)
    ensures KeptFrom(rs, n, false) == 0
  {
    if n > 0 {
      OneBuildIsKept(rs, n - 1);
    }
  }

  lemma ExtendBuild(rs: seq<Record>, k: nat, n: nat)
    requires k <= n < |rs| && OneBuild(rs, k, n) && !Clashes(rs, k, n)
    ensures OneBuild(rs, k, n + 1)
  {
    forall i | k <= i < n
      ensures rs[i].end <= rs[n].end
    {
      assert i < n - 1 ==> rs[i].end <= rs[n - 1].end;
    }
  }

  /** What the reader keeps is one build; it starts where a record clashed with all records kept
      until then, and a log of a single build is kept whole. */
  lemma WindowIsOneBuild(rs: seq<Record>)
    ensures var w := Window(rs, false); OneBuild(w, 0, |w|)
    ensures var k := |rs| - |Window(rs, false)|; k > 0 ==> Clashes(rs, KeptFrom(rs, k, false), k)
    ensures OneBuild(rs, 0, |rs|) ==> Window(rs, false) == rs
    ensures rs != [] ==> Window(rs, false) != []
  {
    if OneBuild(rs, 0, |rs|) {
      OneBuildIsKept(rs, |rs|);
    }
    KeptIsOneBuild(rs, |rs|);
    KeptStartsAtClash(rs, |rs|);
    ShiftBuild(rs, KeptFrom(rs, |rs|, false));
  }

  lemma ShiftBuild(rs: seq<Record>, k: nat)
    requires k <= |rs| && OneBuild(rs, k, |rs|)
    ensures OneBuild(rs[k..], 0, |rs| - k)
  {
    assert forall i :: 0 <= i < |rs| - k ==> rs[k..][i] == rs[k + i];
  }

  lemma {:induction false} ShowAllKeepsAll(rs: seq<Record>, n: nat)
    requires n <= |rs|
    ensures KeptFrom(rs, n, true) == 0
  {
    if n > 0 {
      ShowAllKeepsAll(rs, n - 1);
    }
  }

  lemma {:induction false} KeptFromPrefix(rs: seq<Record>, r: Record, n: nat, showAll: bool)
    requires n <= |rs|
    ensures KeptFrom(rs + [r], n, showAll) == KeptFrom(rs, n, showAll)
  {
    if n > 0 {
      KeptFromPrefix(rs, r, n - 1, showAll);
      var k := KeptFrom(rs, n - 1, showAll);
      assert forall i :: 0 <= i < n ==> (rs + [r])[i] == rs[i];
      assert Clashes(rs + [r], k, n - 1) == Clashes(rs, k, n - 1);
    }
  }

  // ---------------------------------------------------------------- grouping

  /** The command hashes in order of first appearance. */
  function Hashes(rs: seq<Record>): seq<string> {
    if rs == [] then [] else
      var hs := Hashes(rs[..|rs| - 1]);
      var h := rs[|rs| - 1].hash;
      if h in hs then hs else hs + [h]
  }

  /** The output names written under a hash, in log order. */
  function NamesOf(rs: seq<Record>, h: string): seq<string> {
    if rs == [] then [] else
      var r := rs[|rs| - 1];
      NamesOf(rs[..|rs| - 1], h) + if r.hash == h then [r.name] else []
  }

  function FirstOf(rs: seq<Record>, h: string): Record
    requires h in Hashes(rs)
  {
    if h in Hashes(rs[..|rs| - 1]) then FirstOf(rs[..|rs| - 1], h) else rs[|rs| - 1]
  }

  lemma {:induction false} HashesListed(rs: seq<Record>)
    ensures Distinct(Hashes(rs))
    ensures forall i :: 0 <= i < |rs| ==> rs[i].hash in Hashes(rs)
    decreases |rs|
  {
    if rs != [] {
      var n := |rs| - 1;
      HashesListed(rs[..n]);
      forall i | 0 <= i < |rs| ensures rs[i].hash in Hashes(rs) {
        assert i < n ==> rs[i] == rs[..n][i];
      }
    }
  }

  lemma {:induction false} FirstIsListed(rs: seq<Record>, h: string)
    ensures h in Hashes(rs) ==> FirstOf(rs, h) in rs && FirstOf(rs, h).hash == h
    ensures h !in Hashes(rs) ==> NamesOf(rs, h) == []
    decreases |rs|
  {
    if rs != [] {
      FirstIsListed(rs[..|rs| - 1], h);
    }
  }

  /** A hash is listed once some record has it, and hashes listed earlier stay where they are. */
  lemma {:induction false} HashesGrow(a: seq<Record>, b: seq<Record>)
    ensures Hashes(a) <= Hashes(a + b)
    ensures forall h :: h in Hashes(a + b) <==> exists i :: 0 <= i < |a + b| && (a + b)[i].hash == h
    decreases |b|
  {
    HashesListed(a + b);
    forall h | h in Hashes(a + b) ensures exists i :: 0 <= i < |a + b| && (a + b)[i].hash == h {
      FirstIsListed(a + b, h);
    }
    if b == [] {
      assert a + b == a;
    } else {
      var n := |b| - 1;
      assert (a + b)[..|a| + n] == a + b[..n];
      HashesGrow(a, b[..n]);
    }
  }

  /** The record that speaks for a hash is the first with it. */
  lemma {:induction false} FirstExactly(rs: seq<Record>, h: string) returns (i: nat)
    requires h in Hashes(rs)
    ensures i < |rs| && FirstOf(rs, h) == rs[i] && rs[i].hash == h && forall k :: 0 <= k < i ==> rs[k].hash != h
    decreases |rs|
  {
    var n := |rs| - 1;
    HashesListed(rs[..n]);
    if h in Hashes(rs[..n]) {
      i := FirstExactly(rs[..n], h);
      assert forall k :: 0 <= k < n ==> rs[..n][k] == rs[k];
    } else {
      i := n;
      assert forall k :: 0 <= k < n ==> rs[..n][k] == rs[k];
    }
  }

  /** The names of a hash are those of its records, in order. */
  lemma {:induction false} NamesConcat(a: seq<Record>, b: seq<Record>, h: string)
    ensures NamesOf(a + b, h) == NamesOf(a, h) + NamesOf(b, h)
    decreases |b|
  {
    if b == [] {
      assert a + b == a;
    } else {
      var n := |b| - 1;
      assert (a + b)[..|a| + n] == a + b[..n];
      NamesConcat(a, b[..n], h);
    }
  }

  lemma NamesOfOne(r: Record, h: string)
    ensures NamesOf([r], h) == if r.hash == h then [r.name] else []
  {
    assert [r][..0] == [];
  }

  ghost function CountNames(rs: seq<Record>, hs: seq<string>): nat {
    if hs == [] then 0 else CountNames(rs, hs[..|hs| - 1]) + |NamesOf(rs, hs[|hs| - 1])|
  }

  lemma {:induction false} CountSkips(rs: seq<Record>, hs: seq<string>)
    requires rs != [] && Distinct(hs)
    ensures CountNames(rs, hs)
         == CountNames(rs[..|rs| - 1], hs) + if rs[|rs| - 1].hash in hs then 1 else 0
    decreases |hs|
  {
    if hs != [] {
      var m := |hs| - 1;
      CountSkips(rs, hs[..m]);
      assert hs == hs[..m] + [hs[m]];
    }
  }

  lemma {:induction false} CountAll(rs: seq<Record>, hs: seq<string>)
    requires Distinct(hs) && forall i :: 0 <= i < |rs| ==> rs[i].hash in hs
    ensures CountNames(rs, hs) == |rs|
    decreases |rs|
  {
    if rs == [] {
      NothingToCount(hs);
    } else {
      CountAll(rs[..|rs| - 1], hs);
      CountSkips(rs, hs);
    }
  }

  /** No output is lost or listed twice: the groups hold as many names as there are records. */
  lemma EveryRecordGrouped(rs: seq<Record>)
    ensures CountNames(rs, Hashes(rs)) == |rs|
  {
    HashesListed(rs);
    CountAll(rs, Hashes(rs));
  }

  lemma {:induction false} NothingToCount(hs: seq<string>)
    ensures CountNames([], hs) == 0
    decreases |hs|
  {
    if hs != [] {
      NothingToCount(hs[..|hs| - 1]);
    }
  }

  /** In one build, the first record of a hash speaks for all records with that hash. */
  lemma {:induction false} FirstSpeaksForAll(rs: seq<Record>, h: string, i: nat)
    requires OneBuild(rs, 0, |rs|) && i < |rs| && rs[i].hash == h
    ensures h in Hashes(rs) && SameInterval(FirstOf(rs, h), rs[i])
  {
    HashesListed(rs);
    FirstIsListed(rs, h);
    var f := FirstOf(rs, h);
    var j :| 0 <= j < |rs| && rs[j] == f;
    assert j < i ==> SameInterval(rs[j], rs[i]);
    assert i < j ==> SameInterval(rs[i], rs[j]);
  }

  // ---------------------------------------------------------------- the reader

  /** The reader's dictionary, in insertion order `keys`, holds the groups of the kept records. */
  ghost predicate Groups(rs: seq<Record>, keys: seq<string>, dict: map<string, Target>)
    reads dict.Values
  {
    && keys == Hashes(rs)
    && dict.Keys == (set h | h in keys)
    && (forall h :: h in dict ==>
          h in Hashes(rs) && IsGroup(dict[h], FirstOf(rs, h), NamesOf(rs, h)))
    && (forall h, g :: h in dict && g in dict && h != g ==> dict[h] != dict[g])
  }

  ghost predicate IsGroup(t: Target, first: Record, names: seq<string>)
    reads t
  {
    t.start == first.start && t.end == first.end && t.targets == names
  }

  /** The second reset test: the stored target of this hash has another interval. */
  lemma StoredTargetDecides(rs: seq<Record>, k: nat, r: Record)
    requires k <= |rs| && OneBuild(rs, k, |rs|)
    ensures Clashes(rs + [r], k, |rs|)
      <==> || (k < |rs| && r.end < rs[|rs| - 1].end)
           || (r.hash in Hashes(rs[k..]) && !SameInterval(FirstOf(rs[k..], r.hash), r))
  {
    hide Hashes, FirstOf, SameInterval, OneBuild;
    var w := rs[k..];
    ShiftBuild(rs, k);
    ClashInWindow(rs, k, r);
    if i :| 0 <= i < |w| && w[i].hash == r.hash && !SameInterval(w[i], r) {
      FirstSpeaksForAll(w, r.hash, i);
      SameAsFirst(FirstOf(w, r.hash), w[i], r);
    }
    if r.hash in Hashes(w) && !SameInterval(FirstOf(w, r.hash), r) {
      FirstIsListed(w, r.hash);
      var j :| 0 <= j < |w| && w[j] == FirstOf(w, r.hash);
    }
  }

  lemma SameAsFirst(a: Record, b: Record, r: Record)
    requires SameInterval(a, b)
    ensures SameInterval(a, r) <==> SameInterval(b, r)
  {
  }

  lemma ClashInWindow(rs: seq<Record>, k: nat, r: Record)
    requires k <= |rs|
    ensures var w := rs[k..];
      Clashes(rs + [r], k, |rs|) <==>
        || (k < |rs| && r.end < rs[|rs| - 1].end)
        || (exists i :: 0 <= i < |w| && w[i].hash == r.hash && !SameInterval(w[i], r))
  {
    hide SameInterval;
    var w, all := rs[k..], rs + [r];
    assert all[|rs|] == r && (k < |rs| ==> all[|rs| - 1] == rs[|rs| - 1]);
    if i :| k <= i < |rs| && all[i].hash == r.hash && !SameInterval(all[i], r) {
      assert w[i - k] == all[i];
    }
    if i :| 0 <= i < |w| && w[i].hash == r.hash && !SameInterval(w[i], r) {
      assert all[k + i] == w[i];
    }
  }

  datatype ReadResult = AssertionError | Entries(targets: seq<Target>)

  method AddRecord(ghost rs: seq<Record>, keys: seq<string>, dict: map<string, Target>, r: Record)
    returns (keys': seq<string>, dict': map<string, Target>)
    requires Groups(rs, keys, dict)
    modifies dict.Values`targets
    ensures Groups(rs + [r], keys', dict')
    ensures forall t :: t in dict'.Values ==> t in dict.Values || fresh(t)
  {
    hide Hashes, FirstOf, NamesOf;
    OneMoreRecord(rs, r);
    keys', dict' := keys, dict;
    if r.hash !in dict {
      var target := new Target(r.start, r.end);
      keys' := keys + [r.hash];
      dict' := dict[r.hash := target];
    }
    dict'[r.hash].targets := dict'[r.hash].targets + [r.name];
  }

  /** How the groups change when a record is added. */
  lemma OneMoreRecord(rs: seq<Record>, r: Record)
    ensures Hashes(rs + [r]) == if r.hash in Hashes(rs) then Hashes(rs) else Hashes(rs) + [r.hash]
    ensures forall h :: h in Hashes(rs + [r]) ==>
      && FirstOf(rs + [r], h) == (if h in Hashes(rs) then FirstOf(rs, h) else r)
      && NamesOf(rs + [r], h) == NamesOf(rs, h) + (if h == r.hash then [r.name] else [])
    ensures r.hash !in Hashes(rs) ==> NamesOf(rs, r.hash) == []
  {
    assert (rs + [r])[..|rs|] == rs;
    FirstIsListed(rs, r.hash);
  }

  /** How the kept window moves when one more record is read. */
  lemma WindowStep(rs: seq<Record>, r: Record, showAll: bool)
    ensures var k := KeptFrom(rs, |rs|, showAll);
      Window(rs + [r], showAll) == if !showAll && Clashes(rs + [r], k, |rs|) then [r] else Window(rs, showAll) + [r]
  {
    KeptFromPrefix(rs, r, |rs|, showAll);
    var k := KeptFrom(rs, |rs|, showAll);
    assert (rs + [r])[|rs|..] == [r];
    assert (rs + [r])[k..] == rs[k..] + [r];
  }

  lemma NothingRead(showAll: bool)
    ensures Window([], showAll) == [] && Hashes([]) == []
    ensures Groups([], [], map[])
  {
  }

  /** The reader's two tests on its own state amount to a clash. */
  lemma ResetTests(rs: seq<Record>, r: Record)
    ensures var w := Window(rs, false);
      Clashes(rs + [r], KeptFrom(rs, |rs|, false), |rs|)
      <==> || (rs != [] && r.end < rs[|rs| - 1].end)
           || (r.hash in Hashes(w) && !SameInterval(FirstOf(w, r.hash), r))
  {
    KeptIsOneBuild(rs, |rs|);
    StoredTargetDecides(rs, KeptFrom(rs, |rs|, false), r);
  }

  /** One well-formed line: start over if the record clashes, then file it under its hash. */
  method ReadRecord(ghost rs: seq<Record>, keys: seq<string>, dict: map<string, Target>, lastEndSeen: real,
                    r: Record, showAll: bool)
    returns (keys': seq<string>, dict': map<string, Target>)
    requires Groups(Window(rs, showAll), keys, dict)
    requires lastEndSeen == LastEnd(rs)
    modifies dict.Values`targets
    ensures Groups(Window(rs + [r], showAll), keys', dict')
    ensures forall t :: t in dict'.Values ==> t in dict.Values || fresh(t)
  {
    hide Hashes, FirstOf, NamesOf, Clashes, KeptFrom, OneBuild, Window;
    keys', dict' := keys, dict;
    ghost var kept := Window(rs, showAll);
    WindowStep(rs, r, showAll);
    ResetTests(rs, r);
    NothingRead(showAll);
    if !showAll && r.end < lastEndSeen {
      keys', dict', kept := [], map[], [];
    }
    if r.hash in dict' {
      var target := dict'[r.hash];
      if !showAll && (target.start != r.start || target.end != r.end) {
        keys', dict', kept := [], map[], [];
      }
    }
    assert kept + [r] == Window(rs + [r], showAll) by {
      assert [] + [r] == [r];
    }
    keys', dict' := AddRecord(kept, keys', dict', r);
  }

  function LastEnd(rs: seq<Record>): real {
    if rs == [] then 0.0 else rs[|rs| - 1].end
  }

  method ReadTargets(header: string, log: seq<Line>, showAll: bool) returns (r: ReadResult)
    ensures r == AssertionError <==> header != "# ninja log v5\n"
    ensures r.Entries? ==> ListsGroups(r.targets, Window(Records(log), showAll))
    ensures r.Entries? ==> fresh(set t | t in r.targets)
  {
    hide Groups, IsGroup, ListsGroups, Clashes, KeptFrom, Window;
    if header != "# ninja log v5\n" {
      return AssertionError;
    }
    var keys: seq<string>, targetsDict: map<string, Target> := [], map[];
    var lastEndSeen := 0.0;
    NothingRead(showAll);
    for i := 0 to |log|
      invariant lastEndSeen == LastEnd(Records(log[..i]))
      invariant Groups(Window(Records(log[..i]), showAll), keys, targetsDict)
      invariant forall t :: t in targetsDict.Values ==> fresh(t)
    {
      assert log[..i + 1][..i] == log[..i];
      match log[i]
      case Corrupt =>
      case Fields(record) =>
        keys, targetsDict := ReadRecord(Records(log[..i]), keys, targetsDict, lastEndSeen, record, showAll);
        lastEndSeen := record.end;
    }
    assert log[..|log|] == log;
    var entries := Values(Window(Records(log), showAll), keys, targetsDict);
    r := Entries(entries);
  }

  /** The dictionary's values in insertion order. */
  method Values(ghost rs: seq<Record>, keys: seq<string>, dict: map<string, Target>) returns (targets: seq<Target>)
    requires Groups(rs, keys, dict)
    ensures ListsGroups(targets, rs)
    ensures forall t :: t in targets ==> t in dict.Values
  {
    hide Hashes, FirstOf, NamesOf;
    HashesListed(rs);
    targets := seq(|keys|, i requires 0 <= i < |keys| && keys[i] in dict => dict[keys[i]]);
  }

  /** The result lists one target per command hash, in order of first appearance, with the
      interval of the hash's first record and the names written under it. */
  ghost predicate ListsGroups(targets: seq<Target>, rs: seq<Record>)
    reads set t | t in targets
  {
    && |targets| == |Hashes(rs)|
    && Distinct(targets)
    && (forall i :: 0 <= i < |targets| ==>
          Hashes(rs)[i] in Hashes(rs) && IsGroup(targets[i], FirstOf(rs, Hashes(rs)[i]), NamesOf(rs, Hashes(rs)[i])))
  }

  /** The intervals the reporter sees: those of the first record of each hash. */
  function FirstStarts(rs: seq<Record>): seq<real> {
    seq(|Hashes(rs)|, i requires 0 <= i < |Hashes(rs)| => FirstOf(rs, Hashes(rs)[i]).start)
  }

  function FirstEnds(rs: seq<Record>): seq<real> {
    seq(|Hashes(rs)|, i requires 0 <= i < |Hashes(rs)| => FirstOf(rs, Hashes(rs)[i]).end)
  }

  predicate Forward(rs: seq<Record>) {
    forall i :: 0 <= i < |rs| ==> rs[i].start <= rs[i].end
  }

  /** Every record starts and ends at one and the same instant. */
  predicate Momentary(rs: seq<Record>) {
    forall i :: 0 <= i < |rs| ==> rs[i].start == rs[i].end == rs[0].start
  }

  /** The whole tool on one log.  It fails on a foreign header, on a log without records, on a kept
      record that ends before it starts, and on a kept build of no length; on every other log the
      report is that on the kept groups.  With non-negative stamps no length means that all kept
      records happened at one instant. */
  method ReportBuild(header: string, log: seq<Line>) returns (targets: ReadResult, summary: Summary)
    ensures targets == AssertionError <==> header != "# ninja log v5\n"
    ensures targets.Entries? ==>
      var w := Window(Records(log), false); var entries := targets.targets;
      && ListsGroups(entries, w) && Summarizes(entries, summary, WeightsOf(entries))
      && (summary == Failed(IndexError) <==> Records(log) == [])
      && (summary == Failed(KeyError) <==> !Forward(w))
      && (summary == Failed(ZeroDivisionError) <==>
            Records(log) != [] && Forward(w) && ScanLatest(FirstEnds(w)) == ScanEarliest(FirstStarts(w)))
      && ((forall i :: 0 <= i < |w| ==> 0.0 <= w[i].start) ==>
            (summary == Failed(ZeroDivisionError) <==> Records(log) != [] && Momentary(w)))
  {
    hide Hashes, FirstOf, NamesOf, Clashes, KeptFrom, OneBuild, Window, Weight, BusyTime, Forward, Momentary, FirstEnds, FirstStarts,
      ScanLatest, ScanEarliest;
    targets := ReadTargets(header, log, false);
    summary := Failed(IndexError);
    match targets
    case AssertionError =>
    case Entries(entries) =>
      IntervalsOfKept(Records(log), entries);
      summary := SummarizeEntries(entries);
  }

  lemma IntervalsOfKept(rs: seq<Record>, entries: seq<Target>)
    requires ListsGroups(entries, Window(rs, false))
    ensures entries == [] <==> rs == []
    ensures var w := Window(rs, false);
      && (Ordered(Tasks(entries)) <==> Forward(w))
      && Starts(entries) == FirstStarts(w) && Ends(entries) == FirstEnds(w)
      && (rs != [] && Forward(w) && (forall i :: 0 <= i < |w| ==> 0.0 <= w[i].start) ==>
            (ScanLatest(FirstEnds(w)) == ScanEarliest(FirstStarts(w)) <==> Momentary(w)))
      && (Momentary(w) ==> Forward(w))
  {
    hide ListsGroups, Hashes, FirstOf, Window, NamesOf, OneBuild, Records, ScanLatest, ScanEarliest, FirstEnds, FirstStarts;
    var w := Window(rs, false);
    WindowIsOneBuild(rs);
    NothingRead(false);
    EntriesAreKept(w, entries);
    OrderedIsForward(w, entries);
    StartsAreFirst(w, entries);
    if rs != [] && Forward(w) && forall i :: 0 <= i < |w| ==> 0.0 <= w[i].start {
      NoLengthExactly(w, entries);
    }
  }

  lemma StartsAreFirst(w: seq<Record>, entries: seq<Target>)
    requires ListsGroups(entries, w)
    ensures Starts(entries) == FirstStarts(w) && Ends(entries) == FirstEnds(w)
  {
    hide Hashes, FirstOf, NamesOf;
  }

  datatype Interval = Interval(start: real, end: real)

  function IntervalsOf(rs: seq<Record>): set<Interval> {
    set i | 0 <= i < |rs| :: Interval(rs[i].start, rs[i].end)
  }

  ghost function IntervalsIn(entries: seq<Target>): set<Interval> {
    set t | t in entries :: Interval(t.start, t.end)
  }

  /** Entries and kept records have the same intervals. */
  lemma EntriesAreKept(w: seq<Record>, entries: seq<Target>)
    requires ListsGroups(entries, w) && OneBuild(w, 0, |w|)
    ensures IntervalsIn(entries) == IntervalsOf(w)
  {
    hide ListsGroups, OneBuild;
    forall i | 0 <= i < |w| ensures Interval(w[i].start, w[i].end) in IntervalsIn(entries) {
      KeptHasEntry(w, entries, i);
    }
    forall t | t in entries ensures Interval(t.start, t.end) in IntervalsOf(w) {
      var j :| 0 <= j < |entries| && entries[j] == t;
      EntryIsKept(w, entries, j);
    }
  }

  lemma OrderedIsForward(w: seq<Record>, entries: seq<Target>)
    requires IntervalsIn(entries) == IntervalsOf(w)
    ensures entries == [] <==> w == []
    ensures Ordered(Tasks(entries)) <==> Forward(w)
  {
    if w != [] {
      assert Interval(w[0].start, w[0].end) in IntervalsIn(entries);
    }
    if entries != [] {
      assert entries[0] in entries;
      assert Interval(entries[0].start, entries[0].end) in IntervalsOf(w);
    }
    forall i | 0 <= i < |w| && Ordered(Tasks(entries)) ensures w[i].start <= w[i].end {
      assert Interval(w[i].start, w[i].end) in IntervalsIn(entries);
    }
    forall t | t in entries && Forward(w) ensures t.start <= t.end {
      assert Interval(t.start, t.end) in IntervalsOf(w);
    }
  }

  /** A build of non-negative stamps has no length exactly when everything in it is momentary. */
  lemma NoLengthExactly(w: seq<Record>, entries: seq<Target>)
    requires IntervalsIn(entries) == IntervalsOf(w) && w != [] && entries != [] && Ordered(Tasks(entries))
    requires forall i :: 0 <= i < |w| ==> 0.0 <= w[i].start
    ensures ScanLatest(Ends(entries)) == ScanEarliest(Starts(entries)) <==> Momentary(w)
  {
    hide ScanLatest, ScanEarliest, Ordered;
    forall t | t in entries ensures 0.0 <= t.start {
      assert Interval(t.start, t.end) in IntervalsOf(w);
    }
    ScanFindsRange(entries);
    var lo, hi := ScanEarliest(Starts(entries)), ScanLatest(Ends(entries));
    forall i | 0 <= i < |w| ensures lo <= w[i].start && w[i].end <= hi {
      assert Interval(w[i].start, w[i].end) in IntervalsIn(entries);
      var t :| t in entries && t.start == w[i].start && t.end == w[i].end;
      WithinScan(entries, t);
    }
    OrderedIsForward(w, entries);
    if Momentary(w) {
      var a :| 0 <= a < |entries| && Starts(entries)[a] == lo;
      var b :| 0 <= b < |entries| && Ends(entries)[b] == hi;
      assert Interval(entries[a].start, entries[a].end) in IntervalsOf(w);
      assert Interval(entries[b].start, entries[b].end) in IntervalsOf(w);
    }
  }

  lemma WithinScan(entries: seq<Target>, t: Target)
    requires IsLeast(ScanEarliest(Starts(entries)), Starts(entries)) && IsGreatest(ScanLatest(Ends(entries)), Ends(entries))
    requires t in entries
    ensures ScanEarliest(Starts(entries)) <= t.start && t.end <= ScanLatest(Ends(entries))
  {
    hide ScanLatest, ScanEarliest;
    var k :| 0 <= k < |entries| && entries[k] == t;
    assert Starts(entries)[k] == t.start && Starts(entries)[k] in Starts(entries);
    assert Ends(entries)[k] == t.end && Ends(entries)[k] in Ends(entries);
  }

  lemma EntryIsKept(w: seq<Record>, entries: seq<Target>, j: nat)
    requires ListsGroups(entries, w) && j < |entries|
    ensures exists i :: 0 <= i < |w| && entries[j].start == w[i].start && entries[j].end == w[i].end
  {
    FirstIsListed(w, Hashes(w)[j]);
    assert FirstOf(w, Hashes(w)[j]) in w;
  }

  lemma KeptHasEntry(w: seq<Record>, entries: seq<Target>, i: nat)
    requires ListsGroups(entries, w) && OneBuild(w, 0, |w|) && i < |w|
    ensures exists t :: t in entries && t.start == w[i].start && t.end == w[i].end
  {
    FirstSpeaksForAll(w, w[i].hash, i);
    var j :| 0 <= j < |entries| && Hashes(w)[j] == w[i].hash;
    assert entries[j] in entries;
  }
}
