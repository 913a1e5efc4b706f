/** One slot line of the trace view: a sorted list of intervals and a test that looks
    at two neighbours only. */
module SlotLines {

  datatype Span = Span(start: int, end: int)

  type Line = seq<Span>

  predicate Proper(s: Span) { s.start < s.end }

  predicate Overlap(a: Span, b: Span) {
    a.start < b.end && b.start < a.end
  }

  /** One of the two starts inside the other; the stored span a comes first if both start together. */
  predicate Clash(a: Span, s: Span) {
    a.start < s.start < a.end || s.start <= a.start < s.end
  }

  /** For intervals of positive duration the two notions agree. */
  lemma ClashIsOverlap(a: Span, s: Span)
    requires Proper(a) && Proper(s)
    ensures Clash(a, s) <==> Overlap(a, s)
  {
  }

  /** The order of the tuples (start, end). */
  predicate Before(a: Span, b: Span) {
    a.start < b.start || (a.start == b.start && a.end < b.end)
  }

  predicate Sorted(line: Line) {
    forall i, j :: 0 <= i < j < |line| ==> !Before(line[j], line[i])
  }

  /** Intervals in order, none reaching into a later one.  Intervals without duration, and those
      that end before they start, may be among them. */
  ghost predicate DisjointLine(line: Line) {
    forall i, j :: 0 <= i < j < |line| ==> line[i].start <= line[j].start && line[i].end <= line[j].start
  }

  /** What a scan over all intervals would answer. */
  ghost predicate HasOverlap(line: Line, s: Span) {
    exists k :: 0 <= k < |line| && Overlap(line[k], s)
  }

  /** How many leading intervals start before x: where bisect_left puts (x, -inf). */
  function StartsBefore(line: Line, x: int): (n: nat)
    ensures n <= |line|
    ensures forall k :: 0 <= k < n ==> line[k].start < x
    ensures n < |line| ==> x <= line[n].start
  {
    if line == [] || x <= line[0].start then 0 else 1 + StartsBefore(line[1..], x)
  }

  /** The test as the code makes it. */
  predicate NeighbourCheck(line: Line, s: Span) {
    var i := StartsBefore(line, s.start);
    || (i > 0 && line[i - 1].end > s.start)
    || (i < |line| && line[i].start < s.end)
  }

  /** How many leading intervals come before s: where insort_left puts it. */
  function Rank(line: Line, s: Span): (n: nat)
    ensures n <= |line|
    ensures forall k :: 0 <= k < n ==> Before(line[k], s)
    ensures n < |line| ==> !Before(line[n], s)
  {
    if line == [] || !Before(line[0], s) then 0 else 1 + Rank(line[1..], s)
  }

  function Inserted(line: Line, s: Span): Line {
    line[..Rank(line, s)] + [s] + line[Rank(line, s)..]
  }

  /** A conflict is never reported without a clash, whatever the list holds. */
  lemma ConflictIsClash(line: Line, s: Span)
    requires NeighbourCheck(line, s)
    ensures exists k :: 0 <= k < |line| && Clash(line[k], s)
  {
    var i := StartsBefore(line, s.start);
    if i > 0 && line[i - 1].end > s.start {
      assert Clash(line[i - 1], s);
    } else {
      assert Clash(line[i], s);
    }
  }

  /** On a disjoint line the two neighbours decide what a full scan would, for any span. */
  lemma NeighboursDecide(line: Line, s: Span)
    requires DisjointLine(line)
    ensures NeighbourCheck(line, s) <==> exists k :: 0 <= k < |line| && Clash(line[k], s)
    ensures HasOverlap(line, s) ==> NeighbourCheck(line, s)
  {
    if NeighbourCheck(line, s) {
      ConflictIsClash(line, s);
    }
    var i := StartsBefore(line, s.start);
    assert forall k :: 0 <= k < i - 1 ==> line[k].end <= line[i - 1].start < s.start;
    assert forall k :: i < k < |line| ==> line[i].start <= line[k].start;
  }

  /** A span without duration conflicts only with one that is running across it. */
  lemma PointConflictOverlaps(line: Line, x: int)
    requires NeighbourCheck(line, Span(x, x))
    ensures HasOverlap(line, Span(x, x))
  {
    ConflictIsClash(line, Span(x, x));
  }

  lemma MemberMissed(line: Line, x: Span, s: Span)
    requires x in line && !HasOverlap(line, s)
    ensures !Overlap(x, s)
  {
    var k :| 0 <= k < |line| && line[k] == x;
  }

  lemma InsertKeepsSorted(line: Line, s: Span)
    requires Sorted(line)
    ensures Sorted(Inserted(line, s))
  {
    var n := Rank(line, s);
    forall k | n <= k < |line| ensures !Before(line[k], s) {
      assert n < k ==> !Before(line[k], line[n]);
    }
  }

  lemma RankSeparates(line: Line, s: Span, k: nat)
    requires DisjointLine(line) && !NeighbourCheck(line, s) && k < |line|
    ensures k < Rank(line, s) ==> line[k].start <= s.start && line[k].end <= s.start
    ensures Rank(line, s) <= k ==> s.start <= line[k].start && s.end <= line[k].start
  {
    NeighboursDecide(line, s);
    assert !Clash(line[k], s);
    var n := Rank(line, s);
    assert n < k ==> line[n].start <= line[k].start;
  }

  lemma BetweenKeepsDisjoint(left: Line, s: Span, right: Line)
    requires DisjointLine(left) && DisjointLine(right)
    requires forall k :: 0 <= k < |left| ==> left[k].start <= s.start && left[k].end <= s.start
    requires forall k :: 0 <= k < |right| ==> s.start <= right[k].start && s.end <= right[k].start
    ensures DisjointLine(left + [s] + right)
  {
  }

  /** A span the check lets pass goes between two neighbours of a disjoint line. */
  lemma InsertKeepsDisjoint(line: Line, s: Span)
    requires DisjointLine(line) && !NeighbourCheck(line, s)
    ensures DisjointLine(Inserted(line, s))
  {
    forall k: nat | k < |line|
      ensures k < Rank(line, s) ==> line[k].start <= s.start && line[k].end <= s.start
      ensures Rank(line, s) <= k ==> s.start <= line[k].start && s.end <= line[k].start
    {
      RankSeparates(line, s, k);
    }
    BetweenKeepsDisjoint(line[..Rank(line, s)], s, line[Rank(line, s)..]);
  }

  lemma InsertedMembers(line: Line, s: Span)
    ensures multiset(Inserted(line, s)) == multiset(line) + multiset{s}
    ensures forall x :: x in Inserted(line, s) <==> x == s || x in line
  {
    var n := Rank(line, s);
    assert line == line[..n] + line[n..];
  }

  // ---------------------------------------------------------------- spans without duration

  /** No later proper span is told "free" while it overlaps a stored one. */
  ghost predicate ChecksSound(line: Line) {
    forall s :: Proper(s) && HasOverlap(line, s) ==> NeighbourCheck(line, s)
  }

  ghost predicate CoversWithRoom(line: Line, x: int) {
    exists k :: 0 <= k < |line| && line[k].start < x && x + 1 < line[k].end
  }

  /** Storing a span without duration leaves later checks sound exactly when no stored span
      starts before it and runs on for more than one tick. */
  lemma ZeroLengthSpanExact(line: Line, x: int)
    requires DisjointLine(line)
    ensures ChecksSound(Inserted(line, Span(x, x))) <==> !CoversWithRoom(line, x)
  {
    hide Inserted, Rank, NeighbourCheck, DisjointLine;
    var after, n := Inserted(line, Span(x, x)), Rank(line, Span(x, x));
    InsertedPoint(line, x);
    if CoversWithRoom(line, x) {
      var k :| 0 <= k < |line| && line[k].start < x && x + 1 < line[k].end;
      HiddenCover(line, after, n, x, k);
      assert Proper(Span(x + 1, x + 2));
    } else {
      forall s | Proper(s) && HasOverlap(after, s)
        ensures NeighbourCheck(after, s)
      {
        OverlapIsSeen(line, after, n, x, s);
      }
    }
  }

  /** `after` is the line with the point (x, x) put in at position n. */
  ghost predicate PointInserted(line: Line, after: Line, n: nat, x: int) {
    && n <= |line| && |after| == |line| + 1 && after[n] == Span(x, x)
    && (forall k :: 0 <= k < n ==> after[k] == line[k] && line[k].start <= x && (line[k].start < x || line[k].end < x))
    && (forall k :: n < k < |after| ==> after[k] == line[k - 1] && x <= after[k].start)
  }

  lemma InsertedPoint(line: Line, x: int)
    requires DisjointLine(line)
    ensures PointInserted(line, Inserted(line, Span(x, x)), Rank(line, Span(x, x)), x)
  {
    hide Rank, DisjointLine, NearlyDisjoint;
    DisjointIsNearly(line);
    var n, p := Rank(line, Span(x, x)), Span(x, x);
    forall k | 0 <= k < |line|
      ensures k < n ==> line[k].start <= x && (line[k].start < x || line[k].end < x)
      ensures n <= k ==> x <= line[k].start
    {
      RankBounds(line, p, k);
    }
    var after := Inserted(line, p);
    assert forall k :: n < k < |after| ==> after[k] == line[k - 1];
  }

  lemma DisjointIsNearly(line: Line)
    requires DisjointLine(line)
    ensures NearlyDisjoint(line)
  {
  }

  /** The span just after the point is reported free although span k is still running. */
  lemma HiddenCover(line: Line, after: Line, n: nat, x: int, k: nat)
    requires DisjointLine(line) && PointInserted(line, after, n, x)
    requires k < |line| && line[k].start < x && x + 1 < line[k].end
    ensures HasOverlap(after, Span(x + 1, x + 2)) && !NeighbourCheck(after, Span(x + 1, x + 2))
  {
    hide StartsBefore;
    forall m | n <= m < |line| ensures x <= line[m].start {
      assert after[m + 1] == line[m];
    }
    assert k < n;
    assert after[k] == line[k] && Overlap(after[k], Span(x + 1, x + 2));
    var i := StartsBefore(after, x + 1);
    assert n < i;
    if n + 1 < |after| {
      assert after[n + 1] == line[n] && line[k].end <= line[n].start;
    }
    assert i == n + 1;
  }

  lemma StartsFollow(line: Line, after: Line, n: nat, x: int, i: nat, k: nat)
    requires DisjointLine(line) && PointInserted(line, after, n, x) && i <= k < |after|
    ensures after[i].start <= after[k].start
  {
  }

  /** No instant after the start of a later entry still belongs to an earlier one. */
  lemma NoReachOver(line: Line, after: Line, n: nat, x: int, k: nat, i: nat, y: int)
    requires DisjointLine(line) && PointInserted(line, after, n, x) && !CoversWithRoom(line, x)
    requires k < i < |after|
    ensures after[k].end <= y || y <= after[i].start
  {
    if i == n {
      assert after[k] == line[k] && line[k].end <= x + 1;
    } else if k == n || i < n {
    } else if k > n {
      assert line[k - 1].end <= line[i - 1].start;
    } else {
      assert line[k].end <= line[i - 1].start;
    }
  }

  lemma OverlapIsSeen(line: Line, after: Line, n: nat, x: int, s: Span)
    requires DisjointLine(line) && PointInserted(line, after, n, x) && !CoversWithRoom(line, x)
    requires Proper(s) && HasOverlap(after, s)
    ensures NeighbourCheck(after, s)
  {
    hide DisjointLine, PointInserted, CoversWithRoom, StartsBefore;
    var i := StartsBefore(after, s.start);
    var k :| 0 <= k < |after| && Overlap(after[k], s);
    if i <= k {
      StartsFollow(line, after, n, x, i, k);
    } else if k < i - 1 {
      NoReachOver(line, after, n, x, k, i - 1, s.start);
    }
  }

  // ---------------------------------------------------------------- lines with harmless points

  /** Intervals in order; none reaches into a later one, except that one may end a tick after the
      beginning of a later one without duration. */
  ghost predicate NearlyDisjoint(line: Line) {
    forall i, j :: 0 <= i < j < |line| ==> Follows(line[i], line[j])
  }

  predicate Follows(a: Span, b: Span) {
    a.start <= b.start && a.end <= b.start + if b.start == b.end then 1 else 0
  }

  /** Also on such a line the check misses nothing: whatever comes before a span it lets pass has ended,
      and whatever comes after it has not started. */
  lemma PassedSeparates(line: Line, s: Span, k: nat)
    requires NearlyDisjoint(line) && !NeighbourCheck(line, s) && k < |line|
    ensures line[k].start < s.start ==> line[k].end <= s.start
    ensures s.start <= line[k].start ==> s.end <= line[k].start
    ensures !Overlap(line[k], s)
  {
    var i := StartsBefore(line, s.start);
    assert k < i - 1 ==> Follows(line[k], line[i - 1]);
    assert i < k ==> Follows(line[i], line[k]);
  }

  lemma RankBounds(line: Line, s: Span, k: nat)
    requires NearlyDisjoint(line) && k < |line|
    ensures k < Rank(line, s) ==> Before(line[k], s)
    ensures Rank(line, s) <= k ==> s.start <= line[k].start
  {
    var n := Rank(line, s);
    assert n < k ==> Follows(line[n], line[k]);
  }

  lemma BetweenKeepsNearly(line: Line, n: nat, s: Span)
    requires NearlyDisjoint(line) && n <= |line|
    requires forall k :: 0 <= k < n ==> Follows(line[k], s)
    requires forall k :: n <= k < |line| ==> Follows(s, line[k])
    ensures NearlyDisjoint(line[..n] + [s] + line[n..])
  {
    hide Follows;
    var after := line[..n] + [s] + line[n..];
    forall i, j | 0 <= i < j < |after| ensures Follows(after[i], after[j]) {
      assert i != n ==> after[i] == line[if i < n then i else i - 1];
      assert j != n ==> after[j] == line[if j < n then j else j - 1];
      if i != n && j != n {
        assert Follows(line[if i < n then i else i - 1], line[if j < n then j else j - 1]);
      }
    }
  }

  lemma PassedStaysNearly(line: Line, s: Span)
    requires NearlyDisjoint(line) && !NeighbourCheck(line, s)
    ensures NearlyDisjoint(Inserted(line, s))
  {
    hide NearlyDisjoint, NeighbourCheck, Rank;
    var n := Rank(line, s);
    forall k: nat | k < |line|
      ensures k < n ==> Follows(line[k], s)
      ensures n <= k ==> Follows(s, line[k])
    {
      PassedSeparates(line, s, k);
      RankBounds(line, s, k);
    }
    BetweenKeepsNearly(line, n, s);
  }

  /** Storing a point that nothing covers with room. */
  lemma PointStaysNearly(line: Line, x: int)
    requires NearlyDisjoint(line) && !CoversWithRoom(line, x)
    ensures NearlyDisjoint(Inserted(line, Span(x, x)))
  {
    hide NearlyDisjoint, Rank;
    var n := Rank(line, Span(x, x));
    forall k: nat | k < |line|
      ensures k < n ==> Follows(line[k], Span(x, x))
      ensures n <= k ==> Follows(Span(x, x), line[k])
    {
      RankBounds(line, Span(x, x), k);
      assert !(line[k].start < x && x + 1 < line[k].end);
    }
    BetweenKeepsNearly(line, n, Span(x, x));
  }
}
