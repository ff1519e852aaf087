/**
 The state graph of the trace viewer (tools/trace_viewer/trace_viewer.py): one
 pass over the records, what the counters it leaves behind mean, and when that is
 what the doc comment says.
 */
module Edges {
  import opened Bits
  import opened Wrappers
  import opened Trace

  const KIND_TRANSITION := 1
  const KIND_FAULT := 11
  const KIND_HAL_FAULT := 1000

  const DASH: byte := 0x2D
  const ANGLE: byte := 0x3E
  const NEWLINE: byte := 0x0A

  datatype Edge = Edge(source: seq<byte>, target: seq<byte>)

  predicate IsFault(r: Record) {
    r.kind == KIND_FAULT || r.kind == KIND_HAL_FAULT
  }

  /** An arrow starts at position i. */
  predicate ArrowAt(s: seq<byte>, i: nat) {
    i + 2 <= |s| && s[i] == DASH && s[i + 1] == ANGLE
  }

  /** The first arrow that leaves room for a name before it, or the length. */
  function Arrow(s: seq<byte>, from: nat): (i: nat)
    requires from <= |s|
    ensures from <= i <= |s| && (i < |s| ==> ArrowAt(s, i))
    ensures forall j | from <= j < i :: !ArrowAt(s, j)
    decreases |s| - from
  {
    if from == |s| || ArrowAt(s, from) then from else Arrow(s, from + 1)
  }

  /** The names of a transition detail, as the regular expression of the source takes it apart. */
  function Match(s: seq<byte>): Option<Edge> {
    if s == [] then None
    else
      var i := Arrow(s, 1);
      if i == |s| then None
      else
        var rest := s[i + 2..];
        var target := if rest != [] && rest[|rest| - 1] == NEWLINE then rest[..|rest| - 1] else rest;
        if target == [] || NEWLINE in s[..i] || NEWLINE in target then None else Some(Edge(s[..i], target))
  }

  /** A reading of the detail as name, arrow (0x2D 0x3E), name and perhaps a final newline (0x0A). */
  predicate Reads(s: seq<byte>, e: Edge) {
    && e.source != [] && e.target != [] && 0x0A !in e.source && 0x0A !in e.target
    && (s == e.source + [0x2D, 0x3E] + e.target || s == e.source + [0x2D, 0x3E] + e.target + [0x0A])
  }

  lemma ReadsAt(s: seq<byte>, e: Edge)
    requires Reads(s, e)
    ensures 1 <= |e.source| && ArrowAt(s, |e.source|) && s[..|e.source|] == e.source
    ensures s[|e.source| + 2..] == e.target || s[|e.source| + 2..] == e.target + [NEWLINE]
  {
  }

  /** A match is the reading with the shortest first name; without a match there is no reading. */
  lemma MatchIsShortestReading(s: seq<byte>, e: Edge)
    ensures Match(s).Some? ==> Reads(s, Match(s).value)
    ensures Reads(s, e) ==> Match(s).Some? && |Match(s).value.source| <= |e.source|
  {
    if Match(s).Some? { MatchReads(s); }
    if Reads(s, e) { ReadingMatches(s, e); }
  }

  lemma MatchReads(s: seq<byte>)
    requires Match(s).Some?
    ensures Reads(s, Match(s).value)
  {
    var i := Arrow(s, 1);
    var rest := s[i + 2..];
    assert s == s[..i] + [DASH, ANGLE] + rest;
    if rest[|rest| - 1] == NEWLINE {
      assert rest == rest[..|rest| - 1] + [NEWLINE];
      assert s == s[..i] + [DASH, ANGLE] + rest[..|rest| - 1] + [NEWLINE];
    }
  }

  lemma ReadingMatches(s: seq<byte>, e: Edge)
    requires Reads(s, e)
    ensures Match(s).Some? && |Match(s).value.source| <= |e.source|
  {
    hide Reads, ArrowAt;
    FirstArrow(s, e);
    TargetOfRest(s, e, Arrow(s, 1));
  }

  lemma FirstArrow(s: seq<byte>, e: Edge)
    requires Reads(s, e)
    ensures s != [] && Arrow(s, 1) <= |e.source| && Arrow(s, 1) + 2 <= |s| && NEWLINE !in s[..Arrow(s, 1)]
  {
    hide Reads, ArrowAt;
    var n := |e.source|;
    ReadsAt(s, e);
    var i := Arrow(s, 1);
    NoNewline(s, e, i);
  }

  lemma NoNewline(s: seq<byte>, e: Edge, i: nat)
    requires Reads(s, e) && i <= |e.source|
    ensures i + 2 <= |s| && NEWLINE !in s[..i]
  {
    assert s[..i] == e.source[..i];
  }

  /** What follows an arrow before the end of the first name is free of inner newlines, too. */
  lemma TargetOfRest(s: seq<byte>, e: Edge, i: nat)
    requires Reads(s, e) && i <= |e.source| && i + 2 <= |s|
    requires ArrowAt(s, i)
    ensures var rest := s[i + 2..];
      && rest != []
      && var target := if rest[|rest| - 1] == NEWLINE then rest[..|rest| - 1] else rest;
      target != [] && NEWLINE !in target
  {
    var n := |e.source|;
    var body := e.source + [DASH, ANGLE] + e.target;
    assert NEWLINE !in body;
    var rest := s[i + 2..];
    if s == body {
      assert rest == body[i + 2..];
      assert forall c | c in rest :: c in body;
      assert rest[|rest| - 1] in body;
    } else {
      assert rest == body[i + 2..] + [NEWLINE];
      assert rest[..|rest| - 1] == body[i + 2..];
      assert forall c | c in body[i + 2..] :: c in body;
    }
  }

  // ---------------------------------------------------------------------------
  // What the counters mean
  // ---------------------------------------------------------------------------

  /** The edge that a record reports, if it reports one. */
  function EdgeOf(r: Record): Option<Edge> {
    if r.kind == KIND_TRANSITION then Match(r.detail) else None
  }

  /** A record reports an edge exactly when it is a transition whose detail can be read; faults are of two kinds. */
  lemma RecordKinds(r: Record)
    ensures EdgeOf(r).Some? <==> r.kind == 1 && exists e :: Reads(r.detail, e)
    ensures IsFault(r) <==> r.kind == 11 || r.kind == 1000
  {
    hide Match, Reads;
    forall e | Reads(r.detail, e) ensures Match(r.detail).Some? { MatchIsShortestReading(r.detail, e); }
    if Match(r.detail).Some? { MatchIsShortestReading(r.detail, Match(r.detail).value); }
  }

  function Taken(rs: seq<Record>, e: Edge): set<nat> {
    set k: nat | k < |rs| && EdgeOf(rs[k]) == Some(e)
  }

  /** The record at j is the latest before k that reports an edge of that instance. */
  predicate LatestBefore(rs: seq<Record>, j: nat, k: nat, instance: int)
    requires j < k <= |rs|
  {
    && rs[j].instance == instance && EdgeOf(rs[j]).Some?
    && forall l | j < l < k :: rs[l].instance == instance ==> EdgeOf(rs[l]).None?
  }

  /** The record at k is a fault that follows the edge in its own instance. */
  predicate Blames(rs: seq<Record>, k: nat, e: Edge)
    requires k < |rs|
  {
    IsFault(rs[k]) && exists j | 0 <= j < k :: LatestBefore(rs, j, k, rs[k].instance) && EdgeOf(rs[j]) == Some(e)
  }

  function Blamed(rs: seq<Record>, e: Edge): set<nat> {
    set k: nat | k < |rs| && Blames(rs, k, e)
  }

  /** Instances that have taken an edge. */
  function Moved(rs: seq<Record>): set<int> {
    set r | r in rs && EdgeOf(r).Some? :: r.instance
  }

  function Count(m: map<Edge, nat>, e: Edge): nat {
    if e in m then m[e] else 0
  }

  /** The latest edge of an instance. */
  ghost predicate Remembers(rs: seq<Record>, i: int, e: Edge) {
    exists j | 0 <= j < |rs| :: LatestBefore(rs, j, |rs|, i) && EdgeOf(rs[j]) == Some(e)
  }

  ghost predicate LastIs(rs: seq<Record>, last: map<int, Edge>) {
    last.Keys == Moved(rs) && forall i | i in last :: Remembers(rs, i, last[i])
  }

  lemma TakenStep(rs: seq<Record>, r: Record, e: Edge)
    ensures |Taken(rs + [r], e)| == |Taken(rs, e)| + if EdgeOf(r) == Some(e) then 1 else 0
  {
    hide EdgeOf;
    TakenMore(rs, r, e);
    if EdgeOf(r) == Some(e) { assert |rs| !in Taken(rs, e); }
  }

  lemma TakenMore(rs: seq<Record>, r: Record, e: Edge)
    ensures Taken(rs + [r], e) == Taken(rs, e) + if EdgeOf(r) == Some(e) then {|rs|} else {}
  {
    hide EdgeOf;
    var more := rs + [r];
    forall k: nat | k < |more| ensures more[k] == if k < |rs| then rs[k] else r {}
  }

  lemma LatestKept(rs: seq<Record>, r: Record, j: nat, k: nat, instance: int)
    requires j < k <= |rs|
    ensures LatestBefore(rs + [r], j, k, instance) <==> LatestBefore(rs, j, k, instance)
  {
    var more := rs + [r];
    assert forall l: nat | l < |rs| :: more[l] == rs[l];
  }

  lemma BlamesKept(rs: seq<Record>, r: Record, k: nat, e: Edge)
    requires k < |rs|
    ensures Blames(rs + [r], k, e) <==> Blames(rs, k, e)
  {
    var more := rs + [r];
    assert forall l: nat | l < |rs| :: more[l] == rs[l];
    forall j: nat | j < k ensures LatestBefore(more, j, k, rs[k].instance) <==> LatestBefore(rs, j, k, rs[k].instance) {
      LatestKept(rs, r, j, k, rs[k].instance);
    }
  }

  lemma BlamedStep(rs: seq<Record>, r: Record, e: Edge)
    ensures |Blamed(rs + [r], e)| == |Blamed(rs, e)| + if Blames(rs + [r], |rs|, e) then 1 else 0
  {
    hide Blames;
    forall k: nat | k < |rs| ensures Blames(rs + [r], k, e) <==> Blames(rs, k, e) { BlamesKept(rs, r, k, e); }
    assert Blamed(rs + [r], e) == Blamed(rs, e) + if Blames(rs + [r], |rs|, e) then {|rs|} else {};
    if Blames(rs + [r], |rs|, e) { assert |rs| !in Blamed(rs, e); }
  }

  /** At most one record is the latest. */
  lemma LatestIsUnique(rs: seq<Record>, i: nat, j: nat, k: nat, instance: int)
    requires i < k <= |rs| && j < k && LatestBefore(rs, i, k, instance) && LatestBefore(rs, j, k, instance)
    ensures i == j
  {
  }

  /** The fault at the end blames the last edge remembered for its instance. */
  lemma BlamesLast(rs: seq<Record>, r: Record, last: map<int, Edge>, e: Edge)
    requires LastIs(rs, last) && IsFault(r)
    ensures Blames(rs + [r], |rs|, e) <==> r.instance in last && last[r.instance] == e
  {
    hide LatestBefore, EdgeOf;
    var n := |rs|;
    var more := rs + [r];
    assert more[n] == r;
    forall j: nat | j < n ensures LatestBefore(more, j, n, r.instance) <==> LatestBefore(rs, j, n, r.instance) {
      LatestKept(rs, r, j, n, r.instance);
    }
    assert forall j: nat | j < n :: more[j] == rs[j];
    if r.instance in last {
      var j :| 0 <= j < n && LatestBefore(rs, j, n, r.instance) && EdgeOf(rs[j]) == Some(last[r.instance]);
      assert LatestBefore(more, j, n, r.instance);
      if Blames(more, n, e) {
        var i :| 0 <= i < n && LatestBefore(more, i, n, r.instance) && EdgeOf(more[i]) == Some(e);
        LatestIsUnique(rs, i, j, n, r.instance);
      }
    } else if Blames(more, n, e) {
      var i :| 0 <= i < n && LatestBefore(more, i, n, r.instance) && EdgeOf(more[i]) == Some(e);
      LatestMoved(rs, i, n, r.instance);
    }
  }

  lemma LatestMoved(rs: seq<Record>, j: nat, k: nat, instance: int)
    requires j < k <= |rs| && LatestBefore(rs, j, k, instance)
    ensures instance in Moved(rs)
  {
    assert rs[j] in rs;
  }

  lemma LastStep(rs: seq<Record>, r: Record, last: map<int, Edge>)
    requires LastIs(rs, last)
    ensures LastIs(rs + [r], if EdgeOf(r).Some? then last[r.instance := EdgeOf(r).value] else last)
  {
    hide Remembers, Moved, EdgeOf;
    var now := if EdgeOf(r).Some? then last[r.instance := EdgeOf(r).value] else last;
    MovedStep(rs, r);
    if EdgeOf(r).Some? { RemembersNew(rs, r); }
    forall i | i in last && !(EdgeOf(r).Some? && i == r.instance) ensures Remembers(rs + [r], i, last[i]) {
      RemembersStill(rs, r, i, last[i]);
    }
  }

  lemma RemembersNew(rs: seq<Record>, r: Record)
    requires EdgeOf(r).Some?
    ensures Remembers(rs + [r], r.instance, EdgeOf(r).value)
  {
    hide EdgeOf, LatestBefore;
    LatestAtEnd(rs, r);
    assert (rs + [r])[|rs|] == r;
  }

  lemma RemembersStill(rs: seq<Record>, r: Record, i: int, e: Edge)
    requires Remembers(rs, i, e) && (r.instance == i ==> EdgeOf(r).None?)
    ensures Remembers(rs + [r], i, e)
  {
    hide EdgeOf, LatestBefore;
    var j :| 0 <= j < |rs| && LatestBefore(rs, j, |rs|, i) && EdgeOf(rs[j]) == Some(e);
    LatestPast(rs, r, j, i);
    assert (rs + [r])[j] == rs[j];
  }

  lemma MovedStep(rs: seq<Record>, r: Record)
    ensures Moved(rs + [r]) == Moved(rs) + if EdgeOf(r).Some? then {r.instance} else {}
  {
    assert forall x :: x in rs + [r] <==> x in rs || x == r;
  }

  lemma LatestAtEnd(rs: seq<Record>, r: Record)
    requires EdgeOf(r).Some?
    ensures LatestBefore(rs + [r], |rs|, |rs| + 1, r.instance)
  {
  }

  lemma LatestPast(rs: seq<Record>, r: Record, j: nat, instance: int)
    requires j < |rs| && LatestBefore(rs, j, |rs|, instance) && (r.instance == instance ==> EdgeOf(r).None?)
    ensures LatestBefore(rs + [r], j, |rs| + 1, instance)
  {
    var more := rs + [r];
    assert forall l: nat | l < |rs| :: more[l] == rs[l];
  }

  // ---------------------------------------------------------------------------
  // The documented rule
  // ---------------------------------------------------------------------------

  predicate IsTransition(r: Record) {
    r.kind == KIND_TRANSITION
  }

  /** The rule of the doc comment: the fault comes before the instance's next transition, readable or not. */
  predicate DocBlames(rs: seq<Record>, k: nat, e: Edge)
    requires k < |rs|
  {
    && IsFault(rs[k])
    && exists j | 0 <= j < k :: rs[j].instance == rs[k].instance && EdgeOf(rs[j]) == Some(e) && NoTransition(rs, j, k)
  }

  predicate NoTransition(rs: seq<Record>, j: nat, k: nat)
    requires j < k < |rs|
  {
    forall l | j < l < k :: rs[l].instance == rs[k].instance ==> !IsTransition(rs[l])
  }

  function DocBlamed(rs: seq<Record>, e: Edge): set<nat> {
    set k: nat | k < |rs| && DocBlames(rs, k, e)
  }

  /** A transition without a readable edge stands between the latest edge of an instance and a fault of it. */
  predicate Interrupted(rs: seq<Record>) {
    exists j, l, k | 0 <= j < l < k < |rs| :: Interrupts(rs, j, l, k)
  }

  predicate Interrupts(rs: seq<Record>, j: nat, l: nat, k: nat)
    requires j < l < k < |rs|
  {
    IsFault(rs[k]) && LatestBefore(rs, j, k, rs[k].instance) && rs[l].instance == rs[k].instance && IsTransition(rs[l])
  }

  lemma EdgeIsTransition(r: Record)
    requires EdgeOf(r).Some?
    ensures IsTransition(r)
  {
  }

  /** What the documented rule charges, the code charges to the same edge. */
  lemma DocBlamesImpliesBlames(rs: seq<Record>, k: nat, e: Edge)
    requires k < |rs| && DocBlames(rs, k, e)
    ensures Blames(rs, k, e)
  {
    hide EdgeOf, IsTransition;
    var j :| 0 <= j < k && rs[j].instance == rs[k].instance && EdgeOf(rs[j]) == Some(e) && NoTransition(rs, j, k);
    forall l | j < l < k && rs[l].instance == rs[k].instance ensures EdgeOf(rs[l]).None? {
      if EdgeOf(rs[l]).Some? { EdgeIsTransition(rs[l]); }
    }
    assert LatestBefore(rs, j, k, rs[k].instance);
  }

  lemma UninterruptedBlames(rs: seq<Record>, k: nat, e: Edge)
    requires k < |rs| && Blames(rs, k, e) && !Interrupted(rs)
    ensures DocBlames(rs, k, e)
  {
    hide EdgeOf, IsTransition;
    var j :| 0 <= j < k && LatestBefore(rs, j, k, rs[k].instance) && EdgeOf(rs[j]) == Some(e);
    forall l | j < l < k && rs[l].instance == rs[k].instance ensures !IsTransition(rs[l]) {
      assert !Interrupts(rs, j, l, k);
    }
  }

  /** An interruption is a fault that the code charges and the documented rule does not. */
  lemma InterruptionIsMischarged(rs: seq<Record>, j: nat, l: nat, k: nat)
    requires j < l < k < |rs| && Interrupts(rs, j, l, k)
    ensures EdgeOf(rs[j]).Some? && Blames(rs, k, EdgeOf(rs[j]).value) && !DocBlames(rs, k, EdgeOf(rs[j]).value)
  {
    hide EdgeOf, IsTransition;
    EdgeIsTransition(rs[j]);
  }

  /** The fault counts are those of the documented rule exactly when no unreadable transition interrupts. */
  lemma FaultedIsDocumentedIff(rs: seq<Record>)
    ensures (forall k: nat, e | k < |rs| :: Blames(rs, k, e) <==> DocBlames(rs, k, e)) <==> !Interrupted(rs)
    ensures (forall e :: |Blamed(rs, e)| == |DocBlamed(rs, e)|) <==> !Interrupted(rs)
  {
    hide Blames, DocBlames, Interrupts, EdgeOf;
    forall k: nat, e | k < |rs| && DocBlames(rs, k, e) ensures Blames(rs, k, e) { DocBlamesImpliesBlames(rs, k, e); }
    if j, l, k :| 0 <= j < l < k < |rs| && Interrupts(rs, j, l, k) {
      InterruptionIsMischarged(rs, j, l, k);
      FewerBlamed(rs, k, EdgeOf(rs[j]).value);
    } else {
      forall k: nat, e | k < |rs| && Blames(rs, k, e) ensures DocBlames(rs, k, e) { UninterruptedBlames(rs, k, e); }
      forall e ensures Blamed(rs, e) == DocBlamed(rs, e) {}
    }
  }

  lemma FewerBlamed(rs: seq<Record>, k: nat, e: Edge)
    requires k < |rs| && Blames(rs, k, e) && !DocBlames(rs, k, e)
    requires forall i: nat | i < |rs| && DocBlames(rs, i, e) :: Blames(rs, i, e)
    ensures |DocBlamed(rs, e)| < |Blamed(rs, e)|
  {
    hide Blames, DocBlames;
    assert DocBlamed(rs, e) <= Blamed(rs, e) - {k};
    SubsetSize(DocBlamed(rs, e), Blamed(rs, e) - {k});
  }

  lemma {:induction false} SubsetSize(a: set<nat>, b: set<nat>)
    requires a <= b
    ensures |a| <= |b|
  {
    if a != {} {
      var x :| x in a;
      SubsetSize(a - {x}, b - {x});
    }
  }

  /** A move from A to B, a transition whose detail has no arrow, and a fault, all of one instance. */
  const INTERRUPTED_DUMP: seq<Record> := [
    Record(1, 0, 0, KIND_TRANSITION, 0, [0x41, DASH, ANGLE, 0x42]),
    Record(2, 0, 0, KIND_TRANSITION, 0, [0x41]),
    Record(3, 0, 0, KIND_FAULT, 0, [])]

  /** The code charges that fault to the edge from A to B, the documented rule to none. */
  lemma UnreadableTransitionKeepsEdge()
    ensures Blames(INTERRUPTED_DUMP, 2, Edge([0x41], [0x42]))
    ensures forall e :: !DocBlames(INTERRUPTED_DUMP, 2, e)
  {
    var rs := INTERRUPTED_DUMP;
    var e := Edge([0x41], [0x42]);
    var s := rs[0].detail;
    assert Reads(s, e) by { assert s == e.source + [DASH, ANGLE] + e.target; }
    ReadingMatches(s, e);
    MatchReads(s);
    assert Arrow(s, 1) == 1;
    assert s[..1] == [0x41] && s[1 + 2..] == [0x42];
    assert EdgeOf(rs[0]) == Some(e);
    assert Arrow(rs[1].detail, 1) == 1;
    assert EdgeOf(rs[1]) == None;
    assert LatestBefore(rs, 0, 2, 0);
  }

  // ---------------------------------------------------------------------------
  // The pass
  // ---------------------------------------------------------------------------

  /**
   `edges` counts the transitions that report each edge, `faulted` the faults
   whose latest preceding edge in the same instance it is, and the number is that
   of the instances that took an edge.
   */
  method StateEdges(records: seq<Record>) returns (edges: map<Edge, nat>, faulted: map<Edge, nat>, instances: nat)
    ensures forall e :: Count(edges, e) == |Taken(records, e)|
    ensures forall e :: Count(faulted, e) == |Blamed(records, e)|
    ensures instances == |Moved(records)|
    ensures forall e | e in edges :: edges[e] > 0
    ensures forall e | e in faulted :: faulted[e] > 0
  {
    hide Taken, Blamed, Blames, LastIs, Match;
    edges, faulted := map[], map[];
    var last: map<int, Edge> := map[];
    NothingYet();
    assert records[..0] == [];
    var k := 0;
    while k < |records|
      invariant 0 <= k <= |records|
      invariant forall e :: Count(edges, e) == |Taken(records[..k], e)|
      invariant forall e :: Count(faulted, e) == |Blamed(records[..k], e)|
      invariant LastIs(records[..k], last)
      invariant forall e | e in edges :: edges[e] > 0
      invariant forall e | e in faulted :: faulted[e] > 0
    {
      var r := records[k];
      ghost var rs := records[..k];
      assert records[..k + 1] == rs + [r];
      forall e ensures |Taken(rs + [r], e)| == |Taken(rs, e)| + if EdgeOf(r) == Some(e) then 1 else 0 { TakenStep(rs, r, e); }
      forall e ensures |Blamed(rs + [r], e)|
                       == |Blamed(rs, e)| + if IsFault(r) && r.instance in last && last[r.instance] == e then 1 else 0 {
        BlamedStep(rs, r, e);
        if IsFault(r) { BlamesLast(rs, r, last, e); } else { NoBlame(rs, r, e); }
      }
      LastStep(rs, r, last);
      if r.kind == KIND_TRANSITION {
        var found := Match(r.detail);
        if found.Some? {
          edges := edges[found.value := Count(edges, found.value) + 1];
          last := last[r.instance := found.value];
        }
      } else if IsFault(r) {
        if r.instance in last {
          faulted := faulted[last[r.instance] := Count(faulted, last[r.instance]) + 1];
        }
      }
      k := k + 1;
    }
    assert records[..k] == records;
    instances := |last|;
    LastKeys(records, last);
  }

  lemma NothingYet()
    ensures (forall e :: Taken([], e) == {} && Blamed([], e) == {}) && LastIs([], map[])
  {
  }

  lemma NoBlame(rs: seq<Record>, r: Record, e: Edge)
    requires !IsFault(r)
    ensures !Blames(rs + [r], |rs|, e)
  {
  }

  lemma LastKeys(rs: seq<Record>, last: map<int, Edge>)
    requires LastIs(rs, last)
    ensures |last| == |Moved(rs)|
  {
  }
}
