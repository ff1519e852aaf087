/**
 The safety trace check of the architecture gate (ci/check_capella_model.py):
 every safety requirement must reach a marked mechanism along directed links.
 */
module Linkage {
  import opened Wrappers

  type Id = string

  /** A trace link; an end that cannot be resolved is None. */
  datatype Link = Link(uuid: Id, source: Option<Id>, target: Option<Id>)

  datatype Component = Component(uuid: Id, isRoot: bool, marked: bool)

  datatype Requirement = Requirement(uuid: Id, hwrsId: Option<string>)

  datatype Finding = Broken(link: Id) | Uncovered(hwrsId: string)

  // ---------------------------------------------------------------------------
  // What the check means
  // ---------------------------------------------------------------------------

  predicate Intact(l: Link) {
    l.source.Some? && l.target.Some?
  }

  predicate Linked(links: seq<Link>, a: Id, b: Id) {
    exists l | l in links :: l.source == Some(a) && l.target == Some(b)
  }

  /** A walk along links. */
  predicate Path(links: seq<Link>, p: seq<Id>) {
    p != [] && forall i | 0 <= i < |p| - 1 :: Linked(links, p[i], p[i + 1])
  }

  ghost predicate Reaches(links: seq<Link>, a: Id, b: Id) {
    exists p :: Path(links, p) && p[0] == a && p[|p| - 1] == b
  }

  /** The identifiers HW-SF- followed by digits. */
  predicate SafetyId(id: string) {
    |id| > 6 && id[..6] == "HW-SF-" && forall c | c in id[6..] :: '0' <= c <= '9'
  }

  predicate Checked(r: Requirement) {
    r.hwrsId.Some? && SafetyId(r.hwrsId.value)
  }

  predicate Mechanism(components: seq<Component>, id: Id) {
    exists c | c in components :: c.uuid == id && !c.isRoot && c.marked
  }

  ghost predicate Covered(links: seq<Link>, components: seq<Component>, r: Requirement) {
    exists id :: Reaches(links, r.uuid, id) && Mechanism(components, id)
  }

  function BrokenLinks(links: seq<Link>): seq<Finding> {
    if links == [] then []
    else
      var l := links[|links| - 1];
      BrokenLinks(links[..|links| - 1]) + if Intact(l) then [] else [Broken(l.uuid)]
  }

  ghost function UncoveredOf(links: seq<Link>, components: seq<Component>, rs: seq<Requirement>): seq<Finding> {
    if rs == [] then []
    else
      var r := rs[|rs| - 1];
      UncoveredOf(links, components, rs[..|rs| - 1])
      + if Checked(r) && !Covered(links, components, r) then [Uncovered(r.hwrsId.value)] else []
  }

  // ---------------------------------------------------------------------------
  // The worklist
  // ---------------------------------------------------------------------------

  /** The neighbours recorded for a node. */
  function Next(adjacency: map<Id, set<Id>>, a: Id): set<Id> {
    if a in adjacency then adjacency[a] else {}
  }

  /** The neighbours recorded are those along the links. */
  ghost predicate Holds(links: seq<Link>, adjacency: map<Id, set<Id>>) {
    forall a, b :: b in Next(adjacency, a) <==> Linked(links, a, b)
  }

  lemma NothingHeld()
    ensures Holds([], map[])
  {
  }

  lemma HoldsStep(links: seq<Link>, l: Link, adjacency: map<Id, set<Id>>)
    requires Holds(links, adjacency)
    ensures !Intact(l) ==> Holds(links + [l], adjacency)
    ensures Intact(l) ==>
              Holds(links + [l], adjacency[l.source.value := Next(adjacency, l.source.value) + {l.target.value}])
  {
    hide Linked;
    forall a, b
      ensures Linked(links + [l], a, b) <==> b in Next(adjacency, a) || (l.source == Some(a) && l.target == Some(b))
    {
      LinkedStep(links, l, a, b);
    }
  }

  method Adjacency(links: seq<Link>) returns (adjacency: map<Id, set<Id>>, broken: seq<Finding>)
    ensures Holds(links, adjacency)
    ensures broken == BrokenLinks(links)
  {
    hide Holds, Linked;
    NothingHeld();
    assert links[..0] == [];
    adjacency := map[];
    broken := [];
    var i := 0;
    while i < |links|
      invariant 0 <= i <= |links|
      invariant Holds(links[..i], adjacency)
      invariant broken == BrokenLinks(links[..i])
    {
      var l := links[i];
      assert links[..i + 1] == links[..i] + [l];
      assert links[..i + 1][..i] == links[..i];
      HoldsStep(links[..i], l, adjacency);
      if Intact(l) {
        adjacency := adjacency[l.source.value := Next(adjacency, l.source.value) + {l.target.value}];
      } else {
        broken := broken + [Broken(l.uuid)];
      }
      i := i + 1;
    }
    assert links[..i] == links;
  }

  lemma LinkedStep(links: seq<Link>, l: Link, a: Id, b: Id)
    ensures Linked(links + [l], a, b) <==> Linked(links, a, b) || (l.source == Some(a) && l.target == Some(b))
  {
    assert l in links + [l];
    if Linked(links, a, b) {
      var k :| k in links && k.source == Some(a) && k.target == Some(b);
      assert k in links + [l];
    }
  }

  /** The elements of a set, each once; the order in which nodes are visited does not matter. */
  method Listed(s: set<Id>) returns (l: seq<Id>)
    ensures forall x :: x in l <==> x in s
  {
    l := [];
    var rest := s;
    while rest != {}
      invariant rest <= s
      invariant forall x :: x in l <==> x in s - rest
      decreases rest
    {
      var x :| x in rest;
      l := l + [x];
      rest := rest - {x};
    }
  }

  lemma ReachesSelf(links: seq<Link>, a: Id)
    ensures Reaches(links, a, a)
  {
    assert Path(links, [a]) && [a][0] == a;
  }

  lemma ReachesStep(links: seq<Link>, a: Id, b: Id, c: Id)
    requires Reaches(links, a, b) && Linked(links, b, c)
    ensures Reaches(links, a, c)
  {
    var p :| Path(links, p) && p[0] == a && p[|p| - 1] == b;
    var q := p + [c];
    assert Path(links, q) && q[0] == a && q[|q| - 1] == c;
  }

  /** A set that is closed under the links contains every walk that starts in it. */
  lemma {:induction false} ClosedHoldsPath(links: seq<Link>, seen: set<Id>, p: seq<Id>)
    requires Path(links, p) && p[0] in seen
    requires forall a, b | a in seen && Linked(links, a, b) :: b in seen
    ensures p[|p| - 1] in seen
  {
    if |p| > 1 {
      assert Linked(links, p[0], p[0 + 1]);
      var q := p[1..];
      forall i | 0 <= i < |q| - 1 ensures Linked(links, q[i], q[i + 1]) {
        assert Linked(links, p[i + 1], p[i + 1 + 1]);
      }
      ClosedHoldsPath(links, seen, q);
    }
  }

  lemma ClosedHoldsReachable(links: seq<Link>, seen: set<Id>, a: Id, b: Id)
    requires a in seen && Reaches(links, a, b)
    requires forall x, y | x in seen && Linked(links, x, y) :: y in seen
    ensures b in seen
  {
    var p :| Path(links, p) && p[0] == a && p[|p| - 1] == b;
    ClosedHoldsPath(links, seen, p);
  }

  function Targets(links: seq<Link>): set<Id> {
    set l | l in links && l.target.Some? :: l.target.value
  }

  /** The worklist ends, on cyclic links too, with exactly the nodes reachable from the start. */
  method Visit(ghost links: seq<Link>, adjacency: map<Id, set<Id>>, start: Id) returns (seen: set<Id>)
    requires Holds(links, adjacency)
    ensures forall id :: id in seen <==> Reaches(links, start, id)
  {
    hide Reaches;
    var pending := [start];
    seen := {};
    ReachesSelf(links, start);
    ghost var all := Targets(links) + {start};
    while pending != []
      invariant seen <= all && (forall x | x in pending :: x in all)
      invariant start in seen || start in pending
      invariant forall x | x in seen || x in pending :: Reaches(links, start, x)
      invariant forall a, b | a in seen && Linked(links, a, b) :: b in seen || b in pending
      decreases all - seen, |pending|
    {
      var n := |pending| - 1;
      var current := pending[n];
      ghost var before := pending;
      pending := pending[..n];
      assert forall x | x in before :: x in pending || x == current;
      if current !in seen {
        seen := seen + {current};
        var ahead := Listed(Next(adjacency, current) - seen);
        forall x | x in ahead ensures x in all && Reaches(links, start, x) {
          assert Linked(links, current, x);
          ReachesStep(links, start, current, x);
        }
        pending := pending + ahead;
      }
    }
    forall id | Reaches(links, start, id) ensures id in seen {
      ClosedHoldsReachable(links, seen, start, id);
    }
  }

  /** The gate reports the broken links and exactly the checked requirements that no mechanism covers, in order. */
  method CheckSafetyLinkage(links: seq<Link>, components: seq<Component>, requirements: seq<Requirement>)
    returns (findings: seq<Finding>)
    ensures findings == BrokenLinks(links) + UncoveredOf(links, components, requirements)
  {
    hide Reaches, Covered, Holds;
    var adjacency, broken := Adjacency(links);
    findings := broken;
    var safety := set c | c in components && !c.isRoot && c.marked :: c.uuid;
    var i := 0;
    while i < |requirements|
      invariant 0 <= i <= |requirements|
      invariant findings == BrokenLinks(links) + UncoveredOf(links, components, requirements[..i])
    {
      var r := requirements[i];
      assert requirements[..i + 1][..i] == requirements[..i];
      if Checked(r) {
        var seen := Visit(links, adjacency, r.uuid);
        CoveredIff(links, components, r, seen, safety);
        if seen * safety == {} { findings := findings + [Uncovered(r.hwrsId.value)]; }
      }
      i := i + 1;
    }
    assert requirements[..i] == requirements;
  }

  lemma CoveredIff(links: seq<Link>, components: seq<Component>, r: Requirement, seen: set<Id>, safety: set<Id>)
    requires forall id :: id in seen <==> Reaches(links, r.uuid, id)
    requires safety == set c | c in components && !c.isRoot && c.marked :: c.uuid
    ensures Covered(links, components, r) <==> seen * safety != {}
  {
    hide Reaches;
    if seen * safety != {} {
      var id :| id in seen * safety;
      assert Mechanism(components, id);
    }
    if Covered(links, components, r) {
      var id :| Reaches(links, r.uuid, id) && Mechanism(components, id);
      assert id in seen * safety;
    }
  }

  lemma {:induction false} UncoveredPasses(links: seq<Link>, components: seq<Component>, rs: seq<Requirement>)
    ensures UncoveredOf(links, components, rs) == [] <==> forall r | r in rs && Checked(r) :: Covered(links, components, r)
  {
    if rs != [] {
      var n := |rs| - 1;
      UncoveredPasses(links, components, rs[..n]);
      assert rs == rs[..n] + [rs[n]];
    }
  }

  lemma {:induction false} BrokenPasses(links: seq<Link>)
    ensures BrokenLinks(links) == [] <==> forall l | l in links :: Intact(l)
  {
    if links != [] {
      var n := |links| - 1;
      BrokenPasses(links[..n]);
      assert links == links[..n] + [links[n]];
    }
  }

  /** The gate passes exactly when all links are intact and every safety requirement reaches a mechanism. */
  lemma GatePassesIff(links: seq<Link>, components: seq<Component>, requirements: seq<Requirement>)
    ensures BrokenLinks(links) + UncoveredOf(links, components, requirements) == []
            <==> (forall l | l in links :: Intact(l))
                 && (forall r | r in requirements && Checked(r) :: Covered(links, components, r))
  {
    BrokenPasses(links);
    UncoveredPasses(links, components, requirements);
    var b, u := BrokenLinks(links), UncoveredOf(links, components, requirements);
    assert |b + u| == |b| + |u|;
  }

  // ---------------------------------------------------------------------------
  // The findings, one by one
  // ---------------------------------------------------------------------------

  /** The identifier of a safety requirement: HW-SF- and at least one digit. */
  ghost predicate NamesSafetyRequirement(r: Requirement) {
    exists digits: string | |digits| >= 1 && (forall c | c in digits :: 48 <= c as int <= 57) :: r.hwrsId == Some("HW-SF-" + digits)
  }

  predicate HasLink(links: seq<Link>, a: Id, b: Id) {
    exists l | l in links :: l.source == Some(a) && l.target == Some(b)
  }

  /** A walk along intact links from a requirement to a marked component that is not the root. */
  ghost predicate Leads(links: seq<Link>, components: seq<Component>, r: Requirement, walk: seq<Id>) {
    && walk != [] && walk[0] == r.uuid
    && (forall i | 0 <= i < |walk| - 1 :: HasLink(links, walk[i], walk[i + 1]))
    && exists c | c in components :: c.uuid == walk[|walk| - 1] && !c.isRoot && c.marked
  }

  lemma CheckedIff(r: Requirement)
    ensures Checked(r) <==> NamesSafetyRequirement(r)
  {
    if Checked(r) {
      var id := r.hwrsId.value;
      assert id == "HW-SF-" + id[6..];
    }
    if digits: string :| |digits| >= 1 && (forall c | c in digits :: 48 <= c as int <= 57) && r.hwrsId == Some("HW-SF-" + digits) {
      var id := r.hwrsId.value;
      assert id[..6] == "HW-SF-" && id[6..] == digits;
    }
  }

  lemma CoveredIffLed(links: seq<Link>, components: seq<Component>, r: Requirement)
    ensures Covered(links, components, r) <==> exists walk :: Leads(links, components, r, walk)
  {
    if Covered(links, components, r) {
      var id :| Reaches(links, r.uuid, id) && Mechanism(components, id);
      var p :| Path(links, p) && p[0] == r.uuid && p[|p| - 1] == id;
      forall i | 0 <= i < |p| - 1 ensures HasLink(links, p[i], p[i + 1]) { assert Linked(links, p[i], p[i + 1]); }
      assert Leads(links, components, r, p);
    }
    if walk :| Leads(links, components, r, walk) {
      forall i | 0 <= i < |walk| - 1 ensures Linked(links, walk[i], walk[i + 1]) { assert HasLink(links, walk[i], walk[i + 1]); }
      assert Path(links, walk) && Reaches(links, r.uuid, walk[|walk| - 1]);
      assert Mechanism(components, walk[|walk| - 1]);
    }
  }

  lemma {:induction false} BrokenIff(links: seq<Link>, id: Id)
    ensures Broken(id) in BrokenLinks(links) <==> exists l | l in links :: l.uuid == id && (l.source == None || l.target == None)
    ensures forall h :: Uncovered(h) !in BrokenLinks(links)
  {
    if links != [] {
      var n := |links| - 1;
      BrokenIff(links[..n], id);
      assert links == links[..n] + [links[n]] && links[n] in links;
    }
  }

  lemma {:induction false} UncoveredIff(links: seq<Link>, components: seq<Component>, rs: seq<Requirement>, hwrsId: string)
    ensures Uncovered(hwrsId) in UncoveredOf(links, components, rs) <==>
            exists r | r in rs :: r.hwrsId == Some(hwrsId) && Checked(r) && !Covered(links, components, r)
    ensures forall id :: Broken(id) !in UncoveredOf(links, components, rs)
  {
    hide Covered, SafetyId;
    if rs != [] {
      var n := |rs| - 1;
      UncoveredIff(links, components, rs[..n], hwrsId);
      assert rs == rs[..n] + [rs[n]] && rs[n] in rs;
    }
  }

  /** A link is reported exactly when an end is missing, a safety requirement when no walk leads from it to a mechanism. */
  lemma FindingsAre(links: seq<Link>, components: seq<Component>, requirements: seq<Requirement>, id: Id, hwrsId: string)
    ensures var findings := BrokenLinks(links) + UncoveredOf(links, components, requirements);
      && (Broken(id) in findings <==> exists l | l in links :: l.uuid == id && (l.source == None || l.target == None))
      && (Uncovered(hwrsId) in findings <==>
            exists r | r in requirements :: r.hwrsId == Some(hwrsId) && NamesSafetyRequirement(r)
              && forall walk :: !Leads(links, components, r, walk))
  {
    BrokenIff(links, id);
    UncoveredIff(links, components, requirements, hwrsId);
    forall r ensures Checked(r) <==> NamesSafetyRequirement(r) { CheckedIff(r); }
    forall r ensures Covered(links, components, r) <==> exists walk :: Leads(links, components, r, walk) { CoveredIffLed(links, components, r); }
    hide Covered, Checked, NamesSafetyRequirement, Leads, BrokenLinks, UncoveredOf;
  }

  /** Findings come in the order of the links. */
  lemma {:induction false} BrokenAppend(links: seq<Link>, more: seq<Link>)
    ensures BrokenLinks(links + more) == BrokenLinks(links) + BrokenLinks(more)
  {
    hide Intact;
    if more == [] {
      assert links + more == links;
    } else {
      var n := |more| - 1;
      BrokenAppend(links, more[..n]);
      assert (links + more)[..|links| + n] == links + more[..n];
    }
  }

  /** And then in that of the requirements. */
  lemma {:induction false} UncoveredAppend(links: seq<Link>, components: seq<Component>, rs: seq<Requirement>, more: seq<Requirement>)
    ensures UncoveredOf(links, components, rs + more) == UncoveredOf(links, components, rs) + UncoveredOf(links, components, more)
  {
    hide Covered, Checked;
    if more == [] {
      assert rs + more == rs;
    } else {
      var n := |more| - 1;
      UncoveredAppend(links, components, rs, more[..n]);
      assert (rs + more)[..|rs| + n] == rs + more[..n];
    }
  }
}
