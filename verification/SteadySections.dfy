/** Sections that always or never end by an exception of their own: what their shape says about lost leaves. */
module SteadySections {
  import opened SectionTree
  import opened SectionVisits
  import opened SectionLosses

  /** The section and those below it throw at the end of their bodies in every cycle, or never. */
  ghost predicate Steady(s: Section) {
    && (forall i: nat, p: Path :: s.throws(i, p) == (i == |s.body| && Throws(s)))
    && forall k | k in s.body :: Steady(k)
  }

  predicate Throws(s: Section) {
    s.throws(|s.body|, [])
  }

  /**
   * Before such a section throws itself, every subsection but the last must have thrown, for the first
   * that does not is where the section ends; and so on down the last one.
   */
  predicate Tight(body: seq<Section>, i: nat)
    requires i <= |body|
    decreases body, |body| - i
  {
    i == |body|
    || (Throws(body[i]) && Tight(body, i + 1))
    || (!Throws(body[i]) && i == |body| - 1 && Tight(body[i].body, 0))
  }

  /** Every section below s that throws is tight. */
  ghost predicate AllTight(s: Section) {
    forall k | k in s.body :: (Throws(k) ==> Tight(k.body, 0)) && AllTight(k)
  }

  /** A run of such sections enters every leaf exactly when those that throw are tight. */
  lemma {:induction false} SteadyLaw(s: Section)
    requires WellNamed(s) && Steady(s)
    ensures ThrowsLate(s) <==> (Throws(s) ==> Tight(s.body, 0))
    ensures RunsOn(s) && (LosesNothing(s) <==> AllTight(s))
    decreases s
  {
    hide ThrowsLate, RunsOn, StopsAt;
    forall k | k in s.body ensures ThrowsLate(k) <==> (Throws(k) ==> Tight(k.body, 0)) {
      SteadyLaw(k);
    }
    forall k | k in s.body ensures LosesNothing(k) <==> AllTight(k) { SteadyLaw(k); }
    RunsToEnd(s);
    if Throws(s) {
      LateCutsOffNone(s);
      AlwaysKept(s, Scheduled(s.body));
      AfterReturnLeaves(s, 0);
    } else {
      SilentIsLate(s);
    }
  }

  lemma RunsToEnd(s: Section)
    requires DistinctIds(s.body) && Steady(s)
    ensures RunsOn(s)
  {
    RunsThrough(s);
    hide Scheduled, StopsAt, LeadsToLeaf;
  }

  lemma SteadyThrows(s: Section, p: Path)
    requires Steady(s)
    ensures !Early(s, p) && (Late(s, p) <==> Throws(s))
  {
    if Throws(s) { assert s.throws(|s.body|, p); }
  }

  // ---------- What comes after the first visit that returns ----------

  /** How many visits there are up to the first that no inner exception ended. */
  function UpToReturn(vs: seq<Visit>): (n: nat)
    ensures n <= |vs|
  {
    if vs == [] then 0 else if vs[0].thrown then 1 + UpToReturn(vs[1..]) else 1
  }

  lemma {:induction false} AlwaysKept(s: Section, vs: seq<Visit>)
    requires Steady(s) && Throws(s)
    ensures Kept(s, vs) == UpToReturn(vs)
    decreases |vs|
  {
    if vs != [] {
      SteadyThrows(s, vs[0].path);
      AlwaysKept(s, vs[1..]);
    }
  }

  lemma {:induction false} UpToReturnAppend(a: seq<Visit>, b: seq<Visit>)
    ensures UpToReturn(a + b) == if AllThrown(a) then |a| + UpToReturn(b) else UpToReturn(a)
    decreases |a|
  {
    if a == [] {
      assert a + b == b;
    } else {
      assert (a + b)[1..] == a[1..] + b;
      UpToReturnAppend(a[1..], b);
      assert AllThrown(a) <==> a[0].thrown && AllThrown(a[1..]) by { assert a == [a[0]] + a[1..]; }
    }
  }

  predicate AllThrown(vs: seq<Visit>) {
    forall v | v in vs :: v.thrown
  }

  lemma {:induction false} UpToReturnUnder(l: NameAndLocation, vs: seq<Visit>)
    ensures UpToReturn(Under(l, vs)) == UpToReturn(vs) && (AllThrown(Under(l, vs)) <==> AllThrown(vs))
    decreases |vs|
  {
    if vs != [] {
      assert Under(l, vs)[1..] == Under(l, vs[1..]);
      UpToReturnUnder(l, vs[1..]);
      assert vs == [vs[0]] + vs[1..] && Under(l, vs) == [Under(l, vs)[0]] + Under(l, vs[1..]);
    }
  }

  lemma {:induction false} CutThrows(s: Section, vs: seq<Visit>)
    requires Steady(s) && Throws(s)
    ensures AllThrown(Cut(s, vs))
    decreases |vs|
  {
    if vs != [] {
      SteadyThrows(s, vs[0].path);
      if vs[0].thrown { CutThrows(s, vs[1..]); }
    }
  }

  /** What is due in a section includes a visit that no inner exception ends. */
  lemma ScheduleReturns(s: Section)
    ensures !AllThrown(Scheduled(s.body))
  {
    var due := Scheduled(s.body);
    if EnteredAlone(s.body) {
      assert Alone(s.body) == [Visit([], false)];
      assert due[|due| - 1] == Visit([], false);
    } else {
      var k := s.body[|s.body| - 1];
      VisitsNonempty(k);
      var v := Visits(k)[|Visits(k)| - 1];
      VisitsInclude(s.body, 0, |s.body| - 1, v);
      assert !Fails(k) && v in due;
    }
  }

  /** A section that does not throw is left normally at last; one that does, never. */
  lemma ThrownVisits(s: Section)
    requires Steady(s)
    ensures AllThrown(Visits(s)) <==> Throws(s)
  {
    var due := Scheduled(s.body);
    if Throws(s) {
      CutThrows(s, due);
    } else {
      NeverCut(s, due);
      ScheduleReturns(s);
    }
    UpToReturnUnder(s.id, Cut(s, due));
  }

  lemma {:induction false} VisitsInclude(body: seq<Section>, i: nat, j: nat, v: Visit)
    requires i <= j < |body| && v in Visits(body[j])
    ensures v in VisitsFrom(body, i)
    decreases j - i
  {
    if i < j { VisitsInclude(body, i + 1, j, v); }
  }

  /** The first visit to a section leads to a leaf. */
  lemma {:induction false} FirstVisitToLeaf(s: Section)
    requires Steady(s)
    ensures Visits(s) != [] && LeadsToLeaf(s, Visits(s)[0].path)
    ensures Scheduled(s.body) != [] && LeadsToLeaf(s, [s.id] + Scheduled(s.body)[0].path)
    decreases s
  {
    if s.body != [] {
      var k := s.body[0];
      FirstVisitToLeaf(k);
      var p := VisitsFrom(s.body, 0)[0].path;
      SteadyThrows(s, p);
      assert p == Visits(k)[0].path;
      assert ([s.id] + p)[1..] == p;
    } else {
      LeafSchedule(s);
      assert [s.id] + [] == [s.id];
    }
  }

  lemma AnyAppend(s: Section, a: seq<Path>, b: seq<Path>)
    ensures AnyToLeaf(s, a + b) <==> AnyToLeaf(s, a) || AnyToLeaf(s, b)
  {
    if i :| 0 <= i < |a| && LeadsToLeaf(s, [s.id] + a[i]) { assert (a + b)[i] == a[i]; }
    if i :| 0 <= i < |b| && LeadsToLeaf(s, [s.id] + b[i]) { assert (a + b)[|a| + i] == b[i]; }
  }

  lemma AnyUnder(s: Section, k: Section, ps: seq<Path>)
    requires WellNamed(s) && k in s.body
    ensures AnyToLeaf(s, PutUnder(k.id, ps)) <==> AnyToLeaf(k, ps)
  {
    forall i | 0 <= i < |ps| ensures LeadsToLeaf(s, [s.id] + PutUnder(k.id, ps)[i]) == LeadsToLeaf(k, [k.id] + ps[i]) {
      LeafBelowKid(s, k, [k.id] + ps[i]);
    }
  }

  function AfterReturn(body: seq<Section>, i: nat): seq<Path>
    requires i <= |body|
  {
    Paths(ScheduledFrom(body, i))[UpToReturn(ScheduledFrom(body, i))..]
  }

  /** That includes a visit to a leaf unless the subsections are tight. */
  lemma {:induction false} AfterReturnLeaves(s: Section, i: nat)
    requires WellNamed(s) && (forall k | k in s.body :: Steady(k)) && i <= |s.body|
    ensures AnyToLeaf(s, AfterReturn(s.body, i)) <==> !Tight(s.body, i)
    decreases s, |s.body| - i
  {
    if i < |s.body| {
      var k := s.body[i];
      var a, b := Visits(k), ScheduledFrom(s.body, i + 1);
      assert ScheduledFrom(s.body, i) == a + b;
      UpToReturnAppend(a, b);
      PathsAppend(a, b);
      ThrownVisits(k);
      if Throws(k) {
        AfterReturnLeaves(s, i + 1);
        assert AfterReturn(s.body, i) == AfterReturn(s.body, i + 1);
      } else {
        ReturnInside(s, k, i);
      }
    }
  }

  lemma AfterReturnOfFirst(k: Section)
    requires Steady(k) && !Throws(k)
    ensures |Visits(k)| == |Scheduled(k.body)| && UpToReturn(Visits(k)) == UpToReturn(Scheduled(k.body))
    ensures Paths(Visits(k))[UpToReturn(Visits(k))..] == PutUnder(k.id, AfterReturn(k.body, 0))
  {
    var due := Scheduled(k.body);
    NeverCut(k, due);
    UpToReturnUnder(k.id, due);
    PathsUnder(k.id, due);
    PutUnderDrop(k.id, Paths(due), UpToReturn(due));
  }

  lemma PutUnderDrop(l: NameAndLocation, ps: seq<Path>, n: nat)
    requires n <= |ps|
    ensures PutUnder(l, ps)[n..] == PutUnder(l, ps[n..])
  {
  }

  lemma {:induction false} ReturnInside(s: Section, k: Section, i: nat)
    requires WellNamed(s) && i < |s.body| && k == s.body[i] && !Throws(k) && forall k | k in s.body :: Steady(k)
    requires Paths(ScheduledFrom(s.body, i)) == Paths(Visits(k)) + Paths(ScheduledFrom(s.body, i + 1))
    requires UpToReturn(ScheduledFrom(s.body, i)) == UpToReturn(Visits(k))
    ensures AnyToLeaf(s, AfterReturn(s.body, i)) <==> !Tight(s.body, i)
    decreases s, 0
  {
    hide UpToReturn, Visits, Scheduled, VisitsFrom, LeadsToLeaf;
    var inner, later := AfterReturn(k.body, 0), Paths(ScheduledFrom(s.body, i + 1));
    AfterReturnOfFirst(k);
    assert AfterReturn(s.body, i) == PutUnder(k.id, inner) + later;
    AnyAppend(s, PutUnder(k.id, inner), later);
    AnyUnder(s, k, inner);
    AfterReturnLeaves(k, 0);
    LaterLeaves(s, i + 1);
  }

  lemma LaterLeaves(s: Section, i: nat)
    requires WellNamed(s) && 0 < i <= |s.body| && forall k | k in s.body :: Steady(k)
    ensures AnyToLeaf(s, Paths(ScheduledFrom(s.body, i))) <==> i < |s.body|
  {
    var later := Paths(ScheduledFrom(s.body, i));
    if i < |s.body| {
      var k := s.body[i];
      FirstVisitToLeaf(k);
      assert later[0] == Visits(k)[0].path;
      LeafBelowKid(s, k, later[0]);
    } else {
      forall m | 0 <= m < |later| ensures !LeadsToLeaf(s, [s.id] + later[m]) {}
    }
  }

  // ---------- An example ----------

  /** A section that throws after two plain leaves never gets to the second. */
  lemma ThrowingParentLosesLeaf(testCase: NameAndLocation, parent: NameAndLocation, a: Section, b: Section)
    requires a.body == [] && b.body == [] && !a.throws(0, []) && a.id != b.id
    ensures var s := Section(parent, [a, b], (i, p) => i == 2);
            Cycles(Section(testCase, [s], (i, p) => false)) == [[testCase, parent, a.id], [testCase]]
  {
    var s := Section(parent, [a, b], (i, p) => i == 2);
    LeafSchedule(a);
    assert VisitsFrom(s.body, 0) == Visits(a) + VisitsFrom(s.body, 1);
    assert s.throws(2, [a.id]) && Position(s.body, [a.id]) == 0;
    assert Cut(s, Scheduled(s.body)) == [Visit([a.id], true)];
    assert Under(parent, [Visit([a.id], true)])[0] == Visit([parent, a.id], true);
    assert Visits(s) == [Visit([parent, a.id], true)];
    var tc := Section(testCase, [s], (i, p) => false);
    assert VisitsFrom(tc.body, 0) == Visits(s) + VisitsFrom(tc.body, 1) == Visits(s);
    var due := [Visit([parent, a.id], true), Visit([], false)];
    assert Fails(tc.body[0]) && Alone(tc.body) == [Visit([], false)];
    assert Scheduled(tc.body) == due;
    RunsThrough(tc);
    assert [testCase] + due[0].path == [testCase, parent, a.id] && [testCase] + due[1].path == [testCase];
    assert Cycles(tc)[0] == [testCase, parent, a.id] && Cycles(tc)[1] == [testCase];
  }

  /** A test case that throws before anything else makes one cycle and enters no section. */
  lemma ThrowingFirstEndsRun(testCase: Section)
    requires testCase.throws(0, [])
    ensures Cycles(testCase) == [[testCase.id]]
  {
    if testCase.body == [] {
      LeafSchedule(testCase);
    } else {
      VisitsNonempty(testCase.body[0]);
      var due := Scheduled(testCase.body);
      assert VisitsFrom(testCase.body, 0) == Visits(testCase.body[0]) + VisitsFrom(testCase.body, 1);
      assert due[0] == Visits(testCase.body[0])[0];
      assert Position(testCase.body, due[0].path) == 0;
      assert Early(testCase, due[0].path);
    }
  }

  /** A test case that throws between two plain leaves ends with the first: the second was never got to. */
  lemma ThrowingCaseEndsRun(testCase: NameAndLocation, a: Section, b: Section)
    requires a.body == [] && b.body == [] && !a.throws(0, []) && a.id != b.id
    ensures Cycles(Section(testCase, [a, b], (i, p) => i == 1 && p == [a.id])) == [[testCase, a.id]]
  {
    var tc := Section(testCase, [a, b], (i, p) => i == 1 && p == [a.id]);
    LeafSchedule(a);
    LeafSchedule(b);
    assert VisitsFrom(tc.body, 0) == Visits(a) + VisitsFrom(tc.body, 1);
    assert VisitsFrom(tc.body, 1) == Visits(b) + VisitsFrom(tc.body, 2);
    var due := Scheduled(tc.body);
    assert due[0] == Visit([a.id], false) && due[1].path == [b.id];
    PositionAt(tc.body, 0, [a.id]);
    PositionAt(tc.body, 1, [b.id]);
    assert FirstThrow(tc, [a.id], 1) == 1;
    assert EndsRun(tc, due, 0);
    assert [testCase] + [a.id] == [testCase, a.id];
  }
}
