/**
 * Sections that end by an exception of their own: which of them make a run miss leaves, and that every
 * leaf is entered exactly once in all other runs.
 */
module SectionLosses {
  import opened SectionTree
  import opened SectionVisits

  /**
   * The section throws by itself neither before a leaf below it that is due, nor in a cycle that has
   * such a leaf still to come.
   */
  ghost predicate ThrowsLate(s: Section) {
    var due := Scheduled(s.body);
    forall i, j | 0 <= i <= j < |due| && LeadsToLeaf(s, [s.id] + due[j].path) ::
      !Early(s, due[i].path) && (i == j || due[i].thrown || !Late(s, due[i].path))
  }

  /** The test case does not throw before a leaf that is due, and does not stop with one still to come. */
  ghost predicate RunsOn(testCase: Section) {
    var due := Scheduled(testCase.body);
    forall i, j | 0 <= i <= j < |due| && LeadsToLeaf(testCase, [testCase.id] + due[j].path) ::
      !Early(testCase, due[i].path) && (i == j || !StopsAt(testCase, i))
  }

  /** No section below s throws too early. */
  ghost predicate LosesNothing(s: Section) {
    forall k | k in s.body :: ThrowsLate(k) && LosesNothing(k)
  }

  lemma {:induction false} LeafFailuresLoseNothing(s: Section)
    requires WellNamed(s) && OnlyLeavesThrow(s)
    ensures ThrowsLate(s) && RunsOn(s) && LosesNothing(s)
    decreases s
  {
    hide ThrowsLate, RunsOn, StopsAt, Early, Late;
    forall k | k in s.body ensures ThrowsLate(k) && LosesNothing(k) { LeafFailuresLoseNothing(k); }
    if s.body == [] { LeafIsLate(s); } else { SilentIsLate(s); }
  }

  lemma LeafIsLate(s: Section)
    requires s.body == []
    ensures ThrowsLate(s) && RunsOn(s)
  {
    LeafSchedule(s);
    assert !Early(s, []);
  }

  lemma SilentIsLate(s: Section)
    requires WellNamed(s) && NeverThrows(s)
    ensures ThrowsLate(s) && RunsOn(s)
  {
    RunsThrough(s);
    hide Scheduled, StopsAt, LeadsToLeaf;
  }

  // ---------- What an exception cuts off ----------

  /** Up to the last visit kept the section does not throw by itself; with that one or before the next it does. */
  lemma {:induction false} KeptUpToThrow(s: Section, vs: seq<Visit>)
    ensures var n := Kept(s, vs);
            && (forall i | 0 <= i < n :: !Early(s, vs[i].path))
            && (forall i | 0 <= i < n - 1 :: vs[i].thrown || !Late(s, vs[i].path))
            && (n < |vs| ==>
                  Early(s, vs[n].path) || (0 < n && !vs[n - 1].thrown && Late(s, vs[n - 1].path)))
    decreases |vs|
  {
    hide Early, Late;
    if vs != [] && !Early(s, vs[0].path) && (vs[0].thrown || !Late(s, vs[0].path)) {
      KeptUpToThrow(s, vs[1..]);
    }
  }

  ghost predicate AnyToLeaf(s: Section, ps: seq<Path>) {
    exists i | 0 <= i < |ps| :: LeadsToLeaf(s, [s.id] + ps[i])
  }

  /** The visits that are due in s but cut off by its own exception. */
  function CutOff(s: Section): seq<Path> {
    Paths(Scheduled(s.body))[Kept(s, Scheduled(s.body))..]
  }

  /** The visits that are due in the test case but do not happen because the run is over. */
  function NotRun(testCase: Section): seq<Path> {
    Paths(Scheduled(testCase.body))[CasesKept(testCase, Scheduled(testCase.body), 0)..]
  }

  lemma LeafAfter(s: Section, vs: seq<Visit>, n: nat)
    requires n <= |vs|
    ensures AnyToLeaf(s, Paths(vs)[n..]) <==> exists j | n <= j < |vs| :: LeadsToLeaf(s, [s.id] + vs[j].path)
  {
    hide LeadsToLeaf;
    var off := Paths(vs)[n..];
    forall m | 0 <= m < |off| ensures off[m] == vs[n + m].path {}
    if j :| n <= j < |vs| && LeadsToLeaf(s, [s.id] + vs[j].path) { assert off[j - n] == vs[j].path; }
  }

  /** A leaf is cut off exactly when the section throws too early. */
  lemma LateCutsOffNone(s: Section)
    ensures AnyToLeaf(s, CutOff(s)) <==> !ThrowsLate(s)
  {
    hide Scheduled, Kept, LeadsToLeaf, Early, Late, AnyToLeaf;
    var due, n := Scheduled(s.body), Kept(s, Scheduled(s.body));
    KeptUpToThrow(s, due);
    LeafAfter(s, due, n);
    if j :| n <= j < |due| && LeadsToLeaf(s, [s.id] + due[j].path) {
      var i := if Early(s, due[n].path) then n else n - 1;
      assert Early(s, due[i].path) || !(i == j || due[i].thrown || !Late(s, due[i].path));
    }
  }

  /** A leaf is not run exactly when the test case throws, or stops, too early. */
  lemma RunsOnMissesNone(testCase: Section)
    ensures AnyToLeaf(testCase, NotRun(testCase)) <==> !RunsOn(testCase)
  {
    hide Scheduled, CasesKept, LeadsToLeaf, Early, StopsAt, AnyToLeaf;
    var due, n := Scheduled(testCase.body), CasesKept(testCase, Scheduled(testCase.body), 0);
    assert due[0..] == due && NotedBefore(testCase, due, 0) == 0;
    CasesKeptUpToStop(testCase, 0);
    LeafAfter(testCase, due, n);
    if j :| n <= j < |due| && LeadsToLeaf(testCase, [testCase.id] + due[j].path) {
      var i := if Early(testCase, due[n].path) then n else n - 1;
      assert Early(testCase, due[i].path) || !(i == j || !StopsAt(testCase, i));
    }
  }

  // ---------- Nothing is lost: every leaf in document order ----------

  lemma {:induction false} ToLeavesAppend(s: Section, a: seq<Path>, b: seq<Path>)
    ensures ToLeaves(s, a + b) == ToLeaves(s, a) + ToLeaves(s, b)
    decreases |a|
  {
    if a == [] {
      assert a + b == b;
    } else {
      ToLeavesAppend(s, a[1..], b);
      assert (a + b)[1..] == a[1..] + b;
    }
  }

  lemma {:induction false} ToLeavesBelowKid(s: Section, k: Section, ps: seq<Path>)
    requires WellNamed(s) && k in s.body && forall m | 0 <= m < |ps| :: ps[m] != [] && ps[m][0] == k.id
    ensures ToLeaves(s, PutUnder(s.id, ps)) == PutUnder(s.id, ToLeaves(k, ps))
    decreases |ps|
  {
    if ps != [] {
      LeafBelowKid(s, k, ps[0]);
      ToLeavesBelowKid(s, k, ps[1..]);
      assert PutUnder(s.id, ps)[1..] == PutUnder(s.id, ps[1..]);
    }
  }

  lemma {:induction false} NoneToLeaf(s: Section, ps: seq<Path>)
    requires !AnyToLeaf(s, ps)
    ensures ToLeaves(s, PutUnder(s.id, ps)) == []
    decreases |ps|
  {
    if ps != [] {
      assert PutUnder(s.id, ps)[1..] == PutUnder(s.id, ps[1..]);
      assert !LeadsToLeaf(s, [s.id] + ps[0]);
      forall i | 0 <= i < |ps[1..]| ensures !LeadsToLeaf(s, [s.id] + ps[1..][i]) { assert ps[1..][i] == ps[i + 1]; }
      NoneToLeaf(s, ps[1..]);
    }
  }

  lemma {:induction false} LeavesInOrder(s: Section)
    requires WellNamed(s) && LosesNothing(s)
    ensures ToLeaves(s, PutUnder(s.id, Paths(Scheduled(s.body)))) == LeafPaths(s)
    ensures ThrowsLate(s) ==> ToLeaves(s, Paths(Visits(s))) == LeafPaths(s)
    ensures RunsOn(s) ==> ToLeaves(s, Cycles(s)) == LeafPaths(s)
    decreases s
  {
    hide ThrowsLate, RunsOn, Visits, Cycles, LosesNothing, LeadsToLeaf, ToLeaves;
    var due := Scheduled(s.body);
    PathsAppend(VisitsFrom(s.body, 0), Alone(s.body));
    if s.body == [] {
      LeafInOrder(s);
    } else {
      var kids := Paths(VisitsFrom(s.body, 0));
      KidsInOrder(s, 0);
      PutUnderAppend(s.id, kids, Paths(Alone(s.body)));
      ToLeavesAppend(s, PutUnder(s.id, kids), PutUnder(s.id, Paths(Alone(s.body))));
      AloneIsNoLeaf(s);
    }
    LeavesKept(s);
  }

  lemma LeafInOrder(s: Section)
    requires s.body == []
    ensures ToLeaves(s, PutUnder(s.id, Paths(Scheduled(s.body)))) == LeafPaths(s)
  {
    LeafSchedule(s);
    var ps := PutUnder(s.id, Paths(Scheduled(s.body)));
    assert ps[0] == [s.id] && LeafPaths(s)[0] == [s.id];
    assert ps == [[s.id]] == LeafPaths(s);
  }

  lemma LeavesKept(s: Section)
    ensures ThrowsLate(s) ==>
              ToLeaves(s, Paths(Visits(s))) == ToLeaves(s, PutUnder(s.id, Paths(Scheduled(s.body))))
    ensures RunsOn(s) ==> ToLeaves(s, Cycles(s)) == ToLeaves(s, PutUnder(s.id, Paths(Scheduled(s.body))))
  {
    var due := Scheduled(s.body);
    CutKeeps(s, due);
    PathsUnder(s.id, Cut(s, due));
    LateCutsOffNone(s);
    if ThrowsLate(s) { KeptLeaves(s, Paths(Cut(s, due)), Paths(due), Kept(s, due)); }
    var ps := CyclesKept(s, due, 0);
    RunsOnMissesNone(s);
    if RunsOn(s) { KeptLeaves(s, ps, Paths(due), CasesKept(s, due, 0)); }
  }

  /** Cutting off no leaf leaves them all. */
  lemma KeptLeaves(s: Section, ps: seq<Path>, all: seq<Path>, n: nat)
    requires KeepsFirst(s, ps, all, n) && !AnyToLeaf(s, all[n..])
    ensures ToLeaves(s, PutUnder(s.id, ps)) == ToLeaves(s, PutUnder(s.id, all))
  {
    var kept, off := all[..n], all[n..];
    NoneToLeaf(s, off);
    assert all == kept + off;
    PutUnderAppend(s.id, kept, off);
    ToLeavesAppend(s, PutUnder(s.id, kept), PutUnder(s.id, off));
    if ps != kept {
      PutUnderAppend(s.id, kept, [[]]);
      ToLeavesAppend(s, PutUnder(s.id, kept), PutUnder(s.id, [[]]));
      assert s.body != [] && !LeadsToLeaf(s, [s.id] + []);
      assert PutUnder(s.id, [[]]) == [[s.id] + []];
    }
  }

  lemma AloneIsNoLeaf(s: Section)
    requires s.body != []
    ensures ToLeaves(s, PutUnder(s.id, Paths(Alone(s.body)))) == []
  {
    assert !LeadsToLeaf(s, [s.id] + []);
  }

  lemma {:induction false} KidsInOrder(s: Section, i: nat)
    requires WellNamed(s) && LosesNothing(s) && i <= |s.body|
    ensures ToLeaves(s, PutUnder(s.id, Paths(VisitsFrom(s.body, i)))) == PutUnder(s.id, LeafPathsFrom(s.body, i))
    decreases s.body, |s.body| - i
  {
    if i < |s.body| {
      var k := s.body[i];
      var a, b := Paths(Visits(k)), Paths(VisitsFrom(s.body, i + 1));
      LeavesInOrder(k);
      KidsInOrder(s, i + 1);
      PathsAppend(Visits(k), VisitsFrom(s.body, i + 1));
      PutUnderAppend(s.id, a, b);
      PutUnderAppend(s.id, LeafPaths(k), LeafPathsFrom(s.body, i + 1));
      ToLeavesAppend(s, PutUnder(s.id, a), PutUnder(s.id, b));
      ToLeavesBelowKid(s, k, a);
    }
  }

  lemma {:induction false} LeafIsListed(s: Section, path: Path)
    requires LeadsToLeaf(s, path)
    ensures path in LeafPaths(s)
    decreases s
  {
    if |path| == 1 {
      assert LeafPaths(s)[0] == path;
    } else {
      var j :| 0 <= j < |s.body| && LeadsToLeaf(s.body[j], path[1..]);
      LeafIsListed(s.body[j], path[1..]);
      ListedFrom(s.body, 0, j, path[1..]);
      var m :| 0 <= m < |LeafPathsFrom(s.body, 0)| && LeafPathsFrom(s.body, 0)[m] == path[1..];
      assert LeafPaths(s)[m] == [s.id] + path[1..] == path;
    }
  }

  lemma {:induction false} ListedFrom(body: seq<Section>, i: nat, j: nat, path: Path)
    requires i <= j < |body| && path in LeafPaths(body[j])
    ensures path in LeafPathsFrom(body, i)
    decreases j - i
  {
    if i < j { ListedFrom(body, i + 1, j, path); }
  }

  lemma ToLeavesAmong(s: Section, ps: seq<Path>)
    ensures forall p | p in ToLeaves(s, ps) :: p in ps
  {
  }

  // ---------- Something is lost: a leaf that is never entered ----------

  function ScheduledFrom(body: seq<Section>, i: nat): seq<Visit>
    requires i <= |body|
  {
    VisitsFrom(body, i) + Alone(body)
  }

  /** A path under subsection j occurs among the visits only as one of that subsection's. */
  lemma {:induction false} VisitOfKid(s: Section, i: nat, j: nat, p: Path)
    requires WellNamed(s) && i <= |s.body| && j < |s.body|
    requires p != [] && p[0] == s.body[j].id && p in Paths(ScheduledFrom(s.body, i))
    ensures p in Paths(Visits(s.body[j]))
    decreases |s.body| - i
  {
    if i < |s.body| {
      var k := s.body[i];
      PathsAppend(Visits(k), ScheduledFrom(s.body, i + 1));
      assert ScheduledFrom(s.body, i) == Visits(k) + ScheduledFrom(s.body, i + 1);
      if p in Paths(Visits(k)) {
        StartsWithOwnId(k, p);
        assert i == j;
      } else {
        VisitOfKid(s, i + 1, j, p);
      }
    }
  }

  lemma StartsWithOwnId(k: Section, p: Path)
    requires p in Paths(Visits(k))
    ensures p != [] && p[0] == k.id
  {
  }

  /** What is made of the paths due in s, put under s, is among them, or it enters nothing in s. */
  lemma InAll(s: Section, ps: seq<Path>, all: seq<Path>, n: nat, p: Path)
    requires KeepsFirst(s, ps, all, n) && p != [] && [s.id] + p in PutUnder(s.id, ps)
    ensures exists m | 0 <= m < n :: all[m] == p
  {
    var m :| 0 <= m < |ps| && PutUnder(s.id, ps)[m] == [s.id] + p;
    assert ([s.id] + ps[m])[1..] == ps[m] && ([s.id] + p)[1..] == p;
    assert m < n && all[m] == p;
  }

  /** What the section, and what the test case, makes of a path: nothing, if it is not among those due. */
  lemma NotDue(s: Section, p: Path)
    requires p != [] && p !in Paths(Scheduled(s.body))
    ensures [s.id] + p !in Paths(Visits(s)) && [s.id] + p !in Cycles(s)
  {
    var due := Scheduled(s.body);
    CutKeeps(s, due);
    PathsUnder(s.id, Cut(s, due));
    if [s.id] + p in Paths(Visits(s)) { InAll(s, Paths(Cut(s, due)), Paths(due), Kept(s, due), p); }
    var ps := CyclesKept(s, due, 0);
    if [s.id] + p in Cycles(s) { InAll(s, ps, Paths(due), CasesKept(s, due, 0), p); }
  }

  /** A leaf cut off is not among the visits kept: it would be visited twice. */
  lemma CutOffIsLost(s: Section, ps: seq<Path>, n: nat) returns (p: Path)
    requires WellNamed(s) && KeepsFirst(s, ps, Paths(Scheduled(s.body)), n)
    requires AnyToLeaf(s, Paths(Scheduled(s.body))[n..])
    ensures LeadsToLeaf(s, [s.id] + p) && [s.id] + p !in PutUnder(s.id, ps)
  {
    var all := Paths(Scheduled(s.body));
    var i :| 0 <= i < |all[n..]| && LeadsToLeaf(s, [s.id] + all[n..][i]);
    p := all[n + i];
    DueOnce(s);
    if p != [] {
      if [s.id] + p in PutUnder(s.id, ps) { InAll(s, ps, all, n, p); }
    } else {
      LeafIsKept(s, ps, n);
    }
  }

  /** A section without subsections is always entered when it is due. */
  lemma LeafIsKept(s: Section, ps: seq<Path>, n: nat)
    requires KeepsFirst(s, ps, Paths(Scheduled(s.body)), n) && n < |Scheduled(s.body)| && LeadsToLeaf(s, [s.id] + [])
    ensures [s.id] + [] !in PutUnder(s.id, ps)
  {
    LeafSchedule(s);
    assert ps == [];
  }

  lemma SectionLosesLeaf(s: Section) returns (p: Path)
    requires WellNamed(s) && !ThrowsLate(s)
    ensures LeadsToLeaf(s, [s.id] + p) && [s.id] + p !in Paths(Visits(s))
  {
    var due := Scheduled(s.body);
    LateCutsOffNone(s);
    CutKeeps(s, due);
    PathsUnder(s.id, Cut(s, due));
    p := CutOffIsLost(s, Paths(Cut(s, due)), Kept(s, due));
  }

  lemma CaseLosesLeaf(testCase: Section) returns (p: Path)
    requires WellNamed(testCase) && !RunsOn(testCase)
    ensures LeadsToLeaf(testCase, [testCase.id] + p) && [testCase.id] + p !in Cycles(testCase)
  {
    var due := Scheduled(testCase.body);
    RunsOnMissesNone(testCase);
    var ps := CyclesKept(testCase, due, 0);
    p := CutOffIsLost(testCase, ps, CasesKept(testCase, due, 0));
  }

  lemma {:induction false} LostLeaf(s: Section) returns (p: Path)
    requires WellNamed(s) && !LosesNothing(s)
    ensures LeadsToLeaf(s, p) && p !in Paths(Visits(s)) && p !in Cycles(s)
    decreases s
  {
    var j :| 0 <= j < |s.body| && !(ThrowsLate(s.body[j]) && LosesNothing(s.body[j]));
    var k := s.body[j];
    var q;
    if ThrowsLate(k) {
      q := LostLeaf(k);
    } else {
      var q' := SectionLosesLeaf(k);
      q := [k.id] + q';
    }
    p := [s.id] + q;
    LeafBelowKid(s, k, q);
    if q in Paths(Scheduled(s.body)) { VisitOfKid(s, 0, j, q); }
    NotDue(s, q);
  }

  // ---------- The law ----------

  lemma ExactlyOnce(ps: seq<Path>, p: Path)
    requires Distinct(ps) && p in ps
    ensures multiset(ps)[p] == 1
  {
    var i :| 0 <= i < |ps| && ps[i] == p;
    assert ps == ps[..i] + [p] + ps[i + 1..];
    assert p !in ps[..i] && p !in ps[i + 1..];
  }

  /**
   * Every leaf is entered, exactly once and in document order, just when no section throws by itself before
   * a leaf below it that is due or while one is still to come, and the run does not stop too early. In
   * particular this is so if only leaves throw.
   */
  lemma EveryLeafOnce(testCase: Section)
    requires WellNamed(testCase)
    ensures RunsOn(testCase) && LosesNothing(testCase) ==>
              && ToLeaves(testCase, Cycles(testCase)) == LeafPaths(testCase)
              && forall p | LeadsToLeaf(testCase, p) :: multiset(Cycles(testCase))[p] == 1
    ensures (forall p | LeadsToLeaf(testCase, p) :: p in Cycles(testCase))
            <==> RunsOn(testCase) && LosesNothing(testCase)
    ensures OnlyLeavesThrow(testCase) ==> RunsOn(testCase) && LosesNothing(testCase)
  {
    if OnlyLeavesThrow(testCase) { LeafFailuresLoseNothing(testCase); }
    if !RunsOn(testCase) {
      var p := CaseLosesLeaf(testCase);
    } else if !LosesNothing(testCase) {
      var p := LostLeaf(testCase);
    } else {
      LeavesInOrder(testCase);
      VisitsOnce(testCase);
      forall p | LeadsToLeaf(testCase, p) ensures multiset(Cycles(testCase))[p] == 1 {
        LeafIsListed(testCase, p);
        ToLeavesAmong(testCase, Cycles(testCase));
        ExactlyOnce(Cycles(testCase), p);
      }
    }
  }
}
