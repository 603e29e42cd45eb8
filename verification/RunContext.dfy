/** The runner that drives a test case's body cycle after cycle. */
module RunContexts {
  import opened SectionTree
  import opened TrackerSpec
  import opened Trackers
  import opened TrackerProof
  import Spec = TrackerSpec

  // ---------- An internal error is never forgotten ----------

  lemma {:induction false} CloseStaysIllogical(b: Board, p: Path)
    requires p != [] && p <= b.current && b.illogical
    ensures Close(b, p).illogical
  {
  }

  lemma EndStaysIllogical(r: Runner)
    requires r.board.illogical
    ensures SectionEnded(r).board.illogical && SectionEndedEarly(r).board.illogical
  {
    if CanEnd(r) { CloseStaysIllogical(r.board, r.active[|r.active| - 1]); }
  }

  ghost function Ending(r: Runner, thrown: bool): Runner {
    if thrown then Spec.SectionEndedEarly(r) else Spec.SectionEnded(r)
  }

  ghost function Included(r: Runner, s: Section): (Runner, bool) {
    var (r', thrown) := Spec.RunBody(r, s, 0, |r.entered|);
    (Ending(r', thrown), thrown)
  }

  lemma EndingIllogical(r: Runner)
    ensures r.board.illogical ==> Ending(r, false).board.illogical && Ending(r, true).board.illogical
  {
    if r.board.illogical { EndStaysIllogical(r); }
  }

  lemma {:induction false} SectionStaysIllogical(r: Runner, s: Section)
    requires r.board.illogical
    ensures RunSection(r, s).0.board.illogical
    decreases s, |s.body| + 1
  {
    var (r1, included) := Spec.SectionStarted(r, s.id);
    if included {
      BodyStaysIllogical(r1, s, 0, |r1.entered|);
      EndStaysIllogical(RunBody(r1, s, 0, |r1.entered|).0);
    }
  }

  lemma {:induction false} BodyStaysIllogical(r: Runner, s: Section, i: nat, depth: nat)
    requires r.board.illogical && i <= |s.body|
    ensures RunBody(r, s, i, depth).0.board.illogical
    decreases s, |s.body| - i
  {
    if i < |s.body| {
      SectionStaysIllogical(r, s.body[i]);
      BodyStaysIllogical(RunSection(r, s.body[i]).0, s, i + 1, depth);
    }
  }

  lemma {:induction false} BodyStep(r: Runner, s: Section, i: nat, depth: nat)
    requires i < |s.body| && !RunBody(r, s, i, depth).0.board.illogical
    ensures if s.throws(i, Since(r.entered, depth)) then RunBody(r, s, i, depth) == (r, true)
            else
              var (r', thrown) := RunSection(r, s.body[i]);
              && !r'.board.illogical
              && RunBody(r, s, i, depth) == if thrown then (r', true) else RunBody(r', s, i + 1, depth)
  {
    var (r', thrown) := RunSection(r, s.body[i]);
    if r'.board.illogical && !thrown { BodyStaysIllogical(r', s, i + 1, depth); }
  }

  lemma BodyEnds(r: Runner, s: Section, depth: nat)
    ensures RunBody(r, s, |s.body|, depth) == (r, s.throws(|s.body|, Since(r.entered, depth)))
  {
  }

  ghost function PathsOf(ts: seq<Tracker>): seq<Path> {
    seq(|ts|, i requires 0 <= i < |ts| => ts[i].path)
  }

  class RunContext {
    const trackerContext: TrackerContext
    var testCaseTracker: Tracker?
    var activeSections: seq<Tracker>
    var unfinishedSections: seq<NameAndLocation>
    var entered: Path  // the sections reported as starting in this cycle

    constructor ()
      ensures fresh(trackerContext)
    {
      trackerContext := new TrackerContext();
      testCaseTracker, activeSections, unfinishedSections, entered := null, [], [], [];
    }

    ghost predicate Started()
      reads this, trackerContext, trackerContext.repr
    {
      && trackerContext.Started() && (testCaseTracker != null ==> trackerContext.Knows(testCaseTracker))
      && forall t | t in activeSections :: trackerContext.Knows(t)
    }

    ghost predicate Valid()
      reads this, trackerContext, trackerContext.repr
    {
      Started() && trackerContext.Valid()
    }

    ghost function State(): Runner
      reads this, trackerContext
    {
      Runner(trackerContext.Board(), PathsOf(activeSections), |unfinishedSections|, entered)
    }

    method SectionStarted(id: NameAndLocation) returns (included: bool)
      requires Valid()
      modifies `activeSections, `unfinishedSections, `entered, trackerContext, trackerContext.repr
      ensures Valid() && fresh(trackerContext.repr - old(trackerContext.repr))
      ensures (State(), included) == Spec.SectionStarted(old(State()), id)
    {
      var tracker := trackerContext.Acquire(id);
      trackerContext.Look(tracker.path);
      if !tracker.IsOpen() {
        return false;
      }
      assert PathsOf(activeSections + [tracker]) == PathsOf(activeSections) + [tracker.path];
      activeSections := activeSections + [tracker];
      entered := entered + [id];
      return true;
    }

    method SectionEnded(id: NameAndLocation)
      requires Valid() && !Spec.SectionEnded(State()).board.illogical
      modifies `activeSections, `unfinishedSections, trackerContext`currentTracker, trackerContext`runState
      modifies trackerContext`nodes, trackerContext.repr`runState
      ensures Valid()
      ensures State() == Spec.SectionEnded(old(State()))
    {
      if activeSections != [] {
        var last := |activeSections| - 1;
        activeSections[last].Close(trackerContext);
        activeSections := activeSections[..last];
      }
    }

    method SectionEndedEarly(id: NameAndLocation)
      requires Valid() && !Spec.SectionEndedEarly(State()).board.illogical
      modifies `activeSections, `unfinishedSections, trackerContext`currentTracker, trackerContext`runState
      modifies trackerContext`nodes, trackerContext.repr`runState
      ensures Valid()
      ensures State() == Spec.SectionEndedEarly(old(State()))
    {
      var last := |activeSections| - 1;
      if unfinishedSections == [] {
        activeSections[last].Fail(trackerContext);
      } else {
        activeSections[last].Close(trackerContext);
      }
      activeSections := activeSections[..last];
      unfinishedSections := unfinishedSections + [id];
    }

    /** The end of a section object's life, in the course of an exception or not. */
    method Leave(id: NameAndLocation, thrown: bool)
      requires Valid() && !Ending(State(), thrown).board.illogical
      modifies `activeSections, `unfinishedSections, trackerContext`currentTracker, trackerContext`runState
      modifies trackerContext`nodes, trackerContext.repr`runState
      ensures Valid()
      ensures State() == Ending(old(State()), thrown)
    {
      if thrown {
        SectionEndedEarly(id);
      } else {
        SectionEnded(id);
      }
    }

    /** A section object: constructed, its body run if it is included, and destroyed. */
    method RunSection(s: Section) returns (thrown: bool)
      requires Valid() && !Spec.RunSection(State(), s).0.board.illogical
      modifies `activeSections, `unfinishedSections, `entered, trackerContext, trackerContext.repr
      ensures Valid() && fresh(trackerContext.repr - old(trackerContext.repr))
      ensures (State(), thrown) == Spec.RunSection(old(State()), s)
      decreases s, 2
    {
      var included := SectionStarted(s.id);
      if included {
        thrown := RunIncluded(s);
      } else {
        thrown := false;
      }
    }

    method RunIncluded(s: Section) returns (thrown: bool)
      requires Valid() && !Included(State(), s).0.board.illogical
      modifies `activeSections, `unfinishedSections, `entered, trackerContext, trackerContext.repr
      ensures Valid() && fresh(trackerContext.repr - old(trackerContext.repr))
      ensures (State(), thrown) == Included(old(State()), s)
      decreases s, 1
    {
      EndingIllogical(Spec.RunBody(State(), s, 0, |entered|).0);
      thrown := RunBody(s);
      Leave(s.id, thrown);
    }

    /** The body of a section or test case; an exception, its own or one from a subsection, skips what is left. */
    method RunBody(s: Section) returns (thrown: bool)
      requires Valid() && !Spec.RunBody(State(), s, 0, |entered|).0.board.illogical
      modifies `activeSections, `unfinishedSections, `entered, trackerContext, trackerContext.repr
      ensures Valid() && fresh(trackerContext.repr - old(trackerContext.repr))
      ensures (State(), thrown) == Spec.RunBody(old(State()), s, 0, |old(entered)|)
      decreases s, 0
    {
      hide Spec.RunBody, Spec.RunSection;
      var depth := |entered|;
      for i := 0 to |s.body|
        invariant Valid() && fresh(trackerContext.repr - old(trackerContext.repr))
        invariant Spec.RunBody(old(State()), s, 0, depth) == Spec.RunBody(State(), s, i, depth)
      {
        BodyStep(State(), s, i, depth);
        if s.throws(i, Since(entered, depth)) {
          return true;
        }
        thrown := RunSection(s.body[i]);
        if thrown {
          return true;
        }
      }
      BodyEnds(State(), s, depth);
      thrown := s.throws(|s.body|, Since(entered, depth));
    }

    method HandleUnfinishedSections()
      requires Valid() && activeSections == []
      modifies `activeSections, `unfinishedSections, trackerContext`currentTracker, trackerContext`runState
      modifies trackerContext`nodes, trackerContext.repr`runState
      ensures Valid()
      ensures State() == old(State()).(unfinished := 0)
    {
      for k := |unfinishedSections| downto 0
        invariant Valid() && State() == old(State()) && |unfinishedSections| >= k
      {
        SectionEnded(unfinishedSections[k]);
      }
      unfinishedSections := [];
    }

    /** The test case's body run from here. */
    ghost function BodyOf(testCase: Section): Runner
      reads this, trackerContext
    {
      Spec.RunBody(State().(entered := [testCase.id]), testCase, 0, 1).0
    }

    /** Runs the body once. An exception ends here; the test case's tracker is closed in any event. */
    method RunCurrentTest(testCase: Section)
      requires Valid() && testCaseTracker != null && testCaseTracker.path != []
      requires var r := BodyOf(testCase);
               && r.active == [] && testCaseTracker.path <= r.board.current
               && !r.board.illogical && !Close(r.board, testCaseTracker.path).illogical
      modifies `activeSections, `unfinishedSections, `entered, trackerContext, trackerContext.repr
      ensures Valid() && fresh(trackerContext.repr - old(trackerContext.repr))
      ensures var r := old(BodyOf(testCase));
              State() == r.(board := Close(r.board, testCaseTracker.path), unfinished := 0)
    {
      hide Spec.RunBody, Spec.Close;
      entered := [testCase.id];
      var _ := RunBody(testCase);
      assert PathsOf(activeSections) == [];
      testCaseTracker.Close(trackerContext);
      HandleUnfinishedSections();
    }

    method BeginCycle(testCase: Section)
      requires Started()
      modifies `testCaseTracker, trackerContext, trackerContext.repr
      ensures Valid() && fresh(trackerContext.repr - old(trackerContext.repr))
      ensures testCaseTracker != null && testCaseTracker.path == [testCase.id]
      ensures var b := old(State().board).(current := [], completedCycle := false);
              State() == old(State()).(board := Acquire(b, testCase.id))
    {
      trackerContext.StartCycle();
      testCaseTracker := trackerContext.Acquire(testCase.id);
    }

    /** One turn of the run loop, and whether the test case is now successfully completed. */
    method RunCycle(testCase: Section) returns (completed: bool)
      requires Started() && CleanCycle(State(), Cycle(State(), testCase), testCase)
      modifies this, trackerContext, trackerContext.repr
      ensures Valid() && fresh(trackerContext.repr - old(trackerContext.repr))
      ensures State() == Cycle(old(State()), testCase)
      ensures completed <==> Completed(State(), testCase)
    {
      BeginCycle(testCase);
      RunCurrentTest(testCase);
      completed := TestCaseCompleted();
    }

    method TestCaseCompleted() returns (completed: bool)
      requires Valid() && testCaseTracker != null
      ensures completed <==> StateOf(trackerContext.nodes, testCaseTracker.path) == CompletedSuccessfully
    {
      trackerContext.Look(testCaseTracker.path);
      completed := testCaseTracker.runState == CompletedSuccessfully;
    }

    method StartRun()
      requires activeSections == [] && unfinishedSections == []
      modifies `testCaseTracker, `entered, trackerContext
      ensures Started() && fresh(trackerContext.repr) && State() == Spec.StartRun()
    {
      testCaseTracker := null;
      trackerContext.StartRun();
      entered := [];
      assert PathsOf(activeSections) == [];
    }

    method NextCycle(testCase: Section, cycles: seq<Path>) returns (completed: bool, cycles': seq<Path>)
      requires Started() && WellNamed(testCase) && WithinRun(State(), cycles, testCase, |cycles|)
      requires !Completed(State(), testCase)
      modifies this, trackerContext, trackerContext.repr
      ensures Started() && fresh(trackerContext.repr - old(trackerContext.repr))
      ensures |cycles| < |Cycles(testCase)| && |cycles'| == |cycles| + 1
      ensures WithinRun(State(), cycles', testCase, |cycles'|)
      ensures completed <==> Completed(State(), testCase)
    {
      OneMore(State(), cycles, testCase, |cycles|);
      completed := RunCycle(testCase);
      cycles' := cycles + [entered];
    }

    /**
     * Runs a test case in as many cycles as it takes, and reports the sections entered in each. Whether
     * the run is being aborted after so many cycles is up to the assertions made in them.
     */
    method RunTest(testCase: Section, aborting: nat -> bool) returns (cycles: seq<Path>)
      requires WellNamed(testCase) && activeSections == [] && unfinishedSections == []
      modifies this, trackerContext
      ensures Started()
      ensures 0 < |cycles| && cycles <= Cycles(testCase)
      ensures NotBefore(aborting, |cycles|)
      ensures cycles == Cycles(testCase) || aborting(|cycles|)
    {
      hide WithinRun, Completed, Cycles, NotBefore, Spec.StartRun, WellNamed;
      StartRun();
      NothingRunYet(testCase);
      cycles := [];
      var done := false;
      NoneBefore(aborting);
      while !done
        invariant Started() && fresh(trackerContext.repr)
        invariant |cycles| <= |Cycles(testCase)| && WithinRun(State(), cycles, testCase, |cycles|)
        invariant if done then 0 < |cycles| && (Completed(State(), testCase) || aborting(|cycles|))
                  else !Completed(State(), testCase) && (|cycles| > 0 ==> !aborting(|cycles|))
        invariant NotBefore(aborting, |cycles|)
        decreases |Cycles(testCase)| - |cycles|, done
      {
        NotBeforeNext(aborting, |cycles|);
        done, cycles := NextCycle(testCase, cycles);
        done := done || aborting(|cycles|);
      }
      CyclesSoFar(State(), cycles, testCase);
    }
  }

  /** The run is not being aborted after fewer than n cycles. */
  ghost predicate NotBefore(aborting: nat -> bool, n: nat) {
    forall k | 0 < k < n :: !aborting(k)
  }

  lemma NoneBefore(aborting: nat -> bool)
    ensures NotBefore(aborting, 0)
  {
  }

  lemma NotBeforeNext(aborting: nat -> bool, n: nat)
    requires NotBefore(aborting, n) && (n > 0 ==> !aborting(n))
    ensures NotBefore(aborting, n + 1)
  {
  }

  ghost predicate Completed(r: Runner, testCase: Section) {
    StateOf(r.board.nodes, [testCase.id]) == CompletedSuccessfully
  }

  ghost predicate WithinRun(r: Runner, cycles: seq<Path>, testCase: Section, k: nat) {
    k <= |Cycles(testCase)| && AfterCycles(testCase, k) == (r, cycles)
  }

  lemma NothingRunYet(testCase: Section)
    ensures WithinRun(Spec.StartRun(), [], testCase, 0) && !Completed(Spec.StartRun(), testCase)
  {
  }

  lemma OneMore(r: Runner, cycles: seq<Path>, testCase: Section, k: nat)
    requires WellNamed(testCase) && WithinRun(r, cycles, testCase, k) && !Completed(r, testCase)
    ensures k < |Cycles(testCase)| && CleanCycle(r, Cycle(r, testCase), testCase)
    ensures var r' := Cycle(r, testCase); WithinRun(r', cycles + [r'.entered], testCase, k + 1)
  {
    RunMakesAllVisits(testCase, k);
    CycleIsClean(r, testCase);
  }

  lemma CyclesSoFar(r: Runner, cycles: seq<Path>, testCase: Section)
    requires WellNamed(testCase) && WithinRun(r, cycles, testCase, |cycles|)
    ensures cycles <= Cycles(testCase) && (Completed(r, testCase) ==> cycles == Cycles(testCase))
  {
    RunMakesAllVisits(testCase, |cycles|);
  }
}
