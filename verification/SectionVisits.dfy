/** What the cycles of a run mean for the leaf sections: which are entered, how often and in which order. */
module SectionVisits {
  import opened SectionTree

  /** The leaf sections of s as paths from s, in document order. */
  function LeafPaths(s: Section): seq<Path>
    decreases s
  {
    PutUnder(s.id, if s.body == [] then [[]] else LeafPathsFrom(s.body, 0))
  }

  function LeafPathsFrom(body: seq<Section>, i: nat): seq<Path>
    requires i <= |body|
    decreases body, |body| - i
  {
    if i == |body| then [] else LeafPaths(body[i]) + LeafPathsFrom(body, i + 1)
  }

  function PutUnder(l: NameAndLocation, ps: seq<Path>): (r: seq<Path>)
    ensures |r| == |ps|
  {
    seq(|ps|, i requires 0 <= i < |ps| => [l] + ps[i])
  }

  /** The path leads from s to a section without subsections. */
  ghost predicate LeadsToLeaf(s: Section, path: Path)
    decreases s
  {
    && path != [] && path[0] == s.id
    && if |path| == 1 then s.body == [] else exists k | k in s.body :: LeadsToLeaf(k, path[1..])
  }

  ghost predicate NeverThrows(s: Section) {
    forall i: nat, p: Path :: !s.throws(i, p)
  }

  /** Only sections without subsections end by an exception. */
  ghost predicate OnlyLeavesThrow(s: Section) {
    (s.body != [] ==> NeverThrows(s)) && forall k | k in s.body :: OnlyLeavesThrow(k)
  }

  ghost predicate NothingThrows(s: Section) {
    NeverThrows(s) && forall k | k in s.body :: NothingThrows(k)
  }

  /** The cycles that got to a leaf. */
  ghost function ToLeaves(s: Section, ps: seq<Path>): seq<Path> {
    if ps == [] then []
    else (if LeadsToLeaf(s, ps[0]) then [ps[0]] else []) + ToLeaves(s, ps[1..])
  }

  // ---------- The order of the visits that are due ----------

  lemma LeafSchedule(s: Section)
    requires s.body == []
    ensures Scheduled(s.body) == [Visit([], false)] && Visits(s) == [Visit([s.id], s.throws(0, []))]
    ensures Cycles(s) == [[s.id]]
  {
    var due := [Visit([], false)];
    assert due[1..] == [] && [s.id] + [] == [s.id];
    assert !Early(s, []) && !EndsRun(s, due, 0);
    assert CyclesFrom(s, due, 0) == [[s.id]];
    assert Alone(s.body) == [Visit([], false)];
    UnderOne(s.id, s.throws(0, []));
    assert Late(s, []) <==> s.throws(0, []);
    assert Cut(s, [Visit([], false)]) == [Visit([], s.throws(0, []))];
  }

  lemma {:induction false} VisitsNonempty(s: Section)
    ensures Visits(s) != [] && Scheduled(s.body) != []
    decreases s
  {
    if s.body == [] {
      LeafSchedule(s);
    } else {
      VisitsNonempty(s.body[0]);
      assert VisitsFrom(s.body, 0) == Visits(s.body[0]) + VisitsFrom(s.body, 1);
    }
  }

  /** The visits to the last subsection are the last but one to none. */
  lemma {:induction false} LastStays(body: seq<Section>, i: nat, m: nat)
    requires i <= |body| && DistinctIds(body) && m < |VisitsFrom(body, i)|
    requires Position(body, VisitsFrom(body, i)[m].path) == |body| - 1
    ensures m + 1 < |VisitsFrom(body, i)| ==> Position(body, VisitsFrom(body, i)[m + 1].path) == |body| - 1
    ensures m + 1 == |VisitsFrom(body, i)| ==>
              var vs := Visits(body[|body| - 1]); vs != [] && VisitsFrom(body, i)[m] == vs[|vs| - 1]
    decreases |body| - i
  {
    var a := Visits(body[i]);
    assert VisitsFrom(body, i) == a + VisitsFrom(body, i + 1);
    if m < |a| {
      PositionAt(body, i, a[m].path);
      if m + 1 < |a| { PositionAt(body, i, a[m + 1].path); }
    } else {
      LastStays(body, i + 1, m - |a|);
    }
  }

  /** After a visit to the last subsection that does not fail it, there is no other but to the same one. */
  lemma LastTurn(body: seq<Section>, m: nat)
    requires DistinctIds(body) && m + 1 < |Scheduled(body)|
    requires Position(body, Scheduled(body)[m].path) == |body| - 1
    ensures Scheduled(body)[m].thrown || Position(body, Scheduled(body)[m + 1].path) == |body| - 1
  {
    var kids := VisitsFrom(body, 0);
    assert Alone(body) != [] ==> Alone(body) == [Visit([], false)] && EnteredAlone(body);
    LastStays(body, 0, m);
    if m + 1 == |kids| { assert Fails(body[|body| - 1]); }
  }

  // ---------- Nothing throws: one cycle for each leaf ----------

  lemma {:induction false} NeverCut(s: Section, vs: seq<Visit>)
    requires NeverThrows(s)
    ensures Cut(s, vs) == vs
    decreases |vs|
  {
    if vs != [] {
      NeverCut(s, vs[1..]);
      assert vs == [vs[0]] + vs[1..];
    }
  }

  /** How many subsections of the test case were got to before visit i. */
  function NotedBefore(testCase: Section, vs: seq<Visit>, i: nat): nat
    requires i <= |vs|
  {
    if i == 0 then 0 else Max(NotedBefore(testCase, vs, i - 1), Reached(testCase, vs[i - 1]))
  }

  /** The run ends with visit i, though more are due. */
  predicate StopsAt(testCase: Section, i: nat)
    requires i < |Scheduled(testCase.body)|
  {
    EndsRun(testCase, Scheduled(testCase.body)[i..], NotedBefore(testCase, Scheduled(testCase.body), i))
  }

  /** How many of the visits due a run of the test case makes. */
  function CasesKept(testCase: Section, vs: seq<Visit>, noted: nat): (n: nat)
    ensures n <= |vs|
  {
    if vs == [] || Early(testCase, vs[0].path) then 0
    else if EndsRun(testCase, vs, noted) then 1
    else 1 + CasesKept(testCase, vs[1..], Max(noted, Reached(testCase, vs[0])))
  }

  /** The first n of the paths, and perhaps one that enters nothing where another was to come. */
  ghost predicate KeepsFirst(s: Section, ps: seq<Path>, all: seq<Path>, n: nat) {
    n <= |all| && (ps == all[..n] || (n < |all| && Early(s, all[n]) && ps == all[..n] + [[]]))
  }

  lemma KeepsOneMore(s: Section, p: Path, ps: seq<Path>, all: seq<Path>, n: nat)
    requires KeepsFirst(s, ps, all, n)
    ensures KeepsFirst(s, [p] + ps, [p] + all, n + 1)
  {
    assert ([p] + all)[..n + 1] == [p] + all[..n];
    if ps != all[..n] { assert ([p] + all)[n + 1] == all[n]; }
  }

  lemma {:induction false} CyclesKept(testCase: Section, vs: seq<Visit>, noted: nat) returns (ps: seq<Path>)
    ensures CyclesFrom(testCase, vs, noted) == PutUnder(testCase.id, ps)
    ensures KeepsFirst(testCase, ps, Paths(vs), CasesKept(testCase, vs, noted))
    decreases |vs|
  {
    if vs == [] {
      ps := [];
    } else if Early(testCase, vs[0].path) {
      ps := [[]];
      assert [testCase.id] + [] == [testCase.id];
      assert CyclesFrom(testCase, vs, noted)[0] == PutUnder(testCase.id, ps)[0];
    } else {
      var p, left := vs[0].path, [];
      if !EndsRun(testCase, vs, noted) {
        left := CyclesKept(testCase, vs[1..], Max(noted, Reached(testCase, vs[0])));
      }
      ps := [p] + left;
      assert Paths(vs) == [p] + Paths(vs[1..]);
      var n := CasesKept(testCase, vs, noted);
      assert KeepsFirst(testCase, left, Paths(vs[1..]), n - 1);
      KeepsOneMore(testCase, p, left, Paths(vs[1..]), n - 1);
      PutUnderAppend(testCase.id, [p], left);
      assert PutUnder(testCase.id, [p]) == [[testCase.id] + p];
    }
  }

  /** The run makes the visits up to the first with which it stops, or before which the test case throws. */
  lemma {:induction false} CasesKeptUpToStop(testCase: Section, i: nat)
    requires i <= |Scheduled(testCase.body)|
    ensures var due := Scheduled(testCase.body); var n := CasesKept(testCase, due[i..], NotedBefore(testCase, due, i));
            && (forall m | i <= m < i + n :: !Early(testCase, due[m].path))
            && (forall m | i <= m < i + n - 1 :: !StopsAt(testCase, m))
            && (i + n < |due| ==> Early(testCase, due[i + n].path) || (0 < n && StopsAt(testCase, i + n - 1)))
    decreases |Scheduled(testCase.body)| - i
  {
    hide Reached, EndsRun, Early, Scheduled;
    var due := Scheduled(testCase.body);
    if i < |due| && !Early(testCase, due[i].path) && !StopsAt(testCase, i) {
      assert due[i..][1..] == due[i + 1..];
      CasesKeptUpToStop(testCase, i + 1);
    }
  }

  /** A test case that throws at the end of its body only, or never, goes through all that is due. */
  lemma RunsThrough(testCase: Section)
    requires DistinctIds(testCase.body)
    requires forall i: nat, p: Path | i < |testCase.body| :: !testCase.throws(i, p)
    ensures forall i | 0 <= i < |Scheduled(testCase.body)| ::
              !Early(testCase, Scheduled(testCase.body)[i].path) && !StopsAt(testCase, i)
    ensures Cycles(testCase) == PutUnder(testCase.id, Paths(Scheduled(testCase.body)))
  {
    var due := Scheduled(testCase.body);
    forall i | 0 <= i < |due| ensures !StopsAt(testCase, i) {
      if StopsAt(testCase, i) {
        ReachesEnd(testCase, due[i]);
        LastTurn(testCase.body, i);
        assert false;
      }
    }
    CasesKeptUpToStop(testCase, 0);
    assert due[0..] == due;
    var ps := CyclesKept(testCase, due, 0);
  }

  lemma {:induction false} ReachesEnd(s: Section, v: Visit)
    requires !v.thrown && forall i: nat, p: Path | i < |s.body| :: !s.throws(i, p)
    ensures Reached(s, v) == |s.body|
  {
    ThrowsAtEnd(s, v.path, Position(s.body, v.path) + 1);
  }

  lemma {:induction false} ThrowsAtEnd(s: Section, path: Path, i: nat)
    requires i <= |s.body| && forall i: nat, p: Path | i < |s.body| :: !s.throws(i, p)
    ensures FirstThrow(s, path, i) == |s.body|
    decreases |s.body| - i
  {
    if i < |s.body| { ThrowsAtEnd(s, path, i + 1); }
  }

  ghost predicate NoneThrown(vs: seq<Visit>) {
    forall v | v in vs :: !v.thrown
  }

  lemma {:induction false} VisitsAreLeafPaths(s: Section)
    requires WellNamed(s) && NothingThrows(s)
    ensures Paths(Visits(s)) == LeafPaths(s) && NoneThrown(Visits(s))
    ensures Cycles(s) == LeafPaths(s)
    decreases s
  {
    var due := Scheduled(s.body);
    VisitsFromAreLeafPaths(s.body, 0);
    if s.body != [] {
      VisitsAreLeafPaths(s.body[|s.body| - 1]);
      assert !Fails(s.body[|s.body| - 1]);
      assert Alone(s.body) == [];
    } else {
      LeafSchedule(s);
    }
    assert Paths(due) == if s.body == [] then [[]] else LeafPathsFrom(s.body, 0);
    NeverCut(s, due);
    PathsUnder(s.id, due);
    RunsThrough(s);
  }

  lemma PathsUnder(l: NameAndLocation, vs: seq<Visit>)
    ensures Paths(Under(l, vs)) == PutUnder(l, Paths(vs))
  {
  }

  lemma PutUnderAppend(l: NameAndLocation, a: seq<Path>, b: seq<Path>)
    ensures PutUnder(l, a + b) == PutUnder(l, a) + PutUnder(l, b)
  {
  }

  lemma UnderOne(l: NameAndLocation, thrown: bool)
    ensures Under(l, [Visit([], thrown)]) == [Visit([l], thrown)]
  {
    assert [l] + [] == [l];
    assert Under(l, [Visit([], thrown)])[0] == Visit([l], thrown);
  }

  lemma PathsAppend(a: seq<Visit>, b: seq<Visit>)
    ensures Paths(a + b) == Paths(a) + Paths(b)
  {
  }

  lemma {:induction false} VisitsFromAreLeafPaths(body: seq<Section>, i: nat)
    requires i <= |body| && forall k | k in body :: WellNamed(k) && NothingThrows(k)
    ensures Paths(VisitsFrom(body, i)) == LeafPathsFrom(body, i) && NoneThrown(VisitsFrom(body, i))
    decreases body, |body| - i
  {
    if i < |body| {
      VisitsAreLeafPaths(body[i]);
      VisitsFromAreLeafPaths(body, i + 1);
      PathsAppend(Visits(body[i]), VisitsFrom(body, i + 1));
    }
  }

  // ---------- Whatever throws, no two cycles are alike ----------

  ghost predicate Distinct(ps: seq<Path>) {
    forall i, j | 0 <= i < j < |ps| :: ps[i] != ps[j]
  }

  ghost predicate AllStartIn(ps: seq<Path>, body: seq<Section>, i: nat) {
    forall m | 0 <= m < |ps| :: ps[m] != [] && exists j | i <= j < |body| :: ps[m][0] == body[j].id
  }

  /** How many visits there are up to the first that the section ends, or keeps from happening, by an exception. */
  function Kept(s: Section, vs: seq<Visit>): (n: nat)
    ensures n <= |vs|
  {
    if vs == [] || Early(s, vs[0].path) then 0
    else if !vs[0].thrown && Late(s, vs[0].path) then 1
    else 1 + Kept(s, vs[1..])
  }

  lemma {:induction false} CutKeeps(s: Section, vs: seq<Visit>)
    ensures KeepsFirst(s, Paths(Cut(s, vs)), Paths(vs), Kept(s, vs))
    decreases |vs|
  {
    if vs != [] && !Early(s, vs[0].path) {
      var p := vs[0].path;
      assert Paths(vs) == [p] + Paths(vs[1..]);
      if vs[0].thrown || !Late(s, p) {
        CutKeeps(s, vs[1..]);
        KeepsOneMore(s, p, Paths(Cut(s, vs[1..])), Paths(vs[1..]), Kept(s, vs[1..]));
        PathsAppend([vs[0]], Cut(s, vs[1..]));
      } else {
        assert Paths(Cut(s, vs)) == [p];
      }
    } else if vs != [] {
      assert Paths(Cut(s, vs)) == [[]];
    }
  }

  /** A path that enters nothing differs from all that enter something. */
  lemma DistinctKept(s: Section, ps: seq<Path>, all: seq<Path>, n: nat)
    requires KeepsFirst(s, ps, all, n) && Distinct(all) && forall m | 0 <= m < |all| - 1 :: all[m] != []
    ensures Distinct(ps)
  {
  }

  lemma LeafBelowKid(s: Section, k: Section, path: Path)
    requires WellNamed(s) && k in s.body && path != [] && path[0] == k.id
    ensures LeadsToLeaf(s, [s.id] + path) == LeadsToLeaf(k, path)
  {
    assert ([s.id] + path)[1..] == path;
    forall k' | k' in s.body && LeadsToLeaf(k', path) ensures k' == k {
      assert k'.id == k.id;
    }
  }

  lemma {:induction false} VisitsStart(body: seq<Section>, i: nat)
    requires i <= |body|
    ensures AllStartIn(Paths(VisitsFrom(body, i)), body, i)
    decreases |body| - i
  {
    if i < |body| {
      VisitsStart(body, i + 1);
      PathsAppend(Visits(body[i]), VisitsFrom(body, i + 1));
    }
  }

  /**
   * Wherever sections end by an exception of their own, no two cycles enter the same sections.
   * So no leaf is entered twice.
   */
  lemma {:induction false} VisitsOnce(s: Section)
    requires WellNamed(s)
    ensures Distinct(Paths(Visits(s))) && Distinct(Cycles(s))
    decreases s, 1
  {
    var due := Scheduled(s.body);
    DueOnce(s);
    CutKeeps(s, due);
    DistinctKept(s, Paths(Cut(s, due)), Paths(due), Kept(s, due));
    PathsUnder(s.id, Cut(s, due));
    DistinctUnder(s.id, Paths(Cut(s, due)));
    var ps := CyclesKept(s, due, 0);
    DistinctKept(s, ps, Paths(due), CasesKept(s, due, 0));
    DistinctUnder(s.id, ps);
  }

  lemma {:induction false} DueOnce(s: Section)
    requires WellNamed(s)
    ensures var all := Paths(Scheduled(s.body)); Distinct(all) && forall m | 0 <= m < |all| - 1 :: all[m] != []
    decreases s, 0
  {
    KidsOnce(s, 0);
    VisitsStart(s.body, 0);
    PathsAppend(VisitsFrom(s.body, 0), Alone(s.body));
  }

  lemma DistinctUnder(l: NameAndLocation, ps: seq<Path>)
    requires Distinct(ps)
    ensures Distinct(PutUnder(l, ps))
  {
    forall i, j | 0 <= i < j < |ps| ensures [l] + ps[i] != [l] + ps[j] {
      assert ([l] + ps[i])[1..] == ps[i] && ([l] + ps[j])[1..] == ps[j];
    }
  }

  lemma {:induction false} KidsOnce(s: Section, i: nat)
    requires WellNamed(s) && i <= |s.body|
    ensures Distinct(Paths(VisitsFrom(s.body, i)))
    decreases s.body, |s.body| - i
  {
    if i < |s.body| {
      var k := s.body[i];
      VisitsOnce(k);
      KidsOnce(s, i + 1);
      VisitsStart(s.body, i + 1);
      PathsAppend(Visits(k), VisitsFrom(s.body, i + 1));
    }
  }

  // ---------- How many cycles ----------

  /** Sections that are entered once more because their last subsection failed. */
  function Reentered(s: Section): nat
    decreases s
  {
    (if s.body != [] && EnteredAlone(s.body) then 1 else 0) + ReenteredFrom(s.body, 0)
  }

  function ReenteredFrom(body: seq<Section>, i: nat): nat
    requires i <= |body|
    decreases body, |body| - i
  {
    if i == |body| then 0 else Reentered(body[i]) + ReenteredFrom(body, i + 1)
  }

  /** One cycle for each leaf, and one for each section whose last subsection fails. */
  lemma {:induction false} NumberOfCycles(s: Section)
    requires WellNamed(s) && OnlyLeavesThrow(s)
    ensures |Cycles(s)| == |Visits(s)| == |LeafPaths(s)| + Reentered(s)
    decreases s
  {
    NumberFrom(s.body, 0);
    AloneOnce(s.body);
    if s.body == [] {
      LeafSchedule(s);
    } else {
      NeverCut(s, Scheduled(s.body));
      RunsThrough(s);
    }
  }

  lemma AloneOnce(body: seq<Section>)
    ensures |Scheduled(body)| == |VisitsFrom(body, 0)| + if EnteredAlone(body) then 1 else 0
  {
    assert |Alone(body)| == if EnteredAlone(body) then 1 else 0;
  }

  lemma {:induction false} NumberFrom(body: seq<Section>, i: nat)
    requires i <= |body| && forall k | k in body :: WellNamed(k) && OnlyLeavesThrow(k)
    ensures |VisitsFrom(body, i)| == |LeafPathsFrom(body, i)| + ReenteredFrom(body, i)
    decreases body, |body| - i
  {
    if i < |body| {
      NumberOfCycles(body[i]);
      NumberFrom(body, i + 1);
    }
  }
}
