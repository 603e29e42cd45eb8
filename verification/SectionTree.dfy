/** Test bodies made of nested sections, and the visits a complete run of such a body must make. */
module SectionTree {

  /** What tells sibling sections apart: the name together with the source location. */
  datatype NameAndLocation = NameAndLocation(name: string, file: string, line: nat)

  /** A tracker is addressed by the ids from the root tracker down to it. */
  type Path = seq<NameAndLocation>

  /**
   * A section, or the test case itself: its subsections in document order, and whether control leaves its
   * body by an exception of its own at the point where the first so many subsections are behind. That may
   * differ from cycle to cycle: it depends on the sections below that the cycle has entered up to there.
   */
  datatype Section = Section(id: NameAndLocation, body: seq<Section>, throws: (nat, Path) -> bool)

  /** One cycle, seen from inside a section: the sections entered below it, and whether an exception came out. */
  datatype Visit = Visit(path: Path, thrown: bool)

  function Ids(body: seq<Section>): (ls: seq<NameAndLocation>)
    ensures |ls| == |body|
    ensures forall i | 0 <= i < |body| :: ls[i] == body[i].id
  {
    seq(|body|, i requires 0 <= i < |body| => body[i].id)
  }

  ghost predicate DistinctIds(body: seq<Section>) {
    forall i, j | 0 <= i < j < |body| :: body[i].id != body[j].id
  }

  /** At every level, siblings differ in name or location. */
  ghost predicate WellNamed(s: Section) {
    DistinctIds(s.body) && forall k | k in s.body :: WellNamed(k)
  }

  /** Prefixes the path of every visit with an id. */
  function Under(l: NameAndLocation, vs: seq<Visit>): (r: seq<Visit>)
    ensures |r| == |vs|
  {
    seq(|vs|, i requires 0 <= i < |vs| => Visit([l] + vs[i].path, vs[i].thrown))
  }

  /** The index of the subsection a path enters; -1 if it enters none. */
  function Position(body: seq<Section>, path: Path): (i: int)
    ensures -1 <= i < |body|
  {
    if path == [] then -1 else IndexOf(body, path[0], 0)
  }

  function IndexOf(body: seq<Section>, l: NameAndLocation, i: nat): (j: int)
    requires i <= |body|
    ensures -1 <= j < |body|
    decreases |body| - i
  {
    if i == |body| then -1 else if body[i].id == l then i else IndexOf(body, l, i + 1)
  }

  lemma {:induction false} IndexFound(body: seq<Section>, j: nat, i: nat)
    requires i <= j < |body| && DistinctIds(body)
    ensures IndexOf(body, body[j].id, i) == j
    decreases j - i
  {
    if i < j { IndexFound(body, j, i + 1); }
  }

  lemma PositionAt(body: seq<Section>, j: nat, path: Path)
    requires j < |body| && DistinctIds(body) && path != [] && path[0] == body[j].id
    ensures Position(body, path) == j
  {
    IndexFound(body, j, 0);
  }

  /** The section throws before it gets to the subsection that a cycle is to enter. */
  predicate Early(s: Section, path: Path) {
    exists i: nat | i <= Position(s.body, path) :: s.throws(i, [])
  }

  /** The section throws once the subsection that the cycle has entered, if any, is behind. */
  predicate Late(s: Section, path: Path) {
    exists i: nat | Position(s.body, path) < i <= |s.body| :: s.throws(i, path)
  }

  /** The visits up to the first that the section ends, or keeps from happening, by an exception of its own. */
  function Cut(s: Section, vs: seq<Visit>): seq<Visit> {
    if vs == [] then []
    else if Early(s, vs[0].path) then [Visit([], true)]
    else if !vs[0].thrown && Late(s, vs[0].path) then [Visit(vs[0].path, true)]
    else [vs[0]] + Cut(s, vs[1..])
  }

  /** The last visit to a section ends by an exception. */
  predicate Fails(s: Section)
    decreases s, 1
  {
    var vs := Visits(s);
    vs != [] && vs[|vs| - 1].thrown
  }

  /** A section is entered without entering a subsection if it has none, or once more after its last one has failed. */
  predicate EnteredAlone(body: seq<Section>)
    decreases body, 0
  {
    body == [] || Fails(body[|body| - 1])
  }

  function Alone(body: seq<Section>): seq<Visit>
    decreases body, 1
  {
    if EnteredAlone(body) then [Visit([], false)] else []
  }

  /** The visits due below a section while it does not throw itself. */
  function Scheduled(body: seq<Section>): seq<Visit>
    decreases body, |body| + 2
  {
    VisitsFrom(body, 0) + Alone(body)
  }

  /** The visits a run makes to a section, each starting with the section's own id. */
  function Visits(s: Section): seq<Visit>
    decreases s, 0
  {
    Under(s.id, Cut(s, Scheduled(s.body)))
  }

  /** The visits to the subsections from index i on, in document order. */
  function VisitsFrom(body: seq<Section>, i: nat): seq<Visit>
    requires i <= |body|
    decreases body, |body| - i
  {
    if i == |body| then [] else Visits(body[i]) + VisitsFrom(body, i + 1)
  }

  /** The first point from i on at which the section throws, or the end of its body. */
  function FirstThrow(s: Section, path: Path, i: nat): (m: nat)
    requires i <= |s.body|
    ensures i <= m <= |s.body|
    decreases |s.body| - i
  {
    if i == |s.body| || s.throws(i, path) then i else FirstThrow(s, path, i + 1)
  }

  lemma {:induction false} NoneThrows(s: Section, path: Path, i: nat)
    requires i <= |s.body| && !exists k: nat | i <= k <= |s.body| :: s.throws(k, path)
    ensures FirstThrow(s, path, i) == |s.body|
    decreases |s.body| - i
  {
    if i < |s.body| { NoneThrows(s, path, i + 1); }
  }

  /** How many subsections a cycle that makes this visit gets to. */
  function Reached(s: Section, v: Visit): (m: nat)
    ensures Position(s.body, v.path) < m <= |s.body| || s.body == []
  {
    var next := Position(s.body, v.path) + 1;
    if v.thrown && v.path != [] then next else FirstThrow(s, v.path, next)
  }

  function Max(a: nat, b: nat): nat {
    if a < b then b else a
  }

  /** The last subsection that was ever got to has just been left for good, and without an exception. */
  predicate EndsRun(testCase: Section, vs: seq<Visit>, noted: nat)
    requires vs != []
  {
    var j := Position(testCase.body, vs[0].path);
    && |vs| > 1 && !vs[0].thrown && Position(testCase.body, vs[1].path) != j
    && Max(noted, Reached(testCase, vs[0])) == j + 1
  }

  /**
   * The cycles of a run in which these visits are due and the first so many subsections of the test case
   * were got to. An exception of the test case itself does not make it fail: the run ends if nothing was
   * entered, or if all that was ever got to is complete.
   */
  function CyclesFrom(testCase: Section, vs: seq<Visit>, noted: nat): seq<Path> {
    if vs == [] then []
    else if Early(testCase, vs[0].path) then [[testCase.id]]
    else
      [[testCase.id] + vs[0].path]
      + if EndsRun(testCase, vs, noted) then []
        else CyclesFrom(testCase, vs[1..], Max(noted, Reached(testCase, vs[0])))
  }

  /** The cycles of a whole run, as the paths of sections entered. */
  function Cycles(testCase: Section): seq<Path> {
    CyclesFrom(testCase, Scheduled(testCase.body), 0)
  }

  function Paths(vs: seq<Visit>): (r: seq<Path>)
    ensures |r| == |vs|
  {
    seq(|vs|, i requires 0 <= i < |vs| => vs[i].path)
  }
}
