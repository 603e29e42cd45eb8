/**
 * The tracker operations as functions on values: what each operation of a
 * section tracker does to the tracker states, to the current tracker and to the cycle flag.
 */
module TrackerSpec {
  import opened SectionTree

  datatype CycleState =
    NotStarted | Executing | ExecutingChildren | NeedsAnotherRun | CompletedSuccessfully | Failed

  datatype Node = Node(state: CycleState, children: seq<NameAndLocation>)

  type Nodes = map<Path, Node>

  /**
   * `illogical` records an internal error: a tracker closed in an impossible state, or a section ended
   * that is not open.
   */
  datatype Board = Board(nodes: Nodes, current: Path, completedCycle: bool, illogical: bool)

  function StateOf(n: Nodes, p: Path): CycleState {
    if p in n then n[p].state else NotStarted
  }

  function ChildrenOf(n: Nodes, p: Path): seq<NameAndLocation> {
    if p in n then n[p].children else []
  }

  predicate IsComplete(n: Nodes, p: Path) {
    StateOf(n, p) == CompletedSuccessfully || StateOf(n, p) == Failed
  }

  predicate IsOpen(n: Nodes, p: Path) {
    StateOf(n, p) != NotStarted && !IsComplete(n, p)
  }

  function WithState(n: Nodes, p: Path, state: CycleState): Nodes {
    n[p := Node(state, ChildrenOf(n, p))]
  }

  function Parent(p: Path): Path
    requires p != []
  {
    p[..|p| - 1]
  }

  function OpenChild(n: Nodes, p: Path): Nodes
    decreases |p|
  {
    if StateOf(n, p) == ExecutingChildren then n
    else
      var n' := WithState(n, p, ExecutingChildren);
      if p == [] then n' else OpenChild(n', Parent(p))
  }

  function Open(b: Board, p: Path): Board {
    var n := WithState(b.nodes, p, Executing);
    b.(nodes := if p == [] then n else OpenChild(n, Parent(p)), current := p)
  }

  /** Finds or adds the child of the current tracker with this label, and opens it while the cycle runs. */
  function Acquire(b: Board, l: NameAndLocation): Board {
    var q := b.current + [l];
    var b' := if l in ChildrenOf(b.nodes, b.current) then b else b.(nodes := AddChild(b.nodes, b.current, l));
    if !b.completedCycle && !IsComplete(b'.nodes, q) then Open(b', q) else b'
  }

  function AddChild(n: Nodes, p: Path, l: NameAndLocation): Nodes {
    n[p := Node(StateOf(n, p), ChildrenOf(n, p) + [l])][p + [l] := Node(NotStarted, [])]
  }

  predicate LastChildComplete(n: Nodes, p: Path) {
    var ls := ChildrenOf(n, p);
    ls == [] || IsComplete(n, p + [ls[|ls| - 1]])
  }

  /** Leaves tracker p: its parent becomes current, and the cycle is over. */
  function Leave(b: Board, p: Path): Board
    requires p != []
  {
    b.(current := Parent(p), completedCycle := true)
  }

  /** Closing tracker p when no tracker below it is current. */
  function CloseOne(b: Board, p: Path): Board
    requires p != []
  {
    match StateOf(b.nodes, p)
    case NeedsAnotherRun => Leave(b, p)
    case Executing => Leave(b.(nodes := WithState(b.nodes, p, CompletedSuccessfully)), p)
    case ExecutingChildren =>
      Leave(if LastChildComplete(b.nodes, p) then b.(nodes := WithState(b.nodes, p, CompletedSuccessfully)) else b, p)
    case _ => b.(illogical := true)
  }

  /** Closing tracker p closes what is still open below it first. */
  function Close(b: Board, p: Path): Board
    requires p != [] && p <= b.current
    decreases |b.current|
  {
    if b.current == p then CloseOne(b, p)
    else
      var b' := CloseOne(b, b.current);
      if b'.illogical then b' else Close(b', p)
  }

  function Fail(b: Board, p: Path): Board
    requires p != []
  {
    var n := WithState(b.nodes, p, Failed);
    Leave(b.(nodes := WithState(n, Parent(p), NeedsAnotherRun)), p)
  }

  /** The runner: the trackers, the active sections, how many ended early, and the sections entered this cycle. */
  datatype Runner = Runner(board: Board, active: seq<Path>, unfinished: nat, entered: Path)

  function SectionStarted(r: Runner, l: NameAndLocation): (Runner, bool) {
    var p := r.board.current + [l];
    var b := Acquire(r.board, l);
    if !IsOpen(b.nodes, p) then (r.(board := b), false)
    else (r.(board := b, active := r.active + [p], entered := r.entered + [l]), true)
  }

  /** The last active section can be ended: its tracker is the current one or above it. */
  predicate CanEnd(r: Runner) {
    r.active != [] && r.active[|r.active| - 1] != [] && r.active[|r.active| - 1] <= r.board.current
  }

  function Broken(r: Runner): Runner {
    r.(board := r.board.(illogical := true))
  }

  function SectionEnded(r: Runner): Runner {
    if r.active == [] then r
    else if !CanEnd(r) then Broken(r)
    else
      var last := |r.active| - 1;
      r.(board := Close(r.board, r.active[last]), active := r.active[..last])
  }

  /** The section the exception leaves first has failed; the sections around it are closed. */
  function SectionEndedEarly(r: Runner): Runner {
    if !CanEnd(r) then Broken(r)
    else
      var last := |r.active| - 1;
      var p := r.active[last];
      var b := if r.unfinished == 0 then Fail(r.board, p) else Close(r.board, p);
      r.(board := b, active := r.active[..last], unfinished := r.unfinished + 1)
  }

  /** The sections entered after the first n. */
  function Since(entered: Path, n: nat): Path {
    if n <= |entered| then entered[n..] else []
  }

  /** Constructing a section object, running its body if it is included, and destroying it. */
  function RunSection(r: Runner, s: Section): (Runner, bool)
    decreases s, |s.body| + 1
  {
    var (r1, included) := SectionStarted(r, s.id);
    if !included then (r1, false)
    else
      var (r2, thrown) := RunBody(r1, s, 0, |r1.entered|);
      (if thrown then SectionEndedEarly(r2) else SectionEnded(r2), thrown)
  }

  /**
   * The body of a section, from the point where the first i subsections are behind; an exception, its own
   * or one from a subsection, skips what is left. `depth` sections were entered before the body.
   */
  function RunBody(r: Runner, s: Section, i: nat, depth: nat): (Runner, bool)
    requires i <= |s.body|
    decreases s, |s.body| - i
  {
    if s.throws(i, Since(r.entered, depth)) then (r, true)
    else if i == |s.body| then (r, false)
    else
      var (r', thrown) := RunSection(r, s.body[i]);
      if thrown then (r', true) else RunBody(r', s, i + 1, depth)
  }

  function StartRun(): Runner {
    Runner(Board(map[[] := Node(NotStarted, [])], [], false, false), [], 0, [])
  }

  /** Tearing down the sections that ended early, outside the unwinding. */
  function HandleUnfinished(r: Runner, k: nat): Runner
    decreases k
  {
    if k == 0 then r.(unfinished := 0) else HandleUnfinished(SectionEnded(r), k - 1)
  }

  /** One cycle: the test case's tracker is acquired, the body runs, the tracker is closed. */
  function Cycle(r: Runner, testCase: Section): Runner {
    var p := [testCase.id];
    var b := Acquire(r.board.(current := [], completedCycle := false), testCase.id);
    var (r2, _) := RunBody(r.(board := b, entered := p), testCase, 0, 1);
    var r3 := if p <= r2.board.current then r2.(board := Close(r2.board, p)) else Broken(r2);
    HandleUnfinished(r3, r3.unfinished)
  }
}
