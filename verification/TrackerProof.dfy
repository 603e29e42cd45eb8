/** What a cycle does to the visits that are still due. */
module TrackerProof {
  import opened SectionTree
  import opened TrackerSpec

  // ---------- The state of a tracker tree between two cycles ----------

  ghost predicate Fresh(n: Nodes, p: Path) {
    && (p in n ==> n[p] == Node(NotStarted, []))
    && forall q | q in n :: !(p < q)
  }

  ghost predicate Linked(n: Nodes, p: Path) {
    forall l :: l in ChildrenOf(n, p) <==> p + [l] in n
  }

  /** The visits still due below a section, given which trackers are complete. */
  ghost function Due(n: Nodes, p: Path, body: seq<Section>): seq<Visit>
    decreases body, |body| + 1
  {
    DueFrom(n, p, body, 0) + Alone(body)
  }

  ghost function DueFrom(n: Nodes, p: Path, body: seq<Section>, i: nat): seq<Visit>
    requires i <= |body|
    decreases body, |body| - i
  {
    if i == |body| then [] else Remaining(n, p + [body[i].id], body[i]) + DueFrom(n, p, body, i + 1)
  }

  ghost function Remaining(n: Nodes, p: Path, s: Section): seq<Visit>
    decreases s
  {
    if IsComplete(n, p) then [] else Under(s.id, Cut(s, Due(n, p, s.body)))
  }

  /** Subsections are complete up to some point, one may be under way, and the rest is untouched. */
  ghost predicate InOrder(n: Nodes, p: Path, body: seq<Section>, i: nat)
    requires i <= |body|
    decreases body, |body| - i
  {
    i == |body| ||
    if IsComplete(n, p + [body[i].id]) then InOrder(n, p, body, i + 1)
    else
      && Inv(n, p + [body[i].id], body[i]) && FreshFrom(n, p, body, i + 1)
      && IsTail(Remaining(n, p + [body[i].id], body[i]), Visits(body[i]))
  }

  /** The visits left over of a schedule. */
  ghost predicate IsTail(left: seq<Visit>, all: seq<Visit>) {
    |left| <= |all| && left == all[|all| - |left|..]
  }

  ghost predicate FreshFrom(n: Nodes, p: Path, body: seq<Section>, i: nat) {
    forall j | i <= j < |body| :: Fresh(n, p + [body[j].id])
  }

  ghost predicate Holds(n: Nodes, p: Path, body: seq<Section>)
    decreases body, |body| + 1
  {
    Linked(n, p) && ChildrenOf(n, p) <= Ids(body) && InOrder(n, p, body, 0)
  }

  ghost predicate UnderWay(n: Nodes, p: Path, s: Section)
    decreases s, 0
  {
    && (StateOf(n, p) == ExecutingChildren || StateOf(n, p) == NeedsAnotherRun)
    && Holds(n, p, s.body)
    && Due(n, p, s.body) != []
  }

  ghost predicate Inv(n: Nodes, p: Path, s: Section)
    decreases s, 1
  {
    IsComplete(n, p) || Fresh(n, p) || UnderWay(n, p, s)
  }

  lemma WholeIsTail(all: seq<Visit>)
    ensures IsTail(all, all)
  {
    assert all[0..] == all;
  }

  // ---------- Frames: the predicates depend on the trackers below only ----------

  ghost predicate SameAt(n: Nodes, n': Nodes, x: Path) {
    (x in n <==> x in n') && (x in n ==> n[x] == n'[x])
  }

  ghost predicate SameBelow(n: Nodes, n': Nodes, p: Path) {
    forall x | p < x :: SameAt(n, n', x)
  }

  lemma SameBelowChild(n: Nodes, n': Nodes, p: Path, l: NameAndLocation)
    requires SameBelow(n, n', p)
    ensures SameAt(n, n', p + [l]) && SameBelow(n, n', p + [l])
  {
    assert p < p + [l];
    forall x | p + [l] < x ensures SameAt(n, n', x) {
      assert forall k | 0 <= k < |p| :: p[k] == (p + [l])[k] == x[k];
    }
  }

  lemma LinkedFrame(n: Nodes, n': Nodes, p: Path)
    requires SameBelow(n, n', p) && ChildrenOf(n, p) == ChildrenOf(n', p)
    ensures Linked(n, p) == Linked(n', p)
  {
    forall l ensures p + [l] in n <==> p + [l] in n' { SameBelowChild(n, n', p, l); }
  }

  lemma {:induction false} RemainingFrame(n: Nodes, n': Nodes, p: Path, s: Section)
    requires SameAt(n, n', p) && SameBelow(n, n', p)
    ensures Remaining(n, p, s) == Remaining(n', p, s)
    ensures Inv(n, p, s) == Inv(n', p, s)
    decreases s
  {
    DueFrame(n, n', p, s.body, 0);
    assert Fresh(n, p) == Fresh(n', p) by {
      forall q | p < q ensures q in n <==> q in n' { assert SameAt(n, n', q); }
    }
    LinkedFrame(n, n', p);
    assert Holds(n, p, s.body) == Holds(n', p, s.body);
  }

  lemma {:induction false} DueFrame(n: Nodes, n': Nodes, p: Path, body: seq<Section>, i: nat)
    requires i <= |body| && SameBelow(n, n', p)
    ensures DueFrom(n, p, body, i) == DueFrom(n', p, body, i)
    ensures InOrder(n, p, body, i) == InOrder(n', p, body, i)
    decreases body, |body| - i
  {
    if i < |body| {
      var q := p + [body[i].id];
      SameBelowChild(n, n', p, body[i].id);
      RemainingFrame(n, n', q, body[i]);
      DueFrame(n, n', p, body, i + 1);
      FreshFrame(n, n', p, body, i + 1);
    }
  }

  lemma FreshFrame(n: Nodes, n': Nodes, p: Path, body: seq<Section>, i: nat)
    requires SameBelow(n, n', p)
    ensures FreshFrom(n, p, body, i) == FreshFrom(n', p, body, i)
  {
    forall j | i <= j < |body| ensures Fresh(n, p + [body[j].id]) == Fresh(n', p + [body[j].id]) {
      var q := p + [body[j].id];
      SameBelowChild(n, n', p, body[j].id);
      forall x | q < x ensures x in n <==> x in n' { assert SameAt(n, n', x); }
    }
  }

  // ---------- Untouched trackers owe every visit; incomplete trackers owe at least one ----------

  lemma {:induction false} FreshRemaining(n: Nodes, p: Path, s: Section)
    requires Fresh(n, p)
    ensures Remaining(n, p, s) == Visits(s)
    decreases s
  {
    FreshBelow(n, p, s.body);
    FreshDue(n, p, s.body, 0);
  }

  lemma FreshBelow(n: Nodes, p: Path, body: seq<Section>)
    requires forall q | q in n :: !(p < q)
    ensures FreshFrom(n, p, body, 0)
  {
    forall j | 0 <= j < |body| ensures Fresh(n, p + [body[j].id]) {
      assert p < p + [body[j].id];
    }
  }

  lemma {:induction false} FreshDue(n: Nodes, p: Path, body: seq<Section>, i: nat)
    requires i <= |body| && FreshFrom(n, p, body, i)
    ensures DueFrom(n, p, body, i) == VisitsFrom(body, i)
    ensures InOrder(n, p, body, i)
    decreases body, |body| - i
  {
    if i < |body| {
      assert Fresh(n, p + [body[i].id]);
      FreshRemaining(n, p + [body[i].id], body[i]);
      WholeIsTail(Visits(body[i]));
      FreshDue(n, p, body, i + 1);
      assert FreshFrom(n, p, body, i + 1) && !IsComplete(n, p + [body[i].id]);
    }
  }

  lemma {:induction false} SomethingRemains(n: Nodes, p: Path, s: Section)
    requires Inv(n, p, s) && !IsComplete(n, p)
    ensures Remaining(n, p, s) != []
    decreases s
  {
    if Fresh(n, p) && s.body != [] {
      FreshBelow(n, p, s.body);
      var q := p + [s.body[0].id];
      assert Fresh(n, q);
      SomethingRemains(n, q, s.body[0]);
      assert DueFrom(n, p, s.body, 0) == Remaining(n, q, s.body[0]) + DueFrom(n, p, s.body, 1);
    }
    if s.body == [] { assert Alone(s.body) == [Visit([], false)]; }
    assert Due(n, p, s.body) != [];
  }

  // ---------- Acquiring a section ----------

  /** Opening a child marks at most its parent: whatever is above already runs its children. */
  ghost predicate Stem(n: Nodes, p: Path) {
    StateOf(n, p) == ExecutingChildren || p == [] || StateOf(n, Parent(p)) == ExecutingChildren
  }

  function Joined(ls: seq<NameAndLocation>, l: NameAndLocation): seq<NameAndLocation> {
    if l in ls then ls else ls + [l]
  }

  ghost predicate Running(r: Runner) {
    !r.board.completedCycle && !r.board.illogical && r.unfinished == 0 && r.board.current in r.board.nodes
  }

  lemma OpenEffect(b: Board, p: Path, l: NameAndLocation)
    requires Stem(b.nodes, p)
    ensures var q := p + [l]; var n' := Open(b, q).nodes;
            && q in n' && n'[q] == Node(Executing, ChildrenOf(b.nodes, q))
            && p in n' && n'[p] == Node(ExecutingChildren, ChildrenOf(b.nodes, p))
            && forall x | x != p && x != q :: SameAt(b.nodes, n', x)
  {
    var q, n1 := p + [l], WithState(b.nodes, p + [l], Executing);
    assert Parent(q) == p && p != q;
    assert StateOf(n1, p) == StateOf(b.nodes, p);
    if StateOf(n1, p) != ExecutingChildren {
      var n2 := WithState(n1, p, ExecutingChildren);
      if p != [] {
        assert |Parent(p)| < |p| < |q|;
        assert StateOf(n2, Parent(p)) == ExecutingChildren;
      }
      assert OpenChild(n1, p) == n2;
    }
  }

  lemma AcquireOpens(b: Board, l: NameAndLocation)
    requires !b.completedCycle && Stem(b.nodes, b.current) && Linked(b.nodes, b.current)
    requires !IsComplete(b.nodes, b.current + [l])
    ensures var p := b.current; var q := p + [l]; var b' := Acquire(b, l); var n' := b'.nodes;
            && b' == b.(nodes := n', current := q)
            && q in n' && n'[q] == Node(Executing, ChildrenOf(b.nodes, q))
            && p in n' && n'[p] == Node(ExecutingChildren, Joined(ChildrenOf(b.nodes, p), l))
            && forall x | x != p && x != q :: SameAt(b.nodes, n', x)
  {
    var p := b.current;
    assert p != p + [l];
    var b1 := if l in ChildrenOf(b.nodes, p) then b else b.(nodes := AddChild(b.nodes, p, l));
    assert p != [] ==> |Parent(p)| < |p| < |p + [l]|;
    assert Stem(b1.nodes, p);
    OpenEffect(b1, p, l);
    assert l in ChildrenOf(b.nodes, p) <==> p + [l] in b.nodes;
    assert !IsComplete(b1.nodes, p + [l]);
    assert Acquire(b, l) == Open(b1, p + [l]);
    forall x | x != p && x != p + [l] ensures SameAt(b.nodes, Acquire(b, l).nodes, x) {
      assert SameAt(b1.nodes, Acquire(b, l).nodes, x);
    }
  }

  lemma CompleteIsSkipped(r: Runner, s: Section)
    requires Linked(r.board.nodes, r.board.current) && IsComplete(r.board.nodes, r.board.current + [s.id])
    ensures RunSection(r, s) == (r, false)
  {
  }

  // ---------- Once the cycle is over, the sections left are only noted ----------

  /** From n to n', the subsections from i on were at most noted as untouched, and nothing else changed. */
  ghost predicate NotedFrom(n: Nodes, n': Nodes, p: Path, body: seq<Section>, i: nat) {
    && Linked(n', p) && FreshFrom(n', p, body, i)
    && (forall x | !(p <= x) :: SameAt(n, n', x))
    && (forall j, x | 0 <= j < i <= |body| && p + [body[j].id] <= x :: SameAt(n, n', x))
  }

  /** The subsections from i on are noted up to where the section throws, if it does. */
  lemma {:induction false} LateBody(r: Runner, s: Section, i: nat, depth: nat)
    requires i <= |s.body| && DistinctIds(s.body)
    requires var n := r.board.nodes; var p := r.board.current;
             && r.board.completedCycle && p in n && Linked(n, p)
             && i <= |n[p].children| && n[p].children <= Ids(s.body) && FreshFrom(n, p, s.body, i)
    ensures var n := r.board.nodes; var p := r.board.current; var path := Since(r.entered, depth);
            var (r', thrown) := RunBody(r, s, i, depth); var n' := r'.board.nodes;
            && (thrown <==> exists k: nat | i <= k <= |s.body| :: s.throws(k, path))
            && r' == r.(board := r.board.(nodes := n'))
            && p in n' && n'[p].state == n[p].state && n'[p].children <= Ids(s.body)
            && |n'[p].children| == Max(|n[p].children|, FirstThrow(s, path, i))
            && NotedFrom(n, n', p, s.body, i)
    decreases |s.body| - i
  {
    var n := r.board.nodes;
    var p := r.board.current;
    if i < |s.body| && !s.throws(i, Since(r.entered, depth)) {
      var l := s.body[i].id;
      assert Fresh(n, p + [l]);
      NotedSection(r.board, l);
      var r1 := SectionStarted(r, l).0;
      var n1 := r1.board.nodes;
      JoinedIds(n[p].children, s.body, i);
      forall j | i <= j < |s.body| ensures Fresh(n1, p + [s.body[j].id]) {
        assert Fresh(n, p + [s.body[j].id]);
        FreshKept(n, n1, p, l, s.body[j].id);
      }
      LateBody(r1, s, i + 1, depth);
      NotedStep(n, n1, RunBody(r1, s, i + 1, depth).0.board.nodes, p, s.body, i);
    }
  }

  lemma JoinedIds(ls: seq<NameAndLocation>, body: seq<Section>, i: nat)
    requires i < |body| && i <= |ls| && ls <= Ids(body) && DistinctIds(body)
    ensures var ls' := Joined(ls, body[i].id); ls' <= Ids(body) && |ls'| == Max(|ls|, i + 1)
  {
    assert Ids(body)[i] == body[i].id;
    if i < |ls| {
      assert ls[i] == Ids(body)[i];
    }
  }

  lemma NotedStep(n: Nodes, n1: Nodes, n': Nodes, p: Path, body: seq<Section>, i: nat)
    requires i < |body| && DistinctIds(body) && SameBelowNew(n, n1, p, body[i].id)
    requires NotedFrom(n1, n', p, body, i + 1) && Fresh(n1, p + [body[i].id])
    ensures NotedFrom(n, n', p, body, i)
  {
    var q := p + [body[i].id];
    assert SameAt(n1, n', q);
    forall x | x in n' ensures !(q < x) { assert q < x ==> SameAt(n1, n', x); }
    assert Fresh(n', q);
    forall x | !(p <= x) ensures SameAt(n, n', x) {
      assert p <= q;
      assert SameAt(n, n1, x);
      assert SameAt(n1, n', x);
    }
    forall j, x | 0 <= j < i && p + [body[j].id] <= x ensures SameAt(n, n', x) {
      assert x[|p|] == body[j].id && q[|p|] == body[i].id;
      assert SameAt(n, n1, x);
      assert SameAt(n1, n', x);
    }
  }

  /** From n to n1, tracker p at most gains an untouched child l. */
  ghost predicate SameBelowNew(n: Nodes, n1: Nodes, p: Path, l: NameAndLocation) {
    && p in n && p in n1 && n1[p] == Node(n[p].state, Joined(n[p].children, l))
    && (forall x | x != p && x != p + [l] :: SameAt(n, n1, x))
    && p + [l] in n1 && n1[p + [l]] == Node(NotStarted, [])
    && Linked(n1, p)
  }

  lemma NotedSection(b: Board, l: NameAndLocation)
    requires b.completedCycle && b.current in b.nodes && Linked(b.nodes, b.current) && Fresh(b.nodes, b.current + [l])
    ensures var b1 := Acquire(b, l);
            b1 == b.(nodes := b1.nodes) && SameBelowNew(b.nodes, b1.nodes, b.current, l)
  {
    var p, n, n1 := b.current, b.nodes, Acquire(b, l).nodes;
    assert p != p + [l];
    forall k ensures k in ChildrenOf(n1, p) <==> p + [k] in n1 {
      assert k in ChildrenOf(n, p) <==> p + [k] in n;
      assert (p + [k])[|p|] == k && (p + [l])[|p|] == l;
    }
  }

  lemma FreshKept(n: Nodes, n1: Nodes, p: Path, l: NameAndLocation, k: NameAndLocation)
    requires SameBelowNew(n, n1, p, l) && Fresh(n, p + [k])
    ensures Fresh(n1, p + [k])
  {
    assert (p + [k])[|p|] == k && (p + [l])[|p|] == l;
    if k != l { assert SameAt(n, n1, p + [k]); }
    forall x | x in n1 ensures !(p + [k] < x) {
      assert p + [k] < x ==> SameAt(n, n1, x);
    }
  }

  // ---------- One cycle makes the first visit that is due ----------

  /** Section s was entered from tracker p, and made the first of its remaining visits. */
  ghost predicate SectionVisited(r: Runner, r': Runner, thrown: bool, s: Section) {
    var p := r.board.current; var q := p + [s.id];
    var n := r.board.nodes; var n' := r'.board.nodes;
    var due := Remaining(n, q, s);
    && due != [] && thrown == due[0].thrown && r'.entered == r.entered + due[0].path
    && Remaining(n', q, s) == due[1..] && Inv(n', q, s) 
    && Ended(r, r', thrown) && q in n' && p in n'
    && n'[p] == Node(if IsComplete(n', q) && thrown then NeedsAnotherRun else ExecutingChildren,
                     Joined(ChildrenOf(n, p), s.id))
    && forall x | !(q <= x) && x != p :: SameAt(n, n', x)
  }

  ghost predicate Ended(r: Runner, r': Runner, thrown: bool) {
    && r'.active == r.active && r'.board.current == r.board.current
    && r'.board.completedCycle && !r'.board.illogical && (r'.unfinished == 0 <==> !thrown)
  }

  ghost predicate AllComplete(n: Nodes, p: Path, body: seq<Section>, i: nat) {
    forall j | 0 <= j < i <= |body| :: IsComplete(n, p + [body[j].id])
  }

  /** The state of tracker p while the subsections before i of its body are behind it. */
  ghost predicate Scanning(n: Nodes, p: Path, body: seq<Section>, i: nat) {
    && i <= |body| && p in n && Linked(n, p) && n[p].children <= Ids(body)
    && InOrder(n, p, body, i) && AllComplete(n, p, body, i)
  }

  /**
   * The body of s was left behind by a cycle that made visit v to one of its subsections; as many of them
   * as the cycle reached, or one before it, are noted.
   */
  ghost predicate Parted(n: Nodes, p: Path, s: Section, v: Visit, noted: nat) {
    var j := Position(s.body, v.path);
    && 0 <= j && AllComplete(n, p, s.body, j) && FreshFrom(n, p, s.body, j + 1)
    && var q := p + [s.body[j].id];
       && Inv(n, q, s.body[j]) && (IsComplete(n, q) ==> v.thrown == Fails(s.body[j]))
       && p in n && n[p].children <= Ids(s.body) && |n[p].children| == Max(noted, Reached(s, v))
       && n[p].state == if v.thrown && IsComplete(n, q) then NeedsAnotherRun else ExecutingChildren
  }

  /** The section throws at a point from i on before it gets to the visit that is due next. */
  ghost predicate ThrowsFirst(s: Section, due: seq<Visit>, i: nat) {
    exists k: nat | i <= k <= (if due == [] then |s.body| else Position(s.body, due[0].path)) :: s.throws(k, [])
  }

  /** The body was run from where i subsections are behind, and made the first visit due in it, if it got to it. */
  ghost predicate BodyVisited(r: Runner, r': Runner, thrown: bool, s: Section, i: nat)
    requires i <= |s.body|
  {
    var p := r.board.current; var n := r.board.nodes; var n' := r'.board.nodes;
    var due := DueFrom(n, p, s.body, i);
    if ThrowsFirst(s, due, i) then r' == r && thrown
    else if due == [] then r' == r && !thrown
    else
      var v := due[0];
      && thrown == (v.thrown || Late(s, v.path)) && r'.entered == r.entered + v.path
      && DueFrom(n', p, s.body, i) == due[1..] && Scanning(n', p, s.body, i) && Ended(r, r', v.thrown)
      && Parted(n', p, s, v, |ChildrenOf(n, p)|) && forall x | !(p <= x) :: SameAt(n, n', x)
  }

  lemma SiblingsFresh(n: Nodes, n': Nodes, p: Path, body: seq<Section>, i: nat)
    requires i < |body| && DistinctIds(body)
    requires forall x | !(p + [body[i].id] <= x) && x != p :: SameAt(n, n', x)
    ensures AllComplete(n, p, body, i) ==> AllComplete(n', p, body, i)
    ensures FreshFrom(n, p, body, i + 1) ==> FreshFrom(n', p, body, i + 1)
  {
    var q := p + [body[i].id];
    forall j, x | 0 <= j < |body| && j != i && p + [body[j].id] <= x ensures SameAt(n, n', x) {
      assert x[|p|] == body[j].id && q[|p|] == body[i].id;
    }
    forall j | 0 <= j < i ensures SameAt(n, n', p + [body[j].id]) {}
    if FreshFrom(n, p, body, i + 1) {
      forall j | i + 1 <= j < |body| ensures Fresh(n', p + [body[j].id]) {
        var k := p + [body[j].id];
        assert Fresh(n, k) && SameAt(n, n', k);
        forall x | x in n' ensures !(k < x) { assert k < x ==> SameAt(n, n', x); }
      }
    }
  }

  lemma VisitsFromNonempty(body: seq<Section>, i: nat)
    requires i < |body|
    ensures VisitsFrom(body, i) != []
  {
    FreshRemaining(map[], [], body[i]);
    SomethingRemains(map[], [], body[i]);
  }

  /** The trackers before subsection i are complete, subsection i was visited, those after it are untouched. */
  lemma KidVisited(r: Runner, r1: Runner, thrown: bool, body: seq<Section>, i: nat)
    requires i < |body| && DistinctIds(body)
    requires Scanning(r.board.nodes, r.board.current, body, i) && SectionVisited(r, r1, thrown, body[i])
    ensures var p := r.board.current; var n1 := r1.board.nodes; var q := p + [body[i].id];
            && Scanning(n1, p, body, i) && |n1[p].children| == Max(|ChildrenOf(r.board.nodes, p)|, i + 1)
            && FreshFrom(n1, p, body, i + 1)
            && DueFrom(r.board.nodes, p, body, i) == Remaining(r.board.nodes, q, body[i]) + VisitsFrom(body, i + 1)
            && DueFrom(n1, p, body, i) == Remaining(n1, q, body[i]) + VisitsFrom(body, i + 1)
            && (forall x | !(p <= x) :: SameAt(r.board.nodes, n1, x))
            && (IsComplete(n1, q) ==> thrown == Fails(body[i]))
  {
    var p, n, n1 := r.board.current, r.board.nodes, r1.board.nodes;
    var l := body[i].id;
    TailDropsFirst(Remaining(n, p + [l], body[i]), Visits(body[i]));
    assert !IsComplete(n, p + [l]);
    assert FreshFrom(n, p, body, i + 1);
    SiblingsFresh(n, n1, p, body, i);
    FreshDue(n, p, body, i + 1);
    FreshDue(n1, p, body, i + 1);
    AcquiredSoFar(n, p, body, i);
    JoinedIds(n[p].children, body, i);
    InOrderFrom(n1, p, body, i);
    forall k ensures k in n1[p].children <==> p + [k] in n1 {
      assert (p + [k])[|p|] == k;
      if k != l { assert SameAt(n, n1, p + [k]); }
    }
    forall x | !(p <= x) ensures SameAt(n, n1, x) { assert p <= p + [l]; }
  }

  lemma TailDropsFirst(left: seq<Visit>, all: seq<Visit>)
    requires IsTail(left, all) && left != []
    ensures IsTail(left[1..], all) && (|left| == 1 ==> all != [] && left[0] == all[|all| - 1])
  {
  }

  lemma AcquiredSoFar(n: Nodes, p: Path, body: seq<Section>, i: nat)
    requires i <= |body| && DistinctIds(body) && p in n && Linked(n, p) && n[p].children <= Ids(body)
    requires AllComplete(n, p, body, i)
    ensures i <= |n[p].children|
  {
    if i > 0 {
      assert IsComplete(n, p + [body[i - 1].id]);
      assert body[i - 1].id in n[p].children;
      var k :| 0 <= k < |n[p].children| && n[p].children[k] == body[i - 1].id;
      assert Ids(body)[k] == body[k].id;
    }
  }

  /** With everything before i complete, the order from i on is the order from the start. */
  lemma {:induction false} InOrderFrom(n: Nodes, p: Path, body: seq<Section>, i: nat)
    requires i <= |body| && AllComplete(n, p, body, i)
    ensures InOrder(n, p, body, 0) == InOrder(n, p, body, i)
    ensures DueFrom(n, p, body, 0) == DueFrom(n, p, body, i)
  {
    if i > 0 {
      InOrderFrom(n, p, body, i - 1);
      assert IsComplete(n, p + [body[i - 1].id]);
    }
  }

  lemma DropFirst(a: seq<Visit>, b: seq<Visit>, c: seq<Visit>)
    requires a != []
    ensures (a + b)[0] == a[0] && (a + b)[1..] == a[1..] + b && (a + b)[1..] + c == a[1..] + b + c
  {
  }

  lemma KidThrew(r: Runner, r1: Runner, s: Section, i: nat)
    requires i < |s.body| && DistinctIds(s.body) && !s.throws(i, [])
    requires Scanning(r.board.nodes, r.board.current, s.body, i) && SectionVisited(r, r1, true, s.body[i])
    ensures BodyVisited(r, r1, true, s, i)
  {
    var p := r.board.current;
    var rem := Remaining(r.board.nodes, p + [s.body[i].id], s.body[i]);
    KidVisited(r, r1, true, s.body, i);
    DropFirst(rem, VisitsFrom(s.body, i + 1), []);
    PositionAt(s.body, i, rem[0].path);
  }

  lemma KidReturned(r: Runner, r1: Runner, r2: Runner, thrown: bool, s: Section, i: nat)
    requires i < |s.body| && DistinctIds(s.body) && !s.throws(i, [])
    requires Scanning(r.board.nodes, r.board.current, s.body, i) && SectionVisited(r, r1, false, s.body[i])
    requires NotedUpTo(r, r1, r2, thrown, s, i)
    ensures BodyVisited(r, r2, thrown, s, i)
  {
    var p, n2 := r.board.current, r2.board.nodes;
    var rem := Remaining(r.board.nodes, p + [s.body[i].id], s.body[i]);
    KidVisited(r, r1, false, s.body, i);
    KidNoted(r1.board.nodes, n2, p, s.body, i);
    DropFirst(rem, VisitsFrom(s.body, i + 1), []);
    PositionAt(s.body, i, rem[0].path);
    assert Since(r1.entered, |r.entered|) == rem[0].path;
    KidParted(r, r1, r2, thrown, s, i);
    var due := DueFrom(r.board.nodes, p, s.body, i);
    assert due != [] && due[0] == rem[0] && !rem[0].thrown && DueFrom(n2, p, s.body, i) == due[1..];
    forall x | !(p <= x) ensures SameAt(r.board.nodes, n2, x) {
      assert SameAt(r.board.nodes, r1.board.nodes, x) && SameAt(r1.board.nodes, n2, x);
    }
    NotAhead(s, due, i);
    hide Remaining, Fresh, Inv, Parted, FreshFrom, DueFrom, Scanning, ThrowsFirst, Late, Position, DistinctIds;
    hide NotedFrom;
    assert r2.entered == r.entered + rem[0].path && Ended(r, r2, false);
  }

  lemma NotAhead(s: Section, due: seq<Visit>, i: nat)
    requires due != [] && Position(s.body, due[0].path) == i && !s.throws(i, [])
    ensures !ThrowsFirst(s, due, i)
    ensures Late(s, due[0].path) <==> exists k: nat | i + 1 <= k <= |s.body| :: s.throws(k, due[0].path)
  {
  }

  lemma KidParted(r: Runner, r1: Runner, r2: Runner, thrown: bool, s: Section, i: nat)
    requires i < |s.body| && DistinctIds(s.body)
    requires Scanning(r.board.nodes, r.board.current, s.body, i) && SectionVisited(r, r1, false, s.body[i])
    requires NotedUpTo(r, r1, r2, thrown, s, i)
    ensures var p := r.board.current; var rem := Remaining(r.board.nodes, p + [s.body[i].id], s.body[i]);
            rem != [] && Parted(r2.board.nodes, p, s, rem[0], |ChildrenOf(r.board.nodes, p)|)
  {
    var p, n2 := r.board.current, r2.board.nodes;
    var rem := Remaining(r.board.nodes, p + [s.body[i].id], s.body[i]);
    KidVisited(r, r1, false, s.body, i);
    KidNoted(r1.board.nodes, n2, p, s.body, i);
    PositionAt(s.body, i, rem[0].path);
    assert Since(r1.entered, |r.entered|) == rem[0].path;
    assert FreshFrom(n2, p, s.body, i + 1) && AllComplete(n2, p, s.body, i);
    assert Reached(s, rem[0]) == FirstThrow(s, rem[0].path, i + 1);
    hide Remaining, Fresh, Linked, Fails, InOrder, DueFrom, Inv, NotedFrom, FreshFrom, AllComplete, Scanning, Position;
    hide Reached, FirstThrow;
  }

  /** With subsection i behind, the next ones were noted up to where the section throws, if it does. */
  ghost predicate NotedUpTo(r: Runner, r1: Runner, r2: Runner, thrown: bool, s: Section, i: nat) {
    var p := r.board.current; var n1 := r1.board.nodes; var n2 := r2.board.nodes;
    var path := Since(r1.entered, |r.entered|);
    && i < |s.body| && r2 == r1.(board := r1.board.(nodes := n2))
    && (thrown <==> exists k: nat | i + 1 <= k <= |s.body| :: s.throws(k, path))
    && p in n1 && p in n2 && n2[p].state == n1[p].state && n2[p].children <= Ids(s.body)
    && |n2[p].children| == Max(|n1[p].children|, FirstThrow(s, path, i + 1))
    && NotedFrom(n1, n2, p, s.body, i + 1)
  }

  lemma {:induction false} KidNoted(n1: Nodes, n2: Nodes, p: Path, body: seq<Section>, i: nat)
    requires i < |body| && DistinctIds(body)
    requires Scanning(n1, p, body, i) && FreshFrom(n1, p, body, i + 1) && NotedFrom(n1, n2, p, body, i + 1)
    requires Inv(n1, p + [body[i].id], body[i])
    requires p in n2 && n2[p].children <= Ids(body)
    ensures var q := p + [body[i].id];
            && Scanning(n2, p, body, i) && Inv(n2, q, body[i]) && IsComplete(n2, q) == IsComplete(n1, q)
            && Remaining(n2, q, body[i]) == Remaining(n1, q, body[i])
            && DueFrom(n2, p, body, i) == Remaining(n2, q, body[i]) + VisitsFrom(body, i + 1)
  {
    var q := p + [body[i].id];
    assert SameAt(n1, n2, q) && SameBelow(n1, n2, q);
    RemainingFrame(n1, n2, q, body[i]);
    FreshDue(n2, p, body, i + 1);
    forall j | 0 <= j < i ensures IsComplete(n2, p + [body[j].id]) {
      assert IsComplete(n1, p + [body[j].id]) && SameAt(n1, n2, p + [body[j].id]);
    }
    InOrderFrom(n2, p, body, i);
    hide Fresh, UnderWay, Visits, Under, Cut;
  }

  lemma SkipsComplete(n: Nodes, p: Path, body: seq<Section>, i: nat)
    requires i < |body| && IsComplete(n, p + [body[i].id])
    ensures DueFrom(n, p, body, i) == DueFrom(n, p, body, i + 1)
  {
    assert Remaining(n, p + [body[i].id], body[i]) == [];
  }

  lemma {:induction false} KidSkipped(r: Runner, r': Runner, thrown: bool, s: Section, i: nat)
    requires i < |s.body| && IsComplete(r.board.nodes, r.board.current + [s.body[i].id]) && !s.throws(i, [])
    requires BodyVisited(r, r', thrown, s, i + 1)
    ensures BodyVisited(r, r', thrown, s, i)
  {
    var p := r.board.current;
    var due := DueFrom(r.board.nodes, p, s.body, i);
    SkipsComplete(r.board.nodes, p, s.body, i);
    assert ThrowsFirst(s, due, i) <==> ThrowsFirst(s, due, i + 1);
    hide ThrowsFirst, Late, Parted, DueFrom, Remaining;
    if !ThrowsFirst(s, due, i) && due != [] {
      assert IsComplete(r'.board.nodes, p + [s.body[i].id]);
      SkipsComplete(r'.board.nodes, p, s.body, i);
    }
  }

  /** A visit that is due at subsection i or after it is to one of those. */
  lemma {:induction false} DuePosition(n: Nodes, p: Path, body: seq<Section>, i: nat)
    requires i <= |body| && DistinctIds(body) && DueFrom(n, p, body, i) != []
    ensures i <= Position(body, DueFrom(n, p, body, i)[0].path)
    decreases |body| - i
  {
    var rem := Remaining(n, p + [body[i].id], body[i]);
    if rem == [] {
      DuePosition(n, p, body, i + 1);
    } else {
      DropFirst(rem, DueFrom(n, p, body, i + 1), []);
      PositionAt(body, i, rem[0].path);
    }
  }

  lemma BehindKid(r: Runner, r1: Runner, s: Section, i: nat)
    requires i < |s.body| && DistinctIds(s.body) && !s.throws(i, [])
    requires Scanning(r.board.nodes, r.board.current, s.body, i) && SectionVisited(r, r1, false, s.body[i])
    ensures var (r2, thrown) := RunBody(r1, s, i + 1, |r.entered|); BodyVisited(r, r2, thrown, s, i)
  {
    KidVisited(r, r1, false, s.body, i);
    LateBody(r1, s, i + 1, |r.entered|);
    var (r2, thrown) := RunBody(r1, s, i + 1, |r.entered|);
    KidReturned(r, r1, r2, thrown, s, i);
  }

  lemma BodyReturns(r: Runner, s: Section)
    requires !s.throws(|s.body|, [])
    ensures BodyVisited(r, r, false, s, |s.body|)
  {
  }

  lemma BodyThrows(r: Runner, s: Section, i: nat)
    requires i <= |s.body| && DistinctIds(s.body) && s.throws(i, [])
    ensures BodyVisited(r, r, true, s, i)
  {
    var due := DueFrom(r.board.nodes, r.board.current, s.body, i);
    if due != [] { DuePosition(r.board.nodes, r.board.current, s.body, i); }
    assert ThrowsFirst(s, due, i);
  }

  /** Running the body from where i subsections are behind makes the first visit due in it. */
  lemma {:induction false} BodyVisit(r: Runner, s: Section, i: nat)
    requires Running(r) && WellNamed(s)
    requires Stem(r.board.nodes, r.board.current) && Scanning(r.board.nodes, r.board.current, s.body, i)
    ensures var (r', thrown) := RunBody(r, s, i, |r.entered|); BodyVisited(r, r', thrown, s, i)
    decreases s, |s.body| - i
  {
    hide BodyVisited, SectionVisited, Fresh, Inv;
    assert Since(r.entered, |r.entered|) == [];
    if s.throws(i, []) {
      BodyThrows(r, s, i);
    } else if i < |s.body| {
      var p, n := r.board.current, r.board.nodes;
      if IsComplete(n, p + [s.body[i].id]) {
        CompleteIsSkipped(r, s.body[i]);
        BodyVisit(r, s, i + 1);
        var (r', thrown) := RunBody(r, s, i + 1, |r.entered|);
        KidSkipped(r, r', thrown, s, i);
      } else {
        SectionVisit(r, s.body[i]);
        var (r1, thrown) := RunSection(r, s.body[i]);
        if thrown { KidThrew(r, r1, s, i); } else { BehindKid(r, r1, s, i); }
      }
    } else {
      BodyReturns(r, s);
    }
  }

  /** Running a section that is not complete makes its first remaining visit. */
  lemma {:induction false} SectionVisit(r: Runner, s: Section)
    requires Running(r) && WellNamed(s)
    requires Stem(r.board.nodes, r.board.current) && Linked(r.board.nodes, r.board.current)
    requires Inv(r.board.nodes, r.board.current + [s.id], s) && !IsComplete(r.board.nodes, r.board.current + [s.id])
    ensures var (r', thrown) := RunSection(r, s); SectionVisited(r, r', thrown, s)
    decreases s, |s.body| + 1
  {
    var r1 := SectionStarted(r, s.id).0;
    Opened(r, r.board.current, s);
    BodyVisit(r1, s, 0);
    var (r2, thrown) := RunBody(r1, s, 0, |r1.entered|);
    var due := DueFrom(r1.board.nodes, r.board.current + [s.id], s.body, 0);
    if ThrowsFirst(s, due, 0) {
      LeftAtOnce(r, r1, s);
    } else if due == [] {
      LeftAlone(r, r1, s);
    } else if due[0].thrown {
      LeftByInner(r, r1, r2, s);
    } else if thrown {
      LeftByThrowing(r, r1, r2, s);
    } else {
      LeftNormally(r, r1, r2, s);
    }
  }

  ghost predicate SectionOpened(r: Runner, r1: Runner, s: Section) {
    var p := r.board.current; var q := p + [s.id]; var n := r.board.nodes; var n1 := r1.board.nodes;
    && r1 == r.(board := r1.board, active := r1.active, entered := r.entered + [s.id])
    && r1.board == r.board.(nodes := n1, current := q)
    && Running(r1) && Stem(n1, q) && Scanning(n1, q, s.body, 0) && StateOf(n1, q) == Executing
    && Due(n1, q, s.body) == Due(n, q, s.body) != [] && !IsComplete(n, q)
    && p in n1 && n1[p] == Node(ExecutingChildren, Joined(ChildrenOf(n, p), s.id))
    && forall x | x != p && x != q :: SameAt(n, n1, x)
  }

  lemma Opened(r: Runner, p: Path, s: Section)
    requires Running(r) && p == r.board.current && Stem(r.board.nodes, p) && Linked(r.board.nodes, p)
    requires Inv(r.board.nodes, p + [s.id], s) && !IsComplete(r.board.nodes, p + [s.id])
    ensures forall a :: SectionOpened(r, Runner(Acquire(r.board, s.id), a, 0, r.entered + [s.id]), s)
    ensures IsOpen(Acquire(r.board, s.id).nodes, p + [s.id])
  {
    AcquireOpens(r.board, s.id);
    var q, n, n1 := p + [s.id], r.board.nodes, Acquire(r.board, s.id).nodes;
    assert Parent(q) == p;
    forall x | q < x ensures SameAt(n, n1, x) { assert p < q; }
    ReadyToScan(n, n1, q, s);
  }

  /** Opening a tracker leaves its subsections as they were. */
  lemma ReadyToScan(n: Nodes, n1: Nodes, q: Path, s: Section)
    requires Inv(n, q, s) && !IsComplete(n, q) && SameBelow(n, n1, q)
    requires q in n1 && n1[q].children == ChildrenOf(n, q)
    ensures Scanning(n1, q, s.body, 0) && Due(n1, q, s.body) == Due(n, q, s.body) != []
  {
    DueFrame(n, n1, q, s.body, 0);
    SomethingRemains(n, q, s);
    if Fresh(n, q) {
      FreshBelow(n, q, s.body);
      FreshDue(n, q, s.body, 0);
      forall l ensures q + [l] !in n { assert q < q + [l]; }
    } else {
      assert Holds(n, q, s.body);
    }
    assert Linked(n, q) && InOrder(n, q, s.body, 0);
    LinkedFrame(n, n1, q);
  }

  // ---------- Leaving a section ----------

  /** Closing the tracker completes it. */
  ghost predicate Done(n: Nodes, q: Path) {
    StateOf(n, q) == Executing || (StateOf(n, q) == ExecutingChildren && LastChildComplete(n, q))
  }

  lemma ClosedTracker(b: Board, q: Path, s: Section)
    requires q != [] && b.current == q && !b.illogical && Scanning(b.nodes, q, s.body, 0)
    requires b.nodes[q].state in {Executing, ExecutingChildren, NeedsAnotherRun}
    requires Done(b.nodes, q) || Due(b.nodes, q, s.body) != []
    ensures var b' := Close(b, q);
            && b' == Board(b'.nodes, Parent(q), true, false) && q in b'.nodes
            && (forall x | x != q :: SameAt(b.nodes, b'.nodes, x))
            && (Done(b.nodes, q) ==> StateOf(b'.nodes, q) == CompletedSuccessfully)
            && (!Done(b.nodes, q) ==>
                  && UnderWay(b'.nodes, q, s) && Due(b'.nodes, q, s.body) == Due(b.nodes, q, s.body)
                  && b'.nodes[q] == b.nodes[q])
  {
    ClosedNode(b, q);
    var n' := Close(b, q).nodes;
    DueFrame(b.nodes, n', q, s.body, 0);
    LinkedFrame(b.nodes, n', q);
    assert Holds(n', q, s.body);
  }

  lemma ClosedNode(b: Board, q: Path)
    requires q != [] && b.current == q && !b.illogical && q in b.nodes
    requires b.nodes[q].state in {Executing, ExecutingChildren, NeedsAnotherRun}
    ensures var b' := Close(b, q); var state := b.nodes[q].state;
            var done := state == Executing || (state == ExecutingChildren && LastChildComplete(b.nodes, q));
            && b' == Board(b'.nodes, Parent(q), true, false)
            && q in b'.nodes && b'.nodes[q] == Node(if done then CompletedSuccessfully else state, b.nodes[q].children)
            && SameBelow(b.nodes, b'.nodes, q) && forall x | x != q :: SameAt(b.nodes, b'.nodes, x)
  {
  }

  lemma UnderCut(s: Section, vs: seq<Visit>)
    requires vs != []
    ensures var v := vs[0]; var us := Under(s.id, Cut(s, vs)); var early := Early(s, v.path);
            var own := early || (!v.thrown && Late(s, v.path));
            && us != [] && us[0] == Visit([s.id] + if early then [] else v.path, v.thrown || own)
            && us[1..] == if own then [] else Under(s.id, Cut(s, vs[1..]))
  {
    var v, cut, early := vs[0], Cut(s, vs), Early(s, vs[0].path);
    var own := early || (!v.thrown && Late(s, v.path));
    assert cut[0] == Visit(if early then [] else v.path, v.thrown || own);
    assert cut[1..] == if own then [] else Cut(s, vs[1..]);
    assert Under(s.id, cut)[1..] == Under(s.id, cut[1..]);
  }

  /** A cycle entered section s and, below it, what its body made of the visit due first. */
  ghost predicate BodyLeft(r: Runner, r1: Runner, r2: Runner, thrown: bool, s: Section) {
    SectionOpened(r, r1, s) && BodyVisited(r1, r2, thrown, s, 0)
  }

  /** The subsection of the visit due first was got to. */
  ghost predicate GotThere(r1: Runner, s: Section) {
    var due := DueFrom(r1.board.nodes, r1.board.current, s.body, 0);
    !ThrowsFirst(s, due, 0) && due != []
  }

  /** After the body of s: the visit made is the first that was due. */
  lemma BodyBehind(r: Runner, r1: Runner, r2: Runner, thrown: bool, s: Section)
    requires BodyLeft(r, r1, r2, thrown, s) && GotThere(r1, s)
    ensures var q := r.board.current + [s.id]; var due := Due(r.board.nodes, q, s.body);
            && due != [] && DueFrom(r1.board.nodes, q, s.body, 0)[0] == due[0]
            && var v := due[0];
               && r2.active == r1.active && r2.board.current == q && !r2.board.illogical
               && (r2.unfinished == 0 <==> !v.thrown) && Parent(q) == r.board.current
               && r2.entered == r.entered + ([s.id] + v.path) && Since(r2.entered, |r1.entered|) == v.path
               && thrown == (v.thrown || Late(s, v.path)) && !Early(s, v.path)
               && Scanning(r2.board.nodes, q, s.body, 0) && Due(r2.board.nodes, q, s.body) == due[1..]
               && Parted(r2.board.nodes, q, s, v, |ChildrenOf(r1.board.nodes, q)|) && SameOutside(r, r2, s)
  {
    hide Remaining, Fresh, WellNamed, EnteredAlone, Parted;
    var q := r.board.current + [s.id];
    var due0 := DueFrom(r1.board.nodes, q, s.body, 0);
    DropFirst(due0, Alone(s.body), []);
    assert Due(r2.board.nodes, q, s.body) == due0[1..] + Alone(s.body);
    OutsideBody(r, r1, r2, thrown, s);
  }

  lemma OutsideBody(r: Runner, r1: Runner, r2: Runner, thrown: bool, s: Section)
    requires BodyLeft(r, r1, r2, thrown, s) && GotThere(r1, s)
    ensures SameOutside(r, r2, s)
  {
    var q := r.board.current + [s.id];
    forall x | !(q <= x) && x != r.board.current ensures SameAt(r.board.nodes, r2.board.nodes, x) {
      assert SameAt(r.board.nodes, r1.board.nodes, x) && SameAt(r1.board.nodes, r2.board.nodes, x);
    }
    assert !(q <= r.board.current);
    assert SameAt(r1.board.nodes, r2.board.nodes, r.board.current);
  }

  /** Of the trackers that are not below s, only the parent has changed: it runs its children. */
  ghost predicate SameOutside(r: Runner, r2: Runner, s: Section) {
    var p := r.board.current; var n := r.board.nodes; var n2 := r2.board.nodes;
    && p in n2 && n2[p] == Node(ExecutingChildren, Joined(ChildrenOf(n, p), s.id))
    && forall x | !(p + [s.id] <= x) && x != p :: SameAt(n, n2, x)
  }

  /** What is left behind such a body: visits to the same subsection, to the next ones, and to none. */
  lemma {:induction false} RestSplit(n: Nodes, q: Path, s: Section, v: Visit, noted: nat)
    returns (rem: seq<Visit>, rest: seq<Visit>)
    requires DistinctIds(s.body) && Parted(n, q, s, v, noted) && Scanning(n, q, s.body, 0)
    ensures Due(n, q, s.body) == rem + rest + Alone(s.body)
    ensures var j := Position(s.body, v.path);
            && (if rem == [] then IsComplete(n, q + [s.body[j].id])
                else !IsComplete(n, q + [s.body[j].id]) && Position(s.body, rem[0].path) == j)
            && (if rest == [] then j + 1 == |s.body| else Position(s.body, rest[0].path) == j + 1)
  {
    var j := Position(s.body, v.path);
    var k := q + [s.body[j].id];
    InOrderFrom(n, q, s.body, j);
    FreshDue(n, q, s.body, j + 1);
    rem, rest := Remaining(n, k, s.body[j]), VisitsFrom(s.body, j + 1);
    assert DueFrom(n, q, s.body, j) == rem + rest;
    if rem != [] { PositionAt(s.body, j, rem[0].path); }
    if !IsComplete(n, k) { SomethingRemains(n, k, s.body[j]); }
    if j + 1 < |s.body| { FirstVisitFrom(s.body, j + 1); }
  }

  /** Closing the tracker behind such a body completes it when all that was noted is complete. */
  lemma {:induction false} RestDue(n: Nodes, q: Path, s: Section, v: Visit, noted: nat)
    requires DistinctIds(s.body) && noted <= |s.body|
    requires Parted(n, q, s, v, noted) && Scanning(n, q, s.body, 0)
    ensures var j := Position(s.body, v.path); var left := Due(n, q, s.body);
            var behind := left == [] || Position(s.body, left[0].path) != j;
            && (Done(n, q) <==> !v.thrown && behind && Max(noted, Reached(s, v)) == j + 1)
            && (!Done(n, q) ==> left != [])
            && (Done(n, q) && Max(noted, Reached(s, v)) == |s.body| ==> left == [])
  {
    var rem, rest := RestSplit(n, q, s, v, noted);
    LastNoted(n, q, s, v, noted);
    hide Due, Inv, AllComplete, FreshFrom, IndexOf, LastChildComplete, Scanning;
    assert rem != [] ==> (rem + rest + Alone(s.body))[0] == rem[0];
    assert rem == [] && rest != [] ==> (rem + rest + Alone(s.body))[0] == rest[0];
  }

  lemma FirstVisitFrom(body: seq<Section>, i: nat)
    requires i < |body| && DistinctIds(body)
    ensures VisitsFrom(body, i) != [] && Position(body, VisitsFrom(body, i)[0].path) == i
  {
    FreshRemaining(map[], [], body[i]);
    SomethingRemains(map[], [], body[i]);
    PositionAt(body, i, Visits(body[i])[0].path);
  }

  lemma LastNoted(n: Nodes, q: Path, s: Section, v: Visit, noted: nat)
    requires noted <= |s.body| && Parted(n, q, s, v, noted)
    ensures var j := Position(s.body, v.path); var m := Max(noted, Reached(s, v));
            && j < m <= |s.body|
            && (LastChildComplete(n, q) <==> m == j + 1 && IsComplete(n, q + [s.body[j].id]))
  {
    var j, m := Position(s.body, v.path), Max(noted, Reached(s, v));
    assert n[q].children[m - 1] == Ids(s.body)[m - 1] == s.body[m - 1].id;
    assert m - 1 > j ==> Fresh(n, q + [s.body[m - 1].id]);
  }

  lemma LeftByClosing(r: Runner, r1: Runner, r2: Runner, r3: Runner, thrown: bool, s: Section)
    requires WellNamed(s) && BodyLeft(r, r1, r2, thrown, s) && GotThere(r1, s)
    requires var v := DueFrom(r1.board.nodes, r1.board.current, s.body, 0)[0];
             thrown == v.thrown && (v.thrown || !Late(s, v.path))
    requires r2.board.current == r.board.current + [s.id] && r3.board == Close(r2.board, r.board.current + [s.id])
    requires r3.active == r.active && r3.entered == r2.entered && (r3.unfinished == 0 <==> !thrown)
    ensures SectionVisited(r, r3, thrown, s)
  {
    hide Linked, Stem, Close, Early, Late, BodyVisited, Reached;
    var q := r.board.current + [s.id];
    var due := Due(r.board.nodes, q, s.body);
    BodyBehind(r, r1, r2, thrown, s);
    CompletedByLast(r1, r2, s, due[0]);
    hide Parted, Scanning, Position;
    ClosedTracker(r2.board, q, s);
    UnderCut(s, due);
    assert Remaining(r.board.nodes, q, s) == Under(s.id, Cut(s, due));
    assert Remaining(r3.board.nodes, q, s) == Under(s.id, Cut(s, due[1..]));
    assert Inv(r3.board.nodes, q, s);
    hide Remaining, Cut, Due, Inv, UnderWay, Done, Fails;
    forall x | !(q <= x) && x != r.board.current ensures SameAt(r.board.nodes, r3.board.nodes, x) {
      assert SameAt(r.board.nodes, r2.board.nodes, x) && SameAt(r2.board.nodes, r3.board.nodes, x);
    }
    assert SameAt(r2.board.nodes, r3.board.nodes, r.board.current);
  }

  /** Unless the section throws itself, closing its tracker completes it exactly when nothing is left. */
  lemma CompletedByLast(r1: Runner, r2: Runner, s: Section, v: Visit)
    requires DistinctIds(s.body) && Scanning(r1.board.nodes, r1.board.current, s.body, 0)
    requires var q := r1.board.current;
             && Parted(r2.board.nodes, q, s, v, |ChildrenOf(r1.board.nodes, q)|)
             && Scanning(r2.board.nodes, q, s.body, 0)
    requires v.thrown || !Late(s, v.path)
    ensures var n2 := r2.board.nodes; var q := r1.board.current;
            && n2[q].state in {ExecutingChildren, NeedsAnotherRun}
            && (Done(n2, q) ==> !v.thrown) && (Done(n2, q) <==> Due(n2, q, s.body) == [])
  {
    var noted := |ChildrenOf(r1.board.nodes, r1.board.current)|;
    NotedSoFar(r1, s);
    RestDue(r2.board.nodes, r1.board.current, s, v, noted);
    if !v.thrown { ReachesAll(s, v, noted); }
  }

  lemma NotedSoFar(r1: Runner, s: Section)
    requires Scanning(r1.board.nodes, r1.board.current, s.body, 0)
    ensures |ChildrenOf(r1.board.nodes, r1.board.current)| <= |s.body|
  {
  }

  lemma ReachesAll(s: Section, v: Visit, noted: nat)
    requires !v.thrown && !Late(s, v.path) && noted <= |s.body|
    ensures Max(noted, Reached(s, v)) == |s.body|
  {
    NoneThrows(s, v.path, Position(s.body, v.path) + 1);
  }

  lemma LeftByInner(r: Runner, r1: Runner, r2: Runner, s: Section)
    requires WellNamed(s) && BodyLeft(r, r1, r2, true, s) && GotThere(r1, s)
    requires DueFrom(r1.board.nodes, r1.board.current, s.body, 0)[0].thrown
    requires r1.active == r.active + [r.board.current + [s.id]]
    ensures SectionVisited(r, SectionEndedEarly(r2), true, s)
  {
    BodyBehind(r, r1, r2, true, s);
    LeftByClosing(r, r1, r2, SectionEndedEarly(r2), true, s);
  }

  lemma LeftNormally(r: Runner, r1: Runner, r2: Runner, s: Section)
    requires WellNamed(s) && BodyLeft(r, r1, r2, false, s) && GotThere(r1, s)
    requires r1.active == r.active + [r.board.current + [s.id]]
    ensures SectionVisited(r, SectionEnded(r2), false, s)
  {
    BodyBehind(r, r1, r2, false, s);
    LeftByClosing(r, r1, r2, SectionEnded(r2), false, s);
  }

  lemma LeftByThrowing(r: Runner, r1: Runner, r2: Runner, s: Section)
    requires BodyLeft(r, r1, r2, true, s) && GotThere(r1, s)
    requires !DueFrom(r1.board.nodes, r1.board.current, s.body, 0)[0].thrown
    requires r1.active == r.active + [r.board.current + [s.id]]
    ensures SectionVisited(r, SectionEndedEarly(r2), true, s)
  {
    var q := r.board.current + [s.id];
    BodyBehind(r, r1, r2, true, s);
    UnderCut(s, Due(r.board.nodes, q, s.body));
    hide Due, Fresh, UnderWay, Linked, Stem, Scanning, BodyVisited, Parted;
    var n3 := SectionEndedEarly(r2).board.nodes;
    assert r.board.current != q;
    assert StateOf(n3, q) == Failed;
    forall x | !(q <= x) && x != r.board.current ensures SameAt(r.board.nodes, n3, x) {
      assert SameAt(r.board.nodes, r2.board.nodes, x) && SameAt(r2.board.nodes, n3, x);
    }
  }

  /** The section throws before anything in it is entered. */
  lemma LeftAtOnce(r: Runner, r1: Runner, s: Section)
    requires SectionOpened(r, r1, s) && ThrowsFirst(s, DueFrom(r1.board.nodes, r1.board.current, s.body, 0), 0)
    requires r1.active == r.active + [r.board.current + [s.id]]
    ensures SectionVisited(r, SectionEndedEarly(r1), true, s)
  {
    var q := r.board.current + [s.id];
    OnlyThrown(r, r1, s);
    hide Due, Remaining, ThrowsFirst, Fresh, UnderWay, Linked, Stem, Scanning;
    var n3 := SectionEndedEarly(r1).board.nodes;
    assert Parent(q) == r.board.current != q;
    assert StateOf(n3, q) == Failed;
    forall x | !(q <= x) && x != r.board.current ensures SameAt(r.board.nodes, n3, x) {
      assert SameAt(r.board.nodes, r1.board.nodes, x);
    }
  }

  lemma OnlyThrown(r: Runner, r1: Runner, s: Section)
    requires SectionOpened(r, r1, s) && ThrowsFirst(s, DueFrom(r1.board.nodes, r1.board.current, s.body, 0), 0)
    ensures Remaining(r.board.nodes, r.board.current + [s.id], s) == [Visit([s.id], true)]
  {
    hide ThrowsFirst, Early, Late, Fresh, UnderWay, Linked, Stem, Scanning;
    ThrownAtOnce(r1, s);
    UnderCut(s, Due(r.board.nodes, r.board.current + [s.id], s.body));
    assert [s.id] + [] == [s.id];
  }

  lemma ThrownAtOnce(r1: Runner, s: Section)
    requires var due := DueFrom(r1.board.nodes, r1.board.current, s.body, 0); ThrowsFirst(s, due, 0)
    requires Due(r1.board.nodes, r1.board.current, s.body) != []
    ensures var v := Due(r1.board.nodes, r1.board.current, s.body)[0];
            Early(s, v.path) || (v == Visit([], false) && Late(s, []))
  {
  }

  /** Nothing in the section is entered, and it does not throw. */
  lemma LeftAlone(r: Runner, r1: Runner, s: Section)
    requires SectionOpened(r, r1, s) && DueFrom(r1.board.nodes, r1.board.current, s.body, 0) == []
    requires !ThrowsFirst(s, [], 0) && r1.active == r.active + [r.board.current + [s.id]]
    ensures SectionVisited(r, SectionEnded(r1), false, s)
  {
    var q := r.board.current + [s.id];
    var due := Due(r.board.nodes, q, s.body);
    assert due == [Visit([], false)];
    UnderCut(s, due);
    assert [s.id] + [] == [s.id];
    assert !Late(s, []);
    assert Parent(q) == r.board.current != q;
    ClosedTracker(r1.board, q, s);
    var n3 := SectionEnded(r1).board.nodes;
    forall x | !(q <= x) && x != r.board.current ensures SameAt(r.board.nodes, n3, x) {
      assert SameAt(r.board.nodes, r1.board.nodes, x) && SameAt(r1.board.nodes, n3, x);
    }
    assert SameAt(r1.board.nodes, n3, r.board.current);
  }

  // ---------- Whole runs ----------

  /** The runner after k cycles, and the sections entered in each. */
  ghost function AfterCycles(testCase: Section, k: nat): (Runner, seq<Path>) {
    if k == 0 then (StartRun(), [])
    else
      var (r, trace) := AfterCycles(testCase, k - 1);
      var r' := Cycle(r, testCase);
      (r', trace + [r'.entered])
  }

  ghost predicate BetweenCycles(r: Runner, testCase: Section) {
    var n := r.board.nodes;
    && r.active == [] && r.unfinished == 0 && !r.board.illogical && [] in n && Linked(n, [])
    && Inv(n, [testCase.id], testCase)
    && StateOf(n, [testCase.id]) != Failed
  }

  /** The cycles left for the whole test case. */
  ghost function LeftToRun(r: Runner, testCase: Section): seq<Path> {
    var n := r.board.nodes; var q := [testCase.id];
    if IsComplete(n, q) then [] else CyclesFrom(testCase, Due(n, q, testCase.body), |ChildrenOf(n, q)|)
  }

  /** A cycle up to the end of the body, and the closing of the test case's tracker. */
  lemma CycleClosed(r: Runner, testCase: Section) returns (r0: Runner, r1: Runner, r2: Runner, thrown: bool)
    requires WellNamed(testCase) && BetweenCycles(r, testCase) && !IsComplete(r.board.nodes, [testCase.id])
    ensures r0 == r.(board := r.board.(current := [], completedCycle := false), entered := [])
    ensures r1 == Runner(Acquire(r0.board, testCase.id), [], 0, [testCase.id])
    ensures (r2, thrown) == RunBody(r1, testCase, 0, 1) && BodyLeft(r0, r1, r2, thrown, testCase)
    ensures var q := [testCase.id];
            && r2.active == [] && r2.board.current == q && !r2.board.illogical && !Close(r2.board, q).illogical
            && Cycle(r, testCase) == r2.(board := Close(r2.board, q), unfinished := 0)
            && (!GotThere(r1, testCase) ==> r2 == r1)
            && |ChildrenOf(r1.board.nodes, q)| == |ChildrenOf(r.board.nodes, q)| <= |testCase.body|
            && q in r2.board.nodes && r2.board.nodes[q].state in {Executing, ExecutingChildren, NeedsAnotherRun}
            && (Done(r2.board.nodes, q) || Due(r2.board.nodes, q, testCase.body) != [])
            && Scanning(r2.board.nodes, q, testCase.body, 0)
  {
    var q := [testCase.id];
    r0 := r.(board := r.board.(current := [], completedCycle := false), entered := []);
    assert [] + [testCase.id] == q;
    Opened(r0, [], testCase);
    r1 := Runner(Acquire(r0.board, testCase.id), [], 0, q);
    AcquireOpens(r0.board, testCase.id);
    BodyVisit(r1, testCase, 0);
    r2, thrown := RunBody(r1, testCase, 0, 1).0, RunBody(r1, testCase, 0, 1).1;
    NotedSoFar(r1, testCase);
    if GotThere(r1, testCase) {
      BodyBehind(r0, r1, r2, thrown, testCase);
      RestDue(r2.board.nodes, q, testCase, Due(r.board.nodes, q, testCase.body)[0], |ChildrenOf(r1.board.nodes, q)|);
    }
    ClosedTracker(r2.board, q, testCase);
    NothingActive(r2.(board := Close(r2.board, q)), r2.unfinished);
  }

  /** A cycle makes the first of the cycles left, and one is left until the test case is complete. */
  lemma CycleVisit(r: Runner, testCase: Section)
    requires WellNamed(testCase) && BetweenCycles(r, testCase) && !IsComplete(r.board.nodes, [testCase.id])
    ensures var left := LeftToRun(r, testCase); var r' := Cycle(r, testCase);
            && left != [] && BetweenCycles(r', testCase)
            && r'.entered == left[0] && LeftToRun(r', testCase) == left[1..]
  {
    hide Cycle, RunBody, Acquire, Close, CyclesFrom, BodyVisited, Reached, Early, Position, Fresh, GotThere;
    var q := [testCase.id];
    var r0, r1, r2, thrown := CycleClosed(r, testCase);
    assert [] + [testCase.id] == q;
    ClosedTracker(r2.board, q, testCase);
    CaseOutside(r0, r1, r2, thrown, testCase);
    RootLinked(r.board.nodes, r2.board.nodes, Close(r2.board, q).nodes, testCase.id);
    if GotThere(r1, testCase) {
      var due, noted := Due(r.board.nodes, q, testCase.body), |ChildrenOf(r1.board.nodes, q)|;
      BodyBehind(r0, r1, r2, thrown, testCase);
      RestDue(r2.board.nodes, q, testCase, due[0], noted);
      RunGoesOn(testCase, due, noted, Done(r2.board.nodes, q));
    } else {
      NowhereGot(r1, testCase);
    }
  }

  lemma RunGoesOn(testCase: Section, due: seq<Visit>, noted: nat, done: bool)
    requires due != [] && !Early(testCase, due[0].path)
    requires var j := Position(testCase.body, due[0].path);
             var behind := due[1..] == [] || Position(testCase.body, due[1..][0].path) != j;
             && (done <==> !due[0].thrown && behind && Max(noted, Reached(testCase, due[0])) == j + 1)
             && (!done ==> due[1..] != [])
    ensures var left := CyclesFrom(testCase, due, noted);
            && left != [] && left[0] == [testCase.id] + due[0].path
            && left[1..] == if done then []
                            else CyclesFrom(testCase, due[1..], Max(noted, Reached(testCase, due[0])))
  {
  }

  lemma CaseOutside(r: Runner, r1: Runner, r2: Runner, thrown: bool, s: Section)
    requires BodyLeft(r, r1, r2, thrown, s) && (!GotThere(r1, s) ==> r2 == r1)
    ensures SameOutside(r, r2, s)
  {
    if GotThere(r1, s) { OutsideBody(r, r1, r2, thrown, s); }
  }

  /** If nothing in the test case is entered, this is the last cycle. */
  lemma NowhereGot(r1: Runner, testCase: Section)
    requires !GotThere(r1, testCase) && Due(r1.board.nodes, r1.board.current, testCase.body) != []
    ensures forall m: nat ::
              CyclesFrom(testCase, Due(r1.board.nodes, r1.board.current, testCase.body), m) == [[testCase.id]]
  {
    var due0 := DueFrom(r1.board.nodes, r1.board.current, testCase.body, 0);
    if ThrowsFirst(testCase, due0, 0) { ThrownAtOnce(r1, testCase); }
    assert [testCase.id] + [] == [testCase.id];
  }

  lemma CycleIsClean(r: Runner, testCase: Section)
    requires WellNamed(testCase) && BetweenCycles(r, testCase) && !IsComplete(r.board.nodes, [testCase.id])
    ensures CleanCycle(r, Cycle(r, testCase), testCase)
  {
    var r0, r1, r2, inner := CycleClosed(r, testCase);
    assert r.(board := r1.board, entered := [testCase.id]) == r1;
  }

  /** The body ends with no section active and the test case's tracker current, and closing that tracker is no error. */
  ghost predicate CleanCycle(r: Runner, r': Runner, testCase: Section) {
    var p := [testCase.id];
    var b := Acquire(r.board.(current := [], completedCycle := false), testCase.id);
    var r2 := RunBody(r.(board := b, entered := p), testCase, 0, 1).0;
    && r2.active == [] && r2.board.current == p && !r2.board.illogical && !Close(r2.board, p).illogical
    && r' == r2.(board := Close(r2.board, p), unfinished := 0)
  }

  lemma RootLinked(n: Nodes, n2: Nodes, n3: Nodes, l: NameAndLocation)
    requires [] in n && Linked(n, []) && [] in n2 && n2[[]] == Node(ExecutingChildren, Joined(n[[]].children, l))
    requires forall x | !([l] <= x) && x != [] :: SameAt(n, n2, x)
    requires (forall x | x != [l] :: SameAt(n2, n3, x)) && [l] in n3
    ensures [] in n3 && Linked(n3, [])
  {
    assert SameAt(n2, n3, []);
    forall k ensures k in ChildrenOf(n3, []) <==> [] + [k] in n3 {
      assert [] + [k] == [k];
      if k != l {
        assert [l][0] != [k][0];
        assert SameAt(n, n2, [k]) && SameAt(n2, n3, [k]);
        assert k in ChildrenOf(n, []) <==> [] + [k] in n;
      }
    }
  }

  lemma {:induction false} NothingActive(r: Runner, k: nat)
    requires r.active == []
    ensures HandleUnfinished(r, k) == r.(unfinished := 0)
    decreases k
  {
    if k > 0 { NothingActive(r, k - 1); }
  }

  /** After k cycles the run has made exactly the first k of its cycles, and it stops when there are no more. */
  lemma {:induction false} RunMakesAllVisits(testCase: Section, k: nat)
    requires WellNamed(testCase) && k <= |Cycles(testCase)|
    ensures var (r, trace) := AfterCycles(testCase, k);
            && BetweenCycles(r, testCase) && trace == Cycles(testCase)[..k]
            && LeftToRun(r, testCase) == Cycles(testCase)[k..]
            && (StateOf(r.board.nodes, [testCase.id]) == CompletedSuccessfully <==> k == |Cycles(testCase)|)
  {
    hide Cycle, CyclesFrom;
    if k == 0 {
      StartOfRun(testCase);
    } else {
      RunMakesAllVisits(testCase, k - 1);
      CycleVisit(AfterCycles(testCase, k - 1).0, testCase);
    }
    var r := AfterCycles(testCase, k).0;
    if !IsComplete(r.board.nodes, [testCase.id]) { CycleVisit(r, testCase); }
  }

  lemma StartOfRun(testCase: Section)
    ensures BetweenCycles(StartRun(), testCase) && LeftToRun(StartRun(), testCase) == Cycles(testCase) != []
  {
    var n := StartRun().board.nodes;
    FreshBelow(n, [testCase.id], testCase.body);
    FreshDue(n, [testCase.id], testCase.body, 0);
    SomethingRemains(n, [testCase.id], testCase);
  }
}
