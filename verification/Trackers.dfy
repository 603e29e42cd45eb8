/** Trackers as linked objects, updated in place; every operation refines its function in TrackerSpec. */
module Trackers {
  import opened SectionTree
  import opened TrackerSpec
  import Spec = TrackerSpec

  datatype ContextState = Idle | Running | CompletedCycle

  function ChildIds(ts: seq<Tracker>): (ids: seq<NameAndLocation>)
    ensures |ids| == |ts|
    ensures forall i | 0 <= i < |ts| :: ids[i] == ts[i].nameAndLocation
  {
    seq(|ts|, i requires 0 <= i < |ts| => ts[i].nameAndLocation)
  }

  /** A section tracker. */
  class Tracker {
    const nameAndLocation: NameAndLocation
    const parent: Tracker?
    var children: seq<Tracker>
    var runState: CycleState
    ghost const path: Path

    constructor (id: NameAndLocation, parent: Tracker?, ghost path: Path)
      ensures nameAndLocation == id && this.parent == parent && this.path == path
      ensures children == [] && runState == NotStarted
    {
      this.nameAndLocation, this.parent, this.path := id, parent, path;
      children, runState := [], NotStarted;
    }

    predicate IsComplete()
      reads this
    {
      runState == CompletedSuccessfully || runState == Failed
    }

    predicate IsOpen()
      reads this
    {
      runState != NotStarted && !IsComplete()
    }

    method FindChild(id: NameAndLocation) returns (child: Tracker?)
      ensures child == null ==> id !in ChildIds(children)
      ensures child != null ==> child in children && child.nameAndLocation == id
    {
      for i := 0 to |children|
        invariant id !in ChildIds(children)[..i]
      {
        if children[i].nameAndLocation == id { return children[i]; }
      }
      assert ChildIds(children)[..|children|] == ChildIds(children);
      return null;
    }

    /** Sets the state of this tracker, and of no other. */
    method SetRunState(ctx: TrackerContext, state: CycleState)
      requires ctx.Tree() && ctx.Knows(this)
      modifies this`runState, ctx`nodes
      ensures ctx.Tree() && runState == state && ctx.nodes == WithState(old(ctx.nodes), path, state)
    {
      runState := state;
      ctx.nodes := WithState(ctx.nodes, path, state);
      forall p | p in ctx.trackers ensures ctx.Consistent(p, ctx.trackers[p]) {
        assert old(ctx.Consistent(p, ctx.trackers[p]));
      }
    }

    method OpenChild(ctx: TrackerContext)
      requires ctx.Tree() && ctx.Knows(this)
      modifies ctx.repr`runState, ctx`nodes
      ensures ctx.Tree() && ctx.nodes == Spec.OpenChild(old(ctx.nodes), path)
      decreases |path|
    {
      ctx.Look(path);
      if runState != ExecutingChildren {
        SetRunState(ctx, ExecutingChildren);
        if parent != null {
          parent.OpenChild(ctx);
        }
      }
    }

    method Open(ctx: TrackerContext)
      requires ctx.Valid() && ctx.Knows(this)
      modifies ctx`currentTracker, ctx`nodes, ctx.repr`runState
      ensures ctx.Valid() && ctx.Board() == Spec.Open(old(ctx.Board()), path)
    {
      ctx.Look(path);
      SetRunState(ctx, Executing);
      ctx.currentTracker := this;
      if parent != null {
        parent.OpenChild(ctx);
      }
    }

    method TryOpen(ctx: TrackerContext)
      requires ctx.Valid() && ctx.Knows(this)
      modifies ctx`currentTracker, ctx`nodes, ctx.repr`runState
      ensures ctx.Valid()
      ensures ctx.Board() == if Spec.IsComplete(old(ctx.nodes), path) then old(ctx.Board())
                             else Spec.Open(old(ctx.Board()), path)
    {
      ctx.Look(path);
      if !IsComplete() {
        Open(ctx);
      }
    }

    /** Asked of a tracker at or above the current one only, in a state in which it is not an internal error. */
    method Close(ctx: TrackerContext)
      requires ctx.Valid() && ctx.Knows(this) && path != [] && path <= ctx.Board().current
      requires !Spec.Close(ctx.Board(), path).illogical
      modifies ctx`currentTracker, ctx`runState, ctx`nodes, ctx.repr`runState
      ensures ctx.Valid() && ctx.Board() == Spec.Close(old(ctx.Board()), path)
      decreases |ctx.Board().current| - |path|
    {
      while ctx.currentTracker != this
        invariant ctx.Valid() && path <= ctx.Board().current
        invariant |ctx.Board().current| <= old(|ctx.Board().current|)
        invariant Spec.Close(ctx.Board(), path) == Spec.Close(old(ctx.Board()), path)
        decreases |ctx.Board().current|
      {
        var inner := ctx.currentTracker;
        ctx.Look(inner.path);
        assert inner.path != path;
        inner.Close(ctx);
      }
      ctx.Look(path);
      CloseThis(ctx);
    }

    method CloseThis(ctx: TrackerContext)
      requires ctx.Valid() && ctx.currentTracker == this && path != []
      requires !Spec.CloseOne(ctx.Board(), path).illogical
      modifies ctx`currentTracker, ctx`runState, ctx`nodes, this`runState
      ensures ctx.Valid() && ctx.Board() == Spec.CloseOne(old(ctx.Board()), path)
    {
      ctx.Look(path);
      match runState {
        case NeedsAnotherRun =>
        case Executing => SetRunState(ctx, CompletedSuccessfully);
        case ExecutingChildren =>
          if children == [] || children[|children| - 1].IsComplete() {
            SetRunState(ctx, CompletedSuccessfully);
          }
        case _ => assert false;
      }
      MoveToParent(ctx);
    }

    /** The parent becomes current, and the cycle is over. */
    method MoveToParent(ctx: TrackerContext)
      requires ctx.Tree() && ctx.Knows(this) && path != []
      modifies ctx`currentTracker, ctx`runState
      ensures ctx.Valid() && ctx.Board() == Spec.Leave(old(ctx.Board()), path)
    {
      ctx.Look(path);
      ctx.currentTracker := parent;
      ctx.runState := CompletedCycle;
    }

    method Fail(ctx: TrackerContext)
      requires ctx.Valid() && ctx.Knows(this) && path != []
      modifies ctx`currentTracker, ctx`runState, ctx`nodes, ctx.repr`runState
      ensures ctx.Valid() && ctx.Board() == Spec.Fail(old(ctx.Board()), path)
    {
      ctx.Look(path);
      SetRunState(ctx, Failed);
      parent.MarkAsNeedingAnotherRun(ctx);
      MoveToParent(ctx);
    }

    method MarkAsNeedingAnotherRun(ctx: TrackerContext)
      requires ctx.Tree() && ctx.Knows(this)
      modifies this`runState, ctx`nodes
      ensures ctx.Tree() && ctx.nodes == WithState(old(ctx.nodes), path, NeedsAnotherRun)
    {
      SetRunState(ctx, NeedsAnotherRun);
    }
  }

  class TrackerContext {
    var rootTracker: Tracker?
    var currentTracker: Tracker?
    var runState: ContextState
    ghost var trackers: map<Path, Tracker>  // every tracker, at its path
    ghost var repr: set<Tracker>
    ghost var nodes: Nodes  // the tracker states as a value

    constructor ()
      ensures rootTracker == null && currentTracker == null && runState == Idle && trackers == map[]
    {
      rootTracker, currentTracker, runState, trackers := null, null, Idle, map[];
      nodes := Spec.StartRun().board.nodes;
    }

    ghost predicate Knows(t: Tracker)
      reads `trackers
    {
      t.path in trackers && trackers[t.path] == t
    }

    /** The links of the tracker at path p agree with the paths, and `nodes` shows it as it is. */
    ghost predicate Consistent(p: Path, t: Tracker)
      reads `trackers, `nodes, `repr, repr
    {
      && t in repr && t.path == p && p in nodes && nodes[p] == Node(t.runState, ChildIds(t.children))
      && (if p == [] then t.parent == null
          else && Parent(p) in trackers && t.parent == trackers[Parent(p)] && t.nameAndLocation == p[|p| - 1]
               && t.parent in repr && t in t.parent.children)
      && forall c | c in t.children :: c.path == p + [c.nameAndLocation] && c.path in trackers && trackers[c.path] == c
    }

    ghost predicate Tree()
      reads `trackers, `repr, `rootTracker, `nodes, repr
    {
      && [] in trackers && rootTracker == trackers[[]] && nodes.Keys == trackers.Keys
      && forall p {:trigger Consistent(p, trackers[p])} | p in trackers :: Consistent(p, trackers[p])
    }

    /** What consistency says of one tracker, its parent and its children. */
    lemma Look(p: Path)
      requires Tree() && p in trackers
      ensures var t := trackers[p];
              && Consistent(p, t)
              && (p != [] ==> t.parent != null && Knows(t.parent) && t.parent.path == Parent(p))
              && forall c | c in t.children ::
                   c in repr && Knows(c) && c.path in nodes && nodes[c.path] == Node(c.runState, ChildIds(c.children))
    {
      var t := trackers[p];
      assert Consistent(p, t);
      if p != [] { assert Consistent(Parent(p), trackers[Parent(p)]); }
      forall c | c in t.children ensures c in repr && nodes[c.path] == Node(c.runState, ChildIds(c.children)) {
        assert Consistent(c.path, trackers[c.path]);
      }
    }

    /** A run was started; no tracker is current before its first cycle. */
    ghost predicate Started()
      reads this, repr
    {
      Tree() && (currentTracker != null ==> Knows(currentTracker))
    }

    /** A cycle was started. */
    ghost predicate Valid()
      reads this, repr
    {
      Started() && currentTracker != null
    }

    /** The state as a value; no current tracker is shown like the root. */
    ghost function Board(): Board
      reads `nodes, `currentTracker, `runState
    {
      Spec.Board(nodes, if currentTracker == null then [] else currentTracker.path, runState == CompletedCycle, false)
    }

    method StartRun()
      modifies this
      ensures Started() && currentTracker == null && runState == Running
      ensures fresh(repr) && Board() == Spec.StartRun().board
    {
      rootTracker := new Tracker(NameAndLocation("{root}", "", 0), null, []);
      currentTracker := null;
      runState := Running;
      trackers, repr := map[[] := rootTracker], {rootTracker};
      nodes := Spec.StartRun().board.nodes;
    }

    method StartCycle()
      requires Started()
      modifies `currentTracker, `runState
      ensures Valid() && Board() == old(Board()).(current := [], completedCycle := false)
    {
      Look([]);
      currentTracker := rootTracker;
      runState := Running;
    }

    lemma NoSuchChild(id: NameAndLocation)
      requires Valid() && id !in ChildIds(currentTracker.children)
      ensures currentTracker.path + [id] !in trackers
    {
      var q := currentTracker.path + [id];
      assert Parent(q) == currentTracker.path;
      if q in trackers {
        Look(q);
      }
    }

    /** A tracker linked to the current one and recorded at its path leaves the tree consistent. */
    twostate lemma ChildAdded(p: Path, new section: Tracker)
      requires old(Valid()) && old(currentTracker.path) == p && currentTracker == old(currentTracker)
      requires !old(allocated(section)) && section.path == p + [section.nameAndLocation]
      requires section.path !in old(trackers)
      requires section.children == [] && section.runState == NotStarted && section.parent == currentTracker
      requires forall t | t in old(repr) && t != currentTracker :: unchanged(t)
      requires currentTracker.runState == old(currentTracker.runState)
      requires currentTracker.children == old(currentTracker.children) + [section]
      requires rootTracker == old(rootTracker)
      requires trackers == old(trackers)[section.path := section] && repr == old(repr) + {section}
      requires nodes == Spec.AddChild(old(nodes), p, section.nameAndLocation)
      ensures Tree()
    {
      assert Consistent(p, trackers[p]) by {
        assert old(Consistent(p, trackers[p]));
        assert ChildIds(currentTracker.children) == ChildIds(old(currentTracker.children)) + [section.nameAndLocation];
      }
      assert Consistent(section.path, section) by {
        assert Parent(section.path) == p;
      }
      forall q | q in trackers && q != p && q != section.path ensures Consistent(q, trackers[q]) {
        assert old(Consistent(q, trackers[q]));
        assert trackers[q] != currentTracker && unchanged(trackers[q]);
      }
    }

    method AddChild(id: NameAndLocation) returns (section: Tracker)
      requires Valid() && id !in ChildIds(currentTracker.children)
      modifies `trackers, `repr, `nodes, currentTracker`children
      ensures Valid() && fresh(section) && repr == old(repr) + {section}
      ensures trackers == old(trackers)[section.path := section] && section.path !in old(trackers)
      ensures nodes == Spec.AddChild(old(nodes), currentTracker.path, id)
      ensures section.path == currentTracker.path + [id]
    {
      ghost var p := currentTracker.path;
      NoSuchChild(id);
      section := new Tracker(id, currentTracker, p + [id]);
      currentTracker.children := currentTracker.children + [section];
      trackers, repr := trackers[section.path := section], repr + {section};
      nodes := Spec.AddChild(nodes, p, id);
      ChildAdded(p, section);
    }

    method FindOrAdd(id: NameAndLocation) returns (section: Tracker)
      requires Valid()
      modifies `trackers, `repr, `nodes, currentTracker`children
      ensures Valid() && Knows(section) && section.path == currentTracker.path + [id]
      ensures nodes == if id in ChildrenOf(old(nodes), currentTracker.path) then old(nodes)
                       else Spec.AddChild(old(nodes), currentTracker.path, id)
      ensures Grown(old(trackers), old(repr)) && fresh(repr - old(repr))
    {
      Look(currentTracker.path);
      var child := currentTracker.FindChild(id);
      if child != null {
        section := child;
      } else {
        section := AddChild(id);
      }
    }

    /** No tracker is ever forgotten. */
    ghost predicate Grown(before: map<Path, Tracker>, reprBefore: set<Tracker>)
      reads `trackers, `repr
    {
      reprBefore <= repr && forall p | p in before :: p in trackers && trackers[p] == before[p]
    }

    method Acquire(id: NameAndLocation) returns (section: Tracker)
      requires Valid()
      modifies this, repr
      ensures Valid() && Board() == Spec.Acquire(old(Board()), id)
      ensures Knows(section) && section.path == old(Board().current) + [id]
      ensures Grown(old(trackers), old(repr)) && fresh(repr - old(repr))
    {
      Look(currentTracker.path);
      section := FindOrAdd(id);
      if runState != CompletedCycle {
        section.TryOpen(this);
      }
    }
  }
}
