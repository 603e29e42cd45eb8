/** Whole runs of the server against the reference, and against a plain map of the PUTs there was room for. */
module ReferenceServer {
  import opened CacheSpec
  import opened Caches
  import opened RequestSpec
  import opened RequestRuns
  import opened ReferenceCache

  /** The calls the handler makes. */
  function CallsFor(req: Request): seq<Call>
    requires Addressed(req)
  {
    match req.verb
    case Get => [GetCall(req.target[1..])]
    case Put =>
      var key, val := PutKey(req.target), PutValue(req.target);
      [GetCall(key), SetCall(key, val + ['\0'], |val| + 1)]
    case Delete => [DelCall(req.target[1..])]
    case Post => if req.target == "/reset" then [ResetCall] else []
    case _ => []
  }

  function CallsOf(reqs: seq<Request>, i: nat): seq<Call>
    requires i <= |reqs| && forall j | 0 <= j < i :: Addressed(reqs[j])
  {
    if i == 0 then [] else CallsOf(reqs, i - 1) + CallsFor(reqs[i - 1])
  }

  ghost function ReferenceAnswer(held: map<Key, Entry>, req: Request): Response
    requires Addressed(req)
  {
    match req.verb
    case Get =>
      var key := req.target[1..];
      if key in held && held[key].bytes.Some? then
        var bytes := held[key].bytes.value;
        Response(200, "", KeyValue(key, if bytes == [] then [] else bytes[..|bytes| - 1]))
      else NotFound(key)
    case Put =>
      var key := PutKey(req.target);
      Response(if key in held && held[key].bytes.Some? then 204 else 201, "/" + key, Empty)
    case Delete =>
      var key := req.target[1..];
      if key in held then Response(200, "", Empty) else NotFound(key)
    case Head => Response(200, "", SpaceUsed(Total(held) % 0x1_0000_0000))
    case Post => if req.target == "/reset" then Response(200, "", ResetDone) else NotFound(req.target)
    case Other => Response(400, "", UnknownMethod)
  }

  lemma OneMore(maxmem: nat, evicting: bool, calls: seq<Call>, call: Call)
    requires maxmem < WORD && AllEnd(maxmem, evicting, calls) && Ends(StoreAfter(maxmem, evicting, calls), call)
    ensures AllEnd(maxmem, evicting, calls + [call])
    ensures StoreAfter(maxmem, evicting, calls + [call]) == Made(StoreAfter(maxmem, evicting, calls), call)
  {
    assert (calls + [call])[..|calls|] == calls;
  }

  lemma HandleIsCalls(maxmem: nat, evicting: bool, calls: seq<Call>, req: Request)
    requires maxmem < WORD && AllEnd(maxmem, evicting, calls) && Accepts(StoreAfter(maxmem, evicting, calls), req)
    ensures Addressed(req) && AllEnd(maxmem, evicting, calls + CallsFor(req))
    ensures StoreAfter(maxmem, evicting, calls + CallsFor(req))
         == Handle(StoreAfter(maxmem, evicting, calls), req).0
  {
    hide AllEnd, StoreAfter, Set, SetEnds, Line, AfterLine;
    assert calls + [] == calls;
    match req.verb {
      case Get => OneMore(maxmem, evicting, calls, GetCall(req.target[1..]));
      case Put =>
        var key, val := PutKey(req.target), PutValue(req.target);
        var lookup, store := GetCall(key), SetCall(key, val + [NUL], |val| + 1);
        OneMore(maxmem, evicting, calls, lookup);
        OneMore(maxmem, evicting, calls + [lookup], store);
        assert calls + [lookup] + [store] == calls + CallsFor(req);
      case Delete => OneMore(maxmem, evicting, calls, DelCall(req.target[1..]));
      case Post => if req.target == "/reset" { OneMore(maxmem, evicting, calls, ResetCall); }
      case _ =>
    }
  }

  lemma {:induction false} RunIsCalls(maxmem: nat, evicting: bool, reqs: seq<Request>, i: nat)
    requires maxmem < WORD && i <= |reqs| && Taken(maxmem, evicting, reqs, i)
    requires forall j | 0 <= j < i :: Addressed(reqs[j])
    ensures AllEnd(maxmem, evicting, CallsOf(reqs, i))
    ensures StateAfter(maxmem, evicting, reqs, i) == StoreAfter(maxmem, evicting, CallsOf(reqs, i))
    decreases i
  {
    if i > 0 {
      RunIsCalls(maxmem, evicting, reqs, i - 1);
      HandleIsCalls(maxmem, evicting, CallsOf(reqs, i - 1), reqs[i - 1]);
    }
  }

  lemma HandleAnswers(s: Store, p: Plain, req: Request)
    requires Sound(s) && Faithful(s, p) && Accepts(s, req)
    ensures Handle(s, req).1 == ReferenceAnswer(s.dict, req)
  {
    if req.verb == Method.Get && Found(s, req.target[1..]).bytes.Some? { ShownIsValue(p.writes[req.target[1..]]); }
  }

  /** In every run the server gives the answers that the reference gives from the requests alone. */
  lemma ServerIsReference(maxmem: nat, evicting: bool, reqs: seq<Request>, i: nat)
    requires maxmem < WORD && i < |reqs| && Taken(maxmem, evicting, reqs, i + 1)
    ensures forall j | 0 <= j <= i :: Addressed(reqs[j])
    ensures Answer(maxmem, evicting, reqs, i)
         == ReferenceAnswer(ReferenceAfter(maxmem, evicting, CallsOf(reqs, i)).held, reqs[i])
  {
    var s := StateAfter(maxmem, evicting, reqs, i);
    RunIsCalls(maxmem, evicting, reqs, i);
    HandleAnswers(s, PlainAfter(reqs, i), reqs[i]);
  }

  // ---------- Without an evictor: a plain map of the PUTs there was room for ----------

  /** A PUT is stored if its value fits beside the others, as 32 bits tell, and otherwise leaves nothing of its key. */
  ghost function NextStored(maxmem: nat, p: Plain, req: Request): Plain
    requires Addressed(req)
  {
    if req.verb == Put then
      var key, val := PutKey(req.target), PutValue(req.target);
      if (Size(p.writes - {key}) + |val| + 1) % 0x1_0000_0000 <= maxmem
      then Plain(p.writes[key := val], p.known + {key})
      else Plain(p.writes - {key}, p.known - {key})
    else RequestRuns.Next(p, req)
  }

  ghost function StoredAfter(maxmem: nat, reqs: seq<Request>, i: nat): Plain
    requires i <= |reqs| && forall j | 0 <= j < i :: Addressed(reqs[j])
  {
    if i == 0 then NOTHING else NextStored(maxmem, StoredAfter(maxmem, reqs, i - 1), reqs[i - 1])
  }

  /** Just the known keys are held, with just the values stored. */
  ghost predicate Holds(held: map<Key, Entry>, p: Plain) {
    && held.Keys == p.known && p.writes.Keys <= p.known
    && forall k | k in held :: held[k] == if k in p.writes then StoredAs(p.writes[k]) else MISSED
  }

  lemma HoldsSize(held: map<Key, Entry>, p: Plain, gone: set<Key>)
    requires Holds(held, p)
    ensures Total(held - gone) == Size(p.writes - gone)
  {
    MissedTakeNoRoom(held - gone);
    assert Held(held - gone) == Image(p.writes - gone);
  }

  lemma StoredStep(maxmem: nat, s: Store, p: Plain, req: Request)
    requires Sound(s) && s.queue.None? && s.maxmem == maxmem && Holds(s.dict, p) && Accepts(s, req)
    ensures Holds(Handle(s, req).0.dict, NextStored(maxmem, p, req))
  {
    if req.verb == Put { StoredPut(maxmem, s, p, req); }
  }

  lemma StoredPut(maxmem: nat, s: Store, p: Plain, req: Request)
    requires Sound(s) && s.queue.None? && s.maxmem == maxmem && Holds(s.dict, p)
    requires req.verb == Put && Accepts(s, req)
    ensures Holds(Handle(s, req).0.dict, NextStored(maxmem, p, req))
  {
    hide CacheSpec.Set, Sound, Size, Total, Line, AfterLine;
    var key, val := PutKey(req.target), PutValue(req.target);
    var s1 := CacheSpec.Get(s, key);
    OthersKeep(s, key);
    SetWithoutEvictor(s1, key, val + [NUL], |val| + 1);
    assert s1.dict - {key} == s.dict - {key};
    HoldsSize(s.dict, p, {key});
  }

  lemma {:induction false} StoredRun(maxmem: nat, reqs: seq<Request>, i: nat)
    requires maxmem < WORD && i <= |reqs| && Taken(maxmem, false, reqs, i)
    requires forall j | 0 <= j < i :: Addressed(reqs[j])
    ensures Holds(StateAfter(maxmem, false, reqs, i).dict, StoredAfter(maxmem, reqs, i))
    decreases i
  {
    if i > 0 {
      StoredRun(maxmem, reqs, i - 1);
      StoredStep(maxmem, StateAfter(maxmem, false, reqs, i - 1), StoredAfter(maxmem, reqs, i - 1), reqs[i - 1]);
    }
  }

  /** Without an evictor, every answer is that of a plain server that stores the PUTs there is room for. */
  lemma WithoutEvictorIsPlain(maxmem: nat, reqs: seq<Request>, i: nat)
    requires maxmem < WORD && i < |reqs| && Taken(maxmem, false, reqs, i + 1)
    ensures forall j | 0 <= j <= i :: Addressed(reqs[j])
    ensures var p := StoredAfter(maxmem, reqs, i);
            Answer(maxmem, false, reqs, i)
              == if reqs[i].verb == Head then Response(200, "", SpaceUsed(Size(p.writes) % 0x1_0000_0000))
                 else PlainAnswer(p, reqs[i])
  {
    var s, p := StateAfter(maxmem, false, reqs, i), StoredAfter(maxmem, reqs, i);
    StoredRun(maxmem, reqs, i);
    HandleAnswers(s, PlainAfter(reqs, i), reqs[i]);
    HoldsSize(s.dict, p, {});
    assert s.dict - {} == s.dict && p.writes - {} == p.writes;
    if reqs[i].verb != Head { PlainOfHeld(s.dict, p, reqs[i]); }
  }

  lemma PlainOfHeld(held: map<Key, Entry>, p: Plain, req: Request)
    requires Holds(held, p) && Addressed(req) && req.verb != Head
    ensures ReferenceAnswer(held, req) == PlainAnswer(p, req)
  {
    if req.verb == Method.Get && req.target[1..] in p.writes {
      var v := p.writes[req.target[1..]];
      assert (v + [NUL])[..|v + [NUL]| - 1] == v;
    }
  }
}
