/** First in, first out, as the clients of a server see it. */
module ServerWindow {
  import opened CacheSpec
  import opened Caches
  import opened RequestSpec
  import opened RequestRuns
  import opened FifoWindow

  predicate IsGetOrPut(req: Request) {
    req.verb in {Method.Get, Put} && req.target != [] && NUL !in req.target
  }

  /** The server looks up the key of a PUT before it sets it. */
  function OpOf(req: Request): Op
    requires IsGetOrPut(req)
  {
    if req.verb == Method.Get then GetOp(req.target[1..])
    else PutOp(Item(PutKey(req.target), PutValue(req.target) + [NUL], |PutValue(req.target)| + 1))
  }

  function OpsOf(reqs: seq<Request>): (ops: seq<Op>)
    requires forall j | 0 <= j < |reqs| :: IsGetOrPut(reqs[j])
    ensures |ops| == |reqs| && forall j | 0 <= j < |reqs| :: ops[j] == OpOf(reqs[j])
  {
    seq(|reqs|, j requires 0 <= j < |reqs| => OpOf(reqs[j]))
  }

  lemma HandleIsApply(s: Store, req: Request)
    requires Sound(s) && s.queue.Some? && IsGetOrPut(req)
    requires OpOf(req).PutOp? ==> OpOf(req).item.size <= s.maxmem
    ensures OpOf(req).GetOp? || MakesRoom(BeforeSet(s, OpOf(req)), OpOf(req).item.size)
    ensures Accepts(s, req) && Handle(s, req).0 == Apply(s, OpOf(req))
  {
    hide CacheSpec.Set, Del, MakesRoom;
    ApplyEnds(s, OpOf(req));
    FitsIsAccepted(s, req);
  }

  lemma {:induction false} RunIsRun(maxmem: nat, reqs: seq<Request>, i: nat)
    requires maxmem < WORD && i <= |reqs| && forall j | 0 <= j < |reqs| :: IsGetOrPut(reqs[j])
    requires Admissible(maxmem, OpsOf(reqs)[..i])
    ensures Taken(maxmem, true, reqs, i) && StateAfter(maxmem, true, reqs, i) == After(maxmem, OpsOf(reqs)[..i])
    decreases i
  {
    if i > 0 {
      var ops := OpsOf(reqs);
      assert ops[..i][..i - 1] == ops[..i - 1] && ops[..i][i - 1] == OpOf(reqs[i - 1]);
      RunIsRun(maxmem, reqs, i - 1);
      HandleIsApply(StateAfter(maxmem, true, reqs, i - 1), reqs[i - 1]);
    }
  }

  /**
   * After a run of PUTs of new keys and GETs of keys already put, a server with an evictor answers a GET with
   * the value put exactly for the keys in the longest suffix of the PUTs that fits, and with 404 for all others.
   */
  lemma ServerHoldsLongestSuffix(maxmem: nat, reqs: seq<Request>, key: Key)
    requires maxmem < WORD && forall j | 0 <= j < |reqs| :: IsGetOrPut(reqs[j])
    requires Admissible(maxmem, OpsOf(reqs)) && NeverWraps(maxmem, OpsOf(reqs))
    ensures Taken(maxmem, true, reqs, |reqs|) && forall j | 0 <= j < |reqs| :: Addressed(reqs[j])
    ensures var s := StateAfter(maxmem, true, reqs, |reqs|); var p := PlainAfter(reqs, |reqs|);
            var puts := SetsOf(OpsOf(reqs)); var get := Request(Method.Get, [SLASH] + key);
            Handle(s, get).1
              == if IsKeyOf(puts[WindowStart(puts, maxmem)..], key) then PlainAnswer(p, get) else NotFound(key)
    ensures var puts := SetsOf(OpsOf(reqs));
            IsKeyOf(puts[WindowStart(puts, maxmem)..], key) ==> key in PlainAfter(reqs, |reqs|).writes
  {
    var ops := OpsOf(reqs);
    assert ops[..|reqs|] == ops;
    RunIsRun(maxmem, reqs, |reqs|);
    HoldsLongestSuffix(maxmem, ops);
    var s, p := StateAfter(maxmem, true, reqs, |reqs|), PlainAfter(reqs, |reqs|);
    FifoHoldsSuffix(s, SetsOf(ops));
    assert ([SLASH] + key)[1..] == key;
    if Found(s, key).bytes.Some? { ShownIsValue(p.writes[key]); }
  }
}
