/** Whole runs of the server against a plain map that keeps the last value written to every key. */
module RequestRuns {
  import opened CacheSpec
  import opened Caches
  import opened RequestSpec

  /**
   * A server with room for everything: the last value written to every key, and the keys a DELETE will
   * find, which are also those that were only looked up.
   */
  datatype Plain = Plain(writes: map<Key, string>, known: set<Key>)

  const NOTHING := Plain(map[], {})

  predicate Addressed(req: Request) {
    req.verb in {Get, Put, Delete} ==> req.target != []
  }

  function Next(p: Plain, req: Request): Plain
    requires Addressed(req)
  {
    match req.verb
    case Get => p.(known := p.known + {req.target[1..]})
    case Put =>
      var key := PutKey(req.target);
      Plain(p.writes[key := PutValue(req.target)], p.known + {key})
    case Delete => Plain(p.writes - {req.target[1..]}, p.known - {req.target[1..]})
    case Post => if req.target == "/reset" then NOTHING else p
    case _ => p
  }

  ghost function PlainAnswer(p: Plain, req: Request): Response
    requires Addressed(req)
  {
    match req.verb
    case Get =>
      var key := req.target[1..];
      if key in p.writes then Response(200, "", KeyValue(key, p.writes[key])) else NotFound(key)
    case Put =>
      var key := PutKey(req.target);
      Response(if key in p.writes then 204 else 201, [SLASH] + key, Empty)
    case Delete =>
      var key := req.target[1..];
      if key in p.known then Response(200, "", Empty) else NotFound(key)
    case Head => Response(200, "", SpaceUsed(Size(p.writes)))
    case Post => if req.target == "/reset" then Response(200, "", ResetDone) else NotFound(req.target)
    case Other => Response(400, "", UnknownMethod)
  }

  /** Only known keys are held, and every value held is the last one written to its key. */
  ghost predicate Faithful(s: Store, p: Plain) {
    && (forall k | k in s.dict :: k in p.known)
    && forall k | k in s.dict && s.dict[k].bytes.Some? ::
         k in p.writes && s.dict[k] == StoredAs(p.writes[k]) && NUL !in p.writes[k]
  }

  function StoredAs(val: string): Entry {
    Entry(Some(val + [NUL]), |val| + 1)
  }

  /**
   * A response is that of the plain server, or of one that has forgotten the key: never an older value,
   * nor anything that was not written. What HEAD tells is the sum of the sizes held, modulo 2^32.
   */
  ghost predicate Truthful(s: Store, p: Plain, req: Request, res: Response)
    requires Addressed(req)
  {
    if req.verb == Head then res == Response(200, "", SpaceUsed(Total(s.dict) % WORD))
    else res == PlainAnswer(p, req) || res == PlainAnswer(NOTHING, req)
  }

  lemma {:induction false} EvictionKeepsEntries(s: Store, size: nat)
    requires s.queue.Some? && MakesRoom(s, size)
    ensures forall k | k in EvictUntilFits(s, size).dict :: k in s.dict && EvictUntilFits(s, size).dict[k] == s.dict[k]
    decreases |s.queue.value|
  {
    if TooFull(s, size) { EvictionKeepsEntries(EvictOne(s), size); }
  }

  /** A set leaves only entries that were there before, and the new one if it was not refused; the old one is gone. */
  lemma SetKeepsEntries(s: Store, key: Key, bytes: string, size: nat)
    requires SetEnds(s, key, size)
    ensures var r := CacheSpec.Set(s, key, bytes, size);
            && (forall k | k in r.dict && k != key :: k in s.dict && r.dict[k] == s.dict[k])
            && (key in r.dict <==> !Refused(s, key, size))
            && (key in r.dict ==> r.dict[key] == Entry(Some(bytes), size))
  {
    if s.queue.Some? { EvictionKeepsEntries(Del(s, key), size); }
  }

  lemma ShownIsValue(v: string)
    requires NUL !in v
    ensures Shown(v + [NUL]) == v
  {
    assert (v + [NUL])[..|v|] == v;
    NoNulInside(v);
  }

  lemma NoNulInside(v: string)
    requires NUL !in v
    ensures CString(v) == v
  {
    if v != [] { NoNulInside(v[1..]); }
  }

  lemma Step(s: Store, p: Plain, req: Request)
    requires Sound(s) && Faithful(s, p) && Accepts(s, req)
    ensures var (s', res) := Handle(s, req);
            && Sound(s') && s'.maxmem == s.maxmem && s'.queue.Some? == s.queue.Some?
            && Faithful(s', Next(p, req)) && Truthful(s, p, req, res)
  {
    match req.verb {
      case Get =>
        var key := req.target[1..];
        OthersKeep(s, key);
        if Found(s, key).bytes.Some? { ShownIsValue(p.writes[key]); }
      case Put => PutStep(s, p, req);
      case Delete => OthersKeep(s, req.target[1..]);
      case _ => OthersKeep(s, "");
    }
  }

  lemma PutStep(s: Store, p: Plain, req: Request)
    requires req.verb == Put && Sound(s) && Faithful(s, p) && Accepts(s, req)
    ensures var (s', res) := Handle(s, req);
            && Sound(s') && s'.maxmem == s.maxmem && s'.queue.Some? == s.queue.Some?
            && Faithful(s', Next(p, req)) && Truthful(s, p, req, res)
  {
    hide CacheSpec.Set, CacheSpec.Del, Line, AfterLine;
    var key, val := PutKey(req.target), PutValue(req.target);
    OthersKeep(s, key);
    LineIsPart(req.target[1..]);
    LineIsPart(AfterLine(req.target[1..]));
    SetStep(CacheSpec.Get(s, key), Plain(p.writes, p.known + {key}), key, val);
  }

  lemma SetStep(s: Store, p: Plain, key: Key, val: string)
    requires Sound(s) && Faithful(s, p) && NUL !in val && key in p.known && SetEnds(s, key, |val| + 1)
    ensures var r := CacheSpec.Set(s, key, val + [NUL], |val| + 1);
            && Sound(r) && r.maxmem == s.maxmem && r.queue.Some? == s.queue.Some?
            && Faithful(r, p.(writes := p.writes[key := val]))
  {
    SetKeepsSound(s, key, val + [NUL], |val| + 1);
    SetKeepsEntries(s, key, val + [NUL], |val| + 1);
  }

  // ---------- Runs ----------

  function PlainAfter(reqs: seq<Request>, i: nat): Plain
    requires i <= |reqs| && forall j | 0 <= j < i :: Addressed(reqs[j])
  {
    if i == 0 then NOTHING else Next(PlainAfter(reqs, i - 1), reqs[i - 1])
  }

  /** The server takes the first i requests, each in the state that those before it lead to. */
  ghost predicate Taken(maxmem: nat, evicting: bool, reqs: seq<Request>, i: nat)
    requires maxmem < WORD && i <= |reqs|
    decreases i, 0
  {
    i == 0 || (Taken(maxmem, evicting, reqs, i - 1)
               && Accepts(StateAfter(maxmem, evicting, reqs, i - 1), reqs[i - 1]))
  }

  /** The cache after the first i requests. */
  ghost function StateAfter(maxmem: nat, evicting: bool, reqs: seq<Request>, i: nat): (s: Store)
    requires maxmem < WORD && i <= |reqs| && Taken(maxmem, evicting, reqs, i)
    ensures Sound(s) && s.maxmem == maxmem && s.queue.Some? == evicting
    ensures (forall j | 0 <= j < i :: Addressed(reqs[j])) && Faithful(s, PlainAfter(reqs, i))
    decreases i, 1
  {
    if i == 0 then Start(maxmem, evicting)
    else
      var s := StateAfter(maxmem, evicting, reqs, i - 1);
      Step(s, PlainAfter(reqs, i - 1), reqs[i - 1]);
      Handle(s, reqs[i - 1]).0
  }

  ghost function Answer(maxmem: nat, evicting: bool, reqs: seq<Request>, i: nat): Response
    requires maxmem < WORD && i < |reqs| && Taken(maxmem, evicting, reqs, i + 1)
  {
    Handle(StateAfter(maxmem, evicting, reqs, i), reqs[i]).1
  }

  /** In every run, with or without wrapping additions, every response is true of the requests before it. */
  lemma RunsAreTruthful(maxmem: nat, evicting: bool, reqs: seq<Request>, i: nat)
    requires maxmem < WORD && i < |reqs| && Taken(maxmem, evicting, reqs, i + 1)
    ensures var s := StateAfter(maxmem, evicting, reqs, i);
            Truthful(s, PlainAfter(reqs, i), reqs[i], Answer(maxmem, evicting, reqs, i))
  {
    Step(StateAfter(maxmem, evicting, reqs, i), PlainAfter(reqs, i), reqs[i]);
  }

  /** Requests the server takes whatever its state: with an evictor, values in PUTs are within the limit. */
  predicate Fits(maxmem: nat, evicting: bool, req: Request) {
    && Addressed(req)
    && (req.verb == Put ==>
          var size := |PutValue(req.target)| + 1;
          NUL !in req.target && size < WORD && (evicting ==> size <= maxmem))
  }

  lemma FitsIsAccepted(s: Store, req: Request)
    requires Sound(s) && Fits(s.maxmem, s.queue.Some?, req)
    ensures Accepts(s, req)
  {
    if req.verb == Put && s.queue.Some? {
      var key, size := PutKey(req.target), |PutValue(req.target)| + 1;
      OthersKeep(s, key);
      DelKeepsSound(CacheSpec.Get(s, key), key);
      RoomWithinLimit(Del(CacheSpec.Get(s, key), key), size);
    }
  }

  lemma {:induction false} AllFitIsTaken(maxmem: nat, evicting: bool, reqs: seq<Request>, i: nat)
    requires maxmem < WORD && i <= |reqs| && forall j | 0 <= j < i :: Fits(maxmem, evicting, reqs[j])
    ensures Taken(maxmem, evicting, reqs, i)
    decreases i
  {
    if i > 0 {
      AllFitIsTaken(maxmem, evicting, reqs, i - 1);
      FitsIsAccepted(StateAfter(maxmem, evicting, reqs, i - 1), reqs[i - 1]);
    }
  }

  // ---------- The byte count over a run ----------

  /** The request is a PUT that is not refused and whose addition wraps around 32 bits. */
  predicate Wraps(s: Store, req: Request)
    requires Addressed(req)
  {
    req.verb == Put &&
    var key, size := PutKey(req.target), |PutValue(req.target)| + 1;
    var s1 := CacheSpec.Get(s, key);
    !Refused(s1, key, size) && Del(s1, key).used + size >= WORD
  }

  /** The byte count is the sum of the sizes and within the limit at every point just if no addition wraps around. */
  lemma {:induction false} CountIsExact(maxmem: nat, evicting: bool, reqs: seq<Request>, i: nat)
    requires maxmem < WORD && i <= |reqs| && Taken(maxmem, evicting, reqs, i)
    ensures (forall j | 0 <= j <= i :: CoherentAfter(maxmem, evicting, reqs, j))
            <==> (forall j | 0 <= j < i :: !WrapsAfter(maxmem, evicting, reqs, j))
    decreases i
  {
    hide CoherentAfter, WrapsAfter;
    if i == 0 {
      CoherentAtFirst(maxmem, evicting, reqs);
    } else {
      CountIsExact(maxmem, evicting, reqs, i - 1);
      if CoherentAfter(maxmem, evicting, reqs, i - 1) { CountStep(maxmem, evicting, reqs, i - 1); }
    }
  }

  lemma CoherentAtFirst(maxmem: nat, evicting: bool, reqs: seq<Request>)
    requires maxmem < WORD
    ensures CoherentAfter(maxmem, evicting, reqs, 0)
  {
  }

  lemma CountStep(maxmem: nat, evicting: bool, reqs: seq<Request>, i: nat)
    requires maxmem < WORD && i < |reqs| && Taken(maxmem, evicting, reqs, i + 1)
    requires CoherentAfter(maxmem, evicting, reqs, i)
    ensures CoherentAfter(maxmem, evicting, reqs, i + 1) <==> !WrapsAfter(maxmem, evicting, reqs, i)
  {
    hide Wraps;
    HandleKeepsCoherent(StateAfter(maxmem, evicting, reqs, i), reqs[i]);
  }

  ghost predicate CoherentAfter(maxmem: nat, evicting: bool, reqs: seq<Request>, i: nat)
    requires maxmem < WORD && i <= |reqs|
  {
    Taken(maxmem, evicting, reqs, i) && Coherent(StateAfter(maxmem, evicting, reqs, i))
  }

  ghost predicate WrapsAfter(maxmem: nat, evicting: bool, reqs: seq<Request>, i: nat)
    requires maxmem < WORD && i < |reqs|
  {
    && Taken(maxmem, evicting, reqs, i) && Addressed(reqs[i])
    && Wraps(StateAfter(maxmem, evicting, reqs, i), reqs[i])
  }

  lemma HandleKeepsCoherent(s: Store, req: Request)
    requires Coherent(s) && Accepts(s, req)
    ensures Coherent(Handle(s, req).0) <==> !Wraps(s, req)
  {
    match req.verb {
      case Put =>
        var key, val := PutKey(req.target), PutValue(req.target);
        OthersKeep(s, key);
        SetKeepsCoherent(CacheSpec.Get(s, key), key, val + [NUL], |val| + 1);
      case Post => OthersKeep(s, "");
      case _ => if req.target != [] { OthersKeep(s, req.target[1..]); }
    }
  }

  // ---------- Nothing is lost while everything fits ----------

  /** Just the known keys are there, with all values written. */
  ghost predicate Holding(s: Store, p: Plain) {
    && Coherent(s) && Faithful(s, p) && (forall k | k in p.known :: k in s.dict)
    && forall k | k in p.writes :: k in s.dict && s.dict[k].bytes.Some?
  }

  function Image(m: map<Key, string>): map<Key, Entry> {
    map k | k in m :: StoredAs(m[k])
  }

  /** The room that all the last writes take together. */
  ghost function Size(m: map<Key, string>): nat {
    Total(Image(m))
  }

  function Held(d: map<Key, Entry>): map<Key, Entry> {
    map k | k in d && d[k].bytes.Some? :: d[k]
  }

  lemma {:induction false} MissedTakeNoRoom(d: map<Key, Entry>)
    requires forall k | k in d && d[k].bytes.None? :: d[k].size == 0
    ensures Total(d) == Total(Held(d))
    decreases |d|
  {
    if k :| k in d && d[k].bytes.None? {
      TotalWithout(d, k);
      MissedTakeNoRoom(d - {k});
      assert Held(d - {k}) == Held(d);
    } else {
      assert Held(d) == d;
    }
  }

  lemma HeldIsImage(s: Store, p: Plain, gone: set<Key>)
    requires Holding(s, p)
    ensures Total(s.dict - gone) == Size(p.writes - gone)
  {
    var d := s.dict - gone;
    MissedTakeNoRoom(d);
    assert Held(d) == Image(p.writes - gone);
  }

  lemma SizeWith(m: map<Key, string>, key: Key, val: string)
    ensures Size(m[key := val]) == Size(m - {key}) + |val| + 1
  {
    TotalWith(Image(m - {key}), key, StoredAs(val));
    assert Image(m[key := val]) == Image(m - {key})[key := StoredAs(val)];
  }

  lemma HoldingStep(s: Store, p: Plain, req: Request)
    requires Holding(s, p) && Accepts(s, req) && Size(Next(p, req).writes) <= s.maxmem
    ensures Holding(Handle(s, req).0, Next(p, req))
  {
    Step(s, p, req);
    if req.verb == Put {
      HoldingPut(s, p, req);
    } else {
      HandleKeepsCoherent(s, req);
    }
  }

  lemma HoldingPut(s: Store, p: Plain, req: Request)
    requires Holding(s, p) && req.verb == Put && Accepts(s, req) && Size(Next(p, req).writes) <= s.maxmem
    requires Faithful(Handle(s, req).0, Next(p, req))
    ensures Holding(Handle(s, req).0, Next(p, req))
  {
    hide CacheSpec.Set, CacheSpec.Del, Line, AfterLine, Sound, Size;
    RoomForPut(s, p, PutKey(req.target), PutValue(req.target));
  }

  lemma RoomForPut(s: Store, p: Plain, key: Key, val: string)
    requires Holding(s, p) && Size(p.writes[key := val]) <= s.maxmem
    ensures var s1 := CacheSpec.Get(s, key); var size := |val| + 1;
            && SetEnds(s1, key, size) && Coherent(CacheSpec.Set(s1, key, val + [NUL], size))
            && CacheSpec.Set(s1, key, val + [NUL], size).dict == (s.dict - {key})[key := StoredAs(val)]
  {
    HeldIsImage(s, p, {key});
    SizeWith(p.writes, key, val);
    SetAfterMiss(s, key, val + [NUL], |val| + 1);
  }

  lemma SetAfterMiss(s: Store, key: Key, bytes: string, size: nat)
    requires Coherent(s) && Total(s.dict - {key}) + size <= s.maxmem
    ensures var s1 := CacheSpec.Get(s, key);
            && SetEnds(s1, key, size) && Coherent(CacheSpec.Set(s1, key, bytes, size))
            && CacheSpec.Set(s1, key, bytes, size).dict == (s.dict - {key})[key := Entry(Some(bytes), size)]
  {
    var s1 := CacheSpec.Get(s, key);
    OthersKeep(s, key);
    assert s1.dict - {key} == s.dict - {key};
    DelKeepsCoherent(s1, key);
    assert key in s1.dict && !TooFull(Del(s1, key), size);
    SetKeepsCoherent(s1, key, bytes, size);
  }

  lemma {:induction false} HoldingRun(maxmem: nat, evicting: bool, reqs: seq<Request>, i: nat)
    requires maxmem < WORD && i <= |reqs| && Taken(maxmem, evicting, reqs, i)
    requires forall j | 0 <= j < i :: Addressed(reqs[j])
    requires forall j | 0 < j <= i :: Size(PlainAfter(reqs, j).writes) <= maxmem
    ensures Holding(StateAfter(maxmem, evicting, reqs, i), PlainAfter(reqs, i))
    decreases i
  {
    if i > 0 {
      HoldingRun(maxmem, evicting, reqs, i - 1);
      assert Size(PlainAfter(reqs, i).writes) <= maxmem;
      HoldingStep(StateAfter(maxmem, evicting, reqs, i - 1), PlainAfter(reqs, i - 1), reqs[i - 1]);
    }
  }

  /** While all last writes fit together, the server answers every request just as the plain one does. */
  lemma NothingLostWhileAllFits(maxmem: nat, evicting: bool, reqs: seq<Request>, i: nat)
    requires maxmem < WORD && i < |reqs| && Taken(maxmem, evicting, reqs, i + 1)
    requires forall j | 0 <= j <= i :: Addressed(reqs[j])
    requires forall j | 0 < j <= i :: Size(PlainAfter(reqs, j).writes) <= maxmem
    ensures Answer(maxmem, evicting, reqs, i) == PlainAnswer(PlainAfter(reqs, i), reqs[i])
  {
    HoldingRun(maxmem, evicting, reqs, i);
    HoldingAnswer(StateAfter(maxmem, evicting, reqs, i), PlainAfter(reqs, i), reqs[i]);
  }

  lemma HoldingAnswer(s: Store, p: Plain, req: Request)
    requires Holding(s, p) && Accepts(s, req)
    ensures Handle(s, req).1 == PlainAnswer(p, req)
  {
    Step(s, p, req);
    if req.verb == Head {
      HeldIsImage(s, p, {});
      assert s.dict - {} == s.dict && p.writes - {} == p.writes;
    }
  }

  // ---------- Reading back at once ----------

  /** A GET that directly follows a PUT of the key answers its value, in every state, unless that was refused. */
  lemma PutThenGet(s: Store, put: Request, get: Request)
    requires Accepts(s, put) && put.verb == Put && get == Request(Get, [SLASH] + PutKey(put.target))
    ensures var key, val := PutKey(put.target), PutValue(put.target); var s' := Handle(s, put).0;
            if Refused(CacheSpec.Get(s, key), key, |val| + 1) then Handle(s', get).1 == NotFound(key)
            else Handle(s', get).1 == Response(200, "", KeyValue(key, val)) && Found(s', key).size == |val| + 1
  {
    hide CacheSpec.Set, CacheSpec.Del, Line, AfterLine;
    var key, val := PutKey(put.target), PutValue(put.target);
    SetKeepsEntries(CacheSpec.Get(s, key), key, val + [NUL], |val| + 1);
    assert get.target[1..] == key;
    LineIsPart(put.target[1..]);
    LineIsPart(AfterLine(put.target[1..]));
    ShownIsValue(val);
  }

  /**
   * What is shown of a stored value is the value, whatever else was in the buffer, exactly when it was stored
   * with its length plus one as its size.
   */
  lemma ShownExactly(val: string, size: nat)
    requires |CString(val)| <= size && 0 < size
    ensures (forall stored | IsCopy(stored, val, size) :: Shown(stored) == CString(val))
            <==> size == |CString(val)| + 1
  {
    hide CString, Shown, IsCopy;
    if size == |CString(val)| + 1 {
      forall stored | IsCopy(stored, val, size) ensures Shown(stored) == CString(val) {
        ShownInFull(val, size, stored);
      }
    } else {
      var stored := ShownOtherwise(val, size);
    }
  }

  /** What is shown ends at the first NUL, or one before the end. */
  lemma ShownUpTo(bytes: string)
    requires bytes != []
    ensures var n := |Shown(bytes)|;
            && n < |bytes| && Shown(bytes) == bytes[..n] && NUL !in bytes[..n]
            && (n < |bytes| - 1 ==> bytes[n] == NUL)
  {
    var init := bytes[..|bytes| - 1];
    assert init[..|CString(init)|] == bytes[..|CString(init)|];
  }

  lemma ShownInFull(val: string, size: nat, stored: string)
    requires size == |CString(val)| + 1 && IsCopy(stored, val, size)
    ensures Shown(stored) == CString(val)
  {
    assert stored[..size - 1] == CString(val);
    NoNulInside(CString(val));
  }

  lemma ShownOtherwise(val: string, size: nat) returns (stored: string)
    requires |CString(val)| <= size && 0 < size && size != |CString(val)| + 1
    ensures IsCopy(stored, val, size) && Shown(stored) != CString(val)
  {
    var v, n := CString(val), |CString(val)|;
    if size == n {
      stored := v[..n - 1] + [NUL];
    } else {
      stored := v + ['x'] + seq(size - n - 1, _ => NUL);
      StartsWith(v + ['x'], stored[..size - 1]);
    }
  }

  lemma {:induction false} StartsWith(v: string, s: string)
    requires v <= s && NUL !in v
    ensures |CString(s)| >= |v|
    decreases |v|
  {
    if v != [] { StartsWith(v[1..], s[1..]); }
  }

  /** A DELETE answers 200 for a key that is held, and for one that was never written but looked up before. */
  lemma DeleteAfterMiss(s: Store, key: Key)
    ensures var get := Request(Get, [SLASH] + key); var del := Request(Delete, [SLASH] + key);
            && Handle(Handle(s, get).0, del).1.status == 200
            && (Handle(s, del).1.status == 200 <==> key in s.dict)
  {
    assert ([SLASH] + key)[1..] == key;
  }

  // ---------- What the client sends is what the server reads ----------

  lemma {:induction false} LineOf(a: string, rest: string)
    requires SLASH !in a && (rest == [] || rest[0] == SLASH)
    ensures Line(a + rest) == a && AfterLine(a + rest) == if rest == [] then [] else rest[1..]
  {
    if a == [] {
      assert a + rest == rest;
    } else {
      assert (a + rest)[1..] == a[1..] + rest;
      LineOf(a[1..], rest);
    }
  }

  lemma NoSlashInLine(s: string)
    ensures SLASH !in Line(s)
  {
  }

  /** One getline takes everything before the first slash, and leaves everything behind it. */
  lemma {:induction false} LineSplits(s: string)
    ensures var n := |Line(s)|;
            && Line(s) == s[..n] && SLASH !in s[..n]
            && if n < |s| then s[n] == SLASH && AfterLine(s) == s[n + 1..] else AfterLine(s) == []
    decreases |s|
  {
    NoSlashInLine(s);
    if s != [] && s[0] != SLASH {
      LineSplits(s[1..]);
      var n := |Line(s[1..])|;
      assert n < |s[1..]| ==> s[1..][n + 1..] == s[n + 2..];
    }
  }

  /** The server reads back exactly the pair that was sent just when neither part contains a slash. */
  lemma PutTargetRoundTrip(key: Key, value: string)
    ensures (PutKey(PutTarget(key, value)) == key && PutValue(PutTarget(key, value)) == value)
            <==> SLASH !in key && SLASH !in value
  {
    hide PutKey, PutValue, PutTarget;
    NoSlashRead(PutTarget(key, value));
    if SLASH !in key && SLASH !in value { ReadBack(key, value); }
  }

  lemma NoSlashRead(target: string)
    requires target != []
    ensures SLASH !in PutKey(target) && SLASH !in PutValue(target)
  {
    NoSlashInLine(target[1..]);
    NoSlashInLine(AfterLine(target[1..]));
  }

  lemma ReadBack(key: Key, value: string)
    requires SLASH !in key && SLASH !in value
    ensures PutKey(PutTarget(key, value)) == key && PutValue(PutTarget(key, value)) == value
  {
    hide Line, AfterLine;
    assert PutTarget(key, value)[1..] == key + ([SLASH] + value);
    LineOf(key, [SLASH] + value);
    LineOf(value, []);
    assert value + [] == value && ([SLASH] + value)[1..] == value;
  }
}
