/** What the server answers to a request, as a function of the cache. */
module RequestSpec {
  import opened CacheSpec
  import opened Caches

  datatype Method = Get | Put | Delete | Head | Post | Other

  datatype Request = Request(verb: Method, target: string)

  datatype Content =
    | Empty
    | KeyValue(key: Key, value: string)  // encoded as JSON
    | Missing(name: string)
    | SpaceUsed(used: nat)  // sent as a header
    | ResetDone
    | UnknownMethod

  datatype Response = Response(status: nat, location: string, content: Content)

  const SLASH: char := '/'

  /** The characters before the first slash, and those after it: what one getline takes and what it leaves. */
  function Line(s: string): (r: string)
    ensures r <= s
  {
    if s == [] || s[0] == SLASH then [] else [s[0]] + Line(s[1..])
  }

  function AfterLine(s: string): (r: string)
    ensures |r| <= |s| && r == s[|s| - |r|..]
  {
    if s == [] then [] else if s[0] == SLASH then s[1..] else AfterLine(s[1..])
  }

  function PutKey(target: string): Key
    requires target != []
  {
    Line(target[1..])
  }

  function PutValue(target: string): string
    requires target != []
  {
    Line(AfterLine(target[1..]))
  }

  /** The target a client sends a pair with. */
  function PutTarget(key: Key, value: string): (target: string)
    ensures target != []
  {
    [SLASH] + key + [SLASH] + value
  }

  /** The value in a response: the stored characters up to a NUL, the last of them being made one. */
  function Shown(bytes: string): string {
    CString(if bytes == [] then [] else bytes[..|bytes| - 1])
  }

  function NotFound(name: string): Response {
    Response(404, "", Missing(name))
  }

  /** The handler slices off the first character of a target that it uses; the set of a PUT has to end. */
  predicate Accepts(s: Store, req: Request) {
    && (req.verb in {Method.Get, Put, Delete} ==> req.target != [])
    && (req.verb == Put ==>
          var key, size := PutKey(req.target), |PutValue(req.target)| + 1;
          NUL !in req.target && size < WORD && SetEnds(CacheSpec.Get(s, key), key, size))
  }

  function Handle(s: Store, req: Request): (Store, Response)
    requires Accepts(s, req)
  {
    match req.verb
    case Get =>
      var key := req.target[1..];
      var found := Found(s, key);
      (CacheSpec.Get(s, key),
       if found.bytes.None? then NotFound(key) else Response(200, "", KeyValue(key, Shown(found.bytes.value))))
    case Put =>
      var key, val := PutKey(req.target), PutValue(req.target);
      var created := Found(s, key).bytes.None?;
      (CacheSpec.Set(CacheSpec.Get(s, key), key, val + [NUL], |val| + 1),
       Response(if created then 201 else 204, [SLASH] + key, Empty))
    case Delete =>
      var key := req.target[1..];
      if key in s.dict then (Del(s, key), Response(200, "", Empty)) else (s, NotFound(key))
    case Head => (s, Response(200, "", SpaceUsed(s.used)))
    case Post =>
      if req.target != "/reset" then (s, NotFound(req.target))
      else (CacheSpec.Reset(s), Response(200, "", ResetDone))
    case Other => (s, Response(400, "", UnknownMethod))
  }

  // ---------- Strings without a NUL ----------

  lemma NoNul(target: string, val: string)
    requires target != [] && NUL !in target && val == PutValue(target)
    ensures CString(val + [NUL]) == val
  {
    LineIsPart(target[1..]);
    LineIsPart(AfterLine(target[1..]));
    EndsAtNul(val);
  }

  lemma LineIsPart(s: string)
    requires NUL !in s
    ensures NUL !in Line(s) && NUL !in AfterLine(s)
  {
    forall i | 0 <= i < |Line(s)| ensures Line(s)[i] != NUL { assert Line(s)[i] == s[i]; }
  }

  lemma LineGoesOn(s: string, i: nat)
    requires i < |s| && s[i] != SLASH
    ensures Line(s[i..]) == [s[i]] + Line(s[i + 1..]) && AfterLine(s[i..]) == AfterLine(s[i + 1..])
  {
    assert s[i..][1..] == s[i + 1..];
  }

  lemma StoredIs(stored: string, val: string)
    requires NUL !in val && |stored| == |val| + 1 && stored[|val|] == NUL && val <= stored
    ensures stored == val + [NUL]
  {
  }

  lemma {:induction false} EndsAtNul(val: string)
    requires NUL !in val
    ensures CString(val + [NUL]) == val
  {
    if val != [] {
      EndsAtNul(val[1..]);
      assert (val + [NUL])[1..] == val[1..] + [NUL];
    }
  }
}
