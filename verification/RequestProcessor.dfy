/** The handler over the cache object. */
module RequestProcessors {
  import opened CacheSpec
  import opened Caches
  import opened RequestSpec

  class RequestProcessor {
    /** One getline with a slash as delimiter. */
    method GetLine(stream: string) returns (line: string, rest: string)
      ensures line == Line(stream) && rest == AfterLine(stream)
    {
      var i := 0;
      while i < |stream| && stream[i] != SLASH
        invariant i <= |stream|
        invariant Line(stream) == stream[..i] + Line(stream[i..])
        invariant AfterLine(stream) == AfterLine(stream[i..])
      {
        LineGoesOn(stream, i);
        i := i + 1;
      }
      line := stream[..i];
      rest := if i < |stream| then stream[i + 1..] else [];
    }

    method HandleRequest(req: Request, cache: Cache) returns (res: Response)
      requires Accepts(cache.State(), req)
      modifies cache.Footprint()
      ensures (cache.State(), res) == Handle(old(cache.State()), req)
    {
      match req.verb {
        case Get =>
          var key := req.target[1..];
          var val, size := cache.Get(key);
          if val.None? {
            return NotFound(key);
          }
          return Response(200, "", KeyValue(key, Shown(val.value)));
        case Put =>
          res := HandlePut(req, cache);
        case Delete =>
          var key := req.target[1..];
          var success := cache.Del(key);
          if !success {
            return NotFound(key);
          }
          return Response(200, "", Empty);
        case Head =>
          var used := cache.SpaceUsed();
          return Response(200, "", SpaceUsed(used));
        case Post =>
          if req.target != "/reset" {
            return NotFound(req.target);
          }
          cache.Reset();
          return Response(200, "", ResetDone);
        case Other =>
          return Response(400, "", UnknownMethod);
      }
    }

    method HandlePut(req: Request, cache: Cache) returns (res: Response)
      requires req.verb == Put && Accepts(cache.State(), req)
      modifies cache.Footprint()
      ensures (cache.State(), res) == Handle(old(cache.State()), req)
    {
      var key, rest := GetLine(req.target[1..]);
      var val, _ := GetLine(rest);
      var found, _ := cache.Get(key);
      var keyCreated := found.None?;
      NoNul(req.target, val);
      ghost var stored := cache.Set(key, val + [NUL], |val| + 1);
      StoredIs(stored, val);
      return Response(if keyCreated then 201 else 204, [SLASH] + key, Empty);
    }
  }
}
