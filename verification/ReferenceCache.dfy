/**
 * The cache against a reference that has no queue: it knows what was called, and how many of the touches that
 * the calls made were used up by evictions.
 */
module ReferenceCache {
  import opened CacheSpec

  datatype Call = SetCall(key: Key, bytes: string, size: nat) | GetCall(key: Key) | DelCall(key: Key) | ResetCall

  /** The keys touched by calls, in the order of the touches. */
  function Touches(calls: seq<Call>): seq<Key> {
    if calls == [] then []
    else
      var last := calls[|calls| - 1];
      Touches(calls[..|calls| - 1]) + if last.SetCall? || last.GetCall? then [last.key] else []
  }

  /** What is held, and how many touches are used up. */
  datatype Reference = Reference(held: map<Key, Entry>, gone: nat)

  /** The size fits beside what is held, as 32 bits tell. */
  ghost predicate Fits(held: map<Key, Entry>, size: nat, maxmem: nat) {
    (Total(held) + size) % 0x1_0000_0000 <= maxmem
  }

  /** The first position from n on up to which touches have to be used up for the size to fit. */
  ghost function UsedUp(held: map<Key, Entry>, log: seq<Key>, gone: nat, n: nat, size: nat, maxmem: nat): (r: nat)
    requires gone <= n <= |log|
    ensures n <= r <= |log|
    decreases |log| - n
  {
    if n == |log| || Fits(held - KeySet(log[gone..n]), size, maxmem) then n
    else UsedUp(held, log, gone, n + 1, size, maxmem)
  }

  ghost function Next(maxmem: nat, evicting: bool, log: seq<Key>, r: Reference, call: Call): Reference
    requires r.gone <= |log|
  {
    match call
    case SetCall(key, bytes, size) =>
      var others, entry := r.held - {key}, Entry(Some(bytes), size);
      if evicting then
        var n := UsedUp(others, log, r.gone, r.gone, size, maxmem);
        Reference((others - KeySet(log[r.gone..n]))[key := entry], n)
      else if Fits(others, size, maxmem) then Reference(others[key := entry], r.gone)
      else Reference(others, r.gone)
    case GetCall(key) => if key in r.held then r else r.(held := r.held[key := Entry(None, 0)])
    case DelCall(key) => r.(held := r.held - {key})
    case ResetCall => r.(held := map[])
  }

  ghost function ReferenceAfter(maxmem: nat, evicting: bool, calls: seq<Call>): (r: Reference)
    ensures r.gone <= |Touches(calls)|
  {
    if calls == [] then Reference(map[], 0)
    else
      var init := calls[..|calls| - 1];
      Next(maxmem, evicting, Touches(init), ReferenceAfter(maxmem, evicting, init), calls[|calls| - 1])
  }

  // ---------- The cache does the same ----------

  /** The call comes to an end. */
  predicate Ends(s: Store, call: Call) {
    call.SetCall? ==> SetEnds(s, call.key, call.size)
  }

  function Made(s: Store, call: Call): Store
    requires Ends(s, call)
  {
    match call
    case SetCall(key, bytes, size) => Set(s, key, bytes, size)
    case GetCall(key) => Get(s, key)
    case DelCall(key) => Del(s, key)
    case ResetCall => Reset(s)
  }

  /** The cache holds what the reference holds, and has the touches queued that are not used up. */
  ghost predicate Matches(s: Store, maxmem: nat, evicting: bool, log: seq<Key>, r: Reference) {
    && Sound(s) && s.maxmem == maxmem && s.dict == r.held && s.used == Total(r.held) % WORD
    && r.gone <= |log| && s.queue == if evicting then Some(log[r.gone..]) else None
  }

  lemma {:induction false} LeastIsUsedUp(held: map<Key, Entry>, log: seq<Key>, gone: nat, n: nat, m: nat,
                                         size: nat, maxmem: nat)
    requires gone <= n <= m <= |log| && Fits(held - KeySet(log[gone..m]), size, maxmem)
    requires forall j | n <= j < m :: !Fits(held - KeySet(log[gone..j]), size, maxmem)
    ensures UsedUp(held, log, gone, n, size, maxmem) == m
    decreases m - n
  {
    if n < m { LeastIsUsedUp(held, log, gone, n + 1, m, size, maxmem); }
  }

  lemma SetMatches(s: Store, maxmem: nat, log: seq<Key>, r: Reference, key: Key, bytes: string, size: nat)
    requires Matches(s, maxmem, true, log, r) && SetEnds(s, key, size)
    ensures var r' := Next(maxmem, true, log, r, SetCall(key, bytes, size));
            Matches(Set(s, key, bytes, size), maxmem, true, log + [key], r')
  {
    hide Set, Sound, SetEnds, Total, Touch;
    SetIsSound(s, key, bytes, size);
    var n := SetWithEvictor(s, key, bytes, size);
    var q, m := log[r.gone..], r.gone + n;
    forall j | r.gone <= j <= m ensures log[r.gone..j] == q[..j - r.gone] {}
    forall j | r.gone <= j < m ensures !Fits(r.held - {key} - KeySet(log[r.gone..j]), size, maxmem) {
      assert log[r.gone..j] == q[..j - r.gone];
    }
    LeastIsUsedUp(r.held - {key}, log, r.gone, r.gone, m, size, maxmem);
    assert (log + [key])[m..] == q[n..] + [key];
  }

  lemma SetIsSound(s: Store, key: Key, bytes: string, size: nat)
    requires Sound(s) && SetEnds(s, key, size)
    ensures Sound(Set(s, key, bytes, size))
  {
    SetKeepsSound(s, key, bytes, size);
  }

  lemma CallMatches(s: Store, maxmem: nat, evicting: bool, log: seq<Key>, r: Reference, call: Call)
    requires Matches(s, maxmem, evicting, log, r) && Ends(s, call)
    ensures var log' := log + if call.SetCall? || call.GetCall? then [call.key] else [];
            Matches(Made(s, call), maxmem, evicting, log', Next(maxmem, evicting, log, r, call))
  {
    hide Set;
    assert log + [] == log;
    match call {
      case SetCall(key, bytes, size) =>
        if evicting {
          SetMatches(s, maxmem, log, r, key, bytes, size);
        } else {
          SetKeepsSound(s, key, bytes, size);
          SetWithoutEvictor(s, key, bytes, size);
        }
      case GetCall(key) =>
        OthersKeep(s, key);
        assert (log + [key])[r.gone..] == log[r.gone..] + [key];
      case DelCall(key) => DelKeepsSound(s, key);
      case ResetCall => OthersKeep(s, "");
    }
  }

  /** Every call of the run comes to an end. */
  ghost predicate AllEnd(maxmem: nat, evicting: bool, calls: seq<Call>)
    requires maxmem < WORD
    decreases |calls|, 0
  {
    calls == [] ||
    var init := calls[..|calls| - 1];
    AllEnd(maxmem, evicting, init) && Ends(StoreAfter(maxmem, evicting, init), calls[|calls| - 1])
  }

  /** The cache after a run; it is what the reference says, whatever was called. */
  ghost function StoreAfter(maxmem: nat, evicting: bool, calls: seq<Call>): (s: Store)
    requires maxmem < WORD && AllEnd(maxmem, evicting, calls)
    ensures Matches(s, maxmem, evicting, Touches(calls), ReferenceAfter(maxmem, evicting, calls))
    decreases |calls|, 1
  {
    if calls == [] then
      StartMatches(maxmem, evicting);
      Start(maxmem, evicting)
    else
      var init, last := calls[..|calls| - 1], calls[|calls| - 1];
      var s := StoreAfter(maxmem, evicting, init);
      CallMatches(s, maxmem, evicting, Touches(init), ReferenceAfter(maxmem, evicting, init), last);
      Made(s, last)
  }

  /**
   * In every run the cache finds and keeps just what the reference does, counts the sum of the sizes modulo
   * 2^32, and has the touches queued that are not used up.
   */
  lemma CacheIsReference(maxmem: nat, evicting: bool, calls: seq<Call>)
    requires maxmem < WORD && AllEnd(maxmem, evicting, calls)
    ensures var s := StoreAfter(maxmem, evicting, calls); var r := ReferenceAfter(maxmem, evicting, calls);
            && (forall key :: Found(s, key) == if key in r.held then r.held[key] else Entry(None, 0))
            && s.dict.Keys == r.held.Keys && s.used == Total(r.held) % 0x1_0000_0000
            && s.queue == if evicting then Some(Touches(calls)[r.gone..]) else None
  {
  }

  /** A set ends exactly when the size fits at the point the reference finds. */
  lemma EndsAsInReference(maxmem: nat, evicting: bool, calls: seq<Call>, key: Key, bytes: string, size: nat)
    requires maxmem < WORD && AllEnd(maxmem, evicting, calls)
    ensures var log := Touches(calls); var r := ReferenceAfter(maxmem, evicting, calls); var others := r.held - {key};
            Ends(StoreAfter(maxmem, evicting, calls), SetCall(key, bytes, size))
            <==> !evicting
                 || Fits(others - KeySet(log[r.gone..UsedUp(others, log, r.gone, r.gone, size, maxmem)]), size, maxmem)
  {
    var s, log, r := StoreAfter(maxmem, evicting, calls), Touches(calls), ReferenceAfter(maxmem, evicting, calls);
    if evicting {
      DelKeepsSound(s, key);
      EndsMatches(Del(s, key), log, r.gone, size);
    }
  }

  lemma EndsMatches(s: Store, log: seq<Key>, gone: nat, size: nat)
    requires Sound(s) && gone <= |log| && s.queue == Some(log[gone..])
    ensures MakesRoom(s, size)
            <==> Fits(s.dict - KeySet(log[gone..UsedUp(s.dict, log, gone, gone, size, s.maxmem)]), size, s.maxmem)
  {
    hide MakesRoom, Sound, Fits, UsedUp, Left;
    var m := UsedUp(s.dict, log, gone, gone, size, s.maxmem);
    EvictionEnds(s, size);
    if Fits(s.dict - KeySet(log[gone..m]), size, s.maxmem) { FitsIsRoom(s, log, gone, m - gone, size); }
    if n: nat :| n <= |s.queue.value| && Add32(Left(s, n), size) <= s.maxmem {
      FitsIsRoom(s, log, gone, n, size);
      UsedUpFits(s.dict, log, gone, gone, gone + n, size, s.maxmem);
    }
  }

  lemma FitsIsRoom(s: Store, log: seq<Key>, gone: nat, n: nat, size: nat)
    requires gone + n <= |log| && s.queue == Some(log[gone..])
    ensures Add32(Left(s, n), size) <= s.maxmem <==> Fits(s.dict - KeySet(log[gone..gone + n]), size, s.maxmem)
  {
    assert log[gone..][..n] == log[gone..gone + n];
  }

  lemma {:induction false} UsedUpFits(held: map<Key, Entry>, log: seq<Key>, gone: nat, n: nat, m: nat,
                                      size: nat, maxmem: nat)
    requires gone <= n <= m <= |log| && Fits(held - KeySet(log[gone..m]), size, maxmem)
    ensures Fits(held - KeySet(log[gone..UsedUp(held, log, gone, n, size, maxmem)]), size, maxmem)
    decreases m - n
  {
    if n < m && !Fits(held - KeySet(log[gone..n]), size, maxmem) {
      UsedUpFits(held, log, gone, n + 1, m, size, maxmem);
    }
  }

  lemma StartMatches(maxmem: nat, evicting: bool)
    requires maxmem < WORD
    ensures Matches(Start(maxmem, evicting), maxmem, evicting, [], Reference(map[], 0))
  {
  }
}
