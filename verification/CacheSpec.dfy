/** The cache as a value: dictionary, 32-bit byte count, limit and FIFO queue, with the effect of every operation. */
module CacheSpec {
  type Key = string

  datatype Option<+T> = None | Some(value: T)

  const WORD := 0x1_0000_0000

  /** A stored pair of pointer and size; a lookup that misses leaves a null pointer of size 0. */
  datatype Entry = Entry(bytes: Option<string>, size: nat)

  const MISSED := Entry(None, 0)

  /** `queue` is absent when the cache has no evictor. */
  datatype Store = Store(dict: map<Key, Entry>, used: nat, maxmem: nat, queue: Option<seq<Key>>)

  function Add32(a: nat, b: nat): nat {
    (a + b) % WORD
  }

  function Sub32(a: nat, b: nat): nat {
    (a - b) % WORD
  }

  function Start(maxmem: nat, evicting: bool): Store {
    Store(map[], 0, maxmem, if evicting then Some([]) else None)
  }

  // ---------- The operations ----------

  function Touch(s: Store, key: Key): Store {
    if s.queue.Some? then s.(queue := Some(s.queue.value + [key])) else s
  }

  function Del(s: Store, key: Key): Store {
    if key in s.dict then s.(dict := s.dict - {key}, used := Sub32(s.used, s.dict[key].size)) else s
  }

  /** The next key to evict and what is queued behind it; an empty queue gives the empty key. */
  function NextKey(q: seq<Key>): Key {
    if q == [] then "" else q[0]
  }

  function Behind(q: seq<Key>): seq<Key> {
    if q == [] then q else q[1..]
  }

  function EvictOne(s: Store): Store
    requires s.queue.Some?
  {
    Del(s.(queue := Some(Behind(s.queue.value))), NextKey(s.queue.value))
  }

  predicate TooFull(s: Store, size: nat) {
    Add32(s.used, size) > s.maxmem
  }

  /** Evicting the queued keys one by one makes room at some point. */
  predicate MakesRoom(s: Store, size: nat)
    requires s.queue.Some?
    decreases |s.queue.value|
  {
    !TooFull(s, size) || (s.queue != Some([]) && MakesRoom(EvictOne(s), size))
  }

  function EvictUntilFits(s: Store, size: nat): (r: Store)
    requires s.queue.Some? && MakesRoom(s, size)
    ensures r.queue.Some? && r.maxmem == s.maxmem && !TooFull(r, size)
    decreases |s.queue.value|
  {
    if !TooFull(s, size) then s else EvictUntilFits(EvictOne(s), size)
  }

  function Insert(s: Store, key: Key, bytes: string, size: nat): Store {
    Touch(s.(dict := s.dict[key := Entry(Some(bytes), size)], used := Add32(s.used, size)), key)
  }

  /** The eviction loop of a set comes to an end; without an evictor there is none. */
  predicate SetEnds(s: Store, key: Key, size: nat) {
    s.queue.Some? ==> MakesRoom(Del(s, key), size)
  }

  /** A set either is refused, or evicts what it must and stores the value; the old value is gone in any case. */
  function Set(s: Store, key: Key, bytes: string, size: nat): Store
    requires SetEnds(s, key, size)
  {
    var s1 := Del(s, key);
    if s1.queue.None? then if TooFull(s1, size) then s1 else Insert(s1, key, bytes, size)
    else Insert(EvictUntilFits(s1, size), key, bytes, size)
  }

  function Get(s: Store, key: Key): Store {
    var s' := Touch(s, key);
    if key in s.dict then s' else s'.(dict := s.dict[key := MISSED])
  }

  function Found(s: Store, key: Key): Entry {
    if key in s.dict then s.dict[key] else MISSED
  }

  function Reset(s: Store): Store {
    s.(dict := map[], used := 0)
  }

  // ---------- The invariant ----------

  ghost function Total(d: map<Key, Entry>): nat {
    if d == map[] then 0
    else
      var k :| k in d;
      d[k].size + Total(d - {k})
  }

  /** What holds in every state: the byte count is the sum of the sizes modulo 2^32, and every key is queued. */
  ghost predicate Sound(s: Store) {
    && s.used == Total(s.dict) % WORD && s.maxmem < WORD
    && (forall k | k in s.dict :: s.dict[k].bytes.None? ==> s.dict[k].size == 0)
    && (s.queue.Some? ==> forall k | k in s.dict :: k in s.queue.value)
  }

  /** The byte count is the sum of the sizes and within the limit. */
  ghost predicate Coherent(s: Store) {
    Sound(s) && s.used == Total(s.dict) && s.used <= s.maxmem
  }

  lemma {:induction false} TotalWithout(d: map<Key, Entry>, k: Key)
    requires k in d
    ensures Total(d) == d[k].size + Total(d - {k})
    decreases |d|
  {
    var m :| m in d && Total(d) == d[m].size + Total(d - {m});
    if m != k {
      TotalWithout(d - {m}, k);
      TotalWithout(d - {k}, m);
      assert d - {m} - {k} == d - {k} - {m};
    }
  }

  lemma TotalWith(d: map<Key, Entry>, k: Key, e: Entry)
    requires k !in d
    ensures Total(d[k := e]) == e.size + Total(d)
  {
    TotalWithout(d[k := e], k);
    assert d[k := e] - {k} == d;
  }

  lemma DelKeepsSound(s: Store, key: Key)
    requires Sound(s)
    ensures Sound(Del(s, key)) && Del(s, key).dict == s.dict - {key} && Del(s, key).used == Total(s.dict - {key}) % WORD
  {
    if key in s.dict {
      TotalWithout(s.dict, key);
    } else {
      assert s.dict - {key} == s.dict;
    }
  }

  lemma DelKeepsCoherent(s: Store, key: Key)
    requires Coherent(s)
    ensures Coherent(Del(s, key)) && Del(s, key).used == Total(s.dict - {key})
  {
    DelKeepsSound(s, key);
    if key in s.dict { TotalWithout(s.dict, key); }
  }

  lemma EvictOneKeeps(s: Store)
    requires Sound(s) && s.queue.Some?
    ensures Sound(EvictOne(s)) && (Coherent(s) ==> Coherent(EvictOne(s)) && EvictOne(s).used <= s.used)
  {
    var k := NextKey(s.queue.value);
    DelKeepsSound(s, k);
    if Coherent(s) { DelKeepsCoherent(s, k); }
    if k in s.dict { TotalWithout(s.dict, k); }
  }

  /** With nothing queued nothing is stored, and everything within the limit fits. */
  lemma EmptyFits(s: Store, size: nat)
    requires Sound(s) && s.queue == Some([])
    ensures s.dict == map[] && (TooFull(s, size) <==> size % WORD > s.maxmem)
  {
    assert s.dict == map[] by {
      if k :| k in s.dict { assert k in s.queue.value; }
    }
  }

  /** Whatever is stored, evicting makes room for every size within the limit. */
  lemma {:induction false} RoomWithinLimit(s: Store, size: nat)
    requires Sound(s) && s.queue.Some? && size <= s.maxmem
    ensures MakesRoom(s, size)
    decreases |s.queue.value|
  {
    if s.queue == Some([]) {
      EmptyFits(s, size);
    } else {
      EvictOneKeeps(s);
      RoomWithinLimit(EvictOne(s), size);
    }
  }

  lemma {:induction false} EvictionKeeps(s: Store, size: nat)
    requires Sound(s) && s.queue.Some? && MakesRoom(s, size)
    ensures Sound(EvictUntilFits(s, size)) && (Coherent(s) ==> Coherent(EvictUntilFits(s, size)))
    decreases |s.queue.value|
  {
    if TooFull(s, size) {
      EvictOneKeeps(s);
      EvictionKeeps(EvictOne(s), size);
    }
  }

  // ---------- What a set keeps, and when ----------

  lemma InsertKeeps(s: Store, key: Key, bytes: string, size: nat)
    requires Sound(s) && key !in s.dict
    ensures Sound(Insert(s, key, bytes, size))
    ensures Coherent(s) && !TooFull(s, size) && size < WORD ==>
              (Coherent(Insert(s, key, bytes, size)) <==> s.used + size < WORD)
  {
    TotalWith(s.dict, key, Entry(Some(bytes), size));
    var r := Insert(s, key, bytes, size);
    if s.queue.Some? {
      forall k | k in r.dict ensures k in r.queue.value { assert k == key || k in s.dict; }
    }
  }

  lemma {:induction false} EvictionKeepsOut(s: Store, size: nat, key: Key)
    requires s.queue.Some? && MakesRoom(s, size) && key !in s.dict
    ensures key !in EvictUntilFits(s, size).dict
    decreases |s.queue.value|
  {
    if TooFull(s, size) { EvictionKeepsOut(EvictOne(s), size, key); }
  }

  /** Whether the addition wraps around is settled before anything is evicted: a sum that wraps looks like it fits. */
  lemma {:induction false} EvictionAndWrap(s: Store, size: nat)
    requires s.queue.Some? && Coherent(s) && MakesRoom(s, size) && size < WORD
    ensures EvictUntilFits(s, size).used + size < WORD <==> s.used + size < WORD
    decreases |s.queue.value|
  {
    if TooFull(s, size) {
      EvictOneKeeps(s);
      EvictionAndWrap(EvictOne(s), size);
    }
  }

  predicate Refused(s: Store, key: Key, size: nat) {
    s.queue.None? && TooFull(Del(s, key), size)
  }

  lemma SetKeepsSound(s: Store, key: Key, bytes: string, size: nat)
    requires Sound(s) && SetEnds(s, key, size)
    ensures Sound(Set(s, key, bytes, size)) && Set(s, key, bytes, size).maxmem == s.maxmem
  {
    DelKeepsSound(s, key);
    var s1 := Del(s, key);
    if s1.queue.Some? {
      EvictionKeeps(s1, size);
      EvictionKeepsOut(s1, size, key);
      InsertKeeps(EvictUntilFits(s1, size), key, bytes, size);
    } else {
      InsertKeeps(s1, key, bytes, size);
    }
  }

  /**
   * A set keeps the count equal to the sum of the sizes and within the limit exactly when
   * it is refused or the addition it makes does not wrap around 32 bits.
   */
  lemma SetKeepsCoherent(s: Store, key: Key, bytes: string, size: nat)
    requires Coherent(s) && size < WORD && SetEnds(s, key, size)
    ensures Coherent(Set(s, key, bytes, size)) <==> Refused(s, key, size) || Del(s, key).used + size < WORD
  {
    DelKeepsCoherent(s, key);
    var s1 := Del(s, key);
    if s1.queue.Some? {
      EvictionKeeps(s1, size);
      EvictionKeepsOut(s1, size, key);
      EvictionAndWrap(s1, size);
      InsertKeeps(EvictUntilFits(s1, size), key, bytes, size);
    } else if !TooFull(s1, size) {
      InsertKeeps(s1, key, bytes, size);
    }
  }

  /** The addition does wrap in reachable states: with an evictor, if the limit is above half the range, */
  lemma SetMayWrap(a: Key, b: Key, x: string, y: string)
    requires a != b
    ensures var half := WORD / 2; var s := Set(Start(WORD - 1, true), a, x, half);
            && Coherent(s) && SetEnds(s, b, half) && !Coherent(Set(s, b, y, half))
            && Set(s, b, y, half).used == 0 && Total(Set(s, b, y, half).dict) == WORD
  {
    var half := WORD / 2;
    var s := Set(Start(WORD - 1, true), a, x, half);
    assert [] + [a] == [a];
    assert s == Insert(Start(WORD - 1, true), a, x, half);
    assert s.dict == map[a := Entry(Some(x), half)] && s.used == half && s.queue == Some([a]);
    TotalWith(map[], a, Entry(Some(x), half));
    TotalWith(s.dict, b, Entry(Some(y), half));
  }

  /** and without one, for a value far over the limit. */
  lemma SetMayWrapWithoutEvictor(a: Key, b: Key, x: string, y: string)
    requires a != b
    ensures var s := Set(Start(10, false), a, x, 5);
            && Coherent(s) && !Coherent(Set(s, b, y, WORD - 3))
            && Set(s, b, y, WORD - 3).used == 2 && b in Set(s, b, y, WORD - 3).dict
  {
    var s := Set(Start(10, false), a, x, 5);
    assert s.dict == map[a := Entry(Some(x), 5)] && s.used == 5 && s.queue == None;
    TotalWith(map[], a, Entry(Some(x), 5));
    TotalWith(s.dict, b, Entry(Some(y), WORD - 3));
  }

  lemma OthersKeep(s: Store, key: Key)
    requires Sound(s)
    ensures Sound(Get(s, key)) && Sound(Del(s, key)) && Sound(Reset(s))
    ensures Coherent(s) ==> Coherent(Get(s, key)) && Coherent(Del(s, key)) && Coherent(Reset(s))
  {
    DelKeepsSound(s, key);
    if Coherent(s) { DelKeepsCoherent(s, key); }
    if key !in s.dict { TotalWith(s.dict, key, MISSED); }
    var r := Get(s, key);
    if s.queue.Some? {
      forall k | k in r.dict ensures k in r.queue.value { assert k == key || k in s.dict; }
    }
  }

  // ---------- Which keys are evicted ----------

  function KeySet(q: seq<Key>): set<Key> {
    set k | k in q
  }

  /** The state after n evictions. */
  function EvictTimes(s: Store, n: nat): Store
    requires s.queue.Some?
    decreases n
  {
    if n == 0 then s else EvictTimes(EvictOne(s), n - 1)
  }

  /** As long as the queue lasts, n evictions remove the first n queued keys. */
  lemma {:induction false} EvictsPrefix(s: Store, n: nat)
    requires Sound(s) && s.queue.Some? && n <= |s.queue.value|
    ensures var r := EvictTimes(s, n);
            && Sound(r) && r.maxmem == s.maxmem && r.queue == Some(s.queue.value[n..])
            && r.dict == s.dict - KeySet(s.queue.value[..n])
    decreases n
  {
    var q := s.queue.value;
    if n == 0 {
      assert s.dict - KeySet(q[..0]) == s.dict;
    } else {
      hide Total;
      EvictOneKeeps(s);
      EvictsPrefix(EvictOne(s), n - 1);
      assert q[..n] == [q[0]] + q[1..][..n - 1] && q[1..][n - 1..] == q[n..];
      assert EvictOne(s).dict == s.dict - {q[0]};
      RemoveFirst(s.dict, q[0], q[1..][..n - 1]);
    }
  }

  lemma RemoveFirst(d: map<Key, Entry>, k: Key, q: seq<Key>)
    ensures d - {k} - KeySet(q) == d - KeySet([k] + q)
  {
    assert KeySet([k] + q) == {k} + KeySet(q);
  }

  lemma {:induction false} EvictionsMade(s: Store, size: nat) returns (n: nat)
    requires s.queue.Some? && MakesRoom(s, size)
    ensures n <= |s.queue.value| && EvictUntilFits(s, size) == EvictTimes(s, n)
    ensures forall j: nat | j < n :: TooFull(EvictTimes(s, j), size)
    decreases |s.queue.value|
  {
    if !TooFull(s, size) {
      n := 0;
    } else {
      var m := EvictionsMade(EvictOne(s), size);
      n := m + 1;
      forall j: nat | j < n ensures TooFull(EvictTimes(s, j), size) {
        if j > 0 { assert EvictTimes(s, j) == EvictTimes(EvictOne(s), j - 1); }
      }
    }
  }

  /** The sum of the sizes left when the first n queued keys are gone. */
  ghost function Left(s: Store, n: nat): nat
    requires s.queue.Some? && n <= |s.queue.value|
  {
    Total(s.dict - KeySet(s.queue.value[..n]))
  }

  /**
   * The eviction loop removes the keys of the shortest queue prefix without which the new value fits, as
   * far as 32 bits tell.
   */
  lemma EvictsShortestPrefix(s: Store, size: nat) returns (n: nat)
    requires Sound(s) && s.queue.Some? && MakesRoom(s, size)
    ensures n <= |s.queue.value|
    ensures var r := EvictUntilFits(s, size);
            r.queue == Some(s.queue.value[n..]) && r.dict == s.dict - KeySet(s.queue.value[..n])
    ensures Add32(Left(s, n), size) <= s.maxmem && forall j: nat | j < n :: Add32(Left(s, j), size) > s.maxmem
    ensures Total(s.dict) + size < WORD ==>
              Left(s, n) + size <= s.maxmem && forall j: nat | j < n :: Left(s, j) + size > s.maxmem
  {
    n := EvictionsMade(s, size);
    EvictsPrefix(s, n);
    RoomAfter(s, size, n);
    forall j: nat | j < n
      ensures Add32(Left(s, j), size) > s.maxmem && (Total(s.dict) + size < WORD ==> Left(s, j) + size > s.maxmem)
    {
      RoomAfter(s, size, j);
    }
  }

  /** Without an evictor, a set drops the old value, stores the new one if there is room, and touches nothing else. */
  lemma SetWithoutEvictor(s: Store, key: Key, bytes: string, size: nat)
    requires Sound(s) && s.queue.None?
    ensures var r := Set(s, key, bytes, size); var rest := s.dict - {key};
            && r.queue.None? && r.maxmem == s.maxmem && r.used == Total(r.dict) % WORD
            && r.dict == if Add32(Total(rest), size) > s.maxmem then rest else rest[key := Entry(Some(bytes), size)]
  {
    DelKeepsSound(s, key);
    SetKeepsSound(s, key, bytes, size);
    WrapsOnce(Total(s.dict - {key}), size);
  }

  /**
   * With an evictor, a set always stores the value and queues its key. Of the other keys it loses those of
   * the shortest queue prefix without which the value fits beside what is left without the old one.
   */
  lemma SetWithEvictor(s: Store, key: Key, bytes: string, size: nat) returns (n: nat)
    requires Sound(s) && s.queue.Some? && SetEnds(s, key, size)
    ensures n <= |s.queue.value|
    ensures var r := Set(s, key, bytes, size); var q := s.queue.value; var rest := s.dict - {key};
            && r.queue == Some(q[n..] + [key]) && r.maxmem == s.maxmem && r.used == Total(r.dict) % WORD
            && r.dict == (rest - KeySet(q[..n]))[key := Entry(Some(bytes), size)]
            && Add32(Total(rest - KeySet(q[..n])), size) <= s.maxmem
            && forall j: nat | j < n :: Add32(Total(rest - KeySet(q[..j])), size) > s.maxmem
  {
    DelKeepsSound(s, key);
    SetKeepsSound(s, key, bytes, size);
    n := EvictsShortestPrefix(Del(s, key), size);
    forall j: nat | j < n ensures Add32(Total(s.dict - {key} - KeySet(s.queue.value[..j])), size) > s.maxmem {
      assert Add32(Left(Del(s, key), j), size) > s.maxmem;
    }
  }

  /** Whether there is room after n evictions depends on the sizes left, and on nothing else. */
  lemma RoomAfter(s: Store, size: nat, n: nat)
    requires Sound(s) && s.queue.Some? && n <= |s.queue.value|
    ensures TooFull(EvictTimes(s, n), size) <==> Add32(Left(s, n), size) > s.maxmem
    ensures Total(s.dict) + size < WORD ==> Add32(Left(s, n), size) == Left(s, n) + size
  {
    EvictsPrefix(s, n);
    LeftIsLess(s, n);
    assert EvictTimes(s, n).used == Left(s, n) % WORD;
    WrapsOnce(Left(s, n), size);
  }

  lemma WrapsOnce(a: nat, b: nat)
    ensures Add32(a % WORD, b) == Add32(a, b)
  {
  }

  lemma {:induction false} LeftIsLess(s: Store, n: nat)
    requires s.queue.Some? && n <= |s.queue.value|
    ensures Left(s, n) <= Total(s.dict)
    decreases n
  {
    var q := s.queue.value;
    if n == 0 {
      assert s.dict - KeySet(q[..0]) == s.dict;
    } else {
      LeftIsLess(s, n - 1);
      var d := s.dict - KeySet(q[..n - 1]);
      assert KeySet(q[..n]) == KeySet(q[..n - 1]) + {q[n - 1]};
      assert s.dict - KeySet(q[..n]) == d - {q[n - 1]};
      if q[n - 1] in d { TotalWithout(d, q[n - 1]); } else { assert d - {q[n - 1]} == d; }
    }
  }

  /** With nothing queued there is nothing more to evict. */
  lemma {:induction false} NothingLeftToEvict(s: Store, n: nat)
    requires Sound(s) && s.queue.Some? && n >= |s.queue.value|
    ensures EvictTimes(s, n) == EvictTimes(s, |s.queue.value|)
    decreases n
  {
    if n > |s.queue.value| {
      if s.queue == Some([]) {
        EmptyFits(s, 0);
        assert EvictOne(s) == s;
        NothingLeftToEvict(s, n - 1);
      } else {
        EvictOneKeeps(s);
        NothingLeftToEvict(EvictOne(s), n - 1);
      }
    }
  }

  /** The eviction loop ends exactly when the value fits, as 32 bits tell, without some prefix of the queue. */
  lemma EvictionEnds(s: Store, size: nat)
    requires Sound(s) && s.queue.Some?
    ensures (exists n: nat :: !TooFull(EvictTimes(s, n), size)) <==> MakesRoom(s, size)
    ensures MakesRoom(s, size) <==> exists n: nat | n <= |s.queue.value| :: Add32(Left(s, n), size) <= s.maxmem
  {
    var m := |s.queue.value|;
    if MakesRoom(s, size) {
      var n := EvictionsMade(s, size);
      assert !TooFull(EvictTimes(s, n), size);
      RoomAfter(s, size, n);
    }
    if n: nat :| !TooFull(EvictTimes(s, n), size) {
      var k := if n <= m then n else m;
      if n > m { NothingLeftToEvict(s, n); }
      assert !TooFull(EvictTimes(s, k), size);
      RoomAfter(s, size, k);
      RoomMade(s, size, k);
    }
    if n: nat :| n <= m && Add32(Left(s, n), size) <= s.maxmem {
      RoomAfter(s, size, n);
      RoomMade(s, size, n);
    }
  }

  lemma {:induction false} RoomMade(s: Store, size: nat, n: nat)
    requires s.queue.Some? && n <= |s.queue.value| && !TooFull(EvictTimes(s, n), size)
    ensures MakesRoom(s, size)
    decreases n
  {
    if n > 0 { RoomMade(EvictOne(s), size, n - 1); }
  }

  /**
   * While the byte count is the sum of the sizes, that is so exactly when the value is within the limit or
   * the addition wraps around at once; otherwise set loops for ever.
   */
  lemma EvictionEndsWithinLimit(s: Store, size: nat)
    requires Coherent(s) && s.queue.Some? && size < WORD
    ensures MakesRoom(s, size) <==> size <= s.maxmem || s.used + size >= WORD
  {
    if size <= s.maxmem { RoomWithinLimit(s, size); }
    if size > s.maxmem && s.used + size < WORD && MakesRoom(s, size) {
      var n := EvictionsMade(s, size);
      StaysTooFull(s, size, n);
    }
  }

  lemma {:induction false} StaysTooFull(s: Store, size: nat, n: nat)
    requires Coherent(s) && s.queue.Some? && s.used + size < WORD && size > s.maxmem
    ensures TooFull(EvictTimes(s, n), size)
    decreases n
  {
    if n > 0 {
      EvictOneKeeps(s);
      StaysTooFull(EvictOne(s), size, n - 1);
    }
  }
}
