/** First in, first out: which values a cache with an evictor holds after a run of sets and gets. */
module FifoWindow {
  import opened CacheSpec

  datatype Item = Item(key: Key, bytes: string, size: nat)

  /** A set, a get, or what the server does for a PUT: the key is looked up and then set. */
  datatype Op = SetOp(item: Item) | GetOp(key: Key) | PutOp(item: Item)

  function SetsOf(ops: seq<Op>): seq<Item> {
    if ops == [] then [] else SetsWith(SetsOf(ops[..|ops| - 1]), ops[|ops| - 1])
  }

  function SetsWith(sets: seq<Item>, op: Op): seq<Item> {
    sets + if op.GetOp? then [] else [op.item]
  }

  ghost predicate IsKeyOf(sets: seq<Item>, k: Key) {
    exists i | 0 <= i < |sets| :: sets[i].key == k
  }

  /** A set is of a new key and within the limit; a get is of a key that was set. */
  ghost predicate MayFollow(maxmem: nat, sets: seq<Item>, op: Op) {
    if op.GetOp? then IsKeyOf(sets, op.key) else !IsKeyOf(sets, op.item.key) && op.item.size <= maxmem
  }

  ghost predicate Admissible(maxmem: nat, ops: seq<Op>) {
    ops == [] ||
    var init := ops[..|ops| - 1];
    Admissible(maxmem, init) && MayFollow(maxmem, SetsOf(init), ops[|ops| - 1])
  }

  /** The new size and those in the longest suffix that fits add up without wrapping around. */
  predicate AddsUp(maxmem: nat, sets: seq<Item>, op: Op) {
    op.GetOp? || Sum(sets[WindowStart(sets, maxmem)..]) + op.item.size < WORD
  }

  predicate NeverWraps(maxmem: nat, ops: seq<Op>) {
    ops == [] ||
    var init := ops[..|ops| - 1];
    NeverWraps(maxmem, init) && AddsUp(maxmem, SetsOf(init), ops[|ops| - 1])
  }

  function Sum(sets: seq<Item>): nat {
    if sets == [] then 0 else sets[0].size + Sum(sets[1..])
  }

  /** Where the longest suffix starts whose sizes together are within the limit. */
  function WindowStart(sets: seq<Item>, maxmem: nat): (w: nat)
    ensures w <= |sets|
  {
    if Sum(sets) <= maxmem then 0 else 1 + WindowStart(sets[1..], maxmem)
  }

  lemma {:induction false} WindowIsLongest(sets: seq<Item>, maxmem: nat)
    ensures Sum(sets[WindowStart(sets, maxmem)..]) <= maxmem
    ensures forall i | 0 <= i < WindowStart(sets, maxmem) :: Sum(sets[i..]) > maxmem
    decreases |sets|
  {
    if Sum(sets) > maxmem {
      WindowIsLongest(sets[1..], maxmem);
      var w := WindowStart(sets[1..], maxmem);
      assert sets[1..][w..] == sets[1 + w..];
      forall i | 0 <= i < 1 + w ensures Sum(sets[i..]) > maxmem {
        if i == 0 { assert sets[0..] == sets; } else { assert sets[1..][i - 1..] == sets[i..]; }
      }
    } else {
      assert sets[0..] == sets;
    }
  }

  lemma {:induction false} WindowIsOnly(sets: seq<Item>, maxmem: nat, j: nat)
    requires j <= |sets| && Sum(sets[j..]) <= maxmem && forall i | 0 <= i < j :: Sum(sets[i..]) > maxmem
    ensures j == WindowStart(sets, maxmem)
  {
    WindowIsLongest(sets, maxmem);
  }

  // ---------- The order in which the queue will reach the keys that are held ----------

  function FirstOrder(q: seq<Key>, live: set<Key>): seq<Key> {
    if q == [] then []
    else if q[0] in live then [q[0]] + FirstOrder(q[1..], live - {q[0]})
    else FirstOrder(q[1..], live)
  }

  lemma {:induction false} QueuedAgain(q: seq<Key>, live: set<Key>, k: Key)
    requires k in q || k !in live
    ensures FirstOrder(q + [k], live) == FirstOrder(q, live)
    decreases |q|
  {
    if q == [] {
      assert q + [k] == [k];
    } else {
      assert (q + [k])[1..] == q[1..] + [k];
      QueuedAgain(q[1..], if q[0] in live then live - {q[0]} else live, k);
    }
  }

  lemma {:induction false} QueuedNew(q: seq<Key>, live: set<Key>, k: Key)
    requires k !in q && k !in live
    ensures FirstOrder(q + [k], live + {k}) == FirstOrder(q, live) + [k]
    decreases |q|
  {
    if q == [] {
      assert q + [k] == [k];
    } else {
      assert (q + [k])[1..] == q[1..] + [k];
      QueuedNew(q[1..], if q[0] in live then live - {q[0]} else live, k);
      assert live + {k} - {q[0]} == live - {q[0]} + {k};
    }
  }

  /** The queue does not hold the key, or just at its end. */
  predicate LastIfAny(q: seq<Key>, k: Key) {
    k !in q || k !in q[..|q| - 1]
  }

  lemma QueuedLast(q: seq<Key>, live: set<Key>, k: Key)
    requires LastIfAny(q, k) && k !in live
    ensures FirstOrder(q + [k], live + {k}) == FirstOrder(q, live) + [k]
  {
    if k in q {
      var init := q[..|q| - 1];
      assert q == init + [k] by { assert q[|q| - 1] == k; }
      QueuedAgain(init, live, k);
      QueuedNew(init, live, k);
      QueuedAgain(q, live + {k}, k);
    } else {
      QueuedNew(q, live, k);
    }
  }

  // ---------- The invariant ----------

  function Keys(sets: seq<Item>): (ks: seq<Key>)
    ensures |ks| == |sets|
  {
    seq(|sets|, i requires 0 <= i < |sets| => sets[i].key)
  }

  ghost predicate DistinctKeys(sets: seq<Item>) {
    forall i, j | 0 <= i < j < |sets| :: sets[i].key != sets[j].key
  }

  /** Exactly the values of `win` are held, and the queue will reach them in that order. */
  ghost predicate Holds(s: Store, win: seq<Item>) {
    && Coherent(s) && s.queue.Some? && DistinctKeys(win)
    && (forall i | 0 <= i < |win| :: Found(s, win[i].key) == Entry(Some(win[i].bytes), win[i].size))
    && (forall k | Found(s, k).bytes.Some? :: k in Keys(win))
    && s.used == Sum(win)
    && FirstOrder(s.queue.value, KeySet(Keys(win))) == Keys(win)
  }

  /** Only keys that were set before are queued. */
  ghost predicate QueueKnown(s: Store, sets: seq<Item>) {
    s.queue.Some? && forall k | k in s.queue.value :: IsKeyOf(sets, k)
  }

  /** Nor is any other key but the one that is about to be set, and that one is at the end. */
  ghost predicate QueueReady(s: Store, sets: seq<Item>, key: Key) {
    && s.queue.Some? && LastIfAny(s.queue.value, key)
    && forall k | k in s.queue.value :: k == key || IsKeyOf(sets, k)
  }

  lemma KeysTail(win: seq<Item>)
    requires win != [] && DistinctKeys(win)
    ensures Keys(win)[0] == win[0].key && Keys(win)[1..] == Keys(win[1..]) && win[0].key !in Keys(win[1..])
    ensures KeySet(Keys(win)) - {win[0].key} == KeySet(Keys(win[1..])) && DistinctKeys(win[1..])
  {
    var b := Keys(win[1..]);
    assert Keys(win) == [win[0].key] + b;
    forall i | 0 <= i < |b| ensures b[i] != win[0].key { assert b[i] == win[1 + i].key; }
  }

  /** Evicting the head of the queue takes the oldest value held, if it takes any. */
  lemma EvictFromWindow(s: Store, win: seq<Item>) returns (win': seq<Item>)
    requires Holds(s, win) && s.queue != Some([])
    ensures Holds(EvictOne(s), win') && (win' == win || (win != [] && win' == win[1..]))
  {
    var k := s.queue.value[0];
    EvictOneKeeps(s);
    if k in s.dict { TotalWithout(s.dict, k); }
    if k in Keys(win) {
      EvictOldest(s, win);
      win' := win[1..];
    } else {
      win' := win;
      forall i | 0 <= i < |win| ensures win[i].key != k { assert Keys(win)[i] == win[i].key; }
    }
  }

  lemma EvictOldest(s: Store, win: seq<Item>)
    requires Holds(s, win) && s.queue != Some([]) && s.queue.value[0] in Keys(win) && Coherent(EvictOne(s))
    ensures win != [] && Holds(EvictOne(s), win[1..])
  {
    var k, r := s.queue.value[0], EvictOne(s);
    KeysTail(win);
    assert win[0].key == k;
    assert Found(s, k) == Entry(Some(win[0].bytes), win[0].size);
    assert r.used == Sum(win[1..]) by { TotalWithout(s.dict, k); }
    assert FirstOrder(r.queue.value, KeySet(Keys(win[1..]))) == Keys(win[1..]);
    forall i | 0 <= i < |win[1..]|
      ensures Found(r, win[1..][i].key) == Entry(Some(win[1..][i].bytes), win[1..][i].size)
    {
      assert win[1..][i] == win[i + 1];
    }
    forall k' | Found(r, k').bytes.Some? ensures k' in Keys(win[1..]) {
      assert k' in Keys(win);
    }
  }

  /** Dropping the first d items, and no fewer, makes room for the size. */
  ghost predicate Drops(win: seq<Item>, d: nat, size: nat, maxmem: nat) {
    d <= |win| && Sum(win[d..]) + size <= maxmem && (d > 0 ==> Sum(win[d - 1..]) + size > maxmem)
  }

  lemma DropsFrom(win: seq<Item>, win': seq<Item>, d': nat, size: nat, maxmem: nat) returns (d: nat)
    requires win' == win || (win != [] && win' == win[1..])
    requires Drops(win', d', size, maxmem) && Sum(win) + size > maxmem
    ensures Drops(win, d, size, maxmem) && win[d..] == win'[d'..]
  {
    if win' == win {
      d := d';
    } else {
      d := d' + 1;
      assert win[1..][d'..] == win[d..];
      if d' > 0 { assert win[1..][d' - 1..] == win[d'..]; } else { assert win[0..] == win; }
    }
  }

  lemma {:induction false} EvictionMovesWindow(s: Store, win: seq<Item>, size: nat)
    returns (d: nat, r: Store, rest: seq<Item>)
    requires Holds(s, win) && MakesRoom(s, size) && s.used + size < WORD
    ensures r == EvictUntilFits(s, size) && Holds(r, rest)
    ensures Drops(win, d, size, s.maxmem) && rest == win[d..]
    decreases |s.queue.value|
  {
    if !TooFull(s, size) {
      d, r, rest := 0, s, win;
      assert win[0..] == win;
    } else {
      var win' := StepOfEviction(s, win, size);
      d, r, rest := EvictionMovesWindow(EvictOne(s), win', size);
      d := DropsFrom(win, win', d, size, s.maxmem);
    }
  }

  lemma StepOfEviction(s: Store, win: seq<Item>, size: nat) returns (win': seq<Item>)
    requires Holds(s, win) && MakesRoom(s, size) && s.used + size < WORD && TooFull(s, size)
    ensures Holds(EvictOne(s), win') && (win' == win || (win != [] && win' == win[1..]))
    ensures Sum(win) + size > s.maxmem && EvictOne(s).used + size < WORD && EvictOne(s).maxmem == s.maxmem
    ensures |EvictOne(s).queue.value| < |s.queue.value| && MakesRoom(EvictOne(s), size)
    ensures EvictUntilFits(s, size) == EvictUntilFits(EvictOne(s), size)
  {
    EvictOneKeeps(s);
    win' := EvictFromWindow(s, win);
  }

  lemma EvictionKeepsQueueReady(s: Store, sets: seq<Item>, key: Key, size: nat)
    requires Sound(s) && QueueReady(s, sets, key) && MakesRoom(s, size)
    ensures QueueReady(EvictUntilFits(s, size), sets, key)
  {
    var n := EvictsShortestPrefix(s, size);
    var q := s.queue.value;
    assert forall k | k in q[n..] :: k in q;
    if key in q && n < |q| { assert q[n..][..|q[n..]| - 1] == q[n..|q| - 1]; }
  }

  lemma {:induction false} SumAppend(sets: seq<Item>, item: Item)
    ensures Sum(sets + [item]) == Sum(sets) + item.size
    decreases |sets|
  {
    if sets == [] {
      assert sets + [item] == [item];
    } else {
      assert (sets + [item])[1..] == sets[1..] + [item];
      SumAppend(sets[1..], item);
    }
  }

  lemma {:induction false} SumShrinks(sets: seq<Item>, i: nat, j: nat)
    requires i <= j <= |sets|
    ensures Sum(sets[j..]) <= Sum(sets[i..])
    decreases j - i
  {
    if i < j {
      assert sets[i..][1..] == sets[i + 1..];
      SumShrinks(sets, i + 1, j);
    }
  }

  lemma KeysAppend(win: seq<Item>, item: Item)
    requires DistinctKeys(win) && item.key !in Keys(win)
    ensures Keys(win + [item]) == Keys(win) + [item.key] && DistinctKeys(win + [item])
    ensures KeySet(Keys(win + [item])) == KeySet(Keys(win)) + {item.key}
  {
    forall i | 0 <= i < |win| ensures win[i].key != item.key { assert Keys(win)[i] == win[i].key; }
    assert Keys(win + [item]) == Keys(win) + [item.key];
  }

  lemma InsertIntoWindow(s: Store, win: seq<Item>, item: Item)
    requires Holds(s, win) && LastIfAny(s.queue.value, item.key) && item.key !in s.dict
    requires Sum(win) + item.size <= s.maxmem
    ensures Holds(Insert(s, item.key, item.bytes, item.size), win + [item])
  {
    hide FirstOrder, Sum, Total;
    var r := Insert(s, item.key, item.bytes, item.size);
    assert item.key !in Keys(win) by {
      forall i | 0 <= i < |win| ensures Keys(win)[i] != item.key {
        assert Found(s, win[i].key).bytes.Some?;
      }
    }
    KeysAppend(win, item);
    SumAppend(win, item);
    QueuedLast(s.queue.value, KeySet(Keys(win)), item.key);
    InsertKeeps(s, item.key, item.bytes, item.size);
    forall i | 0 <= i < |win + [item]|
      ensures Found(r, (win + [item])[i].key) == Entry(Some((win + [item])[i].bytes), (win + [item])[i].size)
    {
      if i < |win| { assert Keys(win)[i] == win[i].key; }
    }
  }

  lemma GetInWindow(s: Store, win: seq<Item>, key: Key)
    requires Holds(s, win)
    requires key in s.queue.value || key !in Keys(win)
    ensures Holds(Get(s, key), win)
  {
    OthersKeep(s, key);
    QueuedAgain(s.queue.value, KeySet(Keys(win)), key);
    assert Get(s, key).used == s.used;
    forall k ensures Found(Get(s, key), k) == Found(s, k) {}
  }

  // ---------- One operation ----------

  ghost predicate Fifo(s: Store, sets: seq<Item>) {
    QueueKnown(s, sets) && DistinctKeys(sets) && Holds(s, sets[WindowStart(sets, s.maxmem)..])
  }

  /** The state in which a set makes room: the key was looked up if need be, and has no entry. */
  function BeforeSet(s: Store, op: Op): Store
    requires !op.GetOp?
  {
    Del(if op.PutOp? then Get(s, op.item.key) else s, op.item.key)
  }

  function Apply(s: Store, op: Op): Store
    requires op.GetOp? || s.queue.None? || MakesRoom(BeforeSet(s, op), op.item.size)
  {
    match op
    case SetOp(item) => Set(s, item.key, item.bytes, item.size)
    case GetOp(key) => Get(s, key)
    case PutOp(item) => Set(Get(s, item.key), item.key, item.bytes, item.size)
  }

  lemma ApplyEnds(s: Store, op: Op)
    requires Sound(s) && s.queue.Some? && (op.GetOp? || op.item.size <= s.maxmem)
    ensures op.GetOp? || MakesRoom(BeforeSet(s, op), op.item.size)
    ensures Sound(Apply(s, op)) && Apply(s, op).queue.Some? && Apply(s, op).maxmem == s.maxmem
  {
    match op {
      case GetOp(key) => OthersKeep(s, key);
      case _ =>
        var key := op.item.key;
        OthersKeep(s, key);
        var s0 := if op.PutOp? then Get(s, key) else s;
        DelKeepsSound(s0, key);
        RoomWithinLimit(Del(s0, key), op.item.size);
        SetKeepsSound(s0, key, op.item.bytes, op.item.size);
    }
  }

  lemma GetIsFifo(s: Store, sets: seq<Item>, key: Key)
    requires Fifo(s, sets) && IsKeyOf(sets, key)
    ensures Fifo(Get(s, key), sets)
  {
    var win := sets[WindowStart(sets, s.maxmem)..];
    if key in Keys(win) {
      var i :| 0 <= i < |win| && Keys(win)[i] == key;
      assert Found(s, win[i].key).bytes.Some?;
    }
    GetInWindow(s, win, key);
  }

  /** Looking up a new key and dropping the empty entry leaves the window as it is. */
  lemma ReadyToSet(s: Store, sets: seq<Item>, op: Op)
    requires Fifo(s, sets) && !op.GetOp? && MayFollow(s.maxmem, sets, op)
    ensures var r := BeforeSet(s, op); var win := sets[WindowStart(sets, s.maxmem)..];
            && Holds(r, win) && QueueReady(r, sets, op.item.key)
            && op.item.key !in r.dict && r.used == s.used && r.maxmem == s.maxmem
  {
    hide MakesRoom, FirstOrder, Sum, WindowStart;
    var key, win := op.item.key, sets[WindowStart(sets, s.maxmem)..];
    assert key !in s.dict;
    if op.PutOp? {
      assert key !in Keys(win) by {
        forall i | 0 <= i < |win| ensures Keys(win)[i] != key { assert win[i] in sets; }
      }
      GetInWindow(s, win, key);
      assert Del(Get(s, key), key).dict == s.dict;
      DelKeepsCoherent(Get(s, key), key);
      forall k ensures Found(Del(Get(s, key), key), k) == Found(s, k) {}
    } else {
      assert Del(s, key) == s;
    }
  }

  /**
   * A set of a new key moves the window just as far as it must exactly when the sizes add up without
   * wrapping around.
   */
  lemma SetIsFifo(s: Store, sets: seq<Item>, op: Op)
    requires Fifo(s, sets) && !op.GetOp? && MayFollow(s.maxmem, sets, op)
    ensures MakesRoom(BeforeSet(s, op), op.item.size)
    ensures Fifo(Apply(s, op), sets + [op.item]) <==> AddsUp(s.maxmem, sets, op)
  {
    ApplyEnds(s, op);
    ReadyToSet(s, sets, op);
    var r, item := BeforeSet(s, op), op.item;
    if AddsUp(s.maxmem, sets, op) {
      SetMovesWindow(r, sets, item);
    } else {
      EvictionKeeps(r, item.size);
      EvictionKeepsOut(r, item.size, item.key);
      EvictionAndWrap(r, item.size);
      InsertKeeps(EvictUntilFits(r, item.size), item.key, item.bytes, item.size);
    }
  }

  lemma SetMovesWindow(s: Store, sets: seq<Item>, item: Item)
    requires Holds(s, sets[WindowStart(sets, s.maxmem)..]) && QueueReady(s, sets, item.key)
    requires DistinctKeys(sets) && !IsKeyOf(sets, item.key) && item.key !in s.dict
    requires MakesRoom(s, item.size) && s.used + item.size < WORD
    ensures Fifo(Insert(EvictUntilFits(s, item.size), item.key, item.bytes, item.size), sets + [item])
  {
    hide EvictUntilFits, MakesRoom, FirstOrder, Sum, Total, WindowStart, LastIfAny, Sound, QueueKnown;
    var j := WindowStart(sets, s.maxmem);
    var win := sets[j..];
    var d, s1, rest := EvictionMovesWindow(s, win, item.size);
    EvictionKeepsQueueReady(s, sets, item.key, item.size);
    EvictionKeepsOut(s, item.size, item.key);
    InsertIntoWindow(s1, rest, item);
    QueueStaysKnown(s1, sets, item);
    hide Holds, Insert, QueueReady, DistinctKeys, IsKeyOf;
    assert win[d..] == sets[j + d..];
    if d > 0 { assert win[d - 1..] == sets[j + d - 1..]; }
    WindowMoves(sets, item, s.maxmem, j + d);
    assert (sets + [item])[j + d..] == sets[j + d..] + [item];
  }

  lemma QueueStaysKnown(s: Store, sets: seq<Item>, item: Item)
    requires QueueReady(s, sets, item.key) && DistinctKeys(sets) && !IsKeyOf(sets, item.key)
    ensures QueueKnown(Insert(s, item.key, item.bytes, item.size), sets + [item]) && DistinctKeys(sets + [item])
  {
    hide FirstOrder, Sum, Total;
    var sets' := sets + [item];
    forall k | k in s.queue.value + [item.key] ensures IsKeyOf(sets', k) {
      if k == item.key {
        assert sets'[|sets|].key == k;
      } else {
        var i :| 0 <= i < |sets| && sets[i].key == k;
        assert sets'[i].key == k;
      }
    }
  }

  lemma SumWith(sets: seq<Item>, item: Item, i: nat)
    requires i <= |sets|
    ensures Sum((sets + [item])[i..]) == Sum(sets[i..]) + item.size
  {
    assert (sets + [item])[i..] == sets[i..] + [item];
    SumAppend(sets[i..], item);
  }

  lemma WindowMoves(sets: seq<Item>, item: Item, maxmem: nat, j': nat)
    requires WindowStart(sets, maxmem) <= j' <= |sets| && Sum(sets[j'..]) + item.size <= maxmem
    requires j' > WindowStart(sets, maxmem) ==> Sum(sets[j' - 1..]) + item.size > maxmem
    ensures j' == WindowStart(sets + [item], maxmem)
  {
    hide WindowStart, Sum;
    WindowIsLongest(sets, maxmem);
    SumWith(sets, item, j');
    forall i | 0 <= i < j' ensures Sum((sets + [item])[i..]) > maxmem {
      SumWith(sets, item, i);
      if i >= WindowStart(sets, maxmem) { SumShrinks(sets, i, j' - 1); }
    }
    WindowIsOnly(sets + [item], maxmem, j');
  }

  // ---------- Runs ----------

  /** The cache after a run. */
  ghost function After(maxmem: nat, ops: seq<Op>): (s: Store)
    requires maxmem < WORD && Admissible(maxmem, ops)
    ensures Sound(s) && s.maxmem == maxmem && s.queue.Some?
  {
    if ops == [] then Start(maxmem, true)
    else
      var s, last := After(maxmem, ops[..|ops| - 1]), ops[|ops| - 1];
      ApplyEnds(s, last);
      Apply(s, last)
  }

  /** A key has a value exactly when it was set in the longest suffix of the sets that fits, and it is that value. */
  ghost predicate HoldsSuffix(s: Store, sets: seq<Item>) {
    var win := sets[WindowStart(sets, s.maxmem)..];
    && (forall k :: Found(s, k).bytes.Some? <==> IsKeyOf(win, k))
    && forall i | 0 <= i < |win| :: Found(s, win[i].key) == Entry(Some(win[i].bytes), win[i].size)
  }

  lemma FifoHoldsSuffix(s: Store, sets: seq<Item>)
    requires Fifo(s, sets)
    ensures HoldsSuffix(s, sets)
  {
    var win := sets[WindowStart(sets, s.maxmem)..];
    forall k ensures Found(s, k).bytes.Some? <==> IsKeyOf(win, k) {
      if k in Keys(win) {
        var i :| 0 <= i < |win| && Keys(win)[i] == k;
        assert win[i].key == k;
      }
    }
  }

  /** When the sizes do not add up, a value stays that the longest suffix does not include. */
  lemma WrapKeepsTooMuch(s: Store, sets: seq<Item>, op: Op)
    requires Fifo(s, sets) && !op.GetOp? && MayFollow(s.maxmem, sets, op) && !AddsUp(s.maxmem, sets, op)
    ensures MakesRoom(BeforeSet(s, op), op.item.size)
    ensures var w := WindowStart(sets, s.maxmem); var sets' := sets + [op.item];
            && w < |sets| && Sum(sets'[w..]) > s.maxmem && Found(Apply(s, op), sets[w].key).bytes.Some?
            && !IsKeyOf(sets'[WindowStart(sets', s.maxmem)..], sets[w].key)
    ensures !HoldsSuffix(Apply(s, op), sets + [op.item])
  {
    var w, item := WindowStart(sets, s.maxmem), op.item;
    hide MakesRoom, FirstOrder, Total, WindowStart, Holds, BeforeSet, Apply;
    WrapEvictsNone(s, sets, op);
    SumWith(sets, item, w);
    ReadyToSet(s, sets, op);
    QueueStaysKnown(BeforeSet(s, op), sets, item);
    PassedBy(sets + [item], s.maxmem, w);
  }

  lemma WrapEvictsNone(s: Store, sets: seq<Item>, op: Op)
    requires Fifo(s, sets) && !op.GetOp? && MayFollow(s.maxmem, sets, op) && !AddsUp(s.maxmem, sets, op)
    ensures var w := WindowStart(sets, s.maxmem);
            && MakesRoom(BeforeSet(s, op), op.item.size) && w < |sets|
            && Found(Apply(s, op), sets[w].key).bytes.Some? && Apply(s, op).maxmem == s.maxmem
  {
    hide FirstOrder, Total, WindowStart, QueueReady, LastIfAny, QueueKnown, DistinctKeys;
    var w, r, item := WindowStart(sets, s.maxmem), BeforeSet(s, op), op.item;
    ApplyEnds(s, op);
    ReadyToSet(s, sets, op);
    WrappedFits(r, item.size);
    assert Sum([]) == 0;
    assert sets[w..][0] == sets[w] && sets[w] in sets;
    assert Found(r, sets[w].key).bytes.Some?;
    assert Apply(s, op).dict == r.dict[item.key := Entry(Some(item.bytes), item.size)];
  }

  lemma WrappedFits(s: Store, size: nat)
    requires Coherent(s) && size <= s.maxmem && s.used + size >= WORD
    ensures !TooFull(s, size)
  {
  }

  lemma PassedBy(sets: seq<Item>, maxmem: nat, i: nat)
    requires DistinctKeys(sets) && i < |sets| && Sum(sets[i..]) > maxmem
    ensures !IsKeyOf(sets[WindowStart(sets, maxmem)..], sets[i].key)
  {
    var w := WindowStart(sets, maxmem);
    WindowIsLongest(sets, maxmem);
    if w <= i { SumShrinks(sets, w, i); }
  }

  /**
   * At every point of a run of sets of new keys and gets of keys already set, exactly the longest suffix of
   * the sets that fits is held, if and only if the sizes always add up without wrapping around.
   */
  lemma {:induction false} HoldsLongestSuffix(maxmem: nat, ops: seq<Op>)
    requires maxmem < WORD && Admissible(maxmem, ops)
    ensures NeverWraps(maxmem, ops) ==> Fifo(After(maxmem, ops), SetsOf(ops))
    ensures (forall i | 0 <= i <= |ops| :: HoldsSuffixAfter(maxmem, ops, i)) <==> NeverWraps(maxmem, ops)
    decreases |ops|
  {
    hide HoldsSuffix, Fifo, After, SetsOf, AddsUp, MayFollow;
    if ops == [] {
      NothingSetYet(maxmem);
    } else {
      var init, last := ops[..|ops| - 1], ops[|ops| - 1];
      HoldsLongestSuffix(maxmem, init);
      forall i | 0 <= i <= |init| ensures HoldsSuffixAfter(maxmem, ops, i) == HoldsSuffixAfter(maxmem, init, i) {
        assert ops[..i] == init[..i];
      }
      assert ops[..|ops|] == ops;
      if NeverWraps(maxmem, init) {
        LastIsFifo(maxmem, ops);
        assert HoldsSuffixAfter(maxmem, ops, |ops|) <==> NeverWraps(maxmem, ops);
      } else {
        var i :| 0 <= i <= |init| && !HoldsSuffixAfter(maxmem, init, i);
        assert !HoldsSuffixAfter(maxmem, ops, i);
      }
    }
  }

  lemma NothingSetYet(maxmem: nat)
    requires maxmem < WORD
    ensures Fifo(After(maxmem, []), SetsOf([])) && HoldsSuffixAfter(maxmem, [], 0)
  {
    FifoHoldsSuffix(After(maxmem, []), SetsOf([]));
  }

  ghost predicate HoldsSuffixAfter(maxmem: nat, ops: seq<Op>, i: nat)
    requires maxmem < WORD && i <= |ops|
  {
    Admissible(maxmem, ops[..i]) && HoldsSuffix(After(maxmem, ops[..i]), SetsOf(ops[..i]))
  }

  lemma LastIsFifo(maxmem: nat, ops: seq<Op>)
    requires maxmem < WORD && ops != [] && Admissible(maxmem, ops)
    requires var init := ops[..|ops| - 1]; Fifo(After(maxmem, init), SetsOf(init))
    ensures var adds := AddsUp(maxmem, SetsOf(ops[..|ops| - 1]), ops[|ops| - 1]);
            && (adds ==> Fifo(After(maxmem, ops), SetsOf(ops)))
            && (HoldsSuffix(After(maxmem, ops), SetsOf(ops)) <==> adds)
  {
    var init, last := ops[..|ops| - 1], ops[|ops| - 1];
    var s, sets := After(maxmem, init), SetsOf(init);
    if last.GetOp? {
      GetIsFifo(s, sets, last.key);
      assert SetsOf(ops) == sets;
    } else {
      SetIsFifo(s, sets, last);
      if !AddsUp(maxmem, sets, last) { WrapKeepsTooMuch(s, sets, last); }
    }
    if AddsUp(maxmem, sets, last) { FifoHoldsSuffix(After(maxmem, ops), SetsOf(ops)); }
  }
}
