/** The workload generator. The random draws are inputs, within the ranges their distributions have. */
module Generators {
  import opened GeneratorKeys
  import opened GeneratorSpec

  /** What the constructor draws for one item; the weight is the value computed from the last draw. */
  datatype Draw = Draw(keySize: int, percent: nat, low: nat, mid: nat, high: nat, prob: nat)

  predicate InRange(d: Draw) {
    d.percent <= 100 && 10 <= d.mid <= 500 && d.prob <= 1000
  }

  function Clamp(x: int, lo: int, hi: int): int {
    if x < lo then lo else if x > hi then hi else x
  }

  function ValSize(d: Draw): (size: nat)
    requires InRange(d)
    ensures 2 <= size <= 5000
  {
    if d.percent < 40 then Clamp(d.low, 2, 10)
    else if d.percent < 90 then d.mid
    else Clamp(d.high, 0, 4500) + 500
  }

  function ItemOf(i: nat, d: Draw): Item
    requires InRange(d) && i < 1_000_000
  {
    Item(KeyOf(i, Clamp(d.keySize, 15, 70) - 10), ValSize(d), d.prob)
  }

  lemma ItemInRange(i: nat, d: Draw)
    requires InRange(d) && i < 1_000_000
    ensures 2 <= ItemOf(i, d).valSize <= 5000 && ItemOf(i, d).prob <= 1000
  {
  }

  // ---------- What an item owes to its draw ----------

  function Distance(x: int, y: int): nat {
    if x < y then y - x else x - y
  }

  /** No number in the range is nearer to x. */
  ghost predicate Nearest(v: int, x: int, lo: int, hi: int) {
    lo <= v <= hi && forall w | lo <= w <= hi :: Distance(x, v) <= Distance(x, w)
  }

  /** The item is as drawn: its weight, its value size by the three distributions, and its key by length and parts. */
  ghost predicate IsDrawn(item: Item, i: nat, d: Draw)
    requires i < 1_000_000
  {
    var key, digits := item.key, |Identifier(i)|;
    && item.prob == d.prob
    && (if d.percent < 40 then Nearest(item.valSize, d.low, 2, 10)
        else if d.percent < 90 then item.valSize == d.mid
        else Nearest(item.valSize - 500, d.high, 0, 4500))
    && "key_" <= key && 4 + digits <= |key| && Nearest(|key| - 4 - digits + 10, d.keySize, 15, 70)
    && (forall j | 4 <= j < 4 + digits :: IsDigit(key[j])) && forall j | 4 + digits <= j < |key| :: key[j] == 'f'
  }

  lemma ItemIsDrawn(i: nat, d: Draw)
    requires InRange(d) && i < 1_000_000
    ensures IndexOf(ItemOf(i, d).key) == i && IsDrawn(ItemOf(i, d), i, d)
  {
    KeyTellsIndex(i, Clamp(d.keySize, 15, 70) - 10);
    PaddedNumber(Log10Floor(1_000_000 - i), i);
    hide IndexOf, Decimal, Log10Floor;
    var id := Identifier(i);
    forall j | 0 <= j < |id| ensures IsDigit(id[j]) {}
  }

  /** The weights drawn for the first n items together. */
  function WeightsDrawn(draws: nat -> Draw, n: nat): nat {
    if n == 0 then 0 else WeightsDrawn(draws, n - 1) + draws(n - 1).prob
  }

  /**
   * The items are those drawn for the indices from 0 on, as their keys tell, and no more of them than it
   * takes to exceed the budget.
   */
  ghost predicate AsDrawn(items: seq<Item>, budget: real, draws: nat -> Draw)
    requires |items| <= 1_000_000
  {
    && (forall item | item in items ::
          var i := IndexOf(item.key); i < |items| && IsDrawn(item, i, draws(i)))
    && (forall i: nat | i < |items| :: HasIndex(items, i))
    && SumProbs(items) == WeightsDrawn(draws, |items|)
    && forall item | item in items && IndexOf(item.key) == |items| - 1 ::
         (SumSizes(items) - item.valSize) as real <= budget < SumSizes(items) as real
  }

  ghost predicate HasIndex(items: seq<Item>, i: nat) {
    exists item | item in items :: IndexOf(item.key) == i
  }

  lemma ShuffleKeepsDrawn(a: seq<Item>, b: seq<Item>, budget: real, draws: nat -> Draw)
    requires Permutation(a, b) && |a| == |b| <= 1_000_000 && AsDrawn(a, budget, draws)
    requires SumSizes(a) == SumSizes(b) && SumProbs(a) == SumProbs(b)
    ensures AsDrawn(b, budget, draws)
  {
    hide IndexOf, IsDrawn, SumSizes, SumProbs;
    forall item ensures item in a <==> item in b { assert item in multiset(a) <==> item in multiset(b); }
    forall i: nat | i < |b| ensures HasIndex(b, i) {
      assert HasIndex(a, i);
      var item :| item in a && IndexOf(item.key) == i;
      assert item in b;
    }
  }

  ghost predicate UniqueKeys(data: seq<Item>) {
    forall i, j | 0 <= i < j < |data| :: data[i].key != data[j].key
  }

  ghost predicate Permutation(a: seq<Item>, b: seq<Item>) {
    multiset(a) == multiset(b)
  }

  // ---------- What shuffling keeps ----------

  lemma SumsAppend(a: seq<Item>, x: Item)
    ensures SumSizes(a + [x]) == SumSizes(a) + x.valSize && SumProbs(a + [x]) == SumProbs(a) + x.prob
  {
    assert (a + [x])[..|a|] == a;
  }

  lemma {:induction false} SumsWithout(b: seq<Item>, i: nat)
    requires i < |b|
    ensures var c := b[..i] + b[i + 1..];
            SumSizes(b) == SumSizes(c) + b[i].valSize && SumProbs(b) == SumProbs(c) + b[i].prob
    decreases |b|
  {
    var init, last := b[..|b| - 1], b[|b| - 1];
    if i == |b| - 1 {
      assert b[..i] + b[i + 1..] == init;
    } else {
      SumsWithout(init, i);
      assert b[..i] + b[i + 1..] == (init[..i] + init[i + 1..]) + [last];
      SumsAppend(init[..i] + init[i + 1..], last);
    }
  }

  lemma MultisetWithout(b: seq<Item>, i: nat)
    requires i < |b|
    ensures multiset(b) == multiset(b[..i] + b[i + 1..]) + multiset{b[i]}
  {
    assert b == b[..i] + [b[i]] + b[i + 1..];
  }

  lemma StillPermutation(a: seq<Item>, b: seq<Item>, i: nat)
    requires Permutation(a, b) && a != [] && i < |b| && b[i] == a[|a| - 1]
    ensures Permutation(a[..|a| - 1], b[..i] + b[i + 1..])
  {
    MultisetWithout(a, |a| - 1);
    MultisetWithout(b, i);
    assert a[..|a| - 1] + a[|a|..] == a[..|a| - 1];
    assert multiset(a[..|a| - 1]) == multiset(a) - multiset{b[i]};
    assert multiset(b[..i] + b[i + 1..]) == multiset(b) - multiset{b[i]};
  }

  lemma {:induction false} ShuffleKeepsSums(a: seq<Item>, b: seq<Item>)
    requires Permutation(a, b)
    ensures SumSizes(a) == SumSizes(b) && SumProbs(a) == SumProbs(b) && |a| == |b|
    decreases |a|
  {
    assert |multiset(a)| == |a| && |multiset(b)| == |b|;
    if a != [] {
      var last := |a| - 1;
      assert a[last] in multiset(b);
      var i :| 0 <= i < |b| && b[i] == a[last];
      StillPermutation(a, b, i);
      ShuffleKeepsSums(a[..last], b[..i] + b[i + 1..]);
      SumsWithout(b, i);
    }
  }

  lemma OccursOnce(a: seq<Item>, x: nat)
    requires UniqueKeys(a) && x < |a|
    ensures multiset(a)[a[x]] == 1
  {
    MultisetWithout(a, x);
    assert a[x] !in a[..x] && a[x] !in a[x + 1..];
  }

  lemma OccursTwice(b: seq<Item>, i: nat, j: nat)
    requires i < j < |b| && b[i] == b[j]
    ensures multiset(b)[b[i]] >= 2
  {
    MultisetWithout(b, j);
    assert b[i] == (b[..j] + b[j + 1..])[i];
    assert b[i] in b[..j] + b[j + 1..];
  }

  lemma ShuffleKeepsUnique(a: seq<Item>, b: seq<Item>)
    requires Permutation(a, b) && UniqueKeys(a)
    ensures UniqueKeys(b)
  {
    forall i, j | 0 <= i < j < |b| ensures b[i].key != b[j].key {
      assert b[i] in multiset(a) && b[j] in multiset(a);
      var x :| 0 <= x < |a| && a[x] == b[i];
      var y :| 0 <= y < |a| && a[y] == b[j];
      OccursOnce(a, x);
      if b[i] == b[j] { OccursTwice(b, i, j); }
    }
  }

  /** The circular scan may go on, at the next index, until it is round. */
  lemma ScanGoesOn(data: seq<Item>, start: nat, target: nat, k: nat)
    requires start < |data| && k < |data| && target <= SumProbs(data) && Circ(data, start, k + 1) < target
    ensures k + 1 < |data| && Offset(data, start, target, k) == Offset(data, start, target, k + 1)
  {
    FullCircle(data, start);
  }

  lemma ScanIsOver(data: seq<Item>, start: nat, target: nat, k: nat)
    requires start < |data| && k < |data| && target <= SumProbs(data) && Circ(data, start, k + 1) >= target
    ensures Offset(data, start, target, k) == k
  {
  }

  datatype Verb = Get | Set | Delete

  datatype Request = Request(key: string, valSize: nat, verb: Verb)

  class Generator {
    var data: seq<Item>
    var totalProb: nat
    const localityRange: int
    const localityShift: real
    var currentLocality: nat

    ghost predicate Valid()
      reads this
    {
      && totalProb == SumProbs(data)
      && (Parameters(localityRange, localityShift) ==> currentLocality < Period(localityRange, localityShift))
    }

    /** The state gen_req needs: there is something to choose from, and a range to choose in. */
    ghost predicate Usable()
      reads this
    {
      Valid() && data != [] && Parameters(localityRange, localityShift)
    }

    /**
     * Fills the table until its values are larger than size_factor * size together. The padding of a
     * key is computed for fewer than a million items only, hence the bound on the budget.
     */
    constructor (range: int, shift: real, size: int, sizeFactor: real, draws: nat -> Draw,
                 shuffle: seq<Item> -> seq<Item>)
      requires sizeFactor * size as real < 2_000_000.0
      requires forall i :: InRange(draws(i))
      requires forall table :: Permutation(table, shuffle(table))
      ensures Valid() && localityRange == range && localityShift == shift && currentLocality == 0
      ensures data == [] <==> sizeFactor * size as real < 0.0
      ensures data != [] ==>
                sizeFactor * size as real < SumSizes(data) as real <= sizeFactor * size as real + 5000.0
      ensures UniqueKeys(data) && |data| <= 1_000_000 && totalProb <= 1_000_000_000
      ensures forall item | item in data :: 2 <= item.valSize <= 5000 && item.prob <= 1000
      ensures AsDrawn(data, sizeFactor * size as real, draws)
    {
      hide Period, SumSizes, SumProbs, ItemOf, ValSize, UniqueKeys, AsDrawn;
      localityRange, localityShift, currentLocality := range, shift, 0;
      var budget := sizeFactor * size as real;
      var table, total := FillTable(budget, draws);
      data := shuffle(table);
      totalProb := total;
      new;
      assert Permutation(table, data);
      ShuffleKeepsSums(table, data);
      ShuffleKeepsUnique(table, data);
      forall item | item in data ensures 2 <= item.valSize <= 5000 && item.prob <= 1000 {
        assert item in multiset(table);
      }
      assert |multiset(table)| == |multiset(data)|;
      ShuffleKeepsDrawn(table, data, budget, draws);
    }

    /** The loop of the constructor: the items in the order in which they are made, and their weights together. */
    static method FillTable(budget: real, draws: nat -> Draw) returns (table: seq<Item>, total: nat)
      requires budget < 2_000_000.0 && forall i :: InRange(draws(i))
      ensures table == [] <==> budget < 0.0
      ensures table != [] ==> budget < SumSizes(table) as real <= budget + 5000.0
      ensures UniqueKeys(table) && |table| <= 1_000_000 && total == SumProbs(table) <= 1000 * |table|
      ensures forall item | item in table :: 2 <= item.valSize <= 5000 && item.prob <= 1000
      ensures AsDrawn(table, budget, draws)
    {
      hide ItemOf, ValSize, UniqueKeys, AsDrawn, WeightsDrawn;
      var sizeUsed, i := 0, 0;
      total, table := 0, [];
      while sizeUsed as real <= budget
        invariant i == |table| <= 1_000_000 && 2 * i <= sizeUsed == SumSizes(table)
        invariant i > 0 ==> 0.0 <= budget && sizeUsed as real <= budget + 5000.0
        invariant total == SumProbs(table) <= 1000 * i
        invariant i > 0 ==> (sizeUsed - table[i - 1].valSize) as real <= budget
        invariant forall j | 0 <= j < i :: table[j] == ItemOf(j, draws(j))
        invariant forall item | item in table :: 2 <= item.valSize <= 5000 && item.prob <= 1000
        decreases 2_000_000 - sizeUsed
      {
        var item := ItemOf(i, draws(i));
        ItemInRange(i, draws(i));
        SumsAppend(table, item);
        table := table + [item];
        sizeUsed := sizeUsed + item.valSize;
        total := total + item.prob;
        i := i + 1;
      }
      TableIsUnique(table, draws);
      TableIsDrawn(table, budget, draws);
    }

    static lemma TableIsDrawn(table: seq<Item>, budget: real, draws: nat -> Draw)
      requires forall i :: InRange(draws(i))
      requires |table| <= 1_000_000 && forall j | 0 <= j < |table| :: table[j] == ItemOf(j, draws(j))
      requires table != [] ==>
                 (SumSizes(table) - table[|table| - 1].valSize) as real <= budget < SumSizes(table) as real
      ensures AsDrawn(table, budget, draws)
    {
      hide IndexOf, IsDrawn, ItemOf, SumSizes, SumProbs, WeightsDrawn;
      WeightsAreDrawn(table, draws);
      forall j | 0 <= j < |table| ensures IndexOf(table[j].key) == j && IsDrawn(table[j], j, draws(j)) {
        ItemIsDrawn(j, draws(j));
      }
      forall item | item in table ensures var i := IndexOf(item.key); i < |table| && IsDrawn(item, i, draws(i)) {
        var j :| 0 <= j < |table| && table[j] == item;
      }
      forall i: nat | i < |table| ensures HasIndex(table, i) { assert IndexOf(table[i].key) == i; }
      forall item | item in table && IndexOf(item.key) == |table| - 1 ensures item == table[|table| - 1] {
        var j :| 0 <= j < |table| && table[j] == item;
      }
    }

    static lemma {:induction false} WeightsAreDrawn(table: seq<Item>, draws: nat -> Draw)
      requires forall i :: InRange(draws(i))
      requires |table| <= 1_000_000 && forall j | 0 <= j < |table| :: table[j] == ItemOf(j, draws(j))
      ensures SumProbs(table) == WeightsDrawn(draws, |table|)
      decreases |table|
    {
      if table != [] { WeightsAreDrawn(table[..|table| - 1], draws); }
    }

    static lemma TableIsUnique(table: seq<Item>, draws: nat -> Draw)
      requires forall i :: InRange(draws(i))
      requires |table| <= 1_000_000 && forall j | 0 <= j < |table| :: table[j] == ItemOf(j, draws(j))
      ensures UniqueKeys(table)
    {
      forall i, j | 0 <= i < j < |table| ensures table[i].key != table[j].key {
        KeyTellsIndex(i, Clamp(draws(i).keySize, 15, 70) - 10);
        KeyTellsIndex(j, Clamp(draws(j).keySize, 15, 70) - 10);
      }
    }

    /** The circular scan: never out of bounds, over within one lap. */
    method Scan(start: nat, target: nat) returns (i: nat)
      requires Usable() && start < |data| && target <= totalProb
      ensures i < |data| && i == Around(start + Offset(data, start, target, 0), |data|)
    {
      hide Offset, SumProbs, SumSizes, UniqueKeys;
      var current := 0;
      ghost var k := 0;
      i := start;
      while current + data[i].prob < target
        invariant k < |data| && i == Around(start + k, |data|) && i < |data|
        invariant current == Circ(data, start, k)
        invariant Offset(data, start, target, 0) == Offset(data, start, target, k)
        decreases |data| - k
      {
        ScanGoesOn(data, start, target, k);
        current := current + data[i].prob;
        i := i + 1;
        if i >= |data| {
          i := 0;
        }
        k := k + 1;
      }
      ScanIsOver(data, start, target, k);
    }

    /** A key and value size that the circular prefix sums from start give the target to. */
    ghost predicate Chosen(key: string, valSize: nat, start: int, target: nat)
      reads `data
    {
      && 0 <= start < |data| && target <= SumProbs(data)
      && var item := data[Around(start + Offset(data, start, target, 0), |data|)];
         key == item.key && valSize == item.valSize
    }

    method Choose(target: nat) returns (item: Item)
      requires Usable() && target <= totalProb / localityRange
      modifies `currentLocality
      ensures Usable() && currentLocality == NextLocality(old(currentLocality), localityRange, localityShift)
      ensures Chosen(item.key, item.valSize,
                     StartIndex(old(currentLocality), localityRange, localityShift, |data|), target)
    {
      hide Offset, SumProbs, Circ;
      ShareIsLess(totalProb, localityRange);
      StartInTable(currentLocality, localityRange, localityShift, |data|);
      var i := Scan(StartIndex(currentLocality, localityRange, localityShift, |data|), target);
      currentLocality := currentLocality + 1;
      if currentLocality as real >= localityRange as real / localityShift {
        currentLocality := 0;
      }
      item := data[i];
    }

    /**
     * A request, from two draws for the method, one for the length of a key that is not in the
     * table, and the target. Deletes of absent keys leave the locality where it is.
     */
    method GenReq(setOnly: bool, verbDraw: nat, absentDraw: nat, dummySize: int, target: nat) returns (req: Request)
      requires Usable() && verbDraw <= 30 && absentDraw <= 30 && target <= totalProb / localityRange
      modifies `currentLocality
      ensures Usable()
      ensures req.verb == if setOnly || verbDraw >= 30 then Set else if verbDraw < 21 then Get else Delete
      ensures req.verb == Delete && absentDraw < 27 ==>
                && req == Request(Repeat('f', Clamp(dummySize, 15, 70)), 1, Delete)
                && currentLocality == old(currentLocality)
      ensures !(req.verb == Delete && absentDraw < 27) ==>
                && Chosen(req.key, req.valSize,
                          StartIndex(old(currentLocality), localityRange, localityShift, |data|), target)
                && currentLocality == NextLocality(old(currentLocality), localityRange, localityShift)
    {
      var verb;
      if setOnly {
        verb := Set;
      } else if verbDraw < 21 {
        verb := Get;
      } else if verbDraw < 30 {
        verb := Delete;
        if absentDraw < 27 {
          return Request(Repeat('f', Clamp(dummySize, 15, 70)), 1, verb);
        }
      } else {
        verb := Set;
      }
      var item := Choose(target);
      req := Request(item.key, item.valSize, verb);
    }

    static lemma ShareIsLess(total: nat, range: int)
      requires range >= 1
      ensures total / range <= total
    {
    }
  }
}
