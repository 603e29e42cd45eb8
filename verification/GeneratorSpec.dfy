/** The workload table and the weighted choice from it. */
module GeneratorSpec {
  datatype Item = Item(key: string, valSize: nat, prob: nat)

  function SumSizes(data: seq<Item>): nat {
    if data == [] then 0 else SumSizes(data[..|data| - 1]) + data[|data| - 1].valSize
  }

  function SumProbs(data: seq<Item>): nat {
    if data == [] then 0 else SumProbs(data[..|data| - 1]) + data[|data| - 1].prob
  }

  // ---------- The circular prefix sums ----------

  /** The index that counting on to i leads to in a table of n items that starts again at its end. */
  function Around(i: nat, n: nat): nat
    requires i < 2 * n
  {
    if i < n then i else i - n
  }

  /** The weights of the first k items from index start on, the table being a circle. */
  function Circ(data: seq<Item>, start: nat, k: nat): nat
    requires start < |data| && k <= |data|
  {
    if k == 0 then 0 else Circ(data, start, k - 1) + data[Around(start + k - 1, |data|)].prob
  }

  lemma {:induction false} SumProbsSplit(data: seq<Item>, i: nat)
    requires i <= |data|
    ensures SumProbs(data) == SumProbs(data[..i]) + SumProbs(data[i..])
    decreases |data|
  {
    if i < |data| {
      var init := data[..|data| - 1];
      SumProbsSplit(init, i);
      assert init[..i] == data[..i];
      assert data[i..][..|data[i..]| - 1] == init[i..];
    } else {
      assert data[..i] == data;
    }
  }

  lemma {:induction false} CircIsSum(data: seq<Item>, start: nat, k: nat)
    requires start < |data| && k <= |data|
    ensures Circ(data, start, k)
         == if start + k <= |data| then SumProbs(data[start..start + k])
            else SumProbs(data[start..]) + SumProbs(data[..start + k - |data|])
    decreases k
  {
    if k > 0 {
      CircIsSum(data, start, k - 1);
      if start + k <= |data| {
        assert data[start..start + k][..k - 1] == data[start..start + k - 1];
      } else {
        var e := start + k - |data|;
        assert data[..e][..e - 1] == data[..e - 1];
        assert start + k - 1 == |data| ==> data[start..start + k - 1] == data[start..];
      }
    }
  }

  /** Once round the circle is everything. */
  lemma FullCircle(data: seq<Item>, start: nat)
    requires start < |data|
    ensures Circ(data, start, |data|) == SumProbs(data)
  {
    CircIsSum(data, start, |data|);
    SumProbsSplit(data, start);
    if start == 0 { assert data[0..0 + |data|] == data; }
  }

  lemma {:induction false} CircGrows(data: seq<Item>, start: nat, j: nat, k: nat)
    requires start < |data| && j <= k <= |data|
    ensures Circ(data, start, j) <= Circ(data, start, k)
    decreases k - j
  {
    if j < k { CircGrows(data, start, j, k - 1); }
  }

  // ---------- The choice ----------

  /** How far from start the first item is at which the prefix sum reaches the target. */
  function Offset(data: seq<Item>, start: nat, target: nat, k: nat): (r: nat)
    requires start < |data| && k < |data| && target <= SumProbs(data)
    ensures k <= r < |data| && target <= Circ(data, start, r + 1)
    ensures forall m | k < m <= r :: Circ(data, start, m) < target
    decreases |data| - k
  {
    if Circ(data, start, k + 1) >= target then k
    else
      FullCircle(data, start);
      Offset(data, start, target, k + 1)
  }

  /** The item at offset j is chosen exactly for the targets above the weights before it and within its own. */
  lemma ChosenForItsShare(data: seq<Item>, start: nat, target: nat, j: nat)
    requires start < |data| && j < |data| && target <= SumProbs(data)
    ensures Offset(data, start, target, 0) == j
            <==> target <= Circ(data, start, j + 1) && (j == 0 || Circ(data, start, j) < target)
  {
    var r := Offset(data, start, target, 0);
    if r < j { CircGrows(data, start, r + 1, j); }
    assert r > j ==> Circ(data, start, j + 1) < target;
    assert r == j > 0 ==> Circ(data, start, j) < target;
  }

  function Min(a: nat, b: nat): nat {
    if a < b then a else b
  }

  /** How many of the targets 0 to t choose the item at offset j. */
  function Times(data: seq<Item>, start: nat, t: nat, j: nat): nat
    requires start < |data| && j < |data| && t <= SumProbs(data)
  {
    (if Offset(data, start, t, 0) == j then 1 else 0) + if t == 0 then 0 else Times(data, start, t - 1, j)
  }

  /**
   * Over all targets up to t an item is chosen as often as its weight lies within t, and the first item once
   * more for target 0: an item wholly within reach is chosen in exact proportion to its weight.
   */
  lemma {:induction false} ChosenInProportion(data: seq<Item>, start: nat, t: nat, j: nat)
    requires start < |data| && j < |data| && t <= SumProbs(data)
    ensures Times(data, start, t, j)
         == Min(t, Circ(data, start, j + 1)) - Min(t, Circ(data, start, j)) + (if j == 0 then 1 else 0)
    ensures Circ(data, start, j + 1) <= t ==>
              Times(data, start, t, j) == data[Around(start + j, |data|)].prob + (if j == 0 then 1 else 0)
    decreases t
  {
    ChosenForItsShare(data, start, t, j);
    CircGrows(data, start, j, j + 1);
    if t > 0 { ChosenInProportion(data, start, t - 1, j); }
  }

  // ---------- The sliding start ----------

  predicate Parameters(range: int, shift: real) {
    range >= 1 && shift > 0.0
  }

  /** The number of calls after which the locality counter is back at zero: the ceiling of range over shift. */
  function Period(range: int, shift: real): (p: nat)
    requires Parameters(range, shift)
    ensures p >= 1 && (p - 1) as real < range as real / shift <= p as real
  {
    var q := range as real / shift;
    assert q > 0.0;
    if q == q.Floor as real then q.Floor else q.Floor + 1
  }

  function NextLocality(c: nat, range: int, shift: real): nat
    requires Parameters(range, shift)
  {
    if (c + 1) as real >= range as real / shift then 0 else c + 1
  }

  function FloorOfShare(x: real, y: real, r: real): int
    requires r > 0.0
  {
    (x * y / r).Floor
  }

  function StartIndex(c: nat, range: int, shift: real, n: nat): int
    requires Parameters(range, shift) && n >= 1
  {
    FloorOfShare(c as real, shift * (n - 1) as real, range as real)
  }

  lemma StartInTable(c: nat, range: int, shift: real, n: nat)
    requires Parameters(range, shift) && n >= 1 && c < Period(range, shift)
    ensures 0 <= StartIndex(c, range, shift, n) < n
  {
    var r, m, x := range as real, (n - 1) as real, c as real;
    FromQuotient(x, r, shift);
    Regroup(x, shift, m);
    NonNegative(x, shift * m);
    if n == 1 {
      assert x * (shift * m) == 0.0;
    } else {
      Scale(x * shift, r, m);
    }
    assert 0.0 <= x * (shift * m) && x * (shift * m) <= r * m;
    QuotientBounds(x * (shift * m), r, m);
  }

  lemma Regroup(a: real, b: real, c: real)
    ensures a * (b * c) == (a * b) * c
  {
  }

  lemma NonNegative(a: real, b: real)
    requires a >= 0.0 && b >= 0.0
    ensures a * b >= 0.0
  {
  }

  lemma FromQuotient(x: real, r: real, d: real)
    requires d > 0.0 && x < r / d
    ensures x * d < r
  {
    var q := r / d;
    assert q * d == r;
    Scale(x, q, d);
  }

  lemma QuotientBounds(y: real, r: real, m: real)
    requires r > 0.0 && 0.0 <= y <= r * m
    ensures 0.0 <= y / r <= m
  {
    var q := y / r;
    assert q * r == y;
    if q > m { Scale(m, q, r); }
    if q < 0.0 { Scale(q, 0.0, r); }
  }

  lemma Scale(a: real, b: real, f: real)
    requires a < b && f > 0.0
    ensures a * f < b * f
  {
  }

  function LocalityAfter(j: nat, range: int, shift: real): nat
    requires Parameters(range, shift)
  {
    if j == 0 then 0 else NextLocality(LocalityAfter(j - 1, range, shift), range, shift)
  }

  /** The counter goes round in its period. */
  lemma {:induction false} LocalityIsPeriodic(j: nat, range: int, shift: real)
    requires Parameters(range, shift)
    ensures LocalityAfter(j, range, shift) == j % Period(range, shift)
    decreases j
  {
    if j > 0 {
      LocalityIsPeriodic(j - 1, range, shift);
      var p := Period(range, shift);
      Successor(j - 1, p);
    }
  }

  lemma ModOf(q: nat, p: nat, r: nat)
    requires r < p
    ensures (q * p + r) % p == r
  {
    var x := q * p + r;
    var d := q - x / p;
    assert x == x / p * p + x % p;
    assert d * p == x % p - r;
    if d >= 1 {
      AtLeastOne(d, p);
    } else if d <= -1 {
      AtLeastOne(-d, p);
    }
  }

  lemma AtLeastOne(d: int, p: nat)
    requires d >= 1
    ensures d * p >= p
  {
  }

  lemma Successor(j: nat, p: nat)
    requires p >= 1
    ensures (j + 1) % p == if j % p + 1 == p then 0 else j % p + 1
  {
    var q, r := j / p, j % p;
    assert j == q * p + r;
    if r + 1 == p {
      assert j + 1 == (q + 1) * p + 0;
      ModOf(q + 1, p, 0);
    } else {
      ModOf(q, p, r + 1);
    }
  }

  // ---------- The window slides over the table ----------

  /** By how much the start moves from one call to the next, but for rounding. */
  function Stride(range: int, shift: real, n: nat): real
    requires Parameters(range, shift)
  {
    shift * (n - 1) as real / range as real
  }

  lemma TimesQuotient(c: real, x: real, r: real)
    requires r > 0.0
    ensures c * x / r == c * (x / r)
  {
    var q := x / r;
    assert q * r == x;
    assert c * x == c * (q * r) == (c * q) * r;
    QuotientIs(c * x, r, c * q);
  }

  lemma QuotientIs(y: real, r: real, q: real)
    requires r > 0.0 && y == q * r
    ensures y / r == q
  {
    var p := y / r;
    assert p * r == y;
    if p < q { Scale(p, q, r); }
    if q < p { Scale(q, p, r); }
  }

  /** The place that so many strides lead to. */
  function Strides(c: nat, stride: real): real {
    c as real * stride
  }

  /** The start is the place reached by so many strides, rounded down. */
  lemma StartIsFloor(c: nat, range: int, shift: real, n: nat)
    requires Parameters(range, shift) && n >= 1
    ensures var k := StartIndex(c, range, shift, n);
            k as real <= Strides(c, Stride(range, shift, n)) < (k + 1) as real
  {
    FloorOfShareIs(c as real, shift * (n - 1) as real, range as real);
  }

  lemma FloorOfShareIs(x: real, y: real, r: real)
    requires r > 0.0
    ensures var k := FloorOfShare(x, y, r); k as real <= x * (y / r) < (k + 1) as real
  {
    var v := x * y / r;
    TimesQuotient(x, y, r);
    FloorBounds(v);
    assert FloorOfShare(x, y, r) == v.Floor;
  }

  lemma FloorBounds(v: real)
    ensures v.Floor as real <= v < (v.Floor + 1) as real
  {
  }

  lemma PeriodCovers(range: int, shift: real)
    requires Parameters(range, shift)
    ensures range as real <= Period(range, shift) as real * shift
  {
    var q := range as real / shift;
    assert q * shift == range as real;
    Multiples(q, Period(range, shift) as real, shift);
  }

  /** A period of strides leads to the last item, or beyond it. */
  lemma PeriodOfStrides(range: int, shift: real, n: nat)
    requires Parameters(range, shift) && n >= 1
    ensures Stride(range, shift, n) >= 0.0
    ensures Strides(Period(range, shift), Stride(range, shift, n)) >= (n - 1) as real
  {
    var r, m, p := range as real, (n - 1) as real, Period(range, shift) as real;
    NonNegative(shift, m);
    QuotientBounds(shift * m, r, shift * m);
    PeriodCovers(range, shift);
    TimesQuotient(p, shift * m, r);
    Regroup(p, shift, m);
    Multiples(r, p * shift, m);
    AtLeastQuotient((p * shift) * m, r, m);
  }

  lemma Multiples(a: real, b: real, f: real)
    requires a <= b && f >= 0.0
    ensures a * f <= b * f
  {
  }

  lemma AtLeastQuotient(y: real, r: real, m: real)
    requires r > 0.0 && y >= r * m
    ensures y / r >= m
  {
    var q := y / r;
    assert q * r == y;
    if q < m { Scale(q, m, r); }
  }

  lemma OneMoreStride(c: nat, stride: real)
    ensures Strides(c + 1, stride) == Strides(c, stride) + stride && Strides(0, stride) == 0.0
  {
  }

  /**
   * The j-th call that chooses from the table starts inside it, at the index that its place in the period
   * gives: so many strides from the first item, rounded down. A period starts with the first item, never
   * goes back, moves by one stride at a time up to rounding, and ends within a stride of the last item.
   */
  lemma StartOfCall(j: nat, range: int, shift: real, n: nat)
    requires Parameters(range, shift) && n >= 1
    ensures var p := Period(range, shift); var c := LocalityAfter(j, range, shift);
            var stride := Stride(range, shift, n); var k := StartIndex(c, range, shift, n);
            && c == j % p && 0 <= k < n && k as real <= Strides(c, stride) < (k + 1) as real
            && (c == 0 ==> k == 0)
            && (c + 1 < p ==>
                  var k' := StartIndex(LocalityAfter(j + 1, range, shift), range, shift, n);
                  k <= k' && stride - 1.0 < (k' - k) as real < stride + 1.0)
            && (c + 1 == p ==>
                  LocalityAfter(j + 1, range, shift) == 0 && (n - 1 - k) as real < stride + 1.0)
  {
    hide StartIndex, Strides, Stride, Period, LocalityAfter, Parameters;
    var p, c := Period(range, shift), LocalityAfter(j, range, shift);
    var stride := Stride(range, shift, n);
    NextOfCall(j, range, shift);
    StartInTable(c, range, shift, n);
    StartIsFloor(c, range, shift, n);
    PeriodOfStrides(range, shift, n);
    OneMoreStride(c, stride);
    if c + 1 < p { StartIsFloor(c + 1, range, shift, n); }
    if c == 0 { OneMoreStride(0, stride); }
  }

  lemma NextOfCall(j: nat, range: int, shift: real)
    requires Parameters(range, shift)
    ensures var p := Period(range, shift); var c := LocalityAfter(j, range, shift);
            && c == j % p && c < p
            && LocalityAfter(j + 1, range, shift) == if c + 1 == p then 0 else c + 1
  {
    LocalityIsPeriodic(j, range, shift);
    LocalityIsPeriodic(j + 1, range, shift);
    Successor(j, Period(range, shift));
  }
}
