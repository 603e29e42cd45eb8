/** The bar under a test report: a fixed number of columns, shared out among three counts. */
module TotalsBar {
  const CONSOLE_WIDTH: nat := 80

  /** How many values a size has. */
  const SIZES: nat := 0x1_0000_0000_0000_0000

  datatype Counts = Counts(passed: nat, failed: nat, failedButOk: nat)

  function Total(c: Counts): nat {
    c.passed + c.failed + c.failedButOk
  }

  /** A category's share of the width, rounded down, but at least one column if it is not empty. */
  function MakeRatio(number: nat, total: nat): nat {
    var ratio := if total > 0 then CONSOLE_WIDTH * number % SIZES / total else 0;
    if ratio == 0 && number > 0 then 1 else ratio
  }

  datatype Which = First | Second | Third

  function FindMax(i: nat, j: nat, k: nat): (w: Which)
    ensures w == First ==> i > j && i > k
    ensures w == Second ==> j > k && j >= i
    ensures w == Third ==> k >= j && k >= i
  {
    if i > j && i > k then First else if j > k then Second else Third
  }

  /**
   * How far a share can be off: it is rounded down by less than one, or is one in place of nothing. If the
   * product overflows it is only known not to be too large.
   */
  lemma RatioBounds(number: nat, total: nat)
    requires total > 0 && number <= total
    ensures var r := MakeRatio(number, total);
            && (r == 0 <==> number == 0) && r <= CONSOLE_WIDTH && r * total - total < CONSOLE_WIDTH * number
            && (CONSOLE_WIDTH * number < SIZES ==> CONSOLE_WIDTH * number < r * total + total)
  {
    var product := CONSOLE_WIDTH * number % SIZES;
    var q := product / total;
    assert q * total <= product < q * total + total;
    if q > CONSOLE_WIDTH { Ordered(CONSOLE_WIDTH + 1, q, total); }
  }

  // ---------- Whether larger categories have larger shares ----------

  /** No category of a given total has a larger share than a larger one. */
  ghost predicate InOrder(total: nat) {
    forall a: nat, b: nat | a <= b <= total :: MakeRatio(a, total) <= MakeRatio(b, total)
  }

  /** The most that the product can be after an overflow: it is a multiple of 16, as the width is. */
  lemma LargestProduct(number: nat)
    ensures CONSOLE_WIDTH * number % SIZES <= SIZES - 16
  {
    var x := CONSOLE_WIDTH * number % SIZES;
    assert x == CONSOLE_WIDTH * number - SIZES * (CONSOLE_WIDTH * number / SIZES);
    assert x == 16 * (5 * number - SIZES / 16 * (CONSOLE_WIDTH * number / SIZES));
  }

  lemma QuotientAtLeast(x: nat, total: nat, q: nat)
    requires total > 0 && q * total <= x
    ensures q <= x / total
  {
    var r := x / total;
    assert x < r * total + total;
    if r < q { Ordered(r + 1, q, total); }
  }

  lemma QuotientLess(x: nat, total: nat, q: nat)
    requires total > 0 && x < q * total
    ensures x / total < q
  {
    var r := x / total;
    assert r * total <= x;
    if r >= q { Ordered(q, r, total); }
  }

  lemma WithoutOverflow(a: nat, b: nat, total: nat)
    requires total > 0 && a <= b <= total && CONSOLE_WIDTH * total < SIZES
    ensures MakeRatio(a, total) <= MakeRatio(b, total)
  {
    hide MakeRatio;
    PlainRatio(a, total);
    PlainRatio(b, total);
    QuotientsInOrder(CONSOLE_WIDTH * a, CONSOLE_WIDTH * b, total);
  }

  lemma PlainRatio(number: nat, total: nat)
    requires total > 0 && CONSOLE_WIDTH * number < SIZES
    ensures var q := CONSOLE_WIDTH * number / total;
            MakeRatio(number, total) == if q == 0 && number > 0 then 1 else q
  {
  }

  lemma QuotientsInOrder(x: nat, y: nat, total: nat)
    requires total > 0 && x <= y
    ensures x / total <= y / total
  {
    var q := x / total;
    assert q * total <= x;
    QuotientAtLeast(y, total, q);
  }

  /** With a total above half the range, every share of a category that is not empty is 1. */
  lemma SharesOfOne(number: nat, total: nat)
    requires 2 * total > SIZES - 16 && number > 0
    ensures MakeRatio(number, total) == 1
  {
    LargestProduct(number);
    QuotientLess(CONSOLE_WIDTH * number % SIZES, total, 2);
  }

  /** The largest product that does not overflow, and the next one, which does. */
  lemma NextOverflows(total: nat)
    requires total < SIZES <= CONSOLE_WIDTH * total && 2 * total <= SIZES - 16
    ensures var k := (SIZES - 16) / CONSOLE_WIDTH;
            k < total && MakeRatio(k, total) >= 2 && MakeRatio(k + 1, total) == 1
  {
    var k := (SIZES - 16) / CONSOLE_WIDTH;
    assert CONSOLE_WIDTH * k % SIZES == SIZES - 16 && CONSOLE_WIDTH * (k + 1) % SIZES == 64;
    QuotientAtLeast(SIZES - 16, total, 2);
    QuotientLess(64, total, 1);
  }

  /**
   * Larger categories have no smaller shares exactly if no product can overflow, or if the total is so large
   * that all shares are 1.
   */
  lemma SharesInOrder(total: nat)
    requires 0 < total < SIZES
    ensures InOrder(total) <==> CONSOLE_WIDTH * total < SIZES || 2 * total > SIZES - 16
  {
    hide MakeRatio;
    if CONSOLE_WIDTH * total < SIZES {
      forall a: nat, b: nat | a <= b <= total ensures MakeRatio(a, total) <= MakeRatio(b, total) {
        WithoutOverflow(a, b, total);
      }
    } else if 2 * total > SIZES - 16 {
      forall a: nat, b: nat | a <= b <= total ensures MakeRatio(a, total) <= MakeRatio(b, total) {
        ShareOfNothing(total);
        if a > 0 { SharesOfOne(a, total); }
        if b > 0 { SharesOfOne(b, total); }
      }
    } else {
      NextOverflows(total);
      var k := (SIZES - 16) / CONSOLE_WIDTH;
      assert MakeRatio(k, total) > MakeRatio(k + 1, total);
    }
  }

  lemma ShareOfNothing(total: nat)
    ensures MakeRatio(0, total) == 0
  {
    if total > 0 { QuotientLess(0, total, 1); }
  }

  lemma SumOfShares(f: nat, b: nat, p: nat, t: nat)
    requires t > 0 && f * t + b * t + p * t - 3 * t < CONSOLE_WIDTH * t
    ensures f + b + p <= CONSOLE_WIDTH + 2
    ensures CONSOLE_WIDTH * t < f * t + b * t + p * t + 3 * t ==> CONSOLE_WIDTH - 2 <= f + b + p
  {
    var s := f + b + p;
    assert s * t == f * t + b * t + p * t;
    if s <= CONSOLE_WIDTH - 3 { Ordered(s, CONSOLE_WIDTH - 3, t); }
    if s >= CONSOLE_WIDTH + 3 {
      Ordered(CONSOLE_WIDTH + 3, s, t);
      assert false;
    }
  }

  lemma Ordered(a: int, b: int, t: nat)
    requires a <= b
    ensures a * t <= b * t
  {
  }

  function Shares(c: Counts): nat {
    MakeRatio(c.failed, Total(c)) + MakeRatio(c.failedButOk, Total(c)) + MakeRatio(c.passed, Total(c))
  }

  predicate NoOverflow(c: Counts) {
    CONSOLE_WIDTH * Total(c) < SIZES
  }

  /** The three shares together exceed the width by little, and miss it by little unless a product overflows. */
  lemma SharesNearlyFill(c: Counts)
    requires Total(c) > 0
    ensures 0 < Shares(c) <= CONSOLE_WIDTH + 2
    ensures NoOverflow(c) ==> CONSOLE_WIDTH - 2 <= Shares(c)
  {
    var t := Total(c);
    RatioBounds(c.failed, t);
    RatioBounds(c.failedButOk, t);
    RatioBounds(c.passed, t);
    SumOfShares(MakeRatio(c.failed, t), MakeRatio(c.failedButOk, t), MakeRatio(c.passed, t), t);
  }

  // ---------- The columns that are too few or too many ----------

  datatype Bars = Bars(failed: nat, failedButOk: nat, passed: nat)

  function Columns(b: Bars): nat {
    b.failed + b.failedButOk + b.passed
  }

  function Longer(b: Bars): Bars {
    match FindMax(b.failed, b.failedButOk, b.passed)
    case First => b.(failed := b.failed + 1)
    case Second => b.(failedButOk := b.failedButOk + 1)
    case Third => b.(passed := b.passed + 1)
  }

  function Shorter(b: Bars): Bars
    requires Columns(b) > 0
  {
    match FindMax(b.failed, b.failedButOk, b.passed)
    case First => b.(failed := b.failed - 1)
    case Second => b.(failedButOk := b.failedButOk - 1)
    case Third => b.(passed := b.passed - 1)
  }

  /** The bars made to fill one column less than the width, one column at a time. */
  function Spread(b: Bars): (r: Bars)
    ensures Columns(r) == CONSOLE_WIDTH - 1
    decreases if Columns(b) < CONSOLE_WIDTH then CONSOLE_WIDTH - Columns(b) else Columns(b)
  {
    if Columns(b) < CONSOLE_WIDTH - 1 then Spread(Longer(b))
    else if Columns(b) > CONSOLE_WIDTH - 1 then Spread(Shorter(b))
    else b
  }

  /**
   * All the columns that are missing go to one bar: to the passed ones if none is longer, else to the expected
   * failures if none is longer, else to the failures.
   */
  lemma {:induction false} SpareGoToLongest(b: Bars)
    requires Columns(b) <= CONSOLE_WIDTH - 1
    ensures var spare := CONSOLE_WIDTH - 1 - Columns(b);
            Spread(b) == if b.passed >= b.failedButOk && b.passed >= b.failed then b.(passed := b.passed + spare)
                         else if b.failedButOk >= b.failed then b.(failedButOk := b.failedButOk + spare)
                         else b.(failed := b.failed + spare)
    decreases CONSOLE_WIDTH - Columns(b)
  {
    if Columns(b) < CONSOLE_WIDTH - 1 { SpareGoToLongest(Longer(b)); }
  }

  /** No bar is longer than a bar was that lost a column, and no bar gains any; of equal bars the last loses first. */
  lemma {:induction false} LongestLose(b: Bars)
    requires Columns(b) >= CONSOLE_WIDTH - 1
    ensures var r := Spread(b);
            && r.failed <= b.failed && r.failedButOk <= b.failedButOk && r.passed <= b.passed
            && (r.failed < b.failed ==> r.failed + 1 > r.failedButOk && r.failed + 1 > r.passed)
            && (r.failedButOk < b.failedButOk ==> r.failedButOk + 1 >= r.failed && r.failedButOk + 1 > r.passed)
            && (r.passed < b.passed ==> r.passed + 1 >= r.failed && r.passed + 1 >= r.failedButOk)
    decreases Columns(b)
  {
    if Columns(b) > CONSOLE_WIDTH - 1 { LongestLose(Shorter(b)); }
  }

  /** Lengthens or shortens the longest bar until the bars are one column short of the width together. */
  method ShareOut(f: nat, b: nat, p: nat) returns (failed: nat, failedButOk: nat, passed: nat)
    requires 0 < f + b + p <= CONSOLE_WIDTH + 2
    ensures failed + failedButOk + passed == CONSOLE_WIDTH - 1
    ensures Bars(failed, failedButOk, passed) == Spread(Bars(f, b, p))
    ensures (failed == 0 <==> f == 0) && (failedButOk == 0 <==> b == 0) && (passed == 0 <==> p == 0)
    ensures CONSOLE_WIDTH - 2 <= f + b + p ==> Near(failed, f) && Near(failedButOk, b) && Near(passed, p)
  {
    hide Spread;
    SpreadKeeps(Bars(f, b, p));
    failed, failedButOk, passed := f, b, p;
    while failed + failedButOk + passed < CONSOLE_WIDTH - 1
      invariant failed + failedButOk + passed > 0
      invariant Spread(Bars(failed, failedButOk, passed)) == Spread(Bars(f, b, p))
    {
      SpreadStep(Bars(failed, failedButOk, passed));
      match FindMax(failed, failedButOk, passed)
      case First => failed := failed + 1;
      case Second => failedButOk := failedButOk + 1;
      case Third => passed := passed + 1;
    }
    while failed + failedButOk + passed > CONSOLE_WIDTH - 1
      invariant failed + failedButOk + passed >= CONSOLE_WIDTH - 1
      invariant Spread(Bars(failed, failedButOk, passed)) == Spread(Bars(f, b, p))
    {
      SpreadStep(Bars(failed, failedButOk, passed));
      match FindMax(failed, failedButOk, passed)
      case First => failed := failed - 1;
      case Second => failedButOk := failedButOk - 1;
      case Third => passed := passed - 1;
    }
    SpreadStep(Bars(failed, failedButOk, passed));
  }

  lemma SpreadStep(b: Bars)
    ensures Columns(b) < CONSOLE_WIDTH - 1 ==> Spread(b) == Spread(Longer(b))
    ensures Columns(b) > CONSOLE_WIDTH - 1 ==> Spread(b) == Spread(Shorter(b))
    ensures Columns(b) == CONSOLE_WIDTH - 1 ==> Spread(b) == b
  {
  }

  /** No bar appears or disappears, and those that fill the width nearly stay near what they were. */
  lemma SpreadKeeps(b: Bars)
    requires 0 < Columns(b) <= CONSOLE_WIDTH + 2
    ensures var r := Spread(b);
            && (r.failed == 0 <==> b.failed == 0) && (r.failedButOk == 0 <==> b.failedButOk == 0)
            && (r.passed == 0 <==> b.passed == 0)
            && (CONSOLE_WIDTH - 2 <= Columns(b) ==>
                  Near(r.failed, b.failed) && Near(r.failedButOk, b.failedButOk) && Near(r.passed, b.passed))
  {
    var r := Spread(b);
    if Columns(b) <= CONSOLE_WIDTH - 1 { SpareGoToLongest(b); } else { LongestLose(b); }
    hide Spread;
  }

  /** At most three columns fewer or one more than the share. */
  predicate Near(bar: nat, share: nat) {
    share - 3 <= bar <= share + 1
  }

  lemma SharesEmpty(c: Counts)
    requires Total(c) > 0
    ensures MakeRatio(c.failed, Total(c)) == 0 <==> c.failed == 0
    ensures MakeRatio(c.passed, Total(c)) == 0 <==> c.passed == 0
    ensures MakeRatio(c.failedButOk, Total(c)) == 0 <==> c.failedButOk == 0
  {
    RatioBounds(c.failed, Total(c));
    RatioBounds(c.failedButOk, Total(c));
    RatioBounds(c.passed, Total(c));
  }

  /**
   * The three bars, or a single one of another colour if there are no test cases; always one column short
   * of the width. Bars are near their shares unless a product overflows.
   */
  method TotalsDivider(c: Counts) returns (failed: nat, failedButOk: nat, passed: nat, none: nat)
    requires Total(c) < SIZES
    ensures failed + failedButOk + passed + none == CONSOLE_WIDTH - 1
    ensures none == if Total(c) > 0 then 0 else CONSOLE_WIDTH - 1
    ensures (failed == 0 <==> c.failed == 0) && (failedButOk == 0 <==> c.failedButOk == 0)
    ensures passed == 0 <==> c.passed == 0
    ensures Total(c) > 0 ==>
              Bars(failed, failedButOk, passed)
              == Spread(Bars(MakeRatio(c.failed, Total(c)), MakeRatio(c.failedButOk, Total(c)),
                             MakeRatio(c.passed, Total(c))))
    ensures NoOverflow(c) ==>
              && Near(failed, MakeRatio(c.failed, Total(c))) && Near(failedButOk, MakeRatio(c.failedButOk, Total(c)))
              && Near(passed, MakeRatio(c.passed, Total(c)))
  {
    var t := Total(c);
    if t == 0 {
      ShareOfNothing(t);
      return 0, 0, 0, CONSOLE_WIDTH - 1;
    }
    none := 0;
    var f, b, p := MakeRatio(c.failed, t), MakeRatio(c.failedButOk, t), MakeRatio(c.passed, t);
    SharesEmpty(c);
    SharesNearlyFill(c);
    failed, failedButOk, passed := ShareOut(f, b, p);
  }
}
