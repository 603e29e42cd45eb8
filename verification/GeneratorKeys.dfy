/** The keys of the workload table: irregularly padded, but never two alike. */
module GeneratorKeys {
  function Repeat(c: char, n: nat): (s: string)
    ensures |s| == n && forall i | 0 <= i < n :: s[i] == c
  {
    seq(n, _ => c)
  }

  function Digit(d: nat): char
    requires d < 10
  {
    '0' + d as char
  }

  predicate IsDigit(c: char) {
    '0' <= c <= '9'
  }

  function Decimal(i: nat): string {
    if i < 10 then [Digit(i)] else Decimal(i / 10) + [Digit(i % 10)]
  }

  function Log10Floor(n: nat): nat {
    if n < 10 then 0 else 1 + Log10Floor(n / 10)
  }

  /** The number in the key of the i-th item, behind zeros that are seldom as many as would make it six digits. */
  function Identifier(i: nat): string
    requires i < 1_000_000
  {
    Repeat('0', Log10Floor(1_000_000 - i)) + Decimal(i)
  }

  function KeyOf(i: nat, filler: nat): string
    requires i < 1_000_000
  {
    "key_" + Identifier(i) + Repeat('f', filler)
  }

  // ---------- Reading the number back ----------

  function DigitRun(s: string): string {
    if s == [] || !IsDigit(s[0]) then [] else [s[0]] + DigitRun(s[1..])
  }

  function NumberOf(s: string): nat {
    if s == [] then 0
    else
      var c := s[|s| - 1];
      10 * NumberOf(s[..|s| - 1]) + if IsDigit(c) then (c - '0') as nat else 0
  }

  function IndexOf(key: string): nat {
    NumberOf(DigitRun(if |key| < 4 then [] else key[4..]))
  }

  lemma {:induction false} RunEnds(d: string, rest: string)
    requires (forall c | c in d :: IsDigit(c)) && (rest != [] ==> !IsDigit(rest[0]))
    ensures DigitRun(d + rest) == d
    decreases |d|
  {
    if d == [] {
      assert d + rest == rest;
    } else {
      assert (d + rest)[1..] == d[1..] + rest;
      RunEnds(d[1..], rest);
    }
  }

  lemma {:induction false} ZerosAreNothing(p: nat)
    ensures NumberOf(Repeat('0', p)) == 0
  {
    if p > 0 {
      assert Repeat('0', p)[..p - 1] == Repeat('0', p - 1);
      ZerosAreNothing(p - 1);
    }
  }

  lemma {:induction false} PaddedNumber(p: nat, i: nat)
    ensures NumberOf(Repeat('0', p) + Decimal(i)) == i
    ensures forall c | c in Decimal(i) :: IsDigit(c)
    decreases i
  {
    var s := Repeat('0', p) + Decimal(i);
    if i < 10 {
      ZerosAreNothing(p);
      assert s[..|s| - 1] == Repeat('0', p);
    } else {
      PaddedNumber(p, i / 10);
      assert s[..|s| - 1] == Repeat('0', p) + Decimal(i / 10);
    }
  }

  /** The index can be read off the key, whatever the padding and the filler. */
  lemma KeyTellsIndex(i: nat, filler: nat)
    requires i < 1_000_000
    ensures IndexOf(KeyOf(i, filler)) == i
  {
    hide Decimal, Log10Floor, NumberOf, DigitRun;
    PaddedNumber(Log10Floor(1_000_000 - i), i);
    RunEnds(Identifier(i), Repeat('f', filler));
    assert KeyOf(i, filler)[4..] == Identifier(i) + Repeat('f', filler);
  }

  // ---------- How many digits the identifier has ----------

  lemma {:induction false} LogGrows(a: nat, b: nat)
    requires a <= b
    ensures Log10Floor(a) <= Log10Floor(b)
    decreases b
  {
    if a >= 10 { LogGrows(a / 10, b / 10); }
  }

  function Pow10(k: nat): nat {
    if k == 0 then 1 else 10 * Pow10(k - 1)
  }

  /** The padding is the logarithm rounded down. */
  lemma {:induction false} LogBounds(n: nat)
    requires n > 0
    ensures Pow10(Log10Floor(n)) <= n < Pow10(Log10Floor(n) + 1)
    decreases n
  {
    if n >= 10 { LogBounds(n / 10); }
  }

  lemma {:induction false} DecimalLength(i: nat)
    ensures |Decimal(i)| == Log10Floor(i) + 1
    decreases i
  {
    if i >= 10 { DecimalLength(i / 10); }
  }

  /** The identifier has the digits of the number, and zeros by the logarithm of what is left to a million. */
  lemma IdentifierLength(i: nat) returns (zeros: nat, digits: nat)
    requires 0 < i < 1_000_000
    ensures |Identifier(i)| == zeros + digits && Pow10(zeros) <= 1_000_000 - i < Pow10(zeros + 1)
    ensures digits > 0 && Pow10(digits - 1) <= i < Pow10(digits)
    ensures forall j | 0 <= j < zeros :: Identifier(i)[j] == '0'
  {
    zeros, digits := Log10Floor(1_000_000 - i), Log10Floor(i) + 1;
    LogBounds(i);
    LogBounds(1_000_000 - i);
    DecimalLength(i);
  }

  /** The identifier has six digits for the numbers 1 to 9 and the last nine only; the first one has seven. */
  lemma SixDigits(i: nat)
    requires i < 1_000_000
    ensures |Identifier(i)| == 6 <==> 1 <= i <= 9 || 999_991 <= i
    ensures |Identifier(i)| >= 6 && |Identifier(0)| == 7
  {
    DecimalLength(i);
    assert Log10Floor(100_000) == 5 && Log10Floor(999_999) == 5 && Log10Floor(10) == 1 && Log10Floor(1_000_000) == 6;
    LogGrows(if i < 10 then i else 10, i);
    LogGrows(if i <= 900_000 then 100_000 else if i <= 999_990 then 10 else 0, 1_000_000 - i);
    if i > 0 { LogGrows(1_000_000 - i, 999_999); }
    if i >= 900_000 {
      LogGrows(100_000, i);
      LogGrows(i, 999_999);
    }
  }

  /** A key made of fillers only is none of the table's. */
  lemma FillersAreNoKey(n: nat, i: nat, filler: nat)
    requires i < 1_000_000
    ensures Repeat('f', n) != KeyOf(i, filler)
  {
    assert KeyOf(i, filler)[0] == 'k';
  }
}
