/** Writing text into XML: the encoder over bytes, with the entities, escapes and UTF-8 checks it applies. */
module XmlEncode {
  type Byte = bv8

  datatype ForWhat = ForTextNodes | ForAttributes

  const LESS: Byte := 0x3C
  const GREATER: Byte := 0x3E
  const AMPERSAND: Byte := 0x26
  const QUOTE: Byte := 0x22
  const BRACKET: Byte := 0x5D

  const LT: seq<Byte> := [0x26, 0x6C, 0x74, 0x3B]
  const GT: seq<Byte> := [0x26, 0x67, 0x74, 0x3B]
  const AMP: seq<Byte> := [0x26, 0x61, 0x6D, 0x70, 0x3B]
  const QUOT: seq<Byte> := [0x26, 0x71, 0x75, 0x6F, 0x74, 0x3B]

  // ---------- One unit of the input ----------

  function HexDigit(n: Byte): Byte {
    if n < 10 then 0x30 + n else 0x41 + (n - 10)
  }

  function HexEscape(c: Byte): seq<Byte> {
    [0x5C, 0x78, HexDigit(c >> 4), HexDigit(c & 0x0F)]
  }

  predicate IsControl(c: Byte) {
    c < 0x09 || (c > 0x0D && c < 0x20) || c == 0x7F
  }

  /** How many bytes a sequence has that starts with this lead byte. */
  function TrailingBytes(c: Byte): nat
    requires 0xC0 <= c < 0xF8
  {
    if c & 0xE0 == 0xC0 then 2 else if c & 0xF0 == 0xE0 then 3 else 4
  }

  function HeaderValue(c: Byte): bv32
    requires 0xC0 <= c < 0xF8
  {
    if c & 0xE0 == 0xC0 then (c & 0x1F) as bv32
    else if c & 0xF0 == 0xE0 then (c & 0x0F) as bv32
    else (c & 0x07) as bv32
  }

  predicate IsContinuation(c: Byte) {
    c & 0xC0 == 0x80
  }

  /** The value after one more continuation byte. */
  function Continued(value: bv32, c: Byte): bv32 {
    (value << 6) | (c & 0x3F) as bv32
  }

  /** The value after the lead byte and n - 1 more. */
  function ValueOf(s: seq<Byte>, n: nat): bv32
    requires 1 <= n <= |s| && 0xC0 <= s[0] < 0xF8
  {
    if n == 1 then HeaderValue(s[0]) else Continued(ValueOf(s, n - 1), s[n - 1])
  }

  predicate Rejected(value: bv32, n: nat) {
    || value < 0x80
    || (0x80 <= value < 0x800 && n > 2)
    || (0x800 < value < 0x10000 && n > 3)
    || value >= 0x110000
  }

  /** The length of the multi-byte sequence at the front that is written as it is, or 0 if the first byte is escaped. */
  function MultiByte(s: seq<Byte>): (n: nat)
    requires s != []
    ensures n <= |s| && (n > 0 ==> 2 <= n <= 4 && 0xC0 <= s[0] < 0xF8 && n == TrailingBytes(s[0]))
  {
    if s[0] < 0xC0 || s[0] >= 0xF8 then 0
    else
      var n := TrailingBytes(s[0]);
      if n > |s| || (exists k | 1 <= k < n :: !IsContinuation(s[k])) || Rejected(ValueOf(s, n), n) then 0 else n
  }

  /** What the unit at the front is written as, and how many bytes it takes; `after` is what came before it. */
  function Unit(before: seq<Byte>, s: seq<Byte>, what: ForWhat): (r: (seq<Byte>, nat))
    requires s != []
    ensures 1 <= r.1 <= |s|
  {
    var c := s[0];
    if c == LESS then (LT, 1)
    else if c == AMPERSAND then (AMP, 1)
    else if c == GREATER then (if |before| > 2 && EndsInBrackets(before) then GT else [c], 1)
    else if c == QUOTE then (if what == ForAttributes then QUOT else [c], 1)
    else if IsControl(c) then (HexEscape(c), 1)
    else if c < 0x7F then ([c], 1)
    else
      var n := MultiByte(s);
      if n == 0 then (HexEscape(c), 1) else (s[..n], n)
  }

  predicate EndsInBrackets(before: seq<Byte>) {
    |before| >= 2 && before[|before| - 1] == BRACKET && before[|before| - 2] == BRACKET
  }

  /** The encoding of what comes after the first idx bytes. */
  function Encoded(str: seq<Byte>, idx: nat, what: ForWhat): seq<Byte>
    requires idx <= |str|
    decreases |str| - idx
  {
    if idx == |str| then []
    else
      var (out, n) := Unit(str[..idx], str[idx..], what);
      out + Encoded(str, idx + n, what)
  }

  // ---------- The loop ----------

  method EncodeTo(str: seq<Byte>, what: ForWhat) returns (os: seq<Byte>)
    ensures os == Encoded(str, 0, what)
  {
    hide Unit;
    os := [];
    var idx := 0;
    ghost var rest := Encoded(str, 0, what);
    ghost var all := rest;
    while idx < |str|
      invariant idx <= |str| && rest == Encoded(str, idx, what) && os + rest == all
    {
      var out, n;
      out, n, rest := NextUnit(str, idx, what);
      Regroup(os, out, rest);
      os := os + out;
      idx := idx + n;
    }
  }

  lemma Regroup(a: seq<Byte>, b: seq<Byte>, c: seq<Byte>)
    ensures a + b + c == a + (b + c)
  {
  }

  method NextUnit(str: seq<Byte>, idx: nat, what: ForWhat)
    returns (out: seq<Byte>, n: nat, ghost rest: seq<Byte>)
    requires idx < |str|
    ensures 1 <= n <= |str| - idx && Encoded(str, idx, what) == out + rest && rest == Encoded(str, idx + n, what)
  {
    var c := str[idx];
    out, n := [c], 1;
    if c == LESS {
      out := LT;
    } else if c == AMPERSAND {
      out := AMP;
    } else if c == GREATER {
      if idx > 2 && str[idx - 1] == BRACKET && str[idx - 2] == BRACKET {
        out := GT;
      }
    } else if c == QUOTE {
      if what == ForAttributes {
        out := QUOT;
      }
    } else if IsControl(c) {
      out := HexEscape(c);
    } else if c >= 0x7F {
      n := ValidSequence(str, idx);
      if n == 0 {
        out, n := HexEscape(c), 1;
      } else {
        out := str[idx..idx + n];
        assert out == str[idx..][..n];
      }
    }
    assert (out, n) == Unit(str[..idx], str[idx..], what);
    rest := Encoded(str, idx + n, what);
  }

  /** The checks on a possible multi-byte sequence at idx; 0 if its first byte must be escaped. */
  method ValidSequence(str: seq<Byte>, idx: nat) returns (n: nat)
    requires idx < |str|
    ensures n == MultiByte(str[idx..])
  {
    var c := str[idx];
    if c < 0xC0 || c >= 0xF8 {
      return 0;
    }
    var encBytes := TrailingBytes(c);
    if idx + encBytes - 1 >= |str| {
      return 0;
    }
    ghost var s := str[idx..];
    var valid := true;
    var value := HeaderValue(c);
    for k := 1 to encBytes
      invariant valid <==> forall j | 1 <= j < k :: IsContinuation(s[j])
      invariant value == ValueOf(s, k)
    {
      var nc := str[idx + k];
      assert nc == s[k];
      valid := valid && IsContinuation(nc);
      value := (value << 6) | (nc & 0x3F) as bv32;
    }
    if !valid || Rejected(value, encBytes) {
      return 0;
    }
    return encBytes;
  }
}
