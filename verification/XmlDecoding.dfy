/** Undoing all the encoder does, entities and hexadecimal escapes; and which strings it leaves as they are. */
module XmlDecoding {
  import opened XmlEncode
  import opened XmlSafety

  // ---------- Undoing entities and escapes ----------

  predicate IsHex(b: Byte) {
    0x30 <= b <= 0x39 || 0x41 <= b <= 0x46
  }

  function HexValue(b: Byte): Byte {
    if b <= 0x39 then b - 0x30 else b - 0x41 + 10
  }

  /** A backslash, an x and two hexadecimal digits. */
  predicate IsEscape(o: seq<Byte>) {
    |o| >= 4 && o[0] == 0x5C && o[1] == 0x78 && IsHex(o[2]) && IsHex(o[3])
  }

  function Decoded(o: seq<Byte>): seq<Byte> {
    if o == [] then []
    else if IsEscape(o) then [(HexValue(o[2]) << 4) | HexValue(o[3])] + Decoded(o[4..])
    else if [0x26, 0x6C, 0x74, 0x3B] <= o then [0x3C] + Decoded(o[4..])  // &lt;
    else if [0x26, 0x67, 0x74, 0x3B] <= o then [0x3E] + Decoded(o[4..])  // &gt;
    else if [0x26, 0x61, 0x6D, 0x70, 0x3B] <= o then [0x26] + Decoded(o[5..])  // &amp;
    else if [0x26, 0x71, 0x75, 0x6F, 0x74, 0x3B] <= o then [0x22] + Decoded(o[6..])  // &quot;
    else [o[0]] + Decoded(o[1..])
  }

  /** The two digits of an escape, read as hexadecimal, are the byte. */
  lemma HexReadsBack(c: Byte)
    ensures var e := HexEscape(c);
            |e| == 4 && IsEscape(e) && (HexValue(e[2]) << 4) | HexValue(e[3]) == c
  {
  }

  lemma DecodedEscape(c: Byte, rest: seq<Byte>)
    ensures Decoded(HexEscape(c) + rest) == [c] + Decoded(rest)
  {
    HexReadsBack(c);
    var e, o := HexEscape(c), HexEscape(c) + rest;
    assert o[2] == e[2] && o[3] == e[3] && o[4..] == rest;
    hide HexEscape, HexValue, IsHex;
  }

  lemma DecodedEntity(e: seq<Byte>, rest: seq<Byte>)
    requires e in {LT, GT, AMP, QUOT}
    ensures Decoded(e + rest)
         == [if e == LT then 0x3C else if e == GT then 0x3E else if e == AMP then 0x26 else 0x22] + Decoded(rest)
  {
    var o := e + rest;
    assert o[0] == 0x26 && o[1] == e[1] && o[2] == e[2] && o[|e|..] == rest;
  }

  lemma {:induction false} DecodedRaw(raw: seq<Byte>, rest: seq<Byte>)
    requires 0x26 !in raw && 0x5C !in raw
    ensures Decoded(raw + rest) == raw + Decoded(rest)
    decreases |raw|
  {
    if raw == [] {
      assert raw + rest == rest;
    } else {
      assert (raw + rest)[1..] == raw[1..] + rest;
      assert (raw + rest)[0] == raw[0];
      DecodedRaw(raw[1..], rest);
    }
  }

  // ---------- What the encoder makes of one unit ----------

  predicate Printable(c: Byte) {
    c in {0x09, 0x0A, 0x0B, 0x0C, 0x0D} || (0x20 <= c && c != 0x7F)
  }

  lemma PrintableIsNoControl(c: Byte)
    ensures Printable(c) <==> !IsControl(c)
  {
  }

  /** The byte at this place is no reason to write anything else. */
  predicate IsPlain(str: seq<Byte>, i: nat, what: ForWhat)
    requires i < |str|
  {
    var c := str[i];
    && Printable(c) && c != 0x3C && c != 0x26 && (c == 0x22 ==> what == ForTextNodes)
    && !(c == 0x3E && i > 2 && str[i - 1] == 0x5D && str[i - 2] == 0x5D)
  }

  datatype Kind = Raw | Entity | Escaped

  function KindOf(str: seq<Byte>, idx: nat, what: ForWhat): Kind
    requires idx < |str|
  {
    if WrittenLength(str[idx..]) == 0 || !Printable(str[idx]) then Escaped
    else if IsPlain(str, idx, what) then Raw
    else Entity
  }

  /** The encoding from idx on, as what the first unit is written as and the rest. */
  lemma FirstUnit(str: seq<Byte>, idx: nat, what: ForWhat)
    returns (enc: seq<Byte>, out: seq<Byte>, n: nat, rest: seq<Byte>)
    requires idx < |str|
    ensures enc == Encoded(str, idx, what) && enc == out + rest
    ensures 1 <= n <= |str| - idx && rest == Encoded(str, idx + n, what)
    ensures match KindOf(str, idx, what)
            case Raw => out == str[idx..idx + n] && n == WrittenLength(str[idx..])
            case Entity =>
              && n == 1 && out in {LT, GT, AMP, QUOT}
              && str[idx] == if out == LT then 0x3C else if out == GT then 0x3E else if out == AMP then 0x26 else 0x22
            case Escaped => n == 1 && out == HexEscape(str[idx])
  {
    var s := str[idx..];
    enc, out, n, rest := EncodedUnit(str, idx, what);
    PrintableIsNoControl(str[idx]);
    if s[0] >= 0x80 { WrittenAsIs(s); }
    hide HexEscape, MultiByte, CharLength, IsSurrogate, IsOverlong800, Encoded;
    assert str[..idx] == str[..idx];
    assert s[..n] == str[idx..idx + n];
    assert s[..1] == [s[0]];
  }

  /** A sequence of several bytes has none below 0x80. */
  lemma LongIsHigh(s: seq<Byte>)
    requires s != [] && WrittenLength(s) > 0 && s[0] >= 0x80
    ensures forall b | b in s[..WrittenLength(s)] :: b >= 0x80
  {
  }

  // ---------- What decoding gives back ----------

  /** At this place the input looks like a hexadecimal escape. */
  predicate LooksEscaped(str: seq<Byte>, i: nat)
    requires i <= |str|
  {
    IsEscape(str[i..])
  }

  /** An x or a hexadecimal digit in the output stands for itself. */
  lemma StandsForItself(str: seq<Byte>, idx: nat, what: ForWhat)
    requires idx <= |str| && Encoded(str, idx, what) != []
    requires Encoded(str, idx, what)[0] == 0x78 || IsHex(Encoded(str, idx, what)[0])
    ensures idx < |str| && str[idx] == Encoded(str, idx, what)[0]
    ensures Encoded(str, idx, what) == [str[idx]] + Encoded(str, idx + 1, what)
  {
    assert idx < |str|;
    hide Encoded, HexEscape;
    EscapeStarts(str[idx]);
    var enc, out, n, rest := FirstUnit(str, idx, what);
    assert str[idx..][..n] == str[idx..idx + n];
    assert enc[0] == out[0];
  }

  lemma EscapeStarts(c: Byte)
    ensures |HexEscape(c)| == 4 && HexEscape(c)[0] == 0x5C
  {
  }

  lemma TwoDigits(str: seq<Byte>, idx: nat, what: ForWhat)
    requires idx <= |str| && |Encoded(str, idx, what)| >= 2
    requires IsHex(Encoded(str, idx, what)[0]) && IsHex(Encoded(str, idx, what)[1])
    ensures idx + 2 <= |str| && IsHex(str[idx]) && IsHex(str[idx + 1])
    ensures Encoded(str, idx, what) == [str[idx], str[idx + 1]] + Encoded(str, idx + 2, what)
  {
    hide Encoded, IsHex;
    StandsForItself(str, idx, what);
    assert Encoded(str, idx + 1, what)[0] == Encoded(str, idx, what)[1];
    StandsForItself(str, idx + 1, what);
    assert [str[idx]] + ([str[idx + 1]] + Encoded(str, idx + 2, what))
        == [str[idx], str[idx + 1]] + Encoded(str, idx + 2, what);
  }

  /** Behind a raw backslash, the output looks like the rest of an escape only if the input does. */
  lemma NoNewEscape(str: seq<Byte>, idx: nat, what: ForWhat)
    requires idx < |str| && str[idx] == 0x5C && IsEscape([str[idx]] + Encoded(str, idx + 1, what))
    ensures LooksEscaped(str, idx)
  {
    hide Encoded, IsHex;
    var e := Encoded(str, idx + 1, what);
    var o := [str[idx]] + e;
    assert |e| >= 3 && e[0] == o[1] && e[1] == o[2] && e[2] == o[3];
    StandsForItself(str, idx + 1, what);
    var e2 := Encoded(str, idx + 2, what);
    assert e2[0] == e[1] && e2[1] == e[2];
    TwoDigits(str, idx + 2, what);
  }

  /** Nor does the input look like an escape but where the output does. */
  lemma SameEscape(str: seq<Byte>, idx: nat, what: ForWhat)
    requires idx < |str| && LooksEscaped(str, idx)
    ensures Encoded(str, idx, what) == str[idx..idx + 4] + Encoded(str, idx + 4, what)
  {
    RawAscii(str, idx, what);
    RawAscii(str, idx + 1, what);
    RawAscii(str, idx + 2, what);
    RawAscii(str, idx + 3, what);
    hide Encoded;
  }

  lemma RawAscii(str: seq<Byte>, idx: nat, what: ForWhat)
    requires idx < |str| && (str[idx] == 0x5C || str[idx] == 0x78 || IsHex(str[idx]))
    ensures Encoded(str, idx, what) == [str[idx]] + Encoded(str, idx + 1, what)
  {
    var enc, out, n, rest := FirstUnit(str, idx, what);
    hide Encoded;
    assert str[idx..idx + 1] == [str[idx]];
  }

  /** One unit decoded, unless it looks like the start of an escape: the bytes it stands for. */
  lemma DecodeUnit(str: seq<Byte>, idx: nat, what: ForWhat) returns (enc: seq<Byte>, n: nat, rest: seq<Byte>)
    requires idx < |str| && !LooksEscaped(str, idx)
    ensures enc == Encoded(str, idx, what) && 1 <= n <= |str| - idx && rest == Encoded(str, idx + n, what)
    ensures Decoded(enc) == str[idx..idx + n] + Decoded(rest)
    ensures forall k | idx < k < idx + n :: str[k] >= 0x80
  {
    var out;
    enc, out, n, rest := FirstUnit(str, idx, what);
    hide Encoded, HexEscape, IsEscape, CharLength, IsSurrogate, IsOverlong800;
    assert str[idx..idx + 1] == [str[idx]];
    match KindOf(str, idx, what) {
      case Escaped => DecodedEscape(str[idx], rest);
      case Entity => DecodedEntity(out, rest);
      case Raw =>
        if str[idx] >= 0x80 {
          LongIsHigh(str[idx..]);
          assert out == str[idx..][..n];
          DecodedRaw(out, rest);
          forall k | idx < k < idx + n ensures str[k] >= 0x80 { assert str[k] == out[k - idx]; }
        } else if str[idx] == 0x5C {
          if IsEscape(enc) { NoNewEscape(str, idx, what); }
          RawBackslash(enc, rest);
        } else {
          DecodedRaw(out, rest);
        }
    }
  }

  lemma RawBackslash(o: seq<Byte>, rest: seq<Byte>)
    requires o == [0x5C] + rest && !IsEscape(o)
    ensures Decoded(o) == [0x5C] + Decoded(rest)
  {
    assert o[0] == 0x5C && o[1..] == rest;
  }

  lemma {:induction false} DecodeFrom(str: seq<Byte>, idx: nat, what: ForWhat) returns (enc: seq<Byte>)
    requires idx <= |str|
    ensures enc == Encoded(str, idx, what) && |Decoded(enc)| <= |str| - idx
    ensures (forall k | idx <= k < |str| :: !LooksEscaped(str, k)) ==> Decoded(enc) == str[idx..]
    ensures (exists k | idx <= k < |str| :: LooksEscaped(str, k)) ==> |Decoded(enc)| < |str| - idx
    decreases |str| - idx
  {
    hide LooksEscaped, Decoded;
    if idx == |str| {
      enc := [];
      NothingDecoded();
    } else if LooksEscaped(str, idx) {
      enc := LookalikeDecoded(str, idx, what);
      var rest := DecodeFrom(str, idx + 4, what);
    } else {
      var n, rest;
      enc, n, rest := DecodeUnit(str, idx, what);
      var _ := DecodeFrom(str, idx + n, what);
      assert str[idx..] == str[idx..idx + n] + str[idx + n..];
      forall k | idx < k < idx + n ensures !LooksEscaped(str, k) { HighIsNoEscape(str, k); }
    }
  }

  lemma HighIsNoEscape(str: seq<Byte>, k: nat)
    requires k < |str| && str[k] >= 0x80
    ensures !LooksEscaped(str, k)
  {
    assert str[k..][0] == str[k];
  }

  lemma NothingDecoded()
    ensures Decoded([]) == []
  {
  }

  lemma LookalikeDecoded(str: seq<Byte>, idx: nat, what: ForWhat) returns (enc: seq<Byte>)
    requires idx < |str| && LooksEscaped(str, idx)
    ensures enc == Encoded(str, idx, what) && idx + 4 <= |str|
    ensures |Decoded(enc)| == 1 + |Decoded(Encoded(str, idx + 4, what))|
  {
    SameEscape(str, idx, what);
    enc := Encoded(str, idx, what);
    DecodedLookalike(enc, Encoded(str, idx + 4, what));
  }

  lemma DecodedLookalike(o: seq<Byte>, rest: seq<Byte>)
    requires |o| == 4 + |rest| && IsEscape(o) && o[4..] == rest
    ensures |Decoded(o)| == 1 + |Decoded(rest)|
  {
  }

  /**
   * Undoing entities and escapes gives back the input, control characters and broken UTF-8 included, exactly
   * when it does not look like an escape at any place. So it does if no backslash is followed by an x.
   */
  lemma DecodesBack(str: seq<Byte>, what: ForWhat)
    ensures Decoded(Encoded(str, 0, what)) == str <==> forall k | 0 <= k < |str| :: !LooksEscaped(str, k)
    ensures (forall k | 0 <= k < |str| - 1 :: !(str[k] == 0x5C && str[k + 1] == 0x78)) ==>
              Decoded(Encoded(str, 0, what)) == str
  {
    hide Encoded, Decoded;
    var _ := DecodeFrom(str, 0, what);
    assert str[0..] == str;
    forall k | 0 <= k < |str| && LooksEscaped(str, k) ensures str[k] == 0x5C && k + 1 < |str| && str[k + 1] == 0x78 {
      assert str[k..][0] == str[k] && str[k..][1] == str[k + 1];
    }
  }

  // ---------- What is left as it is ----------

  lemma {:induction false} UnchangedFrom(str: seq<Byte>, idx: nat, what: ForWhat) returns (enc: seq<Byte>)
    requires idx <= |str|
    ensures enc == Encoded(str, idx, what) && |enc| >= |str| - idx
    ensures enc == str[idx..] <==> Writable(str[idx..]) && forall k | idx <= k < |str| :: IsPlain(str, k, what)
    decreases |str| - idx
  {
    if idx == |str| {
      enc := [];
    } else {
      var out, n, rest;
      enc, out, n, rest := FirstUnit(str, idx, what);
      var _ := UnchangedFrom(str, idx + n, what);
      EscapeStarts(str[idx]);
      assert str[idx..] == str[idx..idx + n] + str[idx + n..];
      if KindOf(str, idx, what) == Raw { RawUnit(str, idx, n, what); } else { IsNotRaw(str, idx, what); }
      hide Encoded, HexEscape, IsPlain, WrittenLength, Writable, KindOf;
      Joined(out, rest, str[idx..idx + n], str[idx + n..]);
    }
  }

  lemma Joined(a: seq<Byte>, b: seq<Byte>, x: seq<Byte>, y: seq<Byte>)
    requires |a| >= |x| && |b| >= |y|
    ensures a + b == x + y <==> a == x && b == y
  {
    if a + b == x + y {
      assert |a| == |x|;
      assert a == (a + b)[..|a|] && b == (a + b)[|a|..];
      assert x == (x + y)[..|a|] && y == (x + y)[|a|..];
    }
  }

  lemma IsNotRaw(str: seq<Byte>, idx: nat, what: ForWhat)
    requires idx < |str| && KindOf(str, idx, what) != Raw
    ensures !Writable(str[idx..]) || !IsPlain(str, idx, what)
  {
  }

  lemma RawUnit(str: seq<Byte>, idx: nat, n: nat, what: ForWhat)
    requires idx < |str| && KindOf(str, idx, what) == Raw && n == WrittenLength(str[idx..]) <= |str| - idx
    ensures n > 0 && (Writable(str[idx..]) <==> Writable(str[idx + n..]))
    ensures forall k | idx <= k < idx + n :: IsPlain(str, k, what)
  {
    assert str[idx..][n..] == str[idx + n..];
    if str[idx] >= 0x80 {
      LongIsHigh(str[idx..]);
      forall k | idx <= k < idx + n ensures IsPlain(str, k, what) { assert str[k] == str[idx..][..n][k - idx]; }
    }
  }

  /**
   * A string is written as it is exactly when it is made up of ASCII characters and the sequences that are
   * written as they are, and has none of these: a control character, a less-than sign, an ampersand, a quote
   * in an attribute, a greater-than sign that ends a CDATA section behind the first byte.
   */
  lemma Unchanged(str: seq<Byte>, what: ForWhat)
    ensures Encoded(str, 0, what) == str <==> Writable(str) && forall k | 0 <= k < |str| :: IsPlain(str, k, what)
  {
    var _ := UnchangedFrom(str, 0, what);
    assert str[0..] == str;
  }
}
