/** What the encoder guarantees of its output, and which input can be had back from it. */
module XmlSafety {
  import opened XmlEncode

  // ---------- Which multi-byte sequences are written as they are ----------

  predicate Tail(c: Byte) {
    0x80 <= c <= 0xBF
  }

  /** The length of the character at the front in well-formed UTF-8 (section 4 of RFC 3629), or 0. */
  function CharLength(s: seq<Byte>): (n: nat)
    requires s != []
    ensures n <= |s|
  {
    if s[0] <= 0x7F then 1
    else if |s| >= 2 && 0xC2 <= s[0] <= 0xDF && Tail(s[1]) then 2
    else if |s| >= 3 && Tail(s[2])
            && ((s[0] == 0xE0 && 0xA0 <= s[1] <= 0xBF) || (0xE1 <= s[0] <= 0xEC && Tail(s[1]))
                || (s[0] == 0xED && 0x80 <= s[1] <= 0x9F) || (0xEE <= s[0] <= 0xEF && Tail(s[1]))) then 3
    else if |s| >= 4 && Tail(s[2]) && Tail(s[3])
            && ((s[0] == 0xF0 && 0x90 <= s[1] <= 0xBF) || (0xF1 <= s[0] <= 0xF3 && Tail(s[1]))
                || (s[0] == 0xF4 && 0x80 <= s[1] <= 0x8F)) then 4
    else 0
  }

  /** A three-byte sequence for a surrogate. */
  predicate IsSurrogate(s: seq<Byte>) {
    |s| >= 3 && s[0] == 0xED && 0xA0 <= s[1] <= 0xBF && Tail(s[2])
  }

  /** The overlong four-byte sequence for U+0800, which the checks let pass. */
  predicate IsOverlong800(s: seq<Byte>) {
    |s| >= 4 && s[0] == 0xF0 && s[1] == 0x80 && s[2] == 0xA0 && s[3] == 0x80
  }

  lemma Continuation(c: Byte)
    ensures IsContinuation(c) <==> Tail(c)
  {
  }

  lemma Lead(c: Byte)
    requires 0xC0 <= c < 0xF8
    ensures TrailingBytes(c) == if c < 0xE0 then 2 else if c < 0xF0 then 3 else 4
  {
  }

  function Value2(a: Byte, b: Byte): bv32
    requires 0xC0 <= a < 0xF8
  {
    Continued(HeaderValue(a), b)
  }

  function Value3(a: Byte, b: Byte, c: Byte): bv32
    requires 0xC0 <= a < 0xF8
  {
    Continued(Value2(a, b), c)
  }

  function Value4(a: Byte, b: Byte, c: Byte, d: Byte): bv32
    requires 0xC0 <= a < 0xF8
  {
    Continued(Value3(a, b, c), d)
  }

  lemma TwoBytes(a: Byte, b: Byte)
    requires 0xC0 <= a < 0xE0 && Tail(b)
    ensures !Rejected(Value2(a, b), 2) <==> a >= 0xC2
  {
  }

  lemma ThreeBytes(a: Byte, b: Byte, c: Byte)
    requires 0xE0 <= a < 0xF0 && Tail(b) && Tail(c)
    ensures !Rejected(Value3(a, b, c), 3) <==> (a == 0xE0 ==> b >= 0xA0)
  {
  }

  lemma FourBytes(a: Byte, b: Byte, c: Byte, d: Byte)
    requires 0xF0 <= a < 0xF8 && Tail(b) && Tail(c) && Tail(d)
    ensures !Rejected(Value4(a, b, c, d), 4)
            <==> (a == 0xF0 && (b >= 0x90 || (b == 0x80 && c == 0xA0 && d == 0x80)))
                 || 0xF1 <= a <= 0xF3 || (a == 0xF4 && b <= 0x8F)
  {
  }

  lemma ValueUnfolded(s: seq<Byte>)
    requires |s| >= 2 && 0xC0 <= s[0] < 0xF8
    ensures ValueOf(s, 2) == Value2(s[0], s[1])
    ensures |s| >= 3 ==> ValueOf(s, 3) == Value3(s[0], s[1], s[2])
    ensures |s| >= 4 ==> ValueOf(s, 4) == Value4(s[0], s[1], s[2], s[3])
  {
    hide HeaderValue, Continued;
    assert ValueOf(s, 1) == HeaderValue(s[0]);
  }

  lemma AllContinuations(s: seq<Byte>, n: nat)
    requires n <= |s|
    ensures (exists k | 1 <= k < n :: !IsContinuation(s[k])) <==> !(forall k | 1 <= k < n :: Tail(s[k]))
  {
    forall k | 1 <= k < n ensures IsContinuation(s[k]) <==> Tail(s[k]) { Continuation(s[k]); }
  }

  /** The length of the sequence at the front if it is one of these: UTF-8, a surrogate, or the overlong one. */
  function WrittenLength(s: seq<Byte>): (n: nat)
    requires s != []
    ensures n <= |s|
  {
    if CharLength(s) > 0 then CharLength(s) else if IsSurrogate(s) then 3 else if IsOverlong800(s) then 4 else 0
  }

  /**
   * Beyond ASCII, exactly these are written as they are: the characters of well-formed UTF-8, the
   * surrogates, and one overlong sequence.
   */
  lemma WrittenAsIs(s: seq<Byte>)
    requires s != [] && s[0] >= 0x80
    ensures MultiByte(s) == WrittenLength(s)
  {
    hide ValueOf, Rejected, HeaderValue, IsContinuation, TrailingBytes;
    if 0xC0 <= s[0] < 0xF8 {
      Lead(s[0]);
      var n := TrailingBytes(s[0]);
      if n <= |s| {
        AllContinuations(s, n);
        if forall k | 1 <= k < n :: Tail(s[k]) {
          match n {
            case 2 => Accepted2(s);
            case 3 => Accepted3(s);
            case _ => Accepted4(s);
          }
        }
      }
    }
  }

  /** With the right number of continuation bytes, the value decides. */
  lemma Accepted2(s: seq<Byte>)
    requires |s| >= 2 && 0xC0 <= s[0] < 0xE0 && Tail(s[1])
    ensures WrittenLength(s) == if Rejected(ValueOf(s, 2), 2) then 0 else 2
  {
    hide ValueOf, Rejected, Value2, Value3, Value4;
    ValueUnfolded(s);
    TwoBytes(s[0], s[1]);
  }

  lemma Accepted3(s: seq<Byte>)
    requires |s| >= 3 && 0xE0 <= s[0] < 0xF0 && Tail(s[1]) && Tail(s[2])
    ensures WrittenLength(s) == if Rejected(ValueOf(s, 3), 3) then 0 else 3
  {
    hide ValueOf, Rejected, Value2, Value3, Value4;
    ValueUnfolded(s);
    ThreeBytes(s[0], s[1], s[2]);
  }

  lemma Accepted4(s: seq<Byte>)
    requires |s| >= 4 && 0xF0 <= s[0] < 0xF8 && Tail(s[1]) && Tail(s[2]) && Tail(s[3])
    ensures WrittenLength(s) == if Rejected(ValueOf(s, 4), 4) then 0 else 4
  {
    hide ValueOf, Rejected, Value2, Value3, Value4;
    ValueUnfolded(s);
    FourBytes(s[0], s[1], s[2], s[3]);
  }

  // ---------- Reading back ----------

  /** Undoes the entities. */
  function Unescaped(o: seq<Byte>): seq<Byte> {
    if o == [] then []
    else if LT <= o then [LESS] + Unescaped(o[|LT|..])
    else if GT <= o then [GREATER] + Unescaped(o[|GT|..])
    else if AMP <= o then [AMPERSAND] + Unescaped(o[|AMP|..])
    else if QUOT <= o then [QUOTE] + Unescaped(o[|QUOT|..])
    else [o[0]] + Unescaped(o[1..])
  }

  /** The byte at the front is written as a hexadecimal escape. */
  predicate IsEscaped(s: seq<Byte>)
    requires s != []
  {
    IsControl(s[0]) || (s[0] >= 0x80 && MultiByte(s) == 0)
  }

  function UnitLength(s: seq<Byte>): (n: nat)
    requires s != []
    ensures 1 <= n <= |s|
  {
    if s[0] >= 0x80 && MultiByte(s) > 0 then MultiByte(s) else 1
  }

  /** How many bytes from idx on are written as hexadecimal escapes. */
  function Escapes(str: seq<Byte>, idx: nat): nat
    requires idx <= |str|
    decreases |str| - idx
  {
    if idx == |str| then 0
    else (if IsEscaped(str[idx..]) then 1 else 0) + Escapes(str, idx + UnitLength(str[idx..]))
  }

  lemma {:induction false} UnescapedRaw(raw: seq<Byte>, rest: seq<Byte>)
    requires AMPERSAND !in raw
    ensures Unescaped(raw + rest) == raw + Unescaped(rest)
    decreases |raw|
  {
    if raw == [] {
      assert raw + rest == rest;
    } else {
      assert (raw + rest)[1..] == raw[1..] + rest;
      assert (raw + rest)[0] != AMPERSAND;
      UnescapedRaw(raw[1..], rest);
    }
  }

  lemma UnescapedEntity(e: seq<Byte>, rest: seq<Byte>)
    requires e in {LT, GT, AMP, QUOT}
    ensures Unescaped(e + rest)
         == [if e == LT then LESS else if e == GT then GREATER else if e == AMP then AMPERSAND else QUOTE]
            + Unescaped(rest)
  {
    var o := e + rest;
    assert o[1] == e[1] && o[2] == e[2] && o[|e|..] == rest;
  }

  lemma NoAmpersand(s: seq<Byte>)
    requires s != []
    ensures MultiByte(s) > 0 ==> AMPERSAND !in s[..MultiByte(s)]
    ensures AMPERSAND !in HexEscape(s[0])
  {
    var n := MultiByte(s);
    if n > 0 { AllContinuations(s, n); }
    HexDigits(s[0]);
  }

  lemma HexDigits(c: Byte)
    ensures 0x30 <= HexDigit(c >> 4) <= 0x46 && 0x30 <= HexDigit(c & 0x0F) <= 0x46
  {
  }

  /** One unit read back: the input bytes if they were not escaped, four characters otherwise. */
  lemma UnitReadBack(before: seq<Byte>, s: seq<Byte>, what: ForWhat, rest: seq<Byte>)
    requires s != []
    ensures var (out, n) := Unit(before, s, what);
            && n == UnitLength(s)
            && Unescaped(out + rest) == (if IsEscaped(s) then HexEscape(s[0]) else s[..n]) + Unescaped(rest)
  {
    var (out, n) := Unit(before, s, what);
    NoAmpersand(s);
    assert s[..1] == [s[0]];
    if out in {LT, GT, AMP, QUOT} {
      UnescapedEntity(out, rest);
    } else {
      UnescapedRaw(out, rest);
    }
  }

  /** The encoding, as what the first unit is written as and the rest. */
  lemma EncodedUnit(str: seq<Byte>, idx: nat, what: ForWhat)
    returns (enc: seq<Byte>, out: seq<Byte>, n: nat, rest: seq<Byte>)
    requires idx < |str|
    ensures enc == Encoded(str, idx, what) && enc == out + rest
    ensures 1 <= n <= |str| - idx && rest == Encoded(str, idx + n, what)
    ensures (out, n) == Unit(str[..idx], str[idx..], what)
  {
    var (o, m) := Unit(str[..idx], str[idx..], what);
    enc, out, n, rest := Encoded(str, idx, what), o, m, Encoded(str, idx + m, what);
  }

  lemma ReadStep(str: seq<Byte>, idx: nat, what: ForWhat) returns (enc: seq<Byte>, n: nat, rest: seq<Byte>)
    requires idx < |str|
    ensures enc == Encoded(str, idx, what) && n == UnitLength(str[idx..]) && rest == Encoded(str, idx + n, what)
    ensures Unescaped(enc)
         == (if IsEscaped(str[idx..]) then HexEscape(str[idx]) else str[idx..idx + n]) + Unescaped(rest)
  {
    var out;
    enc, out, n, rest := EncodedUnit(str, idx, what);
    UnitReadBack(str[..idx], str[idx..], what, rest);
    assert str[idx..][..n] == str[idx..idx + n];
  }

  lemma {:induction false} ReadBackFrom(str: seq<Byte>, idx: nat, what: ForWhat) returns (enc: seq<Byte>)
    requires idx <= |str|
    ensures enc == Encoded(str, idx, what) && |Unescaped(enc)| == |str| - idx + 3 * Escapes(str, idx)
    ensures Escapes(str, idx) == 0 ==> Unescaped(enc) == str[idx..]
    decreases |str| - idx
  {
    hide Unit, MultiByte, UnitLength, IsEscaped;
    if idx == |str| {
      enc := [];
    } else {
      var n, rest;
      enc, n, rest := ReadStep(str, idx, what);
      var _ := ReadBackFrom(str, idx + n, what);
      OneByteIfEscaped(str[idx..]);
      assert str[idx..] == str[idx..idx + n] + str[idx + n..];
    }
  }

  lemma OneByteIfEscaped(s: seq<Byte>)
    requires s != []
    ensures IsEscaped(s) ==> UnitLength(s) == 1
  {
  }

  predicate NoControls(s: seq<Byte>) {
    forall c | c in s :: !IsControl(c)
  }

  /** Made up of ASCII characters and sequences that are written as they are. */
  predicate Writable(s: seq<Byte>) {
    s == [] || (WrittenLength(s) > 0 && Writable(s[WrittenLength(s)..]))
  }

  lemma UnitEscaped(s: seq<Byte>)
    requires s != []
    ensures IsEscaped(s) <==> IsControl(s[0]) || WrittenLength(s) == 0
    ensures !IsEscaped(s) ==> UnitLength(s) == WrittenLength(s) && NoControls(s[..WrittenLength(s)])
  {
    if s[0] >= 0x80 { WrittenAsIs(s); }
  }

  lemma {:induction false} EscapesNone(str: seq<Byte>, idx: nat)
    requires idx <= |str|
    ensures Escapes(str, idx) == 0 <==> Writable(str[idx..]) && NoControls(str[idx..])
    decreases |str| - idx
  {
    if idx < |str| {
      hide UnitLength, IsEscaped, WrittenLength, IsControl;
      var s := str[idx..];
      UnitEscaped(s);
      if IsEscaped(s) {
        assert s[0] in s;
      } else {
        var n := UnitLength(s);
        EscapesNone(str, idx + n);
        assert s[n..] == str[idx + n..] && s == s[..n] + s[n..];
      }
    }
  }

  /**
   * Undoing the entities gives back the input exactly when it has no control characters and is made up
   * of ASCII characters and those sequences.
   */
  lemma RoundTrip(str: seq<Byte>, what: ForWhat)
    ensures Unescaped(Encoded(str, 0, what)) == str <==> Writable(str) && NoControls(str)
  {
    var _ := ReadBackFrom(str, 0, what);
    assert str[0..] == str;
    EscapesNone(str, 0);
  }

  predicate WellFormed(s: seq<Byte>) {
    s == [] || (CharLength(s) > 0 && WellFormed(s[CharLength(s)..]))
  }

  lemma {:induction false} WellFormedIsWritable(s: seq<Byte>)
    requires WellFormed(s)
    ensures Writable(s)
    decreases |s|
  {
    if s != [] { WellFormedIsWritable(s[CharLength(s)..]); }
  }

  /** In particular every string of well-formed UTF-8 without control characters can be had back. */
  lemma WellFormedRoundTrip(str: seq<Byte>, what: ForWhat)
    requires WellFormed(str) && NoControls(str)
    ensures Unescaped(Encoded(str, 0, what)) == str
  {
    WellFormedIsWritable(str);
    RoundTrip(str, what);
  }

  // ---------- What the output cannot contain ----------

  /** No raw '<', no '&' but in an entity, no raw '"' in an attribute, no control characters, only such sequences. */
  predicate Safe(o: seq<Byte>, what: ForWhat) {
    if o == [] then true
    else if o[0] == LESS || (o[0] == QUOTE && what == ForAttributes) || IsControl(o[0]) then false
    else if o[0] == AMPERSAND then
      || (LT <= o && Safe(o[|LT|..], what)) || (GT <= o && Safe(o[|GT|..], what))
      || (AMP <= o && Safe(o[|AMP|..], what)) || (QUOT <= o && Safe(o[|QUOT|..], what))
    else WrittenLength(o) > 0 && Safe(o[WrittenLength(o)..], what)
  }

  lemma SafeEntity(e: seq<Byte>, rest: seq<Byte>, what: ForWhat)
    requires e in {LT, GT, AMP, QUOT} && Safe(rest, what)
    ensures Safe(e + rest, what)
  {
    assert (e + rest)[|e|..] == rest;
  }

  lemma SafeSequence(s: seq<Byte>, rest: seq<Byte>, what: ForWhat)
    requires s != [] && s[0] >= 0x80 && WrittenLength(s) > 0 && Safe(rest, what)
    ensures Safe(s[..WrittenLength(s)] + rest, what)
  {
    var n := WrittenLength(s);
    var o := s[..n] + rest;
    assert forall k | 0 <= k < n :: o[k] == s[k];
    assert WrittenLength(o) == n;
    assert o[n..] == rest;
  }

  predicate IsPlain(c: Byte, what: ForWhat) {
    c < 0x80 && c != LESS && c != AMPERSAND && !(c == QUOTE && what == ForAttributes) && !IsControl(c)
  }

  lemma {:induction false} SafePlain(raw: seq<Byte>, rest: seq<Byte>, what: ForWhat)
    requires (forall c | c in raw :: IsPlain(c, what)) && Safe(rest, what)
    ensures Safe(raw + rest, what)
    decreases |raw|
  {
    if raw == [] {
      assert raw + rest == rest;
    } else {
      assert IsPlain(raw[0], what);
      assert (raw + rest)[0] == raw[0] && (raw + rest)[1..] == raw[1..] + rest;
      SafePlain(raw[1..], rest, what);
    }
  }

  lemma SafeUnit(before: seq<Byte>, s: seq<Byte>, what: ForWhat, rest: seq<Byte>)
    requires s != [] && Safe(rest, what)
    ensures Safe(Unit(before, s, what).0 + rest, what)
  {
    var (out, n) := Unit(before, s, what);
    if out in {LT, GT, AMP, QUOT} {
      SafeEntity(out, rest, what);
    } else if s[0] >= 0x80 && MultiByte(s) > 0 {
      WrittenAsIs(s);
      SafeSequence(s, rest, what);
    } else {
      HexDigits(s[0]);
      SafePlain(out, rest, what);
    }
  }

  lemma SafeStep(str: seq<Byte>, idx: nat, what: ForWhat) returns (enc: seq<Byte>, n: nat, rest: seq<Byte>)
    requires idx < |str|
    ensures enc == Encoded(str, idx, what) && 1 <= n <= |str| - idx && rest == Encoded(str, idx + n, what)
    ensures Safe(rest, what) ==> Safe(enc, what)
  {
    var out;
    enc, out, n, rest := EncodedUnit(str, idx, what);
    if Safe(rest, what) { SafeUnit(str[..idx], str[idx..], what, rest); }
  }

  lemma {:induction false} SafeFrom(str: seq<Byte>, idx: nat, what: ForWhat) returns (enc: seq<Byte>)
    requires idx <= |str|
    ensures enc == Encoded(str, idx, what) && Safe(enc, what)
    decreases |str| - idx
  {
    hide Unit;
    if idx == |str| {
      enc := [];
    } else {
      var n, rest;
      enc, n, rest := SafeStep(str, idx, what);
      var _ := SafeFrom(str, idx + n, what);
    }
  }

  /** Whatever the input, the output is safe. */
  lemma OutputIsSafe(str: seq<Byte>, what: ForWhat)
    ensures Safe(Encoded(str, 0, what), what)
  {
    var _ := SafeFrom(str, 0, what);
  }

  // ---------- The end of a CDATA section ----------

  /** A '>' after two ']', given whether one or two of them come just before. */
  predicate Closes(o: seq<Byte>, one: bool, two: bool) {
    o != [] && ((o[0] == GREATER && two) || Closes(o[1..], o[0] == BRACKET, one && o[0] == BRACKET))
  }

  ghost predicate ClosesAt(o: seq<Byte>, one: bool, two: bool, p: int) {
    && 0 <= p < |o| && o[p] == GREATER
    && if p == 0 then two else if p == 1 then one && o[0] == BRACKET else o[p - 1] == BRACKET && o[p - 2] == BRACKET
  }

  lemma {:induction false} ClosesMeans(o: seq<Byte>, one: bool, two: bool)
    ensures Closes(o, one, two) <==> exists p :: ClosesAt(o, one, two, p)
    decreases |o|
  {
    if o != [] {
      var t, one', two' := o[1..], o[0] == BRACKET, one && o[0] == BRACKET;
      ClosesMeans(t, one', two');
      assert ClosesAt(o, one, two, 0) <==> o[0] == GREATER && two;
      forall p | ClosesAt(t, one', two', p) ensures exists q :: ClosesAt(o, one, two, q) {
        assert ClosesAt(o, one, two, p + 1);
      }
      forall p | ClosesAt(o, one, two, p) ensures Closes(o, one, two) {
        if p > 0 { assert ClosesAt(t, one', two', p - 1); }
      }
    }
  }

  lemma {:induction false} ClosesAfter(out: seq<Byte>, rest: seq<Byte>, one: bool, two: bool)
    requires out != [] && GREATER !in out && out[|out| - 1] != BRACKET
    ensures Closes(out + rest, one, two) == Closes(rest, false, false)
    decreases |out|
  {
    assert (out + rest)[0] == out[0] && (out + rest)[1..] == out[1..] + rest;
    if |out| == 1 {
      assert out[1..] + rest == rest;
    } else {
      ClosesAfter(out[1..], rest, out[0] == BRACKET, one && out[0] == BRACKET);
    }
  }

  predicate One(str: seq<Byte>, idx: nat)
    requires idx <= |str|
  {
    idx >= 1 && str[idx - 1] == BRACKET
  }

  predicate Two(str: seq<Byte>, idx: nat)
    requires idx <= |str|
  {
    idx >= 2 && str[idx - 1] == BRACKET && str[idx - 2] == BRACKET
  }

  predicate StartsWithEnd(str: seq<Byte>) {
    |str| >= 3 && str[0] == BRACKET && str[1] == BRACKET && str[2] == GREATER
  }

  /** A unit that is not written as one plain character has neither a '>' nor a ']' at its end, in and out. */
  lemma LongUnit(before: seq<Byte>, s: seq<Byte>, what: ForWhat)
    requires s != []
    ensures var (out, n) := Unit(before, s, what);
            out == [s[0]] || (&& out != [] && GREATER !in out && out[|out| - 1] != BRACKET && s[n - 1] != BRACKET
                              && (s[0] == GREATER ==> |before| > 2 && EndsInBrackets(before)))
  {
    var (out, n) := Unit(before, s, what);
    HexDigits(s[0]);
    if s[0] >= 0x80 && MultiByte(s) > 0 { AllContinuations(s, n); }
  }

  lemma ClosesStep(str: seq<Byte>, idx: nat, what: ForWhat) returns (enc: seq<Byte>, n: nat, rest: seq<Byte>)
    requires idx < |str|
    ensures enc == Encoded(str, idx, what) && 1 <= n <= |str| - idx && rest == Encoded(str, idx + n, what)
    ensures str[idx] == BRACKET ==> n == 1
    ensures Closes(enc, One(str, idx), Two(str, idx))
         == ((str[idx] == GREATER && Two(str, idx) && idx <= 2) || Closes(rest, One(str, idx + n), Two(str, idx + n)))
  {
    var out;
    enc, out, n, rest := EncodedUnit(str, idx, what);
    LongUnit(str[..idx], str[idx..], what);
    assert str[idx..][n - 1] == str[idx + n - 1];
    if out == [str[idx]] {
      ClosesNext(str[idx], rest, One(str, idx), Two(str, idx));
    } else {
      ClosesAfter(out, rest, One(str, idx), Two(str, idx));
    }
  }

  lemma ClosesNext(c: Byte, rest: seq<Byte>, one: bool, two: bool)
    ensures Closes([c] + rest, one, two) == ((c == GREATER && two) || Closes(rest, c == BRACKET, one && c == BRACKET))
  {
    assert ([c] + rest)[1..] == rest;
  }

  lemma {:induction false} ClosesFrom(str: seq<Byte>, idx: nat, what: ForWhat) returns (enc: seq<Byte>)
    requires idx <= |str|
    ensures enc == Encoded(str, idx, what)
    ensures Closes(enc, One(str, idx), Two(str, idx)) <==> idx <= 2 && StartsWithEnd(str)
    decreases |str| - idx
  {
    hide Unit;
    if idx == |str| {
      enc := [];
    } else {
      var n, rest;
      enc, n, rest := ClosesStep(str, idx, what);
      var _ := ClosesFrom(str, idx + n, what);
    }
  }

  ghost predicate HoldsEnd(o: seq<Byte>) {
    exists p | 2 <= p < |o| :: o[p] == GREATER && o[p - 1] == BRACKET && o[p - 2] == BRACKET
  }

  lemma HoldsEndMeans(o: seq<Byte>)
    ensures HoldsEnd(o) <==> Closes(o, false, false)
  {
    ClosesMeans(o, false, false);
    forall p | 2 <= p < |o| && o[p] == GREATER && o[p - 1] == BRACKET && o[p - 2] == BRACKET
      ensures ClosesAt(o, false, false, p)
    {}
  }

  /**
   * The sequence "]]>" must not occur in text. It occurs in the output exactly when the input
   * starts with it: the test for it looks at the fourth byte and later only.
   */
  lemma ClosesExactlyAtStart(str: seq<Byte>, what: ForWhat)
    ensures HoldsEnd(Encoded(str, 0, what)) <==> StartsWithEnd(str)
  {
    var o := ClosesFrom(str, 0, what);
    HoldsEndMeans(o);
  }
}
