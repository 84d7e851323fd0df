/** How bytes submitted to the chain travel to the API: base16 in the queue payload
    (section 8 of RFC 4648), then UTF-8 (RFC 3629) into UTF-16 text without NUL. */
module Text {
  import opened Prelude

  /** A Unicode scalar value: a code point that is not a surrogate. */
  type Scalar = c: int | 0 <= c < 0xD800 || 0xE000 <= c < 0x11_0000

  const REPLACEMENT: CodeUnit := 0xFFFD

  // ---------------------------------------------------------------- UTF-8 and UTF-16

  /** Section 3 of RFC 3629. */
  function EncodeScalar(c: Scalar): Bytes {
    if c < 0x80 then [c]
    else if c < 0x800 then [0xC0 + c / 0x40, 0x80 + c % 0x40]
    else if c < 0x1_0000 then [0xE0 + c / 0x1000, 0x80 + c / 0x40 % 0x40, 0x80 + c % 0x40]
    else [0xF0 + c / 0x4_0000, 0x80 + c / 0x1000 % 0x40, 0x80 + c / 0x40 % 0x40, 0x80 + c % 0x40]
  }

  function Encode(cs: seq<Scalar>): Bytes {
    if cs == [] then [] else EncodeScalar(cs[0]) + Encode(cs[1..])
  }

  function Utf16Scalar(c: Scalar): JsString {
    if c < 0x1_0000 then [c]
    else [0xD800 + (c - 0x1_0000) / 0x400, 0xDC00 + (c - 0x1_0000) % 0x400]
  }

  function Utf16(cs: seq<Scalar>): JsString {
    if cs == [] then [] else Utf16Scalar(cs[0]) + Utf16(cs[1..])
  }

  predicate IsTail(b: Byte) { 0x80 <= b < 0xC0 }

  /** Which second bytes may follow a lead byte (section 4 of RFC 3629). */
  predicate SecondAllowed(lead: Byte, second: Byte) {
    if lead == 0xE0 then 0xA0 <= second < 0xC0
    else if lead == 0xED then 0x80 <= second < 0xA0
    else if lead == 0xF0 then 0x90 <= second < 0xC0
    else if lead == 0xF4 then 0x80 <= second < 0x90
    else IsTail(second)
  }

  /** Bytes of a character that starts with this lead byte; 0 when none does. */
  function SequenceLength(lead: Byte): nat {
    if lead < 0x80 then 1
    else if 0xC2 <= lead < 0xE0 then 2
    else if 0xE0 <= lead < 0xF0 then 3
    else if 0xF0 <= lead < 0xF5 then 4
    else 0
  }

  /** Length of the longest prefix that starts one character, and at least 1. */
  function Accepted(b: Bytes): (n: nat)
    requires b != []
    ensures 1 <= n <= |b|
    ensures SequenceLength(b[0]) != 0 ==> n <= SequenceLength(b[0])
  {
    var n := SequenceLength(b[0]);
    if n < 2 || |b| < 2 || !SecondAllowed(b[0], b[1]) then 1
    else if n < 3 || |b| < 3 || !IsTail(b[2]) then 2
    else if n < 4 || |b| < 4 || !IsTail(b[3]) then 3
    else 4
  }

  predicate StartsWell(b: Bytes)
    requires b != []
  {
    Accepted(b) == SequenceLength(b[0])
  }

  /** The syntax of section 4 of RFC 3629. */
  predicate WellFormed(b: Bytes) {
    b == [] || (StartsWell(b) && WellFormed(b[Accepted(b)..]))
  }

  function FirstScalar(b: Bytes): Scalar
    requires b != [] && StartsWell(b)
  {
    if Accepted(b) == 1 then b[0]
    else if Accepted(b) == 2 then Joined(b[0] - 0xC0, b[1])
    else if Accepted(b) == 3 then Joined(Joined(b[0] - 0xE0, b[1]), b[2])
    else Joined(Joined(Joined(b[0] - 0xF0, b[1]), b[2]), b[3])
  }

  /** Six more bits, from a tail byte. */
  function Joined(high: int, tail: int): int { high * 0x40 + (tail - 0x80) }

  /** A decoder for any bytes: every maximal ill-formed piece becomes one U+FFFD. */
  function DecodeUtf8(b: Bytes): (s: JsString)
    ensures |s| <= |b|
  {
    if b == [] then []
    else (if StartsWell(b) then Utf16Scalar(FirstScalar(b)) else [REPLACEMENT]) + DecodeUtf8(b[Accepted(b)..])
  }

  function StripNul(s: JsString): (r: JsString)
    ensures |r| <= |s|
    ensures 0 !in r
    ensures 0 !in s ==> r == s
  {
    if s == [] then []
    else if s[0] == 0 then StripNul(s[1..])
    else [s[0]] + StripNul(s[1..])
  }

  /** The text a handler gets from bytes. */
  function DecodeText(b: Bytes): (s: JsString)
    ensures |s| <= |b|
    ensures 0 !in s
  {
    StripNul(DecodeUtf8(b))
  }

  // ---------------------------------------------------------------- base16

  function HexDigit(n: nat): (c: CodeUnit)
    requires n < 16
    ensures HexValue(c) == Some(n)
  {
    if n < 10 then 0x30 + n else 0x61 + (n - 10)
  }

  function HexValue(c: CodeUnit): Option<nat> {
    if 0x30 <= c < 0x3A then Some(c - 0x30)
    else if 0x61 <= c < 0x67 then Some(c - 0x61 + 10)
    else if 0x41 <= c < 0x47 then Some(c - 0x41 + 10)
    else None
  }

  function ToHex(b: Bytes): (s: JsString)
    ensures |s| == 2 * |b|
  {
    if b == [] then [] else [HexDigit(b[0] / 16), HexDigit(b[0] % 16)] + ToHex(b[1..])
  }

  /** Reads pairs of digits and stops at the first pair that is not base16. */
  function FromHex(s: JsString): (b: Bytes)
    ensures 2 * |b| <= |s|
  {
    if |s| < 2 || HexValue(s[0]).None? || HexValue(s[1]).None? then []
    else [HexByte(s[0], s[1])] + FromHex(s[2..])
  }

  function HexByte(high: CodeUnit, low: CodeUnit): Byte
    requires HexValue(high).Some? && HexValue(low).Some?
  {
    HexValue(high).value * 16 + HexValue(low).value
  }

  lemma {:induction false} HexRoundTrip(b: Bytes)
    ensures FromHex(ToHex(b)) == b
  {
    if b != [] {
      HexRoundTrip(b[1..]);
      assert ToHex(b)[2..] == ToHex(b[1..]);
      assert FromHex(ToHex(b)) == [b[0]] + FromHex(ToHex(b[1..]));
    }
  }

  // ---------------------------------------------------------------- decode undoes encode

  /** The first character of an encoding is found again, whatever follows it. */
  lemma FirstScalarOfEncoding(c: Scalar, rest: Bytes)
    ensures EncodeScalar(c) + rest != [] && StartsWell(EncodeScalar(c) + rest)
    ensures FirstScalar(EncodeScalar(c) + rest) == c
    ensures (EncodeScalar(c) + rest)[Accepted(EncodeScalar(c) + rest)..] == rest
  {
    var e := EncodeScalar(c);
    var b := e + rest;
    assert forall i :: 0 <= i < |e| ==> b[i] == e[i];
    assert Accepted(b) == |e| by { EncodingAccepted(c, b); }
    assert b[|e|..] == rest;
    assert c / 0x1000 == c / 0x40 / 0x40 && c / 0x4_0000 == c / 0x1000 / 0x40;
  }

  lemma EncodingAccepted(c: Scalar, b: Bytes)
    requires EncodeScalar(c) <= b
    ensures Accepted(b) == |EncodeScalar(c)| == SequenceLength(b[0])
  {
    var e := EncodeScalar(c);
    assert forall i :: 0 <= i < |e| ==> b[i] == e[i];
  }

  lemma {:induction false} DecodeUndoesEncode(cs: seq<Scalar>)
    ensures WellFormed(Encode(cs))
    ensures DecodeUtf8(Encode(cs)) == Utf16(cs)
  {
    if cs != [] {
      FirstScalarOfEncoding(cs[0], Encode(cs[1..]));
      DecodeUndoesEncode(cs[1..]);
    }
  }

  lemma EncodeTwo(x: int, t: Byte)
    requires IsTail(t) && 2 <= x < 0x20
    ensures 0x80 <= Joined(x, t) < 0x800 && EncodeScalar(Joined(x, t)) == [0xC0 + x, t]
  {
    JoinedDigits(x, t);
  }

  lemma EncodeThree(x: int, t: Byte, u: Byte)
    requires IsTail(t) && IsTail(u)
    requires 0 <= x < 0x10 && (x == 0 ==> 0xA0 <= t) && (x == 0xD ==> t < 0xA0)
    ensures var c := Joined(Joined(x, t), u);
            && (0x800 <= c < 0xD800 || 0xE000 <= c < 0x1_0000)
            && EncodeScalar(c) == [0xE0 + x, t, u]
  {
    JoinedDigits(x, t);
    JoinedDigits(Joined(x, t), u);
    SixBits(Joined(Joined(x, t), u));
  }

  lemma EncodeFour(x: int, t: Byte, u: Byte, w: Byte)
    requires IsTail(t) && IsTail(u) && IsTail(w)
    requires 0 <= x < 5 && (x == 0 ==> 0x90 <= t) && (x == 4 ==> t < 0x90)
    ensures var c := Joined(Joined(Joined(x, t), u), w);
            0x1_0000 <= c < 0x11_0000 && EncodeScalar(c) == [0xF0 + x, t, u, w]
  {
    JoinedDigits(x, t);
    JoinedDigits(Joined(x, t), u);
    JoinedDigits(Joined(Joined(x, t), u), w);
    SixBits(Joined(Joined(Joined(x, t), u), w));
  }

  lemma SixBits(c: int)
    ensures c / 0x1000 == c / 0x40 / 0x40 && c / 0x4_0000 == c / 0x40 / 0x40 / 0x40
  {
  }

  lemma FirstOfThree(b: Bytes)
    requires |b| >= 3 && StartsWell(b) && Accepted(b) == 3
    ensures EncodeScalar(FirstScalar(b)) == [b[0], b[1], b[2]]
  {
    EncodeThree(b[0] - 0xE0, b[1], b[2]);
  }

  lemma FourShape(b: Bytes)
    requires |b| >= 4 && StartsWell(b) && Accepted(b) == 4
    ensures IsTail(b[1]) && IsTail(b[2]) && IsTail(b[3])
    ensures 0xF0 <= b[0] < 0xF5 && (b[0] == 0xF0 ==> 0x90 <= b[1]) && (b[0] == 0xF4 ==> b[1] < 0x90)
  {
  }

  lemma FirstOfFour(b: Bytes)
    requires |b| >= 4 && StartsWell(b) && Accepted(b) == 4
    ensures EncodeScalar(FirstScalar(b)) == [b[0], b[1], b[2], b[3]]
  {
    FourShape(b);
    EncodeFour(b[0] - 0xF0, b[1], b[2], b[3]);
    assert FirstScalar(b) == Joined(Joined(Joined(b[0] - 0xF0, b[1]), b[2]), b[3]);
  }

  lemma FirstOfTwo(b: Bytes)
    requires |b| >= 2 && StartsWell(b) && Accepted(b) == 2
    ensures EncodeScalar(FirstScalar(b)) == [b[0], b[1]]
  {
    EncodeTwo(b[0] - 0xC0, b[1]);
  }

  /** The bytes of a well-formed first character are its encoding. */
  lemma EncodingOfFirstScalar(b: Bytes)
    requires b != [] && StartsWell(b)
    ensures EncodeScalar(FirstScalar(b)) == b[..Accepted(b)]
  {
    var e := EncodeScalar(FirstScalar(b));
    if Accepted(b) == 2 {
      FirstOfTwo(b);
    } else if Accepted(b) == 3 {
      FirstOfThree(b);
    } else if Accepted(b) == 4 {
      FirstOfFour(b);
    } else {
      assert e == [b[0]];
    }
    assert |e| == Accepted(b) && forall i :: 0 <= i < |e| ==> e[i] == b[i];
  }

  lemma JoinedDigits(high: int, tail: Byte)
    requires IsTail(tail)
    ensures Joined(high, tail) / 0x40 == high && Joined(high, tail) % 0x40 == tail - 0x80
  {
  }

  function Scalars(b: Bytes): seq<Scalar>
    requires WellFormed(b)
  {
    if b == [] then [] else [FirstScalar(b)] + Scalars(b[Accepted(b)..])
  }

  lemma EncodeCons(c: Scalar, cs: seq<Scalar>)
    ensures Encode([c] + cs) == EncodeScalar(c) + Encode(cs)
  {
    assert ([c] + cs)[1..] == cs;
  }

  lemma SplitFirst(b: Bytes)
    requires b != [] && StartsWell(b)
    ensures b == EncodeScalar(FirstScalar(b)) + b[Accepted(b)..]
  {
    EncodingOfFirstScalar(b);
  }

  lemma {:induction false} EncodeUndoesScalars(b: Bytes)
    requires WellFormed(b)
    ensures Encode(Scalars(b)) == b
  {
    if b != [] {
      var rest := b[Accepted(b)..];
      EncodeUndoesScalars(rest);
      EncodeCons(FirstScalar(b), Scalars(rest));
      SplitFirst(b);
    }
  }

  /** The byte syntax describes exactly the encodings. */
  lemma WellFormedIffEncoding(b: Bytes)
    ensures WellFormed(b) <==> exists cs :: Encode(cs) == b
  {
    if WellFormed(b) {
      EncodeUndoesScalars(b);
    }
    if cs :| Encode(cs) == b {
      DecodeUndoesEncode(cs);
    }
  }

  // ---------------------------------------------------------------- nothing is lost

  lemma {:induction false} Utf16Injective(cs: seq<Scalar>, ds: seq<Scalar>)
    requires Utf16(cs) == Utf16(ds)
    ensures cs == ds
  {
    if cs != [] && ds != [] {
      var u, w := Utf16(cs), Utf16(ds);
      var c, d := cs[0], ds[0];
      assert u == Utf16Scalar(c) + Utf16(cs[1..]) && w == Utf16Scalar(d) + Utf16(ds[1..]);
      assert u[0] == w[0];
      assert (c < 0x1_0000) == (d < 0x1_0000);
      if c >= 0x1_0000 {
        assert u[1] == w[1];
      }
      assert c == d;
      assert Utf16(cs[1..]) == u[|Utf16Scalar(c)|..] == Utf16(ds[1..]);
      Utf16Injective(cs[1..], ds[1..]);
    }
  }

  lemma {:induction false} NulFreeText(cs: seq<Scalar>)
    requires 0 !in Encode(cs)
    ensures 0 !in Utf16(cs)
  {
    if cs != [] {
      assert Encode(cs)[..|EncodeScalar(cs[0])|] == EncodeScalar(cs[0]);
      assert Encode(cs)[|EncodeScalar(cs[0])|..] == Encode(cs[1..]);
      assert 0 !in EncodeScalar(cs[0]) && 0 !in Encode(cs[1..]);
      assert EncodeScalar(cs[0])[0] != 0;
      NulFreeText(cs[1..]);
    }
  }

  /** Bytes whose text keeps every character. */
  predicate CleanText(b: Bytes) { WellFormed(b) && 0 !in b }

  lemma CleanTextKept(cs: seq<Scalar>)
    requires 0 !in Encode(cs)
    ensures CleanText(Encode(cs))
    ensures DecodeText(Encode(cs)) == Utf16(cs)
  {
    DecodeUndoesEncode(cs);
    NulFreeText(cs);
  }

  lemma CleanTextInjective(a: Bytes, b: Bytes)
    requires CleanText(a) && CleanText(b)
    requires DecodeText(a) == DecodeText(b)
    ensures a == b
  {
    EncodeUndoesScalars(a);
    EncodeUndoesScalars(b);
    CleanTextKept(Scalars(a));
    CleanTextKept(Scalars(b));
    Utf16Injective(Scalars(a), Scalars(b));
  }

  lemma CleanTextNotEmpty(b: Bytes)
    requires CleanText(b) && b != []
    ensures DecodeText(b) != []
  {
    if DecodeText(b) == [] {
      CleanTextInjective(b, []);
    }
  }

  /** ASCII bytes decode to themselves. */
  lemma {:induction false} AsciiIsItself(b: Bytes)
    requires forall i :: 0 <= i < |b| ==> b[i] < 0x80
    ensures DecodeUtf8(b) == b
  {
    if b != [] {
      AsciiIsItself(b[1..]);
      assert Accepted(b) == 1 && DecodeUtf8(b) == [b[0]] + DecodeUtf8(b[1..]);
    }
  }

  // ---------------------------------------------------------------- NUL is removed, nothing else

  lemma {:induction false} StripNulIsFilter(s: JsString)
    ensures StripNul(s) == Filter(s, (u: CodeUnit) => u != 0)
  {
    if s != [] {
      StripNulIsFilter(s[1..]);
      FilterConcat([s[0]], s[1..], (u: CodeUnit) => u != 0);
      FilterSnoc([], s[0], (u: CodeUnit) => u != 0);
      assert [] + [s[0]] == [s[0]] && s == [s[0]] + s[1..];
    }
  }

  lemma StripNulConcat(s: JsString, t: JsString)
    ensures StripNul(s + t) == StripNul(s) + StripNul(t)
  {
    StripNulIsFilter(s);
    StripNulIsFilter(t);
    StripNulIsFilter(s + t);
    FilterConcat(s, t, (u: CodeUnit) => u != 0);
  }

  lemma StripNulMiddle(s: JsString, t: JsString)
    requires 0 !in s && 0 !in t
    ensures StripNul(s + [0] + t) == s + t
  {
    var nul: JsString := [0];
    assert nul[1..] == [] && StripNul(nul) == [];
    StripNulConcat(s + nul, t);
    StripNulConcat(s, nul);
    assert StripNul(s) == s && StripNul(t) == t && s + [] == s;
  }

  /** A NUL in the middle goes and the text around it stays. */
  lemma NulInTheMiddle(b: Bytes, c: Bytes)
    requires forall i :: 0 <= i < |b| ==> 0 < b[i] < 0x80
    requires forall i :: 0 <= i < |c| ==> 0 < c[i] < 0x80
    ensures DecodeText(b + [0] + c) == b + c
  {
    AsciiIsItself(b + [0] + c);
    StripNulMiddle(b, c);
  }

  // ---------------------------------------------------------------- decoding any bytes, from the encoding alone

  /** The bytes begin the encoding of some character. */
  ghost predicate BeginsCharacter(b: Bytes) {
    exists c: Scalar :: b <= EncodeScalar(c)
  }

  lemma PrefixBytes(b: Bytes, e: Bytes)
    requires b <= e
    ensures forall i :: 0 <= i < |b| ==> b[i] == e[i]
  {
  }

  lemma BeginningAccepted(b: Bytes, n: nat, c: Scalar)
    requires 2 <= n <= |b| && b[..n] <= EncodeScalar(c)
    ensures n <= Accepted(b)
  {
    var e := EncodeScalar(c);
    PrefixBytes(b[..n], e);
    assert forall i :: 0 <= i < n ==> b[i] == e[i];
    EncodingAccepted(c, e);
  }

  /** A well-formed prefix, filled up with tail bytes, is a whole character. */
  lemma AcceptedBegins(b: Bytes, n: nat)
    requires 2 <= n <= |b| && n <= Accepted(b)
    ensures BeginsCharacter(b[..n])
  {
    var p := b[..n] + seq(SequenceLength(b[0]) - n, _ => 0x80);
    assert p[0] == b[0] && p[1] == b[1];
    assert StartsWell(p) by {
      assert forall i :: 2 <= i < |p| ==> IsTail(p[i]);
    }
    EncodingOfFirstScalar(p);
    assert p[..Accepted(p)] == p;
    assert b[..n] <= EncodeScalar(FirstScalar(p));
  }

  lemma BeginsIff(b: Bytes, n: nat)
    requires 2 <= n <= |b|
    ensures BeginsCharacter(b[..n]) <==> n <= Accepted(b)
  {
    if c: Scalar :| b[..n] <= EncodeScalar(c) {
      BeginningAccepted(b, n, c);
    }
    if n <= Accepted(b) {
      AcceptedBegins(b, n);
    }
  }

  /** A whole character in front decodes to itself, whatever follows. */
  lemma DecodeCharacter(c: Scalar, rest: Bytes)
    ensures DecodeUtf8(EncodeScalar(c) + rest) == Utf16Scalar(c) + DecodeUtf8(rest)
  {
    FirstScalarOfEncoding(c, rest);
  }

  lemma LongestBeginning(b: Bytes, n: nat)
    requires 1 <= n <= |b|
    requires n == 1 || BeginsCharacter(b[..n])
    requires n < |b| ==> !BeginsCharacter(b[..n + 1])
    ensures Accepted(b) == n
  {
    if n > 1 { BeginsIff(b, n); }
    if n < |b| { BeginsIff(b, n + 1); }
  }

  /** Otherwise the longest beginning of a character, or else one byte, becomes one U+FFFD. */
  lemma DecodeIllFormed(b: Bytes, n: nat)
    requires 1 <= n <= |b| && forall c: Scalar :: !(EncodeScalar(c) <= b)
    requires n == 1 || BeginsCharacter(b[..n])
    requires n < |b| ==> !BeginsCharacter(b[..n + 1])
    ensures DecodeUtf8(b) == [0xFFFD] + DecodeUtf8(b[n..])
  {
    LongestBeginning(b, n);
    NotStartingWell(b);
    DecodePiece(b);
  }

  lemma DecodePiece(b: Bytes)
    requires b != [] && !StartsWell(b)
    ensures DecodeUtf8(b) == [0xFFFD] + DecodeUtf8(b[Accepted(b)..])
  {
  }

  lemma NotStartingWell(b: Bytes)
    requires b != [] && forall c: Scalar :: !(EncodeScalar(c) <= b)
    ensures !StartsWell(b)
  {
    if StartsWell(b) {
      EncodingOfFirstScalar(b);
    }
  }

  // ---------------------------------------------------------------- examples of the standards

  /** From section 7 of RFC 3629, with the UTF-16 form of the last character. */
  lemma Utf8Examples()
    ensures Encode([0x41, 0x2262, 0x391, 0x2E]) == [0x41, 0xE2, 0x89, 0xA2, 0xCE, 0x91, 0x2E]
    ensures EncodeScalar(0x233B4) == [0xF0, 0xA3, 0x8E, 0xB4] && Utf16Scalar(0x233B4) == [0xD84C, 0xDFB4]
  {
    assert Encode([0x2E]) == [0x2E];
    assert [0x391, 0x2E][1..] == [0x2E];
    assert [0x2262, 0x391, 0x2E][1..] == [0x391, 0x2E];
    assert [0x41, 0x2262, 0x391, 0x2E][1..] == [0x2262, 0x391, 0x2E];
  }

  /** The digits of section 8 of RFC 4648: written in lower case, read in either, and no others. */
  lemma HexAlphabet(c: CodeUnit, n: nat)
    requires n < 16
    ensures HexDigit(n) == if n < 10 then '0' as int + n else 'a' as int + (n - 10)
    ensures HexValue(c) == Some(n) <==>
            if n < 10 then c == '0' as int + n else c == 'a' as int + (n - 10) || c == 'A' as int + (n - 10)
    ensures HexValue(c).Some? ==> HexValue(c).value < 16
  {
  }

  lemma DigitsOfByte(b: Byte)
    ensures HexByte(HexDigit(b / 16), HexDigit(b % 16)) == b
  {
  }

  lemma FromHexCons(high: CodeUnit, low: CodeUnit, rest: JsString)
    requires HexValue(high).Some? && HexValue(low).Some?
    ensures FromHex([high, low] + rest) == [HexByte(high, low)] + FromHex(rest)
  {
    assert ([high, low] + rest)[2..] == rest;
  }

  /** Reading stops where no pair of digits follows. */
  lemma {:induction false} HexStops(b: Bytes, rest: JsString)
    requires |rest| < 2 || HexValue(rest[0]).None? || HexValue(rest[1]).None?
    ensures FromHex(ToHex(b) + rest) == b
  {
    if b == [] {
      assert ToHex(b) + rest == rest;
    } else {
      HexStops(b[1..], rest);
      DigitsOfByte(b[0]);
      FromHexCons(HexDigit(b[0] / 16), HexDigit(b[0] % 16), ToHex(b[1..]) + rest);
      assert ToHex(b) + rest == [HexDigit(b[0] / 16), HexDigit(b[0] % 16)] + (ToHex(b[1..]) + rest);
    }
  }
}
