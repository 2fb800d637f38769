/** The wire format in the characters of its documentation: every constant here is a literal, and what
    `Codec` calls a frame is proved to be spelled in exactly this way. */
module WireFormat {
  import opened Bytes
  import opened Codec
  import opened Stream

  // c is the hexadecimal digit of v, in either case.
  predicate Hex(c: byte, v: int) {
    0 <= v < 16 && (c == Ascii("0123456789ABCDEF")[v] || c == Ascii("0123456789abcdef")[v])
  }

  predicate Hex2Digits(hi: byte, lo: byte, v: int) {
    Hex(hi, v / 16) && Hex(lo, v % 16)
  }

  // t is the text of this type on the wire.
  predicate Letters(t: seq<byte>, kind: Kind) {
    || (kind == Cmd && t == Ascii("CMD"))
    || (kind == Dat && t == Ascii("DAT"))
    || (kind == Evt && t == Ascii("EVT"))
    || (kind == Sts && t == Ascii("STS"))
    || (kind == Ack && t == Ascii("ACK"))
    || (kind == Err && t == Ascii("ERR"))
  }

  // All bytes combined with the XOR of 8-bit numbers.
  function XorAll(data: seq<byte>): bv8 {
    if data == [] then 0 else XorAll(data[..|data| - 1]) ^ (data[|data| - 1] as bv8)
  }

  lemma {:induction false} ChecksumIsXor(data: seq<byte>)
    ensures Checksum(data) == XorAll(data) as int
  {
    if data != [] {
      var front := data[..|data| - 1];
      ChecksumIsXor(front);
      Bv8RoundTrip(XorAll(front));
    }
  }

  lemma DigitCharacters(v: int)
    requires 0 <= v < 16
    ensures Ascii("0123456789ABCDEF")[v] == if v < 10 then 48 + v else 55 + v
    ensures Ascii("0123456789abcdef")[v] == if v < 10 then 48 + v else 87 + v
  {
    assert v in {0, 1, 2, 3, 4, 5, 6, 7, 8, 9, 10, 11, 12, 13, 14, 15};
  }

  lemma HexIsDigit(c: byte, v: int)
    ensures Hex(c, v) <==> IsHex(c) && HexValue(c) == v
  {
    if 0 <= v < 16 {
      DigitCharacters(v);
    }
  }

  lemma TwoDigits(hi: byte, lo: byte, v: byte)
    ensures Hex2Digits(hi, lo, v) <==> IsHex(hi) && IsHex(lo) && HexByte(hi, lo) == v
  {
    HexIsDigit(hi, v / 16);
    HexIsDigit(lo, v % 16);
  }

  lemma TypeLetters(t: seq<byte>, kind: Kind)
    ensures Letters(t, kind) <==> TypeFromText(t) == kind && kind != Invalid
  {
    TypeTextRoundTrip(Cmd);
    TypeTextRoundTrip(Dat);
    TypeTextRoundTrip(Evt);
    TypeTextRoundTrip(Sts);
    TypeTextRoundTrip(Ack);
    TypeTextRoundTrip(Err);
  }

  // "TTT:PAYLOAD", with 4 to 52 bytes.
  lemma BodyExactly(body: seq<byte>, m: Message)
    ensures DecodeBody(body) == Some(m) <==>
              4 <= |body| <= 52 && Letters(body[..3], m.kind) && body[3] == 58 && body[4..] == m.payload
  {
    if |body| >= 3 {
      TypeLetters(body[..3], m.kind);
    }
  }

  /** "@LL:TTT:PAYLOAD:CC\n", with LL the length of "TTT:PAYLOAD" and CC the XOR of "LL:TTT:PAYLOAD", both in
      hexadecimal digits of either case, and at most 48 bytes of payload. */
  predicate Spells(f: seq<byte>, m: Message) {
    && |m.payload| <= 48 && |f| == |m.payload| + 12
    && f[0] == 64 && f[3] == 58 && f[7] == 58 && f[|f| - 4] == 58 && f[|f| - 1] == 10
    && Hex2Digits(f[1], f[2], |m.payload| + 4)
    && Letters(f[4..7], m.kind)
    && f[8..|f| - 4] == m.payload
    && Hex2Digits(f[|f| - 3], f[|f| - 2], XorAll(f[1..|f| - 4]) as int)
  }

  // An accepted byte string is spelled in this way.
  lemma AcceptedSpells(f: seq<byte>, m: Message)
    requires FrameMessage(f) == Some(m)
    ensures Spells(f, m)
  {
    hide Checksum, XorAll, HexValue, DecodeBody, Hex2Digits, Letters;
    var n := BodyLength(f);
    AcceptedIsEncodable(f);
    BodyExactly(f[4..n + 4], m);
    SliceOfSlice(f, 4, n + 4, 0, 3);
    SliceOfSlice(f, 4, n + 4, 4, n);
    TwoDigits(f[1], f[2], n);
    ChecksumIsXor(f[1..n + 4]);
    TwoDigits(f[n + 5], f[n + 6], Checksum(f[1..n + 4]));
  }

  lemma SpelledIsAccepted(f: seq<byte>, m: Message)
    requires Spells(f, m)
    ensures FrameMessage(f) == Some(m)
  {
    hide Checksum, XorAll, HexValue, DecodeBody, Hex2Digits, Letters;
    var n := |m.payload| + 4;
    TwoDigits(f[1], f[2], n);
    ChecksumIsXor(f[1..n + 4]);
    TwoDigits(f[n + 5], f[n + 6], Checksum(f[1..n + 4]));
    BodyExactly(f[4..n + 4], m);
    SliceOfSlice(f, 4, n + 4, 0, 3);
    SliceOfSlice(f, 4, n + 4, 4, n);
  }

  /** The validator accepts exactly the byte strings that are spelled as the format says. */
  lemma AcceptedExactly(f: seq<byte>, m: Message)
    ensures FrameMessage(f) == Some(m) <==> Spells(f, m)
  {
    hide FrameMessage, Spells;
    if FrameMessage(f) == Some(m) {
      AcceptedSpells(f, m);
    }
    if Spells(f, m) {
      SpelledIsAccepted(f, m);
    }
  }

  // The two upper-case digits of v.
  predicate Upper2Digits(hi: byte, lo: byte, v: int) {
    0 <= v < 256 && hi == Ascii("0123456789ABCDEF")[v / 16] && lo == Ascii("0123456789ABCDEF")[v % 16]
  }

  lemma UpperTwoDigits(hi: byte, lo: byte, v: byte)
    ensures Upper2Digits(hi, lo, v) <==> IsUpperHex(hi) && IsUpperHex(lo) && HexByte(hi, lo) == v
    ensures Upper2Digits(hi, lo, v) ==> Hex2Digits(hi, lo, v)
  {
    DigitCharacters(v / 16);
    DigitCharacters(v % 16);
  }

  predicate SpellsInUpperCase(f: seq<byte>, m: Message) {
    && Spells(f, m)
    && Upper2Digits(f[1], f[2], |m.payload| + 4)
    && Upper2Digits(f[|f| - 3], f[|f| - 2], XorAll(f[1..|f| - 4]) as int)
  }

  lemma UpperCaseIsUpper(f: seq<byte>, m: Message)
    requires FrameMessage(f) == Some(m) && Spells(f, m)
    ensures UpperCase(f) <==> SpellsInUpperCase(f, m)
  {
    hide Checksum, XorAll, HexValue, DecodeBody, Hex2Digits, Letters, Upper2Digits;
    var n := BodyLength(f);
    AcceptedIsEncodable(f);
    ChecksumIsXor(f[1..n + 4]);
    UpperTwoDigits(f[1], f[2], n);
    UpperTwoDigits(f[n + 5], f[n + 6], Checksum(f[1..n + 4]));
  }

  /** The encoder takes messages of the six types with at most 48 bytes of payload, and what it writes is the
      one spelling with upper-case digits. */
  lemma FrameExactly(m: Message, f: seq<byte>)
    ensures Encodable(m) <==> m.kind in {Cmd, Dat, Evt, Sts, Ack, Err} && |m.payload| <= 48
    ensures Encodable(m) && f == Frame(m) <==> SpellsInUpperCase(f, m)
  {
    hide FrameMessage, Frame, Spells, SpellsInUpperCase, UpperCase, WellShaped;
    AcceptedExactly(f, m);
    if Encodable(m) && f == Frame(m) {
      RoundTrip(m);
    }
    if FrameMessage(f) == Some(m) {
      AcceptedIsEncodable(f);
      CanonicalReverse(f);
      UpperCaseIsUpper(f, m);
    }
    UpperSpells(f, m);
  }

  lemma UpperSpells(f: seq<byte>, m: Message)
    ensures SpellsInUpperCase(f, m) ==> Spells(f, m)
  {
  }

  // t is the type field of exactly this type.
  predicate OnlyType(t: seq<byte>, kind: Kind) {
    && (kind == Cmd <==> t == Ascii("CMD"))
    && (kind == Dat <==> t == Ascii("DAT"))
    && (kind == Evt <==> t == Ascii("EVT"))
    && (kind == Sts <==> t == Ascii("STS"))
    && (kind == Ack <==> t == Ascii("ACK"))
    && (kind == Err <==> t == Ascii("ERR"))
  }

  lemma LettersDecide(t: seq<byte>, kind: Kind)
    requires Letters(t, kind)
    ensures OnlyType(t, kind)
  {
    TypesDiffer();
  }

  /** The first byte, the type field and the last byte of everything that is accepted. */
  lemma TypeField(f: seq<byte>, m: Message)
    requires FrameMessage(f) == Some(m)
    ensures |f| >= 12 && f[0] == 64 && OnlyType(f[4..7], m.kind) && f[|f| - 1] == 10
  {
    hide FrameMessage, Hex2Digits, XorAll, Letters, OnlyType;
    AcceptedSpells(f, m);
    LettersDecide(f[4..7], m.kind);
  }

  /** The same of everything that is encoded. */
  lemma EncodedTypeField(m: Message)
    requires Encodable(m)
    ensures |Frame(m)| >= 12 && Frame(m)[0] == 64 && OnlyType(Frame(m)[4..7], m.kind) && Frame(m)[|Frame(m)| - 1] == 10
  {
    hide FrameMessage, Frame, OnlyType;
    RoundTrip(m);
    TypeField(Frame(m), m);
  }

  lemma TypesDiffer()
    ensures |{Ascii("CMD"), Ascii("DAT"), Ascii("EVT"), Ascii("STS"), Ascii("ACK"), Ascii("ERR")}| == 6
  {
    assert Ascii("CMD")[0] == 67 && Ascii("DAT")[0] == 68 && Ascii("STS")[0] == 83 && Ascii("ACK")[0] == 65;
    assert Ascii("EVT")[..2] == [69, 86] && Ascii("ERR")[..2] == [69, 82];
  }

  /** The bytes 13, 58, 64 and 0 in the receiver and in C strings. */
  lemma SpecialBytes(p: seq<byte>, buffer: seq<byte>)
    ensures Next(p, 13) == p && Emit(p, 13) == InProgress
    ensures forall b: byte :: Next([], b) == (if b == 64 then [64] else []) && Emit([], b) == InProgress
    ensures forall b: byte :: b != 13 && Emit(p, b) == Error ==> Next(p, b) == if b == 64 then [64] else []
    ensures var s := CString(buffer);
            && s <= buffer && (forall i :: 0 <= i < |s| ==> s[i] != 0)
            && (|s| < |buffer| ==> buffer[|s|] == 0)
  {
    CStringIsPrefix(buffer);
    forall b: byte
      ensures Next([], b) == (if b == 64 then [64] else []) && Emit([], b) == InProgress
    {
      assert [] + [b] == [b];
    }
  }

  // ---------- When the receiver gives up ----------

  predicate SomeDigit(c: byte) {
    exists v :: 0 <= v < 16 && Hex(c, v)
  }

  lemma SomeDigitIsHex(c: byte)
    ensures SomeDigit(c) <==> IsHex(c)
  {
    HexIsDigit(c, HexValue(c));
    forall v: int | Hex(c, v) ensures IsHex(c) {
      HexIsDigit(c, v);
    }
  }

  // The shape of a frame: any body of 4 to 52 bytes, any checksum digits.
  predicate Shaped(f: seq<byte>) {
    && 12 <= |f| <= 60
    && f[0] == 64 && f[3] == 58 && f[|f| - 4] == 58 && f[|f| - 1] == 10
    && Hex2Digits(f[1], f[2], |f| - 8)
    && SomeDigit(f[|f| - 3]) && SomeDigit(f[|f| - 2])
  }

  lemma ShapeExactly(f: seq<byte>)
    ensures WellShaped(f) <==> Shaped(f)
  {
    hide Hex2Digits, SomeDigit;
    if 12 <= |f| <= 60 {
      TwoDigits(f[1], f[2], |f| - 8);
      SomeDigitIsHex(f[|f| - 3]);
      SomeDigitIsHex(f[|f| - 2]);
    }
  }

  const ZEROS: seq<byte> := [SEPARATOR, 48, 48, END]  // ":00\n"

  // "@04:" with a body of n bytes 'x' and any checksum.
  function Filler(n: nat): seq<byte> {
    [START, 48, 52, SEPARATOR] + seq(n, i => 120) + ZEROS
  }

  lemma FillerBytes(n: nat)
    ensures var t := Filler(n);
            && |t| == n + 8 && t[1] == 48 && t[2] == 52 && t[3] == SEPARATOR
            && t[n + 4] == SEPARATOR && t[n + 5] == 48 && t[n + 6] == 48 && t[n + 7] == END
  {
  }

  // What completes a partial frame whose length is known.
  lemma Completion(p: seq<byte>)
    requires Viable(p) && |p| >= 3
    ensures exists x :: x != [] && WellShaped(p + x)
  {
    hide Filler;
    var n := BodyLength(p);
    FillerBytes(n);
    var x := Filler(n)[|p|..];
    var f := p + x;
    assert f[1] == p[1] && f[2] == p[2];
    assert forall k :: |p| <= k < n + 8 ==> f[k] == Filler(n)[k];
    assert WellShaped(p + x);
  }

  lemma ShortestFrame(p: seq<byte>)
    requires Viable(p) && |p| == 1
    ensures exists x :: x != [] && WellShaped(p + x)
  {
    hide Filler;
    FillerBytes(4);
    var x := Filler(4)[1..];
    assert forall k :: 1 <= k < 12 ==> (p + x)[k] == Filler(4)[k];
    assert WellShaped(p + x);
  }

  lemma BeginningViable(p: seq<byte>, x: seq<byte>)
    requires p != [] && x != [] && WellShaped(p + x)
    ensures Viable(p)
  {
    assert (p + x)[..|p|] == p;
    FramePrefixViable(p + x, |p|);
  }

  /** The receiver keeps collecting exactly as long as the bytes can still begin a frame, whatever its body
      and checksum; only a first length digit that no legal length has is noticed one byte later. */
  lemma ViableExactly(p: seq<byte>)
    requires p != []
    ensures Viable(p) <==>
              || (exists x :: x != [] && Shaped(p + x))
              || (|p| == 2 && p[0] == 64 && SomeDigit(p[1]))
  {
    hide WellShaped, Shaped, SomeDigit;
    forall x ensures WellShaped(p + x) <==> Shaped(p + x) {
      ShapeExactly(p + x);
    }
    if Viable(p) {
      if |p| == 1 {
        ShortestFrame(p);
      } else if |p| == 2 {
        SomeDigitIsHex(p[1]);
      } else {
        Completion(p);
      }
    }
    if x :| x != [] && WellShaped(p + x) {
      BeginningViable(p, x);
    }
    if |p| == 2 {
      SomeDigitIsHex(p[1]);
    }
  }
}
