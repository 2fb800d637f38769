/** The frame format `@LL:TTT:PAYLOAD:CC\n` on byte sequences: what the encoder writes and
    what the validator accepts, as functions. `protocol.dfy` proves the C code against them. */
module Codec {
  import opened Bytes

  const TYPE_LENGTH := 3
  const MAX_PAYLOAD := 48
  const MAX_BODY := 52
  const MIN_FRAME := 12
  const MAX_FRAME := 60

  datatype Kind = Cmd | Dat | Evt | Sts | Ack | Err | Invalid

  // A message: its type and the bytes of its payload (which may include NUL on the receiving side).
  datatype Message = Message(kind: Kind, payload: seq<byte>)

  // ---------- Hexadecimal digits and type names ----------

  // The value of a hexadecimal digit of either case, or -1.
  function HexValue(c: byte): int {
    if 48 <= c <= 57 then c - 48          // '0'..'9'
    else if 65 <= c <= 70 then c - 55     // 'A'..'F'
    else if 97 <= c <= 102 then c - 87    // 'a'..'f'
    else -1
  }

  predicate IsHex(c: byte) {
    HexValue(c) >= 0
  }

  predicate IsUpperHex(c: byte) {
    48 <= c <= 57 || 65 <= c <= 70
  }

  // The upper-case digit of the low four bits.
  function HexDigit(value: byte): byte {
    if value % 16 < 10 then 48 + value % 16 else 55 + value % 16
  }

  function HexByte(hi: byte, lo: byte): byte
    requires IsHex(hi) && IsHex(lo)
  {
    16 * HexValue(hi) + HexValue(lo)
  }

  function Hex2(value: byte): seq<byte> {
    [HexDigit(value / 16), HexDigit(value)]
  }

  function TypeText(kind: Kind): seq<byte> {
    match kind
    case Cmd => Ascii("CMD")
    case Dat => Ascii("DAT")
    case Evt => Ascii("EVT")
    case Sts => Ascii("STS")
    case Ack => Ascii("ACK")
    case Err => Ascii("ERR")
    case Invalid => Ascii("INV")
  }

  function TypeFromText(text: seq<byte>): Kind {
    if text == TypeText(Cmd) then Cmd
    else if text == TypeText(Dat) then Dat
    else if text == TypeText(Evt) then Evt
    else if text == TypeText(Sts) then Sts
    else if text == TypeText(Ack) then Ack
    else if text == TypeText(Err) then Err
    else Invalid
  }

  // ---------- Checksum ----------

  function Checksum(data: seq<byte>): byte {
    if data == [] then 0 else Xor(Checksum(data[..|data| - 1]), data[|data| - 1])
  }

  lemma ChecksumSnoc(s: seq<byte>, b: byte)
    ensures Checksum(s + [b]) == Xor(Checksum(s), b)
  {
    hide Xor;
    assert (s + [b])[..|s|] == s;
  }

  lemma {:induction false} ChecksumConcat(a: seq<byte>, b: seq<byte>)
    ensures Checksum(a + b) == Xor(Checksum(a), Checksum(b))
  {
    if b == [] {
      assert a + b == a;
      XorZero(Checksum(a));
    } else {
      var front, last := b[..|b| - 1], b[|b| - 1];
      assert (a + b)[..|a + b| - 1] == a + front;
      ChecksumConcat(a, front);
      XorAssociative(Checksum(a), Checksum(front), last);
    }
  }

  // XOR notices every change of a single byte.
  lemma ChecksumDetectsChange(data: seq<byte>, i: nat, b: byte)
    requires i < |data| && b != data[i]
    ensures Checksum(data[i := b]) != Checksum(data)
  {
    var left, right := data[..i], data[i + 1..];
    assert data == (left + [data[i]]) + right;
    assert data[i := b] == (left + [b]) + right;
    ChecksumConcat(left + [data[i]], right);
    ChecksumConcat(left + [b], right);
    assert (left + [data[i]])[..i] == left && (left + [b])[..i] == left;
    if Checksum(data[i := b]) == Checksum(data) {
      XorCancelsRight(Checksum(left + [b]), Checksum(left + [data[i]]), Checksum(right));
      XorCancels(Checksum(left), b, data[i]);
    }
  }

  // ---------- Encoding ----------

  // The messages that have a frame.
  predicate Encodable(m: Message) {
    m.kind != Invalid && |m.payload| <= MAX_PAYLOAD
  }

  function Body(m: Message): seq<byte> {
    TypeText(m.kind) + [SEPARATOR] + m.payload
  }

  // "LL:TTT:PAYLOAD", the text the checksum covers.
  function ChecksumInput(m: Message): seq<byte>
    requires Encodable(m)
  {
    Hex2(|Body(m)|) + [SEPARATOR] + Body(m)
  }

  function Frame(m: Message): seq<byte>
    requires Encodable(m)
  {
    [START] + ChecksumInput(m) + [SEPARATOR] + Hex2(Checksum(ChecksumInput(m))) + [END]
  }

  // ---------- Decoding ----------

  function DecodeBody(body: seq<byte>): Option<Message> {
    if TYPE_LENGTH + 1 <= |body| <= MAX_BODY && body[TYPE_LENGTH] == SEPARATOR
       && TypeFromText(body[..TYPE_LENGTH]) != Invalid
    then Some(Message(TypeFromText(body[..TYPE_LENGTH]), body[TYPE_LENGTH + 1..]))
    else None
  }

  // The length that the two LL digits of a frame announce for its body.
  function BodyLength(frame: seq<byte>): byte
    requires |frame| > 2 && IsHex(frame[1]) && IsHex(frame[2])
  {
    HexByte(frame[1], frame[2])
  }

  predicate LengthFieldOk(frame: seq<byte>) {
    && |frame| > 2
    && IsHex(frame[1])
    && IsHex(frame[2])
    && TYPE_LENGTH + 1 <= BodyLength(frame) <= MAX_BODY
  }

  // Delimiters in place and digits where digits belong; checksum and body not yet looked at.
  predicate WellShaped(frame: seq<byte>) {
    && LengthFieldOk(frame)
    && var n := BodyLength(frame);
       && |frame| == n + 8
       && frame[0] == START
       && frame[3] == SEPARATOR
       && frame[n + 4] == SEPARATOR
       && IsHex(frame[n + 5])
       && IsHex(frame[n + 6])
       && frame[n + 7] == END
  }

  predicate ChecksumMatches(frame: seq<byte>)
    requires WellShaped(frame)
  {
    var n := BodyLength(frame);
    Checksum(frame[1..n + 4]) == HexByte(frame[n + 5], frame[n + 6])
  }

  // The message of a complete frame, or None when the frame is to be rejected.
  function FrameMessage(frame: seq<byte>): Option<Message> {
    if WellShaped(frame) && ChecksumMatches(frame)
    then DecodeBody(frame[4..BodyLength(frame) + 4])
    else None
  }

  // ---------- Round trips ----------

  lemma HexRoundTrip(value: byte)
    ensures IsHex(HexDigit(value)) && IsUpperHex(HexDigit(value))
    ensures IsHex(HexDigit(value / 16)) && IsUpperHex(HexDigit(value / 16))
    ensures HexByte(HexDigit(value / 16), HexDigit(value)) == value
  {
  }

  lemma TypeTextRoundTrip(kind: Kind)
    requires kind != Invalid
    ensures TypeFromText(TypeText(kind)) == kind
  {
    assert TypeText(Cmd)[0] == 67 && TypeText(Dat)[0] == 68 && TypeText(Sts)[0] == 83 && TypeText(Ack)[0] == 65;
    assert TypeText(Evt)[..2] == [69, 86] && TypeText(Err)[..2] == [69, 82];
  }

  // Where the parts of an encoded frame are.
  lemma FrameLayout(m: Message)
    requires Encodable(m)
    ensures var f, n := Frame(m), |Body(m)|;
            && n == |m.payload| + 4 && |f| == n + 8
            && f[0] == START && f[1] == HexDigit(n / 16) && f[2] == HexDigit(n) && f[3] == SEPARATOR
            && f[1..n + 4] == ChecksumInput(m) && f[4..n + 4] == Body(m)
            && f[n + 4] == SEPARATOR && f[n + 5] == HexDigit(Checksum(ChecksumInput(m)) / 16)
            && f[n + 6] == HexDigit(Checksum(ChecksumInput(m))) && f[n + 7] == END
    ensures WellShaped(Frame(m)) && BodyLength(Frame(m)) == |Body(m)|
  {
    hide Checksum, TypeFromText;
    HexRoundTrip(|Body(m)|);
    HexRoundTrip(Checksum(ChecksumInput(m)));
    assert ChecksumInput(m)[3..] == Body(m);
  }

  lemma FrameBegins(m: Message)
    requires Encodable(m)
    ensures |Frame(m)| == |m.payload| + 12 && Frame(m)[0] == START && IsUpperHex(Frame(m)[1])
  {
    FrameLayout(m);
    HexRoundTrip(|Body(m)|);
  }

  // What the bytes of an encoded frame can be.
  lemma FrameByte(m: Message, j: nat)
    requires Encodable(m) && j < |Frame(m)|
    ensures |Frame(m)| == |m.payload| + 12
    ensures j == 0 ==> Frame(m)[j] == START
    ensures j == |Frame(m)| - 1 ==> Frame(m)[j] == END
    ensures 0 < j < |Frame(m)| - 1 ==>
              IsUpperHex(Frame(m)[j]) || Frame(m)[j] == SEPARATOR || 65 <= Frame(m)[j] <= 90 || Frame(m)[j] in m.payload
  {
    FrameLayout(m);
    var f, n := Frame(m), |Body(m)|;
    HexRoundTrip(n);
    HexRoundTrip(Checksum(ChecksumInput(m)));
    hide Frame, Checksum, WellShaped, HexDigit;
    if 4 <= j < n + 4 {
      assert f[j] == f[4..n + 4][j - 4] == Body(m)[j - 4];
      BodyByte(m, j - 4);
    }
  }

  lemma BodyByte(m: Message, k: nat)
    requires Encodable(m) && k < |Body(m)|
    ensures 65 <= Body(m)[k] <= 90 || Body(m)[k] == SEPARATOR || Body(m)[k] in m.payload
  {
    if k >= 4 {
      assert Body(m)[k] == m.payload[k - 4];
    }
  }

  lemma BodyRoundTrip(m: Message)
    requires Encodable(m)
    ensures DecodeBody(Body(m)) == Some(m)
  {
    TypeTextRoundTrip(m.kind);
    assert Body(m)[..TYPE_LENGTH] == TypeText(m.kind);
    assert Body(m)[TYPE_LENGTH + 1..] == m.payload;
  }

  // Decoding undoes encoding.
  lemma RoundTrip(m: Message)
    requires Encodable(m)
    ensures FrameMessage(Frame(m)) == Some(m)
  {
    FrameLayout(m);
    HexRoundTrip(Checksum(ChecksumInput(m)));
    BodyRoundTrip(m);
  }

  lemma FrameInjective(m1: Message, m2: Message)
    requires Encodable(m1) && Encodable(m2)
    ensures Frame(m1) == Frame(m2) ==> m1 == m2
  {
    hide Frame, FrameMessage;
    RoundTrip(m1);
    RoundTrip(m2);
  }

  lemma TypeFromTextInverse(text: seq<byte>)
    requires TypeFromText(text) != Invalid
    ensures TypeText(TypeFromText(text)) == text
  {
  }

  // Every accepted byte string carries an encodable message of the announced length.
  lemma AcceptedIsEncodable(f: seq<byte>)
    requires FrameMessage(f).Some?
    ensures Encodable(FrameMessage(f).value)
    ensures Body(FrameMessage(f).value) == f[4..BodyLength(f) + 4]
    ensures |f| == |FrameMessage(f).value.payload| + 12
    ensures MIN_FRAME <= |f| <= MAX_FRAME
  {
    var body := f[4..BodyLength(f) + 4];
    TypeFromTextInverse(body[..TYPE_LENGTH]);
    assert body == body[..TYPE_LENGTH] + [SEPARATOR] + body[TYPE_LENGTH + 1..];
  }

  // Encoding and validating again gives the same message, however the digits were written.
  lemma ReencodeValidates(f: seq<byte>)
    requires FrameMessage(f).Some?
    ensures Encodable(FrameMessage(f).value)
    ensures FrameMessage(Frame(FrameMessage(f).value)) == FrameMessage(f)
  {
    AcceptedIsEncodable(f);
    RoundTrip(FrameMessage(f).value);
  }

  // The four hexadecimal digits of the frame are the ones the encoder would have written.
  predicate UpperCase(f: seq<byte>)
    requires WellShaped(f)
  {
    var n := BodyLength(f);
    IsUpperHex(f[1]) && IsUpperHex(f[2]) && IsUpperHex(f[n + 5]) && IsUpperHex(f[n + 6])
  }

  lemma UpperHexCanonical(hi: byte, lo: byte)
    requires IsUpperHex(hi) && IsUpperHex(lo)
    ensures IsHex(hi) && IsHex(lo)
    ensures Hex2(HexByte(hi, lo)) == [hi, lo]
  {
    var v := HexByte(hi, lo);
    assert v / 16 == HexValue(hi) && v % 16 == HexValue(lo);
  }

  lemma CoveredTextIsInput(f: seq<byte>, m: Message)
    requires FrameMessage(f) == Some(m) && UpperCase(f) && Encodable(m)
    ensures ChecksumInput(m) == f[1..BodyLength(f) + 4]
  {
    var n := BodyLength(f);
    AcceptedIsEncodable(f);
    UpperHexCanonical(f[1], f[2]);
    assert f[1..n + 4] == [f[1], f[2]] + [f[3]] + f[4..n + 4];
  }

  lemma ThreeParts(f: seq<byte>, k: nat)
    requires 1 <= k <= |f|
    ensures f == [f[0]] + f[1..k] + f[k..]
  {
  }

  // The trailer the encoder writes is the one that was accepted.
  lemma TrailerIsReproduced(f: seq<byte>, m: Message)
    requires FrameMessage(f) == Some(m) && UpperCase(f) && Encodable(m)
    ensures var n := BodyLength(f); f[n + 4..] == [SEPARATOR] + Hex2(Checksum(ChecksumInput(m))) + [END]
  {
    var n := BodyLength(f);
    CoveredTextIsInput(f, m);
    UpperHexCanonical(f[n + 5], f[n + 6]);
    hide Checksum, Hex2, ChecksumInput;
    assert f[n + 4..] == [f[n + 4]] + [f[n + 5], f[n + 6]] + [f[n + 7]];
  }

  lemma UpperCaseIsReproduced(f: seq<byte>, m: Message)
    requires FrameMessage(f) == Some(m) && UpperCase(f) && Encodable(m)
    ensures Frame(m) == f
  {
    var n := BodyLength(f);
    CoveredTextIsInput(f, m);
    TrailerIsReproduced(f, m);
    ThreeParts(f, n + 4);
    hide Checksum, Hex2, ChecksumInput, DecodeBody, UpperCase, FrameMessage;
    var digits := Hex2(Checksum(ChecksumInput(m)));
    ConcatAssociative([START] + ChecksumInput(m), [SEPARATOR] + digits, [END]);
    ConcatAssociative([START] + ChecksumInput(m), [SEPARATOR], digits);
  }

  // An accepted frame is reproduced byte for byte by the encoder exactly when its digits are upper case.
  lemma CanonicalReverse(f: seq<byte>)
    requires FrameMessage(f).Some?
    ensures Encodable(FrameMessage(f).value)
    ensures Frame(FrameMessage(f).value) == f <==> UpperCase(f)
  {
    AcceptedIsEncodable(f);
    var m := FrameMessage(f).value;
    if UpperCase(f) {
      UpperCaseIsReproduced(f, m);
    } else {
      FrameLayout(m);
      HexRoundTrip(|Body(m)|);
      HexRoundTrip(Checksum(ChecksumInput(m)));
    }
  }
}
