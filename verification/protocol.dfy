/** `protocol.c`: messages in fixed-size structures, the encoder, the body decoder and the whole-frame
    validator, proved against the functions of `Codec`. A read-only C buffer is a `seq<byte>`, a
    buffer that is written is an array. */
module Protocol {
  import opened Bytes
  import opened Codec

  // The structure protocol_message_t. Bytes beyond the terminator are whatever was there before.
  class MessageRecord {
    var kind: Kind
    const payload: array<byte>
    var payloadLength: byte

    ghost predicate Valid()
      reads this
    {
      payload.Length == MAX_PAYLOAD + 1
    }

    // The structure holds message m, terminated.
    ghost predicate Holds(m: Message)
      reads this, payload
    {
      && Valid()
      && kind == m.kind
      && payloadLength == |m.payload| <= MAX_PAYLOAD
      && payload[..payloadLength] == m.payload
      && payload[payloadLength] == NUL
    }

    constructor ()
      ensures Valid() && fresh(payload)
      ensures Holds(Message(Invalid, []))
    {
      kind := Invalid;
      payload := new byte[MAX_PAYLOAD + 1](_ => NUL);
      payloadLength := 0;
    }

    // Receiving m from a queue into the structure.
    method Load(m: Message)
      requires Valid() && |m.payload| <= MAX_PAYLOAD
      modifies this, payload
      ensures Holds(m)
    {
      kind := m.kind;
      payloadLength := |m.payload|;
      forall i | 0 <= i < |m.payload| {
        payload[i] := m.payload[i];
      }
      payload[|m.payload|] := NUL;
    }

    // The message in the structure, as a queue copies it.
    function Contents(): (m: Message)
      requires payloadLength <= payload.Length
      reads this, payload
      ensures forall held :: Holds(held) ==> m == held
    {
      Message(kind, payload[..payloadLength])
    }
  }

  // A structure that a failed operation leaves as it was.
  twostate predicate Untouched(message: MessageRecord)
    reads message, message.payload
  {
    unchanged(message) && unchanged(message.payload)
  }

  // snprintf of an already formatted text: at most size - 1 bytes and a terminator; returns the full length.
  method Snprintf(dst: array<byte>, at: nat, size: nat, text: seq<byte>) returns (written: nat)
    requires 0 < size && at + size <= dst.Length
    modifies dst
    ensures written == |text|
    ensures var k := if |text| < size then |text| else size - 1;
            dst[..] == old(dst[..at]) + text[..k] + [NUL] + old(dst[at + k + 1..])
  {
    var k := if |text| < size then |text| else size - 1;
    forall i | 0 <= i < k {
      dst[at + i] := text[i];
    }
    dst[at + k] := NUL;
    written := |text|;
  }

  method ComputeChecksum(data: seq<byte>, length: nat) returns (checksum: byte)
    requires length <= |data|
    ensures checksum == Checksum(data[..length])
  {
    checksum := 0;
    for i := 0 to length
      invariant checksum == Checksum(data[..i])
    {
      assert data[..i + 1][..i] == data[..i];
      checksum := Xor(checksum, data[i]);
    }
  }

  method MessageSet(message: MessageRecord, kind: Kind, text: seq<byte>) returns (ok: bool)
    requires message.Valid() && NUL in text
    modifies message, message.payload
    ensures ok <==> Encodable(Message(kind, CString(text)))
    ensures ok ==> message.Holds(Message(kind, CString(text)))
    ensures !ok ==> Untouched(message)
  {
    if TypeText(kind)[0] == 73 {  // 'I'
      return false;
    }
    var length := |CString(text)|;
    if length > MAX_PAYLOAD {
      return false;
    }
    CStringIsPrefix(text);
    message.kind := kind;
    message.payloadLength := length;
    forall i | 0 <= i <= length {
      message.payload[i] := text[i];
    }
    return true;
  }

  lemma ChecksumInputLayout(m: Message)
    requires Encodable(m)
    ensures var n := |Body(m)|;
            && |ChecksumInput(m)| == n + 3
            && ChecksumInput(m) == [HexDigit(n / 16), HexDigit(n), SEPARATOR] + Body(m)
    ensures NUL !in m.payload ==> NUL !in ChecksumInput(m)
  {
    HexRoundTrip(|Body(m)|);
  }

  lemma FrameText(m: Message)
    requires Encodable(m)
    ensures |ChecksumInput(m)| == |m.payload| + 7 && |Frame(m)| == |m.payload| + 12
    ensures Frame(m) == [START] + ChecksumInput(m) + [SEPARATOR] + Hex2(Checksum(ChecksumInput(m))) + [END]
  {
  }

  method EncodeFrame(message: MessageRecord, frame: array<byte>, frameSize: nat)
    returns (ok: bool, frameLength: nat)
    requires message.Valid() && NUL in message.payload[..]
    requires frameSize <= frame.Length && frame != message.payload
    modifies frame
    ensures ok <==> var text := CString(message.payload[..]);
                    message.kind != Invalid && |text| == message.payloadLength && frameSize > |text| + 12
    ensures ok ==> var m := Message(message.kind, CString(message.payload[..]));
                   && Encodable(m) && frameLength == |Frame(m)| == |m.payload| + 12 < frame.Length
                   && frame[..] == Frame(m) + [NUL] + old(frame[frameLength + 1..])
    ensures !ok ==> unchanged(frame)
  {
    hide Frame, ChecksumInput, Checksum, CString, Hex2;
    var typeText := TypeText(message.kind);
    if typeText[0] == 73 {  // 'I'
      return false, 0;
    }
    var text := CString(message.payload[..]);
    CStringIsPrefix(message.payload[..]);
    var bodyLength := TYPE_LENGTH + 1 + |text|;
    if |text| > MAX_PAYLOAD || |text| != message.payloadLength || bodyLength > MAX_BODY {
      return false, 0;
    }
    var m := Message(message.kind, text);
    FrameText(m);
    var checksumInput, checksumInputLength := BuildChecksumInput(m, bodyLength);
    var checksum := ComputeChecksum(checksumInput[..], checksumInputLength);
    var requiredLength := 1 + checksumInputLength + 1 + 2 + 1;
    if frameSize <= requiredLength {
      return false, 0;
    }
    assert CString(checksumInput[..]) == ChecksumInput(m) by {
      CStringStops(ChecksumInput(m), checksumInput[checksumInputLength + 1..]);
      assert checksumInput[..] == ChecksumInput(m) + [NUL] + checksumInput[checksumInputLength + 1..];
    }
    var frameText := [START] + CString(checksumInput[..]) + [SEPARATOR] + Hex2(checksum) + [END];
    var written := Snprintf(frame, 0, frameSize, frameText);
    assert frame[..] == Frame(m) + [NUL] + old(frame[requiredLength + 1..]);
    return true, requiredLength;
  }

  // The part of protocol_encode_frame that fills its local buffer with "LL:TTT:PAYLOAD".
  method BuildChecksumInput(m: Message, bodyLength: byte) returns (checksumInput: array<byte>, length: nat)
    requires Encodable(m) && NUL !in m.payload && bodyLength == |Body(m)|
    ensures fresh(checksumInput) && length == |ChecksumInput(m)| < checksumInput.Length
    ensures NUL !in ChecksumInput(m)
    ensures checksumInput[..length] == ChecksumInput(m) && checksumInput[length] == NUL
  {
    checksumInput := new byte[3 + 1 + MAX_BODY + 1];
    length := 2 + 1 + bodyLength;
    ChecksumInputLayout(m);
    checksumInput[0] := HexDigit(bodyLength / 16);
    checksumInput[1] := HexDigit(bodyLength);
    checksumInput[2] := SEPARATOR;
    assert checksumInput[..3] == [HexDigit(bodyLength / 16), HexDigit(bodyLength), SEPARATOR];
    var written := Snprintf(checksumInput, 3, checksumInput.Length - 3, TypeText(m.kind) + [SEPARATOR] + m.payload);
  }

  method DecodeBodyInto(body: seq<byte>, bodyLength: byte, message: MessageRecord) returns (ok: bool)
    requires bodyLength <= |body| && message.Valid()
    modifies message, message.payload
    ensures ok <==> DecodeBody(body[..bodyLength]).Some?
    ensures ok ==> message.Holds(DecodeBody(body[..bodyLength]).value)
    ensures !ok ==> Untouched(message)
  {
    if bodyLength < TYPE_LENGTH + 1 || bodyLength > MAX_BODY {
      return false;
    }
    if body[TYPE_LENGTH] != SEPARATOR {
      return false;
    }
    var typeText := body[..TYPE_LENGTH];
    assert body[..bodyLength][..TYPE_LENGTH] == typeText;
    var kind := TypeFromText(typeText);
    if kind == Invalid {
      return false;
    }
    var payloadLength := bodyLength - TYPE_LENGTH - 1;
    message.kind := kind;
    message.payloadLength := payloadLength;
    forall i | 0 <= i < payloadLength {
      message.payload[i] := body[TYPE_LENGTH + 1 + i];
    }
    message.payload[payloadLength] := NUL;
    assert message.payload[..payloadLength] == body[..bodyLength][TYPE_LENGTH + 1..];
    return true;
  }

  method ValidateFrame(frame: seq<byte>, message: MessageRecord) returns (ok: bool)
    requires NUL in frame && message.Valid()
    modifies message, message.payload
    ensures ok <==> FrameMessage(CString(frame)).Some?
    ensures ok ==> message.Holds(FrameMessage(CString(frame)).value)
    ensures !ok ==> Untouched(message)
  {
    hide CString, Checksum, DecodeBody;
    ghost var f := CString(frame);
    CStringIsPrefix(frame);
    var frameLength := |CString(frame)|;
    if frameLength < 12 {
      return false;
    }
    if frame[0] != START || frame[3] != SEPARATOR || frame[frameLength - 1] != END {
      return false;
    }
    if HexValue(frame[1]) < 0 || HexValue(frame[2]) < 0 {
      return false;
    }
    var expectedBodyLength := HexByte(frame[1], frame[2]);
    if expectedBodyLength < TYPE_LENGTH + 1 || expectedBodyLength > MAX_BODY {
      return false;
    }
    var bodyStart := 4;
    var checksumSeparator := bodyStart + expectedBodyLength;
    if frameLength != 1 + 2 + 1 + expectedBodyLength + 1 + 2 + 1 {
      return false;
    }
    if frame[checksumSeparator] != SEPARATOR {
      return false;
    }
    if HexValue(frame[checksumSeparator + 1]) < 0 || HexValue(frame[checksumSeparator + 2]) < 0 {
      return false;
    }
    var received := HexByte(frame[checksumSeparator + 1], frame[checksumSeparator + 2]);
    var computed := ComputeChecksum(frame[1..], 2 + 1 + expectedBodyLength);
    assert frame[1..][..3 + expectedBodyLength] == f[1..checksumSeparator];
    assert WellShaped(f);
    if computed != received {
      return false;
    }
    assert frame[bodyStart..][..expectedBodyLength] == f[4..checksumSeparator];
    ok := DecodeBodyInto(frame[bodyStart..], expectedBodyLength, message);
  }
}
