/** `parser.c`: the nine-state parser over its fixed buffers, proved to implement `Stream`. */
module ByteParser {
  import opened Bytes
  import opened Codec
  import opened Stream
  import opened Protocol

  datatype State = WaitStart | ReadLenHi | ReadLenLo | ExpectLenSeparator | ReadBody
                 | ExpectCheckSeparator | ReadCheckHi | ReadCheckLo | ExpectEnd

  datatype Result = ParserInProgress | MessageReady | ParserError

  // ---------- What each state waits for, in terms of the partial frame ----------

  lemma ExpectedInHeader(p: seq<byte>, b: byte)
    requires Viable(p) && |p| <= 3
    ensures |p| == 1 ==> (Viable(p + [b]) <==> IsHex(b))
    ensures |p| == 2 ==> (Viable(p + [b]) <==> IsHex(b) && TYPE_LENGTH + 1 <= HexByte(p[1], b) <= MAX_BODY)
    ensures |p| == 3 ==> (Viable(p + [b]) <==> b == SEPARATOR)
    ensures !WellShaped(p + [b])
  {
  }

  lemma ExpectedAfterHeader(p: seq<byte>, b: byte)
    requires Viable(p) && |p| >= 4
    ensures var n := BodyLength(p);
            && (|p| < n + 4 ==> Viable(p + [b]))
            && (|p| == n + 4 ==> (Viable(p + [b]) <==> b == SEPARATOR))
            && (n + 5 <= |p| <= n + 6 ==> (Viable(p + [b]) <==> IsHex(b)))
            && (|p| == n + 7 ==> !Viable(p + [b]))
            && (WellShaped(p + [b]) <==> |p| == n + 7 && b == END)
  {
    var q, n := p + [b], BodyLength(p);
    assert q[0] == p[0] && q[1] == p[1] && q[2] == p[2] && q[3] == p[3];
  }

  // The rule of parser_error, and the bytes that do not trigger it.
  lemma StepOf(p: seq<byte>, b: byte)
    requires Viable(p) && b != CR
    ensures Viable(p + [b]) ==> Emit(p, b) == InProgress && Next(p, b) == p + [b]
    ensures !Viable(p + [b]) && !WellShaped(p + [b]) ==>
              Emit(p, b) == Error && Next(p, b) == if b == START then [START] else []
  {
  }

  // The last byte: checksum and body decide.
  lemma StepAtEnd(p: seq<byte>)
    requires Viable(p) && |p| >= 4 && |p| == BodyLength(p) + 7
    ensures var n := BodyLength(p);
            var accepted :=
              if Checksum(p[1..n + 4]) == HexByte(p[n + 5], p[n + 6]) then DecodeBody(p[4..n + 4]) else None;
            && Next(p, END) == []
            && Emit(p, END) == if accepted.Some? then Ready(accepted.value) else Error
  {
    hide Checksum, DecodeBody;
    var n := BodyLength(p);
    var q := p + [END];
    ExpectedAfterHeader(p, END);
    assert q[1] == p[1] && q[2] == p[2] && q[n + 5] == p[n + 5] && q[n + 6] == p[n + 6];
    assert q[1..n + 4] == p[1..n + 4] && q[4..n + 4] == p[4..n + 4];
  }

  // The verdict that a result code and a message structure stand for.
  ghost predicate Reports(result: Result, message: MessageRecord, v: Verdict)
    reads message, message.payload
  {
    match v
    case InProgress => result == ParserInProgress
    case Error => result == ParserError
    case Ready(m) => result == MessageReady && message.Holds(m)
  }

  // A result code without a message.
  ghost predicate Agrees(result: Result, v: Verdict) {
    (v == InProgress && result == ParserInProgress) || (v == Error && result == ParserError)
  }

  class Parser {
    var state: State
    const lengthField: array<byte>
    const body: array<byte>
    const checksumField: array<byte>
    var expectedBodyLength: byte
    var bodyIndex: byte
    ghost var history: seq<byte>  // every byte consumed so far

    // The live part of the buffers: the partial frame received so far.
    ghost function Pending(): seq<byte>
      requires Buffers() && Consistent()
      reads this, lengthField, body, checksumField
    {
      match state
      case WaitStart => []
      case ReadLenHi => [START]
      case ReadLenLo => [START, lengthField[0]]
      case ExpectLenSeparator => [START, lengthField[0], lengthField[1]]
      case ReadBody => Header() + body[..bodyIndex]
      case ExpectCheckSeparator => Header() + body[..bodyIndex]
      case ReadCheckHi => Header() + body[..bodyIndex] + [SEPARATOR]
      case ReadCheckLo => Header() + body[..bodyIndex] + [SEPARATOR, checksumField[0]]
      case ExpectEnd => Header() + body[..bodyIndex] + [SEPARATOR, checksumField[0], checksumField[1]]
    }

    ghost function Header(): seq<byte>
      requires Buffers()
      reads this, lengthField
    {
      [START, lengthField[0], lengthField[1], SEPARATOR]
    }

    ghost predicate Buffers() {
      && lengthField.Length == 3 && body.Length == MAX_BODY + 1 && checksumField.Length == 3
      && lengthField != checksumField
    }

    ghost predicate LengthKnown()
      requires Buffers()
      reads this, lengthField
    {
      && IsHex(lengthField[0]) && IsHex(lengthField[1])
      && expectedBodyLength == HexByte(lengthField[0], lengthField[1])
      && TYPE_LENGTH + 1 <= expectedBodyLength <= MAX_BODY
    }

    ghost predicate Consistent()
      requires Buffers()
      reads this, lengthField, checksumField
    {
      && (state == ReadLenLo ==> IsHex(lengthField[0]))
      && (state !in {WaitStart, ReadLenHi, ReadLenLo} ==> LengthKnown())
      && (state == ReadBody ==> bodyIndex < expectedBodyLength)
      && (state in {ExpectCheckSeparator, ReadCheckHi, ReadCheckLo, ExpectEnd} ==> bodyIndex == expectedBodyLength)
      && (state in {ReadCheckLo, ExpectEnd} ==> IsHex(checksumField[0]))
      && (state == ExpectEnd ==> IsHex(checksumField[1]))
    }

    // The buffers hold what the specification holds after the bytes consumed so far.
    ghost predicate Valid()
      reads this, lengthField, body, checksumField
    {
      Buffers() && Consistent() && Pending() == Run([], history)
    }

    lemma PendingIsPartial()
      requires Buffers() && Consistent()
      ensures Partial(Pending())
      ensures state == WaitStart <==> Pending() == []
    {
    }

    constructor ()
      ensures Valid() && history == [] && Pending() == []
      ensures fresh(lengthField) && fresh(body) && fresh(checksumField)
    {
      lengthField := new byte[3](_ => NUL);
      body := new byte[MAX_BODY + 1](_ => NUL);
      checksumField := new byte[3](_ => NUL);
      state := WaitStart;
      expectedBodyLength := 0;
      bodyIndex := 0;
      history := [];
    }

    // parser_reset: only the first byte of the body buffer is cleared.
    method Reset()
      requires Buffers()
      modifies this`state, this`expectedBodyLength, this`bodyIndex, lengthField, body, checksumField
      ensures state == WaitStart && Consistent() && Pending() == []
    {
      state := WaitStart;
      lengthField[0] := NUL;
      lengthField[1] := NUL;
      lengthField[2] := NUL;
      checksumField[0] := NUL;
      checksumField[1] := NUL;
      checksumField[2] := NUL;
      body[0] := NUL;
      expectedBodyLength := 0;
      bodyIndex := 0;
    }

    // parser_error
    method Fail(b: byte) returns (result: Result)
      requires Buffers()
      modifies this`state, this`expectedBodyLength, this`bodyIndex, lengthField, body, checksumField
      ensures Consistent() && Pending() == if b == START then [START] else []
      ensures result == ParserError
    {
      Reset();
      if b == START {
        state := ReadLenHi;
      }
      return ParserError;
    }

    // parser_checksum_matches
    method ChecksumMatches() returns (matches: bool)
      requires Buffers() && Consistent() && state == ExpectEnd
      ensures matches <==> Checksum([lengthField[0], lengthField[1], SEPARATOR] + body[..expectedBodyLength])
                           == HexByte(checksumField[0], checksumField[1])
    {
      hide Xor, Checksum, HexByte;
      var expected := HexByte(checksumField[0], checksumField[1]);
      ghost var header := [lengthField[0], lengthField[1], SEPARATOR];
      var computed: byte := 0;
      computed := Xor(computed, lengthField[0]);
      computed := Xor(computed, lengthField[1]);
      computed := Xor(computed, SEPARATOR);
      ThreeByteChecksum(header);
      assert header + body[..0] == header;
      for i := 0 to expectedBodyLength
        invariant computed == Checksum(header + body[..i])
      {
        ChecksumSnoc(header + body[..i], body[i]);
        assert header + body[..i] + [body[i]] == header + body[..i + 1];
        computed := Xor(computed, body[i]);
      }
      matches := computed == expected;
    }

    // The arms of parser_consume_byte for the two length digits and the separator behind them.
    method ConsumeHeader(b: byte) returns (result: Result)
      requires Buffers() && Consistent() && b != CR
      requires state in {ReadLenHi, ReadLenLo, ExpectLenSeparator}
      modifies this`state, this`expectedBodyLength, this`bodyIndex, lengthField, body, checksumField
      ensures Consistent() && Pending() == Next(old(Pending()), b)
      ensures Agrees(result, Emit(old(Pending()), b))
    {
      ghost var p := Pending();
      PendingIsPartial();
      ExpectedInHeader(p, b);
      StepOf(p, b);
      hide Next, Emit, Viable, WellShaped;
      if state == ReadLenHi {
        if HexValue(b) < 0 {
          result := Fail(b);
          return;
        }
        lengthField[0] := b;
        state := ReadLenLo;
      } else if state == ReadLenLo {
        if HexValue(b) < 0 {
          result := Fail(b);
          return;
        }
        lengthField[1] := b;
        lengthField[2] := NUL;
        expectedBodyLength := HexByte(lengthField[0], lengthField[1]);
        if expectedBodyLength < TYPE_LENGTH + 1 || expectedBodyLength > MAX_BODY {
          result := Fail(b);
          return;
        }
        state := ExpectLenSeparator;
      } else {
        if b != SEPARATOR {
          result := Fail(b);
          return;
        }
        bodyIndex := 0;
        state := ReadBody;
      }
      assert Pending() == p + [b];
      return ParserInProgress;
    }

    // The arm for the body: every byte is stored.
    method ConsumeBody(b: byte) returns (result: Result)
      requires Buffers() && Consistent() && b != CR && state == ReadBody
      modifies this`state, this`bodyIndex, body
      ensures Consistent() && Pending() == Next(old(Pending()), b)
      ensures Agrees(result, Emit(old(Pending()), b))
    {
      ghost var p := Pending();
      PendingIsPartial();
      ExpectedAfterHeader(p, b);
      StepOf(p, b);
      hide Next, Emit, Viable, WellShaped;
      body[bodyIndex] := b;
      bodyIndex := bodyIndex + 1;
      assert body[..bodyIndex] == old(body[..bodyIndex]) + [b];
      if bodyIndex >= expectedBodyLength {
        body[bodyIndex] := NUL;
        assert body[..bodyIndex] == old(body[..bodyIndex]) + [b];
        state := ExpectCheckSeparator;
      }
      assert Pending() == p + [b];
      return ParserInProgress;
    }

    // The arms for the separator behind the body and the two checksum digits.
    method ConsumeChecksum(b: byte) returns (result: Result)
      requires Buffers() && Consistent() && b != CR
      requires state in {ExpectCheckSeparator, ReadCheckHi, ReadCheckLo}
      modifies this`state, this`expectedBodyLength, this`bodyIndex, lengthField, body, checksumField
      ensures Consistent() && Pending() == Next(old(Pending()), b)
      ensures Agrees(result, Emit(old(Pending()), b))
    {
      ghost var p := Pending();
      PendingIsPartial();
      ExpectedAfterHeader(p, b);
      StepOf(p, b);
      hide Next, Emit, Viable, WellShaped;
      if state == ExpectCheckSeparator {
        if b != SEPARATOR {
          result := Fail(b);
          return;
        }
        state := ReadCheckHi;
      } else if state == ReadCheckHi {
        if HexValue(b) < 0 {
          result := Fail(b);
          return;
        }
        checksumField[0] := b;
        state := ReadCheckLo;
      } else {
        if HexValue(b) < 0 {
          result := Fail(b);
          return;
        }
        checksumField[1] := b;
        checksumField[2] := NUL;
        state := ExpectEnd;
      }
      assert Pending() == p + [b];
      return ParserInProgress;
    }

    // What checksum and body say of the frame received up to its last byte.
    ghost function Accepted(): Option<Message>
      requires Buffers() && Consistent() && state == ExpectEnd
      reads this, lengthField, body, checksumField
    {
      if Checksum([lengthField[0], lengthField[1], SEPARATOR] + body[..expectedBodyLength])
         == HexByte(checksumField[0], checksumField[1])
      then DecodeBody(body[..expectedBodyLength])
      else None
    }

    // The end byte has been received: checksum, then body, decide.
    method Decide(message: MessageRecord) returns (result: Result)
      requires Buffers() && Consistent() && state == ExpectEnd
      requires message.Valid() && message.payload !in {lengthField, body, checksumField}
      modifies this`state, this`expectedBodyLength, this`bodyIndex, lengthField, body, checksumField
      modifies message, message.payload
      ensures Consistent() && Pending() == []
      ensures old(Accepted()).Some? ==> result == MessageReady && message.Holds(old(Accepted()).value)
      ensures old(Accepted()).None? ==> result == ParserError && Untouched(message)
    {
      hide DecodeBody, Checksum, HexByte;
      var matches := ChecksumMatches();
      if !matches {
        Reset();
        return ParserError;
      }
      var decoded := DecodeBodyInto(body[..], expectedBodyLength, message);
      assert body[..][..expectedBodyLength] == body[..expectedBodyLength];
      Reset();
      return if decoded then MessageReady else ParserError;
    }

    // The arm for the end of the frame.
    method ConsumeEnd(b: byte, message: MessageRecord) returns (result: Result)
      requires Buffers() && Consistent() && b != CR && state == ExpectEnd
      requires message.Valid() && message.payload !in {lengthField, body, checksumField}
      modifies this`state, this`expectedBodyLength, this`bodyIndex, lengthField, body, checksumField
      modifies message, message.payload
      ensures Consistent() && Pending() == Next(old(Pending()), b)
      ensures Reports(result, message, Emit(old(Pending()), b))
      ensures result != MessageReady ==> Untouched(message)
    {
      EndStep(b);
      hide Next, Emit, Viable, WellShaped, Accepted;
      if b != END {
        result := Fail(b);
      } else {
        result := Decide(message);
      }
    }

    lemma EndStep(b: byte)
      requires Buffers() && Consistent() && b != CR && state == ExpectEnd
      ensures b != END ==>
                Emit(Pending(), b) == Error && Next(Pending(), b) == if b == START then [START] else []
      ensures b == END ==>
                && Next(Pending(), b) == []
                && Emit(Pending(), b) == if Accepted().Some? then Ready(Accepted().value) else Error
    {
      EndParts();
      ghost var p := Pending();
      if b == END {
        StepAtEnd(p);
      } else {
        ExpectedAfterHeader(p, b);
        StepOf(p, b);
      }
    }

    lemma EndParts()
      requires Buffers() && Consistent() && state == ExpectEnd
      ensures var p, n := Pending(), expectedBodyLength;
              && Viable(p) && |p| == n + 7 && BodyLength(p) == n
              && p[1..n + 4] == [lengthField[0], lengthField[1], SEPARATOR] + body[..n]
              && p[4..n + 4] == body[..n] && p[n + 5] == checksumField[0] && p[n + 6] == checksumField[1]
    {
    }

    // parser_consume_byte
    method ConsumeByte(b: byte, message: MessageRecord) returns (result: Result)
      requires Valid() && message.Valid()
      requires message.payload !in {lengthField, body, checksumField}
      modifies this, lengthField, body, checksumField, message, message.payload
      ensures Valid() && history == old(history) + [b]
      ensures Pending() == Next(old(Pending()), b)
      ensures Reports(result, message, Emit(old(Pending()), b))
      ensures result != MessageReady ==> Untouched(message)
    {
      ghost var p := Pending();
      PendingIsPartial();
      RunSnoc([], history, b);
      history := history + [b];
      if b == CR {
        CarriageReturnStep(p);
        return ParserInProgress;
      }
      match state {
        case WaitStart =>
          StepFromReset(b);
          if b == START {
            state := ReadLenHi;
          }
          return ParserInProgress;
        case ReadLenHi | ReadLenLo | ExpectLenSeparator =>
          result := ConsumeHeader(b);
        case ReadBody =>
          result := ConsumeBody(b);
        case ExpectCheckSeparator | ReadCheckHi | ReadCheckLo =>
          result := ConsumeChecksum(b);
        case ExpectEnd =>
          result := ConsumeEnd(b, message);
      }
    }

    // Feeding many bytes: the result of each, the messages delivered and the number of errors.
    method ConsumeAll(bytes: seq<byte>, message: MessageRecord)
      returns (results: seq<Result>, delivered: seq<Message>, errors: nat)
      requires Valid() && message.Valid()
      requires message.payload !in {lengthField, body, checksumField}
      modifies this, lengthField, body, checksumField, message, message.payload
      ensures Valid() && history == old(history) + bytes
      ensures Pending() == Run(old(Pending()), bytes)
      ensures results == Codes(old(Pending()), bytes)
      ensures delivered == Messages(Events(old(Pending()), bytes))
      ensures errors == ErrorCount(Events(old(Pending()), bytes))
    {
      hide Emit, Next, Run, Events, Messages, ErrorCount, Codes, Consistent, Pending;
      ghost var p := Pending();
      results, delivered, errors := [], [], 0;
      NoEvents(p);
      for i := 0 to |bytes|
        invariant Valid() && message.Valid() && history == old(history) + bytes[..i]
        invariant Pending() == Run(p, bytes[..i]) && results == Codes(p, bytes[..i])
        invariant delivered == Messages(Events(p, bytes[..i])) && errors == ErrorCount(Events(p, bytes[..i]))
      {
        OneMore(p, bytes[..i], bytes[i]);
        assert bytes[..i + 1] == bytes[..i] + [bytes[i]];
        var result := ConsumeByte(bytes[i], message);
        results := results + [result];
        if result == MessageReady {
          delivered := delivered + [message.Contents()];
        } else if result == ParserError {
          errors := errors + 1;
        }
      }
      assert bytes[..|bytes|] == bytes;
    }
  }

  // The result code of a verdict.
  function CodeOf(v: Verdict): Result {
    match v
    case InProgress => ParserInProgress
    case Ready(_) => MessageReady
    case Error => ParserError
  }

  // The result codes of a run, one for each byte.
  function Codes(p: seq<byte>, s: seq<byte>): seq<Result> {
    if s == [] then [] else Codes(p, s[..|s| - 1]) + [CodeOf(Emit(Run(p, s[..|s| - 1]), s[|s| - 1]))]
  }

  lemma NoEvents(p: seq<byte>)
    ensures Run(p, []) == p && Codes(p, []) == []
    ensures Messages(Events(p, [])) == [] && ErrorCount(Events(p, [])) == 0
  {
  }

  lemma OneMore(p: seq<byte>, s: seq<byte>, b: byte)
    ensures var v := Emit(Run(p, s), b);
            && Run(p, s + [b]) == Next(Run(p, s), b) && Codes(p, s + [b]) == Codes(p, s) + [CodeOf(v)]
            && Messages(Events(p, s + [b])) ==
                 Messages(Events(p, s)) + (match v { case Ready(m) => [m] case _ => [] })
            && ErrorCount(Events(p, s + [b])) == ErrorCount(Events(p, s)) + if v == Error then 1 else 0
  {
    hide Emit, Next;
    RunSnoc(p, s, b);
    EventsSnoc(p, s, b);
    assert (s + [b])[..|s|] == s;
    VisibleEvents(Events(p, s), Emit(Run(p, s), b));
  }

  lemma VisibleEvents(events: seq<Verdict>, v: Verdict)
    ensures Messages(events + Visible(v)) == Messages(events) + match v { case Ready(m) => [m] case _ => [] }
    ensures ErrorCount(events + Visible(v)) == ErrorCount(events) + if v == Error then 1 else 0
  {
    if v == InProgress {
      assert events + Visible(v) == events;
    } else {
      MessagesSnoc(events, v);
    }
  }

  /** Stale data is invisible: parsers with the same live prefixes, whatever else their buffers hold,
      give the same result on each byte of every input, and the same messages. */
  method SameOnEveryInput(a: Parser, b: Parser, bytes: seq<byte>)
    returns (resultsA: seq<Result>, resultsB: seq<Result>, fromA: seq<Message>, fromB: seq<Message>)
    requires a.Valid() && b.Valid() && a.Pending() == b.Pending()
    requires a != b && {a.lengthField, a.body, a.checksumField} !! {b.lengthField, b.body, b.checksumField}
    modifies a, a.lengthField, a.body, a.checksumField, b, b.lengthField, b.body, b.checksumField
    ensures resultsA == resultsB && |resultsA| == |bytes| && fromA == fromB
    ensures a.Valid() && b.Valid() && a.Pending() == b.Pending()
  {
    CodesSize(a.Pending(), bytes);
    hide Run, Events, Messages, Codes, Parser.Valid, Parser.Pending, Parser.Consistent;
    resultsA, fromA := Feed(a, bytes);
    resultsB, fromB := Feed(b, bytes);
  }

  // Feeding many bytes with a message structure of one's own.
  method Feed(parser: Parser, bytes: seq<byte>) returns (results: seq<Result>, delivered: seq<Message>)
    requires parser.Valid()
    modifies parser, parser.lengthField, parser.body, parser.checksumField
    ensures parser.Valid() && parser.Pending() == Run(old(parser.Pending()), bytes)
    ensures results == Codes(old(parser.Pending()), bytes)
    ensures delivered == Messages(Events(old(parser.Pending()), bytes))
  {
    hide Run, Events, Messages, Codes, Parser.Pending, Parser.Consistent;
    var message := new MessageRecord();
    var errors: nat;
    results, delivered, errors := parser.ConsumeAll(bytes, message);
  }

  lemma {:induction false} CodesSize(p: seq<byte>, s: seq<byte>)
    ensures |Codes(p, s)| == |s|
  {
    if s != [] {
      CodesSize(p, s[..|s| - 1]);
    }
  }

  lemma StepFromReset(b: byte)
    requires b != CR
    ensures Emit([], b) == InProgress && Next([], b) == if b == START then [START] else []
  {
    StartStep();
    if b != START {
      assert ([] + [b])[0] == b;
    }
  }

  lemma ThreeByteChecksum(s: seq<byte>)
    requires |s| == 3
    ensures Checksum(s) == Xor(Xor(Xor(0, s[0]), s[1]), s[2])
  {
    hide Xor;
    assert s[..2][..1] == s[..1] && s[..1][..0] == [];
    assert Checksum(s[..1]) == Xor(0, s[0]);
  }
}
