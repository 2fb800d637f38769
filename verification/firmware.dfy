/** The globals, task locals and program points of the firmware, changed step by step in place. What each
    task does next is decided by its own program point and data; every step is proved to be the step of
    the same name of `Pipeline`. */
module Firmware {
  import opened Bytes
  import opened Codec
  import opened Stream
  import opened Protocol
  import opened ByteParser
  import opened Status
  import opened App
  import opened Meaning
  import opened Pipeline
  import opened PipelineInvariant
  import opened PipelineTheorems

  type word = x: nat | x < WORD

  function Increment(counter: word): word {
    (counter + 1) % WORD
  }

  lemma IncrementCounts(n: nat)
    ensures Increment(n % WORD) == (n + 1) % WORD
  {
  }

  // ---------- The operations on one message ----------

  // send_simple_message up to the queue: a message is set from a C string, when it is valid.
  method SimpleMessage(kind: Kind, text: seq<byte>) returns (ok: bool, m: Message)
    ensures ok <==> Encodable(Message(kind, CString(text)))
    ensures ok ==> m == Message(kind, CString(text))
  {
    var message := new MessageRecord();
    assert text + [NUL] + [] == text + [NUL];
    CStringTerminated(text, []);
    ok := MessageSet(message, kind, text + [NUL]);
    m := message.Contents();
  }

  // parser_consume_byte with a message structure of its own, and the message it reports.
  method ConsumeOne(parser: Parser, b: byte) returns (result: Result, m: Message)
    requires parser.Valid()
    modifies parser, parser.lengthField, parser.body, parser.checksumField
    ensures parser.Valid() && parser.history == old(parser.history) + [b]
    ensures parser.Pending() == Next(old(parser.Pending()), b)
    ensures match Emit(old(parser.Pending()), b)
            case InProgress => result == ParserInProgress
            case Error => result == ParserError
            case Ready(found) => result == MessageReady && m == found
  {
    hide Emit, Next;
    var message := new MessageRecord();
    result := parser.ConsumeByte(b, message);
    m := Message(Invalid, []);
    if result == MessageReady {
      m := message.Contents();
    }
  }

  // app_build_status_message with a message structure of its own.
  method FormatStatus(reading: Counters) returns (m: Message)
    ensures m == Message(Sts, StatusPayload(reading))
  {
    hide StatusPayload;
    var message := new MessageRecord();
    BuildStatusMessage(reading, message);
    m := message.Contents();
  }

  // protocol_encode_frame into the buffer of task_uart_tx: what is to be sent, with "\r\n" for '\n'.
  method EncodeOutgoing(m: Message, frame: array<byte>) returns (ok: bool, length: nat)
    requires |m.payload| <= MAX_PAYLOAD && frame.Length == 64
    modifies frame
    ensures ok <==> Encodable(m) && NUL !in m.payload
    ensures ok ==> 0 < length < frame.Length && frame[..length] == Frame(m)
    ensures WireBytes(m) == if ok then frame[..length - 1] + [CR, END] else []
  {
    hide Frame, CString;
    var message := new MessageRecord();
    message.Load(m);
    ghost var rest := message.payload[|m.payload| + 1..];
    assert message.payload[..] == m.payload + [NUL] + rest;
    CStringTerminated(m.payload, rest);
    CStringIsPrefix(m.payload);
    assert message.payload[..][|m.payload|] == NUL;
    ok, length := EncodeFrame(message, frame, frame.Length);
    assert ok ==> CString(m.payload) == m.payload;
    assert ok ==> frame[..length] == Frame(m);
  }

  // ---------- Runs of the abstract system ----------

  // The steps are a run, and it leads to s.
  ghost predicate Reaches(steps: seq<Step>, s: System) {
    IsRun(INITIAL, steps) && After(INITIAL, steps) == s
  }

  lemma Onward(steps: seq<Step>, s: System, step: Step, t: System)
    requires Reaches(steps, s) && Enabled(s, step) && t == Perform(s, step)
    ensures Reaches(steps + [step], t)
  {
    hide Perform, Enabled;
    Extend(steps, step);
  }

  lemma FirstIsEncodable(steps: seq<Step>, s: System)
    requires Reaches(steps, s) && s.tx.queue != []
    ensures Encodable(s.tx.queue[0])
  {
    InvAlways(steps);
    hide Reaches, Sendable, Answers;
    ResponsesSendable(s.app, Counts(s));
    assert s.tx.queue[0] == s.app.responses[|s.tx.taken|];
  }

  // ---------- uart_comm.c and task_uart_rx ----------

  class UartPort {
    var queueSet: bool
    var irqCount: word
    var dropCount: word
    var queue: seq<byte>
    // the byte of task_uart_rx, and whether it is about to send it
    var held: byte
    var holds: bool

    ghost predicate Matches(u: Uart)
      reads this
    {
      && (queueSet <==> u.phase != Booting)
      && irqCount == u.irq % WORD && dropCount == u.drops % WORD
      && queue == u.queue
      && u.hand == if holds then Some(held) else None
    }

    // What the fields say of the abstract state.
    lemma Guards(u: Uart)
      requires Matches(u)
      ensures queue == u.queue && (queueSet <==> u.phase != Booting) && (holds <==> u.hand.Some?)
      ensures irqCount == u.irq % WORD && dropCount == u.drops % WORD
    {
    }

    constructor ()
      ensures Matches(INITIAL.uart) && !queueSet
    {
      queueSet, irqCount, dropCount, queue, held, holds := false, 0, 0, [], 0, false;
    }

    // usart1_isr
    method Isr(b: byte, ghost u: Uart)
      requires Matches(u)
      modifies this
      ensures Matches(OnInterrupt(u, b)) && queueSet == old(queueSet)
    {
      IncrementCounts(u.irq);
      IncrementCounts(u.drops);
      irqCount := Increment(irqCount);
      if queueSet {
        if |queue| < ISR_QUEUE_LENGTH {
          queue := queue + [b];
        } else {
          dropCount := Increment(dropCount);
        }
      }
    }

    // uart_comm_set_rx_queue
    method SetQueue(ghost u: Uart)
      requires Matches(u)
      modifies this
      ensures Matches(u.(phase := QueueSet)) && queueSet
    {
      queueSet := true;
    }

    // The port does not notice that the tasks are started.
    lemma Started(u: Uart)
      requires Matches(u) && queueSet
      ensures Matches(u.(phase := Running))
    {
    }

    // The two halves of the loop of task_uart_rx.
    method Receive(ghost u: Uart)
      requires Matches(u) && !holds && queue != []
      modifies this
      ensures Matches(u.(hand := Some(u.queue[0]), queue := u.queue[1..])) && queueSet == old(queueSet)
    {
      held, queue, holds := queue[0], queue[1..], true;
    }

    method Send(ghost u: Uart) returns (b: byte)
      requires Matches(u) && holds
      modifies this
      ensures u.hand == Some(b) && Matches(u.(hand := None)) && queueSet == old(queueSet)
    {
      b, holds := held, false;
    }
  }

  // ---------- task_parser ----------

  // Where task_parser is in its loop.
  datatype ParserPoint = AtReceive | AtCountByte | AtConsume | AtCountMessage | AtSend | AtCountError

  class ParserTaskState {
    var queue: seq<byte>
    var at: ParserPoint
    const parser: Parser
    var byteHeld: byte
    var messageHeld: Message
    var byteCount: word
    var messageCount: word
    var errorCount: word

    ghost function Now(): ParserTask
      reads this
    {
      match at
      case AtReceive => ParserIdle
      case AtCountByte => ParserGot(byteHeld)
      case AtConsume => ParserCounted(byteHeld)
      case AtCountMessage => ParserFound(messageHeld)
      case AtSend => ParserSending(messageHeld)
      case AtCountError => ParserFailed
    }

    ghost predicate ParserMatches(parsed: seq<byte>, pending: seq<byte>)
      reads parser, parser.lengthField, parser.body, parser.checksumField
    {
      parser.Valid() && parser.history == parsed && parser.Pending() == pending
    }

    ghost predicate Matches(p: Parsing)
      reads this, parser, parser.lengthField, parser.body, parser.checksumField
    {
      && ParserMatches(p.parsed, p.pending)
      && queue == p.queue && p.task == Now()
      && byteCount == p.bytes % WORD && messageCount == p.messages % WORD && errorCount == p.errors % WORD
    }

    // What the fields say of the abstract state.
    lemma Guards(p: Parsing)
      requires Matches(p)
      ensures queue == p.queue && (at == AtReceive <==> p.task.ParserIdle?)
      ensures (at == AtCountByte <==> p.task.ParserGot?) && (at == AtConsume <==> p.task.ParserCounted?)
      ensures (at == AtCountMessage <==> p.task.ParserFound?) && (at == AtSend <==> p.task.ParserSending?)
      ensures (at == AtCountError <==> p.task.ParserFailed?)
      ensures byteCount == p.bytes % WORD && messageCount == p.messages % WORD && errorCount == p.errors % WORD
    {
      hide ParserMatches;
    }

    constructor ()
      ensures Matches(INITIAL.parsing) && fresh(parser)
      ensures fresh(parser.lengthField) && fresh(parser.body) && fresh(parser.checksumField)
    {
      queue, at, byteHeld, messageHeld := [], AtReceive, 0, Message(Invalid, []);
      byteCount, messageCount, errorCount := 0, 0, 0;
      parser := new Parser();
    }

    // xQueueSend of task_uart_rx
    method Enqueue(b: byte, ghost p: Parsing)
      requires Matches(p)
      modifies this
      ensures Matches(p.(queue := p.queue + [b]))
    {
      hide ParserMatches;
      queue := queue + [b];
    }

    method Receive(ghost p: Parsing)
      requires Matches(p) && at == AtReceive && queue != []
      modifies this
      ensures Matches(p.(task := ParserGot(p.queue[0]), queue := p.queue[1..]))
    {
      hide ParserMatches;
      byteHeld, queue, at := queue[0], queue[1..], AtCountByte;
    }

    method CountByte(ghost p: Parsing)
      requires Matches(p) && at == AtCountByte
      modifies this
      ensures p.task.ParserGot? && Matches(p.(task := ParserCounted(p.task.byte), bytes := p.bytes + 1))
    {
      hide ParserMatches;
      IncrementCounts(p.bytes);
      byteCount, at := Increment(byteCount), AtConsume;
    }

    // parser_consume_byte, and the branches on its result
    method Consume(ghost p: Parsing)
      requires Matches(p) && at == AtConsume
      modifies this, parser, parser.lengthField, parser.body, parser.checksumField
      ensures p.task.ParserCounted? && Matches(OnConsume(p, p.task.byte))
    {
      hide Emit, Next, Run, Parser.Valid, Parser.Pending, Parser.Consistent;
      var result;
      result, messageHeld := ConsumeOne(parser, byteHeld);
      if result == MessageReady {
        at := AtCountMessage;
      } else if result == ParserError {
        at := AtCountError;
      } else {
        at := AtReceive;
      }
    }

    method CountMessage(ghost p: Parsing)
      requires Matches(p) && at == AtCountMessage
      modifies this
      ensures p.task.ParserFound?
      ensures Matches(p.(task := ParserSending(p.task.message), messages := p.messages + 1))
    {
      hide ParserMatches;
      IncrementCounts(p.messages);
      messageCount, at := Increment(messageCount), AtSend;
    }

    method CountError(ghost p: Parsing)
      requires Matches(p) && at == AtCountError
      modifies this
      ensures p.task.ParserFailed? && Matches(p.(task := ParserIdle, errors := p.errors + 1))
    {
      hide ParserMatches;
      IncrementCounts(p.errors);
      errorCount, at := Increment(errorCount), AtReceive;
    }

    method Send(ghost p: Parsing) returns (m: Message)
      requires Matches(p) && at == AtSend
      modifies this
      ensures p.task.ParserSending? && m == p.task.message && Matches(p.(task := ParserIdle))
    {
      hide ParserMatches;
      m, at := messageHeld, AtReceive;
    }
  }

  // ---------- task_app and app.c ----------

  // Where task_app is: waiting, or in which branch of app_handle_message.
  datatype AppPoint = AtWait | AtCount | AtActuate | AtRead | AtSendStatus | AtSendOk | AtSendPong
                    | AtSendWrongType | AtSendUnknown | AtCountRefusal

  // The requests in whose branch a program point is.
  predicate Serves(at: AppPoint, r: Request) {
    match at
    case AtWait | AtCount => true
    case AtActuate | AtSendOk => r.Led?
    case AtRead | AtSendStatus => r == StatusQuery
    case AtSendPong => r == Ping
    case AtSendWrongType => r == WrongType
    case AtSendUnknown => r == Unknown
    case AtCountRefusal => Refused(r)
  }

  // The branches of app_handle_message: where to go on, and the LED command.
  method Dispatch(message: Message) returns (at: AppPoint, command: Command)
    ensures at !in {AtWait, AtCount, AtSendStatus, AtSendOk, AtCountRefusal}
    ensures Serves(at, RequestOf(message))
    ensures at == AtActuate ==> RequestOf(message) == Led(command)
    ensures at == AtSendWrongType <==> message.kind != Cmd
    ensures Says(message, "led=on") ==> at == AtActuate && command == Command(Ascii("led"), Ascii("on"))
    ensures Says(message, "led=off") ==> at == AtActuate && command == Command(Ascii("led"), Ascii("off"))
    ensures Says(message, "led=toggle") ==> at == AtActuate && command == Command(Ascii("led"), Ascii("toggle"))
    ensures at == AtSendPong <==> Says(message, "ping")
    ensures at == AtRead <==> Says(message, "status?")
    ensures at == AtSendUnknown <==> message.kind == Cmd && !Served(message)
  {
    RequestByText(message);
    command := Command([], []);
    if message.kind != Cmd {
      at := AtSendWrongType;
      return;
    }
    var led := LedCommand(message.payload);
    if led.Some? {
      at, command := AtActuate, led.value;
    } else if CString(message.payload) == PING {
      at := AtSendPong;
    } else if CString(message.payload) == STATUS {
      at := AtRead;
    } else {
      at := AtSendUnknown;
    }
  }

  // The type and text that a program point sends, unless it is the status report.
  function FixedText(at: AppPoint): Message
    requires at in {AtSendOk, AtSendPong, AtSendWrongType, AtSendUnknown}
  {
    match at
    case AtSendOk => Message(Ack, CMD_OK)
    case AtSendPong => Message(Ack, PONG)
    case AtSendWrongType => Message(Err, UNEXPECTED_TYPE)
    case AtSendUnknown => Message(Err, UNKNOWN_CMD)
  }

  // The fixed texts are valid, so that send_simple_message always queues them.
  lemma FixedTextValid(at: AppPoint, r: Request)
    requires at in {AtSendOk, AtSendPong, AtSendWrongType, AtSendUnknown} && Serves(at, r)
    ensures FixedText(at) == FixedResponse(r) && Encodable(FixedText(at))
    ensures CString(FixedText(at).payload) == FixedText(at).payload
  {
    FixedSendable(r);
    var text := FixedText(at).payload;
    hide CString;
    CStringStops(text, []);
    CStringTerminated(text, []);
  }

  // The counters already read have the values the abstract task has read, wrapped.
  predicate ReadSoFar(reading: Counters, c: Counters, left: set<Shared>) {
    && reading.rx == c.rx % WORD && reading.ae == c.ae % WORD
    && (IrqCount !in left ==> reading.irq == c.irq % WORD)
    && (ByteCount !in left ==> reading.pb == c.pb % WORD)
    && (MessageCount !in left ==> reading.pm == c.pm % WORD)
    && (ErrorCount !in left ==> reading.pe == c.pe % WORD)
    && (DropCount !in left ==> reading.qd == c.qd % WORD)
    && left <= ALL_SHARED
  }

  lemma AllRead(reading: Counters, c: Counters)
    requires ReadSoFar(reading, c, {})
    ensures reading == Low32(c)
  {
  }

  // One more counter read.
  lemma ReadMore(reading: Counters, c: Counters, left: set<Shared>, counter: Shared, now: Counters)
    requires ReadSoFar(reading, c, left)
    ensures ReadSoFar(Read(reading, Low32(now), counter), Read(c, now, counter), left - {counter})
  {
  }

  // Where app_handle_message goes after counting, as the abstract task.
  lemma BeginAt(at: AppPoint, m: Message, command: Command, counts: Counters)
    requires at !in {AtWait, AtCount, AtSendStatus, AtSendOk, AtCountRefusal} && Serves(at, RequestOf(m))
    requires at == AtActuate ==> RequestOf(m) == Led(command)
    ensures at == AtActuate ==> Begin(m, counts) == AppActuating(m, command)
    ensures at == AtRead ==> Begin(m, counts) == AppReading(m, counts, ALL_SHARED)
    ensures at in {AtSendPong, AtSendWrongType, AtSendUnknown} ==> Begin(m, counts) == AppSending(m, FixedText(at))
  {
    hide RequestOf;
  }

  class AppTaskState {
    var queue: seq<Message>
    var at: AppPoint
    var rxCount: word
    var errorCount: word
    var message: Message
    var command: Command
    // what app_build_status_message has read, and the counters whose getters are still to be called
    var reading: Counters
    var unread: set<Shared>
    var statusMessage: Message

    ghost predicate TaskMatches(task: AppTask)
      reads this
    {
      && (at != AtWait ==> !task.AppIdle? && task.message == message)
      && Serves(at, RequestOf(message))
      && match at
         case AtWait => task.AppIdle?
         case AtCount => task.AppGot?
         case AtActuate => task.AppActuating? && task.command == command
         case AtRead => task.AppReading? && task.left == unread && ReadSoFar(reading, task.read, unread)
         case AtSendStatus => task.AppSending? && task.response == statusMessage
         case AtSendOk | AtSendPong | AtSendWrongType | AtSendUnknown =>
           task.AppSending? && task.response == FixedText(at)
         case AtCountRefusal => task.AppFailing?
    }

    ghost predicate Matches(a: Application)
      reads this
    {
      && queue == a.queue
      && rxCount == a.rx % WORD && errorCount == a.ae % WORD
      && TaskMatches(a.task)
    }

    predicate Answering()
      reads this
    {
      at in {AtSendStatus, AtSendOk, AtSendPong, AtSendWrongType, AtSendUnknown}
    }

    // What the fields say of the abstract state.
    lemma Guards(a: Application)
      requires Matches(a)
      ensures queue == a.queue && (at == AtWait <==> a.task.AppIdle?) && (at == AtCount <==> a.task.AppGot?)
      ensures (at == AtActuate <==> a.task.AppActuating?) && (Answering() <==> a.task.AppSending?)
      ensures (at == AtCountRefusal <==> a.task.AppFailing?)
      ensures (at == AtRead <==> a.task.AppReading?) && (at == AtRead ==> unread == a.task.left)
      ensures rxCount == a.rx % WORD && errorCount == a.ae % WORD
    {
      hide RequestOf, FixedText, ReadSoFar;
    }

    constructor ()
      ensures Matches(INITIAL.app)
    {
      queue, at, rxCount, errorCount := [], AtWait, 0, 0;
      message, command, statusMessage := Message(Invalid, []), Command([], []), Message(Invalid, []);
      reading, unread := Counters(0, 0, 0, 0, 0, 0, 0), {};
    }

    // xQueueSend of task_parser
    method Enqueue(m: Message, ghost a: Application)
      requires Matches(a)
      modifies this
      ensures Matches(a.(queue := a.queue + [m]))
    {
      hide RequestOf, FixedText, ReadSoFar;
      queue := queue + [m];
    }

    method Receive(ghost a: Application)
      requires Matches(a) && at == AtWait && queue != []
      modifies this
      ensures var m := a.queue[0];
              Matches(a.(task := AppGot(m), queue := a.queue[1..], handled := a.handled + [m]))
    {
      hide RequestOf;
      message, queue, at := queue[0], queue[1..], AtCount;
    }

    // app_handle_message: count the message and choose the branch
    method Count(ghost a: Application, ghost counts: Counters)
      requires Matches(a) && at == AtCount && counts.rx == a.rx + 1 && counts.ae == a.ae
      modifies this
      ensures a.task.AppGot?
      ensures Matches(a.(task := Begin(a.task.message, counts), rx := a.rx + 1, marks := a.marks + [counts]))
    {
      hide RequestOf, Begin, FixedText;
      IncrementCounts(a.rx);
      rxCount := Increment(rxCount);
      at, command := Dispatch(message);
      if at == AtRead {
        reading, unread := reading.(rx := rxCount, ae := errorCount), ALL_SHARED;
      }
      BeginAt(at, message, command, counts);
    }

    // The command for the actuator queue.
    method Actuate(ghost a: Application) returns (c: Command)
      requires Matches(a) && at == AtActuate
      modifies this
      ensures a.task.AppActuating? && c == a.task.command
      ensures Matches(a.(task := AppSending(a.task.message, FixedResponse(Led(c)))))
    {
      hide RequestOf;
      c, at := command, AtSendOk;
    }

    // One of the counter getters that app_build_status_message calls, in any order.
    method ReadCounter(counter: Shared, memory: Counters, ghost a: Application, ghost now: Counters)
      requires Matches(a) && at == AtRead && memory == Low32(now)
      modifies this
      ensures a.task.AppReading?
      ensures Matches(a.(task := AppReading(a.task.message, Read(a.task.read, now, counter), a.task.left - {counter})))
    {
      ReadMore(reading, a.task.read, unread, counter, now);
      hide RequestOf, ReadSoFar;
      reading, unread := Read(reading, memory, counter), unread - {counter};
    }

    // app_build_status_message
    method Format(ghost a: Application)
      requires Matches(a) && at == AtRead && unread == {}
      modifies this
      ensures a.task.AppReading?
      ensures Matches(a.(task := AppSending(a.task.message, StatusResponse(a.task.read))))
    {
      hide RequestOf, StatusPayload, ReadSoFar;
      AllRead(reading, a.task.read);
      statusMessage := FormatStatus(reading);
      at := AtSendStatus;
    }

    // send_simple_message, or the queueing of the status message; two branches go on to count an error
    method Send(ghost a: Application) returns (ok: bool, response: Message)
      requires Matches(a) && Answering()
      modifies this
      ensures a.task.AppSending? && ok && response == a.task.response
      ensures Matches(a.(task := if Served(a.task.message) then AppIdle else AppFailing(a.task.message),
                         responses := a.responses + [response]))
    {
      hide RequestOf, CString, Encodable, Served;
      RequestByText(message);
      if at == AtSendStatus {
        ok, response := true, statusMessage;
      } else {
        FixedTextValid(at, RequestOf(message));
        ok, response := SimpleMessage(FixedText(at).kind, FixedText(at).payload);
      }
      at := if at == AtSendWrongType || at == AtSendUnknown then AtCountRefusal else AtWait;
    }

    method CountRefusal(ghost a: Application)
      requires Matches(a) && at == AtCountRefusal
      modifies this
      ensures a.task.AppFailing? && Matches(a.(task := AppIdle, ae := a.ae + 1))
    {
      hide RequestOf;
      IncrementCounts(a.ae);
      errorCount, at := Increment(errorCount), AtWait;
    }
  }

  // ---------- task_uart_tx ----------

  class TransmitTaskState {
    var queue: seq<Message>
    // the frame buffer, and how far it has been sent
    const frame: array<byte>
    var length: nat
    var sent: nat
    // every byte that has left on the line
    var wire: seq<byte>

    // uart_comm_send_bytes has bytes left to send.
    predicate Sending()
      reads this
    {
      length > 0 && sent <= length
    }

    // What is left to send: the frame with "\r\n" in place of its last byte.
    ghost function Outgoing(): seq<byte>
      requires length <= frame.Length && (length > 0 ==> sent <= length + 1)
      reads this, frame
    {
      if length == 0 then [] else (frame[..length - 1] + [CR, END])[sent..]
    }

    ghost predicate Matches(t: Transmission)
      reads this, frame
    {
      && queue == t.queue && wire == t.wire
      && frame.Length == 64 && length <= frame.Length && (length > 0 ==> sent <= length + 1)
      && Outgoing() == t.rest
    }

    // What the fields say of the abstract state.
    lemma Guards(t: Transmission)
      requires Matches(t)
      ensures queue == t.queue && (Sending() <==> t.rest != []) && wire == t.wire
    {
    }

    constructor ()
      ensures Matches(INITIAL.tx) && fresh(frame)
    {
      queue, length, sent, wire := [], 0, 0, [];
      frame := new byte[64];
    }

    // xQueueSend of task_app
    method Enqueue(m: Message, ghost t: Transmission)
      requires Matches(t)
      modifies this
      ensures Matches(t.(queue := t.queue + [m]))
    {
      queue := queue + [m];
    }

    // xQueueReceive, protocol_encode_frame
    method Receive(ghost t: Transmission)
      requires Matches(t) && !Sending() && queue != [] && |queue[0].payload| <= MAX_PAYLOAD
      modifies this, frame
      ensures var m := t.queue[0];
              Matches(t.(queue := t.queue[1..], taken := t.taken + [m], rest := WireBytes(m)))
    {
      hide WireBytes, Frame;
      var ok, encoded := EncodeOutgoing(queue[0], frame);
      length := if ok then encoded else 0;
      queue, sent := queue[1..], 0;
    }

    // uart_comm_send_bytes, one byte at a time: the frame without its last byte, then "\r\n"
    method SendByte(ghost t: Transmission)
      requires Matches(t) && Sending()
      modifies this
      ensures t.rest != [] && Matches(t.(wire := t.wire + [t.rest[0]], rest := t.rest[1..]))
    {
      var b := if sent < length - 1 then frame[sent] else if sent == length - 1 then CR else END;
      wire, sent := wire + [b], sent + 1;
    }
  }

  // ---------- task_actuators and actuators.c ----------

  class ActuatorTaskState {
    var queue: seq<Command>
    // its command, and whether it is about to apply it
    var held: Command
    var holds: bool
    var pin: bool

    ghost predicate Matches(c: Actuation)
      reads this
    {
      queue == c.queue && pin == c.pin && c.hand == if holds then Some(held) else None
    }

    // What the fields say of the abstract state.
    lemma Guards(c: Actuation)
      requires Matches(c)
      ensures queue == c.queue && (holds <==> c.hand.Some?) && pin == c.pin
    {
    }

    constructor ()
      ensures Matches(INITIAL.act)
    {
      queue, held, holds, pin := [], Command([], []), false, true;
    }

    // xQueueSend of task_app
    method Enqueue(command: Command, ghost c: Actuation)
      requires Matches(c)
      modifies this
      ensures Matches(c.(queue := c.queue + [command], commands := c.commands + [command]))
    {
      queue := queue + [command];
    }

    method Receive(ghost c: Actuation)
      requires Matches(c) && !holds && queue != []
      modifies this
      ensures Matches(c.(hand := Some(c.queue[0]), queue := c.queue[1..]))
    {
      held, queue, holds := queue[0], queue[1..], true;
    }

    // actuators_apply_command: gpio_clear, gpio_set, gpio_toggle
    method ApplyCommand(ghost c: Actuation)
      requires Matches(c) && holds
      modifies this
      ensures c.hand.Some?
      ensures var done := c.hand.value;
              Matches(c.(hand := None, pin := Apply(c.pin, done), applied := c.applied + [done]))
    {
      if held.target == LED {
        if held.action == ON {
          pin := false;
        } else if held.action == OFF {
          pin := true;
        } else if held.action == TOGGLE {
          pin := !pin;
        }
      }
      holds := false;
    }
  }

  // ---------- The board ----------

  class Board {
    const uart: UartPort
    const parsing: ParserTaskState
    const app: AppTaskState
    const tx: TransmitTaskState
    const act: ActuatorTaskState
    var tasksRunning: bool
    // the steps taken so far, and the abstract state they lead to
    ghost var steps: seq<Step>
    ghost var model: System

    // What can happen next: a task blocks only on an empty or a full queue.
    predicate Possible(step: Step)
      reads this, uart, parsing, app, tx, act
    {
      match step
      case Interrupt(_) => true
      case SetRxQueue => !uart.queueSet
      case StartScheduler => uart.queueSet && !tasksRunning
      case RxReceive => tasksRunning && !uart.holds && uart.queue != []
      case RxSend => tasksRunning && uart.holds && |parsing.queue| < PARSER_QUEUE_LENGTH
      case ParserReceive => tasksRunning && parsing.at == AtReceive && parsing.queue != []
      case ParserCountByte => tasksRunning && parsing.at == AtCountByte
      case ParserConsume => tasksRunning && parsing.at == AtConsume
      case ParserCountMessage => tasksRunning && parsing.at == AtCountMessage
      case ParserCountError => tasksRunning && parsing.at == AtCountError
      case ParserSend => tasksRunning && parsing.at == AtSend && |app.queue| < APP_QUEUE_LENGTH
      case AppReceive => tasksRunning && app.at == AtWait && app.queue != []
      case AppCount => tasksRunning && app.at == AtCount
      case AppActuate => tasksRunning && app.at == AtActuate && |act.queue| < ACTUATOR_QUEUE_LENGTH
      case AppRead(counter) => tasksRunning && app.at == AtRead && counter in app.unread
      case AppFormat => tasksRunning && app.at == AtRead && app.unread == {}
      case AppSend => tasksRunning && app.Answering() && |tx.queue| < TX_QUEUE_LENGTH
      case AppCountError => tasksRunning && app.at == AtCountRefusal
      case TxReceive => tasksRunning && !tx.Sending() && tx.queue != []
      case TxByte => tasksRunning && tx.Sending()
      case ActuatorReceive => tasksRunning && !act.holds && act.queue != []
      case ActuatorApply => tasksRunning && act.holds
    }

    // The seven counters as they stand in memory.
    function Memory(): Counters
      reads uart, parsing, app
    {
      Counters(app.rxCount, app.errorCount, uart.irqCount, parsing.byteCount, parsing.messageCount,
               parsing.errorCount, uart.dropCount)
    }

    // The steps taken are a run of the abstract system, and the board is where the run leads.
    ghost predicate Valid()
      reads this, uart, parsing, app, tx, act, tx.frame
      reads parsing.parser, parsing.parser.lengthField, parsing.parser.body, parsing.parser.checksumField
    {
      && tx.frame !in {parsing.parser.lengthField, parsing.parser.body, parsing.parser.checksumField}
      && Reaches(steps, model)
      && (tasksRunning <==> model.uart.phase == Running)
      && uart.Matches(model.uart)
      && parsing.Matches(model.parsing)
      && app.Matches(model.app)
      && tx.Matches(model.tx)
      && act.Matches(model.act)
    }

    constructor ()
      ensures Valid() && steps == []
      ensures fresh(uart) && fresh(parsing) && fresh(app) && fresh(tx) && fresh(act) && fresh(tx.frame)
      ensures fresh(parsing.parser) && fresh(parsing.parser.lengthField) && fresh(parsing.parser.body)
      ensures fresh(parsing.parser.checksumField)
    {
      uart := new UartPort();
      parsing := new ParserTaskState();
      app := new AppTaskState();
      tx := new TransmitTaskState();
      act := new ActuatorTaskState();
      tasksRunning := false;
      steps, model := [], INITIAL;
    }

    // The guards that the tasks check are those of the abstract system.
    lemma PossibleIsEnabled(step: Step)
      requires Valid()
      ensures Possible(step) <==> Enabled(model, step)
    {
      hide Possible, Enabled, Valid;
      if step.Interrupt? || ReceiveStep(step) {
        ReceivingIsEnabled(step);
      } else {
        HandlingIsEnabled(step);
      }
    }

    lemma ReceivingIsEnabled(step: Step)
      requires Valid() && (step.Interrupt? || ReceiveStep(step))
      ensures Possible(step) <==> Enabled(model, step)
    {
      hide Reaches, UartPort.Matches, ParserTaskState.Matches, AppTaskState.Matches, TransmitTaskState.Matches;
      hide ActuatorTaskState.Matches, AppTaskState.Answering, TransmitTaskState.Sending;
      uart.Guards(model.uart);
      parsing.Guards(model.parsing);
      app.Guards(model.app);
      tx.Guards(model.tx);
      act.Guards(model.act);
    }

    lemma HandlingIsEnabled(step: Step)
      requires Valid() && !step.Interrupt? && !ReceiveStep(step)
      ensures Possible(step) <==> Enabled(model, step)
    {
      hide Reaches, UartPort.Matches, ParserTaskState.Matches, AppTaskState.Matches, TransmitTaskState.Matches;
      hide ActuatorTaskState.Matches, AppTaskState.Answering, TransmitTaskState.Sending;
      uart.Guards(model.uart);
      parsing.Guards(model.parsing);
      app.Guards(model.app);
      tx.Guards(model.tx);
      act.Guards(model.act);
    }

    // A possible step continues the run.
    lemma Proceeds(step: Step)
      requires Valid() && Possible(step)
      ensures Enabled(model, step) && Reaches(steps + [step], Perform(model, step))
    {
      PossibleIsEnabled(step);
      hide Possible, Enabled, Perform;
      Onward(steps, model, step, Perform(model, step));
    }

    // usart1_isr, tasks_start and task_uart_rx
    method TakeUart(step: Step)
      requires Valid() && Possible(step)
      requires step.Interrupt? || step in {SetRxQueue, StartScheduler, RxReceive, RxSend}
      modifies this, uart, parsing
      ensures Valid() && steps == old(steps) + [step]
    {
      hide Reaches, UartPort.Matches, ParserTaskState.Matches, AppTaskState.Matches, TransmitTaskState.Matches;
      hide ActuatorTaskState.Matches;
      hide Enabled;
      uart.Guards(model.uart);
      Proceeds(step);
      if step.Interrupt? {
        uart.Isr(step.byte, model.uart);
      } else if step.SetRxQueue? {
        uart.SetQueue(model.uart);
      } else if step.StartScheduler? {
        uart.Started(model.uart);
        tasksRunning := true;
      } else if step.RxReceive? {
        uart.Receive(model.uart);
      } else {
        var b := uart.Send(model.uart);
        parsing.Enqueue(b, model.parsing);
      }
      steps, model := steps + [step], Perform(model, step);
    }

    // task_parser
    method TakeParser(step: Step)
      requires Valid() && Possible(step)
      requires step in {ParserReceive, ParserCountByte, ParserConsume}
      modifies this, parsing
      modifies parsing.parser, parsing.parser.lengthField, parsing.parser.body, parsing.parser.checksumField
      ensures Valid() && steps == old(steps) + [step]
    {
      hide Reaches, UartPort.Matches, ParserTaskState.Matches, AppTaskState.Matches, TransmitTaskState.Matches;
      hide ActuatorTaskState.Matches;
      hide Emit, Next;
      hide Enabled;
      Proceeds(step);
      if step.ParserReceive? {
        parsing.Receive(model.parsing);
      } else if step.ParserCountByte? {
        parsing.CountByte(model.parsing);
      } else {
        parsing.Consume(model.parsing);
      }
      steps, model := steps + [step], Perform(model, step);
    }

    // The branches on the parser's result
    method TakeVerdict(step: Step)
      requires Valid() && Possible(step) && step in {ParserCountMessage, ParserCountError, ParserSend}
      modifies this, parsing, app
      ensures Valid() && steps == old(steps) + [step]
    {
      hide Reaches, UartPort.Matches, ParserTaskState.Matches, AppTaskState.Matches, TransmitTaskState.Matches;
      hide ActuatorTaskState.Matches;
      hide Enabled;
      Proceeds(step);
      if step.ParserCountMessage? {
        parsing.CountMessage(model.parsing);
      } else if step.ParserCountError? {
        parsing.CountError(model.parsing);
      } else {
        var m := parsing.Send(model.parsing);
        app.Enqueue(m, model.app);
      }
      steps, model := steps + [step], Perform(model, step);
    }

    // task_app
    method TakeApp(step: Step)
      requires Valid() && Possible(step)
      requires step in {AppReceive, AppCount}
      modifies this, app
      ensures Valid() && steps == old(steps) + [step]
    {
      hide Reaches, UartPort.Matches, ParserTaskState.Matches, AppTaskState.Matches, TransmitTaskState.Matches;
      hide ActuatorTaskState.Matches;
      hide Emit, Next, RequestOf, Begin, StatusResponse, FixedResponse, Low32;
      hide Enabled;
      Proceeds(step);
      if step.AppReceive? {
        app.Receive(model.app);
      } else {
        app.Count(model.app, Counts(model).(rx := model.app.rx + 1));
      }
      steps, model := steps + [step], Perform(model, step);
    }

    // The branches of app_handle_message
    method TakeBranch(step: Step)
      requires Valid() && Possible(step) && step in {AppActuate, AppCountError}
      modifies this, app, act
      ensures Valid() && steps == old(steps) + [step]
    {
      hide Reaches, UartPort.Matches, ParserTaskState.Matches, AppTaskState.Matches, TransmitTaskState.Matches;
      hide ActuatorTaskState.Matches;
      hide RequestOf, FixedResponse, Enabled;
      Proceeds(step);
      if step.AppActuate? {
        var c := app.Actuate(model.app);
        act.Enqueue(c, model.act);
      } else {
        app.CountRefusal(model.app);
      }
      steps, model := steps + [step], Perform(model, step);
    }

    // The response of the branch
    method TakeAnswer()
      requires Valid() && Possible(AppSend)
      modifies this, app, tx
      ensures Valid() && steps == old(steps) + [AppSend]
    {
      hide Reaches, UartPort.Matches, ParserTaskState.Matches, AppTaskState.Matches, TransmitTaskState.Matches;
      hide ActuatorTaskState.Matches;
      hide RequestOf, Served, Refused, Enabled;
      Proceeds(AppSend);
      var ok, response := app.Send(model.app);
      if ok {
        tx.Enqueue(response, model.tx);
      }
      RequestByText(model.app.task.message);
      steps, model := steps + [AppSend], Perform(model, AppSend);
    }

    // task_app inside app_build_status_message
    method TakeStatus(step: Step)
      requires Valid() && Possible(step)
      requires step == AppFormat || step.AppRead?
      modifies this, app
      ensures Valid() && steps == old(steps) + [step]
    {
      hide Reaches, UartPort.Matches, ParserTaskState.Matches, AppTaskState.Matches, TransmitTaskState.Matches;
      hide ActuatorTaskState.Matches;
      hide Emit, Next, RequestOf, Begin, StatusResponse, FixedResponse, Low32;
      hide Enabled;
      MemoryIsCounts();
      Proceeds(step);
      if step.AppRead? {
        app.ReadCounter(step.counter, Memory(), model.app, Counts(model));
      } else {
        app.Format(model.app);
      }
      steps, model := steps + [step], Perform(model, step);
    }

    // What stands in memory are the abstract counters, wrapped.
    lemma MemoryIsCounts()
      requires Valid()
      ensures Memory() == Low32(Counts(model))
    {
      hide Reaches, UartPort.Matches, ParserTaskState.Matches, AppTaskState.Matches, TransmitTaskState.Matches;
      hide ActuatorTaskState.Matches;
      uart.Guards(model.uart);
      parsing.Guards(model.parsing);
      app.Guards(model.app);
    }

    // task_uart_tx and task_actuators
    method TakeOutput(step: Step)
      requires Valid() && Possible(step)
      requires step in {TxReceive, TxByte, ActuatorReceive, ActuatorApply}
      modifies this, tx, tx.frame, act
      ensures Valid() && steps == old(steps) + [step]
    {
      hide Reaches, UartPort.Matches, ParserTaskState.Matches, AppTaskState.Matches, TransmitTaskState.Matches;
      hide ActuatorTaskState.Matches;
      hide WireBytes, Apply;
      hide Enabled;
      Proceeds(step);
      if step.TxReceive? {
        tx.Guards(model.tx);
        FirstIsEncodable(steps, model);
        tx.Receive(model.tx);
      } else if step.TxByte? {
        tx.SendByte(model.tx);
      } else if step.ActuatorReceive? {
        act.Receive(model.act);
      } else {
        act.ApplyCommand(model.act);
      }
      steps, model := steps + [step], Perform(model, step);
    }

    // Any possible step.
    method Take(step: Step)
      requires Valid() && Possible(step)
      modifies this, uart, parsing, app, tx, act, tx.frame
      modifies parsing.parser, parsing.parser.lengthField, parsing.parser.body, parsing.parser.checksumField
      ensures Valid() && steps == old(steps) + [step]
    {
      hide Valid, Possible;
      match step
      case Interrupt(_) | SetRxQueue | StartScheduler | RxReceive | RxSend => TakeUart(step);
      case ParserReceive | ParserCountByte | ParserConsume => TakeParser(step);
      case ParserCountMessage | ParserCountError | ParserSend => TakeVerdict(step);
      case AppReceive | AppCount => TakeApp(step);
      case AppActuate | AppCountError => TakeBranch(step);
      case AppSend => TakeAnswer();
      case AppRead(_) | AppFormat => TakeStatus(step);
      case TxReceive | TxByte | ActuatorReceive | ActuatorApply => TakeOutput(step);
    }

    // Nothing is queued and no task holds anything.
    predicate Resting()
      reads this, uart, parsing, app, tx, act
    {
      && tasksRunning && uart.queueSet
      && uart.queue == [] && !uart.holds && parsing.queue == [] && parsing.at == AtReceive
      && app.queue == [] && app.at == AtWait && tx.queue == [] && !tx.Sending()
      && act.queue == [] && !act.holds
    }

    // A scheduler that favours the tasks nearest to the outputs.
    method NextStep() returns (step: Step)
      requires !Resting()
      ensures Possible(step) && !step.Interrupt?
    {
      if !uart.queueSet || !tasksRunning {
        return if !uart.queueSet then SetRxQueue else StartScheduler;
      } else if tx.Sending() || tx.queue != [] {
        return if tx.Sending() then TxByte else TxReceive;
      } else if act.holds || act.queue != [] {
        return if act.holds then ActuatorApply else ActuatorReceive;
      } else if app.at != AtWait || app.queue != [] {
        step := NextOfApp();
      } else {
        step := NextOfInput();
      }
    }

    method NextOfApp() returns (step: Step)
      requires tasksRunning && tx.queue == [] && act.queue == [] && (app.at != AtWait || app.queue != [])
      ensures Possible(step) && !step.Interrupt?
    {
      match app.at
      case AtWait => return AppReceive;
      case AtCount => return AppCount;
      case AtActuate => return AppActuate;
      case AtRead =>
        if app.unread == {} {
          return AppFormat;
        }
        var counter :| counter in app.unread;
        return AppRead(counter);
      case AtSendStatus | AtSendOk | AtSendPong | AtSendWrongType | AtSendUnknown => return AppSend;
      case AtCountRefusal => return AppCountError;
    }

    method NextOfInput() returns (step: Step)
      requires tasksRunning && app.queue == []
      requires parsing.at != AtReceive || parsing.queue != [] || uart.holds || uart.queue != []
      ensures Possible(step) && !step.Interrupt?
    {
      match parsing.at
      case AtCountByte => return ParserCountByte;
      case AtConsume => return ParserConsume;
      case AtCountMessage => return ParserCountMessage;
      case AtSend => return ParserSend;
      case AtCountError => return ParserCountError;
      case AtReceive => return if parsing.queue != [] then ParserReceive else if uart.holds then RxSend else RxReceive;
    }
  }
}
