/** `tasks.c` with `usart1_isr` and the application: interrupt and tasks as steps that interleave
    freely. One step per queue operation, per shared counter access, per transmitted byte. */
module Pipeline {
  import opened Bytes
  import opened Codec
  import opened Stream
  import opened Status
  import opened App
  import opened Meaning

  const ISR_QUEUE_LENGTH := 64
  const PARSER_QUEUE_LENGTH := 64
  const APP_QUEUE_LENGTH := 8
  const TX_QUEUE_LENGTH := 8
  const ACTUATOR_QUEUE_LENGTH := 8

  // Interrupts are enabled before the receive queue is set, and the queue before the tasks run.
  datatype Phase = Booting | QueueSet | Running

  // usart1_isr and task_uart_rx. `irq` and `drops` count without wrapping; `accepted` logs the bytes queued.
  datatype Uart = Uart(phase: Phase, irq: nat, drops: nat, early: nat, accepted: seq<byte>,
                       queue: seq<byte>, hand: Option<byte>)

  datatype ParserTask =
    | ParserIdle
    | ParserGot(byte: byte)           // received, not yet counted
    | ParserCounted(byte: byte)       // counted, not yet consumed
    | ParserFound(message: Message)   // READY, not yet counted
    | ParserSending(message: Message) // counted, not yet queued
    | ParserFailed                    // ERROR, not yet counted

  // task_parser. `parsed` logs the bytes consumed.
  datatype Parsing = Parsing(queue: seq<byte>, task: ParserTask, pending: seq<byte>, parsed: seq<byte>,
                             bytes: nat, messages: nat, errors: nat)

  datatype Shared = IrqCount | ByteCount | MessageCount | ErrorCount | DropCount

  datatype AppTask =
    | AppIdle
    | AppGot(message: Message)                                              // not yet counted
    | AppActuating(message: Message, command: Command)                      // command not yet queued
    | AppReading(message: Message, read: Counters, left: set<Shared>)       // counters still to be read
    | AppSending(message: Message, response: Message)                       // response not yet queued
    | AppFailing(message: Message)                                          // error not yet counted

  // task_app. `handled`, `marks` and `responses` log the messages received, the counters when each was
  // counted, and the responses queued.
  datatype Application = Application(queue: seq<Message>, task: AppTask, rx: nat, ae: nat,
                                     handled: seq<Message>, marks: seq<Counters>, responses: seq<Message>)

  // task_uart_tx. `rest` is what remains to be sent of the current frame; `taken` logs the messages received.
  datatype Transmission = Transmission(queue: seq<Message>, rest: seq<byte>, taken: seq<Message>, wire: seq<byte>)

  // task_actuators. `commands` logs the commands queued, `applied` those carried out.
  datatype Actuation = Actuation(queue: seq<Command>, hand: Option<Command>, pin: bool,
                                 commands: seq<Command>, applied: seq<Command>)

  datatype System = System(uart: Uart, parsing: Parsing, app: Application, tx: Transmission, act: Actuation)

  // The seven counters, unwrapped.
  function Counts(s: System): Counters {
    Counters(s.app.rx, s.app.ae, s.uart.irq, s.parsing.bytes, s.parsing.messages, s.parsing.errors, s.uart.drops)
  }

  // After actuators_init the pin is high: the LED is off.
  const INITIAL: System := System(
    Uart(Booting, 0, 0, 0, [], [], None),
    Parsing([], ParserIdle, [], [], 0, 0, 0),
    Application([], AppIdle, 0, 0, [], [], []),
    Transmission([], [], [], []),
    Actuation([], None, true, [], []))

  datatype Step =
    | Interrupt(byte: byte)
    | SetRxQueue
    | StartScheduler
    | RxReceive
    | RxSend
    | ParserReceive
    | ParserCountByte
    | ParserConsume
    | ParserCountMessage
    | ParserCountError
    | ParserSend
    | AppReceive
    | AppCount
    | AppActuate
    | AppRead(counter: Shared)
    | AppFormat
    | AppSend
    | AppCountError
    | TxReceive
    | TxByte
    | ActuatorReceive
    | ActuatorApply

  // Blocking queue operations are possible only when the queue has an item, or room for one.
  predicate Enabled(s: System, step: Step) {
    var running := s.uart.phase == Running;
    match step
    case Interrupt(_) => true
    case SetRxQueue => s.uart.phase == Booting
    case StartScheduler => s.uart.phase == QueueSet
    case RxReceive => running && s.uart.hand == None && s.uart.queue != []
    case RxSend => running && s.uart.hand.Some? && |s.parsing.queue| < PARSER_QUEUE_LENGTH
    case ParserReceive => running && s.parsing.task.ParserIdle? && s.parsing.queue != []
    case ParserCountByte => running && s.parsing.task.ParserGot?
    case ParserConsume => running && s.parsing.task.ParserCounted?
    case ParserCountMessage => running && s.parsing.task.ParserFound?
    case ParserCountError => running && s.parsing.task.ParserFailed?
    case ParserSend => running && s.parsing.task.ParserSending? && |s.app.queue| < APP_QUEUE_LENGTH
    case AppReceive => running && s.app.task.AppIdle? && s.app.queue != []
    case AppCount => running && s.app.task.AppGot?
    case AppActuate => running && s.app.task.AppActuating? && |s.act.queue| < ACTUATOR_QUEUE_LENGTH
    case AppRead(counter) => running && s.app.task.AppReading? && counter in s.app.task.left
    case AppFormat => running && s.app.task.AppReading? && s.app.task.left == {}
    case AppSend => running && s.app.task.AppSending? && |s.tx.queue| < TX_QUEUE_LENGTH
    case AppCountError => running && s.app.task.AppFailing?
    case TxReceive => running && s.tx.rest == [] && s.tx.queue != []
    case TxByte => running && s.tx.rest != []
    case ActuatorReceive => running && s.act.hand == None && s.act.queue != []
    case ActuatorApply => running && s.act.hand.Some?
  }

  // usart1_isr with a received byte
  function OnInterrupt(u: Uart, b: byte): Uart {
    var counted := u.(irq := u.irq + 1);
    if u.phase == Booting then counted.(early := u.early + 1)
    else if |u.queue| < ISR_QUEUE_LENGTH then counted.(queue := u.queue + [b], accepted := u.accepted + [b])
    else counted.(drops := u.drops + 1)
  }

  // parser_consume_byte inside task_parser
  function OnConsume(p: Parsing, b: byte): Parsing {
    p.(pending := Next(p.pending, b), parsed := p.parsed + [b],
       task := match Emit(p.pending, b)
               case InProgress => ParserIdle
               case Ready(m) => ParserFound(m)
               case Error => ParserFailed)
  }

  const ALL_SHARED: set<Shared> := {IrqCount, ByteCount, MessageCount, ErrorCount, DropCount}

  // The first decision of app_handle_message. A status query captures the application's own two counters.
  function Begin(m: Message, counts: Counters): AppTask {
    match RequestOf(m)
    case Led(command) => AppActuating(m, command)
    case StatusQuery => AppReading(m, counts, ALL_SHARED)
    case other => AppSending(m, FixedResponse(other))
  }

  // Reading one shared counter takes its value at that moment.
  function Read(read: Counters, counts: Counters, counter: Shared): Counters {
    match counter
    case IrqCount => read.(irq := counts.irq)
    case ByteCount => read.(pb := counts.pb)
    case MessageCount => read.(pm := counts.pm)
    case ErrorCount => read.(pe := counts.pe)
    case DropCount => read.(qd := counts.qd)
  }

  // A frame as task_uart_tx sends it: "\r\n" in place of '\n'. Nothing is sent when encoding fails.
  function WireBytes(m: Message): seq<byte> {
    if Encodable(m) && NUL !in m.payload
    then Frame(m)[..|Frame(m)| - 1] + [CR, END]
    else []
  }

  // usart1_isr
  function AfterInterrupt(s: System, b: byte): System
    requires Enabled(s, Interrupt(b))
  {
    s.(uart := OnInterrupt(s.uart, b))
  }

  // tasks_start
  function AfterSetRxQueue(s: System): System
    requires Enabled(s, SetRxQueue)
  {
    s.(uart := s.uart.(phase := QueueSet))
  }

  function AfterStartScheduler(s: System): System
    requires Enabled(s, StartScheduler)
  {
    s.(uart := s.uart.(phase := Running))
  }

  // task_uart_rx: xQueueReceive, then xQueueSend
  function AfterRxReceive(s: System): System
    requires Enabled(s, RxReceive)
  {
    s.(uart := s.uart.(hand := Some(s.uart.queue[0]), queue := s.uart.queue[1..]))
  }

  function AfterRxSend(s: System): System
    requires Enabled(s, RxSend)
  {
    s.(uart := s.uart.(hand := None), parsing := s.parsing.(queue := s.parsing.queue + [s.uart.hand.value]))
  }

  // task_parser
  function AfterParserReceive(s: System): System
    requires Enabled(s, ParserReceive)
  {
    s.(parsing := s.parsing.(task := ParserGot(s.parsing.queue[0]), queue := s.parsing.queue[1..]))
  }

  function AfterParserCountByte(s: System): System
    requires Enabled(s, ParserCountByte)
  {
    s.(parsing := s.parsing.(task := ParserCounted(s.parsing.task.byte), bytes := s.parsing.bytes + 1))
  }

  function AfterParserConsume(s: System): System
    requires Enabled(s, ParserConsume)
  {
    s.(parsing := OnConsume(s.parsing, s.parsing.task.byte))
  }

  function AfterParserCountMessage(s: System): System
    requires Enabled(s, ParserCountMessage)
  {
    s.(parsing := s.parsing.(task := ParserSending(s.parsing.task.message), messages := s.parsing.messages + 1))
  }

  function AfterParserCountError(s: System): System
    requires Enabled(s, ParserCountError)
  {
    s.(parsing := s.parsing.(task := ParserIdle, errors := s.parsing.errors + 1))
  }

  function AfterParserSend(s: System): System
    requires Enabled(s, ParserSend)
  {
    s.(parsing := s.parsing.(task := ParserIdle), app := s.app.(queue := s.app.queue + [s.parsing.task.message]))
  }

  // task_app and app_handle_message
  function AfterAppReceive(s: System): System
    requires Enabled(s, AppReceive)
  {
    var m := s.app.queue[0];
    s.(app := s.app.(task := AppGot(m), queue := s.app.queue[1..], handled := s.app.handled + [m]))
  }

  function AfterAppCount(s: System): System
    requires Enabled(s, AppCount)
  {
    var counts := Counts(s).(rx := s.app.rx + 1);
    s.(app := s.app.(task := Begin(s.app.task.message, counts), rx := s.app.rx + 1, marks := s.app.marks + [counts]))
  }

  function AfterAppActuate(s: System): System
    requires Enabled(s, AppActuate)
  {
    var c := s.app.task.command;
    s.(app := s.app.(task := AppSending(s.app.task.message, FixedResponse(Led(c)))),
       act := s.act.(queue := s.act.queue + [c], commands := s.act.commands + [c]))
  }

  function AfterAppRead(s: System, counter: Shared): System
    requires Enabled(s, AppRead(counter))
  {
    var read := Read(s.app.task.read, Counts(s), counter);
    s.(app := s.app.(task := AppReading(s.app.task.message, read, s.app.task.left - {counter})))
  }

  function AfterAppFormat(s: System): System
    requires Enabled(s, AppFormat)
  {
    s.(app := s.app.(task := AppSending(s.app.task.message, StatusResponse(s.app.task.read))))
  }

  function AfterAppSend(s: System): System
    requires Enabled(s, AppSend)
  {
    var after := if Refused(RequestOf(s.app.task.message)) then AppFailing(s.app.task.message) else AppIdle;
    s.(app := s.app.(task := after, responses := s.app.responses + [s.app.task.response]),
       tx := s.tx.(queue := s.tx.queue + [s.app.task.response]))
  }

  function AfterAppCountError(s: System): System
    requires Enabled(s, AppCountError)
  {
    s.(app := s.app.(task := AppIdle, ae := s.app.ae + 1))
  }

  // task_uart_tx
  function AfterTxReceive(s: System): System
    requires Enabled(s, TxReceive)
  {
    var m := s.tx.queue[0];
    s.(tx := s.tx.(queue := s.tx.queue[1..], taken := s.tx.taken + [m], rest := WireBytes(m)))
  }

  function AfterTxByte(s: System): System
    requires Enabled(s, TxByte)
  {
    s.(tx := s.tx.(wire := s.tx.wire + [s.tx.rest[0]], rest := s.tx.rest[1..]))
  }

  // task_actuators
  function AfterActuatorReceive(s: System): System
    requires Enabled(s, ActuatorReceive)
  {
    s.(act := s.act.(hand := Some(s.act.queue[0]), queue := s.act.queue[1..]))
  }

  function AfterActuatorApply(s: System): System
    requires Enabled(s, ActuatorApply)
  {
    var c := s.act.hand.value;
    s.(act := s.act.(hand := None, pin := Apply(s.act.pin, c), applied := s.act.applied + [c]))
  }

  function Perform(s: System, step: Step): System
    requires Enabled(s, step)
  {
    match step
    case Interrupt(b) => AfterInterrupt(s, b)
    case SetRxQueue => AfterSetRxQueue(s)
    case StartScheduler => AfterStartScheduler(s)
    case RxReceive => AfterRxReceive(s)
    case RxSend => AfterRxSend(s)
    case ParserReceive => AfterParserReceive(s)
    case ParserCountByte => AfterParserCountByte(s)
    case ParserConsume => AfterParserConsume(s)
    case ParserCountMessage => AfterParserCountMessage(s)
    case ParserCountError => AfterParserCountError(s)
    case ParserSend => AfterParserSend(s)
    case AppReceive => AfterAppReceive(s)
    case AppCount => AfterAppCount(s)
    case AppActuate => AfterAppActuate(s)
    case AppRead(counter) => AfterAppRead(s, counter)
    case AppFormat => AfterAppFormat(s)
    case AppSend => AfterAppSend(s)
    case AppCountError => AfterAppCountError(s)
    case TxReceive => AfterTxReceive(s)
    case TxByte => AfterTxByte(s)
    case ActuatorReceive => AfterActuatorReceive(s)
    case ActuatorApply => AfterActuatorApply(s)
  }

  // ---------- Runs ----------

  predicate IsRun(s: System, steps: seq<Step>)
    decreases |steps|, 0
  {
    steps == [] || (IsRun(s, steps[..|steps| - 1]) && Enabled(After(s, steps[..|steps| - 1]), steps[|steps| - 1]))
  }

  // The state after a run.
  function After(s: System, steps: seq<Step>): System
    requires IsRun(s, steps)
    decreases |steps|, 1
  {
    if steps == [] then s else Perform(After(s, steps[..|steps| - 1]), steps[|steps| - 1])
  }

  // ---------- Invariant ----------

  function Held(hand: Option<byte>): seq<byte> {
    if hand.Some? then [hand.value] else []
  }

  function HeldByte(task: ParserTask): seq<byte> {
    if task.ParserGot? || task.ParserCounted? then [task.byte] else []
  }

  function HeldMessage(task: ParserTask): seq<Message> {
    if task.ParserFound? || task.ParserSending? then [task.message] else []
  }

  predicate UartOk(u: Uart) {
    && u.irq == u.early + u.drops + |u.accepted|
    && |u.queue| <= ISR_QUEUE_LENGTH
    && (u.phase == Booting ==> u.drops == 0 && u.accepted == [])
  }

  // Every accepted byte is consumed, in a hand or in a queue, in arrival order.
  predicate BytesFlow(u: Uart, p: Parsing) {
    && u.accepted == p.parsed + HeldByte(p.task) + p.queue + Held(u.hand) + u.queue
    && |p.queue| <= PARSER_QUEUE_LENGTH
  }

  predicate ParsingOk(p: Parsing) {
    && p.pending == Run([], p.parsed)
    && p.bytes == |p.parsed| + (if p.task.ParserCounted? then 1 else 0)
    && p.messages + (if p.task.ParserFound? then 1 else 0) == |Delivered(p.parsed)|
    && p.errors + (if p.task.ParserFailed? then 1 else 0) == Errors(p.parsed)
  }

  // Every message the receiver delivers is handled or on its way to the application, in order.
  predicate MessagesFlow(p: Parsing, a: Application) {
    && Delivered(p.parsed) == a.handled + a.queue + HeldMessage(p.task)
    && |a.queue| <= APP_QUEUE_LENGTH
  }

  // The application has a message that it has not answered.
  predicate Busy(task: AppTask) {
    task.AppGot? || task.AppActuating? || task.AppReading? || task.AppSending?
  }

  predicate ApplicationOk(a: Application) {
    && |a.marks| == a.rx
    && a.rx + (if a.task.AppGot? then 1 else 0) == |a.handled|
    && |a.responses| + (if Busy(a.task) then 1 else 0) == |a.handled|
    && (!a.task.AppIdle? ==> |a.handled| > 0 && a.handled[|a.handled| - 1] == a.task.message)
    && (a.task.AppActuating? ==> RequestOf(a.task.message) == Led(a.task.command))
    && (a.task.AppReading? ==> RequestOf(a.task.message) == StatusQuery)
    && (a.task.AppFailing? ==> Refused(RequestOf(a.task.message)))
    && a.ae + (if a.task.AppFailing? then 1 else 0) == RefusedCount(a.handled[..|a.responses|])
  }

  // What the application counted when it counted a message: its position, and the refusals before it.
  predicate MarksOk(a: Application) {
    && |a.marks| <= |a.handled|
    && forall i :: 0 <= i < |a.marks| ==> a.marks[i].rx == i + 1 && a.marks[i].ae == RefusedCount(a.handled[..i])
  }

  // r answers m. The counters in a status report were each read at a moment between `from` and `to`.
  ghost predicate Answers(m: Message, r: Message, from: Counters, to: Counters) {
    AnswerText(m, r) && (AsksStatus(m) ==> exists c :: Snapshot(from, c, to) && r == StatusResponse(c))
  }

  predicate Snapshot(from: Counters, c: Counters, to: Counters) {
    Below(from, c) && Below(c, to) && c.rx == from.rx && c.ae == from.ae
  }

  // The counters when message i + 1 was counted, or now.
  function Until(a: Application, counts: Counters, i: nat): Counters {
    if i + 1 < |a.marks| then a.marks[i + 1] else counts
  }

  ghost predicate AnswersOk(a: Application, counts: Counters) {
    && |a.responses| <= |a.marks| <= |a.handled|
    && (forall i :: 0 <= i < |a.marks| ==> Below(a.marks[i], counts))
    && (forall i :: 0 <= i < |a.responses| ==> Answers(a.handled[i], a.responses[i], a.marks[i], Until(a, counts, i)))
    && (a.task.AppReading? ==> |a.marks| > 0 && Snapshot(a.marks[|a.marks| - 1], a.task.read, counts))
    && (a.task.AppSending? ==>
          |a.marks| > 0 && Answers(a.task.message, a.task.response, a.marks[|a.marks| - 1], counts))
  }

  predicate ResponsesFlow(a: Application, t: Transmission) {
    a.responses == t.taken + t.queue && |t.queue| <= TX_QUEUE_LENGTH
  }

  function WireText(ms: seq<Message>): seq<byte> {
    if ms == [] then [] else WireText(ms[..|ms| - 1]) + WireBytes(ms[|ms| - 1])
  }

  predicate TransmissionOk(t: Transmission) {
    && t.wire + t.rest == WireText(t.taken)
    && (t.rest != [] ==> t.taken != [] && |t.rest| <= |WireBytes(t.taken[|t.taken| - 1])|)
  }

  function HeldCommand(hand: Option<Command>): seq<Command> {
    if hand.Some? then [hand.value] else []
  }

  // The command of the message being answered has been queued already.
  function Ahead(a: Application): seq<Command> {
    if a.task.AppSending? then match RequestOf(a.task.message) { case Led(c) => [c] case _ => [] } else []
  }

  predicate ActuationOk(a: Application, c: Actuation) {
    && |a.responses| <= |a.handled|
    && c.commands == Commands(a.handled[..|a.responses|]) + Ahead(a)
    && c.commands == c.applied + HeldCommand(c.hand) + c.queue
    && |c.queue| <= ACTUATOR_QUEUE_LENGTH
    && c.pin == ApplyAll(true, c.applied)
  }

  ghost predicate Inv(s: System) {
    && UartOk(s.uart)
    && BytesFlow(s.uart, s.parsing)
    && ParsingOk(s.parsing)
    && MessagesFlow(s.parsing, s.app)
    && ApplicationOk(s.app)
    && MarksOk(s.app)
    && AnswersOk(s.app, Counts(s))
    && ResponsesFlow(s.app, s.tx)
    && TransmissionOk(s.tx)
    && ActuationOk(s.app, s.act)
  }
}
