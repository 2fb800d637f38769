/** `app.c` and `actuators.c`: what a message means to the application and to the LED. */
module App {
  import opened Bytes
  import opened Codec
  import opened Status

  // actuator_command_t, as its two C strings.
  datatype Command = Command(target: seq<byte>, action: seq<byte>)

  const LED := Ascii("led")
  const ON := Ascii("on")
  const OFF := Ascii("off")
  const TOGGLE := Ascii("toggle")
  const EQUALS := Ascii("=")
  const PING := Ascii("ping")
  const STATUS := Ascii("status?")
  const CMD_OK := Ascii("cmd=ok")
  const PONG := Ascii("pong=1")
  const UNEXPECTED_TYPE := Ascii("code=unexpected_type")
  const UNKNOWN_CMD := Ascii("code=unknown_cmd")

  // What app_handle_message decides to do with a message. Payloads are compared with strcmp, so only
  // the bytes before a NUL count.
  datatype Request = WrongType | Led(command: Command) | Ping | StatusQuery | Unknown

  // build_led_command
  function LedCommand(payload: seq<byte>): Option<Command> {
    if CString(payload) == LED + EQUALS + ON then Some(Command(LED, ON))
    else if CString(payload) == LED + EQUALS + OFF then Some(Command(LED, OFF))
    else if CString(payload) == LED + EQUALS + TOGGLE then Some(Command(LED, TOGGLE))
    else None
  }

  function RequestOf(m: Message): Request {
    if m.kind != Cmd then WrongType
    else match LedCommand(m.payload)
      case Some(command) => Led(command)
      case None =>
        if CString(m.payload) == PING then Ping
        else if CString(m.payload) == STATUS then StatusQuery
        else Unknown
  }

  lemma CStringOfPlain(text: seq<byte>)
    requires NUL !in text
    ensures CString(text) == text
  {
    CStringStops(text, []);
    CStringTerminated(text, []);
  }

  // The response to everything but a status query.
  function FixedResponse(r: Request): Message
    requires r != StatusQuery
  {
    match r
    case WrongType => Message(Err, UNEXPECTED_TYPE)
    case Led(_) => Message(Ack, CMD_OK)
    case Ping => Message(Ack, PONG)
    case Unknown => Message(Err, UNKNOWN_CMD)
  }

  function StatusResponse(c: Counters): Message {
    Message(Sts, StatusPayload(Low32(c)))
  }

  // The requests that app_handle_message counts as application errors.
  predicate Refused(r: Request) {
    r == WrongType || r == Unknown
  }

  // Every response can be framed, and its frame cannot be misread.
  predicate Sendable(m: Message) {
    Encodable(m) && forall b :: b in m.payload ==> b !in {NUL, END, CR, START}
  }

  lemma TextBytes(i: nat)
    ensures i < |UNEXPECTED_TYPE| == 20 ==> UNEXPECTED_TYPE[i] >= 49
    ensures i < |UNKNOWN_CMD| == 16 ==> UNKNOWN_CMD[i] >= 49
    ensures i < |CMD_OK| == 6 ==> CMD_OK[i] >= 49
    ensures i < |PONG| == 6 ==> PONG[i] >= 49
  {
  }

  lemma FixedSendable(r: Request)
    requires r != StatusQuery
    ensures Sendable(FixedResponse(r))
  {
    var text := FixedResponse(r).payload;
    assert |text| <= MAX_PAYLOAD;
    forall b | b in text ensures b !in {NUL, END, CR, START} {
      var i :| 0 <= i < |text| && text[i] == b;
      TextBytes(i);
    }
  }

  lemma StatusSendable(c: Counters)
    ensures Sendable(StatusResponse(c))
  {
    hide StatusPayload;
    StatusEncodable(Low32(c));
  }

  // ---------- The LED ----------

  // actuators_apply_command on the pin. The LED is active low: it is lit while the pin is false.
  function Apply(pin: bool, c: Command): bool {
    if c.target != LED then pin
    else if c.action == ON then false
    else if c.action == OFF then true
    else if c.action == TOGGLE then !pin
    else pin
  }

  function ApplyAll(pin: bool, commands: seq<Command>): bool {
    if commands == [] then pin else Apply(ApplyAll(pin, commands[..|commands| - 1]), commands[|commands| - 1])
  }

  // The LED commands among the handled messages, in order.
  function Commands(handled: seq<Message>): seq<Command> {
    if handled == [] then []
    else Commands(handled[..|handled| - 1])
         + match RequestOf(handled[|handled| - 1]) { case Led(c) => [c] case _ => [] }
  }

  // The number of `cmd=ok` acknowledgements.
  function OkCount(responses: seq<Message>): nat {
    if responses == [] then 0
    else OkCount(responses[..|responses| - 1])
         + if responses[|responses| - 1] == Message(Ack, CMD_OK) then 1 else 0
  }

  lemma CommandsSnoc(handled: seq<Message>, m: Message)
    ensures Commands(handled + [m]) == Commands(handled) + match RequestOf(m) { case Led(c) => [c] case _ => [] }
  {
    assert (handled + [m])[..|handled|] == handled;
  }

  lemma ApplySnoc(pin: bool, commands: seq<Command>, c: Command)
    ensures ApplyAll(pin, commands + [c]) == Apply(ApplyAll(pin, commands), c)
  {
    assert (commands + [c])[..|commands|] == commands;
  }

  // The last command that is not a toggle, and the number of toggles after it, decide the LED.
  lemma {:induction false} LedMeaning(commands: seq<Command>)
    requires forall i :: 0 <= i < |commands| ==> commands[i].target == LED && commands[i].action in {ON, OFF, TOGGLE}
    ensures ApplyAll(true, commands) <==> (Toggles(commands) % 2 == 0) == (LastFixed(commands) != ON)
  {
    if commands != [] {
      LedMeaning(commands[..|commands| - 1]);
    }
  }

  // How many toggles end the list.
  function Toggles(commands: seq<Command>): nat {
    if commands == [] || commands[|commands| - 1].action != TOGGLE then 0
    else 1 + Toggles(commands[..|commands| - 1])
  }

  // The last action that is not a toggle; the LED starts off.
  function LastFixed(commands: seq<Command>): seq<byte> {
    if commands == [] then OFF
    else if commands[|commands| - 1].action != TOGGLE then commands[|commands| - 1].action
    else LastFixed(commands[..|commands| - 1])
  }
}
