/** The limit of the status report is sharp: a run that receives one byte more than is safe and whose
    report is truncated. */
module StatusLimit {
  import opened Bytes
  import opened Codec
  import opened Stream
  import opened StreamTheorems
  import opened Resync
  import opened Status
  import opened App
  import opened Meaning
  import opened Pipeline
  import opened PipelineInvariant
  import opened PipelineTheorems

  // ---------- Runs that receive what one likes ----------

  // The system is ready to receive, has accepted `accepted` and lost `drops` bytes, all after booting.
  predicate Took(s: System, accepted: seq<byte>, drops: nat) {
    && s.uart.phase == Running && s.uart.early == 0
    && s.uart.accepted == accepted && s.uart.drops == drops
  }

  lemma TookKept(s: System, step: Step, accepted: seq<byte>, drops: nat)
    requires Enabled(s, step) && !step.Interrupt? && Took(s, accepted, drops)
    ensures Took(Perform(s, step), accepted, drops)
  {
    hide Perform, Enabled;
    InputKept(s, step);
  }

  lemma {:induction false} TookLater(done: seq<Step>, steps: seq<Step>, accepted: seq<byte>, drops: nat)
    requires IsRun(INITIAL, steps) && done <= steps
    requires forall i :: |done| <= i < |steps| ==> !steps[i].Interrupt?
    requires IsRun(INITIAL, done) && Took(After(INITIAL, done), accepted, drops)
    ensures Took(After(INITIAL, steps), accepted, drops)
  {
    hide Perform, Enabled, Took;
    if |done| == |steps| {
      assert done == steps;
    } else {
      var front := steps[..|steps| - 1];
      TookLater(done, front, accepted, drops);
      TookKept(After(INITIAL, front), steps[|steps| - 1], accepted, drops);
    }
  }

  lemma Settle(done: seq<Step>, accepted: seq<byte>, drops: nat) returns (steps: seq<Step>)
    requires IsRun(INITIAL, done) && Took(After(INITIAL, done), accepted, drops)
    ensures IsRun(INITIAL, steps) && Drained(After(INITIAL, steps)) && Took(After(INITIAL, steps), accepted, drops)
  {
    hide IsRun, After, Took, Drained;
    steps := CanDrain(INITIAL, done);
    TookLater(done, steps, accepted, drops);
  }

  lemma NoSteps()
    ensures IsRun(INITIAL, []) && After(INITIAL, []) == INITIAL
  {
  }

  lemma Boot() returns (steps: seq<Step>)
    ensures IsRun(INITIAL, steps) && After(INITIAL, steps).uart.queue == [] && Took(After(INITIAL, steps), [], 0)
  {
    NoSteps();
    hide IsRun, After;
    Extend([], SetRxQueue);
    Extend([] + [SetRxQueue], StartScheduler);
    steps := [] + [SetRxQueue] + [StartScheduler];
  }

  // What an empty queue of the interrupt keeps of a burst.
  function Kept(bytes: seq<byte>): seq<byte> {
    if |bytes| <= 64 then bytes else bytes[..64]
  }

  // The port after a burst.
  function AfterBurst(u: Uart, bytes: seq<byte>): Uart {
    u.(irq := u.irq + |bytes|, queue := Kept(bytes), accepted := u.accepted + Kept(bytes),
       drops := u.drops + |bytes| - |Kept(bytes)|)
  }

  lemma BurstByte(u: Uart, bytes: seq<byte>, b: byte)
    requires u.phase != Booting && u.queue == []
    ensures OnInterrupt(AfterBurst(u, bytes), b) == AfterBurst(u, bytes + [b])
  {
    assert |bytes| > 64 ==> (bytes + [b])[..64] == bytes[..64];
    assert |bytes| == 64 ==> (bytes + [b])[..64] == bytes;
    assert u.accepted + bytes + [b] == u.accepted + (bytes + [b]);
  }

  /** Bytes that arrive before any task runs: exactly the first 64 are accepted, in order, and all others
      are counted as dropped. */
  lemma {:induction false} Burst(done: seq<Step>, bytes: seq<byte>) returns (steps: seq<Step>)
    requires IsRun(INITIAL, done)
    requires After(INITIAL, done).uart.queue == [] && After(INITIAL, done).uart.phase != Booting
    ensures IsRun(INITIAL, steps)
    ensures After(INITIAL, steps).uart == AfterBurst(After(INITIAL, done).uart, bytes)
  {
    hide IsRun, After, OnInterrupt;
    if bytes == [] {
      steps := done;
      assert After(INITIAL, done).uart.accepted + [] == After(INITIAL, done).uart.accepted;
    } else {
      var front, last := bytes[..|bytes| - 1], bytes[|bytes| - 1];
      var before := Burst(done, front);
      Extend(before, Interrupt(last));
      BurstByte(After(INITIAL, done).uart, front, last);
      assert front + [last] == bytes;
      steps := before + [Interrupt(last)];
    }
  }

  // Bytes that arrive one by one, each at a drained system, are accepted.
  lemma {:induction false} Trickle(done: seq<Step>, accepted: seq<byte>, drops: nat, bytes: seq<byte>)
    returns (steps: seq<Step>)
    requires IsRun(INITIAL, done) && Drained(After(INITIAL, done)) && Took(After(INITIAL, done), accepted, drops)
    ensures IsRun(INITIAL, steps) && Drained(After(INITIAL, steps))
    ensures Took(After(INITIAL, steps), accepted + bytes, drops)
  {
    hide IsRun, After;
    if bytes == [] {
      assert accepted + bytes == accepted;
      steps := done;
    } else {
      var front, last := bytes[..|bytes| - 1], bytes[|bytes| - 1];
      var before := Trickle(done, accepted, drops, front);
      Extend(before, Interrupt(last));
      assert accepted + front + [last] == accepted + bytes;
      steps := Settle(before + [Interrupt(last)], accepted + bytes, drops);
    }
  }

  // A burst that fills the queue, bytes lost behind it, and the rest at leisure.
  lemma BurstAndRest(burst: seq<byte>, lost: seq<byte>, rest: seq<byte>) returns (steps: seq<Step>)
    requires |burst| == 64
    ensures IsRun(INITIAL, steps) && Drained(After(INITIAL, steps))
    ensures Took(After(INITIAL, steps), burst + rest, |lost|)
  {
    hide IsRun, After, Drained;
    assert (burst + lost)[..64] == burst && [] + burst == burst;
    steps := Boot();
    steps := Burst(steps, burst + lost);
    steps := Settle(steps, burst, |lost|);
    steps := Trickle(steps, burst, |lost|, rest);
  }

  /** A long enough byte stream can be accepted whole, with any other bytes lost on the way. */
  lemma AnyInput(bytes: seq<byte>, lost: seq<byte>) returns (steps: seq<Step>)
    requires |bytes| >= 64
    ensures IsRun(INITIAL, steps) && Drained(After(INITIAL, steps)) && Took(After(INITIAL, steps), bytes, |lost|)
  {
    hide IsRun, After, Took, Drained;
    steps := BurstAndRest(bytes[..64], lost, bytes[64..]);
    assert bytes[..64] + bytes[64..] == bytes;
  }

  // ---------- The byte that completes a status query ----------

  // From a drained system, the byte b completes message m and travels to the parser.
  predicate Completes(s: System, b: byte, m: Message) {
    Drained(s) && Emit(s.parsing.pending, b) == Ready(m) && RequestOf(m) == StatusQuery
  }

  // What the application sees of a system with nothing on the way but message m, found by the parser.
  predicate Found(s: System, m: Message, a: Application, c: Counters) {
    && s.uart.phase == Running && s.parsing.task == ParserFound(m)
    && s.app == a && a.task == AppIdle && a.queue == [] && s.tx.queue == []
    && Counts(s) == c
  }

  lemma Arrives(done: seq<Step>, b: byte, m: Message) returns (steps: seq<Step>)
    requires IsRun(INITIAL, done) && Completes(After(INITIAL, done), b, m)
    ensures IsRun(INITIAL, steps)
    ensures var s := After(INITIAL, done); var c := Counts(s);
            Found(After(INITIAL, steps), m, s.app, c.(irq := c.irq + 1, pb := c.pb + 1))
  {
    hide IsRun, After, Next, Emit, RequestOf;
    steps := done;
    Extend(steps, Interrupt(b));
    steps := steps + [Interrupt(b)];
    Extend(steps, RxReceive);
    steps := steps + [RxReceive];
    Extend(steps, RxSend);
    steps := steps + [RxSend];
    Extend(steps, ParserReceive);
    steps := steps + [ParserReceive];
    Extend(steps, ParserCountByte);
    steps := steps + [ParserCountByte];
    Extend(steps, ParserConsume);
    steps := steps + [ParserConsume];
  }

  // The application has counted the query and is about to read the other counters.
  predicate Begun(s: System, a: Application, m: Message, c: Counters) {
    && s.uart.phase == Running && s.tx.queue == []
    && s.app.handled == a.handled + [m] && s.app.marks == a.marks + [c] && s.app.responses == a.responses
    && s.app.task == AppReading(m, c, ALL_SHARED)
    && Counts(s) == c
  }

  lemma Begins(done: seq<Step>, m: Message, a: Application, c: Counters) returns (steps: seq<Step>)
    requires IsRun(INITIAL, done) && Found(After(INITIAL, done), m, a, c) && RequestOf(m) == StatusQuery
    ensures IsRun(INITIAL, steps)
    ensures Begun(After(INITIAL, steps), a, m, c.(pm := c.pm + 1, rx := c.rx + 1))
  {
    hide IsRun, After, Next, Emit, RequestOf;
    steps := done;
    Extend(steps, ParserCountMessage);
    steps := steps + [ParserCountMessage];
    Extend(steps, ParserSend);
    steps := steps + [ParserSend];
    Extend(steps, AppReceive);
    steps := steps + [AppReceive];
    Extend(steps, AppCount);
    steps := steps + [AppCount];
  }

  // The query is answered with the counters c, which stood still meanwhile.
  predicate Answered(s: System, a: Application, m: Message, c: Counters) {
    && s.app.handled == a.handled + [m] && s.app.marks == a.marks + [c]
    && s.app.responses == a.responses + [StatusResponse(c)]
    && Counts(s) == c
  }

  lemma Reports(done: seq<Step>, a: Application, m: Message, c: Counters) returns (steps: seq<Step>)
    requires IsRun(INITIAL, done) && Begun(After(INITIAL, done), a, m, c)
    ensures IsRun(INITIAL, steps) && Answered(After(INITIAL, steps), a, m, c)
  {
    hide IsRun, After, Next, Emit, RequestOf, StatusResponse;
    steps := done;
    Extend(steps, AppRead(IrqCount));
    steps := steps + [AppRead(IrqCount)];
    Extend(steps, AppRead(ByteCount));
    steps := steps + [AppRead(ByteCount)];
    Extend(steps, AppRead(MessageCount));
    steps := steps + [AppRead(MessageCount)];
    Extend(steps, AppRead(ErrorCount));
    steps := steps + [AppRead(ErrorCount)];
    Extend(steps, AppRead(DropCount));
    steps := steps + [AppRead(DropCount)];
    assert After(INITIAL, steps).app.task.left == {};
    Extend(steps, AppFormat);
    steps := steps + [AppFormat];
    Extend(steps, AppSend);
    steps := steps + [AppSend];
  }

  // ---------- The input that makes the report long ----------

  function Starts(n: nat): seq<byte> {
    seq(n, i => START)
  }

  const SHORT := Message(Cmd, [])  // refused, in a frame of 12 bytes
  const QUERY := Message(Cmd, Ascii("status?"))

  lemma ShortRefused()
    ensures RequestOf(SHORT) == Unknown
  {
    assert CString([]) == [];
  }

  lemma NoneRefused()
    ensures Frames([]) == [] && RefusedCount([]) == 0
  {
  }

  lemma {:induction false} RefusedCopies(n: nat)
    ensures AllEncodable(Copies(SHORT, n)) && AllFreeOf(Copies(SHORT, n), CR)
    ensures |Frames(Copies(SHORT, n))| == 12 * n
    ensures RefusedCount(Copies(SHORT, n)) == n
  {
    hide Frame, Frames, RefusedCount, RequestOf;
    NoneRefused();
    ShortRefused();
    if n == 0 {
      assert Copies(SHORT, 0) == [];
    } else {
      RefusedCopies(n - 1);
      FrameSize(SHORT);
      assert Copies(SHORT, n) == Copies(SHORT, n - 1) + [SHORT];
      FramesSnoc(Copies(SHORT, n - 1), SHORT);
      RefusedSnoc(Copies(SHORT, n - 1), SHORT);
    }
  }

  // Each '@' but the first is an error and the beginning of the next frame.
  lemma {:induction false} StartsAreErrors(n: nat)
    ensures Run([], Starts(n + 1)) == [START]
    ensures Messages(Events([], Starts(n + 1))) == [] && Stream.ErrorCount(Events([], Starts(n + 1))) == n
  {
    var front := Starts(n);
    assert Starts(n + 1) == front + [START];
    RunSnoc([], front, START);
    EventsSnoc([], front, START);
    if n == 0 {
      StartStep();
    } else {
      StartsAreErrors(n - 1);
      StartAgain();
      MessagesSnoc(Events([], front), Error);
    }
  }

  lemma StartAgain()
    ensures Emit([START], START) == Error && Next([START], START) == [START]
  {
    assert !IsHex(START);
  }

  /** A stream that gives n errors and the messages ms, and ends just before the last byte of frame f. */
  lemma NoisyInput(n: nat, ms: seq<Message>, f: seq<byte>) returns (input: seq<byte>)
    requires AllEncodable(ms) && AllFreeOf(ms, CR) && ms != [] && FrameMessage(f).Some? && CR !in f
    ensures Delivered(input) == ms && Errors(input) == n
    ensures f != [] && |input| == n + |Frames(ms)| + |f| - 1
    ensures Emit(Run([], input), f[|f| - 1]) == Ready(FrameMessage(f).value)
  {
    hide Run, Events, Emit, Next, Frames, FrameMessage, Messages, Stream.ErrorCount;
    StartsAreErrors(n);
    AlignedAtStart(ms);
    FrontOfFrame(f);
    LastByteDecides(f[..|f| - 1], f[|f| - 1]);
    assert f[..|f| - 1] + [f[|f| - 1]] == f;
    var head, middle, last := Starts(n + 1), Frames(ms)[1..], f[..|f| - 1];
    input := head + middle + last;
    RunConcat([], head, middle);
    EventsConcat([], head, middle);
    RunConcat([], head + middle, last);
    EventsConcat([], head + middle, last);
    ReadiesMessages(ms);
    MessagesConcat(Events([], head), Readies(ms));
    assert Events([], input) == Events([], head) + Readies(ms);
  }

  lemma FrameEndsIt(m: Message)
    requires Encodable(m) && CR !in m.payload
    ensures |Frame(m)| == |m.payload| + 12 && Frame(m)[|m.payload| + 11] == END
    ensures CR !in Frame(m) && FrameMessage(Frame(m)) == Some(m)
  {
    FrameLayout(m);
    hide Frame, FrameMessage;
    RoundTrip(m);
    FrameFreeOf(m, CR);
  }

  lemma QueryFrame() returns (f: seq<byte>)
    ensures |f| == 19 && f[18] == END && CR !in f
    ensures FrameMessage(f) == Some(QUERY) && RequestOf(QUERY) == StatusQuery && AsksStatus(QUERY)
  {
    assert Encodable(QUERY) && |Ascii("status?")| == 7 && CR !in QUERY.payload && NUL !in QUERY.payload;
    hide Frame, FrameMessage, RequestOf, CString;
    CStringOfPlain(QUERY.payload);
    RequestByText(QUERY);
    FrameEndsIt(QUERY);
    f := Frame(QUERY);
  }

  // The counters of the run, in 21 digits.
  const LONG := Counters(101, 100, 1239, 1229, 101, 10, 10)

  lemma LongDigits()
    ensures Decimal(101) == Ascii("101") && Decimal(100) == Ascii("100") && Decimal(10) == Ascii("10")
    ensures Decimal(1239) == Ascii("1239") && Decimal(1229) == Ascii("1229")
  {
    assert Decimal(1) == Ascii("1") && Decimal(12) == Ascii("12");
    assert Decimal(123) == Ascii("123") && Decimal(122) == Ascii("122");
  }

  const LONG_START := Ascii("rx=101") + Ascii(",ae=100") + Ascii(",irq=1239") + Ascii(",pb=1229") + Ascii(",pm=101")

  const LONG_TEXT := LONG_START + Ascii(",pe=10") + Ascii(",qd=10")
  const LONG_CUT := LONG_START + Ascii(",pe=10") + Ascii(",qd=1")

  lemma LongParts(drops: seq<byte>)
    ensures Ascii("rx=") + Ascii("101") + Ascii(",ae=") + Ascii("100") + Ascii(",irq=") + Ascii("1239")
            + Ascii(",pb=") + Ascii("1229") + Ascii(",pm=") + Ascii("101")
            + Ascii(",pe=") + Ascii("10") + Ascii(",qd=") + drops
         == LONG_START + Ascii(",pe=10") + Ascii(",qd=") + drops
  {
    hide Ascii;
    LongPairs();
  }

  lemma LongPairs()
    ensures Ascii("rx=") + Ascii("101") == Ascii("rx=101") && Ascii(",ae=") + Ascii("100") == Ascii(",ae=100")
    ensures Ascii(",irq=") + Ascii("1239") == Ascii(",irq=1239") && Ascii(",pb=") + Ascii("1229") == Ascii(",pb=1229")
    ensures Ascii(",pm=") + Ascii("101") == Ascii(",pm=101") && Ascii(",pe=") + Ascii("10") == Ascii(",pe=10")
  {
  }

  // The report of these counters, and what is left of it.
  lemma LongText()
    ensures StatusText(LONG) == LONG_TEXT && StatusResponse(LONG) == Message(Sts, LONG_CUT)
  {
    hide StatusText, Decimal;
    StatusTextSpelled(LONG);
    LongDigits();
    LongParts(Ascii("10"));
    SmallIsUnwrapped(LONG);
    assert Ascii(",qd=") + Ascii("10") == Ascii(",qd=10") && Ascii(",qd=10")[..5] == Ascii(",qd=1");
    assert |LONG_START| == 37 && |Ascii(",pe=10")| == 6;
  }

  lemma LongReport()
    ensures StatusResponse(LONG).payload < StatusText(LONG)
  {
    assert Low32(LONG) == LONG;
    hide StatusText, StatusPayload, Decimal, Low32;
    WidthOf(101);
    WidthOf(100);
    WidthOf(1239);
    WidthOf(1229);
    WidthOf(10);
    assert TotalDigits(LONG) == 21;
    StatusReadsBack(LONG);
  }

  lemma LongInput() returns (input: seq<byte>)
    ensures |input| == 1228 && |Delivered(input)| == 100 && RefusedCount(Delivered(input)) == 100
    ensures Errors(input) == 10 && Emit(Run([], input), END) == Ready(QUERY)
  {
    var f := QueryFrame();
    RefusedCopies(100);
    hide Frames, FrameMessage, Delivered, Errors, Run, Emit, Next, RefusedCount, RequestOf;
    input := NoisyInput(10, Copies(SHORT, 100), f);
  }

  // Everything but the last byte of the query has arrived and been dealt with.
  lemma AllButLast() returns (steps: seq<Step>)
    requires RequestOf(QUERY) == StatusQuery
    ensures IsRun(INITIAL, steps) && Completes(After(INITIAL, steps), END, QUERY)
    ensures Counts(After(INITIAL, steps)) == Counters(100, 100, 1238, 1228, 100, 10, 10)
    ensures var a := After(INITIAL, steps).app; |a.marks| == |a.responses| == |a.handled| == 100
  {
    hide IsRun, After, Delivered, Errors, Run, Emit, Next, RefusedCount, RequestOf, Drained;
    var input := LongInput();
    steps := AnyInput(input, Starts(10));
    DrainedAfter(steps);
  }

  lemma DrainedAfter(steps: seq<Step>)
    requires IsRun(INITIAL, steps) && Drained(After(INITIAL, steps))
    ensures var s := After(INITIAL, steps);
            && s.app.handled == Delivered(s.uart.accepted) && s.parsing.pending == Run([], s.uart.accepted)
            && |s.app.marks| == |s.app.responses| == |s.app.handled| && Counts(s) == ExactCounts(s)
  {
    var s := After(INITIAL, steps);
    InvAlways(steps);
    hide After, IsRun, Delivered, Errors, Run, RefusedCount, AnswersOk, TransmissionOk, ActuationOk;
    DrainedInput(s);
  }

  lemma Truncated(s: System, a: Application)
    requires Answered(s, a, QUERY, LONG) && |a.responses| == |a.marks| == |a.handled| == 100
    requires AsksStatus(QUERY)
    ensures s.app.responses[100].payload < StatusText(Counts(s))
    ensures !NoneTruncated(s)
  {
    LongReport();
    hide AsksStatus, StatusText, StatusResponse, RefusedCount, Parse, ShowsCounters;
    assert AsksStatus(s.app.handled[100]) && s.app.responses[100] == StatusResponse(LONG);
  }

  /** 1239 received bytes can be too many: a hundred unknown commands, ten errors, ten lost bytes and
      one status query, whose report has 21 digits and is cut off. */
  lemma LimitIsSharp() returns (steps: seq<Step>)
    ensures IsRun(INITIAL, steps) && After(INITIAL, steps).uart.irq == SAFE_BYTES + 1
    ensures var s := After(INITIAL, steps);
            && |s.app.responses| == 101 && s.app.responses[100].payload < StatusText(Counts(s))
            && s.app.responses[100] == Message(Sts, LONG_CUT)
    ensures !NoneTruncated(After(INITIAL, steps))
  {
    var f := QueryFrame();
    hide IsRun, After, RequestOf, AsksStatus, Completes, Found, NoneTruncated;
    steps := AllButLast();
    var s := After(INITIAL, steps);
    steps := Arrives(steps, END, QUERY);
    steps := Begins(steps, QUERY, s.app, Counters(100, 100, 1239, 1229, 100, 10, 10));
    steps := Reports(steps, s.app, QUERY, LONG);
    Truncated(After(INITIAL, steps), s.app);
    LongText();
  }

  /** Exactly up to 1238 received bytes is every status report of every run complete. */
  lemma LimitIsExact(n: nat)
    ensures (forall steps :: IsRun(INITIAL, steps) && After(INITIAL, steps).uart.irq <= n ==>
               NoneTruncated(After(INITIAL, steps)))
       <==> n <= SAFE_BYTES
  {
    hide IsRun, After, NoneTruncated;
    if n <= SAFE_BYTES {
      forall steps | IsRun(INITIAL, steps) && After(INITIAL, steps).uart.irq <= n
        ensures NoneTruncated(After(INITIAL, steps))
      {
        StatusNeverTruncated(steps);
      }
    } else {
      var steps := LimitIsSharp();
    }
  }
}
