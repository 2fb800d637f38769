/** What the running system guarantees, over every interleaving of interrupt and tasks. */
module PipelineTheorems {
  import opened Bytes
  import opened Codec
  import opened Stream
  import opened StreamTheorems
  import opened Status
  import opened App
  import opened Meaning
  import opened Pipeline
  import opened PipelineInvariant

  // ---------- Conservation ----------

  // Every byte received and every message found is in exactly one place.
  lemma Conservation(steps: seq<Step>)
    requires IsRun(INITIAL, steps)
    ensures var s := After(INITIAL, steps);
            && s.uart.irq == s.uart.early + s.uart.drops + |s.uart.queue| + |Held(s.uart.hand)|
                             + |s.parsing.queue| + (if s.parsing.task.ParserGot? then 1 else 0) + s.parsing.bytes
            && s.parsing.messages == s.app.rx + |s.app.queue|
                             + (if s.app.task.AppGot? then 1 else 0) + (if s.parsing.task.ParserSending? then 1 else 0)
  {
    InvAlways(steps);
    hide After, IsRun;
  }

  // How much each queue holds, in every reachable state.
  lemma QueuesBounded(steps: seq<Step>)
    requires IsRun(INITIAL, steps)
    ensures var s := After(INITIAL, steps);
            && |s.uart.queue| <= 64 && |s.parsing.queue| <= 64
            && |s.app.queue| <= 8 && |s.tx.queue| <= 8 && |s.act.queue| <= 8
  {
    InvAlways(steps);
    hide After, IsRun;
  }

  // A task that wants to send waits exactly while that much is queued.
  lemma WaitsWhileFull(s: System)
    requires s.uart.phase == Running
    ensures s.uart.hand.Some? ==> (Enabled(s, RxSend) <==> |s.parsing.queue| < 64)
    ensures s.parsing.task.ParserSending? ==> (Enabled(s, ParserSend) <==> |s.app.queue| < 8)
    ensures s.app.task.AppActuating? ==> (Enabled(s, AppActuate) <==> |s.act.queue| < 8)
    ensures s.app.task.AppSending? ==> (Enabled(s, AppSend) <==> |s.tx.queue| < 8)
  {
  }

  // The counters never overtake each other.
  lemma CountersConsistent(s: System)
    requires Inv(s)
    ensures Consistent(Counts(s))
    ensures |s.parsing.parsed| <= |s.uart.accepted|
  {
    hide Delivered, Errors, AnswersOk, TransmissionOk, ActuationOk, Run;
    hide Cost;
    Accounting(s.parsing.parsed);
    CostAtLeast(Delivered(s.parsing.parsed));
    RefusedAtMost(s.app.handled[..|s.app.responses|]);
  }

  lemma {:induction false} RefusedAtMost(handled: seq<Message>)
    ensures RefusedCount(handled) <= |handled|
  {
    if handled != [] {
      RefusedAtMost(handled[..|handled| - 1]);
    }
  }

  // ---------- The status report ----------

  /** Response i reports c: read between its message and the next, with the message's own position as rx
      and the refusals before it as ae. */
  predicate Shows(a: Application, counts: Counters, i: nat, c: Counters)
    requires i < |a.responses| <= |a.marks| <= |a.handled|
  {
    && Snapshot(a.marks[i], c, Until(a, counts, i))
    && c.rx == i + 1 && c.ae == RefusedCount(a.handled[..i])
    && a.responses[i] == StatusResponse(c) && ShowsCounters(a.responses[i].payload, Low32(c))
  }

  lemma AnswerShows(s: System, i: nat) returns (c: Counters)
    requires Inv(s) && i < |s.app.responses| && AsksStatus(s.app.handled[i])
    ensures Shows(s.app, Counts(s), i, c)
  {
    hide ApplicationOk, MessagesFlow, BytesFlow, ParsingOk, ActuationOk, TransmissionOk, AsksStatus, AnswerText;
    hide StatusResponse, RefusedCount, ShowsCounters;
    var a := s.app;
    var until := Until(a, Counts(s), i);
    assert Answers(a.handled[i], a.responses[i], a.marks[i], until);
    c :| Snapshot(a.marks[i], c, until) && a.responses[i] == StatusResponse(c);
    ResponseSpelled(c);
  }

  lemma ResponseSpelled(c: Counters)
    ensures StatusResponse(c).kind == Sts && ShowsCounters(StatusResponse(c).payload, Low32(c))
  {
    hide StatusPayload, ShowsCounters;
    StatusPayloadSpelled(Low32(c));
  }

  // Whatever the interleaving, every status query is answered with its own position and the refusals before it.
  lemma StatusShows(steps: seq<Step>)
    requires IsRun(INITIAL, steps)
    ensures var a := After(INITIAL, steps).app;
            && |a.responses| <= |a.marks| <= |a.handled|
            && forall i :: 0 <= i < |a.responses| && AsksStatus(a.handled[i]) ==>
                 exists c :: Shows(a, Counts(After(INITIAL, steps)), i, c)
  {
    var s := After(INITIAL, steps);
    InvAlways(steps);
    hide After, IsRun, AsksStatus, Shows, Inv;
    AnswersInStep(s);
    forall i | 0 <= i < |s.app.responses| && AsksStatus(s.app.handled[i])
      ensures exists c :: Shows(s.app, Counts(s), i, c)
    {
      var c := AnswerShows(s, i);
    }
  }

  lemma AnswersInStep(s: System)
    requires Inv(s)
    ensures |s.app.responses| <= |s.app.marks| <= |s.app.handled|
  {
  }

  // The frame of a status query has 19 bytes or more.
  lemma {:induction false} QueryCost(ms: seq<Message>, i: nat)
    requires i < |ms| && AsksStatus(ms[i])
    ensures Cost(ms) >= 12 * |ms| + 7
  {
    var n := |ms| - 1;
    if i == n {
      CStringIsPrefix(ms[n].payload);
      CostAtLeast(ms[..n]);
      assert |Ascii("status?")| == 7;
    } else {
      QueryCost(ms[..n], i);
    }
  }

  lemma QueryCounted(s: System, i: nat)
    requires Inv(s) && i < |s.app.handled| && AsksStatus(s.app.handled[i])
    ensures 12 * s.parsing.messages + 7 + s.parsing.errors <= s.parsing.bytes
  {
    hide AsksStatus, Delivered, Errors, AnswersOk, TransmissionOk, ActuationOk, Run, Cost;
    Accounting(s.parsing.parsed);
    assert s.app.handled[i] == Delivered(s.parsing.parsed)[i];
    QueryCost(Delivered(s.parsing.parsed), i);
  }

  lemma ShownReportable(s: System, i: nat, c: Counters)
    requires Inv(s) && i < |s.app.responses| <= |s.app.marks| <= |s.app.handled|
    requires AsksStatus(s.app.handled[i]) && Shows(s.app, Counts(s), i, c)
    ensures Reportable(c, Counts(s))
  {
    hide AsksStatus, StatusResponse, RefusedCount, Inv;
    CountersConsistent(s);
    QueryCounted(s, i);
    RefusedAtMost(s.app.handled[..i]);
    UntilBelow(s, i);
  }

  lemma UntilBelow(s: System, i: nat)
    requires Inv(s) && i < |s.app.responses|
    ensures Below(Until(s.app, Counts(s), i), Counts(s))
  {
    hide Answers, ApplicationOk, MarksOk, MessagesFlow, BytesFlow, ParsingOk, ActuationOk, TransmissionOk;
  }

  // The report is complete and reads back as the counters it shows.
  predicate ReportsFully(a: Application, counts: Counters, i: nat, c: Counters)
    requires i < |a.responses| <= |a.marks| <= |a.handled|
  {
    && Shows(a, counts, i, c)
    && a.responses[i].payload == StatusText(c)
    && ReadsBack(a.responses[i].payload, c)
  }

  lemma CompleteResponse(c: Counters, d: Counters)
    requires Reportable(c, d) && d.irq <= SAFE_BYTES
    ensures StatusResponse(c).payload == StatusText(c)
    ensures ReadsBack(StatusResponse(c).payload, c)
  {
    hide StatusText, StatusPayload, ReadsBack, TotalDigits, Low32;
    SmallIsUnwrapped(c);
    ShortRunsFit(c, d);
    StatusReadsBack(c);
  }

  lemma SmallIsUnwrapped(c: Counters)
    requires Is32(c)
    ensures Low32(c) == c
  {
  }

  lemma SmallReport(s: System, i: nat) returns (c: Counters)
    requires Inv(s) && i < |s.app.responses| <= |s.app.marks| <= |s.app.handled|
    requires AsksStatus(s.app.handled[i]) && s.uart.irq <= SAFE_BYTES
    ensures ReportsFully(s.app, Counts(s), i, c)
  {
    c := AnswerShows(s, i);
    assert s.app.responses[i] == StatusResponse(c);
    ShownReportable(s, i, c);
    hide Inv, AsksStatus, StatusText, StatusResponse, ReadsBack, Reportable, Shows;
    CompleteResponse(c, Counts(s));
  }

  // Every status report of the run is complete and reads back.
  ghost predicate NoneTruncated(s: System) {
    && |s.app.responses| <= |s.app.marks| <= |s.app.handled|
    && forall i :: 0 <= i < |s.app.responses| && AsksStatus(s.app.handled[i]) ==>
         exists c :: ReportsFully(s.app, Counts(s), i, c)
  }

  /** In every run that has received at most 1238 bytes, no status report is truncated: each one reads
      back as the seven counters, read while its query was being handled. */
  lemma StatusNeverTruncated(steps: seq<Step>)
    requires IsRun(INITIAL, steps) && After(INITIAL, steps).uart.irq <= SAFE_BYTES
    ensures NoneTruncated(After(INITIAL, steps))
  {
    var s := After(INITIAL, steps);
    InvAlways(steps);
    hide After, IsRun, Inv, AsksStatus, ReportsFully;
    AnswersInStep(s);
    forall i | 0 <= i < |s.app.responses| && AsksStatus(s.app.handled[i])
      ensures exists c :: ReportsFully(s.app, Counts(s), i, c)
    {
      var c := SmallReport(s, i);
    }
  }

  // ---------- The wire ----------

  predicate AllSendable(ms: seq<Message>) {
    forall i :: 0 <= i < |ms| ==> Sendable(ms[i])
  }

  lemma AnswerSendable(m: Message, r: Message, from: Counters, to: Counters)
    requires Answers(m, r, from, to)
    ensures Sendable(r)
  {
    hide RequestOf, Sendable, FixedResponse, StatusResponse, AnswerText, AsksStatus;
    AnswersFixed(m, r, from, to);
    if AsksStatus(m) {
      var c :| Snapshot(from, c, to) && r == StatusResponse(c);
      StatusSendable(c);
    } else {
      FixedSendable(RequestOf(m));
    }
  }

  lemma ResponsesSendable(a: Application, counts: Counters)
    requires AnswersOk(a, counts)
    ensures AllSendable(a.responses)
  {
    hide Answers, Sendable;
    forall i | 0 <= i < |a.responses| ensures Sendable(a.responses[i]) {
      AnswerSendable(a.handled[i], a.responses[i], a.marks[i], Until(a, counts, i));
    }
  }

  lemma SendableFrame(m: Message)
    requires Sendable(m)
    ensures Encodable(m) && |Frame(m)| == |m.payload| + 12 <= MAX_FRAME
    ensures WireBytes(m) == Frame(m)[..|Frame(m)| - 1] + [CR, END]
    ensures CR !in Frame(m) && Strip(WireBytes(m)) == Frame(m)
  {
    FrameLayout(m);
    FrameFreeOf(m, CR);
    hide Frame, Strip;
    var f := Frame(m);
    var front := f[..|f| - 1];
    assert WireBytes(m) == front + [CR] + [END];
    StripClean(front);
    StripSnoc(front, CR);
    StripSnoc(front + [CR], END);
    assert front + [END] == f;
  }

  lemma {:induction false} WireStrips(ms: seq<Message>)
    requires AllSendable(ms)
    ensures AllEncodable(ms) && AllFreeOf(ms, CR)
    ensures Strip(WireText(ms)) == Frames(ms)
  {
    hide Frame, Strip, WireBytes;
    if ms == [] {
      StripClean([]);
    } else {
      var front, last := ms[..|ms| - 1], ms[|ms| - 1];
      WireStrips(front);
      SendableFrame(last);
      StripConcat(WireText(front), WireBytes(last));
      FramesSnoc(front, last);
      assert front + [last] == ms;
    }
  }

  /** What goes out for a response is its frame with the bytes 13 and 10 in place of the last one. */
  lemma WireSpelled(ms: seq<Message>, m: Message)
    requires Sendable(m)
    ensures Encodable(m) && |Frame(m)| == |m.payload| + 12
    ensures WireText([]) == [] && WireText(ms + [m]) == WireText(ms) + Frame(m)[..|m.payload| + 11] + [13, 10]
  {
    SendableFrame(m);
    WireTextSnoc(ms, m);
    hide Frame, WireBytes;
    ConcatAssociative(WireText(ms), Frame(m)[..|m.payload| + 11], [13, 10]);
  }

  lemma FramePartSilent(f: seq<byte>, k: nat)
    requires FrameMessage(f).Some? && CR !in f && k < |f|
    ensures Events([], f[..k]) == []
  {
    if k == 0 {
      NoBytes([]);
    } else {
      FramePrefixViable(f, k);
      assert [] + f[..k] == f[..k];
      hide Viable, FrameMessage, Events;
      Collect([], f[..k]);
    }
  }

  // A frame that has not been sent to its end is silent.
  lemma PartSilent(m: Message, k: nat)
    requires Sendable(m) && k < |WireBytes(m)|
    ensures Events([], WireBytes(m)[..k]) == []
  {
    SendableFrame(m);
    RoundTrip(m);
    hide Frame, FrameMessage, Events, Run, Emit, Next;
    var f := Frame(m);
    if k < |f| {
      assert WireBytes(m)[..k] == f[..k];
      FramePartSilent(f, k);
    } else {
      var front := f[..|f| - 1];
      assert WireBytes(m)[..k] == front + [CR];
      FramePartSilent(f, |f| - 1);
      EventsSnoc([], front, CR);
      CarriageReturnStep(Run([], front));
    }
  }

  // The responses whose last byte has been sent.
  function FullySent(t: Transmission): seq<Message>
    requires t.rest != [] ==> t.taken != []
  {
    if t.rest == [] then t.taken else t.taken[..|t.taken| - 1]
  }

  lemma WireDecodes(t: Transmission)
    requires TransmissionOk(t) && AllSendable(t.taken)
    ensures Delivered(t.wire) == FullySent(t) && Errors(t.wire) == 0
  {
    hide WireBytes, Frame, Events, Run, Sendable, Strip;
    if t.rest == [] {
      WireStrips(t.taken);
      assert t.wire == WireText(t.taken);
      StreamRoundTrip(t.taken, t.wire);
    } else {
      var front, last := t.taken[..|t.taken| - 1], t.taken[|t.taken| - 1];
      var k := |WireBytes(last)| - |t.rest|;
      assert t.wire == WireText(front) + WireBytes(last)[..k] by {
        assert t.wire == (t.wire + t.rest)[..|t.wire|];
        assert t.wire + t.rest == WireText(front) + WireBytes(last);
      }
      WireStrips(front);
      StreamRoundTrip(front, WireText(front));
      PartSilent(last, k);
      EventsConcat([], WireText(front), WireBytes(last)[..k]);
      assert Events([], t.wire) == Events([], WireText(front));
    }
  }

  // ---------- Refinement ----------

  lemma DeliveredGrows(a: seq<byte>, b: seq<byte>)
    ensures Delivered(a) <= Delivered(a + b)
  {
    hide Events, Messages, Run;
    EventsConcat([], a, b);
    MessagesConcat(Events([], a), Events(Run([], a), b));
  }

  lemma {:induction false} WireGrows(a: seq<Message>, b: seq<Message>)
    ensures WireText(a) <= WireText(a + b)
  {
    hide WireBytes;
    if b == [] {
      assert a + b == a;
    } else {
      WireGrows(a, b[..|b| - 1]);
      assert (a + b)[..|a + b| - 1] == a + b[..|b| - 1];
    }
  }

  /** What the system does is what one sequential receiver and handler would do: messages are handled as
      the receiver delivers them from the accepted bytes, each is answered once, in order, and the wire
      carries the answers' frames in order, decodable without an error. */
  ghost predicate Refines(s: System) {
    && s.app.handled <= Delivered(s.uart.accepted)
    && |s.app.responses| <= |s.app.marks| <= |s.app.handled|
    && (forall i :: 0 <= i < |s.app.responses| ==>
          Answers(s.app.handled[i], s.app.responses[i], s.app.marks[i], Until(s.app, Counts(s), i)))
    && AllSendable(s.app.responses)
    && s.tx.wire <= WireText(s.app.responses)
    && (s.tx.rest != [] ==> s.tx.taken != [])
    && FullySent(s.tx) <= s.app.responses
    && Delivered(s.tx.wire) == FullySent(s.tx) && Errors(s.tx.wire) == 0
  }

  lemma InputRefines(s: System)
    requires BytesFlow(s.uart, s.parsing) && MessagesFlow(s.parsing, s.app)
    ensures s.app.handled <= Delivered(s.uart.accepted)
  {
    hide Delivered;
    var rest := HeldByte(s.parsing.task) + s.parsing.queue + Held(s.uart.hand) + s.uart.queue;
    assert s.uart.accepted == s.parsing.parsed + rest;
    DeliveredGrows(s.parsing.parsed, rest);
  }

  lemma OutputRefines(s: System)
    requires ResponsesFlow(s.app, s.tx) && TransmissionOk(s.tx) && AllSendable(s.app.responses)
    ensures s.tx.wire <= WireText(s.app.responses)
    ensures FullySent(s.tx) <= s.app.responses
    ensures Delivered(s.tx.wire) == FullySent(s.tx) && Errors(s.tx.wire) == 0
  {
    hide Delivered, Errors, WireText, WireBytes, Sendable;
    WireGrows(s.tx.taken, s.tx.queue);
    assert s.tx.wire <= WireText(s.tx.taken);
    forall i | 0 <= i < |s.tx.taken| ensures Sendable(s.tx.taken[i]) {
      assert s.tx.taken[i] == s.app.responses[i];
    }
    WireDecodes(s.tx);
  }

  lemma PipelineRefines(steps: seq<Step>)
    requires IsRun(INITIAL, steps)
    ensures Refines(After(INITIAL, steps))
  {
    var s := After(INITIAL, steps);
    InvAlways(steps);
    hide After, IsRun, Answers, BytesFlow, MessagesFlow, ResponsesFlow, Delivered, Errors, WireText, Sendable;
    ResponsesSendable(s.app, Counts(s));
    InputRefines(s);
    OutputRefines(s);
  }

  // Each handled message has exactly one response queued, but for the one in hand; all of them fit the frame buffer.
  lemma OneResponsePerMessage(steps: seq<Step>)
    requires IsRun(INITIAL, steps)
    ensures var a := After(INITIAL, steps).app;
            && |a.handled| == |a.responses| + (if Busy(a.task) then 1 else 0)
            && forall i :: 0 <= i < |a.responses| ==>
                 Encodable(a.responses[i]) && NUL !in a.responses[i].payload && |Frame(a.responses[i])| < 64
  {
    var s := After(INITIAL, steps);
    InvAlways(steps);
    hide After, IsRun, AnswersOk, ActuationOk, TransmissionOk, BytesFlow, ParsingOk, MessagesFlow, Frame, Encodable;
    ResponsesSendable(s.app, Counts(s));
    forall i | 0 <= i < |s.app.responses|
      ensures Encodable(s.app.responses[i]) && NUL !in s.app.responses[i].payload && |Frame(s.app.responses[i])| < 64
    {
      SendableFrame(s.app.responses[i]);
    }
  }

  // ---------- The LED ----------

  lemma {:induction false} OkMatchesLed(
    handled: seq<Message>, responses: seq<Message>, a: Application, counts: Counters)
    requires |handled| == |responses| && responses <= a.responses && handled <= a.handled
    requires AnswersOk(a, counts)
    ensures OkCount(responses) == |Commands(handled)|
  {
    if handled != [] {
      var n := |handled| - 1;
      hide AnswersOk, RequestOf;
      OkMatchesLed(handled[..n], responses[..n], a, counts);
      OneOk(a, counts, n);
      assert handled[n] == a.handled[n] && responses[n] == a.responses[n];
    }
  }

  lemma StatusKind(m: Message, r: Message, from: Counters, to: Counters)
    requires Answers(m, r, from, to) && AsksStatus(m)
    ensures r.kind == Sts
  {
    hide AsksStatus;
  }

  lemma OneOk(a: Application, counts: Counters, i: nat)
    requires AnswersOk(a, counts) && i < |a.responses|
    ensures a.responses[i] == Message(Ack, CMD_OK) <==> RequestOf(a.handled[i]).Led?
  {
    hide RequestOf, StatusPayload, Answers, AsksStatus;
    assert CMD_OK[0] != PONG[0];
    var m, r, from, to := a.handled[i], a.responses[i], a.marks[i], Until(a, counts, i);
    assert Answers(m, r, from, to);
    AnswersFixed(m, r, from, to);
    if RequestOf(m) == StatusQuery {
      StatusKind(m, r, from, to);
    }
  }

  // A command is queued before it is acknowledged, and nothing else comes between.
  lemma AcknowledgedCommands(steps: seq<Step>)
    requires IsRun(INITIAL, steps)
    ensures var s := After(INITIAL, steps);
            OkCount(s.app.responses) <= |s.act.commands| <= OkCount(s.app.responses) + 1
  {
    var s := After(INITIAL, steps);
    InvAlways(steps);
    hide After, IsRun, OkCount, Commands;
    var n := |s.app.responses|;
    assert s.app.responses <= s.app.responses && s.app.handled[..n] <= s.app.handled;
    OkMatchesLed(s.app.handled[..n], s.app.responses, s.app, Counts(s));
  }

  // ---------- Drain and deadlock freedom ----------

  // Nothing is queued and no task holds anything.
  predicate Drained(s: System) {
    && s.uart.phase == Running && s.uart.queue == [] && s.uart.hand == None
    && s.parsing.queue == [] && s.parsing.task == ParserIdle
    && s.app.queue == [] && s.app.task == AppIdle
    && s.tx.queue == [] && s.tx.rest == []
    && s.act.queue == [] && s.act.hand == None
  }

  function ParserWeight(task: ParserTask): nat {
    match task
    case ParserIdle => 0
    case ParserGot(_) => 76
    case ParserCounted(_) => 75
    case ParserFound(_) => 74
    case ParserSending(_) => 73
    case ParserFailed => 1
  }

  function AppWeight(task: AppTask): nat {
    match task
    case AppIdle => 0
    case AppGot(_) => 71
    case AppActuating(_, _) => 67
    case AppReading(_, _, left) => 65 + |left|
    case AppSending(_, _) => 64
    case AppFailing(_) => 1
  }

  // How many steps the work in the system can still take.
  function Work(s: System): nat {
    (match s.uart.phase { case Booting => 2 case QueueSet => 1 case Running => 0 })
    + 79 * |s.uart.queue| + (if s.uart.hand.Some? then 78 else 0)
    + 77 * |s.parsing.queue| + ParserWeight(s.parsing.task)
    + 72 * |s.app.queue| + AppWeight(s.app.task)
    + 62 * |s.tx.queue| + |s.tx.rest|
    + 2 * |s.act.queue| + (if s.act.hand.Some? then 1 else 0)
  }

  lemma WireSize(m: Message)
    ensures |WireBytes(m)| <= 61
  {
    if Encodable(m) {
      FrameLayout(m);
    }
  }

  lemma SharedCount()
    ensures |ALL_SHARED| == 5
  {
  }

  lemma BeginWeight(m: Message, counts: Counters)
    ensures AppWeight(Begin(m, counts)) <= 70
  {
    SharedCount();
    hide RequestOf, FixedResponse;
  }

  predicate ReceiveStep(step: Step) {
    step in {SetRxQueue, StartScheduler, RxReceive, RxSend, ParserReceive, ParserCountByte, ParserConsume,
             ParserCountMessage, ParserCountError, ParserSend}
  }

  predicate OutputStep(step: Step) {
    step in {TxReceive, TxByte, ActuatorReceive, ActuatorApply}
  }

  lemma ReceiveWork(s: System, step: Step)
    requires Enabled(s, step) && ReceiveStep(step)
    ensures Work(Perform(s, step)) < Work(s)
  {
    hide Emit, Next, RequestOf, WireBytes, Begin, FixedResponse, StatusResponse;
  }

  lemma OutputWork(s: System, step: Step)
    requires Enabled(s, step) && OutputStep(step)
    ensures Work(Perform(s, step)) < Work(s)
  {
    hide Emit, Next, RequestOf, WireBytes, Begin, FixedResponse, StatusResponse;
    if step.TxReceive? {
      WireSize(s.tx.queue[0]);
    }
  }

  lemma ReadWork(s: System, counter: Shared)
    requires Enabled(s, AppRead(counter))
    ensures Work(Perform(s, AppRead(counter))) < Work(s)
  {
    var left := s.app.task.left;
    assert |left - {counter}| == |left| - 1;
  }

  lemma AppWork(s: System, step: Step)
    requires Enabled(s, step) && !ReceiveStep(step) && !OutputStep(step) && !step.Interrupt?
    ensures Work(Perform(s, step)) < Work(s)
  {
    hide Emit, Next, RequestOf, WireBytes, Begin, FixedResponse, StatusResponse;
    if step.AppCount? {
      BeginWeight(s.app.task.message, Counts(s).(rx := s.app.rx + 1));
    } else if step.AppRead? {
      ReadWork(s, step.counter);
    }
  }

  // Without interrupts every step uses up work.
  lemma WorkDecreases(s: System, step: Step)
    requires Enabled(s, step) && !step.Interrupt?
    ensures Work(Perform(s, step)) < Work(s)
  {
    hide Perform, Enabled, Work;
    if ReceiveStep(step) {
      ReceiveWork(s, step);
    } else if OutputStep(step) {
      OutputWork(s, step);
    } else {
      AppWork(s, step);
    }
  }

  predicate Progress(s: System, step: Step) {
    !step.Interrupt? && Enabled(s, step)
  }

  lemma OutputNotStuck(s: System)
    requires s.uart.phase == Running
    requires s.tx.rest != [] || s.tx.queue != [] || s.act.hand.Some? || s.act.queue != []
    ensures exists step: Step :: Progress(s, step)
  {
    assert s.tx.rest != [] ==> Progress(s, TxByte);
    assert s.tx.rest == [] && s.tx.queue != [] ==> Progress(s, TxReceive);
    assert s.act.hand.Some? ==> Progress(s, ActuatorApply);
    assert s.act.hand == None && s.act.queue != [] ==> Progress(s, ActuatorReceive);
  }

  lemma AppNotStuck(s: System)
    requires s.uart.phase == Running && s.tx.queue == [] && s.act.queue == []
    requires !s.app.task.AppIdle? || s.app.queue != []
    ensures exists step: Step :: Progress(s, step)
  {
    match s.app.task
    case AppIdle => assert Progress(s, AppReceive);
    case AppGot(_) => assert Progress(s, AppCount);
    case AppActuating(_, _) => assert Progress(s, AppActuate);
    case AppReading(_, _, left) =>
      if left == {} {
        assert Progress(s, AppFormat);
      } else {
        var counter :| counter in left;
        assert Progress(s, AppRead(counter));
      }
    case AppSending(_, _) => assert Progress(s, AppSend);
    case AppFailing(_) => assert Progress(s, AppCountError);
  }

  lemma ReceiveNotStuck(s: System)
    requires s.uart.phase == Running && s.app.queue == []
    requires !s.parsing.task.ParserIdle? || s.parsing.queue != [] || s.uart.hand.Some? || s.uart.queue != []
    ensures exists step: Step :: Progress(s, step)
  {
    match s.parsing.task
    case ParserGot(_) => assert Progress(s, ParserCountByte);
    case ParserCounted(_) => assert Progress(s, ParserConsume);
    case ParserFound(_) => assert Progress(s, ParserCountMessage);
    case ParserSending(_) => assert Progress(s, ParserSend);
    case ParserFailed => assert Progress(s, ParserCountError);
    case ParserIdle =>
      if s.parsing.queue != [] {
        assert Progress(s, ParserReceive);
      } else if s.uart.hand.Some? {
        assert Progress(s, RxSend);
      } else {
        assert Progress(s, RxReceive);
      }
  }

  // A system that is not drained is never stuck.
  lemma NotStuck(s: System)
    requires !Drained(s)
    ensures exists step: Step :: Progress(s, step)
  {
    if s.uart.phase == Booting {
      assert Progress(s, SetRxQueue);
    } else if s.uart.phase == QueueSet {
      assert Progress(s, StartScheduler);
    } else {
      hide Progress;
      if s.tx.rest != [] || s.tx.queue != [] || s.act.hand.Some? || s.act.queue != [] {
        OutputNotStuck(s);
      } else if !s.app.task.AppIdle? || s.app.queue != [] {
        AppNotStuck(s);
      } else {
        ReceiveNotStuck(s);
      }
    }
  }

  /** Once the interrupts stop, every schedule ends within `Work` steps, and it can only end drained. */
  lemma {:induction false} Drains(s: System, steps: seq<Step>)
    requires IsRun(s, steps) && forall i :: 0 <= i < |steps| ==> !steps[i].Interrupt?
    ensures |steps| + Work(After(s, steps)) <= Work(s)
    ensures (forall step: Step :: Enabled(After(s, steps), step) ==> step.Interrupt?) ==> Drained(After(s, steps))
  {
    hide Perform, Enabled, Work, Drained;
    if steps != [] {
      var front := steps[..|steps| - 1];
      Drains(s, front);
      WorkDecreases(After(s, front), steps[|steps| - 1]);
    }
    if !Drained(After(s, steps)) {
      NotStuck(After(s, steps));
    }
  }

  // Such a schedule exists from every state.
  lemma {:induction false} CanDrain(s: System, done: seq<Step>) returns (steps: seq<Step>)
    requires IsRun(s, done)
    ensures done <= steps && IsRun(s, steps) && Drained(After(s, steps))
    ensures forall i :: |done| <= i < |steps| ==> !steps[i].Interrupt?
    decreases Work(After(s, done))
  {
    hide Perform, Enabled, Work, Drained;
    var t := After(s, done);
    if Drained(t) {
      steps := done;
    } else {
      NotStuck(t);
      var step: Step :| Progress(t, step);
      WorkDecreases(t, step);
      assert (done + [step])[..|done|] == done;
      steps := CanDrain(s, done + [step]);
      assert steps[|done|] == step;
    }
  }

  /** A drained system has handled and answered everything it accepted, the wire carries all answers,
      the LED shows the commands, and the counters are exact. */
  ghost predicate Complete(s: System) {
    && s.app.handled == Delivered(s.uart.accepted)
    && |s.app.responses| == |s.app.handled|
    && s.tx.wire == WireText(s.app.responses)
    && Delivered(s.tx.wire) == s.app.responses && Errors(s.tx.wire) == 0
    && s.act.pin == ApplyAll(true, Commands(s.app.handled)) && LedShows(s.act.pin, s.app.handled)
    && OkCount(s.app.responses) == |Commands(s.app.handled)|
    && Counts(s) == ExactCounts(s)
  }

  // What the counters show when nothing is on its way.
  function ExactCounts(s: System): Counters {
    Counters(|s.app.handled|, RefusedCount(s.app.handled), s.uart.early + s.uart.drops + |s.uart.accepted|,
             |s.uart.accepted|, |s.app.handled|, Errors(s.uart.accepted), s.uart.drops)
  }

  lemma DrainedInput(s: System)
    requires Inv(s) && Drained(s)
    ensures s.uart.accepted == s.parsing.parsed && s.app.handled == Delivered(s.uart.accepted)
    ensures |s.app.responses| == |s.app.handled| && s.app.handled[..|s.app.responses|] == s.app.handled
    ensures Counts(s) == ExactCounts(s)
  {
    hide AnswersOk, ResponsesFlow, TransmissionOk, ActuationOk, Delivered, Errors, Run, RefusedCount;
  }

  lemma DrainedOutput(s: System)
    requires Inv(s) && Drained(s)
    ensures s.tx.wire == WireText(s.app.responses)
    ensures Delivered(s.tx.wire) == s.app.responses && Errors(s.tx.wire) == 0
  {
    hide UartOk, BytesFlow, ParsingOk, MessagesFlow, ApplicationOk, MarksOk, AnswersOk, ActuationOk;
    hide WireText, WireBytes, Delivered, Errors, Sendable;
    assert s.tx.taken == s.app.responses;
    ResponsesSendable(s.app, Counts(s));
    WireDecodes(s.tx);
  }

  lemma DrainedActuators(s: System)
    requires ApplicationOk(s.app) && ActuationOk(s.app, s.act) && Drained(s)
    ensures s.act.pin == ApplyAll(true, Commands(s.app.handled))
  {
    hide Commands, ApplyAll, RefusedCount;
    assert s.app.handled[..|s.app.responses|] == s.app.handled;
    assert s.act.commands == Commands(s.app.handled) && s.act.commands == s.act.applied;
  }

  lemma DrainedResult(steps: seq<Step>)
    requires IsRun(INITIAL, steps) && Drained(After(INITIAL, steps))
    ensures Complete(After(INITIAL, steps))
  {
    var s := After(INITIAL, steps);
    InvAlways(steps);
    hide After, IsRun, Drained, Counts, Delivered, Errors, WireText, Commands, ApplyAll, RefusedCount, OkCount;
    hide LedShows;
    hide UartOk, BytesFlow, ParsingOk, MessagesFlow, ApplicationOk, MarksOk, AnswersOk, ResponsesFlow,
         TransmissionOk, ActuationOk;
    DrainedInput(s);
    DrainedOutput(s);
    DrainedActuators(s);
    assert s.app.responses <= s.app.responses && s.app.handled <= s.app.handled;
    OkMatchesLed(s.app.handled, s.app.responses, s.app, Counts(s));
    LedByText(s.app.handled);
  }
}
