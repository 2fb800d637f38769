/** What the firmware does, in terms of its own fields: the line, the pin and the 32-bit counters, after
    any schedule, and once it has come to rest. */
module FirmwareTheorems {
  import opened Bytes
  import opened Codec
  import opened Stream
  import opened StreamTheorems
  import opened Resync
  import opened Status
  import opened App
  import opened Meaning
  import opened Pipeline
  import opened PipelineInvariant
  import opened PipelineTheorems
  import opened EndToEnd
  import opened Firmware

  // ---------- What answers a message ----------

  // r answers message i of ms: a status report shows the position of its query and the refusals before it.
  ghost predicate AnswersAt(ms: seq<Message>, i: nat, r: Message)
    requires i < |ms|
  {
    && AnswerText(ms[i], r)
    && (AsksStatus(ms[i]) ==>
          exists c: Counters :: c.rx == i + 1 && c.ae == RefusedCount(ms[..i]) && ShowsCounters(r.payload, Low32(c)))
  }

  // rs are answers to the first messages of ms, one each, in order.
  ghost predicate AnswersFirst(ms: seq<Message>, rs: seq<Message>) {
    |rs| <= |ms| && forall i :: 0 <= i < |rs| ==> AnswersAt(ms, i, rs[i])
  }

  lemma AnswerAt(s: System, i: nat)
    requires Inv(s) && i < |s.app.responses| <= |s.app.marks| <= |s.app.handled|
    ensures AnswersAt(s.app.handled, i, s.app.responses[i])
  {
    var a := s.app;
    hide AsksStatus, AnswerText, ShowsCounters, RefusedCount, MarksOk, ApplicationOk, BytesFlow, ParsingOk;
    hide MessagesFlow, ActuationOk;
    assert Answers(a.handled[i], a.responses[i], a.marks[i], Until(a, Counts(s), i));
    if AsksStatus(a.handled[i]) {
      var c := AnswerShows(s, i);
    }
  }

  lemma AnswersInOrder(s: System)
    requires Inv(s)
    ensures AnswersFirst(s.app.handled, s.app.responses)
  {
    AnswersInStep(s);
    hide Inv, AnswersAt;
    forall i | 0 <= i < |s.app.responses| ensures AnswersAt(s.app.handled, i, s.app.responses[i]) {
      AnswerAt(s, i);
    }
  }

  lemma AnswersExtend(done: seq<Message>, ms: seq<Message>, rs: seq<Message>, sent: seq<Message>)
    requires AnswersFirst(done, rs) && done <= ms && sent <= rs
    ensures AnswersFirst(ms, sent)
  {
    hide AsksStatus, AnswerText, RefusedCount, ShowsCounters;
    forall i | 0 <= i < |sent| ensures AnswersAt(ms, i, sent[i]) {
      assert AnswersAt(done, i, rs[i]);
      assert done[..i] == ms[..i];
    }
  }

  // ---------- After any schedule ----------

  lemma CommandsDone(a: Application, c: Actuation)
    requires ApplicationOk(a) && ActuationOk(a, c)
    ensures c.applied <= Commands(a.handled) && c.pin == ApplyAll(true, c.applied)
  {
    hide ApplyAll, Commands, RefusedCount, RequestOf, Ahead;
    var n := |a.responses|;
    assert c.applied <= c.commands;
    if a.task.AppSending? {
      SentCounts(a);
    } else {
      NothingAhead(a);
      CommandsGrow(a.handled[..n], a.handled[n..]);
      assert a.handled[..n] + a.handled[n..] == a.handled;
    }
  }

  // The LED commands carried out are the first ones among the messages of the accepted bytes.
  lemma AppliedFirst(s: System)
    requires Inv(s)
    ensures s.act.applied <= Commands(Delivered(s.uart.accepted)) && s.act.pin == ApplyAll(true, s.act.applied)
  {
    hide ApplyAll, Commands, Delivered, ApplicationOk, ActuationOk, ParsingOk, AnswersOk, TransmissionOk;
    InputRefines(s);
    CommandsDone(s.app, s.act);
    var ms := Delivered(s.uart.accepted);
    CommandsGrow(s.app.handled, ms[|s.app.handled|..]);
    assert s.app.handled + ms[|s.app.handled|..] == ms;
  }

  lemma {:induction false} CommandsGrow(a: seq<Message>, b: seq<Message>)
    ensures Commands(a) <= Commands(a + b)
  {
    hide RequestOf;
    if b == [] {
      assert a + b == a;
    } else {
      CommandsGrow(a, b[..|b| - 1]);
      assert a + b == a + b[..|b| - 1] + [b[|b| - 1]];
      CommandsSnoc(a + b[..|b| - 1], b[|b| - 1]);
    }
  }

  // The line decodes without an error to answers to the first of the messages ms.
  ghost predicate LineAnswers(ms: seq<Message>, wire: seq<byte>) {
    AnswersFirst(ms, Delivered(wire)) && Errors(wire) == 0
  }

  lemma InterruptsCounted(s: System)
    requires Inv(s)
    ensures s.uart.irq == s.uart.early + s.uart.drops + |s.uart.accepted|
  {
  }

  // The first commands are those of the first messages.
  lemma {:induction false} CommandsPrefix(ms: seq<Message>, cs: seq<Command>) returns (k: nat)
    requires cs <= Commands(ms)
    ensures k <= |ms| && Commands(ms[..k]) == cs
  {
    hide RequestOf;
    if cs == Commands(ms) {
      k := |ms|;
      assert ms[..k] == ms;
    } else {
      k := CommandsPrefix(ms[..|ms| - 1], cs);
      assert ms[..|ms| - 1][..k] == ms[..k];
    }
  }

  // The LED shows the first of these messages.
  predicate LedShowsFirst(pin: bool, ms: seq<Message>) {
    exists k :: 0 <= k <= |ms| && LedShows(pin, ms[..k])
  }

  lemma LedOfApplied(pin: bool, ms: seq<Message>, applied: seq<Command>)
    requires applied <= Commands(ms) && pin == ApplyAll(true, applied)
    ensures LedShowsFirst(pin, ms)
  {
    hide Commands, ApplyAll, LedShows;
    var k := CommandsPrefix(ms, applied);
    LedByText(ms[..k]);
  }

  lemma ReachedLine(steps: seq<Step>, s: System)
    requires Reaches(steps, s)
    ensures LineAnswers(Delivered(s.uart.accepted), s.tx.wire)
    ensures s.uart.irq == |Received(steps)| && AcceptedPart(s.uart, Received(steps)) && Consistent(Counts(s))
    ensures s.act.applied <= Commands(Delivered(s.uart.accepted)) && s.act.pin == ApplyAll(true, s.act.applied)
  {
    InvAlways(steps);
    AcceptedInOrder(steps);
    PipelineRefines(steps);
    InterruptsCounted(s);
    hide IsRun, After, Inv, Subsequence, Received, Delivered, Errors, Commands, ApplyAll, AnswersFirst;
    hide Consistent, WireText;
    AnswersInOrder(s);
    AppliedFirst(s);
    CountersConsistent(s);
    AnswersExtend(s.app.handled, Delivered(s.uart.accepted), s.app.responses, Delivered(s.tx.wire));
  }

  /** At any moment of any schedule: the line decodes without an error to answers to the first messages of
      the accepted bytes, the LED shows the first of their commands, and the counters are those of the run
      in 32 bits. The accepted bytes are the received ones but for the early and the dropped. */
  lemma AtAnyMoment(board: Board)
    requires board.Valid()
    ensures var ms := Delivered(board.model.uart.accepted);
            LineAnswers(ms, board.tx.wire) && LedShowsFirst(board.act.pin, ms)
    ensures board.Memory() == Low32(Counts(board.model)) && Consistent(Counts(board.model))
    ensures board.uart.irqCount == |Received(board.steps)| % WORD
    ensures AcceptedPart(board.model.uart, Received(board.steps))
  {
    board.MemoryIsCounts();
    board.tx.Guards(board.model.tx);
    board.act.Guards(board.model.act);
    board.uart.Guards(board.model.uart);
    ReachedLine(board.steps, board.model);
    LedOfApplied(board.act.pin, Delivered(board.model.uart.accepted), board.model.act.applied);
  }

  // ---------- Any schedule ----------

  /** Tries the steps of a schedule one after the other; a blocked task lets its step pass. Every run of the
      abstract system can be carried out in this way. */
  method RunSchedule(board: Board, schedule: seq<Step>)
    requires board.Valid()
    modifies board, board.uart, board.parsing, board.app, board.tx, board.act, board.tx.frame
    modifies board.parsing.parser, board.parsing.parser.lengthField, board.parsing.parser.body
    modifies board.parsing.parser.checksumField
    ensures board.Valid() && old(board.steps) <= board.steps
    ensures IsRun(INITIAL, old(board.steps) + schedule) ==> board.steps == old(board.steps) + schedule
  {
    hide Board.Possible, IsRun, After, Reaches, Perform, Enabled;
    ghost var before := board.steps;
    assert before + schedule[..0] == before;
    for i := 0 to |schedule|
      invariant board.Valid() && before <= board.steps
      invariant IsRun(INITIAL, before + schedule) ==> board.steps == before + schedule[..i]
    {
      assert before + schedule[..i] + [schedule[i]] == before + schedule[..i + 1];
      NextOfRun(before + schedule, board.steps, board.model, schedule[i]);
      board.PossibleIsEnabled(schedule[i]);
      if board.Possible(schedule[i]) {
        board.Take(schedule[i]);
      }
    }
    assert schedule[..|schedule|] == schedule;
  }

  // In a run, the step that follows a beginning is enabled where the beginning leads.
  lemma NextOfRun(steps: seq<Step>, front: seq<Step>, s: System, step: Step)
    requires Reaches(front, s)
    ensures IsRun(INITIAL, steps) && front + [step] <= steps ==> Enabled(s, step)
  {
    if IsRun(INITIAL, steps) && front + [step] <= steps {
      RunPrefix(steps, |front| + 1);
      assert steps[..|front| + 1] == front + [step];
      assert (front + [step])[..|front|] == front;
    }
  }

  lemma {:induction false} RunPrefix(steps: seq<Step>, k: nat)
    requires IsRun(INITIAL, steps) && k <= |steps|
    ensures IsRun(INITIAL, steps[..k])
  {
    hide Perform, Enabled;
    if k == |steps| {
      assert steps[..k] == steps;
    } else {
      RunPrefix(steps[..|steps| - 1], k);
      assert steps[..|steps| - 1][..k] == steps[..k];
    }
  }

  // ---------- At rest ----------

  lemma RestingIsDrained(board: Board)
    requires board.Valid()
    ensures board.Resting() <==> Drained(board.model)
  {
    hide Reaches, UartPort.Matches, ParserTaskState.Matches, AppTaskState.Matches, TransmitTaskState.Matches;
    hide ActuatorTaskState.Matches, TransmitTaskState.Sending;
    board.uart.Guards(board.model.uart);
    board.parsing.Guards(board.model.parsing);
    board.app.Guards(board.model.app);
    board.tx.Guards(board.model.tx);
    board.act.Guards(board.model.act);
  }

  // What is at rest has answered, shown and counted everything that was accepted.
  ghost predicate Finished(
    accepted: seq<byte>, received: nat, drops: nat, wire: seq<byte>, pin: bool, counters: Counters)
  {
    var ms := Delivered(accepted);
    && LineAnswers(ms, wire) && |Delivered(wire)| == |ms|
    && LedShows(pin, ms)
    && counters.rx == |ms| % 0x1_0000_0000 && counters.ae == RefusedCount(ms) % 0x1_0000_0000
    && counters.irq == received % 0x1_0000_0000 && counters.qd == drops % 0x1_0000_0000
    && counters.pb == |accepted| % 0x1_0000_0000
    && counters.pm == |ms| % 0x1_0000_0000 && counters.pe == Errors(accepted) % 0x1_0000_0000
  }

  lemma DrainedIsFinished(steps: seq<Step>, s: System)
    requires Reaches(steps, s) && Drained(s)
    ensures Finished(s.uart.accepted, |Received(steps)|, s.uart.drops, s.tx.wire, s.act.pin, Low32(Counts(s)))
    ensures s.uart.early == 0 && s.uart.drops == 0 ==> s.uart.accepted == Received(steps)
  {
    DrainedResult(steps);
    ReachedLine(steps, s);
    LosslessAcceptsAll(steps);
    LedByText(Delivered(s.uart.accepted));
    hide IsRun, After, LineAnswers, Drained, Commands, ApplyAll, Delivered, Errors, RefusedCount, WireText, OkCount;
    hide Received, LedShows;
    assert Counts(s).irq == |Received(steps)|;
  }

  /** Once the board is at rest, everything accepted is handled and answered on the line, the LED shows all
      commands, and the seven counters are exact in 32 bits. Without lost bytes, everything received was accepted. */
  lemma AtRest(board: Board)
    requires board.Valid() && board.Resting()
    ensures Finished(board.model.uart.accepted, |Received(board.steps)|, board.model.uart.drops,
                     board.tx.wire, board.act.pin, board.Memory())
    ensures board.model.uart.early == 0 && board.model.uart.drops == 0 ==>
              board.model.uart.accepted == Received(board.steps)
  {
    board.MemoryIsCounts();
    board.tx.Guards(board.model.tx);
    board.act.Guards(board.model.act);
    RestingIsDrained(board);
    DrainedIsFinished(board.steps, board.model);
  }

  /** No byte is lost any more once the steps `done` are taken, and then the frames of ms arrive: at rest, the
      line answers all of them but at most five, with at most one spurious message, and what came before. */
  lemma RecoversAtRest(board: Board, done: seq<Step>, s: seq<byte>, ms: seq<Message>)
    requires board.Valid() && board.Resting() && IsRun(INITIAL, done) && done <= board.steps
    requires Missing(After(INITIAL, done).uart) == Missing(board.model.uart)
    requires Received(board.steps) == Received(done) + s
    requires AllEncodable(ms) && AllFreeOf(ms, CR) && EarlyFree(ms, 52) && Strip(s) == Frames(ms)
    ensures exists before: seq<Message>, lost: nat ::
              && Delivers(After(INITIAL, done).uart.accepted, s, ms, before, lost)
              && LineAnswers(before + ms[lost..], board.tx.wire)
              && |Delivered(board.tx.wire)| == |before + ms[lost..]|
              && LedShows(board.act.pin, before + ms[lost..])
  {
    AtRest(board);
    RestingIsDrained(board);
    AcceptedSince(board, done, s);
    hide IsRun, After, Drained, Delivered, Strip, Frames, Received, LedShows, LineAnswers, EarlyFree;
    hide Board.Valid, Board.Resting;
    var noise := After(INITIAL, done).uart.accepted;
    NoiseCostsFive(noise, ms, s);
    var before: seq<Message>, lost: nat :| Delivers(noise, s, ms, before, lost);
  }

  lemma AcceptedSince(board: Board, done: seq<Step>, s: seq<byte>)
    requires board.Valid() && IsRun(INITIAL, done) && done <= board.steps
    requires Missing(After(INITIAL, done).uart) == Missing(board.model.uart)
    requires Received(board.steps) == Received(done) + s
    ensures board.model.uart.accepted == After(INITIAL, done).uart.accepted + s
  {
    LosslessSince(done, board.steps);
  }

  // ---------- A schedule that comes to rest ----------

  // The bytes taken in so far.
  ghost predicate TookIn(s: System, accepted: seq<byte>) {
    s.uart.early == 0 && s.uart.drops == 0 && s.uart.accepted == accepted
  }

  lemma QuietStep(steps: seq<Step>, s: System, step: Step, t: System)
    requires Reaches(steps, s) && Enabled(s, step) && !step.Interrupt? && Reaches(steps + [step], t)
    ensures Work(t) < Work(s)
    ensures forall accepted :: TookIn(s, accepted) ==> TookIn(t, accepted)
  {
    hide Perform, Enabled, Work;
    Onward(steps, s, step, Perform(s, step));
    WorkDecreases(s, step);
    InputKept(s, step);
  }

  // Without interrupts the tasks come to rest.
  method Settle(board: Board, ghost accepted: seq<byte>)
    requires board.Valid() && TookIn(board.model, accepted)
    modifies board, board.uart, board.parsing, board.app, board.tx, board.act, board.tx.frame
    modifies board.parsing.parser, board.parsing.parser.lengthField, board.parsing.parser.body
    modifies board.parsing.parser.checksumField
    ensures board.Valid() && board.Resting() && TookIn(board.model, accepted)
  {
    hide Board.Possible, Board.Resting, Reaches, Perform, Enabled, Work, TookIn;
    while !board.Resting()
      invariant board.Valid() && TookIn(board.model, accepted)
      decreases Work(board.model)
    {
      var step := board.NextStep();
      board.PossibleIsEnabled(step);
      ghost var steps, s := board.steps, board.model;
      board.Take(step);
      QuietStep(steps, s, step, board.model);
    }
  }

  // A byte that arrives at rest is accepted.
  lemma AcceptedAtRest(steps: seq<Step>, s: System, b: byte, t: System)
    requires Reaches(steps, s) && Drained(s) && Reaches(steps + [Interrupt(b)], t)
    ensures forall accepted :: TookIn(s, accepted) ==> TookIn(t, accepted + [b])
  {
    hide Perform;
    Onward(steps, s, Interrupt(b), Perform(s, Interrupt(b)));
    InterruptStep(s, b);
  }

  lemma InterruptStep(s: System, b: byte)
    ensures Enabled(s, Interrupt(b)) && Perform(s, Interrupt(b)) == s.(uart := OnInterrupt(s.uart, b))
  {
  }

  // One byte arrives at rest and is dealt with.
  method ServeByte(board: Board, b: byte, ghost accepted: seq<byte>)
    requires board.Valid() && board.Resting() && TookIn(board.model, accepted)
    modifies board, board.uart, board.parsing, board.app, board.tx, board.act, board.tx.frame
    modifies board.parsing.parser, board.parsing.parser.lengthField, board.parsing.parser.body
    modifies board.parsing.parser.checksumField
    ensures board.Valid() && board.Resting() && TookIn(board.model, accepted + [b])
  {
    hide Board.Possible, Board.Resting, Reaches, Perform, Enabled, TookIn, Drained;
    RestingIsDrained(board);
    board.PossibleIsEnabled(Interrupt(b));
    InterruptStep(board.model, b);
    ghost var steps, s := board.steps, board.model;
    board.Take(Interrupt(b));
    AcceptedAtRest(steps, s, b, board.model);
    Settle(board, accepted + [b]);
  }

  // A schedule that starts the board and then serves each byte before the next one arrives.
  method ServeSlowly(input: seq<byte>) returns (board: Board)
    ensures fresh(board) && board.Valid() && board.Resting() && TookIn(board.model, input)
  {
    hide Board.Possible, Board.Resting, Board.Valid, Reaches, TookIn;
    board := new Board();
    Booted(board);
    Settle(board, []);
    for i := 0 to |input|
      invariant fresh(board) && fresh(board.uart) && fresh(board.parsing) && fresh(board.app) && fresh(board.tx)
      invariant fresh(board.act) && fresh(board.tx.frame) && fresh(board.parsing.parser)
      invariant fresh(board.parsing.parser.lengthField) && fresh(board.parsing.parser.body)
      invariant fresh(board.parsing.parser.checksumField)
      invariant board.Valid() && board.Resting() && TookIn(board.model, input[..i])
    {
      ServeByte(board, input[i], input[..i]);
      assert input[..i] + [input[i]] == input[..i + 1];
    }
    assert input[..|input|] == input;
  }

  lemma Booted(board: Board)
    requires board.Valid() && board.steps == []
    ensures TookIn(board.model, [])
  {
  }

  /** Bytes that arrive slowly enough are all served: the line carries one answer to each message of the
      input, in order, the LED shows its commands, and the counters are exact. */
  method Serve(input: seq<byte>) returns (wire: seq<byte>, pin: bool, counters: Counters)
    ensures Finished(input, |input|, 0, wire, pin, counters)
  {
    hide Finished;
    var board := ServeSlowly(input);
    AtRest(board);
    ReceivedAll(board, input);
    wire, pin, counters := board.tx.wire, board.act.pin, board.Memory();
  }

  lemma ReceivedAll(board: Board, input: seq<byte>)
    requires board.Valid() && TookIn(board.model, input)
    requires board.model.uart.early == 0 && board.model.uart.drops == 0 ==>
               board.model.uart.accepted == Received(board.steps)
    ensures Received(board.steps) == input && board.model.uart.accepted == input && board.model.uart.drops == 0
  {
  }
}
