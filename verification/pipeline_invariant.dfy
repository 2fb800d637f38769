/** Every step of the pipeline keeps the invariant. */
module PipelineInvariant {
  import opened Codec
  import opened Stream
  import opened Status
  import opened App
  import opened Meaning
  import opened Pipeline

  lemma UartKept(s: System, step: Step)
    requires Enabled(s, step) && UartOk(s.uart)
    ensures UartOk(Perform(s, step).uart)
  {
  }

  lemma BytesKept(s: System, step: Step)
    requires Enabled(s, step) && UartOk(s.uart) && BytesFlow(s.uart, s.parsing)
    ensures BytesFlow(Perform(s, step).uart, Perform(s, step).parsing)
  {
    hide Emit, Next;
  }

  lemma ParsingKept(s: System, step: Step)
    requires Enabled(s, step) && ParsingOk(s.parsing)
    ensures ParsingOk(Perform(s, step).parsing)
  {
    hide Emit, Next, Run, Delivered, Errors;
    if step.ParserConsume? {
      var p, b := s.parsing, s.parsing.task.byte;
      RunSnoc([], p.parsed, b);
      DeliveredSnoc(p.parsed, b);
    }
  }

  lemma MessagesKept(s: System, step: Step)
    requires Enabled(s, step) && ParsingOk(s.parsing) && MessagesFlow(s.parsing, s.app)
    ensures MessagesFlow(Perform(s, step).parsing, Perform(s, step).app)
  {
    hide Emit, Next, Run, Delivered, Errors, RequestOf;
    if step.ParserConsume? {
      DeliveredSnoc(s.parsing.parsed, s.parsing.task.byte);
    }
  }

  lemma SentCounts(a: Application)
    requires ApplicationOk(a) && a.task.AppSending?
    ensures |a.handled| == |a.responses| + 1 && a.handled == a.handled[..|a.responses|] + [a.task.message]
    ensures RefusedCount(a.handled) == a.ae + if Refused(RequestOf(a.task.message)) then 1 else 0
    ensures Commands(a.handled) == Commands(a.handled[..|a.responses|]) + Ahead(a)
  {
    hide RequestOf;
    CommandsSnoc(a.handled[..|a.responses|], a.task.message);
    RefusedSnoc(a.handled[..|a.responses|], a.task.message);
  }

  lemma ApplicationKept(s: System, step: Step)
    requires Enabled(s, step) && ApplicationOk(s.app)
    ensures ApplicationOk(Perform(s, step).app)
  {
    hide Emit, Next, RefusedCount, Apply, WireBytes, StatusResponse, FixedResponse;
    var a, b := s.app, Perform(s, step).app;
    if step.AppReceive? {
      assert b.handled[..|b.responses|] == a.handled[..|a.responses|];
    } else if step.AppSend? {
      SentCounts(a);
      assert b.handled[..|b.responses|] == a.handled;
    }
  }

  lemma MarksKept(s: System, step: Step)
    requires Enabled(s, step) && ApplicationOk(s.app) && MarksOk(s.app)
    ensures MarksOk(Perform(s, step).app)
  {
    hide Emit, Next, RequestOf, RefusedCount, Apply, WireBytes, StatusResponse, FixedResponse;
    var a, b := s.app, Perform(s, step).app;
    assert a.handled <= b.handled;
    forall i | 0 <= i < |b.marks|
      ensures b.marks[i].rx == i + 1 && b.marks[i].ae == RefusedCount(b.handled[..i])
    {
      assert b.handled[..i] == a.handled[..i];
    }
  }

  lemma ResponsesKept(s: System, step: Step)
    requires Enabled(s, step) && ResponsesFlow(s.app, s.tx)
    ensures ResponsesFlow(Perform(s, step).app, Perform(s, step).tx)
  {
    hide Emit, Next, RequestOf, WireBytes;
  }

  lemma WireTextSnoc(ms: seq<Message>, m: Message)
    ensures WireText(ms + [m]) == WireText(ms) + WireBytes(m)
  {
    hide WireBytes;
    assert (ms + [m])[..|ms|] == ms;
  }

  lemma TransmissionKept(s: System, step: Step)
    requires Enabled(s, step) && TransmissionOk(s.tx)
    ensures TransmissionOk(Perform(s, step).tx)
  {
    hide Emit, Next, RequestOf, WireBytes, WireText;
    if step.TxReceive? {
      WireTextSnoc(s.tx.taken, s.tx.queue[0]);
    }
  }

  lemma CommandsAfterSend(s: System)
    requires Enabled(s, AppSend) && ApplicationOk(s.app) && ActuationOk(s.app, s.act)
    ensures ActuationOk(Perform(s, AppSend).app, Perform(s, AppSend).act)
  {
    hide Commands, RefusedCount, RequestOf, Ahead;
    var b := Perform(s, AppSend).app;
    SentCounts(s.app);
    assert b.handled[..|b.responses|] == s.app.handled;
    NothingAhead(b);
  }

  lemma NothingAhead(a: Application)
    requires !a.task.AppSending?
    ensures Ahead(a) == []
  {
  }

  lemma CommandsAfterActuator(s: System, step: Step)
    requires Enabled(s, step) && (step.ActuatorReceive? || step.ActuatorApply?) && ActuationOk(s.app, s.act)
    ensures ActuationOk(Perform(s, step).app, Perform(s, step).act)
  {
    hide Commands, Ahead, Apply, ApplyAll;
    if step.ActuatorApply? {
      ApplySnoc(true, s.act.applied, s.act.hand.value);
    }
  }

  lemma CommandsAfterOther(s: System, step: Step)
    requires Enabled(s, step) && !step.AppSend? && !step.ActuatorReceive? && !step.ActuatorApply?
    requires ApplicationOk(s.app) && ActuationOk(s.app, s.act)
    ensures ActuationOk(Perform(s, step).app, Perform(s, step).act)
  {
    hide Emit, Next, WireBytes, Commands, RefusedCount, Apply, ApplyAll, StatusResponse, FixedResponse, RequestOf;
    var a, b := s.app, Perform(s, step).app;
    assert b.handled[..|b.responses|] == a.handled[..|a.responses|];
  }

  lemma ActuationKept(s: System, step: Step)
    requires Enabled(s, step) && ApplicationOk(s.app) && ActuationOk(s.app, s.act)
    ensures ActuationOk(Perform(s, step).app, Perform(s, step).act)
  {
    hide Enabled, Perform, ApplicationOk, ActuationOk;
    if step.AppSend? {
      CommandsAfterSend(s);
    } else if step.ActuatorReceive? || step.ActuatorApply? {
      CommandsAfterActuator(s, step);
    } else {
      CommandsAfterOther(s, step);
    }
  }

  // ---------- Responses and the counters they report ----------

  lemma CountsGrow(s: System, step: Step)
    requires Enabled(s, step)
    ensures Below(Counts(s), Counts(Perform(s, step)))
  {
    hide Emit, Next, RequestOf, WireBytes;
  }

  // The fixed responses and the status report are the answers promised, and nothing else is.
  lemma FixedAnswers(m: Message, from: Counters, to: Counters)
    requires RequestOf(m) != StatusQuery
    ensures Answers(m, FixedResponse(RequestOf(m)), from, to)
  {
    hide RequestOf, FixedResponse, AnswerText, AsksStatus;
    ResponseByText(m, FixedResponse(RequestOf(m)));
    RequestByText(m);
  }

  lemma StatusAnswers(m: Message, c: Counters, from: Counters, to: Counters)
    requires RequestOf(m) == StatusQuery && Snapshot(from, c, to)
    ensures Answers(m, StatusResponse(c), from, to)
  {
    hide RequestOf, FixedResponse, AnswerText, AsksStatus, StatusPayload;
    ResponseByText(m, StatusResponse(c));
  }

  lemma AnswersFixed(m: Message, r: Message, from: Counters, to: Counters)
    requires Answers(m, r, from, to)
    ensures RequestOf(m) == StatusQuery <==> AsksStatus(m)
    ensures RequestOf(m) != StatusQuery ==> r == FixedResponse(RequestOf(m))
  {
    hide RequestOf, FixedResponse, AnswerText, AsksStatus;
    ResponseByText(m, r);
    RequestByText(m);
  }

  lemma AnswersWiden(m: Message, r: Message, from: Counters, to: Counters, later: Counters)
    requires Answers(m, r, from, to) && Below(to, later)
    ensures Answers(m, r, from, later)
  {
    hide AnswerText, AsksStatus, StatusResponse;
    if AsksStatus(m) {
      var c :| Snapshot(from, c, to) && r == StatusResponse(c);
      assert Snapshot(from, c, later);
    }
  }

  // Logs that only grew, and counters that only grew, keep the answers given so far.
  lemma AnswersKeep(a: Application, counts: Counters, b: Application, later: Counters)
    requires AnswersOk(a, counts) && Below(counts, later)
    requires a.handled <= b.handled && a.responses == b.responses
    requires a.marks == b.marks || b.marks == a.marks + [later]
    requires |b.marks| <= |b.handled|
    ensures forall i :: 0 <= i < |b.marks| ==> Below(b.marks[i], later)
    ensures forall i :: 0 <= i < |b.responses| ==> Answers(b.handled[i], b.responses[i], b.marks[i], Until(b, later, i))
  {
    hide Answers;
    forall i | 0 <= i < |b.responses|
      ensures Answers(b.handled[i], b.responses[i], b.marks[i], Until(b, later, i))
    {
      AnswersWiden(a.handled[i], a.responses[i], a.marks[i], Until(a, counts, i), Until(b, later, i));
    }
  }

  // Steps other than these leave the answers and the task that prepares one alone.
  lemma ApplicationFrame(s: System, step: Step)
    requires Enabled(s, step) && !step.AppCount? && !step.AppSend?
    ensures var a, b := s.app, Perform(s, step).app;
            && a.handled <= b.handled && a.responses == b.responses && a.marks == b.marks
            && (b.task.AppReading? && !step.AppRead? ==> b.task == a.task)
            && (b.task.AppSending? && !step.AppFormat? && !step.AppActuate? ==> b.task == a.task)
            && (step.AppRead? ==> b.task.AppReading?)
            && (step.AppFormat? || step.AppActuate? ==> b.task.AppSending?)
  {
    hide Emit, Next, RequestOf, WireBytes, StatusResponse, FixedResponse;
  }

  lemma AnswersAfterOther(s: System, step: Step)
    requires Enabled(s, step) && ApplicationOk(s.app) && AnswersOk(s.app, Counts(s))
    requires !step.AppCount? && !step.AppSend?
    ensures AnswersOk(Perform(s, step).app, Counts(Perform(s, step)))
  {
    hide Perform, Enabled, Answers, Counts, ApplicationOk, RefusedCount;
    var a, b := s.app, Perform(s, step).app;
    var counts, later := Counts(s), Counts(Perform(s, step));
    CountsGrow(s, step);
    ApplicationFrame(s, step);
    AnswersKeep(a, counts, b, later);
    if step.AppFormat? || step.AppActuate? {
      TaskAnswers(s, step);
    } else if step.AppRead? {
      ReadSnapshot(s, step.counter);
    } else if b.task.AppSending? {
      AnswersWiden(a.task.message, a.task.response, a.marks[|a.marks| - 1], counts, later);
    }
  }

  lemma TaskAnswers(s: System, step: Step)
    requires Enabled(s, step) && ApplicationOk(s.app) && AnswersOk(s.app, Counts(s))
    requires step.AppFormat? || step.AppActuate?
    ensures var b := Perform(s, step).app;
            && b.task.AppSending? && b.marks == s.app.marks != []
            && Answers(b.task.message, b.task.response, b.marks[|b.marks| - 1], Counts(Perform(s, step)))
  {
    hide RequestOf, FixedResponse, StatusResponse, Answers;
    CountsGrow(s, step);
    var m, mark, later := s.app.task.message, s.app.marks[|s.app.marks| - 1], Counts(Perform(s, step));
    if step.AppFormat? {
      StatusAnswers(m, s.app.task.read, mark, later);
    } else {
      FixedAnswers(m, mark, later);
    }
  }

  lemma ReadSnapshot(s: System, counter: Shared)
    requires Enabled(s, AppRead(counter)) && AnswersOk(s.app, Counts(s))
    ensures var b := Perform(s, AppRead(counter)).app;
            && b.task.AppReading? && b.marks == s.app.marks != []
            && Snapshot(b.marks[|b.marks| - 1], b.task.read, Counts(Perform(s, AppRead(counter))))
  {
  }

  lemma AnswersAfterCount(s: System)
    requires Enabled(s, AppCount) && ApplicationOk(s.app) && AnswersOk(s.app, Counts(s))
    ensures AnswersOk(Perform(s, AppCount).app, Counts(Perform(s, AppCount)))
  {
    var a, b := s.app, Perform(s, AppCount).app;
    hide RequestOf, FixedResponse, StatusResponse, Answers;
    CountsGrow(s, AppCount);
    AnswersKeep(a, Counts(s), b, Counts(Perform(s, AppCount)));
    if RequestOf(a.task.message) != StatusQuery {
      FixedAnswers(a.task.message, b.marks[|b.marks| - 1], Counts(Perform(s, AppCount)));
    }
  }

  lemma AnswersAfterSend(s: System)
    requires Enabled(s, AppSend) && ApplicationOk(s.app) && AnswersOk(s.app, Counts(s))
    ensures AnswersOk(Perform(s, AppSend).app, Counts(Perform(s, AppSend)))
  {
    hide Answers, RequestOf;
  }

  lemma AnswersKept(s: System, step: Step)
    requires Enabled(s, step) && ApplicationOk(s.app) && AnswersOk(s.app, Counts(s))
    ensures AnswersOk(Perform(s, step).app, Counts(Perform(s, step)))
  {
    hide AnswersOk, ApplicationOk, Perform, Counts;
    if step.AppCount? {
      AnswersAfterCount(s);
    } else if step.AppSend? {
      AnswersAfterSend(s);
    } else {
      AnswersAfterOther(s, step);
    }
  }

  // ---------- Runs ----------

  // One more step of a run.
  lemma Extend(steps: seq<Step>, step: Step)
    requires IsRun(INITIAL, steps) && Enabled(After(INITIAL, steps), step)
    ensures IsRun(INITIAL, steps + [step])
    ensures After(INITIAL, steps + [step]) == Perform(After(INITIAL, steps), step)
  {
    hide Perform, Enabled;
    assert (steps + [step])[..|steps|] == steps;
  }

  // Only interrupts take bytes in or lose them.
  lemma InputKept(s: System, step: Step)
    requires Enabled(s, step) && !step.Interrupt?
    ensures var u, v := s.uart, Perform(s, step).uart;
            && v.accepted == u.accepted && v.early == u.early && v.drops == u.drops && v.irq == u.irq
            && (u.phase == Running ==> v.phase == Running)
  {
    hide Emit, Next, RequestOf, WireBytes;
  }

  // ---------- Reachable states ----------

  lemma InvStep(s: System, step: Step)
    requires Enabled(s, step) && Inv(s)
    ensures Inv(Perform(s, step))
  {
    hide UartOk, BytesFlow, ParsingOk, MessagesFlow, ApplicationOk, MarksOk, AnswersOk, ResponsesFlow,
         TransmissionOk, ActuationOk;
    hide Perform, Enabled, Counts;
    UartKept(s, step);
    BytesKept(s, step);
    ParsingKept(s, step);
    MessagesKept(s, step);
    ApplicationKept(s, step);
    MarksKept(s, step);
    AnswersKept(s, step);
    ResponsesKept(s, step);
    TransmissionKept(s, step);
    ActuationKept(s, step);
  }

  // The invariant holds after every run, whatever the interleaving.
  lemma {:induction false} InvAlways(steps: seq<Step>)
    requires IsRun(INITIAL, steps)
    ensures Inv(After(INITIAL, steps))
  {
    hide Perform, Enabled;
    if steps != [] {
      hide Inv;
      InvAlways(steps[..|steps| - 1]);
      InvStep(After(INITIAL, steps[..|steps| - 1]), steps[|steps| - 1]);
    }
  }
}
