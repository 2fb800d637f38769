/** From the bytes on the receive line to the bytes on the transmit line. */
module EndToEnd {
  import opened Bytes
  import opened Codec
  import opened Stream
  import opened StreamTheorems
  import opened Resync
  import opened Status
  import opened App
  import opened Meaning
  import opened Pipeline
  import opened PipelineTheorems

  // The bytes that arrive during a run.
  function Received(steps: seq<Step>): seq<byte> {
    if steps == [] then []
    else Received(steps[..|steps| - 1]) + Arriving(steps[|steps| - 1])
  }

  // The bytes of a in their order, among others.
  predicate Subsequence(a: seq<byte>, b: seq<byte>) {
    if a == [] then true
    else if b == [] then false
    else
      || (a[|a| - 1] == b[|b| - 1] && Subsequence(a[..|a| - 1], b[..|b| - 1]))
      || Subsequence(a, b[..|b| - 1])
  }

  lemma {:induction false} SubsequenceSize(a: seq<byte>, b: seq<byte>)
    requires Subsequence(a, b)
    ensures |a| <= |b| && (|a| == |b| ==> a == b)
  {
    if a != [] {
      if a[|a| - 1] == b[|b| - 1] && Subsequence(a[..|a| - 1], b[..|b| - 1]) {
        SubsequenceSize(a[..|a| - 1], b[..|b| - 1]);
        assert a == a[..|a| - 1] + [a[|a| - 1]] && b == b[..|b| - 1] + [b[|b| - 1]];
      } else {
        SubsequenceSize(a, b[..|b| - 1]);
      }
    }
  }

  lemma SubsequenceSnoc(a: seq<byte>, b: seq<byte>, c: byte)
    requires Subsequence(a, b)
    ensures Subsequence(a, b + [c]) && Subsequence(a + [c], b + [c])
  {
    assert (a + [c])[..|a|] == a && (b + [c])[..|b|] == b;
  }

  // The bytes that arrive in one step.
  function Arriving(step: Step): seq<byte> {
    match step { case Interrupt(b) => [b] case _ => [] }
  }

  // An arriving byte is accepted, or counted as early or dropped.
  lemma AcceptStep(s: System, step: Step)
    requires Enabled(s, step)
    ensures var u, v := s.uart, Perform(s, step).uart;
            || (v.accepted == u.accepted + Arriving(step) && v.early == u.early && v.drops == u.drops)
            || (v.accepted == u.accepted && step.Interrupt? && u.early <= v.early && u.drops <= v.drops
                && v.early + v.drops == u.early + u.drops + 1)
  {
    hide Emit, Next, RequestOf, WireBytes;
  }

  // The accepted bytes are received bytes in their order; exactly the early and the dropped ones are missing.
  predicate AcceptedPart(u: Uart, received: seq<byte>) {
    Subsequence(u.accepted, received) && |received| == |u.accepted| + u.early + u.drops
  }

  lemma {:induction false} AcceptedInOrder(steps: seq<Step>)
    requires IsRun(INITIAL, steps)
    ensures AcceptedPart(After(INITIAL, steps).uart, Received(steps))
  {
    hide Perform, Enabled, Subsequence;
    NoneMissing();
    if steps != [] {
      var front, step := steps[..|steps| - 1], steps[|steps| - 1];
      var u := After(INITIAL, front).uart;
      AcceptedInOrder(front);
      AcceptStep(After(INITIAL, front), step);
      if step.Interrupt? {
        SubsequenceSnoc(u.accepted, Received(front), step.byte);
      } else {
        assert u.accepted + Arriving(step) == u.accepted && Received(steps) == Received(front);
      }
    }
  }

  lemma NoneMissing()
    ensures Subsequence([], [])
  {
  }

  lemma LosslessAcceptsAll(steps: seq<Step>)
    requires IsRun(INITIAL, steps)
    ensures var u := After(INITIAL, steps).uart;
            u.early == 0 && u.drops == 0 ==> u.accepted == Received(steps)
  {
    hide IsRun, After, Subsequence;
    AcceptedInOrder(steps);
    SubsequenceSize(After(INITIAL, steps).uart.accepted, Received(steps));
  }

  // The bytes lost so far.
  function Missing(u: Uart): nat {
    u.early + u.drops
  }

  // While no further byte is lost, all that arrives is accepted.
  lemma {:induction false} LosslessSince(done: seq<Step>, steps: seq<Step>)
    requires IsRun(INITIAL, done) && IsRun(INITIAL, steps) && done <= steps
    ensures Received(done) <= Received(steps)
    ensures var u, v := After(INITIAL, done).uart, After(INITIAL, steps).uart;
            && Missing(u) <= Missing(v)
            && (Missing(u) == Missing(v) ==> v.accepted == u.accepted + Received(steps)[|Received(done)|..])
  {
    hide Perform, Enabled;
    if |done| == |steps| {
      assert done == steps;
    } else {
      var front := steps[..|steps| - 1];
      LosslessSince(done, front);
      AcceptStep(After(INITIAL, front), steps[|steps| - 1]);
    }
  }

  /** If the frames of ms arrive, with '\r' anywhere, and no byte is lost, then a drained system has
      handled exactly ms, the wire decodes to one answer per message, in order, the LED shows the LED
      commands among ms, and the counters are exact. */
  lemma CommandsAnswered(steps: seq<Step>, ms: seq<Message>)
    requires IsRun(INITIAL, steps) && Drained(After(INITIAL, steps))
    requires After(INITIAL, steps).uart.early == 0 && After(INITIAL, steps).uart.drops == 0
    requires AllEncodable(ms) && AllFreeOf(ms, CR) && Strip(Received(steps)) == Frames(ms)
    ensures var s := After(INITIAL, steps);
            && s.app.handled == ms
            && Delivered(s.tx.wire) == s.app.responses && Errors(s.tx.wire) == 0
            && |s.app.responses| == |s.app.marks| == |ms|
            && (forall i :: 0 <= i < |ms| ==>
                  Answers(ms[i], s.app.responses[i], s.app.marks[i], Until(s.app, Counts(s), i)))
            && (forall i :: 0 <= i < |ms| && AsksStatus(ms[i]) ==>
                  exists c :: Shows(s.app, Counts(s), i, c))
            && LedShows(s.act.pin, ms)
            && Counts(s) == Counters(|ms|, RefusedCount(ms), |Received(steps)|, |Received(steps)|, |ms|, 0, 0)
  {
    var s := After(INITIAL, steps);
    LosslessAcceptsAll(steps);
    DrainedResult(steps);
    PipelineRefines(steps);
    StatusShows(steps);
    LedByText(ms);
    hide LedShows, Shows, AsksStatus;
    hide After, IsRun, Answers, Delivered, Errors, Strip, Frames, WireText, Received;
    hide Commands, ApplyAll, RefusedCount, OkCount;
    StreamRoundTrip(ms, Received(steps));
  }

  // Behind `noise`, of the messages ms all but the first `lost` are delivered; at most one message is a ghost.
  predicate Delivers(noise: seq<byte>, s: seq<byte>, ms: seq<Message>, before: seq<Message>, lost: nat) {
    && lost <= 5 && lost <= |ms|
    && Delivered(noise) <= before && |before| <= |Delivered(noise)| + 1
    && Delivered(noise + s) == before + ms[lost..]
  }

  /** After arbitrary noise at most five of the messages are missed, and all later ones are delivered in order. */
  lemma NoiseCostsFive(noise: seq<byte>, ms: seq<Message>, s: seq<byte>)
    requires AllEncodable(ms) && AllFreeOf(ms, CR) && EarlyFree(ms, 52) && Strip(s) == Frames(ms)
    ensures exists before: seq<Message>, lost: nat :: Delivers(noise, s, ms, before, lost)
  {
    hide Run, Events, Strip, Frames, Viable, Messages, Delivered, Recovers;
    PartialRun([], noise);
    Resynchronises(Run([], noise), ms, s);
    var stray, t, lost :| Recovers(Run([], noise), ms, s, stray, t, lost);
    DeliversWith(noise, s, ms, stray, t, lost);
  }

  lemma DeliversWith(noise: seq<byte>, s: seq<byte>, ms: seq<Message>, stray: seq<Verdict>, t: nat, lost: nat)
    requires AllEncodable(ms) && Recovers(Run([], noise), ms, s, stray, t, lost)
    ensures Delivers(noise, s, ms, Delivered(noise) + Messages(stray), lost)
  {
    hide Run, Events, Frames, Messages, Delivered;
    DeliveredAfter(noise, s, stray, ms[lost..]);
    AtMostOne(stray);
  }

  lemma DeliveredAfter(noise: seq<byte>, s: seq<byte>, stray: seq<Verdict>, rest: seq<Message>)
    requires Events(Run([], noise), s) == stray + Readies(rest)
    ensures Delivered(noise + s) == Delivered(noise) + Messages(stray) + rest
  {
    hide Run, Events, Messages;
    EventsConcat([], noise, s);
    MessagesConcat(Events([], noise), stray + Readies(rest));
    MessagesConcat(stray, Readies(rest));
    ReadiesMessages(rest);
    ConcatMessages(Delivered(noise), Messages(stray), rest);
  }

  lemma AtMostOne(stray: seq<Verdict>)
    requires |stray| <= 1
    ensures |Messages(stray)| <= 1
  {
    if stray != [] {
      assert stray[..0] == [];
    }
  }

  lemma ConcatMessages(a: seq<Message>, b: seq<Message>, c: seq<Message>)
    ensures a + (b + c) == a + b + c
  {
  }

  /** No byte is lost any more once the steps `done` are taken, and then the frames of ms arrive, with '\r'
      anywhere: a drained system has handled all of them but at most five, with at most one spurious message,
      and has answered every message it handled on the wire. */
  lemma LossCostsFive(done: seq<Step>, steps: seq<Step>, s: seq<byte>, ms: seq<Message>)
    requires IsRun(INITIAL, done) && IsRun(INITIAL, steps) && done <= steps && Drained(After(INITIAL, steps))
    requires Missing(After(INITIAL, done).uart) == Missing(After(INITIAL, steps).uart)
    requires Received(steps) == Received(done) + s
    requires AllEncodable(ms) && AllFreeOf(ms, CR) && EarlyFree(ms, 52) && Strip(s) == Frames(ms)
    ensures var t := After(INITIAL, steps);
            && (exists before: seq<Message>, lost: nat ::
                  Delivers(After(INITIAL, done).uart.accepted, s, ms, before, lost)
                  && t.app.handled == before + ms[lost..])
            && |t.app.responses| == |t.app.handled| && Delivered(t.tx.wire) == t.app.responses
            && Errors(t.tx.wire) == 0
  {
    LosslessSince(done, steps);
    DrainedResult(steps);
    var noise, t := After(INITIAL, done).uart.accepted, After(INITIAL, steps);
    hide IsRun, After, Drained, Delivered, Errors, Strip, Frames, WireText, Received, Commands, ApplyAll;
    hide RefusedCount, OkCount, EarlyFree;
    assert t.uart.accepted == noise + s;
    NoiseCostsFive(noise, ms, s);
    var before: seq<Message>, lost: nat :| Delivers(noise, s, ms, before, lost);
    assert t.app.handled == before + ms[lost..];
  }
}
