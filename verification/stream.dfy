/** The receiver as a machine over byte sequences. Its whole state is the partial frame collected
    so far (without '\r'); `parser.dfy` proves that the nine-state parser implements it. */
module Stream {
  import opened Bytes
  import opened Codec

  // What one byte produces.
  datatype Verdict = InProgress | Ready(message: Message) | Error

  // A nonempty proper beginning of something that may still become a well-shaped frame.
  predicate Viable(p: seq<byte>) {
    && |p| > 0
    && p[0] == START
    && (|p| > 1 ==> IsHex(p[1]))
    && (|p| > 2 ==> LengthFieldOk(p))
    && (|p| > 3 ==>
          var n := BodyLength(p);
          && p[3] == SEPARATOR
          && |p| < n + 8
          && (|p| > n + 4 ==> p[n + 4] == SEPARATOR)
          && (|p| > n + 5 ==> IsHex(p[n + 5]))
          && (|p| > n + 6 ==> IsHex(p[n + 6])))
  }

  // The states of the receiver: waiting for '@', or inside a viable partial frame.
  predicate Partial(p: seq<byte>) {
    p == [] || Viable(p)
  }

  function Emit(p: seq<byte>, b: byte): Verdict {
    if b == CR || p == [] || Viable(p + [b]) then InProgress
    else match FrameMessage(p + [b])
      case Some(m) => Ready(m)
      case None => Error
  }

  // A byte that does not extend the partial frame ends it; a '@' then begins the next one.
  function Next(p: seq<byte>, b: byte): seq<byte> {
    if b == CR then p
    else if Viable(p + [b]) then p + [b]
    else if b == START then [START]
    else []
  }

  function Run(p: seq<byte>, s: seq<byte>): seq<byte> {
    if s == [] then p else Next(Run(p, s[..|s| - 1]), s[|s| - 1])
  }

  function Visible(v: Verdict): seq<Verdict> {
    if v == InProgress then [] else [v]
  }

  // The READY and ERROR verdicts of a run, in order.
  function Events(p: seq<byte>, s: seq<byte>): seq<Verdict> {
    if s == [] then []
    else Events(p, s[..|s| - 1]) + Visible(Emit(Run(p, s[..|s| - 1]), s[|s| - 1]))
  }

  function Messages(events: seq<Verdict>): seq<Message> {
    if events == [] then []
    else Messages(events[..|events| - 1])
         + match events[|events| - 1] { case Ready(m) => [m] case _ => [] }
  }

  function ErrorCount(events: seq<Verdict>): nat {
    if events == [] then 0
    else ErrorCount(events[..|events| - 1]) + if events[|events| - 1] == Error then 1 else 0
  }

  // What a receiver that starts from reset makes of a byte stream.
  function Delivered(s: seq<byte>): seq<Message> {
    Messages(Events([], s))
  }

  function Errors(s: seq<byte>): nat {
    ErrorCount(Events([], s))
  }

  // The stream without '\r'.
  function Strip(s: seq<byte>): seq<byte> {
    if s == [] then []
    else Strip(s[..|s| - 1]) + if s[|s| - 1] == CR then [] else [s[|s| - 1]]
  }

  // ---------- One more byte ----------

  lemma RunSnoc(p: seq<byte>, s: seq<byte>, b: byte)
    ensures Run(p, s + [b]) == Next(Run(p, s), b)
  {
    hide Next;
    assert (s + [b])[..|s|] == s;
  }

  lemma EventsSnoc(p: seq<byte>, s: seq<byte>, b: byte)
    ensures Events(p, s + [b]) == Events(p, s) + Visible(Emit(Run(p, s), b))
  {
    hide Next, Emit;
    assert (s + [b])[..|s|] == s;
  }

  lemma StripSnoc(s: seq<byte>, b: byte)
    ensures Strip(s + [b]) == Strip(s) + if b == CR then [] else [b]
  {
    assert (s + [b])[..|s|] == s;
  }

  lemma MessagesSnoc(events: seq<Verdict>, v: Verdict)
    ensures Messages(events + [v]) == Messages(events) + match v { case Ready(m) => [m] case _ => [] }
    ensures ErrorCount(events + [v]) == ErrorCount(events) + if v == Error then 1 else 0
  {
    assert (events + [v])[..|events|] == events;
  }

  lemma DeliveredSnoc(s: seq<byte>, b: byte)
    ensures Delivered(s + [b]) == Delivered(s) + match Emit(Run([], s), b) { case Ready(m) => [m] case _ => [] }
    ensures Errors(s + [b]) == Errors(s) + if Emit(Run([], s), b) == Error then 1 else 0
  {
    hide Emit, Next, Run, Events;
    EventsSnoc([], s, b);
    var v := Emit(Run([], s), b);
    if v == InProgress {
      assert Events([], s) + Visible(v) == Events([], s);
    } else {
      MessagesSnoc(Events([], s), v);
    }
  }

  // ---------- Composition ----------

  lemma {:induction false} RunConcat(p: seq<byte>, a: seq<byte>, b: seq<byte>)
    ensures Run(p, a + b) == Run(Run(p, a), b)
  {
    hide Next;
    if b == [] {
      assert a + b == a;
    } else {
      assert (a + b)[..|a + b| - 1] == a + b[..|b| - 1];
      RunConcat(p, a, b[..|b| - 1]);
    }
  }

  lemma {:induction false} EventsConcat(p: seq<byte>, a: seq<byte>, b: seq<byte>)
    ensures Events(p, a + b) == Events(p, a) + Events(Run(p, a), b)
  {
    hide Next, Emit, Run;
    if b == [] {
      assert a + b == a;
    } else {
      assert (a + b)[..|a + b| - 1] == a + b[..|b| - 1];
      EventsConcat(p, a, b[..|b| - 1]);
      RunConcat(p, a, b[..|b| - 1]);
    }
  }

  lemma {:induction false} StripConcat(a: seq<byte>, b: seq<byte>)
    ensures Strip(a + b) == Strip(a) + Strip(b)
  {
    if b == [] {
      assert a + b == a;
    } else {
      assert (a + b)[..|a + b| - 1] == a + b[..|b| - 1];
      StripConcat(a, b[..|b| - 1]);
    }
  }

  lemma {:induction false} MessagesConcat(a: seq<Verdict>, b: seq<Verdict>)
    ensures Messages(a + b) == Messages(a) + Messages(b)
    ensures ErrorCount(a + b) == ErrorCount(a) + ErrorCount(b)
  {
    hide Emit, Next;
    if b == [] {
      assert a + b == a;
    } else {
      MessagesConcat(a, b[..|b| - 1]);
      assert (a + b)[..|a + b| - 1] == a + b[..|b| - 1];
    }
  }

  // ---------- '\r' is invisible ----------

  lemma CarriageReturnStep(p: seq<byte>)
    ensures Next(p, CR) == p && Emit(p, CR) == InProgress
  {
  }

  // Dropping every '\r' changes no state and no verdict.
  lemma {:induction false} CarriageReturnsInvisible(p: seq<byte>, s: seq<byte>)
    ensures Run(p, s) == Run(p, Strip(s))
    ensures Events(p, s) == Events(p, Strip(s))
    ensures CR !in Strip(s)
  {
    hide Next, Emit;
    if s != [] {
      var front, last := s[..|s| - 1], s[|s| - 1];
      CarriageReturnsInvisible(p, front);
      if last == CR {
        CarriageReturnStep(Run(p, front));
        assert Strip(s) == Strip(front);
      } else {
        RunSnoc(p, Strip(front), last);
        EventsSnoc(p, Strip(front), last);
      }
    }
  }

  lemma {:induction false} StripClean(s: seq<byte>)
    requires CR !in s
    ensures Strip(s) == s
  {
    if s != [] {
      StripClean(s[..|s| - 1]);
    }
  }

  // ---------- The state invariant ----------

  lemma {:induction false} PartialRun(p: seq<byte>, s: seq<byte>)
    requires Partial(p)
    ensures Partial(Run(p, s))
  {
    if s != [] {
      PartialRun(p, s[..|s| - 1]);
    }
  }

  // Every nonempty beginning of a viable partial frame is viable.
  lemma ViablePrefix(p: seq<byte>, k: nat)
    requires Viable(p) && 0 < k <= |p|
    ensures Viable(p[..k])
  {
  }

  lemma FramePrefixViable(f: seq<byte>, k: nat)
    requires WellShaped(f) && 0 < k < |f|
    ensures Viable(f[..k])
  {
  }

  lemma CollectStep(p: seq<byte>, b: byte)
    requires Viable(p + [b]) && b != CR
    ensures Next(p, b) == p + [b] && Emit(p, b) == InProgress
  {
  }

  // Bytes that keep the partial frame viable are collected silently.
  lemma {:induction false} Collect(p: seq<byte>, x: seq<byte>)
    requires Partial(p) && CR !in x && (x != [] ==> Viable(p + x))
    ensures Run(p, x) == p + x
    ensures Events(p, x) == []
  {
    hide Viable, Next, Emit;
    if x == [] {
      assert p + x == p;
    } else {
      var front, last := x[..|x| - 1], x[|x| - 1];
      assert p + front + [last] == p + x;
      if front != [] {
        assert (p + x)[..|p + front|] == p + front;
        ViablePrefix(p + x, |p + front|);
      }
      Collect(p, front);
      CollectStep(p + front, last);
    }
  }

  lemma SilentStep(p: seq<byte>, b: byte)
    requires Viable(p) && b != CR && Emit(p, b) == InProgress
    ensures Next(p, b) == p + [b] && Viable(p + [b])
  {
  }

  lemma NoBytes(p: seq<byte>)
    ensures Run(p, []) == p && Events(p, []) == []
  {
  }

  // Conversely, a silent run inside a frame has collected every byte.
  lemma {:induction false} SilentRunCollects(p: seq<byte>, x: seq<byte>)
    requires Viable(p) && CR !in x && Events(p, x) == []
    ensures Run(p, x) == p + x
    ensures Viable(p + x)
  {
    hide Viable, Next, Emit, Run, Events;
    if x == [] {
      assert p + x == p;
      NoBytes(p);
    } else {
      var front, last := x[..|x| - 1], x[|x| - 1];
      assert x == front + [last];
      EventsSnoc(p, front, last);
      RunSnoc(p, front, last);
      SilentRunCollects(p, front);
      SilentStep(p + front, last);
      assert p + front + [last] == p + x;
    }
  }

  // ---------- A whole frame ----------

  lemma LastByteDecides(p: seq<byte>, b: byte)
    requires p != [] && b != CR
    ensures FrameMessage(p + [b]).Some? ==> Emit(p, b) == Ready(FrameMessage(p + [b]).value) && Next(p, b) == []
    ensures Emit(p, b).Ready? ==> FrameMessage(p + [b]) == Some(Emit(p, b).message)
  {
    assert FrameMessage(p + [b]).Some? ==> (p + [b])[|p|] == END;
  }

  lemma FrontOfFrame(f: seq<byte>)
    requires FrameMessage(f).Some? && CR !in f
    ensures |f| > 0 && f[..|f| - 1] != []
    ensures Run([], f[..|f| - 1]) == f[..|f| - 1] && Events([], f[..|f| - 1]) == []
  {
    FramePrefixViable(f, |f| - 1);
    assert [] + f[..|f| - 1] == f[..|f| - 1];
    hide Viable;
    Collect([], f[..|f| - 1]);
  }

  // From reset, an accepted frame is delivered by its last byte and nothing else happens.
  lemma FrameDelivered(f: seq<byte>)
    requires FrameMessage(f).Some? && CR !in f
    ensures Run([], f) == []
    ensures Events([], f) == [Ready(FrameMessage(f).value)]
  {
    hide FrameMessage, Emit, Next;
    FrontOfFrame(f);
    assert f[..|f| - 1] + [f[|f| - 1]] == f;
    LastByteDecides(f[..|f| - 1], f[|f| - 1]);
  }

  lemma StartStep()
    ensures Viable([START]) && Next([], START) == [START] && Emit([], START) == InProgress
  {
  }

  lemma SilentFromStart(x: seq<byte>)
    requires x != [] && x[0] == START && CR !in x && Events([], x) == []
    ensures Run([], x) == x
  {
    hide Viable, Next, Emit;
    var rest := x[1..];
    assert x == [START] + rest;
    StartStep();
    RunSnoc([], [], START);
    EventsSnoc([], [], START);
    assert [] + [START] == [START];
    RunConcat([], [START], rest);
    EventsConcat([], [START], rest);
    SilentRunCollects([START], rest);
  }

  /** Feeding a byte string that begins with '@' from reset is silent up to the last byte and READY
      with message m on it exactly when the whole-frame validator accepts the string with m. */
  lemma IncrementalEqualsWhole(f: seq<byte>, m: Message)
    requires |f| > 0 && f[0] == START && CR !in f
    ensures (Events([], f[..|f| - 1]) == [] && Emit(Run([], f[..|f| - 1]), f[|f| - 1]) == Ready(m))
       <==> FrameMessage(f) == Some(m)
  {
    var front, last := f[..|f| - 1], f[|f| - 1];
    assert front + [last] == f;
    if FrameMessage(f) == Some(m) {
      hide FrameMessage, Emit, Next;
      FrontOfFrame(f);
      LastByteDecides(front, last);
    } else if front == [] {
      StartStep();
    } else if Events([], front) == [] {
      hide FrameMessage, Emit, Next;
      SilentFromStart(front);
      LastByteDecides(front, last);
    }
  }

  // ---------- Accounting ----------

  lemma ReadyHasFrame(p: seq<byte>, b: byte)
    requires Emit(p, b).Ready?
    ensures FrameMessage(p + [b]) == Some(Emit(p, b).message)
    ensures MIN_FRAME <= |p| + 1 <= MAX_FRAME && p != [] && b != CR && Next(p, b) == []
  {
    LastByteDecides(p, b);
    AcceptedIsEncodable(p + [b]);
  }

  // What a step adds to the partial frame, by its verdict.
  lemma StepSize(p: seq<byte>, b: byte)
    ensures b == CR ==> Next(p, b) == p && Emit(p, b) == InProgress
    ensures Emit(p, b) == InProgress ==> |Next(p, b)| <= |p| + 1
    ensures Emit(p, b) == Error ==> |Next(p, b)| <= 1 <= |p|
    ensures Emit(p, b).Ready? ==> |Next(p, b)| == 0 && |p| + 1 == |Emit(p, b).message.payload| + MIN_FRAME
  {
    hide Viable;
    if Emit(p, b).Ready? {
      ReadyHasFrame(p, b);
    }
  }

  // The bytes that the frames of these messages take.
  function Cost(ms: seq<Message>): nat {
    if ms == [] then 0 else Cost(ms[..|ms| - 1]) + MIN_FRAME + |ms[|ms| - 1].payload|
  }

  lemma CostSnoc(ms: seq<Message>, m: Message)
    ensures Cost(ms + [m]) == Cost(ms) + MIN_FRAME + |m.payload|
  {
    assert (ms + [m])[..|ms|] == ms;
  }

  lemma {:induction false} CostAtLeast(ms: seq<Message>)
    ensures Cost(ms) >= MIN_FRAME * |ms|
  {
    if ms != [] {
      CostAtLeast(ms[..|ms| - 1]);
    }
  }

  // What the verdicts so far account for: the frames behind the messages, and one byte for an error.
  function Accounted(events: seq<Verdict>): nat {
    Cost(Messages(events)) + ErrorCount(events)
  }

  lemma AccountedVisible(events: seq<Verdict>, v: Verdict)
    ensures Accounted(events + Visible(v)) ==
              Accounted(events)
              + match v { case InProgress => 0 case Error => 1 case Ready(m) => MIN_FRAME + |m.payload| }
  {
    if v == InProgress {
      assert events + Visible(v) == events;
    } else {
      MessagesSnoc(events, v);
      if v.Ready? {
        CostSnoc(Messages(events), v.message);
      } else {
        assert Messages(events + Visible(v)) == Messages(events);
      }
    }
  }

  lemma {:induction false} AccountingFrom(p: seq<byte>, s: seq<byte>)
    ensures Cost(Messages(Events(p, s))) + ErrorCount(Events(p, s)) + |Run(p, s)| <= |p| + |Strip(s)|
  {
    if s != [] {
      hide Emit, Next, Messages, ErrorCount, Cost, Visible;
      var front, last := s[..|s| - 1], s[|s| - 1];
      AccountingFrom(p, front);
      StepSize(Run(p, front), last);
      AccountedVisible(Events(p, front), Emit(Run(p, front), last));
    }
  }

  /** Every READY consumed the bytes of its message's frame and every ERROR at least one byte, although
      the '@' that causes an error is used again as the start of the next frame. */
  lemma Accounting(s: seq<byte>)
    ensures Cost(Delivered(s)) + Errors(s) + |Run([], s)| <= |Strip(s)| <= |s|
  {
    AccountingFrom([], s);
    StripSize(s);
  }

  lemma {:induction false} StripSize(s: seq<byte>)
    ensures |Strip(s)| <= |s|
    ensures CR in s ==> |Strip(s)| < |s|
  {
    if s != [] {
      StripSize(s[..|s| - 1]);
      assert s == s[..|s| - 1] + [s[|s| - 1]];
    }
  }

  // ---------- Verdict deadline ----------

  // How many more bytes other than '\r' the parser can take before it must give a verdict.
  function Remaining(p: seq<byte>): nat
    requires Viable(p)
  {
    if |p| <= 2 then MAX_FRAME - |p| else BodyLength(p) + 8 - |p|
  }

  lemma RemainingDecreases(p: seq<byte>, b: byte)
    requires Viable(p) && b != CR && Emit(p, b) == InProgress
    ensures Viable(Next(p, b))
    ensures 0 < Remaining(Next(p, b)) < Remaining(p) <= 59
  {
  }

  // From any state but WAIT_START a READY or ERROR comes within `Remaining` bytes, at most 59.
  lemma {:induction false} VerdictDeadline(p: seq<byte>, s: seq<byte>)
    requires Viable(p)
    ensures Remaining(p) <= 59
    ensures |Strip(s)| >= Remaining(p) ==> Events(p, s) != []
    ensures Events(p, s) == [] ==> Viable(Run(p, s)) && Remaining(Run(p, s)) <= Remaining(p) - |Strip(s)|
  {
    if s != [] {
      var front, last := s[..|s| - 1], s[|s| - 1];
      VerdictDeadline(p, front);
      if Events(p, s) == [] && last != CR {
        RemainingDecreases(Run(p, front), last);
      }
    }
  }
}
