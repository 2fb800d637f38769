/** What the receiver guarantees over whole byte streams. */
module StreamTheorems {
  import opened Bytes
  import opened Codec
  import opened Stream

  // ---------- Soundness over arbitrary streams ----------

  // gaps[0] + frames[0] + gaps[1] + frames[1] + ...
  function Weave(gaps: seq<seq<byte>>, frames: seq<seq<byte>>): seq<byte>
    requires |gaps| == |frames|
  {
    if gaps == [] then []
    else Weave(gaps[..|gaps| - 1], frames[..|frames| - 1]) + gaps[|gaps| - 1] + frames[|frames| - 1]
  }

  /** The visible bytes of the stream fall into pieces: one valid frame behind each delivered message,
      in order and pairwise disjoint, discarded bytes between them, and the partial frame at the end.
      Each frame ends with the byte that is answered by the READY of its message. */
  ghost predicate Explains(gaps: seq<seq<byte>>, frames: seq<seq<byte>>, tail: seq<byte>, s: seq<byte>) {
    && |gaps| == |frames| == |Delivered(s)|
    && (forall i :: 0 <= i < |frames| ==> FrameMessage(frames[i]) == Some(Delivered(s)[i]))
    && Strip(s) == Weave(gaps, frames) + tail + Run([], s)
    && (forall k :: 0 <= k < |s| && Emit(Run([], s[..k]), s[k]).Ready? ==> ReadyAt(gaps, frames, s, k))
  }

  // The READY at byte k is the n-th, and the visible bytes up to byte k end with the n-th frame.
  ghost predicate ReadyAt(gaps: seq<seq<byte>>, frames: seq<seq<byte>>, s: seq<byte>, k: nat)
    requires |gaps| == |frames| && k < |s|
  {
    var n := |Delivered(s[..k + 1])|;
    0 < n <= |frames| && Strip(s[..k + 1]) == Weave(gaps[..n], frames[..n])
  }

  // Pieces of a longer stream still explain the READYs of a shorter one.
  lemma ReadyAtKept(
    gaps: seq<seq<byte>>, frames: seq<seq<byte>>, gap: seq<seq<byte>>, frame: seq<seq<byte>>,
    s: seq<byte>, b: byte, k: nat)
    requires |gaps| == |frames| && |gap| == |frame| && k < |s| && ReadyAt(gaps, frames, s, k)
    ensures ReadyAt(gaps + gap, frames + frame, s + [b], k)
  {
    hide Delivered, Strip, Weave;
    var n := |Delivered(s[..k + 1])|;
    assert (s + [b])[..k + 1] == s[..k + 1];
    assert (gaps + gap)[..n] == gaps[..n] && (frames + frame)[..n] == frames[..n];
  }

  lemma ReadyAtsKept(
    gaps: seq<seq<byte>>, frames: seq<seq<byte>>, gap: seq<seq<byte>>, frame: seq<seq<byte>>,
    tail: seq<byte>, s: seq<byte>, b: byte)
    requires Explains(gaps, frames, tail, s) && |gap| == |frame|
    ensures forall k :: 0 <= k < |s| && Emit(Run([], (s + [b])[..k]), (s + [b])[k]).Ready? ==>
              ReadyAt(gaps + gap, frames + frame, s + [b], k)
  {
    hide Emit, Next, FrameMessage, Events, Messages, Run, Strip, Delivered, Weave, ReadyAt;
    forall k | 0 <= k < |s| && Emit(Run([], (s + [b])[..k]), (s + [b])[k]).Ready?
      ensures ReadyAt(gaps + gap, frames + frame, s + [b], k)
    {
      assert (s + [b])[..k] == s[..k];
      ReadyAtKept(gaps, frames, gap, frame, s, b, k);
    }
  }

  lemma WeaveSnoc(gaps: seq<seq<byte>>, frames: seq<seq<byte>>, gap: seq<byte>, frame: seq<byte>)
    requires |gaps| == |frames|
    ensures Weave(gaps + [gap], frames + [frame]) == Weave(gaps, frames) + gap + frame
  {
    assert (gaps + [gap])[..|gaps|] == gaps && (frames + [frame])[..|frames|] == frames;
  }

  // The partial frame before a byte plus the byte is what is delivered, kept or discarded.
  lemma StepCases(p: seq<byte>, b: byte)
    requires b != CR
    ensures Emit(p, b).Ready? ==> FrameMessage(p + [b]) == Some(Emit(p, b).message) && Next(p, b) == []
    ensures !Emit(p, b).Ready? ==> exists dropped :: p + [b] == dropped + Next(p, b)
  {
    if Emit(p, b).Ready? {
      ReadyHasFrame(p, b);
    } else if Next(p, b) == p + [b] {
      assert p + [b] == [] + Next(p, b);
    } else if Next(p, b) == [START] {
      assert p + [b] == p + Next(p, b);
    } else {
      assert p + [b] == p + [b] + Next(p, b);
    }
  }

  lemma ExplainsReady(gaps: seq<seq<byte>>, frames: seq<seq<byte>>, tail: seq<byte>, s: seq<byte>, b: byte)
    requires Explains(gaps, frames, tail, s) && b != CR && Emit(Run([], s), b).Ready?
    ensures Explains(gaps + [tail], frames + [Run([], s) + [b]], [], s + [b])
  {
    hide Emit, Next, FrameMessage, Events, Messages, Run, Strip, Delivered, Weave;
    var p := Run([], s);
    DeliveredSnoc(s, b);
    RunSnoc([], s, b);
    StripSnoc(s, b);
    StepCases(p, b);
    WeaveSnoc(gaps, frames, tail, p + [b]);
    ReadyAtsKept(gaps, frames, [tail], [p + [b]], tail, s, b);
    assert Strip(s + [b]) == Weave(gaps, frames) + tail + (p + [b]);
    assert ReadyAt(gaps + [tail], frames + [p + [b]], s + [b], |s|) by {
      assert (s + [b])[..|s| + 1] == s + [b];
      assert (gaps + [tail])[..|gaps| + 1] == gaps + [tail];
      assert (frames + [p + [b]])[..|frames| + 1] == frames + [p + [b]];
    }
  }

  lemma ExplainsDrop(gaps: seq<seq<byte>>, frames: seq<seq<byte>>, tail: seq<byte>, s: seq<byte>, b: byte)
    returns (tail': seq<byte>)
    requires Explains(gaps, frames, tail, s) && b != CR && !Emit(Run([], s), b).Ready?
    ensures Explains(gaps, frames, tail', s + [b])
  {
    hide Emit, Next, FrameMessage, Events, Messages, Run, Strip, Delivered, Weave, ReadyAt;
    var p := Run([], s);
    ReadyAtsKept(gaps, frames, [], [], tail, s, b);
    assert gaps + [] == gaps && frames + [] == frames && (s + [b])[..|s|] == s;
    DeliveredSnoc(s, b);
    RunSnoc([], s, b);
    StripSnoc(s, b);
    StepCases(p, b);
    var dropped :| p + [b] == dropped + Next(p, b);
    tail' := tail + dropped;
    assert Strip(s + [b]) == Weave(gaps, frames) + tail + (p + [b]);
    assert Delivered(s + [b]) == Delivered(s);
  }

  lemma ExplainsReturn(gaps: seq<seq<byte>>, frames: seq<seq<byte>>, tail: seq<byte>, s: seq<byte>)
    requires Explains(gaps, frames, tail, s)
    ensures Explains(gaps, frames, tail, s + [CR])
  {
    CarriageReturnStep(Run([], s));
    hide Emit, Next, FrameMessage, Events, Messages, Run, Strip, Delivered, Weave, ReadyAt;
    DeliveredSnoc(s, CR);
    RunSnoc([], s, CR);
    StripSnoc(s, CR);
    ReadyAtsKept(gaps, frames, [], [], tail, s, CR);
    assert gaps + [] == gaps && frames + [] == frames && (s + [CR])[..|s|] == s;
    assert Delivered(s + [CR]) == Delivered(s) && Strip(s + [CR]) == Strip(s);
  }

  lemma {:induction false} Soundness(s: seq<byte>)
    returns (gaps: seq<seq<byte>>, frames: seq<seq<byte>>, tail: seq<byte>)
    ensures Explains(gaps, frames, tail, s)
  {
    if s == [] {
      gaps, frames, tail := [], [], [];
    } else {
      hide Emit, Next, FrameMessage, Events, Messages, Weave;
      var front, last := s[..|s| - 1], s[|s| - 1];
      assert s == front + [last];
      gaps, frames, tail := Soundness(front);
      if last == CR {
        ExplainsReturn(gaps, frames, tail, front);
      } else if Emit(Run([], front), last).Ready? {
        ExplainsReady(gaps, frames, tail, front, last);
        gaps, frames, tail := gaps + [tail], frames + [Run([], front) + [last]], [];
      } else {
        tail := ExplainsDrop(gaps, frames, tail, front, last);
      }
    }
  }

  // The bytes behind a READY are the most recent visible ones.
  lemma ReadyEndsWithFrame(s: seq<byte>, b: byte)
    requires Emit(Run([], s), b).Ready?
    ensures exists k ::
      0 <= k <= |Strip(s + [b])| && FrameMessage(Strip(s + [b])[k..]) == Some(Emit(Run([], s), b).message)
  {
    hide Emit, Next, FrameMessage, Events, Messages;
    var p, m := Run([], s), Emit(Run([], s), b).message;
    var gaps, frames, tail := Soundness(s);
    ReadyHasFrame(p, b);
    StripSnoc(s, b);
    var k := |Weave(gaps, frames) + tail|;
    assert Strip(s + [b]) == Weave(gaps, frames) + tail + (p + [b]);
    assert Strip(s + [b])[k..] == p + [b];
  }

  // A stream without a valid frame among its visible bytes delivers nothing.
  lemma DeliveredNeedsFrame(s: seq<byte>)
    requires Delivered(s) != []
    ensures exists a, c :: 0 <= a <= c <= |Strip(s)| && FrameMessage(Strip(s)[a..c]).Some?
  {
    hide FrameMessage, Delivered, Strip, Run;
    var gaps, frames, tail := Soundness(s);
    var n := |frames| - 1;
    var before := Weave(gaps[..n], frames[..n]) + gaps[n];
    var a, c := |before|, |before + frames[n]|;
    assert Strip(s) == before + frames[n] + (tail + Run([], s));
    assert Strip(s)[a..c] == frames[n];
  }

  // ---------- Round trip over whole streams ----------

  predicate AllEncodable(ms: seq<Message>) {
    forall i :: 0 <= i < |ms| ==> Encodable(ms[i])
  }

  // No payload contains b.
  predicate AllFreeOf(ms: seq<Message>, b: byte) {
    forall i :: 0 <= i < |ms| ==> b !in ms[i].payload
  }

  function Frames(ms: seq<Message>): seq<byte>
    requires AllEncodable(ms)
  {
    if ms == [] then [] else Frame(ms[0]) + Frames(ms[1..])
  }

  function Readies(ms: seq<Message>): seq<Verdict> {
    seq(|ms|, i requires 0 <= i < |ms| => Ready(ms[i]))
  }

  // n times the same message.
  function Copies(m: Message, n: nat): seq<Message> {
    seq(n, i => m)
  }

  lemma {:induction false} FramesSnoc(ms: seq<Message>, m: Message)
    requires AllEncodable(ms) && Encodable(m)
    ensures Frames(ms + [m]) == Frames(ms) + Frame(m)
  {
    hide Frame, Encodable;
    if ms == [] {
      assert Frames([m]) == Frame(m) + Frames([]);
    } else {
      assert (ms + [m])[1..] == ms[1..] + [m];
      FramesSnoc(ms[1..], m);
    }
  }

  // The encoder adds no byte of its own that could be confused with '@' or '\r'.
  lemma FrameFreeOf(m: Message, b: byte)
    requires Encodable(m) && b !in m.payload && b in {NUL, CR, START}
    ensures b !in Frame(m)[1..]
    ensures b != START ==> b !in Frame(m)
  {
    hide Frame;
    forall j | 0 <= j < |Frame(m)| ensures Frame(m)[j] == b ==> j == 0 && b == START {
      FrameByte(m, j);
    }
  }

  lemma {:induction false} FramesFreeOf(ms: seq<Message>, b: byte)
    requires AllEncodable(ms) && AllFreeOf(ms, b) && b in {NUL, CR}
    ensures b !in Frames(ms)
  {
    hide Frame;
    if ms != [] {
      FrameFreeOf(ms[0], b);
      FramesFreeOf(ms[1..], b);
    }
  }

  lemma {:induction false} FramesDelivered(ms: seq<Message>)
    requires AllEncodable(ms) && AllFreeOf(ms, CR)
    ensures Run([], Frames(ms)) == []
    ensures Events([], Frames(ms)) == Readies(ms)
  {
    hide Frame, FrameMessage, Run, Events;
    if ms == [] {
      NoBytes([]);
    } else {
      var f := Frame(ms[0]);
      RoundTrip(ms[0]);
      FrameFreeOf(ms[0], CR);
      FrameDelivered(f);
      FramesDelivered(ms[1..]);
      RunConcat([], f, Frames(ms[1..]));
      EventsConcat([], f, Frames(ms[1..]));
      assert Readies(ms) == [Ready(ms[0])] + Readies(ms[1..]);
    }
  }

  lemma {:induction false} ReadiesMessages(ms: seq<Message>)
    ensures Messages(Readies(ms)) == ms && ErrorCount(Readies(ms)) == 0
  {
    if ms != [] {
      var front := ms[..|ms| - 1];
      ReadiesMessages(front);
      assert Readies(ms) == Readies(front) + [Ready(ms[|ms| - 1])];
      MessagesSnoc(Readies(front), Ready(ms[|ms| - 1]));
    }
  }

  /** From reset, the encodings of any messages, with '\r' inserted anywhere, deliver exactly those
      messages, without an error, and leave the receiver in its reset state. */
  lemma StreamRoundTrip(ms: seq<Message>, s: seq<byte>)
    requires AllEncodable(ms) && AllFreeOf(ms, CR)
    requires Strip(s) == Frames(ms)
    ensures Events([], s) == Readies(ms)
    ensures Delivered(s) == ms && Errors(s) == 0 && Run([], s) == []
  {
    hide Run, Events, Strip;
    FramesDelivered(ms);
    CarriageReturnsInvisible([], s);
    ReadiesMessages(ms);
  }

  // ---------- Exactly when the round trip succeeds ----------

  // The frames found in a stream take as many bytes as their messages' encodings.
  lemma {:induction false} WeaveSize(gaps: seq<seq<byte>>, frames: seq<seq<byte>>, ms: seq<Message>)
    requires |gaps| == |frames| == |ms|
    requires forall i :: 0 <= i < |ms| ==> FrameMessage(frames[i]) == Some(ms[i])
    ensures AllEncodable(ms) && |Frames(ms)| <= |Weave(gaps, frames)|
  {
    hide FrameMessage, Frame;
    if ms != [] {
      var n := |ms| - 1;
      WeaveSize(gaps[..n], frames[..n], ms[..n]);
      AcceptedIsEncodable(frames[n]);
      FrameSize(ms[n]);
      FramesSnoc(ms[..n], ms[n]);
      assert ms[..n] + [ms[n]] == ms;
    }
  }

  lemma FrameSize(m: Message)
    requires Encodable(m)
    ensures |Frame(m)| == |m.payload| + 12
  {
    FrameLayout(m);
  }

  lemma PayloadInPlace(m: Message)
    requires Encodable(m)
    ensures |Frame(m)| == |m.payload| + 12 && Frame(m)[8..|m.payload| + 8] == m.payload
  {
    FrameLayout(m);
    hide Frame, Checksum, WellShaped, HexDigit;
    assert Body(m)[4..] == m.payload;
    assert Frame(m)[8..|m.payload| + 8] == Frame(m)[4..|m.payload| + 8][4..];
  }

  lemma PayloadInFrame(m: Message, b: byte)
    requires Encodable(m) && b in m.payload
    ensures b in Frame(m)
  {
    FrameLayout(m);
    var f, n := Frame(m), |Body(m)|;
    var i :| 0 <= i < |m.payload| && m.payload[i] == b;
    assert f[4..n + 4][i + 4] == Body(m)[i + 4] == b;
    assert f[i + 8] == b;
  }

  lemma {:induction false} PayloadInFrames(ms: seq<Message>, i: nat, b: byte)
    requires AllEncodable(ms) && i < |ms| && b in ms[i].payload
    ensures b in Frames(ms)
  {
    hide Frame;
    if i == 0 {
      PayloadInFrame(ms[0], b);
    } else {
      PayloadInFrames(ms[1..], i - 1, b);
    }
  }

  /** The parser ignores '\r' inside a body, so the encodings of a list of messages are received as that
      list exactly when no payload contains '\r'. */
  lemma RoundTripExactly(ms: seq<Message>)
    requires AllEncodable(ms)
    ensures Delivered(Frames(ms)) == ms <==> AllFreeOf(ms, CR)
  {
    var s := Frames(ms);
    if AllFreeOf(ms, CR) {
      FramesFreeOf(ms, CR);
      StripClean(s);
      StreamRoundTrip(ms, s);
    } else {
      hide Frames, Frame, FrameMessage, Delivered, Strip, Run;
      var i :| 0 <= i < |ms| && CR in ms[i].payload;
      PayloadInFrames(ms, i, CR);
      StripSize(s);
      var gaps, frames, tail := Soundness(s);
      WeaveSize(gaps, frames, Delivered(s));
    }
  }
}
