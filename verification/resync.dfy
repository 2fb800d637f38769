/** Recovery: a receiver left in any state by noise finds the frame boundaries again. */
module Resync {
  import opened Bytes
  import opened Codec
  import opened Stream
  import opened StreamTheorems

  // By a viable partial frame, the bytes of x up to the first READY or ERROR are collected.
  lemma {:induction false} FirstVerdict(p: seq<byte>, x: seq<byte>) returns (t: nat)
    requires Viable(p) && CR !in x
    ensures t <= |x|
    ensures Events(p, x[..t]) == [] && Run(p, x[..t]) == p + x[..t] && Viable(p + x[..t])
    ensures t < |x| ==> Emit(p + x[..t], x[t]) != InProgress
  {
    hide Viable, Emit, Next;
    if x == [] {
      t := 0;
      assert p + x == p;
    } else {
      var front, last := x[..|x| - 1], x[|x| - 1];
      t := FirstVerdict(p, front);
      assert x[..t] == front[..t];
      if t == |front| && Emit(p + front, last) == InProgress {
        assert front[..t] == front && x[..|x|] == x;
        SilentStep(p + front, last);
        assert p + front + [last] == p + x;
        t := |x|;
      }
    }
  }

  /** A partial frame that swallowed the '@' of a new frame has at most 55 more bytes of room. Another '@'
      fits into its body only, among the first 52 of these bytes. */
  lemma RoomAfterStart(p: seq<byte>, x: seq<byte>)
    requires Viable(p) && Viable(p + x) && x != [] && x[0] == START
    ensures |x| <= 55
    ensures forall i :: 0 <= i < |x| && x[i] == START ==> i <= 51
  {
    assert (p + x)[|p|] == START;
    forall i | 0 <= i < |x| && x[i] == START ensures i <= 51 {
      assert (p + x)[|p| + i] == START;
    }
  }

  lemma VerdictRestarts(p: seq<byte>, b: byte)
    requires b != CR && Emit(p, b) != InProgress
    ensures Next(p, b) == if b == START then [START] else []
  {
  }

  // Waiting for '@', the receiver ignores everything else.
  lemma {:induction false} Quiet(x: seq<byte>)
    requires START !in x && CR !in x
    ensures Run([], x) == [] && Events([], x) == []
  {
    if x != [] {
      Quiet(x[..|x| - 1]);
      IgnoreStep(x[|x| - 1]);
    }
  }

  lemma IgnoreStep(b: byte)
    requires b != START
    ensures Next([], b) == [] && Emit([], b) == InProgress
  {
  }

  lemma {:induction false} FramesSize(ms: seq<Message>, k: nat)
    requires AllEncodable(ms) && k <= |ms|
    ensures MIN_FRAME * k <= |Frames(ms[..k])| <= |Frames(ms)|
  {
    hide Frame;
    if k > 0 {
      FrameLayout(ms[0]);
      assert ms[..k][1..] == ms[1..][..k - 1];
      FramesSize(ms[1..], k - 1);
    }
  }

  lemma FramesOrder(ms: seq<Message>, j: nat, k: nat)
    requires AllEncodable(ms) && j <= k <= |ms|
    ensures |Frames(ms[..j])| <= |Frames(ms[..k])|
  {
    hide Frames;
    FramesSize(ms[..k], j);
    assert ms[..k][..j] == ms[..j];
  }

  // The '@' that caused an error is the start of the first of these frames.
  lemma AlignedAtStart(ms: seq<Message>)
    requires AllEncodable(ms) && AllFreeOf(ms, CR) && ms != []
    ensures |Frames(ms)| > 0 && Frames(ms)[0] == START
    ensures Run([START], Frames(ms)[1..]) == []
    ensures Events([START], Frames(ms)[1..]) == Readies(ms)
  {
    hide Frame, Emit, Next, Viable, Run, Events;
    FrameBegins(ms[0]);
    NoBytes([]);
    var s := Frames(ms);
    assert s == [START] + s[1..];
    FramesDelivered(ms);
    StartStep();
    RunSnoc([], [], START);
    EventsSnoc([], [], START);
    assert [] + [START] == [START];
    RunConcat([], [START], s[1..]);
    EventsConcat([], [START], s[1..]);
  }

  // Noise up to the middle of the first frame costs that frame and no other.
  lemma AlignedInside(ms: seq<Message>, t: nat)
    requires AllEncodable(ms) && AllFreeOf(ms, CR) && ms != [] && START !in ms[0].payload
    requires 0 < t < |Frame(ms[0])|
    ensures t < |Frames(ms)| && Frames(ms)[t] != START
    ensures Run([], Frames(ms)[t + 1..]) == []
    ensures Events([], Frames(ms)[t + 1..]) == Readies(ms[1..])
  {
    hide Frame, Run, Events;
    var f, rest := Frame(ms[0]), Frames(ms[1..]);
    FrameFreeOf(ms[0], START);
    FrameFreeOf(ms[0], CR);
    assert f[t] == f[1..][t - 1];
    assert f[t + 1..] == f[1..][t..];
    Quiet(f[t + 1..]);
    FramesDelivered(ms[1..]);
    DropFirst(f, rest, t + 1);
    RunConcat([], f[t + 1..], rest);
    EventsConcat([], f[t + 1..], rest);
  }

  // No payload of a frame that begins within the first n bytes contains '@'.
  predicate EarlyFree(ms: seq<Message>, n: nat)
    requires AllEncodable(ms)
  {
    forall i :: 0 <= i < |ms| && |Frames(ms[..i])| < n ==> START !in ms[i].payload
  }

  lemma EarlyFreeTail(ms: seq<Message>, n: nat)
    requires AllEncodable(ms) && ms != [] && EarlyFree(ms, n + |Frame(ms[0])|)
    ensures EarlyFree(ms[1..], n)
  {
    hide Frame;
    assert Frames(ms[..0]) == [];
    forall i | 0 <= i < |ms[1..]| && |Frames(ms[1..][..i])| < n ensures START !in ms[1..][i].payload {
      assert ms[..i + 1][1..] == ms[1..][..i];
      assert ms[1..][i] == ms[i + 1];
    }
  }

  // After a verdict at byte t of the frames, every frame that begins later than t is delivered.
  lemma {:induction false} AfterVerdict(ms: seq<Message>, t: nat) returns (lost: nat)
    requires AllEncodable(ms) && AllFreeOf(ms, CR) && EarlyFree(ms, t)
    requires t < |Frames(ms)|
    ensures lost <= |ms| && (lost > 0 ==> |Frames(ms[..lost - 1])| < t)
    ensures Run(if Frames(ms)[t] == START then [START] else [], Frames(ms)[t + 1..]) == []
    ensures Events(if Frames(ms)[t] == START then [START] else [], Frames(ms)[t + 1..]) == Readies(ms[lost..])
  {
    hide Frame, Run, Events;
    var f := Frame(ms[0]);
    if t == 0 {
      lost := 0;
      AlignedAtStart(ms);
      assert ms[0..] == ms;
    } else if t < |f| {
      lost := 1;
      assert Frames(ms[..0]) == [];
      AlignedInside(ms, t);
    } else {
      EarlyFreeTail(ms, t - |f|);
      var k := AfterVerdict(ms[1..], t - |f|);
      lost := k + 1;
      assert ms[lost..] == ms[1..][k..];
      assert Frames(ms)[t + 1..] == Frames(ms[1..])[t - |f| + 1..];
      if k > 0 {
        assert ms[..lost - 1][1..] == ms[1..][..k - 1];
      }
    }
  }

  /** What a receiver in an unknown state makes of the frames of ms: at most one stray verdict, given
      within the first `t` bytes; the first `lost` messages are missed and all others delivered. */
  ghost predicate Recovers(p: seq<byte>, ms: seq<Message>, s: seq<byte>, stray: seq<Verdict>, t: nat, lost: nat)
    requires AllEncodable(ms)
  {
    && |stray| <= 1
    && t <= 56 && t <= |Frames(ms)| && Events(p, Frames(ms)[..t]) == stray
    && lost <= |ms| && lost <= 5
    && (forall k :: 0 <= k <= |ms| && |Frames(ms[..k])| >= 52 ==> lost <= k)
    && Events(p, s) == stray + Readies(ms[lost..])
    && (|Frames(ms)| >= 56 ==> Run(p, s) == [])
  }

  lemma {:induction false} FramesConcat(a: seq<Message>, b: seq<Message>)
    requires AllEncodable(a) && AllEncodable(b)
    ensures AllEncodable(a + b) && Frames(a + b) == Frames(a) + Frames(b)
  {
    hide Frame, Encodable;
    if a == [] {
      assert a + b == b;
    } else {
      assert (a + b)[1..] == a[1..] + b;
      FramesConcat(a[1..], b);
    }
  }

  // Where frame k begins there is a '@'.
  lemma FrameStart(ms: seq<Message>, k: nat)
    requires AllEncodable(ms) && k < |ms|
    ensures |Frames(ms[..k])| < |Frames(ms)| && Frames(ms)[|Frames(ms[..k])|] == START
  {
    hide Frame;
    FrameBegins(ms[k]);
    FramesConcat(ms[..k], ms[k..]);
    assert ms[..k] + ms[k..] == ms && ms[k..][0] == ms[k];
  }

  // The frames that begin before byte t begin within the first 52 bytes.
  predicate BeginsEarly(ms: seq<Message>, t: nat)
    requires AllEncodable(ms)
  {
    forall k :: 0 <= k < |ms| && |Frames(ms[..k])| < t ==> |Frames(ms[..k])| < 52
  }

  // All '@' that a partial frame swallows are early ones.
  lemma SwallowedEarly(p: seq<byte>, ms: seq<Message>, t: nat)
    requires AllEncodable(ms) && t <= |Frames(ms)| && Viable(p) && Viable(p + Frames(ms)[..t])
    ensures t <= 55 && BeginsEarly(ms, t)
  {
    hide Viable, Frames;
    var x := Frames(ms)[..t];
    if t > 0 && ms != [] {
      FrameStart(ms, 0);
      NoFrames(ms);
      RoomAfterStart(p, x);
      forall k | 0 <= k < |ms| && |Frames(ms[..k])| < t ensures |Frames(ms[..k])| < 52 {
        FrameStart(ms, k);
        assert x[|Frames(ms[..k])|] == START;
      }
    } else if t > 0 {
      NoFrames(ms);
    }
  }

  lemma NoFrames(ms: seq<Message>)
    ensures AllEncodable(ms[..0]) && Frames(ms[..0]) == []
    ensures ms == [] ==> AllEncodable(ms) && Frames(ms) == []
  {
  }

  lemma RecoversAfterVerdict(p: seq<byte>, ms: seq<Message>, t: nat) returns (lost: nat)
    requires AllEncodable(ms) && AllFreeOf(ms, CR) && EarlyFree(ms, 52) && BeginsEarly(ms, t)
    requires t < |Frames(ms)| && t <= 55 && Frames(ms)[t] != CR
    requires Events(p, Frames(ms)[..t]) == []
    requires Emit(Run(p, Frames(ms)[..t]), Frames(ms)[t]) != InProgress
    ensures exists v :: Recovers(p, ms, Frames(ms), [v], t + 1, lost)
  {
    hide Frames, Run, Events, Emit, Next;
    var s := Frames(ms);
    var q, b := Run(p, s[..t]), s[t];
    var v := Emit(q, b);
    VerdictRestarts(q, b);
    lost := AfterVerdict(ms, t);
    assert s[..t + 1] == s[..t] + [b];
    RunSnoc(p, s[..t], b);
    EventsSnoc(p, s[..t], b);
    assert s == s[..t + 1] + s[t + 1..];
    RunConcat(p, s[..t + 1], s[t + 1..]);
    EventsConcat(p, s[..t + 1], s[t + 1..]);
    if lost > 0 {
      FramesSize(ms, lost - 1);
    }
    forall k | 0 <= k <= |ms| && |Frames(ms[..k])| >= 52 ensures lost <= k {
      if k < lost {
        FramesOrder(ms, k, lost - 1);
      }
    }
    assert Recovers(p, ms, s, [v], t + 1, lost);
  }

  lemma RecoversAtOnce(p: seq<byte>, ms: seq<Message>, s: seq<byte>)
    requires AllEncodable(ms) && AllFreeOf(ms, CR)
    requires p == [] || ms == []
    requires Run(p, s) == Run(p, Frames(ms)) && Events(p, s) == Events(p, Frames(ms))
    ensures exists stray, t, lost :: Recovers(p, ms, s, stray, t, lost)
  {
    var x := Frames(ms);
    assert x[..0] == [];
    if p == [] {
      FramesDelivered(ms);
    }
    assert ms[0..] == ms;
    NoBytes(p);
    assert Recovers(p, ms, s, [], 0, 0);
  }

  lemma RecoversNothing(p: seq<byte>, ms: seq<Message>, s: seq<byte>)
    requires AllEncodable(ms) && |Frames(ms)| <= 55 && BeginsEarly(ms, |Frames(ms)|)
    requires Events(p, s) == Events(p, Frames(ms)) == []
    ensures exists stray, t, lost :: Recovers(p, ms, s, stray, t, lost)
  {
    hide Frame, Frames, Run, Events;
    assert Frames(ms)[..0] == [] && ms[|ms|..] == [];
    NoBytes(p);
    forall k | 0 <= k < |ms| ensures |Frames(ms[..k])| < 52 {
      FrameStart(ms, k);
    }
    LastBeginsEarly(ms);
    assert Recovers(p, ms, s, [], 0, |ms|);
  }

  // So few frames are at most five.
  lemma LastBeginsEarly(ms: seq<Message>)
    requires AllEncodable(ms) && forall k :: 0 <= k < |ms| ==> |Frames(ms[..k])| < 52
    ensures |ms| <= 5
  {
    if |ms| > 5 {
      FramesSize(ms, |ms| - 1);
    }
  }

  lemma RecoversInsideFrame(p: seq<byte>, ms: seq<Message>)
    requires Viable(p) && AllEncodable(ms) && AllFreeOf(ms, CR) && EarlyFree(ms, 52) && ms != []
    ensures exists stray, t, lost :: Recovers(p, ms, Frames(ms), stray, t, lost)
  {
    hide Frames, Run, Events, Emit, Next, Viable, Frame, Recovers;
    var x := Frames(ms);
    FramesFreeOf(ms, CR);
    AlignedAtStart(ms);
    var t := FirstVerdict(p, x);
    SwallowedEarly(p, ms, t);
    if t == |x| {
      assert x[..t] == x;
      RecoversNothing(p, ms, x);
    } else {
      var lost := RecoversAfterVerdict(p, ms, t);
    }
  }

  /** Bounded self-resynchronisation, from any state, with '\r' anywhere in the stream, if the frames that
      begin within the first 52 bytes have no '@' in their payloads. */
  lemma Resynchronises(p: seq<byte>, ms: seq<Message>, s: seq<byte>)
    requires Partial(p)
    requires AllEncodable(ms) && AllFreeOf(ms, CR) && EarlyFree(ms, 52)
    requires Strip(s) == Frames(ms)
    ensures exists stray, t, lost :: Recovers(p, ms, s, stray, t, lost)
  {
    hide Frames, Run, Events, Emit, Next, Strip;
    CarriageReturnsInvisible(p, s);
    if p == [] || ms == [] {
      RecoversAtOnce(p, ms, s);
    } else {
      RecoversInsideFrame(p, ms);
      var stray, t, lost :| Recovers(p, ms, Frames(ms), stray, t, lost);
      assert Recovers(p, ms, s, stray, t, lost);
    }
  }

  // ---------- The bound of five is reached ----------

  const STUCK: seq<byte> := [START, 51, 52, SEPARATOR]  // "@34:", a body of 52 bytes announced

  lemma StuckCollects(x: seq<byte>)
    requires |x| <= 52
    ensures Viable(STUCK + x) && BodyLength(STUCK + x) == 52
  {
    assert (STUCK + x)[1] == 51 && (STUCK + x)[2] == 52;
  }

  lemma StuckBreaks(x: seq<byte>, b: byte)
    requires |x| == 52 && b !in {CR, SEPARATOR}
    ensures Emit(STUCK + x, b) == Error && Next(STUCK + x, b) == if b == START then [START] else []
  {
    var q := STUCK + x + [b];
    StuckCollects(x);
    assert q[1] == 51 && q[2] == 52 && q[56] == b;
  }

  // Whatever fills the body that "@34:" announces, a byte other than ':' behind it is an error.
  lemma StuckError(x: seq<byte>, b: byte)
    requires |x| == 52 && CR !in x && b !in {CR, SEPARATOR}
    ensures Events(STUCK, x + [b]) == [Error]
    ensures Run(STUCK, x + [b]) == if b == START then [START] else []
  {
    StuckCollects([]);
    assert STUCK + [] == STUCK;
    StuckCollects(x);
    StuckBreaks(x, b);
    hide Viable, Emit, Next;
    Collect(STUCK, x);
    RunSnoc(STUCK, x, b);
    EventsSnoc(STUCK, x, b);
  }

  // Five frames of the shortest kind.
  lemma FiveFrames(m: Message)
    requires Encodable(m) && m.payload == []
    ensures |Frame(m)| == 12 && Frame(m)[4] == TypeText(m.kind)[0]
    ensures var front := Frames([m, m, m, m]);
            |front| == 48 && Frames([m, m, m, m, m]) == front + Frame(m)
  {
    FrameLayout(m);
    assert Frame(m)[4] == Frame(m)[4..8][0] == TypeText(m.kind)[0];
    hide Frame, Frames;
    FramesOfOne(m);
    FramesSnoc([m], m);
    FramesSnoc([m, m], m);
    FramesSnoc([m, m, m], m);
    FramesSnoc([m, m, m, m], m);
    assert [m] + [m] == [m, m] && [m, m] + [m] == [m, m, m] && [m, m, m] + [m] == [m, m, m, m];
    assert [m, m, m, m] + [m] == [m, m, m, m, m];
  }

  lemma FramesOfOne(m: Message)
    requires Encodable(m)
    ensures Frames([m]) == Frame(m)
  {
    hide Frame;
    assert Frames([m]) == Frame(m) + Frames([]);
  }

  lemma Swallowed(p: seq<byte>, x: seq<byte>, b: byte, rest: seq<byte>)
    requires Partial(p) && Viable(p + x) && CR !in x && START !in rest && CR !in rest
    requires Emit(p + x, b) == Error && Next(p + x, b) == []
    ensures Events(p, x + [b] + rest) == [Error]
  {
    hide Viable, Emit, Next, Run, Events;
    Collect(p, x);
    Quiet(rest);
    RunSnoc(p, x, b);
    EventsSnoc(p, x, b);
    EventsConcat(p, x + [b], rest);
  }

  lemma StuckRun(x: seq<byte>, b: byte, rest: seq<byte>)
    requires |x| == 52 && CR !in x && b !in {CR, SEPARATOR, START} && START !in rest && CR !in rest
    ensures Partial(STUCK) && Events(STUCK, x + [b] + rest) == [Error]
  {
    StuckCollects([]);
    assert STUCK + [] == STUCK;
    StuckCollects(x);
    StuckBreaks(x, b);
    hide Viable, Emit, Next, Events;
    Swallowed(STUCK, x, b, rest);
  }

  // A receiver waiting for a long body can miss five frames, and gives one ERROR for them.
  lemma FiveCanBeLost(m: Message)
    requires Encodable(m) && m.payload == []
    ensures Partial(STUCK) && Events(STUCK, Frames([m, m, m, m, m])) == [Error]
  {
    FiveFrames(m);
    FrameFreeOf(m, START);
    FrameFreeOf(m, CR);
    FramesFreeOf([m, m, m, m], CR);
    hide Frame, Frames, Viable, Events;
    var front, f := Frames([m, m, m, m]), Frame(m);
    assert f[5..] == f[1..][4..];
    CutAt(f, 4);
    ConcatAssociative(front, f[..4] + [f[4]], f[5..]);
    ConcatAssociative(front, f[..4], [f[4]]);
    assert f[4] in f;
    StuckRun(front + f[..4], f[4], f[5..]);
  }
}
