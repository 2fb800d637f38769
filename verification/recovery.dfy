/** Exactly when a receiver recovers from every state: a payload with '@' in one of the first frames can
    keep it out of step, and nothing else can. */
module Recovery {
  import opened Bytes
  import opened Codec
  import opened Stream
  import opened StreamTheorems
  import opened Resync

  // ---------- Runs without an error ----------

  predicate AllReady(events: seq<Verdict>) {
    forall i :: 0 <= i < |events| ==> events[i].Ready?
  }

  lemma ReadyParts(a: seq<Verdict>, b: seq<Verdict>)
    requires AllReady(a + b)
    ensures AllReady(a) && Error !in b
  {
    assert forall i :: 0 <= i < |a| ==> a[i] == (a + b)[i];
    assert forall i :: 0 <= i < |b| ==> b[i] == (a + b)[|a| + i];
  }

  // Without an error, what is collected has been collected from reset.
  lemma {:induction false} PendingBegins(s: seq<byte>) returns (a: seq<byte>)
    requires CR !in s && AllReady(Events([], s))
    ensures s == a + Run([], s) && Run([], a) == [] && Events([], a) == Events([], s)
  {
    hide Viable, Emit, Next, Run, Events;
    if s == [] {
      NoBytes([]);
      a := [];
    } else {
      var front, last := s[..|s| - 1], s[|s| - 1];
      assert s == front + [last];
      RunSnoc([], front, last);
      EventsSnoc([], front, last);
      ReadyParts(Events([], front), Visible(Emit(Run([], front), last)));
      a := PendingBegins(front);
      if Run([], s) == [] {
        a := s;
      } else {
        CollectedByte(Run([], front), last);
      }
    }
  }

  lemma CollectedByte(p: seq<byte>, b: byte)
    requires b != CR && Next(p, b) != [] && Emit(p, b) != Error
    ensures Next(p, b) == p + [b] && Emit(p, b) == InProgress
  {
    assert (p + [b])[|p|] == b;
  }

  // A silent byte that leaves the receiver in reset found it there.
  lemma IgnoredByte(p: seq<byte>, b: byte)
    requires b != CR && Next(p, b) == [] && Emit(p, b) == InProgress
    ensures p == [] && b != START
  {
  }

  lemma SameLast(a: seq<Verdict>, v: Verdict, b: seq<Verdict>, w: Verdict)
    requires a + [v] == b + [w]
    ensures a == b && v == w
  {
    assert (a + [v])[|a|] == v && (b + [w])[|b|] == w;
    assert (a + [v])[..|a|] == a && (b + [w])[..|b|] == b;
  }

  // A run that ends in reset after delivering ms without an error: the last frame, and what surrounds it.
  lemma {:induction false} LastReady(s: seq<byte>, ms: seq<Message>)
    returns (a: seq<byte>, g: seq<byte>, c: seq<byte>)
    requires ms != [] && CR !in s && Events([], s) == Readies(ms) && Run([], s) == []
    ensures s == a + g + c && START !in c
    ensures Run([], a) == [] && Events([], a) == Readies(ms[..|ms| - 1])
    ensures FrameMessage(g) == Some(ms[|ms| - 1])
    decreases |s|
  {
    hide Viable, Emit, Next, Run, Events, FrameMessage;
    NoBytes([]);
    assert Readies(ms) == Readies(ms[..|ms| - 1]) + [Ready(ms[|ms| - 1])];
    var front, last := s[..|s| - 1], s[|s| - 1];
    assert s == front + [last];
    var p := Run([], front);
    RunSnoc([], front, last);
    EventsSnoc([], front, last);
    if Emit(p, last) == InProgress {
      IgnoredByte(p, last);
      assert Events([], front) == Readies(ms);
      a, g, c := LastReady(front, ms);
      c := c + [last];
    } else {
      SameLast(Events([], front), Emit(p, last), Readies(ms[..|ms| - 1]), Ready(ms[|ms| - 1]));
      ReadyHasFrame(p, last);
      a := PendingBegins(front);
      g, c := p + [last], [];
    }
  }

  // ---------- A frame that ends early leaves a '@' behind ----------

  lemma StartInBody(g: seq<byte>, k: nat)
    requires FrameMessage(g).Some? && 0 < k < |g| && g[k] == START
    ensures LengthFieldOk(g) && |g| == BodyLength(g) + 8 && 4 <= k < BodyLength(g) + 4
  {
  }

  // Two frames of one message have their '@' at the same places.
  lemma StartsAgree(m: Message, g: seq<byte>, k: nat)
    requires Encodable(m) && FrameMessage(g) == Some(m) && 0 < k < |g| && g[k] == START
    ensures |g| == |Frame(m)| && Frame(m)[k] == START
  {
    hide Frame, FrameMessage, Body, ChecksumInput, WellShaped;
    StartInBody(g, k);
    AcceptedIsEncodable(g);
    FrameLayout(m);
    var n := |Body(m)|;
    assert g[k] == g[4..n + 4][k - 4] && Frame(m)[k] == Frame(m)[4..n + 4][k - 4];
  }

  // x ends with the frame of m; byte j of that frame is a '@'; g is another frame of m that ends before x does.
  lemma StartBehind(m: Message, g: seq<byte>, x: seq<byte>, e: nat, j: nat)
    requires Encodable(m) && FrameMessage(g) == Some(m) && |g| == |Frame(m)|
    requires |g| <= e < |x| && x[e - |g|..e] == g && x[|x| - |g|..] == Frame(m)
    requires j < |g| && Frame(m)[j] == START
    ensures START in x[e..]
    decreases |g| - j
  {
    hide Frame, FrameMessage;
    var at := |x| - |g| + j;
    assert x[at] == x[|x| - |g|..][j] == START;
    if at >= e {
      assert x[e..][at - e] == START;
    } else {
      var k := at - (e - |g|);
      assert g[k] == x[e - |g|..e][k] == START;
      StartsAgree(m, g, k);
      StartBehind(m, g, x, e, k);
    }
  }

  // ---------- A run of messages only is aligned ----------

  // The frames of ms end with the frame of the last message.
  lemma LastFrame(ms: seq<Message>)
    requires AllEncodable(ms) && ms != []
    ensures Frames(ms) == Frames(ms[..|ms| - 1]) + Frame(ms[|ms| - 1])
    ensures |Frame(ms[|ms| - 1])| > 0 && Frame(ms[|ms| - 1])[0] == START
  {
    hide Frame, Frames;
    FrameBegins(ms[|ms| - 1]);
    FramesSnoc(ms[..|ms| - 1], ms[|ms| - 1]);
    assert ms[..|ms| - 1] + [ms[|ms| - 1]] == ms;
  }

  // A nonempty run from a '@' that ends in reset has verdicts.
  lemma NotSilent(y: seq<byte>)
    requires y != [] && y[0] == START && CR !in y && Run([], y) == []
    ensures Events([], y) != []
  {
    hide Run, Events;
    if Events([], y) == [] {
      SilentFromStart(y);
    }
  }

  // Byte q of the frames of ms is a '@'; from there the receiver delivers the last messages and ends in reset.
  predicate DeliversFrom(ms: seq<Message>, q: nat, lost: nat)
    requires AllEncodable(ms)
  {
    && lost <= |ms| && q < |Frames(ms)| && Frames(ms)[q] == START
    && Events([], Frames(ms)[q..]) == Readies(ms[lost..]) && Run([], Frames(ms)[q..]) == []
  }

  // The last frame that the receiver finds is the last one, since behind it there is no '@'.
  lemma EndsOnTime(ms: seq<Message>, q: nat, a: seq<byte>, g: seq<byte>, c: seq<byte>)
    requires AllEncodable(ms) && ms != [] && q <= |Frames(ms)| && Frames(ms)[q..] == a + g + c
    requires FrameMessage(g) == Some(ms[|ms| - 1]) && START !in c
    ensures q + |a| == |Frames(ms[..|ms| - 1])| && Frames(ms[..|ms| - 1])[q..] == a
  {
    hide Frame, Frames, FrameMessage;
    var x, n, b := Frames(ms), |ms| - 1, q + |a|;
    LastFrame(ms);
    AcceptedIsEncodable(g);
    FrameSize(ms[n]);
    assert x == x[..q] + (a + g + c);
    assert x[b..b + |g|] == g && x[b + |g|..] == c && x[|x| - |g|..] == Frame(ms[n]);
    if c != [] {
      StartBehind(ms[n], g, x, b + |g|, 0);
    }
    assert c == [];
    assert x[..b] == Frames(ms[..n]) && x[..b][q..] == a;
  }

  // Then a frame begins there.
  lemma {:induction false} Aligned(ms: seq<Message>, q: nat, lost: nat) returns (k: nat)
    requires AllEncodable(ms) && AllFreeOf(ms, CR) && DeliversFrom(ms, q, lost)
    ensures k < |ms| && |Frames(ms[..k])| == q
    decreases |ms|
  {
    hide Frame, Frames, FrameMessage, Run, Events;
    FramesFreeOf(ms, CR);
    NotSilent(Frames(ms)[q..]);
    assert ms[|ms|..] == [];
    var before := ms[..|ms| - 1];
    var a, g, c := LastReady(Frames(ms)[q..], ms[lost..]);
    assert ms[lost..][..|ms[lost..]| - 1] == before[lost..];
    EndsOnTime(ms, q, a, g, c);
    if a == [] {
      k := |ms| - 1;
    } else {
      assert (a + g + c)[0] == a[0];
      k := Aligned(before, q, lost);
      assert before[..k] == ms[..k];
    }
  }

  // Nothing begins strictly inside frame i.
  lemma InsideIsNotAligned(ms: seq<Message>, i: nat, k: nat)
    requires AllEncodable(ms) && i < |ms| && k < |ms|
    ensures !(|Frames(ms[..i])| < |Frames(ms[..k])| < |Frames(ms[..i])| + |Frame(ms[i])|)
  {
    hide Frame, Frames;
    if k <= i {
      FramesOrder(ms, k, i);
    } else {
      FramesOrder(ms, i + 1, k);
      FramesSnoc(ms[..i], ms[i]);
      assert ms[..i] + [ms[i]] == ms[..i + 1];
    }
  }

  // ---------- A state from which recovery fails ----------

  // A receiver whose body ends just before byte r, which is no ':'.
  lemma StuckUntil(x: seq<byte>, r: nat) returns (p: seq<byte>)
    requires r <= 52 && r < |x| && CR !in x && x[r] != SEPARATOR
    ensures Partial(p) && Events(p, x[..r + 1]) == [Error]
    ensures Run(p, x[..r + 1]) == if x[r] == START then [START] else []
  {
    hide Viable, Run, Events;
    var fill: seq<byte> := seq(52 - r, i => 120);
    p := Filled(fill);
    StuckError(fill + x[..r], x[r]);
    FilledRun(fill, x[..r + 1]);
    assert fill + x[..r] + [x[r]] == fill + x[..r + 1];
  }

  // A receiver that has collected `fill` behind "@34:".
  lemma Filled(fill: seq<byte>) returns (p: seq<byte>)
    requires |fill| <= 52 && CR !in fill
    ensures p == STUCK + fill && Partial(p)
  {
    StuckCollects(fill);
    p := STUCK + fill;
  }

  lemma FilledRun(fill: seq<byte>, y: seq<byte>)
    requires |fill| <= 52 && CR !in fill
    ensures Run(STUCK, fill + y) == Run(STUCK + fill, y) && Events(STUCK, fill + y) == Events(STUCK + fill, y)
  {
    StuckCollects([]);
    assert STUCK + [] == STUCK;
    StuckCollects(fill);
    hide Viable, Run, Events;
    Collect(STUCK, fill);
    RunConcat(STUCK, fill, y);
    EventsConcat(STUCK, fill, y);
  }

  lemma {:induction false} FirstOf(s: seq<byte>, b: byte) returns (j: nat)
    requires b in s
    ensures j < |s| && s[j] == b && b !in s[..j]
  {
    if s[0] == b {
      j := 0;
    } else {
      var k := FirstOf(s[1..], b);
      j := k + 1;
      assert s[..j] == [s[0]] + s[1..][..k];
    }
  }

  // The first '@' behind the one that begins a frame, when its payload has one.
  lemma SecondStart(m: Message) returns (j: nat)
    requires Encodable(m) && START in m.payload
    ensures 1 < j < |Frame(m)| && Frame(m)[j] == START && START !in Frame(m)[1..j]
    ensures Frame(m)[1] != START && Frame(m)[1] != SEPARATOR
  {
    hide Frame;
    FrameBegins(m);
    PayloadInPlace(m);
    var i :| 0 <= i < |m.payload| && m.payload[i] == START;
    var f := Frame(m);
    assert f[8..|m.payload| + 8][i] == f[1..][i + 7] == START;
    var k := FirstOf(f[1..], START);
    j := k + 1;
    assert f[1..j] == f[1..][..k] && f[j] == f[1..][k];
  }

  // From p, the bytes up to the '@' at q give one ERROR, and the receiver restarts with that '@'.
  predicate Restarts(p: seq<byte>, x: seq<byte>, q: nat) {
    q < |x| && x[q] == START && Partial(p) && Events(p, x[..q + 1]) == [Error] && Run(p, x[..q + 1]) == [START]
  }

  // Frame i begins early and has a '@' in its payload: some receiver restarts inside it.
  lemma RestartsInside(ms: seq<Message>, i: nat) returns (p: seq<byte>, q: nat)
    requires AllEncodable(ms) && AllFreeOf(ms, CR)
    requires i < |ms| && |Frames(ms[..i])| < 52 && START in ms[i].payload
    ensures Restarts(p, Frames(ms), q)
    ensures |Frames(ms[..i])| < q < |Frames(ms[..i])| + |Frame(ms[i])|
  {
    hide Frame, Frames, Run, Events, Viable;
    var x, o, f := Frames(ms), |Frames(ms[..i])|, Frame(ms[i]);
    FramesFreeOf(ms, CR);
    FrameInPlace(ms, i);
    var j := SecondStart(ms[i]);
    q := o + j;
    assert f[j] == x[q] && f[1] == x[o + 1];
    if q <= 52 {
      p := StuckUntil(x, q);
    } else {
      p := StuckUntil(x, o + 1);
      SliceOfSlice(x, o, o + |f|, 2, j);
      SliceOfSlice(f, 1, j, 1, j - 1);
      QuietRestart(p, x, o + 1, q);
    }
  }

  lemma FrameInPlace(ms: seq<Message>, i: nat)
    requires AllEncodable(ms) && i < |ms|
    ensures var o, f := |Frames(ms[..i])|, Frame(ms[i]); o + |f| <= |Frames(ms)| && Frames(ms)[o..o + |f|] == f
  {
    hide Frame;
    FramesConcat(ms[..i], ms[i..]);
    assert ms[..i] + ms[i..] == ms && ms[i..][0] == ms[i];
  }

  // Back in reset after byte r, the receiver waits for the '@' at q.
  lemma QuietRestart(p: seq<byte>, x: seq<byte>, r: nat, q: nat)
    requires r < q < |x| && x[q] == START && CR !in x && START !in x[r + 1..q]
    requires Partial(p) && Events(p, x[..r + 1]) == [Error] && Run(p, x[..r + 1]) == []
    ensures Restarts(p, x, q)
  {
    hide Run, Events, Viable, Emit, Next;
    var quiet := x[r + 1..q];
    Quiet(quiet);
    assert x[..q] == x[..r + 1] + quiet && x[..q + 1] == x[..q] + [x[q]];
    RunConcat(p, x[..r + 1], quiet);
    EventsConcat(p, x[..r + 1], quiet);
    StartStep();
    RunSnoc(p, x[..q], START);
    EventsSnoc(p, x[..q], START);
  }

  // What follows the restart.
  lemma AfterRestart(p: seq<byte>, x: seq<byte>, q: nat)
    requires Restarts(p, x, q)
    ensures Run(p, x) == Run([], x[q..]) && Events(p, x) == [Error] + Events([], x[q..])
  {
    hide Run, Events, Viable, Emit, Next;
    assert x == x[..q + 1] + x[q + 1..] && x[q..] == [START] + x[q + 1..];
    RunConcat(p, x[..q + 1], x[q + 1..]);
    EventsConcat(p, x[..q + 1], x[q + 1..]);
    StartStep();
    NoBytes([]);
    RunSnoc([], [], START);
    EventsSnoc([], [], START);
    assert [] + [START] == [START];
    RunConcat([], [START], x[q + 1..]);
    EventsConcat([], [START], x[q + 1..]);
  }

  lemma StrayIsError(events: seq<Verdict>, stray: seq<Verdict>, ms: seq<Message>)
    requires |stray| <= 1 && [Error] + events == stray + Readies(ms)
    ensures events == Readies(ms)
  {
    assert ([Error] + events)[0] == Error;
    assert stray == [] ==> stray + Readies(ms) == Readies(ms);
    assert ([Error] + events)[1..] == events && (stray + Readies(ms))[1..] == Readies(ms);
  }

  lemma DoesNotRecover(
    p: seq<byte>, ms: seq<Message>, i: nat, q: nat, stray: seq<Verdict>, t: nat, lost: nat)
    requires AllEncodable(ms) && AllFreeOf(ms, CR) && i < |ms| && |Frames(ms)| >= 56
    requires Restarts(p, Frames(ms), q)
    requires |Frames(ms[..i])| < q < |Frames(ms[..i])| + |Frame(ms[i])|
    ensures !Recovers(p, ms, Frames(ms), stray, t, lost)
  {
    hide Frame, Frames, Run, Events, Restarts;
    if Recovers(p, ms, Frames(ms), stray, t, lost) {
      RestartIsStart(p, Frames(ms), q);
      AfterRestart(p, Frames(ms), q);
      StrayIsError(Events([], Frames(ms)[q..]), stray, ms[lost..]);
      var k := Aligned(ms, q, lost);
      InsideIsNotAligned(ms, i, k);
    }
  }

  lemma RestartIsStart(p: seq<byte>, x: seq<byte>, q: nat)
    requires Restarts(p, x, q)
    ensures q < |x| && x[q] == START
  {
  }

  // ---------- Exactly when recovery is certain ----------

  ghost predicate Recoverable(p: seq<byte>, ms: seq<Message>, s: seq<byte>)
    requires AllEncodable(ms)
  {
    exists stray, t, lost :: Recovers(p, ms, s, stray, t, lost)
  }

  /** From every state, with '\r' anywhere, a receiver recovers on the frames of ms exactly when the frames
      that begin within the first 52 bytes have no '@' in their payloads. */
  lemma RecoversExactly(ms: seq<Message>)
    requires AllEncodable(ms) && AllFreeOf(ms, CR) && |Frames(ms)| >= 56
    ensures (forall p, s :: Partial(p) && Strip(s) == Frames(ms) ==> Recoverable(p, ms, s)) <==> EarlyFree(ms, 52)
  {
    hide Frame, Frames, Strip, Recovers, Restarts, Viable;
    if EarlyFree(ms, 52) {
      forall p, s | Partial(p) && Strip(s) == Frames(ms) ensures Recoverable(p, ms, s) {
        Resynchronises(p, ms, s);
      }
    } else {
      var i :| 0 <= i < |ms| && |Frames(ms[..i])| < 52 && START in ms[i].payload;
      var p := FailsFrom(ms, i);
    }
  }

  lemma FailsFrom(ms: seq<Message>, i: nat) returns (p: seq<byte>)
    requires AllEncodable(ms) && AllFreeOf(ms, CR) && |Frames(ms)| >= 56
    requires i < |ms| && |Frames(ms[..i])| < 52 && START in ms[i].payload
    ensures Partial(p) && Strip(Frames(ms)) == Frames(ms) && !Recoverable(p, ms, Frames(ms))
  {
    hide Frame, Frames, Strip, Recovers, Viable, Run, Events;
    FramesFreeOf(ms, CR);
    StripClean(Frames(ms));
    var q;
    p, q := RestartsInside(ms, i);
    forall stray, t, lost ensures !Recovers(p, ms, Frames(ms), stray, t, lost) {
      DoesNotRecover(p, ms, i, q, stray, t, lost);
    }
  }
}
