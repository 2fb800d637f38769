/** What a change of one byte of an encoded frame can do. */
module Corruption {
  import opened Bytes
  import opened Codec
  import opened Stream
  import opened StreamTheorems
  import opened Resync

  // Writing b over byte i turns an upper-case digit of CC into its lower-case form.
  predicate CaseChanged(f: seq<byte>, i: nat, b: byte)
    requires MIN_FRAME <= |f|
  {
    (i == |f| - 3 || i == |f| - 2) && 65 <= f[i] <= 70 && b == f[i] + 32
  }

  // ---------- The whole-frame validator ----------

  lemma DelimiterCorrupted(m: Message, i: nat, b: byte)
    requires Encodable(m) && i < |Frame(m)| && b != Frame(m)[i]
    requires i in {0, 3, |Body(m)| + 4, |Body(m)| + 7}
    ensures FrameMessage(Frame(m)[i := b]).None?
  {
    FrameLayout(m);
  }

  // The length digits and the body are covered by the checksum.
  lemma CoveredByteCorrupted(m: Message, i: nat, b: byte)
    requires Encodable(m) && i < |Frame(m)| && b != Frame(m)[i]
    requires 1 <= i < |Body(m)| + 4 && i != 3
    ensures FrameMessage(Frame(m)[i := b]).None?
  {
    var f, n := Frame(m), |Body(m)|;
    var g := f[i := b];
    FrameLayout(m);
    HexRoundTrip(Checksum(ChecksumInput(m)));
    if WellShaped(g) {
      assert g[1..n + 4] == ChecksumInput(m)[i - 1 := b];
      ChecksumDetectsChange(ChecksumInput(m), i - 1, b);
    }
  }

  lemma SameDigit(a: byte, b: byte)
    requires IsUpperHex(a) && a != b
    ensures IsHex(b) && HexValue(a) == HexValue(b) <==> 65 <= a <= 70 && b == a + 32
  {
  }

  // In any accepted frame, a checksum digit can be replaced by a digit of the same value and no other.
  lemma CheckDigitReplaced(f: seq<byte>, i: nat, b: byte)
    requires FrameMessage(f).Some? && BodyLength(f) + 5 <= i <= BodyLength(f) + 6
    ensures FrameMessage(f[i := b]) == if IsHex(b) && HexValue(b) == HexValue(f[i]) then FrameMessage(f) else None
  {
    hide Checksum, DecodeBody;
    var g, n := f[i := b], BodyLength(f);
    assert g[1] == f[1] && g[2] == f[2] && BodyLength(g) == n;
    assert g[1..n + 4] == f[1..n + 4] && g[4..n + 4] == f[4..n + 4];
  }

  lemma CheckDigitCorrupted(m: Message, i: nat, b: byte)
    requires Encodable(m) && i < |Frame(m)| && b != Frame(m)[i]
    requires i == |Body(m)| + 5 || i == |Body(m)| + 6
    ensures FrameMessage(Frame(m)[i := b]) == if CaseChanged(Frame(m), i, b) then Some(m) else None
  {
    FrameLayout(m);
    HexRoundTrip(Checksum(ChecksumInput(m)));
    RoundTrip(m);
    hide Frame, FrameMessage, Checksum;
    CheckDigitReplaced(Frame(m), i, b);
    SameDigit(Frame(m)[i], b);
  }

  /** One byte of an encoded frame replaced: the validator rejects the result, except for a change of
      letter case in CC, which leaves the message as it was. */
  lemma OneByteCorruption(m: Message, i: nat, b: byte)
    requires Encodable(m) && i < |Frame(m)| && b != Frame(m)[i]
    ensures |Frame(m)| >= MIN_FRAME
    ensures FrameMessage(Frame(m)[i := b]) == if CaseChanged(Frame(m), i, b) then Some(m) else None
  {
    FrameLayout(m);
    var n := |Body(m)|;
    hide Frame, FrameMessage, Body;
    if i in {0, 3, n + 4, n + 7} {
      DelimiterCorrupted(m, i, b);
    } else if i < n + 4 {
      CoveredByteCorrupted(m, i, b);
    } else {
      CheckDigitCorrupted(m, i, b);
    }
  }

  // The same for the C string that `protocol_validate_frame` sees, where a NUL byte cuts the frame short.
  lemma OneByteCorruptionOfString(m: Message, i: nat, b: byte)
    requires Encodable(m) && NUL !in m.payload && i < |Frame(m)| && b != Frame(m)[i]
    ensures |Frame(m)| >= MIN_FRAME
    ensures FrameMessage(CString(Frame(m)[i := b] + [NUL])) == if CaseChanged(Frame(m), i, b) then Some(m) else None
  {
    OneByteCorruption(m, i, b);
    FrameFreeOf(m, NUL);
    hide Frame, FrameMessage, CString;
    var f := Frame(m);
    if b == NUL {
      assert f[i := b] + [NUL] == f[..i] + [NUL] + (f[i + 1..] + [NUL]);
      CStringStops(f[..i], f[i + 1..] + [NUL]);
      CutShort(m, i);
    } else {
      CStringStops(f[i := b], []);
      assert f[i := b] + [NUL] + [] == f[i := b] + [NUL];
    }
  }

  lemma CutShort(m: Message, i: nat)
    requires Encodable(m) && i < |Frame(m)|
    ensures FrameMessage(Frame(m)[..i]).None?
  {
    FrameLayout(m);
  }

  // ---------- The incremental receiver ----------

  // Where a frame with a given beginning and end can lie among the visible bytes.
  lemma FrameEnds(h: seq<byte>, a: nat, c: nat)
    requires a <= c <= |h| && FrameMessage(h[a..c]).Some?
    ensures c - a >= MIN_FRAME && h[a] == START && h[c - 1] == END
    ensures IsHex(h[a + 1]) && IsHex(h[a + 2]) && h[a + 3] == SEPARATOR
    ensures c - a == HexByte(h[a + 1], h[a + 2]) + 8
  {
    var g := h[a..c];
    assert g[0] == h[a] && g[1] == h[a + 1] && g[2] == h[a + 2] && g[3] == h[a + 3] && g[|g| - 1] == h[c - 1];
  }

  // A frame whose payload has no '@', '\n' or '\r': these bytes are only where the format puts them.
  predicate PlainFrame(f: seq<byte>) {
    && MIN_FRAME <= |f| <= MAX_FRAME
    && (forall j :: 0 <= j < |f| ==> (f[j] == START <==> j == 0))
    && (forall j :: 0 <= j < |f| ==> (f[j] == END <==> j == |f| - 1))
    && (forall j :: 0 <= j < |f| ==> f[j] != CR)
    && IsHex(f[1]) && IsHex(f[2]) && f[3] == SEPARATOR && f[6] != SEPARATOR
    && |f| == HexByte(f[1], f[2]) + 8
  }

  predicate PlainPayload(m: Message) {
    START !in m.payload && END !in m.payload && CR !in m.payload
  }

  lemma FrameIsPlain(m: Message)
    requires Encodable(m) && PlainPayload(m)
    ensures PlainFrame(Frame(m))
  {
    var f, n := Frame(m), |Body(m)|;
    FrameLayout(m);
    HexRoundTrip(n);
    assert f[6] == f[4..n + 4][2] == TypeText(m.kind)[2];
    hide Frame, FrameMessage;
    forall j | 0 <= j < |f|
      ensures f[j] == START <==> j == 0
      ensures f[j] == END <==> j == |f| - 1
      ensures f[j] != CR
    {
      FrameByte(m, j);
    }
  }

  // With its header corrupted, the only place left for a valid frame is the whole.
  lemma OnlyTheWhole(f: seq<byte>, i: nat, b: byte, a: nat, c: nat)
    requires PlainFrame(f) && i < 4 && b != f[i]
    requires a <= c <= |f| && FrameMessage(f[i := b][a..c]).Some?
    ensures a == 0 && c == |f|
  {
    hide FrameMessage;
    FrameEnds(f[i := b], a, c);
  }

  lemma HeaderCorrupted(f: seq<byte>, i: nat, b: byte)
    requires PlainFrame(f) && i < 4 && b != f[i] && b != CR
    requires FrameMessage(f[i := b]).None?
    ensures Delivered(f[i := b]) == []
  {
    var g := f[i := b];
    hide Delivered, FrameMessage, Strip;
    StripClean(g);
    assert g[0..|g|] == g;
    if Delivered(g) != [] {
      DeliveredNeedsFrame(g);
      var a, c :| 0 <= a <= c <= |g| && FrameMessage(g[a..c]).Some?;
      OnlyTheWhole(f, i, b, a, c);
    }
  }

  lemma ReturnInserted(f: seq<byte>, i: nat)
    requires PlainFrame(f) && i < |f|
    ensures Delivered(f[i := CR]) == []
  {
    var g, h := f[i := CR], f[..i] + f[i + 1..];
    hide Delivered, FrameMessage, Strip;
    WithoutReturn(f, i);
    forall a, c | 0 <= a <= c <= |h| ensures FrameMessage(h[a..c]).None? {
      NoFrameWithout(f, i, a, c);
    }
    if Delivered(g) != [] {
      DeliveredNeedsFrame(g);
    }
  }

  // Between the '@' and the '\n' of a frame that lacks one byte there is no room for a frame.
  lemma NoFrameWithout(f: seq<byte>, i: nat, a: nat, c: nat)
    requires PlainFrame(f) && i < |f| && a <= c < |f|
    ensures FrameMessage((f[..i] + f[i + 1..])[a..c]).None?
  {
    hide FrameMessage;
    var h := f[..i] + f[i + 1..];
    if FrameMessage(h[a..c]).Some? {
      FrameEnds(h, a, c);
    }
  }

  lemma WithoutReturn(f: seq<byte>, i: nat)
    requires CR !in f && i < |f|
    ensures Strip(f[i := CR]) == f[..i] + f[i + 1..]
  {
    hide Strip;
    assert f[i := CR] == f[..i] + [CR] + f[i + 1..];
    StripConcat(f[..i] + [CR], f[i + 1..]);
    StripSnoc(f[..i], CR);
    StripClean(f[..i]);
    StripClean(f[i + 1..]);
  }

  // The header of the corrupted frame is intact, so the receiver collects the body whatever it holds.
  lemma HeaderIntact(m: Message, i: nat, b: byte)
    requires Encodable(m) && 4 <= i < |Frame(m)|
    ensures |Frame(m)| == |Body(m)| + 8
    ensures var g := Frame(m)[i := b];
            LengthFieldOk(g) && BodyLength(g) == |Body(m)| && g[0] == START && g[3] == SEPARATOR && CR !in g[..4]
  {
    FrameLayout(m);
    HexRoundTrip(|Body(m)|);
  }

  // What is visible of the corrupted frame begins with its header; it is shorter if there is a '\r'.
  lemma VisibleHeader(g: seq<byte>)
    requires LengthFieldOk(g) && |g| >= 4 && g[0] == START && g[3] == SEPARATOR && CR !in g[..4]
    ensures var v := Strip(g);
            && LengthFieldOk(v) && BodyLength(v) == BodyLength(g) && |v| >= 4 && v[0] == START && v[3] == SEPARATOR
            && |v| <= |g| && (CR in g ==> |v| < |g|)
  {
    hide Strip;
    assert g == g[..4] + g[4..];
    StripConcat(g[..4], g[4..]);
    StripClean(g[..4]);
    StripSize(g);
    assert Strip(g)[..4] == g[..4];
  }

  lemma FromFirstByte(g: seq<byte>)
    requires g != [] && g[0] == START
    ensures Delivered(g) == Messages(Events([START], g[1..]))
  {
    hide Viable, Emit, Next, Run, Events, Messages;
    StartStep();
    RunSnoc([], [], START);
    EventsSnoc([], [], START);
    NoBytes([]);
    assert [] + [START] == [START] && g == [START] + g[1..];
    RunConcat([], [START], g[1..]);
    EventsConcat([], [START], g[1..]);
    assert Events([], g) == Events([START], g[1..]);
  }

  // Between the header and the end of the body there is no verdict.
  lemma VerdictPosition(g: seq<byte>, t: nat)
    requires LengthFieldOk(g) && g[0] == START && |g| >= 4 && g[3] == SEPARATOR
    requires 0 < t < |g| && g[t] != CR && Emit(g[..t], g[t]) != InProgress
    ensures t >= BodyLength(g) + 4
  {
    hide Viable, Emit, Next;
    HeaderViable(g, t + 1);
    if t < BodyLength(g) + 4 && g[..t] + [g[t]] == g[..t + 1] {
      CollectStep(g[..t], g[t]);
      assert false;
    }
  }

  lemma HeaderViable(g: seq<byte>, k: nat)
    requires LengthFieldOk(g) && g[0] == START && |g| >= 4 && g[3] == SEPARATOR && 0 < k <= |g|
    ensures k <= BodyLength(g) + 4 ==> Viable(g[..k])
  {
  }

  lemma LateVerdictIsError(g: seq<byte>, t: nat)
    requires LengthFieldOk(g) && |g| <= BodyLength(g) + 8 && BodyLength(g) + 4 <= t < |g|
    requires FrameMessage(g).None? && Emit(g[..t], g[t]) != InProgress
    ensures Emit(g[..t], g[t]) == Error && |Next(g[..t], g[t])| <= 1
  {
    hide FrameMessage, Viable;
    assert g[0..|g|] == g;
    StepSize(g[..t], g[t]);
    if Emit(g[..t], g[t]).Ready? {
      ReadyHasFrame(g[..t], g[t]);
      assert g[..t] + [g[t]] == g[0..t + 1];
      FrameEnds(g, 0, t + 1);
    }
  }

  lemma TooShortToDeliver(p: seq<byte>, s: seq<byte>)
    requires |p| + |s| < MIN_FRAME
    ensures Messages(Events(p, s)) == []
  {
    AccountingFrom(p, s);
    CostAtLeast(Messages(Events(p, s)));
    StripSize(s);
  }

  lemma ErrorIsNoMessage(events: seq<Verdict>)
    ensures Messages([Error] + events) == Messages(events)
  {
    MessagesConcat([Error], events);
    assert Messages([Error]) == [];
  }

  // The run up to a first verdict at byte t, and what follows it.
  lemma SplitAtVerdict(p: seq<byte>, x: seq<byte>, t: nat)
    requires t < |x| && Events(p, x[..t]) == []
    ensures Events(p, x) == Visible(Emit(Run(p, x[..t]), x[t])) + Events(Next(Run(p, x[..t]), x[t]), x[t + 1..])
  {
    hide Emit, Next, Run, Events;
    assert x[..t + 1] == x[..t] + [x[t]] && x == x[..t + 1] + x[t + 1..];
    RunSnoc(p, x[..t], x[t]);
    EventsSnoc(p, x[..t], x[t]);
    EventsConcat(p, x[..t + 1], x[t + 1..]);
  }

  // Past the header the receiver keeps its place to the end of the body; what comes after is too short.
  lemma OnlyWholeFrame(g: seq<byte>)
    requires LengthFieldOk(g) && 4 <= |g| <= BodyLength(g) + 8 && g[0] == START && g[3] == SEPARATOR && CR !in g
    requires FrameMessage(g).None?
    ensures Delivered(g) == []
  {
    hide FrameMessage, Viable, Emit, Next, Run, Events, Messages, LengthFieldOk;
    StartStep();
    FromFirstByte(g);
    var x := g[1..];
    var t := FirstVerdict([START], x);
    assert [START] + x[..t] == g[..t + 1];
    if t == |x| {
      assert x[..t] == x;
      TooShortToDeliver([], []);
      NoBytes([]);
    } else {
      assert x[t] == g[t + 1];
      VerdictPosition(g, t + 1);
      LateVerdictIsError(g, t + 1);
      SplitAtVerdict([START], x, t);
      TooShortToDeliver(Next(g[..t + 1], g[t + 1]), x[t + 1..]);
      ErrorIsNoMessage(Events(Next(g[..t + 1], g[t + 1]), x[t + 1..]));
    }
  }

  lemma SameVisible(g: seq<byte>)
    ensures Delivered(g) == Delivered(Strip(g))
  {
    hide Strip, Events;
    CarriageReturnsInvisible([], g);
  }

  /** A corrupted frame whose header is intact, fed to a receiver in its reset state, whatever the payload:
      nothing is delivered, except the original message after a change of letter case in CC. */
  lemma BehindTheHeader(m: Message, i: nat, b: byte)
    requires Encodable(m) && 4 <= i < |Frame(m)| && b != Frame(m)[i]
    ensures |Frame(m)| >= MIN_FRAME
    ensures Delivered(Frame(m)[i := b]) == if CaseChanged(Frame(m), i, b) && CR !in m.payload then [m] else []
  {
    FrameSize(m);
    OneByteCorruption(m, i, b);
    HeaderIntact(m, i, b);
    hide Frame, FrameMessage, Run, Events, Viable, Strip, Delivered, CaseChanged;
    var g := Frame(m)[i := b];
    CaseChangeKeepsReturns(m, i, b);
    if CR in g {
      ReturnBehindTheHeader(g);
    } else if CaseChanged(Frame(m), i, b) {
      CaseChangeDelivers(g, m);
    } else {
      OnlyWholeFrame(g);
    }
  }

  lemma ReturnBehindTheHeader(g: seq<byte>)
    requires LengthFieldOk(g) && |g| == BodyLength(g) + 8 && g[0] == START && g[3] == SEPARATOR
    requires CR !in g[..4] && CR in g
    ensures Delivered(g) == []
  {
    hide FrameMessage, Strip, Delivered;
    SameVisible(g);
    VisibleHeader(g);
    CarriageReturnsInvisible([], g);
    ShortIsRejected(Strip(g));
    OnlyWholeFrame(Strip(g));
  }

  lemma ShortIsRejected(v: seq<byte>)
    requires LengthFieldOk(v) && |v| < BodyLength(v) + 8
    ensures FrameMessage(v).None?
  {
  }

  // A change of case in CC neither adds nor removes a '\r'.
  lemma CaseChangeKeepsReturns(m: Message, i: nat, b: byte)
    requires Encodable(m) && MIN_FRAME <= |Frame(m)| && i < |Frame(m)|
    ensures CaseChanged(Frame(m), i, b) ==> (CR in Frame(m)[i := b] <==> CR in m.payload)
  {
    hide Frame;
    var f := Frame(m);
    var g := f[i := b];
    if CaseChanged(f, i, b) && CR !in m.payload {
      FrameFreeOf(m, CR);
      assert forall j :: 0 <= j < |g| ==> g[j] != CR;
    } else if CaseChanged(f, i, b) {
      PayloadInFrame(m, CR);
      var j :| 0 <= j < |f| && f[j] == CR;
      assert g[j] == CR;
    }
  }

  lemma CaseChangeDelivers(g: seq<byte>, m: Message)
    requires FrameMessage(g) == Some(m) && CR !in g
    ensures Delivered(g) == [m]
  {
    FrameDelivered(g);
    ReadiesMessages([m]);
    assert Readies([m]) == [Ready(m)];
  }

  /** The corrupted frame fed to a receiver in its reset state, wherever the corruption: the same, for
      payloads without '@', '\n' and '\r'. */
  lemma OneByteCorruptionOfStream(m: Message, i: nat, b: byte)
    requires Encodable(m) && PlainPayload(m) && i < |Frame(m)| && b != Frame(m)[i]
    ensures |Frame(m)| >= MIN_FRAME
    ensures Delivered(Frame(m)[i := b]) == if CaseChanged(Frame(m), i, b) then [m] else []
  {
    FrameSize(m);
    FrameIsPlain(m);
    OneByteCorruption(m, i, b);
    hide Frame, FrameMessage, Delivered;
    if i >= 4 {
      BehindTheHeader(m, i, b);
    } else if b == CR {
      ReturnInserted(Frame(m), i);
    } else {
      HeaderCorrupted(Frame(m), i, b);
    }
  }
}
