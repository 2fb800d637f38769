/** Why recovery and the detection of corruption are stated for restricted payloads: without each of
    the restrictions they fail. */
module Hypotheses {
  import opened Bytes
  import opened Codec
  import opened Stream
  import opened StreamTheorems
  import opened Resync
  import opened Corruption

  // ---------- '@' in payloads: a receiver that never recovers ----------

  const FILL: seq<byte> := [120, 120, 120, 120]  // "xxxx"

  // A message whose payload "xxxx@34:" looks like the beginning of a long frame.
  function Trap(kind: Kind): Message {
    Message(kind, FILL + STUCK)
  }

  lemma TrapFrame(kind: Kind)
    requires kind != Invalid
    ensures Encodable(Trap(kind))
    ensures var f := Frame(Trap(kind));
            && |f| == 20 && CR !in f
            && f[8] == 120 && f[9..12] == [120, 120, 120] && f[12] == START && f[12..16] == STUCK
  {
    hide Frame;
    var m := Trap(kind);
    var p := m.payload;
    assert |p| == 8 && p[..4] == FILL && p[4..] == STUCK;
    PayloadInPlace(m);
    FrameFreeOf(m, CR);
    var f := Frame(m);
    assert f[8] == p[0] && f[12] == p[4];
    SliceOfSlice(f, 8, 16, 1, 4);
    SliceOfSlice(f, 8, 16, 4, 8);
  }

  // "34:" behind a '@', and "@34:" in a receiver that waits.
  lemma BackToStuck()
    ensures Run([START], STUCK[1..]) == STUCK && Events([START], STUCK[1..]) == []
    ensures Run([], STUCK) == STUCK && Events([], STUCK) == []
  {
    StuckCollects([]);
    assert STUCK + [] == STUCK && [START] + STUCK[1..] == STUCK && [] + STUCK == STUCK;
    StartStep();
    hide Viable;
    Collect([START], STUCK[1..]);
    Collect([], STUCK);
  }

  // The receiver is stuck again, and delivered nothing on the way.
  predicate StuckAgain(s: seq<byte>) {
    Run(STUCK, s) == STUCK && Messages(Events(STUCK, s)) == []
  }

  // The '@' inside the third frame is an error, and begins the next false frame.
  lemma FirstRound(f: seq<byte>)
    requires |f| == 20 && CR !in f && f[12] == START && f[12..16] == STUCK
    ensures StuckAgain(f + f + f[..16])
  {
    hide Run, Events, Messages;
    var x := f + f + f[..12];
    StuckError(x, START);
    BackToStuck();
    assert f + f + f[..16] == (x + [START]) + STUCK[1..];
    RunConcat(STUCK, x + [START], STUCK[1..]);
    EventsConcat(STUCK, x + [START], STUCK[1..]);
    NoMessage();
  }

  lemma NoMessage()
    ensures Messages([Error]) == [] && [Error] + [] == [Error]
  {
    assert [Error][..0] == [];
  }

  // From there on every three frames bring it back.
  lemma NextRound(f: seq<byte>)
    requires |f| == 20 && CR !in f && f[8] == 120 && f[9..12] == [120, 120, 120] && f[12..16] == STUCK
    ensures StuckAgain(f[16..] + f + f + f[..16])
  {
    hide Run, Events, Messages;
    var x, quiet := f[16..] + f + f + f[..8], f[9..12];
    StuckError(x, f[8]);
    Quiet(quiet);
    BackToStuck();
    var y := x + [f[8]];
    assert f[..16] == f[..8] + [f[8]] + quiet + STUCK;
    assert f[16..] + f + f + f[..16] == y + quiet + STUCK;
    RunConcat(STUCK, y, quiet);
    EventsConcat(STUCK, y, quiet);
    RunConcat(STUCK, y + quiet, STUCK);
    EventsConcat(STUCK, y + quiet, STUCK);
    NoMessage();
  }

  lemma StuckOnward(a: seq<byte>, b: seq<byte>)
    requires StuckAgain(a) && StuckAgain(b)
    ensures StuckAgain(a + b)
  {
    hide Run, Events, Messages;
    RunConcat(STUCK, a, b);
    EventsConcat(STUCK, a, b);
    MessagesConcat(Events(STUCK, a), Events(STUCK, b));
  }

  lemma CopiesConcat(m: Message, j: nat, k: nat)
    requires Encodable(m)
    ensures AllEncodable(Copies(m, j)) && AllEncodable(Copies(m, k)) && AllEncodable(Copies(m, j + k))
    ensures Frames(Copies(m, j + k)) == Frames(Copies(m, j)) + Frames(Copies(m, k))
  {
    hide Frame, Frames, Encodable;
    FramesConcat(Copies(m, j), Copies(m, k));
    assert Copies(m, j) + Copies(m, k) == Copies(m, j + k);
  }

  lemma FewCopies(m: Message)
    requires Encodable(m)
    ensures Frames(Copies(m, 2)) == Frame(m) + Frame(m) && Frames(Copies(m, 3)) == Frame(m) + Frame(m) + Frame(m)
  {
    hide Frame;
    assert Copies(m, 2) == [m] + [m] && Copies(m, 3) == [m, m] + [m];
    FramesOfOne(m);
    FramesSnoc([m], m);
    FramesSnoc([m, m], m);
  }

  lemma {:induction false} Rounds(kind: Kind, k: nat)
    requires kind != Invalid
    ensures Encodable(Trap(kind)) && |Frame(Trap(kind))| == 20 && AllEncodable(Copies(Trap(kind), 3 * k + 2))
    ensures StuckAgain(Frames(Copies(Trap(kind), 3 * k + 2)) + Frame(Trap(kind))[..16])
  {
    hide Frame, Frames, StuckAgain;
    var m := Trap(kind);
    TrapFrame(kind);
    var f := Frame(m);
    FewCopies(m);
    if k == 0 {
      FirstRound(f);
    } else {
      Rounds(kind, k - 1);
      assert 3 * (k - 1) + 2 == 3 * k - 1;
      var before := Frames(Copies(m, 3 * k - 1));
      NextRound(f);
      CopiesConcat(m, 3 * k - 1, 3);
      StuckOnward(before + f[..16], f[16..] + f + f + f[..16]);
      assert f == f[..16] + f[16..];
      assert before + (f + f + f) + f[..16] == before + f[..16] + (f[16..] + f + f + f[..16]);
    }
  }

  /** A receiver left at "@34:" by noise never recovers from any number of frames with the payload
      "xxxx@34:": nothing is ever delivered. */
  lemma NeverRecovers(kind: Kind, n: nat)
    requires kind != Invalid
    ensures Partial(STUCK) && AllEncodable(Copies(Trap(kind), n))
    ensures Messages(Events(STUCK, Frames(Copies(Trap(kind), n)))) == []
  {
    hide Frame, Frames, Run, Events, Messages;
    var m := Trap(kind);
    StuckCollects([]);
    assert STUCK + [] == STUCK;
    TrapFrame(kind);
    Rounds(kind, n);
    CopiesConcat(m, n, 2 * n + 2);
    assert n + (2 * n + 2) == 3 * n + 2;
    var s, rest := Frames(Copies(m, n)), Frames(Copies(m, 2 * n + 2)) + Frame(m)[..16];
    assert Frames(Copies(m, 3 * n + 2)) + Frame(m)[..16] == s + rest;
    EventsConcat(STUCK, s, rest);
    MessagesConcat(Events(STUCK, s), Events(Run(STUCK, s), rest));
  }

  // So the bound on the messages missed does not hold for such payloads.
  lemma NotRecovered(kind: Kind, n: nat, stray: seq<Verdict>, t: nat, lost: nat)
    requires kind != Invalid && n > 5
    ensures AllEncodable(Copies(Trap(kind), n))
    ensures !Recovers(STUCK, Copies(Trap(kind), n), Frames(Copies(Trap(kind), n)), stray, t, lost)
  {
    hide Frame, Frames, Run, Events, Messages;
    var ms := Copies(Trap(kind), n);
    NeverRecovers(kind, n);
    if Recovers(STUCK, ms, Frames(ms), stray, t, lost) {
      ReadiesMessages(ms[lost..]);
      MessagesConcat(stray, Readies(ms[lost..]));
    }
  }

  // ---------- One corrupted byte delivers another message ----------

  // The two ends of a frame: before and after the payload.
  function Head(kind: Kind, n: byte): seq<byte> {
    [START] + Hex2(n) + [SEPARATOR] + TypeText(kind) + [SEPARATOR]
  }

  function Trailer(m: Message): seq<byte>
    requires Encodable(m)
  {
    [SEPARATOR] + Hex2(Checksum(ChecksumInput(m))) + [END]
  }

  lemma FrameSplits(m: Message)
    requires Encodable(m)
    ensures Frame(m) == Head(m.kind, |m.payload| + 4) + m.payload + Trailer(m)
    ensures Frame(m) == [START] + ChecksumInput(m) + Trailer(m)
    ensures ChecksumInput(m) == Head(m.kind, |m.payload| + 4)[1..] + m.payload
  {
    var head, input := Head(m.kind, |m.payload| + 4), ChecksumInput(m);
    assert input == head[1..] + m.payload by {
      hide Hex2, Checksum;
    }
    assert head == [START] + head[1..];
    hide Checksum, Hex2, ChecksumInput, Head, TypeText;
    ConcatAssociative([START] + input, [SEPARATOR], Hex2(Checksum(input)));
    ConcatAssociative([START] + input, [SEPARATOR] + Hex2(Checksum(input)), [END]);
    assert Frame(m) == [START] + input + Trailer(m);
    ConcatAssociative([START], head[1..], m.payload);
  }

  lemma TrailerBytes(m: Message)
    requires Encodable(m)
    ensures |Trailer(m)| == 4 && START !in Trailer(m) && CR !in Trailer(m)
  {
    HexRoundTrip(Checksum(ChecksumInput(m)));
    hide Checksum, HexDigit;
  }

  // "@08:CMD:" with another length, and "@0D:CMD:" with another first byte.
  lemma Heads()
    ensures |Head(Cmd, 4)| == |Head(Cmd, 5)| == |Head(Cmd, 8)| == |Head(Cmd, 13)| == 8
    ensures Head(Cmd, 8)[2] == 56 && Head(Cmd, 13)[0] == START
    ensures Head(Cmd, 8)[2 := 52] == Head(Cmd, 4) && Head(Cmd, 8)[2 := 53] == Head(Cmd, 5)
    ensures CR !in Head(Cmd, 5)
    ensures CR !in Head(Cmd, 13)[0 := 65] && START !in Head(Cmd, 13)[0 := 65]
  {
  }

  // A frame with something the receiver ignores on either side.
  lemma FrameAmidSilence(before: seq<byte>, m: Message, after: seq<byte>)
    requires Encodable(m) && CR !in m.payload
    requires START !in before && CR !in before && START !in after && CR !in after
    ensures Delivered(before + Frame(m) + after) == [m]
  {
    hide Frame, FrameMessage, Run, Events;
    FrameFreeOf(m, CR);
    RoundTrip(m);
    Quiet(before);
    Quiet(after);
    FrameDelivered(Frame(m));
    RunConcat([], before, Frame(m));
    EventsConcat([], before, Frame(m));
    RunConcat([], before + Frame(m), after);
    EventsConcat([], before + Frame(m), after);
    ReadiesMessages([m]);
    assert Readies([m]) == [Ready(m)];
  }

  // Byte i of the frame of m changed to b makes the receiver deliver another message.
  predicate Forged(m: Message, i: nat, b: byte, other: Message) {
    && Encodable(m) && i < |Frame(m)| && b != Frame(m)[i] && other != m
    && Delivered(Frame(m)[i := b]) == [other]
  }

  const EMPTY := Message(Cmd, [])

  lemma ReplaceInHead(head: seq<byte>, middle: seq<byte>, last: seq<byte>, i: nat, b: byte)
    requires i < |head|
    ensures (head + middle + last)[i := b] == [] + (head[i := b] + middle) + last
  {
  }

  lemma CutAtLineFeed(m: Message)
    requires m == Message(Cmd, Trailer(EMPTY)) && Encodable(m)
    ensures |Frame(m)| == 16 && Frame(m)[2] == 56
    ensures Frame(m)[2 := 52] == [] + Frame(EMPTY) + Trailer(m)
  {
    hide Frame, Head, Trailer, ChecksumInput;
    TrailerBytes(EMPTY);
    TrailerBytes(m);
    FrameSplits(EMPTY);
    FrameSplits(m);
    Heads();
    ReplaceInHead(Head(Cmd, 8), m.payload, Trailer(m), 2, 52);
    assert Frame(EMPTY) == Head(Cmd, 4) + m.payload;
  }

  // With '\n' in the payload, a smaller length makes the frame end inside its payload.
  lemma LineFeedForges() returns (m: Message)
    ensures START !in m.payload && CR !in m.payload && Forged(m, 2, 52, EMPTY)
  {
    hide Frame, Head, Trailer, Delivered, ChecksumInput, Forged;
    m := Message(Cmd, Trailer(EMPTY));
    TrailerBytes(EMPTY);
    TrailerBytes(m);
    CutAtLineFeed(m);
    FrameAmidSilence([], EMPTY, Trailer(m));
    IsForged(m, 2, 52, EMPTY);
  }

  lemma IsForged(m: Message, i: nat, b: byte, other: Message)
    requires Encodable(m) && i < |Frame(m)| && b != Frame(m)[i] && other != m
    requires Delivered(Frame(m)[i := b]) == [other]
    ensures Forged(m, i, b, other)
  {
  }

  // x is the checksum of s, and y the one with b behind it.
  lemma Fold(s: seq<byte>, x: byte, b: byte, y: byte)
    requires Checksum(s) == x && Xor(x, b) == y
    ensures Checksum(s + [b]) == y
  {
    ChecksumSnoc(s, b);
  }

  lemma HeadXors()
    ensures Xor(0, 48) == 0x30 && Xor(0x30, 68) == 0x74 && Xor(0x30, 56) == 0x08 && Xor(0x30, 53) == 0x05
    ensures Xor(0x74, 58) == 0x4E && Xor(0x4E, 67) == 0x0D && Xor(0x0D, 77) == 0x40 && Xor(0x40, 68) == 0x04
    ensures Xor(0x08, 58) == 0x32 && Xor(0x32, 67) == 0x71 && Xor(0x71, 77) == 0x3C && Xor(0x3C, 68) == 0x78
    ensures Xor(0x05, 58) == 0x3F && Xor(0x3F, 67) == 0x7C && Xor(0x7C, 77) == 0x31 && Xor(0x31, 68) == 0x75
    ensures Xor(0x04, 58) == 0x3E && Xor(0x78, 58) == 0x42 && Xor(0x75, 58) == 0x4F
  {
  }

  lemma TailXors()
    ensures Xor(0x3E, 126) == 0x40 && Xor(0x40, 64) == 0
    ensures Xor(0x42, 13) == 0x4F && Xor(0x4F, 13) == 0x42 && Xor(0x4F, 120) == 0x37
  {
  }

  lemma HeadChecksum(d: byte, x1: byte, x2: byte, x3: byte, x4: byte, x5: byte, x6: byte)
    requires Xor(0, 48) == 0x30 && Xor(0x30, d) == x1 && Xor(x1, 58) == x2 && Xor(x2, 67) == x3
    requires Xor(x3, 77) == x4 && Xor(x4, 68) == x5 && Xor(x5, 58) == x6
    ensures Checksum([48, d, 58, 67, 77, 68, 58]) == x6
  {
    hide Xor, Checksum;
    EmptyChecksum();
    Fold([], 0, 48, 0x30);
    var none: seq<byte> := [];
    assert none + [48] == [48];
    Fold([48], 0x30, d, x1);
    Fold([48] + [d], x1, 58, x2);
    Fold([48] + [d] + [58], x2, 67, x3);
    Fold([48] + [d] + [58] + [67], x3, 77, x4);
    Fold([48] + [d] + [58] + [67] + [77], x4, 68, x5);
    Fold([48] + [d] + [58] + [67] + [77] + [68], x5, 58, x6);
    assert [48] + [d] + [58] + [67] + [77] + [68] + [58] == [48, d, 58, 67, 77, 68, 58];
  }

  lemma EmptyChecksum()
    ensures Checksum([]) == 0
  {
  }

  // "0D:CMD:", "08:CMD:" and "05:CMD:"
  lemma HeadChecksums()
    ensures Checksum(Head(Cmd, 13)[1..]) == 0x3E
    ensures Checksum(Head(Cmd, 8)[1..]) == 0x42
    ensures Checksum(Head(Cmd, 5)[1..]) == 0x4F
  {
    HeadXors();
    assert Head(Cmd, 13)[1..] == [48, 68, 58, 67, 77, 68, 58];
    assert Head(Cmd, 8)[1..] == [48, 56, 58, 67, 77, 68, 58];
    assert Head(Cmd, 5)[1..] == [48, 53, 58, 67, 77, 68, 58];
    hide Xor, Checksum, Head;
    HeadChecksum(68, 0x74, 0x4E, 0x0D, 0x40, 0x04, 0x3E);
    HeadChecksum(56, 0x08, 0x32, 0x71, 0x3C, 0x78, 0x42);
    HeadChecksum(53, 0x05, 0x3F, 0x7C, 0x31, 0x75, 0x4F);
  }

  // "0D:CMD:~@"
  lemma NestedChecksum()
    ensures Checksum(Head(Cmd, 13)[1..] + [126, START]) == 0
  {
    hide Xor, Checksum, Head;
    Heads();
    HeadChecksums();
    TailXors();
    var s := Head(Cmd, 13)[1..];
    Fold(s, 0x3E, 126, 0x40);
    Fold(s + [126], 0x40, START, 0);
    assert s + [126] + [START] == s + [126, START];
  }

  // "08:CMD:" with three '\r' and "x", and "05:CMD:x"
  lemma ReturnsChecksum()
    ensures Checksum(Head(Cmd, 8)[1..] + [CR, CR, CR, 120]) == Checksum(Head(Cmd, 5)[1..] + [120])
  {
    hide Xor, Checksum, Head;
    Heads();
    HeadChecksums();
    TailXors();
    var s := Head(Cmd, 8)[1..];
    Fold(s, 0x42, CR, 0x4F);
    Fold(s + [CR], 0x4F, CR, 0x42);
    Fold(s + [CR] + [CR], 0x42, CR, 0x4F);
    Fold(s + [CR] + [CR] + [CR], 0x4F, 120, 0x37);
    Fold(Head(Cmd, 5)[1..], 0x4F, 120, 0x37);
    assert s + [CR] + [CR] + [CR] + [120] == s + [CR, CR, CR, 120];
  }

  // "~@04:CMD:", a payload with the beginning of a frame that the outer trailer completes.
  function Nested(): Message {
    Message(Cmd, [126] + ([START] + ChecksumInput(EMPTY)))
  }

  lemma NestedEncodable()
    ensures Encodable(Nested()) && |Nested().payload| == 9
    ensures END !in Nested().payload && CR !in Nested().payload
  {
    assert ChecksumInput(EMPTY) == [48, 52, SEPARATOR, 67, 77, 68, SEPARATOR];
  }

  lemma NestedTrailer()
    ensures Encodable(Nested()) && Trailer(Nested()) == Trailer(EMPTY)
  {
    NestedEncodable();
    NestedChecksum();
    FrameSplits(Nested());
    hide Checksum, ChecksumInput, Head, Hex2;
    var head, input := Head(Cmd, 13)[1..], ChecksumInput(EMPTY);
    assert head + [126, START] + input == head + ([126] + ([START] + input));
    ChecksumConcat(head + [126, START], input);
    XorZero(Checksum(input));
  }

  lemma NestedInPlace()
    ensures Encodable(Nested()) && |Frame(Nested())| > 0 && Frame(Nested())[0] == START
    ensures Frame(Nested())[0 := 65] == Head(Cmd, 13)[0 := 65] + [126] + Frame(EMPTY) + []
  {
    hide Frame, Head, Trailer, ChecksumInput;
    NestedEncodable();
    NestedTrailer();
    FrameSplits(EMPTY);
    FrameSplits(Nested());
    Heads();
    NestedBytes(Head(Cmd, 13), [START] + ChecksumInput(EMPTY), Trailer(EMPTY));
  }

  lemma NestedBytes(head: seq<byte>, nested: seq<byte>, trailer: seq<byte>)
    requires |head| > 0
    ensures (head + ([126] + nested) + trailer)[0 := 65] == head[0 := 65] + [126] + (nested + trailer) + []
  {
  }

  // With '@' in the payload, the frame inside it is found when the outer '@' is lost.
  lemma StartForges()
    ensures END !in Nested().payload && CR !in Nested().payload && Forged(Nested(), 0, 65, EMPTY)
  {
    NestedEncodable();
    NestedInPlace();
    Heads();
    hide Frame, Delivered, ChecksumInput, Forged, Head;
    FrameAmidSilence(Head(Cmd, 13)[0 := 65] + [126], EMPTY, []);
    IsForged(Nested(), 0, 65, EMPTY);
  }

  const RETURNS := Message(Cmd, [CR, CR, CR, 120])
  const LETTER := Message(Cmd, [120])

  lemma SameTrailer()
    ensures Trailer(RETURNS) == Trailer(LETTER)
  {
    ReturnsChecksum();
    FrameSplits(RETURNS);
    FrameSplits(LETTER);
    hide Checksum, ChecksumInput, Head, Hex2;
  }

  lemma ReturnsInPlace()
    ensures |Frame(RETURNS)| == 16 && Frame(RETURNS)[2] == 56
    ensures Frame(RETURNS)[2 := 53] == Head(Cmd, 5) + [CR, CR, CR] + ([120] + Trailer(LETTER))
    ensures Frame(LETTER) == Head(Cmd, 5) + ([120] + Trailer(LETTER))
  {
    hide Frame, Trailer, ChecksumInput, Head;
    SameTrailer();
    TrailerBytes(LETTER);
    FrameSplits(RETURNS);
    FrameSplits(LETTER);
    Heads();
    ReplaceInHead(Head(Cmd, 8), RETURNS.payload, Trailer(LETTER), 2, 53);
  }

  // With '\r' in the payload, the receiver sees fewer bytes, and a smaller length fits them.
  lemma ReturnForges()
    ensures START !in RETURNS.payload && END !in RETURNS.payload && Forged(RETURNS, 2, 53, LETTER)
  {
    hide Frame, Delivered, Trailer, Head, Forged, Strip;
    ReturnsInPlace();
    var g := Frame(RETURNS)[2 := 53];
    ReturnsStripped(g);
    SameEvents(g, Frame(LETTER));
    FrameAmidSilence([], LETTER, []);
    assert [] + Frame(LETTER) + [] == Frame(LETTER);
    IsForged(RETURNS, 2, 53, LETTER);
  }

  lemma ReturnsStripped(g: seq<byte>)
    requires g == Head(Cmd, 5) + [CR, CR, CR] + ([120] + Trailer(LETTER))
    ensures Strip(g) == Head(Cmd, 5) + ([120] + Trailer(LETTER))
  {
    hide Head, Trailer, Strip;
    Heads();
    TrailerBytes(LETTER);
    var front, last := Head(Cmd, 5), [120] + Trailer(LETTER);
    StripConcat(front + [CR, CR, CR], last);
    StripConcat(front, [CR, CR, CR]);
    StripClean(front);
    StripClean(last);
    StripReturns();
  }

  lemma SameEvents(a: seq<byte>, b: seq<byte>)
    requires Strip(a) == b
    ensures Delivered(a) == Delivered(b)
  {
    hide Strip, Events;
    CarriageReturnsInvisible([], a);
  }

  lemma StripReturns()
    ensures Strip([CR, CR, CR]) == []
  {
    StripSnoc([CR, CR], CR);
    StripSnoc([CR], CR);
    StripSnoc([], CR);
    assert [CR, CR] + [CR] == [CR, CR, CR] && [CR] + [CR] == [CR, CR] && [] + [CR] == [CR];
  }

  // ---------- Exactly which payloads detection needs ----------

  predicate Avoids(m: Message, avoided: set<byte>) {
    forall b :: b in avoided ==> b !in m.payload
  }

  // What the receiver makes of the frame of m with byte i changed to b is nothing, or m after a case change in CC.
  predicate Detected(m: Message, i: nat, b: byte)
    requires Encodable(m) && i < |Frame(m)|
  {
    MIN_FRAME <= |Frame(m)| && Delivered(Frame(m)[i := b]) == if CaseChanged(Frame(m), i, b) then [m] else []
  }

  // Every one-byte corruption is detected if payloads avoid these bytes.
  ghost predicate DetectsAll(avoided: set<byte>) {
    forall m, i: nat, b ::
      Encodable(m) && Avoids(m, avoided) && i < |Frame(m)| && b != Frame(m)[i] ==> Detected(m, i, b)
  }

  lemma ForgedIsUndetected(m: Message, i: nat, b: byte, other: Message, avoided: set<byte>)
    requires Forged(m, i, b, other) && Avoids(m, avoided)
    ensures !DetectsAll(avoided)
  {
    hide Frame, Delivered;
    assert !Detected(m, i, b);
  }

  /** Of '@', '\n' and '\r', payloads must avoid all three for every corruption of one byte to be detected. */
  lemma ExactlyTheseThree(avoided: set<byte>)
    requires avoided <= {START, END, CR}
    ensures DetectsAll(avoided) <==> avoided == {START, END, CR}
  {
    hide Frame, Delivered, Forged, CaseChanged;
    if START !in avoided {
      StartForges();
      ForgedIsUndetected(Nested(), 0, 65, EMPTY, avoided);
    } else if END !in avoided {
      var m := LineFeedForges();
      ForgedIsUndetected(m, 2, 52, EMPTY, avoided);
    } else if CR !in avoided {
      ReturnForges();
      ForgedIsUndetected(RETURNS, 2, 53, LETTER, avoided);
    } else {
      forall m, i: nat, b | Encodable(m) && Avoids(m, avoided) && i < |Frame(m)| && b != Frame(m)[i]
        ensures Detected(m, i, b)
      {
        OneByteCorruptionOfStream(m, i, b);
      }
    }
  }
}
