/** The text of a status report: printing, truncation to 48 characters, and reading it back. */
module Status {
  import opened Bytes
  import opened Codec
  import opened Protocol

  // The seven counters, in the order they are printed.
  datatype Counters = Counters(rx: nat, ae: nat, irq: nat, pb: nat, pm: nat, pe: nat, qd: nat) {
    function Values(): seq<nat> {
      [rx, ae, irq, pb, pm, pe, qd]
    }
  }

  const WORD: nat := 0x1_0000_0000

  // The uint32_t counters that count c.
  function Low32(c: Counters): Counters {
    Counters(c.rx % WORD, c.ae % WORD, c.irq % WORD, c.pb % WORD, c.pm % WORD, c.pe % WORD, c.qd % WORD)
  }

  // ---------- Decimal numbers ----------

  function Decimal(n: nat): seq<byte> {
    if n < 10 then [48 + n] else Decimal(n / 10) + [48 + n % 10]
  }

  function Value(digits: seq<byte>): int {
    if digits == [] then 0 else 10 * Value(digits[..|digits| - 1]) + digits[|digits| - 1] - 48
  }

  predicate IsDigit(c: byte) {
    48 <= c <= 57
  }

  lemma {:induction false} DecimalRoundTrip(n: nat)
    ensures Value(Decimal(n)) == n
    ensures Decimal(n) != []
    ensures forall i :: 0 <= i < |Decimal(n)| ==> IsDigit(Decimal(n)[i])
  {
    if n < 10 {
      assert Decimal(n)[..0] == [];
    } else {
      DecimalRoundTrip(n / 10);
      assert Decimal(n)[..|Decimal(n)| - 1] == Decimal(n / 10);
    }
  }

  lemma {:induction false} DigitCount(n: nat)
    ensures |Decimal(n)| >= 1
    ensures |Decimal(n)| == 1 <==> n < 10
    ensures |Decimal(n)| <= 2 <==> n < 100
    ensures |Decimal(n)| <= 3 <==> n < 1000
    ensures |Decimal(n)| <= 4 <==> n < 10000
  {
    if n >= 10 {
      DigitCount(n / 10);
    }
  }

  // ---------- Printing and parsing a list of labelled numbers ----------

  function Print(labels: seq<seq<byte>>, values: seq<nat>): seq<byte>
    requires |labels| == |values|
  {
    if labels == [] then [] else labels[0] + Decimal(values[0]) + Print(labels[1..], values[1..])
  }

  // How many digits the text starts with.
  function DigitRun(text: seq<byte>): (n: nat)
    ensures n <= |text|
  {
    if text != [] && IsDigit(text[0]) then 1 + DigitRun(text[1..]) else 0
  }

  function Parse(labels: seq<seq<byte>>, text: seq<byte>): Option<seq<int>> {
    if labels == [] then
      if text == [] then Some([]) else None
    else if !(labels[0] <= text) then None
    else
      var rest := text[|labels[0]|..];
      var k := DigitRun(rest);
      if k == 0 then None
      else match Parse(labels[1..], rest[k..])
        case None => None
        case Some(values) => Some([Value(rest[..k])] + values)
  }

  lemma {:induction false} DigitRunStops(digits: seq<byte>, rest: seq<byte>)
    requires forall i :: 0 <= i < |digits| ==> IsDigit(digits[i])
    requires rest == [] || !IsDigit(rest[0])
    ensures DigitRun(digits + rest) == |digits|
  {
    if digits == [] {
      assert digits + rest == rest;
    } else {
      assert (digits + rest)[1..] == digits[1..] + rest;
      DigitRunStops(digits[1..], rest);
    }
  }

  // Labels that a number cannot run into.
  predicate Separating(labels: seq<seq<byte>>) {
    forall i :: 0 <= i < |labels| ==> labels[i] != [] && !IsDigit(labels[i][0])
  }

  lemma PrintStartsWithLabel(labels: seq<seq<byte>>, values: seq<nat>)
    requires |labels| == |values| && Separating(labels)
    ensures labels == [] ==> Print(labels, values) == []
    ensures labels != [] ==> Print(labels, values) != [] && Print(labels, values)[0] == labels[0][0]
  {
    if labels != [] {
      var rest := Decimal(values[0]) + Print(labels[1..], values[1..]);
      assert labels[0] != [];
      assert Print(labels, values) == labels[0] + rest;
      assert (labels[0] + rest)[0] == labels[0][0];
    }
  }

  lemma SeparatingTail(labels: seq<seq<byte>>)
    requires Separating(labels) && labels != []
    ensures Separating(labels[1..])
    ensures labels[1..] != [] ==> labels[1..][0] != [] && !IsDigit(labels[1..][0][0])
  {
  }

  lemma ParseOne(labels: seq<seq<byte>>, digits: seq<byte>, tail: seq<byte>, values: seq<int>)
    requires labels != [] && digits != [] && DigitRun(digits + tail) == |digits|
    requires Parse(labels[1..], tail) == Some(values)
    ensures Parse(labels, labels[0] + (digits + tail)) == Some([Value(digits)] + values)
  {
    hide Value, DigitRun;
    var text, rest := labels[0] + (digits + tail), digits + tail;
    assert text[|labels[0]|..] == rest;
    assert rest[..|digits|] == digits && rest[|digits|..] == tail;
  }

  lemma {:induction false} ParsePrint(labels: seq<seq<byte>>, values: seq<nat>)
    requires |labels| == |values| && Separating(labels)
    ensures Parse(labels, Print(labels, values)) == Some(values)
  {
    if labels != [] {
      SeparatingTail(labels);
      hide Decimal, Value, DigitRun, Parse, Separating;
      var digits, tail := Decimal(values[0]), Print(labels[1..], values[1..]);
      DecimalRoundTrip(values[0]);
      PrintStartsWithLabel(labels[1..], values[1..]);
      DigitRunStops(digits, tail);
      ParsePrint(labels[1..], values[1..]);
      ParseOne(labels, digits, tail, values[1..]);
      ConcatAssociative(labels[0], digits, tail);
      assert [values[0]] + values[1..] == values;
    }
  }

  // ---------- The report ----------

  const LABELS: seq<seq<byte>> :=
    [Ascii("rx="), Ascii(",ae="), Ascii(",irq="), Ascii(",pb="), Ascii(",pm="), Ascii(",pe="), Ascii(",qd=")]

  function StatusText(c: Counters): seq<byte> {
    Print(LABELS, c.Values())
  }

  // What snprintf leaves of the text in a buffer of 49 bytes.
  function StatusPayload(c: Counters): seq<byte> {
    var text := StatusText(c);
    if |text| <= MAX_PAYLOAD then text else text[..MAX_PAYLOAD]
  }

  function TotalDigits(c: Counters): nat {
    |Decimal(c.rx)| + |Decimal(c.ae)| + |Decimal(c.irq)| + |Decimal(c.pb)|
    + |Decimal(c.pm)| + |Decimal(c.pe)| + |Decimal(c.qd)|
  }

  function Size(labels: seq<seq<byte>>, values: seq<nat>): nat
    requires |labels| == |values|
  {
    if labels == [] then 0 else |labels[0]| + |Decimal(values[0])| + Size(labels[1..], values[1..])
  }

  lemma {:induction false} PrintSize(labels: seq<seq<byte>>, values: seq<nat>)
    requires |labels| == |values|
    ensures |Print(labels, values)| == Size(labels, values)
  {
    if labels != [] {
      PrintSize(labels[1..], values[1..]);
    }
  }

  lemma SizeStep(labels: seq<seq<byte>>, values: seq<nat>, k: nat)
    requires |labels| == |values| && k < |labels|
    ensures Size(labels[k..], values[k..])
         == |labels[k]| + |Decimal(values[k])| + Size(labels[k + 1..], values[k + 1..])
  {
    assert labels[k..][1..] == labels[k + 1..] && values[k..][1..] == values[k + 1..];
  }

  // The fixed characters are 28, so 20 digits fit.
  lemma StatusSize(c: Counters)
    ensures |StatusText(c)| == 28 + TotalDigits(c)
  {
    hide Decimal, Size, Print;
    var v := c.Values();
    PrintSize(LABELS, v);
    assert LABELS[0..] == LABELS && v[0..] == v;
    SizeStep(LABELS, v, 0);
    SizeStep(LABELS, v, 1);
    SizeStep(LABELS, v, 2);
    SizeStep(LABELS, v, 3);
    SizeStep(LABELS, v, 4);
    SizeStep(LABELS, v, 5);
    SizeStep(LABELS, v, 6);
    EmptySize(LABELS, v);
  }

  lemma EmptySize(labels: seq<seq<byte>>, values: seq<nat>)
    requires |labels| == |values|
    ensures Size(labels[|labels|..], values[|labels|..]) == 0
  {
  }

  // The labelled numbers of the payload are these counters.
  predicate ReadsBack(payload: seq<byte>, c: Counters) {
    Parse([Ascii("rx="), Ascii(",ae="), Ascii(",irq="), Ascii(",pb="), Ascii(",pm="), Ascii(",pe="), Ascii(",qd=")],
          payload)
    == Some([c.rx, c.ae, c.irq, c.pb, c.pm, c.pe, c.qd])
  }

  /** With at most twenty digits in all, the payload is the whole text and reads back as the counters;
      otherwise it is exactly the first 48 characters. */
  lemma StatusReadsBack(c: Counters)
    ensures TotalDigits(c) <= 20 <==> StatusPayload(c) == StatusText(c)
    ensures TotalDigits(c) <= 20 ==> ReadsBack(StatusPayload(c), c)
    ensures TotalDigits(c) <= 20 ==> Parse(LABELS, StatusPayload(c)) == Some(c.Values())
    ensures TotalDigits(c) > 20 ==> |StatusPayload(c)| == MAX_PAYLOAD && StatusPayload(c) < StatusText(c)
  {
    hide Decimal, Print, Parse;
    StatusSize(c);
    LabelsSeparate();
    ParsePrint(LABELS, c.Values());
  }

  lemma LabelsSeparate()
    ensures Separating(LABELS)
  {
  }

  // The first k labels and numbers, and one more of each.
  lemma PrintUpTo(labels: seq<seq<byte>>, values: seq<nat>, k: nat)
    requires |labels| == |values| && k < |labels|
    ensures Print(labels[..k + 1], values[..k + 1]) == Print(labels[..k], values[..k]) + labels[k] + Decimal(values[k])
  {
    hide Print, Decimal;
    PrintLast(labels[..k + 1], values[..k + 1]);
    assert labels[..k + 1][..k] == labels[..k] && values[..k + 1][..k] == values[..k];
  }

  lemma PrintNothing(labels: seq<seq<byte>>, values: seq<nat>)
    requires |labels| == |values|
    ensures Print(labels[..0], values[..0]) == []
  {
  }

  /** The report, written out. */
  lemma StatusTextSpelled(c: Counters)
    ensures StatusText(c) ==
              Ascii("rx=") + Decimal(c.rx) + Ascii(",ae=") + Decimal(c.ae) + Ascii(",irq=") + Decimal(c.irq)
              + Ascii(",pb=") + Decimal(c.pb) + Ascii(",pm=") + Decimal(c.pm)
              + Ascii(",pe=") + Decimal(c.pe) + Ascii(",qd=") + Decimal(c.qd)
  {
    hide Print, Decimal, Ascii;
    var v := c.Values();
    PrintNothing(LABELS, v);
    PrintUpTo(LABELS, v, 0);
    PrintUpTo(LABELS, v, 1);
    PrintUpTo(LABELS, v, 2);
    PrintUpTo(LABELS, v, 3);
    PrintUpTo(LABELS, v, 4);
    PrintUpTo(LABELS, v, 5);
    PrintUpTo(LABELS, v, 6);
    assert LABELS[..7] == LABELS && v[..7] == v;
    assert [] + Ascii("rx=") == Ascii("rx=");
  }

  // The digits of a number, from the highest to the lowest.
  lemma DecimalSpelled(n: nat)
    ensures n < 10 ==> Decimal(n) == [Ascii("0123456789")[n]]
    ensures n >= 10 ==> Decimal(n) == Decimal(n / 10) + [Ascii("0123456789")[n % 10]]
  {
    hide Ascii;
    DigitText(n % 10);
  }

  lemma DigitText(d: nat)
    requires d < 10
    ensures Ascii("0123456789")[d] == 48 + d
  {
    assert d in {0, 1, 2, 3, 4, 5, 6, 7, 8, 9};
  }

  /** What a structure with 49 bytes keeps of the report: all of it, or the first 48 characters. */
  predicate ShowsCounters(payload: seq<byte>, c: Counters) {
    var text := Ascii("rx=") + Decimal(c.rx) + Ascii(",ae=") + Decimal(c.ae) + Ascii(",irq=") + Decimal(c.irq)
                + Ascii(",pb=") + Decimal(c.pb) + Ascii(",pm=") + Decimal(c.pm)
                + Ascii(",pe=") + Decimal(c.pe) + Ascii(",qd=") + Decimal(c.qd);
    payload == if |text| <= 48 then text else text[..48]
  }

  lemma StatusPayloadSpelled(c: Counters)
    ensures ShowsCounters(StatusPayload(c), c)
  {
    hide StatusText, Decimal, Ascii;
    StatusTextSpelled(c);
  }

  // ---------- When the payload determines the counters ----------

  predicate Is32(c: Counters) {
    c.rx < WORD && c.ae < WORD && c.irq < WORD && c.pb < WORD && c.pm < WORD && c.pe < WORD && c.qd < WORD
  }

  lemma {:induction false} LeadingDigit(n: nat)
    ensures |Decimal(n)| >= 1
    ensures n > 0 ==> Decimal(n)[0] != 48
  {
    if n >= 10 {
      LeadingDigit(n / 10);
    }
  }

  // A number whose digits are a proper beginning of another's is not zero and at least ten times smaller.
  lemma {:induction false} ProperPrefix(w: nat, v: nat)
    requires Decimal(w) < Decimal(v)
    ensures w >= 1 && v >= 10 * w
  {
    LeadingDigit(w);
    LeadingDigit(v);
    if Decimal(w) == Decimal(v / 10) {
      DecimalRoundTrip(w);
      DecimalRoundTrip(v / 10);
    } else {
      assert Decimal(v)[..|Decimal(v)| - 1] == Decimal(v / 10);
      assert Decimal(w) <= Decimal(v / 10);
      ProperPrefix(w, v / 10);
    }
  }

  lemma {:induction false} DigitRunPrefix(a: seq<byte>, b: seq<byte>)
    requires a <= b && DigitRun(a) < |a|
    ensures DigitRun(b) == DigitRun(a)
  {
    assert a[0] == b[0];
    if IsDigit(a[0]) {
      DigitRunPrefix(a[1..], b[1..]);
    }
  }

  lemma FirstNumber(title: seq<byte>, w: seq<byte>, wRest: seq<byte>, v: seq<byte>, vRest: seq<byte>)
    requires title + w + wRest <= title + v + vRest
    requires forall i :: 0 <= i < |w| ==> IsDigit(w[i])
    requires forall i :: 0 <= i < |v| ==> IsDigit(v[i])
    requires wRest == [] || !IsDigit(wRest[0])
    requires vRest == [] || !IsDigit(vRest[0])
    ensures wRest != [] ==> w == v && wRest <= vRest
    ensures wRest == [] && vRest == [] ==> w <= v
  {
    var a, b := w + wRest, v + vRest;
    assert title + w + wRest == title + a && title + v + vRest == title + b;
    assert a == (title + a)[|title|..] && b == (title + b)[|title|..];
    assert a <= b;
    DigitRunStops(w, wRest);
    DigitRunStops(v, vRest);
    if wRest != [] {
      DigitRunPrefix(a, b);
      assert w == a[..|w|] && v == b[..|w|];
      assert wRest == a[|w|..] && vRest == b[|w|..];
    } else if vRest == [] {
      assert a == w && b == v;
    }
  }

  lemma {:induction false} ShorterText(labels: seq<seq<byte>>, ws: seq<nat>, vs: seq<nat>)
    requires |labels| == |ws| == |vs| > 0 && Separating(labels)
    requires Print(labels, ws) <= Print(labels, vs) && Print(labels, ws) != Print(labels, vs)
    ensures Decimal(ws[|ws| - 1]) < Decimal(vs[|vs| - 1])
  {
    var tail, wTail, vTail := labels[1..], ws[1..], vs[1..];
    DecimalRoundTrip(ws[0]);
    DecimalRoundTrip(vs[0]);
    PrintStartsWithLabel(tail, wTail);
    PrintStartsWithLabel(tail, vTail);
    FirstNumber(labels[0], Decimal(ws[0]), Print(tail, wTail), Decimal(vs[0]), Print(tail, vTail));
    if |labels| > 1 {
      ShorterText(tail, wTail, vTail);
    } else {
      assert Print(labels, ws) == labels[0] + Decimal(ws[0]);
      assert Print(labels, vs) == labels[0] + Decimal(vs[0]);
    }
  }

  lemma {:induction false} PrintLast(labels: seq<seq<byte>>, values: seq<nat>)
    requires |labels| == |values| > 0
    ensures var n := |labels| - 1;
            Print(labels, values) == Print(labels[..n], values[..n]) + labels[n] + Decimal(values[n])
  {
    hide Decimal;
    var n := |labels| - 1;
    if n == 0 {
      assert Print(labels[1..], values[1..]) == [];
    } else {
      PrintLast(labels[1..], values[1..]);
      assert labels[1..][..n - 1] == labels[..n][1..] && values[1..][..n - 1] == values[..n][1..];
      assert Print(labels[..n], values[..n])
          == labels[0] + Decimal(values[0]) + Print(labels[..n][1..], values[..n][1..]);
    }
  }

  // Counters that differ in qd only print the same but for the last number.
  lemma DropCountLast(c: Counters, q: nat) returns (before: seq<byte>)
    ensures StatusText(c) == before + Decimal(c.qd)
    ensures StatusText(c.(qd := q)) == before + Decimal(q)
  {
    var v, w := c.Values(), c.(qd := q).Values();
    PrintLast(LABELS, v);
    PrintLast(LABELS, w);
    assert v[..6] == w[..6];
    before := Print(LABELS[..6], v[..6]) + LABELS[6];
  }

  lemma ValuesInjective(c: Counters, d: Counters)
    requires c.Values() == d.Values()
    ensures c == d
  {
    assert c.Values()[0] == c.rx && c.Values()[1] == c.ae && c.Values()[2] == c.irq && c.Values()[3] == c.pb;
    assert c.Values()[4] == c.pm && c.Values()[5] == c.pe && c.Values()[6] == c.qd;
  }

  lemma SamePayload(c: Counters, d: Counters)
    requires StatusPayload(c) == StatusPayload(d) && TotalDigits(c) <= 20 && Is32(d)
    ensures c == d || (TotalDigits(c) == 20 && c.qd >= 1 && 10 * c.qd < WORD)
  {
    hide Decimal, Parse, Print, Low32;
    StatusReadsBack(c);
    StatusReadsBack(d);
    StatusSize(c);
    if TotalDigits(d) <= 20 {
      ValuesInjective(c, d);
    } else {
      LabelsSeparate();
      ShorterText(LABELS, c.Values(), d.Values());
      ProperPrefix(c.qd, d.qd);
    }
  }

  // Another value of qd that prints as the same 48 characters.
  function Lookalike(c: Counters): Counters {
    if TotalDigits(c) == 20 then c.(qd := 10 * c.qd)
    else if c.qd % 10 == 0 then c.(qd := c.qd + 1)
    else c.(qd := c.qd - 1)
  }

  lemma SameLeadingDigits(q: nat, q': nat)
    requires q != q' && q / 10 == q' / 10
    ensures |Decimal(q)| == |Decimal(q')| && Decimal(q)[..|Decimal(q)| - 1] == Decimal(q')[..|Decimal(q)| - 1]
  {
  }

  lemma SameBeginning(before: seq<byte>, a: seq<byte>, b: seq<byte>)
    requires |a| == |b| > 0 && a[..|a| - 1] == b[..|a| - 1] && |before + a| > MAX_PAYLOAD
    ensures (before + a)[..MAX_PAYLOAD] == (before + b)[..MAX_PAYLOAD]
  {
    var n := |before| + |a| - 1;
    assert (before + a)[..n] == before + a[..|a| - 1] && (before + b)[..n] == before + b[..|a| - 1];
    assert (before + a)[..MAX_PAYLOAD] == (before + a)[..n][..MAX_PAYLOAD];
    assert (before + b)[..MAX_PAYLOAD] == (before + b)[..n][..MAX_PAYLOAD];
  }

  lemma TenTimes(q: nat)
    requires q >= 1
    ensures Decimal(10 * q) == Decimal(q) + [48]
  {
  }

  // With 20 digits, the longer number is cut off again.
  lemma LookalikeLonger(c: Counters)
    requires TotalDigits(c) == 20 && c.qd >= 1
    ensures StatusPayload(c.(qd := 10 * c.qd)) == StatusPayload(c)
  {
    hide StatusText, Decimal;
    var before := DropCountLast(c, 10 * c.qd);
    StatusSize(c);
    TenTimes(c.qd);
    assert before + Decimal(10 * c.qd) == before + Decimal(c.qd) + [48];
  }

  // With more digits, the last one is cut off.
  lemma LookalikeLast(c: Counters, q: nat)
    requires TotalDigits(c) > 20 && c.qd != q && c.qd / 10 == q / 10
    ensures StatusPayload(c.(qd := q)) == StatusPayload(c)
  {
    hide StatusText, Decimal, TotalDigits;
    var before := DropCountLast(c, q);
    StatusSize(c);
    SameLeadingDigits(c.qd, q);
    DigitCount(c.qd);
    SameBeginning(before, Decimal(c.qd), Decimal(q));
  }

  lemma LookalikePayload(c: Counters)
    requires Is32(c)
    requires TotalDigits(c) > 20 || (TotalDigits(c) == 20 && c.qd >= 1 && 10 * c.qd < WORD)
    ensures Is32(Lookalike(c)) && Lookalike(c) != c && StatusPayload(Lookalike(c)) == StatusPayload(c)
  {
    hide StatusPayload, TotalDigits;
    if TotalDigits(c) == 20 {
      LookalikeLonger(c);
    } else {
      LookalikeLast(c, Lookalike(c).qd);
    }
  }

  /** Exactly when the payload alone determines the counters it reports: with 20 digits it may also be
      the truncated report of a larger drop count. */
  lemma StatusDetermines(c: Counters)
    requires Is32(c)
    ensures (forall d :: Is32(d) && StatusPayload(d) == StatusPayload(c) ==> d == c)
       <==> TotalDigits(c) <= 19 || (TotalDigits(c) == 20 && (c.qd == 0 || 10 * c.qd >= WORD))
  {
    hide TotalDigits, StatusPayload;
    if TotalDigits(c) <= 19 || (TotalDigits(c) == 20 && (c.qd == 0 || 10 * c.qd >= WORD)) {
      forall d | Is32(d) && StatusPayload(d) == StatusPayload(c) ensures d == c {
        SamePayload(c, d);
      }
    } else {
      LookalikePayload(c);
    }
  }

  // ---------- The bytes of the report ----------

  // Lower-case letters, digits, ',' and '='.
  predicate IsReportByte(b: byte) {
    IsDigit(b) || 97 <= b <= 122 || b == 44 || b == 61
  }

  lemma {:induction false} PrintBytes(labels: seq<seq<byte>>, values: seq<nat>)
    requires |labels| == |values|
    requires forall i, j :: 0 <= i < |labels| && 0 <= j < |labels[i]| ==> IsReportByte(labels[i][j])
    ensures forall j :: 0 <= j < |Print(labels, values)| ==> IsReportByte(Print(labels, values)[j])
  {
    if labels != [] {
      DecimalRoundTrip(values[0]);
      PrintBytes(labels[1..], values[1..]);
    }
  }

  lemma LabelBytes(i: nat, j: nat)
    requires i < |LABELS| && j < |LABELS[i]|
    ensures IsReportByte(LABELS[i][j])
  {
    assert i in {0, 1, 2, 3, 4, 5, 6};
    assert j in {0, 1, 2, 3, 4};
  }

  // Truncated or not, the report is a valid STS message that no receiver can misread.
  lemma StatusEncodable(c: Counters)
    ensures Encodable(Message(Sts, StatusPayload(c)))
    ensures forall b :: b in StatusPayload(c) ==> b !in {NUL, END, CR, START}
  {
    hide Print;
    forall i, j | 0 <= i < |LABELS| && 0 <= j < |LABELS[i]| ensures IsReportByte(LABELS[i][j]) {
      LabelBytes(i, j);
    }
    PrintBytes(LABELS, c.Values());
  }

  // ---------- When the report is complete ----------

  // What holds between the counters of a running system; all seven may be read at different moments.
  predicate Consistent(c: Counters) {
    && c.ae <= c.rx <= c.pm
    && 12 * c.pm + c.pe <= c.pb
    && c.pb + c.qd <= c.irq
  }

  predicate Below(c: Counters, d: Counters) {
    c.rx <= d.rx && c.ae <= d.ae && c.irq <= d.irq && c.pb <= d.pb && c.pm <= d.pm && c.pe <= d.pe && c.qd <= d.qd
  }

  // Digits of a number below 10000.
  function Width(n: nat): nat {
    if n < 10 then 1 else if n < 100 then 2 else if n < 1000 then 3 else 4
  }

  lemma WidthOf(n: nat)
    requires n < 10000
    ensures |Decimal(n)| == Width(n)
  {
    DigitCount(n);
  }

  /** c can be reported where the counters have come to d. All seven may be read at different moments, but
      the query is counted in rx, is not refused, and its frame has at least 19 bytes. */
  predicate Reportable(c: Counters, d: Counters) {
    Below(c, d) && Consistent(d) && c.ae < c.rx && 12 * d.pm + 7 + d.pe <= d.pb
  }

  const SAFE_BYTES := 1238

  lemma WidthBound(c: Counters, d: Counters)
    requires Reportable(c, d) && d.irq <= SAFE_BYTES
    ensures Width(c.rx) + Width(c.ae) + Width(c.irq) + Width(c.pb) + Width(c.pm) + Width(c.pe) + Width(c.qd) <= 20
  {
  }

  // Up to 1238 received bytes, whatever the counters and however unevenly they were read, a report is complete.
  lemma ShortRunsFit(c: Counters, d: Counters)
    requires Reportable(c, d) && d.irq <= SAFE_BYTES
    ensures TotalDigits(c) <= 20
  {
    hide Decimal;
    WidthOf(c.rx);
    WidthOf(c.ae);
    WidthOf(c.irq);
    WidthOf(c.pb);
    WidthOf(c.pm);
    WidthOf(c.pe);
    WidthOf(c.qd);
    WidthBound(c, d);
  }

  // app_build_status_message, given the counter values it has read.
  method BuildStatusMessage(c: Counters, message: MessageRecord)
    requires message.Valid()
    modifies message, message.payload
    ensures message.Holds(Message(Sts, StatusPayload(c)))
  {
    var payload := new byte[MAX_PAYLOAD + 1];
    StatusEncodable(c);
    var written := Snprintf(payload, 0, payload.Length, StatusText(c));
    ghost var text := StatusPayload(c);
    assert payload[..] == text + [NUL] + payload[|text| + 1..];
    CStringStops(text, payload[|text| + 1..]);
    var ok := MessageSet(message, Sts, payload[..]);
  }
}
