/** What the application promises, in the literal texts of its commands and answers. */
module Meaning {
  import opened Bytes
  import opened Codec
  import opened Status
  import opened App

  type ascii = s: string | forall i :: 0 <= i < |s| ==> s[i] as int < 256

  // m is a command whose payload, as a C string, is this text.
  predicate Says(m: Message, text: ascii) {
    m.kind == Cmd && CString(m.payload) == Ascii(text)
  }

  // m asks for the status report.
  predicate AsksStatus(m: Message) {
    Says(m, "status?")
  }

  // The commands that are served; every other message counts as an error.
  predicate Served(m: Message) {
    Says(m, "led=on") || Says(m, "led=off") || Says(m, "led=toggle") || Says(m, "ping") || Says(m, "status?")
  }

  // The number of messages that are not served.
  function RefusedCount(ms: seq<Message>): nat {
    if ms == [] then 0 else RefusedCount(ms[..|ms| - 1]) + if Served(ms[|ms| - 1]) then 0 else 1
  }

  // r has the type and, but for a status report, the text of the answer to m.
  predicate AnswerText(m: Message, r: Message) {
    && (m.kind != Cmd ==> r == Message(Err, Ascii("code=unexpected_type")))
    && (Says(m, "led=on") || Says(m, "led=off") || Says(m, "led=toggle") ==> r == Message(Ack, Ascii("cmd=ok")))
    && (Says(m, "ping") ==> r == Message(Ack, Ascii("pong=1")))
    && (AsksStatus(m) ==> r.kind == Sts)
    && (m.kind == Cmd && !Served(m) ==> r == Message(Err, Ascii("code=unknown_cmd")))
  }

  // ---------- The program's own tables ----------

  lemma TextsDiffer()
    ensures |{Ascii("led=on"), Ascii("led=off"), Ascii("led=toggle"), Ascii("ping"), Ascii("status?")}| == 5
    ensures LED + EQUALS + ON == Ascii("led=on") && LED + EQUALS + OFF == Ascii("led=off")
    ensures LED + EQUALS + TOGGLE == Ascii("led=toggle") && PING == Ascii("ping") && STATUS == Ascii("status?")
  {
    assert |Ascii("led=on")| == 6 && |Ascii("led=off")| == 7 && |Ascii("led=toggle")| == 10 && |Ascii("ping")| == 4;
    assert Ascii("led=off")[0] != Ascii("status?")[0];
  }

  // Which request a message is.
  lemma RequestByText(m: Message)
    ensures RequestOf(m) == WrongType <==> m.kind != Cmd
    ensures RequestOf(m) == Led(Command(Ascii("led"), Ascii("on"))) <==> Says(m, "led=on")
    ensures RequestOf(m) == Led(Command(Ascii("led"), Ascii("off"))) <==> Says(m, "led=off")
    ensures RequestOf(m) == Led(Command(Ascii("led"), Ascii("toggle"))) <==> Says(m, "led=toggle")
    ensures RequestOf(m).Led? <==> Says(m, "led=on") || Says(m, "led=off") || Says(m, "led=toggle")
    ensures RequestOf(m) == Ping <==> Says(m, "ping")
    ensures RequestOf(m) == StatusQuery <==> AsksStatus(m)
    ensures RequestOf(m) == Unknown <==> m.kind == Cmd && !Served(m)
    ensures Refused(RequestOf(m)) <==> !Served(m)
  {
    hide CString, Ascii;
    TextsDiffer();
    ActionsDiffer();
  }

  lemma ActionsDiffer()
    ensures |{Ascii("on"), Ascii("off"), Ascii("toggle")}| == 3
    ensures LED == Ascii("led") && ON == Ascii("on") && OFF == Ascii("off") && TOGGLE == Ascii("toggle")
  {
    assert |Ascii("on")| == 2 && |Ascii("off")| == 3 && |Ascii("toggle")| == 6;
  }

  // The responses chosen are the answers promised.
  lemma ResponseByText(m: Message, r: Message)
    ensures AnswerText(m, r) <==>
              if RequestOf(m) == StatusQuery then r.kind == Sts else r == FixedResponse(RequestOf(m))
  {
    hide RequestOf, CString;
    RequestByText(m);
    TextsDiffer();
  }

  lemma RefusedSnoc(ms: seq<Message>, m: Message)
    ensures RefusedCount(ms + [m]) == RefusedCount(ms) + if Refused(RequestOf(m)) then 1 else 0
  {
    hide Served, RequestOf, Refused;
    RequestByText(m);
    assert (ms + [m])[..|ms|] == ms;
  }

  // ---------- The LED ----------

  // The number of messages that toggle the LED.
  function ToggleCount(ms: seq<Message>): nat {
    if ms == [] then 0 else ToggleCount(ms[..|ms| - 1]) + if Says(ms[|ms| - 1], "led=toggle") then 1 else 0
  }

  predicate Fixes(m: Message) {
    Says(m, "led=on") || Says(m, "led=off")
  }

  // Message k is the last one that switches the LED on or off.
  predicate LastFixing(ms: seq<Message>, k: nat) {
    k < |ms| && Fixes(ms[k]) && forall j :: k < j < |ms| ==> !Fixes(ms[j])
  }

  /** The LED, lit while the pin is low, shows the last `led=on` or `led=off` among ms and the parity of the
      toggles behind it; without one of these, it is off at first. */
  predicate LedShows(pin: bool, ms: seq<Message>) {
    && (forall k :: 0 <= k < |ms| && LastFixing(ms, k) ==>
          (!pin <==> (Says(ms[k], "led=on") <==> ToggleCount(ms[k + 1..]) % 2 == 0)))
    && ((forall k :: 0 <= k < |ms| ==> !Fixes(ms[k])) ==> (!pin <==> ToggleCount(ms) % 2 == 1))
  }

  lemma ToggleSnoc(ms: seq<Message>, m: Message)
    ensures ToggleCount(ms + [m]) == ToggleCount(ms) + if Says(m, "led=toggle") then 1 else 0
  {
    assert (ms + [m])[..|ms|] == ms;
  }

  // What one more message does to the pin.
  lemma PinStep(ms: seq<Message>, m: Message)
    ensures ApplyAll(true, Commands(ms + [m])) ==
              if Says(m, "led=on") then false
              else if Says(m, "led=off") then true
              else if Says(m, "led=toggle") then !ApplyAll(true, Commands(ms))
              else ApplyAll(true, Commands(ms))
    ensures !(Says(m, "led=on") && Says(m, "led=off")) && !(Fixes(m) && Says(m, "led=toggle"))
  {
    hide RequestOf, Commands, ApplyAll;
    RequestByText(m);
    ActionsDiffer();
    CommandsSnoc(ms, m);
    if RequestOf(m).Led? {
      ApplySnoc(true, Commands(ms), RequestOf(m).command);
    } else {
      assert Commands(ms) + [] == Commands(ms);
    }
  }

  lemma FixingSnoc(ms: seq<Message>, m: Message, k: nat)
    requires LastFixing(ms + [m], k)
    ensures k == |ms| ==> Fixes(m) && ToggleCount((ms + [m])[k + 1..]) == 0
    ensures k < |ms| ==>
              !Fixes(m) && LastFixing(ms, k) && ToggleCount((ms + [m])[k + 1..]) == ToggleCount(ms[k + 1..] + [m])
  {
    hide Says, Fixes;
    var all := ms + [m];
    assert all[|ms|] == m;
    if k < |ms| {
      assert all[k + 1..] == ms[k + 1..] + [m];
      forall j | k < j < |ms| ensures !Fixes(ms[j]) {
        assert all[j] == ms[j];
      }
    }
  }

  lemma NoneFixesSnoc(ms: seq<Message>, m: Message)
    requires forall k :: 0 <= k < |ms + [m]| ==> !Fixes((ms + [m])[k])
    ensures !Fixes(m) && forall k :: 0 <= k < |ms| ==> !Fixes(ms[k])
  {
    hide Says, Fixes;
    assert (ms + [m])[|ms|] == m && forall k :: 0 <= k < |ms| ==> (ms + [m])[k] == ms[k];
  }

  lemma LedShowsSnoc(pin: bool, ms: seq<Message>, m: Message, after: bool)
    requires LedShows(pin, ms)
    requires !(Says(m, "led=on") && Says(m, "led=off")) && !(Fixes(m) && Says(m, "led=toggle"))
    requires after == if Says(m, "led=on") then false else if Says(m, "led=off") then true
                      else if Says(m, "led=toggle") then !pin else pin
    ensures LedShows(after, ms + [m])
  {
    hide Says, LastFixing, ToggleCount;
    var all := ms + [m];
    ToggleSnoc(ms, m);
    forall k | 0 <= k < |all| && LastFixing(all, k)
      ensures !after <==> (Says(all[k], "led=on") <==> ToggleCount(all[k + 1..]) % 2 == 0)
    {
      FixingSnoc(ms, m, k);
      if k < |ms| {
        ToggleSnoc(ms[k + 1..], m);
      }
    }
    if forall k :: 0 <= k < |all| ==> !Fixes(all[k]) {
      NoneFixesSnoc(ms, m);
    }
  }

  /** The LED after the commands among ms. */
  lemma {:induction false} LedByText(ms: seq<Message>)
    ensures LedShows(ApplyAll(true, Commands(ms)), ms)
  {
    if ms == [] {
      assert ToggleCount(ms) == 0;
    } else {
      var front, last := ms[..|ms| - 1], ms[|ms| - 1];
      assert front + [last] == ms;
      LedByText(front);
      PinStep(front, last);
      LedShowsSnoc(ApplyAll(true, Commands(front)), front, last, ApplyAll(true, Commands(ms)));
    }
  }
}
