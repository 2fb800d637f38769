/** Bytes, the XOR that the checksum is made of, and C strings. */
module Bytes {

  datatype Option<+T> = None | Some(value: T)

  // An 8-bit character as it travels on the UART.
  type byte = x: int | 0 <= x < 256

  const NUL: byte := 0
  const END: byte := 10        // '\n'
  const CR: byte := 13         // '\r'
  const SEPARATOR: byte := 58  // ':'
  const START: byte := 64      // '@'

  // The characters of a string literal.
  function Ascii(text: string): seq<byte>
    requires forall i :: 0 <= i < |text| ==> text[i] as int < 256
  {
    seq(|text|, i requires 0 <= i < |text| => text[i] as int)
  }

  // The `^` of C on two bytes.
  function Xor(a: byte, b: byte): byte {
    ((a as bv8) ^ (b as bv8)) as int
  }

  lemma XorAssociative(a: byte, b: byte, c: byte)
    ensures Xor(Xor(a, b), c) == Xor(a, Xor(b, c))
  {
    Bv8RoundTrip((a as bv8) ^ (b as bv8));
    Bv8RoundTrip((b as bv8) ^ (c as bv8));
  }

  lemma Bv8RoundTrip(x: bv8)
    ensures (x as int) as bv8 == x
  {
  }

  lemma XorZero(a: byte)
    ensures Xor(a, 0) == a == Xor(0, a)
  {
  }

  lemma XorCancels(a: byte, b: byte, c: byte)
    requires Xor(a, b) == Xor(a, c)
    ensures b == c
  {
    XorAssociative(a, a, b);
    XorAssociative(a, a, c);
    assert Xor(a, a) == 0;
    XorZero(b);
    XorZero(c);
  }

  lemma XorCancelsRight(a: byte, b: byte, c: byte)
    requires Xor(a, c) == Xor(b, c)
    ensures a == b
  {
    assert Xor(a, c) == Xor(c, a) && Xor(b, c) == Xor(c, b);
    XorCancels(c, a, b);
  }

  lemma ConcatAssociative(a: seq<byte>, b: seq<byte>, c: seq<byte>)
    ensures a + b + c == a + (b + c)
  {
  }

  lemma DropFirst(a: seq<byte>, b: seq<byte>, k: nat)
    requires k <= |a|
    ensures (a + b)[k..] == a[k..] + b
  {
  }

  lemma SliceOfSlice(s: seq<byte>, a: nat, b: nat, i: nat, j: nat)
    requires a <= b <= |s| && i <= j <= b - a
    ensures s[a..b][i..j] == s[a + i..a + j]
  {
    var inner, outer := s[a..b][i..j], s[a + i..a + j];
    assert |inner| == |outer| && forall k :: 0 <= k < |inner| ==> inner[k] == s[a..b][i + k] == outer[k];
  }

  // A text is its beginning, one byte and the rest.
  lemma CutAt(s: seq<byte>, k: nat)
    requires k < |s|
    ensures s == s[..k] + [s[k]] + s[k + 1..]
  {
  }

  // What a C string function sees in a buffer: the bytes before the first NUL.
  function CString(buffer: seq<byte>): seq<byte> {
    if buffer == [] || buffer[0] == NUL then [] else [buffer[0]] + CString(buffer[1..])
  }

  lemma {:induction false} CStringStops(text: seq<byte>, rest: seq<byte>)
    requires NUL !in text
    ensures CString(text + [NUL] + rest) == text
  {
    var buffer := text + [NUL] + rest;
    if text == [] {
      assert buffer[0] == NUL;
    } else {
      assert buffer[1..] == text[1..] + [NUL] + rest;
      CStringStops(text[1..], rest);
    }
  }

  lemma {:induction false} CStringIsPrefix(buffer: seq<byte>)
    ensures CString(buffer) <= buffer
    ensures NUL !in CString(buffer)
    ensures |CString(buffer)| < |buffer| ==> buffer[|CString(buffer)|] == NUL
    ensures NUL in buffer ==> |CString(buffer)| < |buffer|
  {
    if buffer != [] && buffer[0] != NUL {
      CStringIsPrefix(buffer[1..]);
    }
  }

  // A terminator behind a text, and whatever follows it, do not change the C string.
  lemma {:induction false} CStringTerminated(text: seq<byte>, rest: seq<byte>)
    ensures CString(text + [NUL] + rest) == CString(text)
  {
    var buffer := text + [NUL] + rest;
    if text != [] && text[0] != NUL {
      assert buffer[1..] == text[1..] + [NUL] + rest;
      CStringTerminated(text[1..], rest);
    }
  }
}
