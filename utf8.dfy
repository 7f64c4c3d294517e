/** Bytes on the wire and `str.encode()` (UTF-8), which both servers apply to
    every message before `sendall`. */
module Utf8 {

  newtype byte = x: int | 0 <= x < 256

  predicate IsAscii(s: string) { forall i :: 0 <= i < |s| ==> s[i] as int < 0x80 }

  /** The UTF-8 encoding of one Unicode scalar value: the shortest form, so
      the length is fixed by the value's range, and the lead byte announces
      that length. */
  function EncodeChar(c: char): (b: seq<byte>)
    ensures |b| == (if c as int < 0x80 then 1 else if c as int < 0x800 then 2
                    else if c as int < 0x10000 then 3 else 4)
    ensures |b| == 1 ==> b[0] as int == c as int
    ensures |b| == 2 ==> 0xC2 <= b[0] as int < 0xE0
    ensures |b| == 3 ==> 0xE0 <= b[0] as int < 0xF0
    ensures |b| == 4 ==> 0xF0 <= b[0] as int <= 0xF4
    ensures forall i :: 1 <= i < |b| ==> 0x80 <= b[i] as int < 0xC0
  {
    var v := c as int;
    if v < 0x80 then [v as byte]
    else if v < 0x800 then [(0xC0 + v / 64) as byte, (0x80 + v % 64) as byte]
    else if v < 0x10000 then
      [(0xE0 + v / 4096) as byte, (0x80 + (v / 64) % 64) as byte, (0x80 + v % 64) as byte]
    else
      [(0xF0 + v / 262144) as byte, (0x80 + (v / 4096) % 64) as byte,
       (0x80 + (v / 64) % 64) as byte, (0x80 + v % 64) as byte]
  }

  /** The scalar value that a well-formed UTF-8 sequence of one character
      stands for: the lead byte's payload bits followed by six bits from each
      continuation byte. */
  function DecodeValue(b: seq<byte>): int
    requires 1 <= |b| <= 4
  {
    if |b| == 1 then b[0] as int
    else if |b| == 2 then (b[0] as int - 0xC0) * 64 + (b[1] as int - 0x80)
    else if |b| == 3 then
      ((b[0] as int - 0xE0) * 64 + (b[1] as int - 0x80)) * 64 + (b[2] as int - 0x80)
    else
      (((b[0] as int - 0xF0) * 64 + (b[1] as int - 0x80)) * 64 + (b[2] as int - 0x80)) * 64
        + (b[3] as int - 0x80)
  }

  /** Decoding the bytes of one character gives the character back. */
  lemma DecodeEncodeChar(c: char)
    ensures DecodeValue(EncodeChar(c)) == c as int
  {
    var v := c as int;
    if v < 0x80 {
    } else if v < 0x800 {
      assert (v / 64) * 64 + v % 64 == v;
    } else if v < 0x10000 {
      assert ((v / 4096) * 64 + (v / 64) % 64) * 64 + v % 64 == v by {
        assert (v / 64) / 64 == v / 4096;
      }
    } else {
      assert (((v / 262144) * 64 + (v / 4096) % 64) * 64 + (v / 64) % 64) * 64 + v % 64 == v by {
        assert (v / 64) / 64 == v / 4096;
        assert (v / 4096) / 64 == v / 262144;
      }
    }
  }

  /** `s.encode('utf-8')`. */
  function Encode(s: string): (b: seq<byte>)
    ensures |b| >= |s|
  {
    if s == [] then [] else EncodeChar(s[0]) + Encode(s[1..])
  }

  /** Encoding distributes over concatenation. */
  lemma {:induction false} EncodeAppend(a: string, b: string)
    ensures Encode(a + b) == Encode(a) + Encode(b)
  {
    if a != [] {
      assert (a + b)[1..] == a[1..] + b;
      EncodeAppend(a[1..], b);
    } else {
      assert a + b == b;
    }
  }

  /** An ASCII string encodes to one byte per character, each byte the
      character's code, so its byte length is its character count. */
  lemma {:induction false} EncodeAscii(s: string)
    requires IsAscii(s)
    ensures |Encode(s)| == |s|
    ensures forall i :: 0 <= i < |s| ==> Encode(s)[i] as int == s[i] as int
  {
    if s != [] {
      EncodeAscii(s[1..]);
      assert Encode(s) == [EncodeChar(s[0])[0]] + Encode(s[1..]);
    }
  }

  lemma AsciiAppend(a: string, b: string)
    requires IsAscii(a) && IsAscii(b)
    ensures IsAscii(a + b)
  {
  }
}
