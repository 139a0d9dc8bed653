/**
  UTF-8 encoding of a string, as done by Rust's `String::as_bytes` and Python's `str.encode()`.
  A `char` is a Unicode scalar value.
 */
module Utf8 {

  type Byte = x: nat | x < 256

  /** The 1 to 4 bytes of one scalar value: ASCII stays one byte, every byte of a longer form is 0x80 or above. */
  function EncodeChar(c: char): (r: seq<Byte>)
    ensures 1 <= |r| <= 4
    ensures |r| == 1 <==> c as int < 0x80
    ensures |r| == 1 ==> r[0] == c as int
    ensures |r| > 1 ==> forall k :: 0 <= k < |r| ==> r[k] >= 0x80
  {
    var v := c as int;
    if v < 0x80 then [v]
    else if v < 0x800 then [0xC0 + v / 0x40, 0x80 + v % 0x40]
    else if v < 0x1_0000 then [0xE0 + v / 0x1000, 0x80 + (v / 0x40) % 0x40, 0x80 + v % 0x40]
    else [0xF0 + v / 0x4_0000, 0x80 + (v / 0x1000) % 0x40, 0x80 + (v / 0x40) % 0x40, 0x80 + v % 0x40]
  }

  /** The encoding of a string: the encodings of its characters, in order. */
  function Encode(s: string): (r: seq<Byte>)
    ensures |s| <= |r| <= 4 * |s|
    ensures |r| == |s| <==> forall k :: 0 <= k < |s| ==> s[k] as int < 0x80
    decreases |s|
  {
    if |s| == 0 then [] else EncodeChar(s[0]) + Encode(s[1..])
  }

  /** Encoding distributes over concatenation. */
  lemma {:induction false} EncodeAppend(a: string, b: string)
    ensures Encode(a + b) == Encode(a) + Encode(b)
    decreases |a|
  {
    if |a| > 0 {
      assert (a + b)[1..] == a[1..] + b;
      EncodeAppend(a[1..], b);
    } else {
      assert a + b == b;
    }
  }

  /** An ASCII byte occurs in the encoding exactly when its character occurs in the string. */
  lemma {:induction false} AsciiByteIffChar(s: string, b: Byte)
    requires b < 0x80
    ensures b in Encode(s) <==> (b as char) in s
    decreases |s|
  {
    if |s| > 0 {
      AsciiByteIffChar(s[1..], b);
      assert s == [s[0]] + s[1..];
      assert b in EncodeChar(s[0]) <==> s[0] == b as char;
    }
  }
}
