/** The framing of `utils/tcp.rs` on the game side: separator 0x7e, end of stream ends the frame without error. */
module GameTcp {

  import opened Utf8
  import Framing

  /** The separator byte, 0x7e ('~'; the source's comment calls it ETX). */
  const SEPARATOR: Byte := 0x7e

  /** `read_until_separator(stream)`: the frame's bytes and the part of the stream left for the next read. */
  function ReadUntilSeparator(stream: seq<Byte>): (r: (seq<Byte>, seq<Byte>))
    ensures SEPARATOR !in r.0
    ensures SEPARATOR in stream ==> stream == r.0 + [SEPARATOR] + r.1
    ensures SEPARATOR !in stream ==> r.0 == stream && r.1 == []
  {
    var scan := Framing.ScanUntil(stream, SEPARATOR);
    (scan.content, scan.rest)
  }

  /** `write_to_stream(stream, data, end)`: the UTF-8 bytes of data, then one 0x7e when `end` is set. */
  function WriteToStream(data: string, end: bool): (r: seq<Byte>)
    ensures |r| == |Encode(data)| + (if end then 1 else 0)
    ensures r[..|Encode(data)|] == Encode(data)
    ensures end ==> r[|r| - 1] == SEPARATOR
  {
    Framing.Frame(Encode(data), SEPARATOR, end)
  }

  /** The encoded string has a 0x7e byte exactly when the string has a '~'. */
  lemma SeparatorFreeIffNoTilde(data: string)
    ensures SEPARATOR !in Encode(data) <==> '~' !in data
  {
  }

  /** A message written with `end` and no '~' in it reads back as its bytes, leaving the rest of the stream untouched. */
  lemma RoundTrip(data: string, after: seq<Byte>)
    requires '~' !in data
    ensures ReadUntilSeparator(WriteToStream(data, true) + after) == (Encode(data), after)
  {
    SeparatorFreeIffNoTilde(data);
    Framing.ScanReadsFrame(Encode(data), SEPARATOR, after);
  }

  /** Writes without `end` run together with the next one: the reader sees one frame holding both messages. */
  lemma UnterminatedWritesJoin(a: string, b: string, after: seq<Byte>)
    requires '~' !in a + b
    ensures ReadUntilSeparator(WriteToStream(a, false) + WriteToStream(b, true) + after) == (Encode(a + b), after)
  {
    EncodeAppend(a, b);
    assert WriteToStream(a, false) + WriteToStream(b, true) == WriteToStream(a + b, true);
    RoundTrip(a + b, after);
  }

  /** A stream that closes before any separator yields everything it carried, with no error. */
  lemma EndOfStreamEndsFrame(data: string)
    requires '~' !in data
    ensures ReadUntilSeparator(WriteToStream(data, false)) == (Encode(data), [])
  {
  }
}
