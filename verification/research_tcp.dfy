/** The framing of `research/src/utils/tcp/helper.py` on the predictor side: separator 0x03, end of stream is an error. */
module ResearchTcp {

  import opened Wrappers
  import opened Utf8
  import Framing

  /** The separator byte, 0x03 (ETX). */
  const SEPARATOR: Byte := 0x03

  /** The exception raised when the stream closes before a separator arrives. */
  datatype ReadError = StreamClosed

  /**
    `read_until_separator(socket)`: the frame's bytes and the rest of the stream, or `StreamClosed`
    when the stream ends first, in which case the bytes gathered so far are lost.
   */
  function ReadUntilSeparator(stream: seq<Byte>): (r: Result<(seq<Byte>, seq<Byte>), ReadError>)
    ensures r.Success? <==> SEPARATOR in stream
    ensures r.Success? ==> SEPARATOR !in r.value.0 && stream == r.value.0 + [SEPARATOR] + r.value.1
  {
    var scan := Framing.ScanUntil(stream, SEPARATOR);
    if scan.sawSeparator then Success((scan.content, scan.rest)) else Failure(StreamClosed)
  }

  /** A successful read consumes the frame's bytes and one separator, nothing more. */
  lemma ReadConsumesFrameAndSeparator(stream: seq<Byte>)
    requires ReadUntilSeparator(stream).Success?
    ensures var (content, rest) := ReadUntilSeparator(stream).value;
      |stream| - |rest| == |content| + 1 && stream[|content| + 1..] == rest
  {
  }

  /** `write_to_stream(socket, data, end)`: `data.encode()`, then one 0x03 when `end` is true. */
  function WriteToStream(data: string, end: bool): (r: seq<Byte>)
    ensures |r| == |Encode(data)| + (if end then 1 else 0)
    ensures r[..|Encode(data)|] == Encode(data)
    ensures end ==> r[|r| - 1] == SEPARATOR
  {
    Framing.Frame(Encode(data), SEPARATOR, end)
  }

  /** The encoded string has a 0x03 byte exactly when the string has the character U+0003. */
  lemma SeparatorFreeIffNoEtx(data: string)
    ensures SEPARATOR !in Encode(data) <==> '\U{3}' !in data
  {
  }

  /** A message written with `end` and no U+0003 in it reads back as `data.encode()`, leaving the rest of the stream untouched. */
  lemma RoundTrip(data: string, after: seq<Byte>)
    requires '\U{3}' !in data
    ensures ReadUntilSeparator(WriteToStream(data, true) + after) == Success((Encode(data), after))
  {
    SeparatorFreeIffNoEtx(data);
    Framing.ScanReadsFrame(Encode(data), SEPARATOR, after);
  }

  /** A message written without `end` and then the stream closing makes the reader raise. */
  lemma UnterminatedWriteFails(data: string)
    requires '\U{3}' !in data
    ensures ReadUntilSeparator(WriteToStream(data, false)) == Failure(StreamClosed)
  {
    SeparatorFreeIffNoEtx(data);
  }
}
