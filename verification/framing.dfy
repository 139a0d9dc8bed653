/** The byte-at-a-time frame reader and the frame writer shared by both ends of the game's TCP link. */
module Framing {

  import opened Utf8

  /** What a read loop leaves: the bytes collected, the unread rest of the stream, and whether it stopped at a separator (rather than at end of stream). */
  datatype Scan = Scan(content: seq<Byte>, rest: seq<Byte>, sawSeparator: bool)

  /**
    The loop of `read_until_separator`: take one byte; at end of stream stop; at the separator
    stop, dropping it; otherwise keep the byte and go on.
   */
  function ScanUntil(stream: seq<Byte>, sep: Byte): (r: Scan)
    ensures sep !in r.content
    ensures r.sawSeparator <==> sep in stream
    ensures r.sawSeparator ==> stream == r.content + [sep] + r.rest
    ensures !r.sawSeparator ==> r.content == stream && r.rest == []
  {
    if |stream| == 0 then Scan([], [], false)
    else if stream[0] == sep then Scan([], stream[1..], true)
    else
      var t := ScanUntil(stream[1..], sep);
      assert stream == [stream[0]] + stream[1..];
      Scan([stream[0]] + t.content, t.rest, t.sawSeparator)
  }

  /** `write_to_stream`'s framing: the payload, then one separator when `end` is set. */
  function Frame(payload: seq<Byte>, sep: Byte, end: bool): (r: seq<Byte>)
    ensures |r| == |payload| + (if end then 1 else 0)
    ensures r[..|payload|] == payload
    ensures end ==> r[|payload|] == sep
  {
    if end then payload + [sep] else payload
  }

  /** A stream splits at its first separator in only one way. */
  lemma FirstSeparatorSplitUnique(c1: seq<Byte>, r1: seq<Byte>, c2: seq<Byte>, r2: seq<Byte>, sep: Byte)
    requires sep !in c1 && sep !in c2
    requires c1 + [sep] + r1 == c2 + [sep] + r2
    ensures c1 == c2 && r1 == r2
  {
    var stream := c1 + [sep] + r1;
    // the first separator of the stream sits right after c1, and right after c2
    assert stream[|c1|] == sep && stream[|c2|] == sep;
    assert forall k :: 0 <= k < |c1| ==> stream[k] == c1[k] != sep;
    assert forall k :: 0 <= k < |c2| ==> stream[k] == c2[k] != sep;
    assert |c1| == |c2|;
    assert c1 == stream[..|c1|] == c2;
    assert r1 == stream[|c1| + 1..] == r2;
  }

  /** A frame whose payload has no separator reads back as that payload, whatever follows it in the stream. */
  lemma ScanReadsFrame(payload: seq<Byte>, sep: Byte, after: seq<Byte>)
    requires sep !in payload
    ensures ScanUntil(Frame(payload, sep, true) + after, sep) == Scan(payload, after, true)
  {
    var stream := Frame(payload, sep, true) + after;
    assert stream == payload + [sep] + after;
    assert stream[|payload|] == sep;
    var r := ScanUntil(stream, sep);
    FirstSeparatorSplitUnique(r.content, r.rest, payload, after, sep);
  }
}
