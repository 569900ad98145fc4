/** `newWriterExif` (app.go): writes the composed JPEG header straight to the
    output — the Start-Of-Image marker, then, when an EXIF slice is present,
    an APP1 marker segment carrying it (marker segments as in section B.1.1.4
    of ITU-T T.81; the Exif standard stores its data in APP1) — and returns a
    skipping writer for the encoder. */
module ExifHeader {
  import opened Bytes
  import opened Wrappers
  import Sinks
  import SkipWriter

  /** The Start-Of-Image marker. */
  const Soi: seq<Byte> := [0xFF, 0xD8]
  /** The APP1 marker code. */
  const App1: Byte := 0xE1
  /** The largest EXIF payload whose segment length (payload + 2) fits the
      16-bit length field. */
  const MaxExifLength: int := 0xFFFF - 2

  /** The APP1 marker and its 2-byte big-endian length field, computed as the
      source does: `uint8(markerlen >> 8)`, `uint8(markerlen & 0xff)`. The
      length is never negative here, so `>> 8` is `/ 0x100` and `& 0xff` is
      `% 0x100`. */
  function App1Marker(exif: seq<Byte>): (m: seq<Byte>)
    // A reader of the big-endian field finds the segment length modulo 2^16.
    ensures |m| == 4 && m[..2] == [0xFF, App1] && Uint16(m[2], m[3]) == (2 + |exif|) % 0x10000
  {
    var markerLength := 2 + |exif|;
    assert markerLength / 0x100 == (markerLength / 0x10000) * 0x100 + (markerLength / 0x100) % 0x100;
    [0xFF, App1, Uint8(markerLength / 0x100), Uint8(markerLength % 0x100)]
  }

  /** Everything the constructor writes: SOI, then the APP1 segment whenever
      the slice is non-nil — an empty non-nil slice included. */
  function Header(exif: Option<seq<Byte>>): (h: seq<Byte>)
    ensures |h| >= 2 && h[..2] == Soi
    ensures exif.None? ==> h == Soi
    ensures exif.Some? ==>
      && |h| == 2 + 4 + |exif.value|
      && h[2..6] == App1Marker(exif.value)
      && h[6..] == exif.value
  {
    match exif
    case None => Soi
    case Some(e) => Soi + App1Marker(e) + e
  }

  /** The 16-bit value a reader finds in bytes 4 and 5 of a header. */
  function LengthField(h: seq<Byte>): int
    requires |h| >= 6
  {
    Uint16(h[4], h[5])
  }

  /** Byte layout of the header. The length field holds the segment length
      modulo 2^16, so it is exact up to `MaxExifLength` payload bytes and
      wrapped beyond that. */
  lemma HeaderLayout(exif: Option<seq<Byte>>)
    ensures Header(exif)[..2] == [0xFF, 0xD8]
    ensures exif.None? ==> Header(exif) == [0xFF, 0xD8]
    ensures exif.Some? ==>
      && |Header(exif)| == 6 + |exif.value|
      && Header(exif)[2..4] == [0xFF, 0xE1]
      && LengthField(Header(exif)) == (2 + |exif.value|) % 0x10000
      && Header(exif)[6..] == exif.value
    ensures exif.Some? && |exif.value| <= MaxExifLength ==>
      LengthField(Header(exif)) == 2 + |exif.value|
    ensures exif.Some? && |exif.value| > MaxExifLength ==>
      LengthField(Header(exif)) != 2 + |exif.value|
  {
    if exif.Some? {
      var L := 2 + |exif.value|;
      var h := Header(exif);
      assert h[4] == (L / 0x100) % 0x100 && h[5] == L % 0x100;
      assert L == (L / 0x100) * 0x100 + L % 0x100;
      assert L / 0x100 == (L / 0x10000) * 0x100 + (L / 0x100) % 0x100;
      assert h[6..] == exif.value;
    }
  }

  /** Outcome of the constructor: the writer, or the error together with
      the sink as the failed write left it. */
  datatype Built = Built(w: SkipWriter.Skipper) | Failed(out: Sinks.Sink)

  /** The APP1 part of `newWriterExif`: the marker with its length field,
      then the payload, as two writes; gives up at the first that fails. */
  function WriteApp1(out: Sinks.Sink, e: seq<Byte>): (r: Built)
    ensures r.Built? ==>
      && r.w.bytesToSkip == SkipWriter.SoiLength
      && r.w.out.data == out.data + (App1Marker(e) + e)
    ensures r.Failed? ==> out.data <= r.out.data <= out.data + (App1Marker(e) + e)
    ensures Sinks.Reliable(out) ==> r.Built?
  {
    var marker := Sinks.Put(out, App1Marker(e));
    if !marker.reply.ok then
      PartialWrite(out.data, App1Marker(e), marker.reply.n, e);
      Failed(marker.sink)
    else
      var payload := Sinks.Put(marker.sink, e);
      if !payload.reply.ok then
        PartialWrite(out.data + App1Marker(e), e, payload.reply.n, []);
        Failed(payload.sink)
      else
        Built(SkipWriter.Skipper(payload.sink, SkipWriter.SoiLength))
  }

  /** Part of a write lies between the old contents and the full sequence of writes. */
  lemma PartialWrite(front: seq<Byte>, p: seq<Byte>, n: nat, rest: seq<Byte>)
    requires n <= |p|
    ensures front <= front + p[..n] <= front + (p + rest)
    ensures front + p + rest == front + (p + rest)
  {
    assert (front + (p + rest))[..|front| + n] == front + p[..n];
  }

  /** `newWriterExif(w, exif)`: SOI, then the APP1 segment when the slice is
      non-nil, each written straight to the sink; the first failed write ends
      construction with an error. */
  function NewWriterExif(out: Sinks.Sink, exif: Option<seq<Byte>>): (r: Built)
    // The skipping writer starts with the two-byte SOI still to swallow, and
    // the sink holds exactly the composed header.
    ensures r.Built? ==>
      && r.w.bytesToSkip == SkipWriter.SoiLength
      && r.w.out.data == out.data + Header(exif)
    // A failed construction leaves only part of the header behind.
    ensures r.Failed? ==> out.data <= r.out.data <= out.data + Header(exif)
    ensures Sinks.Reliable(out) ==> r.Built?
  {
    var soi := Sinks.Put(out, Soi);
    if !soi.reply.ok then
      SoiOpensHeader(out.data, soi.sink.data, exif);
      Failed(soi.sink)
    else
      match exif
      case None =>
        Built(SkipWriter.Skipper(soi.sink, SkipWriter.SoiLength))
      case Some(e) =>
        HeaderAfterSoi(out.data, e);
        WriteApp1(soi.sink, e)
  }

  /** Part of the SOI marker is part of the header. */
  lemma SoiOpensHeader(before: seq<Byte>, after: seq<Byte>, exif: Option<seq<Byte>>)
    requires before <= after <= before + Soi
    ensures after <= before + Header(exif)
  {
    var h := Header(exif);
    assert h[..2] == Soi;
    assert (before + h)[..|before| + 2] == before + Soi;
    assert (before + h)[..|after|] == (before + Soi)[..|after|] == after;
  }

  lemma HeaderAfterSoi(before: seq<Byte>, e: seq<Byte>)
    ensures before + Header(Some(e)) == (before + Soi) + (App1Marker(e) + e)
  {
  }

  /** What a reader of the file finds at its start. */
  datatype Parsed = Parsed(exif: Option<seq<Byte>>, rest: seq<Byte>)

  /** A reader for the front of a JPEG file: expects SOI; if an APP1 segment
      follows, reads its length field and takes `length - 2` payload bytes. */
  function ReadHeader(b: seq<Byte>): Option<Parsed> {
    if |b| < 2 || b[..2] != Soi then
      None
    else if |b| >= 4 && b[2] == 0xFF && b[3] == App1 then
      if |b| < 6 then None
      else
        var length := Uint16(b[4], b[5]);
        if length < 2 || |b| < 4 + length then None
        else Some(Parsed(Some(b[6..4 + length]), b[4 + length..]))
    else
      Some(Parsed(None, b[2..]))
  }

  /** Round trip: a reader recovers the EXIF payload byte for byte, and finds
      whatever followed the header untouched, whenever the payload fits the
      length field. */
  lemma ReadHeaderRoundTrip(e: seq<Byte>, rest: seq<Byte>)
    requires |e| <= MaxExifLength
    ensures ReadHeader(Header(Some(e)) + rest) == Some(Parsed(Some(e), rest))
  {
    HeaderLayout(Some(e));
    var b := Header(Some(e)) + rest;
    assert b[..6] == Header(Some(e))[..6];
    assert Uint16(b[4], b[5]) == 2 + |e|;
    assert b[6..4 + (2 + |e|)] == e;
    assert b[4 + (2 + |e|)..] == rest;
  }

  /** Without EXIF, a reader finds no APP1 segment and the rest untouched,
      provided the rest does not itself open with an APP1 marker. */
  lemma ReadHeaderNoExif(rest: seq<Byte>)
    requires !(|rest| >= 2 && rest[0] == 0xFF && rest[1] == App1)
    ensures ReadHeader(Header(None) + rest) == Some(Parsed(None, rest))
  {
    var b := Header(None) + rest;
    assert b[..2] == Soi;
    assert b[2..] == rest;
  }

  /** Past `MaxExifLength` the wrapped length field breaks the round trip: a
      reader never recovers the payload that was written. */
  lemma OversizedExifNotRecovered(e: seq<Byte>, rest: seq<Byte>)
    requires |e| > MaxExifLength
    ensures ReadHeader(Header(Some(e)) + rest) != Some(Parsed(Some(e), rest))
  {
    HeaderLayout(Some(e));
    var b := Header(Some(e)) + rest;
    assert b[..6] == Header(Some(e))[..6];
    var length := Uint16(b[4], b[5]);
    assert length < 0x10000;
    var r := ReadHeader(b);
    if r.Some? && r.value.exif.Some? {
      assert |r.value.exif.value| == length - 2;
    }
  }
}
