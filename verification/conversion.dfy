/** The byte path of `Heic2jpg` (app.go): build the EXIF-prefixed writer over
    the output file, then let the JPEG encoder write its stream through it. */
module Conversion {
  import opened Bytes
  import opened Wrappers
  import Sinks
  import SkipWriter
  import ExifHeader

  /** How the encoding step ends, with the output file as it is left. */
  datatype Result =
    | Converted(out: Sinks.Sink)
      /** The encoder stopped on a write error (the source then exits the process). */
    | EncodeFailed(out: Sinks.Sink)
      /** The constructor failed; its error is discarded and the encoder is
          handed a nil writer, so the first write through it crashes. */
    | Crashed(out: Sinks.Sink)

  /** `w, _ := newWriterExif(fo, exif)` followed by `jpeg.Encode(w, …)`, the
      encoder's output given as the chunks it writes. */
  function Convert(out: Sinks.Sink, exif: Option<seq<Byte>>, encoded: seq<seq<Byte>>): (r: Result)
    // A successful conversion leaves the header followed by the encoder's
    // stream minus its first two bytes, however the stream was chunked.
    ensures r.Converted? ==>
      r.out.data == out.data + ExifHeader.Header(exif) + Drop(Concat(encoded), SkipWriter.SoiLength)
    // Whatever happens, what was in the sink is kept and only added to.
    ensures out.data <= r.out.data
    ensures Sinks.Reliable(out) ==> r.Converted?
  {
    match ExifHeader.NewWriterExif(out, exif)
    case Failed(sink) => Crashed(sink)
    case Built(w) =>
      var fed := SkipWriter.Feed(w, encoded);
      SkipWriter.FeedDropsPrefix(w, encoded);
      if fed.ok then Converted(fed.w.out) else EncodeFailed(fed.w.out)
  }

  /** Into an empty file, an encoder stream that opens with its own SOI comes
      out with that SOI replaced by the composed header; with no EXIF the file
      is the encoder's stream itself. */
  lemma ConvertReplacesSoi(out: Sinks.Sink, exif: Option<seq<Byte>>, encoded: seq<seq<Byte>>)
    requires out.data == [] && Sinks.Reliable(out)
    requires |Concat(encoded)| >= 2 && Concat(encoded)[..2] == ExifHeader.Soi
    ensures Convert(out, exif, encoded).Converted?
    ensures Convert(out, exif, encoded).out.data == ExifHeader.Header(exif) + Concat(encoded)[2..]
    ensures exif.None? ==> Convert(out, exif, encoded).out.data == Concat(encoded)
  {
    var s := Concat(encoded);
    IntoEmptyFile(out, exif, encoded);
    if exif.None? {
      RejoinSoi(s);
    }
  }

  /** Into an empty file, the output is the header and the stream minus two bytes. */
  lemma IntoEmptyFile(out: Sinks.Sink, exif: Option<seq<Byte>>, encoded: seq<seq<Byte>>)
    requires out.data == [] && Sinks.Reliable(out)
    requires |Concat(encoded)| >= 2
    ensures Convert(out, exif, encoded).Converted?
    ensures Convert(out, exif, encoded).out.data == ExifHeader.Header(exif) + Concat(encoded)[2..]
  {
    var s := Concat(encoded);
    EmptyFileOutput(out, exif, encoded);
    assert Drop(s, SkipWriter.SoiLength) == s[2..];
  }

  lemma RejoinSoi(s: seq<Byte>)
    requires |s| >= 2 && s[..2] == ExifHeader.Soi
    ensures ExifHeader.Header(None) + s[2..] == s
  {
    assert s == s[..2] + s[2..];
  }

  /** A reader of the converted file gets the EXIF payload back byte for byte
      and, after it, the encoder's stream from its third byte on. */
  lemma ConvertedExifReadsBack(out: Sinks.Sink, e: seq<Byte>, encoded: seq<seq<Byte>>)
    requires out.data == [] && Sinks.Reliable(out)
    requires |e| <= ExifHeader.MaxExifLength
    ensures Convert(out, Some(e), encoded).Converted?
    ensures ExifHeader.ReadHeader(Convert(out, Some(e), encoded).out.data)
         == Some(ExifHeader.Parsed(Some(e), Drop(Concat(encoded), SkipWriter.SoiLength)))
  {
    var rest := Drop(Concat(encoded), SkipWriter.SoiLength);
    EmptyFileOutput(out, Some(e), encoded);
    ExifHeader.ReadHeaderRoundTrip(e, rest);
  }

  /** Into an empty file, a conversion writes the header, then the encoder's
      stream minus its first two bytes. */
  lemma EmptyFileOutput(out: Sinks.Sink, exif: Option<seq<Byte>>, encoded: seq<seq<Byte>>)
    requires out.data == [] && Sinks.Reliable(out)
    ensures Convert(out, exif, encoded).Converted? && Convert(out, exif, encoded).out.data
         == ExifHeader.Header(exif) + Drop(Concat(encoded), SkipWriter.SoiLength)
  {
    var r := Convert(out, exif, encoded);
    EmptyFront(out.data, ExifHeader.Header(exif), Drop(Concat(encoded), SkipWriter.SoiLength));
  }

  lemma EmptyFront(front: seq<Byte>, h: seq<Byte>, rest: seq<Byte>)
    requires front == []
    ensures front + h + rest == h + rest
  {
  }
}
