# heic2jpg: the EXIF-prefixed JPEG writer, in Dafny

This project models the byte-level core of a HEIC-to-JPEG converter written in
Go (`app.go`). The converter does not parse or re-encode JPEG itself. Instead it
hands the standard JPEG encoder a wrapped output writer:

- On construction (`newWriterExif`), the wrapper writes a composed header to the
  output file. The header is the Start-Of-Image marker `FF D8`. When an EXIF
  slice is present, an APP1 marker segment follows: `FF E1`, a 2-byte big-endian
  length equal to `2 + len(exif)`, then the EXIF bytes. This is the marker
  segment layout of ITU-T T.81 (ISO/IEC 10918-1) section B.1.1.4, and the
  Exif standard (JEITA CP-3451) carries its data in that APP1 segment.
- The wrapper (`writerSkipper`) then swallows the first two bytes the encoder
  writes, which are the encoder's own Start-Of-Image marker. It does so however
  the encoder splits its writes. Every later byte is passed through unchanged.
- `Heic2jpg` names the output after the input: the same directory, the same
  base name, and the extension replaced by `.jpg`.

## Layout

| file | module | what it holds |
|---|---|---|
| `wrappers.dfy` | `Wrappers` | `Option`: `None` is a nil Go slice, `Some([])` an empty non-nil one |
| `bytes.dfy` | `Bytes` | `Byte`, Go's `uint8(x)` truncation, chunk concatenation, `Drop` |
| `sinks.dfy` | `Sinks` | the output `io.Writer`, with the outcome of each future call given as a script |
| `skip_writer.dfy` | `SkipWriter` | `writerSkipper.Write`, the encoder's sequence of writes, chunking independence |
| `exif_header.dfy` | `ExifHeader` | the composed header, `newWriterExif`, a reader for the header and its round trip |
| `conversion.dfy` | `Conversion` | `newWriterExif` followed by the encoder, as `Heic2jpg` wires them |
| `file_paths.dfy` | `FilePaths` | Go's `filepath.Base`, `Ext`, `Dir` and `Clean` on Unix paths |
| `naming.dfy` | `Naming` | the output name and output path, and that the output stays in the input's directory |

Modelling choices:

- Everything is a pure function over immutable values. The skipper is the
  record `Skipper(out, bytesToSkip)`, and the output file is a byte sequence
  that grows at its end.
- The underlying writer's behaviour is outside the program. It is a parameter
  of the sink: a script of outcomes for its future `Write` calls. Each outcome
  either accepts the whole buffer, or takes a prefix and reports an error. Calls
  past the end of the script are accepted. `Sinks.Reliable` names a sink that
  never fails.
- The JPEG encoder is an arbitrary byte stream, split into arbitrary chunks.
  The encoder stops at its first failed write: its buffered writer keeps the
  first error and never calls the underlying writer again.
- `uint8(markerlen >> 8)` and `uint8(markerlen & 0xff)` are written out as
  `(len / 256) % 256` and `len % 256`. So for a payload longer than 65533 bytes,
  the length field wraps around exactly as the Go code does.
  `ExifHeader.HeaderLayout` and `ExifHeader.OversizedExifNotRecovered` state
  what that does to a reader.
- `Heic2jpg` discards the constructor's error (`w, _ := newWriterExif(...)`).
  When construction fails, the encoder receives a nil writer, and its first
  write through that writer crashes. `Conversion.Convert` reports this as
  `Crashed`.

Three behaviours of the code that are easy to miss, all modelled as written:

- The APP1 segment is written for every non-nil EXIF slice, including an empty
  one (its length field is then `00 02`).
- A payload too long for the 16-bit length field is not rejected. The length
  field wraps.
- The output file is opened without truncation, and failures end the process
  through `log.Fatal`. Both are left out; see below.

## Model

| member | source | states |
|---|---|---|
| SkipWriter.Write | app.go:42-59 | With nothing left to skip, the chunk goes to the sink and the sink's reply is returned. A chunk shorter than the count left to skip writes nothing, lowers the count by its length and reports the full length written. Otherwise only the bytes past the skip point reach the sink. On success the count drops to 0 and the full chunk length is reported; on failure the count is unchanged and the reported count excludes the skipped prefix. A successful write is never short. |
| SkipWriter.Feed | app.go:42-59 | Over any sequence of writes, the skip count never rises and never goes below 0, the sink only grows at its end, and on a sink that never fails every write succeeds |
| SkipWriter.WriteThenDrop | app.go:42-59 | One successful write, followed by dropping what is still to be skipped from the rest of the stream, appends what dropping the original count from the whole stream would |
| SkipWriter.FeedDropsPrefix | app.go:42-59 | Chunking independence: for any split of the stream into chunks, a fully successful run appends exactly the concatenated stream minus its first `bytesToSkip` bytes, and leaves the count at what remains |
| SkipWriter.FreshFeedDropsSoi | app.go:42-62 | From the initial count of 2, a fully successful run appends the stream minus its first two bytes; the count ends at 0 once two bytes have gone by, and otherwise at 2 minus the bytes seen |
| SkipWriter.ChunkingIrrelevant | app.go:42-59 | Two splittings of the same stream that both succeed leave identical sink contents and identical counts |
| SkipWriter.OneWriteEqualsBytewise | app.go:42-59 | On a sink that never fails, one big write and one write per byte give byte-identical output |
| Bytes.Uint8 | app.go:71 | Go's `uint8` conversion keeps values already in 0..255 and otherwise differs from its argument by a multiple of 256 |
| ExifHeader.HeaderLayout | app.go:63-79 | The header starts `FF D8` and is nothing more for a nil slice. For a non-nil slice it is `FF D8 FF E1 hi lo` followed by the payload, with `hi*256+lo` equal to `(2+len) mod 65536`: exact up to 65533 payload bytes and different from `2+len` beyond that |
| ExifHeader.App1Marker | app.go:69-71 | The marker is four bytes, `FF E1` then a big-endian length field that a reader decodes as `(2+len) mod 65536` |
| ExifHeader.Header | app.go:63-79 | The header opens with SOI. It is exactly SOI for a nil slice. For a non-nil slice it is SOI, the APP1 marker for that payload, then the payload itself |
| ExifHeader.WriteApp1 | app.go:68-79 | The marker-and-length write, then the payload write. On success the sink gains exactly the APP1 segment; on a failure it gains only a prefix of it; on a sink that never fails it succeeds |
| ExifHeader.NewWriterExif | app.go:61-82 | A successful construction leaves the sink holding its old contents plus exactly the header, and returns a skipper whose count is 2. A failed one leaves only a prefix of the header. On a sink that never fails it always succeeds |
| ExifHeader.ReadHeaderRoundTrip | app.go:68-79 | A reader that follows the APP1 length field recovers the EXIF payload byte for byte, and what followed it untouched, whenever the payload is at most 65533 bytes |
| ExifHeader.ReadHeaderNoExif | app.go:63-68 | With a nil slice, a reader finds SOI, no APP1 segment, and the rest untouched (unless the rest itself opens with an APP1 marker) |
| ExifHeader.OversizedExifNotRecovered | app.go:70-71 | Past 65533 payload bytes, the wrapped length field means a reader never recovers the payload that was written |
| Conversion.Convert | app.go:116-121 | A successful conversion leaves the previous contents, the header, then the encoder's stream minus its first two bytes, whatever the chunking. The sink is only ever added to, and a sink that never fails always gives a successful conversion |
| Conversion.EmptyFileOutput | app.go:116-117 | Into an empty file on a sink that never fails, the output is the header followed by the stream minus its first two bytes |
| Conversion.ConvertReplacesSoi | app.go:116-117 | For an encoder stream that opens with `FF D8`, the output is that stream with its SOI replaced by the composed header; with no EXIF it is the encoder's stream itself |
| Conversion.ConvertedExifReadsBack | app.go:116-117 | Reading the converted file gives back the EXIF payload byte for byte, followed by the encoder's stream from its third byte on |
| FilePaths.Base | app.go:102 | The base name is never empty. It is `.` for the empty path and `/` for a path made of separators only, and only then does it contain a separator. Otherwise it is the last element once trailing separators are trimmed: the longest separator-free suffix of the trimmed path. For a path not ending in a separator, that is everything after the last separator |
| FilePaths.Ext | app.go:104 | The extension is empty exactly when every `.` in the path is followed by a later separator. Otherwise it is a suffix of the path that starts with `.` and contains no separator and no further `.` |
| FilePaths.Dir | app.go:109 | The directory is `.` for a path without a separator. It is never empty, and it starts at the root exactly when the path does. Which directory a path with a separator gives is stated by `FilePaths.DirOfFileInCleanDir` |
| FilePaths.Clean | app.go:109 | A cleaned path is never empty, and it starts at the root exactly when the input does. `FilePaths.CleanKeepsRelative` and `FilePaths.CleanKeepsRooted` state that ordinary elements are kept |
| FilePaths.CleanKeepsRelative | app.go:109 | A relative path of ordinary elements (no empty element, no `.` and no `..`) is left unchanged by cleaning |
| FilePaths.CleanKeepsRooted | app.go:109 | A rooted path of ordinary elements is left unchanged by cleaning |
| FilePaths.DirOfFileInCleanDir | app.go:109 | For a clean path `c` and a name `n` without a separator, the directory of `c/n` is `c` |
| FilePaths.DirOfOrdinaryPath | app.go:109 | The directory of `a/…/z/n`, rooted or not, is `a/…/z`; so `Dir("a/b") == "a"` |
| FilePaths.CleanIdempotent | app.go:109 | Cleaning a cleaned path changes nothing |
| FilePaths.CleanTrailingSeparator | app.go:109 | Adding a separator to a cleaned path and cleaning again gives the same path |
| Naming.ExtEndsBase | app.go:102-107 | The extension always ends the base name, so the slice `baseName[0:len(baseName)-len(ext)]` is always in range |
| Naming.OutputName | app.go:101-107 | For a path not ending in a separator, the output name is the base name up to its last `.` (all of it when it has none), followed by `.jpg`. For the empty path or a path ending in a separator, `.jpg` is appended to the base name as it stands |
| Naming.OutputPath | app.go:107-109 | For every input, `filepath.Dir` of the output path equals `filepath.Dir` of the input path, and the output path's extension is `.jpg`. Unless the input consists only of separators, the base name of the output path is the output name |

## Left out

- `main.go`: GUI menus, file and directory dialogs, directory walking and progress events. This is orchestration with no logic of its own.
- `NewApp`, `startup`, `Greet` (app.go:21-34): framework glue.
- HEIC decoding and EXIF extraction (`goheif.ExtractExif`, `goheif.Decode`, app.go:91-99) belong to a third-party library. The EXIF slice they yield is an input of the model, nil or not.
- JPEG pixel encoding (`jpeg.Encode`, app.go:117): the encoder is an arbitrary byte stream in arbitrary chunks.
- Opening, creating and closing files, `log.Printf`, and `log.Fatal`/`log.Fatalf`, which end the process. An encode failure is reported as `Conversion.EncodeFailed`; nothing is said about the process afterwards.
- The output file is opened with `O_RDWR|O_CREATE` and no truncation (app.go:109). Writes therefore start at offset 0 and overwrite an existing file in place, so a longer old file keeps its tail. The model's sink appends. The end-to-end lemmas start from an empty file.
- Conversion.ConvertReplacesSoi, Conversion.ConvertedExifReadsBack, Conversion.EmptyFileOutput: stated for an empty output file and a sink that never fails. A pre-existing file is not modelled (previous line). A failing sink is covered by `Conversion.Convert`.
- Naming.OutputPath: the base-name clause excludes inputs made only of separators. For those the output name is `/.jpg`, which itself contains a separator, so the output path's base name is `.jpg`.
- Sinks: an `io.Writer` that reports a short count with no error breaks the `io.Writer` contract and is not modelled. So the `n += w.bytesToSkip` step (app.go:53) is only reached with a full count.
- Go's `int` is 64 bits. `2 + len(exif)` cannot overflow for any slice that fits in memory, so it is modelled unbounded.
- `filepath.Base`, `Ext`, `Dir` and `Clean` are Go standard library code and are not part of this model's source. They are modelled from their documented behaviour on Unix. Windows volume names and `\` separators are not modelled.
- Two inputs that map to the same output path: the second conversion overwrites the first from offset 0, and if its output is shorter, the first one's tail remains (see the line on truncation above). This involves two conversions and the file system, and is not modelled.
