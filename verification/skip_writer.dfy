/** `writerSkipper` (app.go): a writer handed to the JPEG encoder that throws
    away the first two bytes the encoder writes (its own Start-Of-Image
    marker) and passes every later byte through to the real output. */
module SkipWriter {
  import opened Bytes
  import Sinks

  /** Length of the encoder's own Start-Of-Image marker, which is swallowed. */
  const SoiLength: int := 2

  datatype Skipper = Skipper(out: Sinks.Sink, bytesToSkip: int)

  datatype Step = Step(w: Skipper, reply: Sinks.Reply)

  /** Result of feeding a sequence of chunks: the final writer, and whether
      every write succeeded. */
  datatype Fed = Fed(w: Skipper, ok: bool)

  /** `writerSkipper.Write(data)`. */
  function Write(w: Skipper, data: seq<Byte>): (r: Step)
    ensures 0 <= r.reply.n <= |data|
    // Nothing left to skip: the chunk goes to the sink, and the sink's reply is the reply.
    ensures var n := r.reply.n;
      w.bytesToSkip <= 0 ==>
        && r.w.bytesToSkip == w.bytesToSkip
        && 0 <= n <= |data|
        && r.w.out.data == w.out.data + data[..n]
        && r.reply == Sinks.Put(w.out, data).reply
    // The chunk lies inside the skipped prefix: the sink is untouched, the
    // counter goes down by the chunk length, and the whole chunk is reported written.
    ensures 0 < w.bytesToSkip && |data| < w.bytesToSkip ==>
      && r.w.out == w.out
      && r.w.bytesToSkip == w.bytesToSkip - |data|
      && r.reply == Sinks.Reply(|data|, true)
    // The chunk reaches past the skipped prefix: only its tail is written; on
    // success the counter drops to 0 and the whole chunk is reported written.
    ensures 0 < w.bytesToSkip <= |data| && r.reply.ok ==>
      && r.w.out.data == w.out.data + data[w.bytesToSkip..]
      && r.w.bytesToSkip == 0
      && r.reply.n == |data|
    // On a sink failure the counter stays, and the count excludes the skipped prefix.
    ensures var k, n := w.bytesToSkip, r.reply.n;
      0 < k <= |data| && !r.reply.ok ==>
        && r.w.bytesToSkip == k
        && 0 <= n <= |data| - k
        && r.w.out.data == w.out.data + data[k..k + n]
    // The encoder never sees a short successful write.
    ensures r.reply.ok ==> r.reply.n == |data|
    ensures Sinks.Reliable(w.out) ==> r.reply.ok && Sinks.Reliable(r.w.out)
  {
    if w.bytesToSkip <= 0 then
      var u := Sinks.Put(w.out, data);
      Step(w.(out := u.sink), u.reply)
    else if |data| < w.bytesToSkip then
      Step(w.(bytesToSkip := w.bytesToSkip - |data|), Sinks.Reply(|data|, true))
    else
      var u := Sinks.Put(w.out, data[w.bytesToSkip..]);
      if u.reply.ok then
        Step(Skipper(u.sink, 0), Sinks.Reply(u.reply.n + w.bytesToSkip, true))
      else
        Step(w.(out := u.sink), u.reply)
  }

  /** The encoder writing `chunks` in order. It stops at the first failed write:
      the buffered writer inside the encoder keeps its first error and never
      calls the underlying writer again. */
  function Feed(w: Skipper, chunks: seq<seq<Byte>>): (r: Fed)
    // The counter never rises and never goes below zero.
    ensures 0 <= w.bytesToSkip ==> 0 <= r.w.bytesToSkip <= w.bytesToSkip
    // The sink only grows at its end.
    ensures w.out.data <= r.w.out.data
    ensures Sinks.Reliable(w.out) ==> r.ok
    decreases |chunks|
  {
    if chunks == [] then
      Fed(w, true)
    else
      var s := Write(w, chunks[0]);
      if !s.reply.ok then Fed(s.w, false) else Feed(s.w, chunks[1..])
  }

  /** What remains of a skip counter `k` after `n` bytes went through. */
  function Remaining(k: int, n: nat): int {
    if k <= 0 then k else if k <= n then 0 else k - n
  }

  /** One successful write followed by the rest of the stream: what the
      write appends plus what is dropped from the rest is what is dropped
      from the whole. */
  lemma WriteThenDrop(w: Skipper, c: seq<Byte>, rest: seq<Byte>)
    requires Write(w, c).reply.ok
    ensures Write(w, c).w.out.data + Drop(rest, Write(w, c).w.bytesToSkip)
         == w.out.data + Drop(c + rest, w.bytesToSkip)
    ensures Remaining(Write(w, c).w.bytesToSkip, |rest|) == Remaining(w.bytesToSkip, |c + rest|)
  {
    var k := w.bytesToSkip;
    var s := Write(w, c);
    if k <= 0 {
      assert s.w.out.data == w.out.data + c && s.w.bytesToSkip == k;
      assert (w.out.data + c) + rest == w.out.data + (c + rest);
    } else if |c| < k {
      assert s.w.out == w.out && s.w.bytesToSkip == k - |c|;
      DropPastChunk(c, rest, k);
    } else {
      assert s.w.out.data == w.out.data + c[k..] && s.w.bytesToSkip == 0;
      DropWithinChunk(c, rest, k);
      assert (w.out.data + c[k..]) + rest == w.out.data + (c[k..] + rest);
    }
  }

  lemma DropPastChunk(c: seq<Byte>, rest: seq<Byte>, k: int)
    requires 0 <= |c| < k
    ensures Drop(rest, k - |c|) == Drop(c + rest, k)
  {
  }

  lemma DropWithinChunk(c: seq<Byte>, rest: seq<Byte>, k: int)
    requires 0 < k <= |c|
    ensures c[k..] + rest == Drop(c + rest, k)
  {
    assert (c + rest)[k..] == c[k..] + rest;
  }

  /** Chunking independence: however the encoder splits its stream, a run in
      which every write succeeds appends exactly the stream minus its first
      `bytesToSkip` bytes, and leaves the counter at what is left of it. */
  lemma {:induction false} FeedDropsPrefix(w: Skipper, chunks: seq<seq<Byte>>)
    ensures Feed(w, chunks).ok ==>
      && Feed(w, chunks).w.out.data == w.out.data + Drop(Concat(chunks), w.bytesToSkip)
      && Feed(w, chunks).w.bytesToSkip == Remaining(w.bytesToSkip, |Concat(chunks)|)
    decreases |chunks|
  {
    if chunks != [] && Feed(w, chunks).ok {
      var c := chunks[0];
      var rest := Concat(chunks[1..]);
      assert Concat(chunks) == c + rest;
      assert Write(w, c).reply.ok;
      assert Feed(w, chunks) == Feed(Write(w, c).w, chunks[1..]);
      FeedDropsPrefix(Write(w, c).w, chunks[1..]);
      WriteThenDrop(w, c, rest);
    }
  }

  /** From a fresh writer, a fully successful run writes the stream with its
      first two bytes removed, and ends with nothing left to skip once two
      bytes have gone by. */
  lemma FreshFeedDropsSoi(out: Sinks.Sink, chunks: seq<seq<Byte>>)
    ensures var r := Feed(Skipper(out, SoiLength), chunks);
      r.ok ==>
        && r.w.out.data == out.data + Drop(Concat(chunks), SoiLength)
        && (|Concat(chunks)| >= SoiLength ==> r.w.bytesToSkip == 0)
        && (|Concat(chunks)| < SoiLength ==> r.w.bytesToSkip == SoiLength - |Concat(chunks)|)
  {
    FeedDropsPrefix(Skipper(out, SoiLength), chunks);
  }

  /** Two splittings of the same stream that both succeed give the same
      output and the same final counter. */
  lemma ChunkingIrrelevant(w: Skipper, a: seq<seq<Byte>>, b: seq<seq<Byte>>)
    requires Concat(a) == Concat(b)
    requires Feed(w, a).ok && Feed(w, b).ok
    ensures Feed(w, a).w.out.data == Feed(w, b).w.out.data
    ensures Feed(w, a).w.bytesToSkip == Feed(w, b).w.bytesToSkip
  {
    FeedDropsPrefix(w, a);
    FeedDropsPrefix(w, b);
  }

  /** On a sink that accepts everything, one big write and one write per byte
      produce byte-identical output. */
  lemma OneWriteEqualsBytewise(w: Skipper, s: seq<Byte>)
    requires Sinks.Reliable(w.out)
    ensures Feed(w, [s]).ok && Feed(w, Bytewise(s)).ok
    ensures Feed(w, [s]).w.out.data == Feed(w, Bytewise(s)).w.out.data
  {
    assert Concat([s]) == s + Concat([]);
    ConcatBytewise(s);
    ChunkingIrrelevant(w, [s], Bytewise(s));
  }
}
