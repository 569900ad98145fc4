/** The `io.Writer` the rewriter writes to (the output file). Its behaviour is
    outside the program, so each sink carries a script: the outcome of each of
    its future `Write` calls, in order. Calls past the end of the script are
    accepted in full. */
module Sinks {
  import opened Bytes

  /** What one `Write(p)` call does: take all of `p`, or take the first
      `taken` bytes of it (at most `|p|`) and report an error. */
  datatype Outcome = Accept | Reject(taken: nat)

  datatype Sink = Sink(data: seq<Byte>, script: seq<Outcome>)

  /** Go's `(n int, err error)` result; the error value itself is opaque. */
  datatype Reply = Reply(n: int, ok: bool)

  datatype Written = Written(sink: Sink, reply: Reply)

  /** A sink whose every scripted call is accepted. */
  predicate Reliable(s: Sink) {
    forall i :: 0 <= i < |s.script| ==> s.script[i] == Accept
  }

  /** One `Write(p)` on the sink, following the `io.Writer` contract: `n` bytes
      from the front of `p` are stored, and a short count comes with an error. */
  function Put(s: Sink, p: seq<Byte>): (r: Written)
    ensures var n := r.reply.n; 0 <= n <= |p| && r.sink.data == s.data + p[..n]
    ensures r.reply.ok ==> r.reply.n == |p|
    ensures r.reply.ok <==> (s.script == [] || s.script[0] == Accept)
    ensures Reliable(s) ==> r.reply.ok && Reliable(r.sink)
  {
    if s.script == [] then
      Written(s.(data := s.data + p), Reply(|p|, true))
    else
      match s.script[0]
      case Accept =>
        Written(Sink(s.data + p, s.script[1..]), Reply(|p|, true))
      case Reject(taken) =>
        var n := if taken < |p| then taken else |p|;
        Written(Sink(s.data + p[..n], s.script[1..]), Reply(n, false))
  }
}
