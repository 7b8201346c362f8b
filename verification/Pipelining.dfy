// The two envelopes agree: pipelining (section 3.1 of RFC 2920) refines one command, one reply.
// And a body sent in chunks is a body sent whole.

module Pipelining {
  import opened Octets
  import opened Errors
  import opened Session
  import opened Commands
  import opened Replies
  import opened World
  import DotStuffing
  import Responder

  // The bytes that went out.
  function WireBytes(trace: seq<Wire>): bytes {
    if trace == [] then []
    else
      var n := |trace| - 1;
      WireBytes(trace[..n]) + (if trace[n].Wrote? then trace[n].data else [])
  }

  lemma WireBytesSnoc(trace: seq<Wire>, wire: Wire)
    ensures WireBytes(trace + [wire]) == WireBytes(trace) + (if wire.Wrote? then wire.data else [])
  {
    assert (trace + [wire])[..|trace|] == trace;
  }

  predicate Reliable(w: World) {
    w.net.outcomes == [] && w.net.peer.Script?
  }

  // A write, and a flush, that nothing goes wrong with.
  lemma WritesOn(w: World, data: bytes)
    requires Reliable(w)
    ensures WriteAll(w, data) == Out(w.(net := w.net.(trace := w.net.trace + [Wrote(data)])), Ok(()))
  {
  }

  lemma FlushesOn(w: World)
    requires Reliable(w)
    ensures Flush(w) == Out(w.(net := w.net.(trace := w.net.trace + [Flushed])), Ok(()))
  {
  }

  // Two sessions that differ only in how they got where they are.
  predicate Twins(a: World, b: World) {
    a.(state := b.state, net := a.net.(trace := b.net.trace)) == b
  }

  // Twins whose states are equal too.
  predicate SameButTrace(a: World, b: World) {
    Twins(a, b) && a.state == b.state
  }

  function BytesOut(w: World): bytes {
    WireBytes(w.net.trace)
  }

  lemma Written(w: World, data: bytes)
    requires Reliable(w)
    ensures var out := WriteAll(w, data);
      && out.r == Ok(()) && Twins(w, out.w) && out.w.state == w.state && Reliable(out.w)
      && BytesOut(out.w) == BytesOut(w) + data
  {
    hide WireBytes;
    WireBytesSnoc(w.net.trace, Wrote(data));
  }

  // Reading does the same to twins, and nothing to the trace.
  lemma ReadTwins(a: World, b: World)
    requires Twins(a, b) && a.state != Closed && b.state != Closed
    ensures var p, q := ReadReply(a), ReadReply(b);
      && p.r == q.r && p.w.net.trace == a.net.trace && q.w.net.trace == b.net.trace
      && Twins(p.w, q.w)
      && (if p.r.Ok? then p.w.state == a.state && q.w.state == b.state else p.w.state == q.w.state == Closed)
      && (Reliable(a) ==> Reliable(p.w) && Reliable(q.w))
  {
    hide TakeReplyFrom;
  }

  lemma ExpectTwins(a: World, b: World, expected: nat, during: SmtpOp)
    requires Twins(a, b) && a.state != Closed && b.state != Closed && Reliable(a)
    ensures TwinStep(a, b, ExpectClass(a, expected, during), ExpectClass(b, expected, during))
    ensures TwinStep(a, b, ExpectCode(a, expected, during), ExpectCode(b, expected, during))
  {
    hide ReadReply;
    ReadTwins(a, b);
  }

  // A step that writes nothing, taken by twins.
  predicate TwinStep<T(==)>(a: World, b: World, p: Out<T>, q: Out<T>) {
    && p.r == q.r && p.w.net.trace == a.net.trace && q.w.net.trace == b.net.trace
    && Twins(p.w, q.w) && Reliable(p.w) && Reliable(q.w)
    && (if p.r.Ok? then p.w.state == a.state && q.w.state == b.state else p.w.state == q.w.state == Closed)
  }

  lemma RcptTwins(a: World, b: World)
    requires Twins(a, b) && a.state != Closed && b.state != Closed && Reliable(a)
    ensures TwinStep(a, b, ReadRcptReply(a), ReadRcptReply(b))
  {
    hide ReadReply;
    ReadTwins(a, b);
  }

  // The recipients: one side has sent every line already, the other sends them as it goes.
  predicate RcptsAgree(a: World, b: World, p: Out<()>, q: Out<()>, lines: bytes) {
    && p.r == q.r && p.w.net.trace == a.net.trace
    && Twins(p.w, q.w) && Reliable(p.w) && Reliable(q.w)
    && (if p.r.Ok? then p.w.state == a.state && q.w.state == b.state else p.w.state == q.w.state == Closed)
    && (if p.r.Ok? then BytesOut(q.w) == BytesOut(b) + lines else BytesOut(q.w) <= BytesOut(b) + lines)
  }

  lemma {:induction false} RcptsTwins(a: World, b: World, to: seq<bytes>)
    requires Twins(a, b) && a.state != Closed && b.state != Closed && Reliable(a)
    ensures RcptsAgree(a, b, ReadRcptReplies(a, |to|), SendRcpts(b, to), RcptLines(to))
    decreases |to|
  {
    hide ReadRcptReply, WriteAll, WireBytes, FormatRcptTo;
    if to == [] {
      assert BytesOut(b) + [] == BytesOut(b);
    } else {
      var line := FormatRcptTo(to[0]);
      Written(b, line);
      var b1 := WriteAll(b, line).w;
      RcptTwins(a, b1);
      var p, q := ReadRcptReply(a), ReadRcptReply(b1);
      Assoc(BytesOut(b), line, RcptLines(to[1..]));
      if p.r.Ok? {
        RcptsTwins(p.w, q.w, to[1..]);
      }
    }
  }

  // What follows the reply to MAIL FROM on either path.
  function PipelinedTail(w: World, to: seq<bytes>): Out<()> {
    var (w, _) :- ReadRcptReplies(w, |to|);
    var (w, _) :- ExpectCode(w, 354, SmtpOp.Data);
    Out(w, Ok(()))
  }

  function SequentialTail(w: World, to: seq<bytes>): Out<()> {
    var (w, _) :- SendRcpts(w, to);
    var (w, _) :- Transition(w, SessionState.Data);
    var (w, _) :- WriteAll(w, FormatCommand(DATA));
    var (w, _) :- ExpectCode(w, 354, SmtpOp.Data);
    Out(w, Ok(()))
  }

  // The two results agree, where `lines` is what the one-by-one side has to send in all.
  predicate Agree(before: bytes, p: Out<()>, q: Out<()>, lines: bytes) {
    && p.r == q.r && SameButTrace(p.w, q.w)
    && (if p.r.Ok? then BytesOut(q.w) == before + lines else BytesOut(q.w) <= before + lines)
  }

  lemma TailsAgree(a: World, b: World, to: seq<bytes>)
    requires Twins(a, b) && Reliable(a) && a.state == SessionState.Data && b.state == SessionState.RcptTo
    ensures Agree(BytesOut(b), PipelinedTail(a, to), SequentialTail(b, to), RcptLines(to) + FormatCommand(DATA))
    ensures PipelinedTail(a, to).w.net.trace == a.net.trace
  {
    hide WriteAll, ExpectCode, ReadRcptReplies, SendRcpts, WireBytes, FormatCommand;
    Assoc(BytesOut(b), RcptLines(to), FormatCommand(DATA));
    RcptsTwins(a, b, to);
    var p, q := ReadRcptReplies(a, |to|), SendRcpts(b, to);
    if p.r.Ok? {
      var b1 := q.w.(state := SessionState.Data);
      Written(b1, FormatCommand(DATA));
      var b2 := WriteAll(b1, FormatCommand(DATA)).w;
      ExpectTwins(p.w, b2, 354, SmtpOp.Data);
    }
  }

  // Both paths over the same replies, with every output operation succeeding: the same
  // result, the same events and the same session; the same bytes when they succeed, and when
  // they fail the one-by-one bytes are a front part of the pipelined ones.
  lemma EnvelopesAgree(w: World, line: bytes, to: seq<bytes>)
    requires w.state == SessionState.MailFrom && Reliable(w)
    ensures var p := PipelinedEnvelope(w, line, to); var q := SequentialEnvelope(w, line, to);
      && p.r == q.r && SameButTrace(p.w, q.w)
      && BytesOut(p.w) == BytesOut(w) + PipelineText(line, to)
      && (if p.r.Ok? then BytesOut(q.w) == BytesOut(p.w) else BytesOut(q.w) <= BytesOut(p.w))
  {
    hide WriteAll, ExpectClass, WireBytes, PipelineText, FormatCommand, PipelinedTail, SequentialTail, Flush;
    var text := PipelineText(line, to);
    assert text == line + (RcptLines(to) + FormatCommand(DATA)) by { PipelineTextIs(line, to); }
    Assoc(BytesOut(w), line, RcptLines(to) + FormatCommand(DATA));
    // pipelined, up to the replies
    var a0 := w.(state := SessionState.Data);
    Written(a0, text);
    var a1 := WriteAll(a0, text).w;
    Flushes(a1);
    var a2 := Flush(a1).w;
    // one by one, up to the first reply
    Written(w, line);
    var b1 := WriteAll(w, line).w;
    ExpectTwins(a2, b1, 2, SmtpOp.MailFrom);
    var pm, qm := ExpectClass(a2, 2, SmtpOp.MailFrom), ExpectClass(b1, 2, SmtpOp.MailFrom);
    if pm.r.Ok? {
      var a3 := Audit(pm.w, MailFromAccepted(pm.r.value.code));
      var b3 := Audit(qm.w, MailFromAccepted(pm.r.value.code)).(state := SessionState.RcptTo);
      TailsAgree(a3, b3, to);
      PipelinedUnfolds(w, line, to);
      SequentialUnfolds(w, line, to);
    }
  }

  lemma Flushes(w: World)
    requires Reliable(w)
    ensures Flush(w).r == Ok(()) && SameWire(w, Flush(w).w) && Reliable(Flush(w).w)
  {
    hide WireBytes;
    WireBytesSnoc(w.net.trace, Flushed);
  }

  lemma PipelinedUnfolds(w: World, line: bytes, to: seq<bytes>)
    requires w.state == SessionState.MailFrom
    ensures var text := PipelineText(line, to);
      var s := WriteAll(w.(state := SessionState.Data), text); var f := Flush(s.w);
      var m := ExpectClass(f.w, 2, SmtpOp.MailFrom);
      s.r.Ok? && f.r.Ok? && m.r.Ok? ==>
        PipelinedEnvelope(w, line, to) == PipelinedTail(Audit(m.w, MailFromAccepted(m.r.value.code)), to)
  {
    hide WriteAll, Flush, ExpectClass, ExpectCode, ReadRcptReplies, PipelineText;
  }

  lemma SequentialUnfolds(w: World, line: bytes, to: seq<bytes>)
    requires w.state == SessionState.MailFrom
    ensures var s := WriteAll(w, line); var m := ExpectClass(s.w, 2, SmtpOp.MailFrom);
      s.r.Ok? && m.r.Ok? && m.w.state == SessionState.MailFrom ==>
        SequentialEnvelope(w, line, to)
          == SequentialTail(Audit(m.w, MailFromAccepted(m.r.value.code)).(state := SessionState.RcptTo), to)
  {
    hide WriteAll, ExpectClass, ExpectCode, SendRcpts;
  }

  lemma PipelineTextIs(line: bytes, to: seq<bytes>)
    ensures PipelineText(line, to) == line + (RcptLines(to) + FormatCommand(DATA))
  {
    hide FormatCommand;
    Assoc(line, RcptLines(to), FormatCommand(DATA));
  }

  // ---------------------------------------------------------------------------
  // Chunks
  // ---------------------------------------------------------------------------

  // The same session, with the same bytes sent, perhaps in other pieces.
  predicate SameWire(a: World, b: World) {
    SameButTrace(a, b) && BytesOut(a) == BytesOut(b)
  }

  lemma WriteSameWire(a: World, b: World, data: bytes)
    requires SameWire(a, b) && a.net.outcomes == []
    ensures WriteAll(a, data).r == WriteAll(b, data).r == Ok(())
    ensures SameWire(WriteAll(a, data).w, WriteAll(b, data).w) && WriteAll(a, data).w.net.outcomes == []
  {
    hide WireBytes, Responder.Feed;
    WireBytesSnoc(a.net.trace, Wrote(data));
    WireBytesSnoc(b.net.trace, Wrote(data));
  }

  // Two writes are one write of both, also to a peer that answers.
  lemma WriteTwice(w: World, x: bytes, y: bytes)
    requires w.net.outcomes == []
    ensures SameWire(WriteAll(WriteAll(w, x).w, y).w, WriteAll(w, x + y).w)
  {
    hide WireBytes, Responder.Feed;
    var w1 := WriteAll(w, x).w;
    WireBytesSnoc(w.net.trace, Wrote(x));
    WireBytesSnoc(w1.net.trace, Wrote(y));
    WireBytesSnoc(w.net.trace, Wrote(x + y));
    Assoc(BytesOut(w), x, y);
    if w.net.peer.Live? {
      var m := w.net.peer.machine;
      Responder.FeedConcat(m, x, y);
      var f := Responder.Feed(m, x);
      Assoc(w.net.input, f.reply, Responder.Feed(f.peer, y).reply);
    }
  }

  // Streaming writes what one write of the stuffed whole would.
  lemma {:induction false} StreamIsOneWrite(w: World, fed: bytes, chunks: seq<bytes>)
    requires w.net.outcomes == []
    ensures var out := StreamBody(w, fed, chunks, true);
      && out.r == Ok(()) && out.w.net.outcomes == []
      && SameWire(out.w, WriteAll(w, DotStuffing.Streamed(fed, chunks)).w)
    decreases |chunks|
  {
    hide WriteAll, WireBytes, DotStuffing.StuffedChunk, DotStuffing.Terminator;
    if chunks == [] {
      assert SameWire(w, w);
      WriteSameWire(w, w, DotStuffing.Terminator(EndsWithCrlf(fed)));
    } else {
      var x := DotStuffing.StuffedChunk(fed, chunks[0]);
      var y := DotStuffing.Streamed(fed + chunks[0], chunks[1..]);
      assert SameWire(w, w);
      WriteSameWire(w, w, x);
      StreamIsOneWrite(WriteAll(w, x).w, fed + chunks[0], chunks[1..]);
      WriteTwice(w, x, y);
    }
  }

  lemma FinishSameWire(a: World, b: World)
    requires SameWire(a, b) && a.state == SessionState.Data
    ensures FinishMessage(a).r == FinishMessage(b).r
    ensures SameWire(FinishMessage(a).w, FinishMessage(b).w)
  {
    hide ReadReply, WireBytes;
    ReadTwins(a, b);
  }

  // A body handed over in any chunks is sent as the whole body would be: the same outcome, the
  // same events, the same session and the same bytes.
  lemma StreamingSendsTheBody(env: Env, w: World, from: bytes, to: seq<bytes>, chunks: seq<bytes>)
    requires w.net.outcomes == []
    requires env.checkSize(env.usizeMax) == env.checkSize(|Concat(chunks)|)
    ensures var s := SendMailStream(env, w, from, to, chunks, true);
      var b := SendMail(env, w, from, to, Concat(chunks));
      s.r == b.r && SameWire(s.w, b.w)
  {
    hide RunEnvelope, WriteAll, StreamBody, FinishMessage, ValidEnvelope, WireBytes, DotStuffing.Payload,
      DotStuffing.Streamed;
    var body := Concat(chunks);
    if ValidEnvelope(from, to) && w.state in {Authentication, SessionState.MailFrom}
      && CheckPolicy(env, w, from, to, |body|).r.Ok?
    {
      var envelope := RunEnvelope(w, FormatMailFrom(from), to);
      if envelope.r.Ok? {
        EnvelopeReliable(w, FormatMailFrom(from), to);
        StreamIsOneWrite(envelope.w, [], chunks);
        StreamedIsPayload(chunks);
        var s, b := StreamBody(envelope.w, [], chunks, true), WriteAll(envelope.w, DotStuffing.Payload(body));
        assert SameWire(envelope.w, envelope.w);
        WriteSameWire(envelope.w, envelope.w, DotStuffing.Payload(body));
        WriteKeepsState(envelope.w, DotStuffing.Payload(body));
        FinishSameWire(s.w, b.w);
      }
    }
  }

  lemma WriteKeepsState(w: World, data: bytes)
    requires w.net.outcomes == []
    ensures WriteAll(w, data).w.state == w.state
  {
    hide Responder.Feed;
  }

  lemma StreamedIsPayload(chunks: seq<bytes>)
    ensures DotStuffing.Streamed([], chunks) == DotStuffing.Payload(Concat(chunks))
  {
    hide DotStuffing.Streamed, DotStuffing.Payload, DotStuffing.Stuffed;
    DotStuffing.StreamingEqualsBatch([], chunks);
    assert [] + Concat(chunks) == Concat(chunks);
    assert DotStuffing.Stuffed([]) == [];
    assert [] + DotStuffing.Streamed([], chunks) == DotStuffing.Streamed([], chunks);
  }

  // With no output failures ahead an envelope leaves none ahead, and one that succeeds ends in
  // the Data state.
  lemma EnvelopeReliable(w: World, line: bytes, to: seq<bytes>)
    requires w.net.outcomes == [] && w.state in {Authentication, SessionState.MailFrom}
    requires RunEnvelope(w, line, to).r.Ok?
    ensures RunEnvelope(w, line, to).w.net.outcomes == []
    ensures RunEnvelope(w, line, to).w.state == SessionState.Data
  {
    hide PipelinedEnvelope, SequentialEnvelope, AdvertisesPipelining;
    var w0 := w.(state := SessionState.MailFrom);
    if AdvertisesPipelining(w.capabilities) {
      PipelinedReliable(w0, line, to);
    } else {
      SequentialReliable(w0, line, to);
    }
  }

  lemma PipelinedReliable(w: World, line: bytes, to: seq<bytes>)
    requires w.net.outcomes == [] && w.state == SessionState.MailFrom && PipelinedEnvelope(w, line, to).r.Ok?
    ensures var out := PipelinedEnvelope(w, line, to); out.w.net.outcomes == [] && out.w.state == SessionState.Data
  {
    hide WriteAll, Flush, ExpectClass, ExpectCode, ReadRcptReplies, PipelineText;
    var a0 := w.(state := SessionState.Data);
    var text := PipelineText(line, to);
    WriteSteady(a0, text);
    var a1 := WriteAll(a0, text).w;
    WriteSteady(a1, text);
    var a2 := Flush(a1).w;
    ExpectSteady(a2, 2, SmtpOp.MailFrom);
    var m := ExpectClass(a2, 2, SmtpOp.MailFrom);
    var a3 := Audit(m.w, MailFromAccepted(m.r.value.code));
    RcptRepliesSteady(a3, |to|);
    ExpectSteady(ReadRcptReplies(a3, |to|).w, 354, SmtpOp.Data);
  }

  lemma SequentialReliable(w: World, line: bytes, to: seq<bytes>)
    requires w.net.outcomes == [] && w.state == SessionState.MailFrom && SequentialEnvelope(w, line, to).r.Ok?
    ensures var out := SequentialEnvelope(w, line, to); out.w.net.outcomes == [] && out.w.state == SessionState.Data
  {
    hide WriteAll, ExpectClass, ExpectCode, SendRcpts, FormatCommand;
    WriteSteady(w, line);
    var b1 := WriteAll(w, line).w;
    ExpectSteady(b1, 2, SmtpOp.MailFrom);
    var m := ExpectClass(b1, 2, SmtpOp.MailFrom);
    var b2 := Audit(m.w, MailFromAccepted(m.r.value.code)).(state := SessionState.RcptTo);
    SendRcptsSteady(b2, to);
    var b3 := SendRcpts(b2, to).w.(state := SessionState.Data);
    WriteSteady(b3, FormatCommand(DATA));
    ExpectSteady(WriteAll(b3, FormatCommand(DATA)).w, 354, SmtpOp.Data);
  }

  // A step that leaves no output failures ahead and, when it succeeds, the state as it was.
  predicate Steady<T>(w: World, out: Out<T>) {
    out.w.net.outcomes == [] && (out.r.Ok? ==> out.w.state == w.state)
  }

  lemma WriteSteady(w: World, data: bytes)
    requires w.net.outcomes == []
    ensures WriteAll(w, data).r == Ok(()) && Steady(w, WriteAll(w, data))
    ensures Flush(w).r == Ok(()) && Steady(w, Flush(w))
  {
    hide Responder.Feed;
  }

  lemma ExpectSteady(w: World, expected: nat, during: SmtpOp)
    requires w.net.outcomes == []
    ensures Steady(w, ExpectClass(w, expected, during)) && Steady(w, ExpectCode(w, expected, during))
    ensures Steady(w, ReadRcptReply(w))
  {
    hide TakeReplyFrom;
  }

  lemma {:induction false} RcptRepliesSteady(w: World, count: nat)
    requires w.net.outcomes == []
    ensures Steady(w, ReadRcptReplies(w, count))
    decreases count
  {
    hide ReadRcptReply;
    if count > 0 {
      ExpectSteady(w, 2, SmtpOp.RcptTo);
      if ReadRcptReply(w).r.Ok? {
        RcptRepliesSteady(ReadRcptReply(w).w, count - 1);
      }
    }
  }

  lemma {:induction false} SendRcptsSteady(w: World, to: seq<bytes>)
    requires w.net.outcomes == []
    ensures Steady(w, SendRcpts(w, to))
    decreases |to|
  {
    hide ReadRcptReply, WriteAll, FormatRcptTo;
    if to != [] {
      WriteSteady(w, FormatRcptTo(to[0]));
      var w1 := WriteAll(w, FormatRcptTo(to[0])).w;
      ExpectSteady(w1, 2, SmtpOp.RcptTo);
      if ReadRcptReply(w1).r.Ok? {
        SendRcptsSteady(ReadRcptReply(w1).w, to[1..]);
      }
    }
  }
}
