// What the server's replies decide about a send: whether it succeeds, what it logs, with which
// codes, and what it returns. Everything is said with the replies of the stream alone.

module SendVerdicts {
  import opened Octets
  import opened Errors
  import opened EnhancedStatusCodes
  import opened Session
  import opened Commands
  import opened Replies
  import opened World
  import opened Pipelining
  import opened ReplyValues
  import DotStuffing

  // ---------------------------------------------------------------------------
  // The replies of a stream
  // ---------------------------------------------------------------------------

  // The codes of the next replies, this many of them, and what follows.
  function TakeCodes(stream: bytes, ending: Ending, count: nat): (r: Option<(seq<nat>, bytes)>)
    ensures r.Some? ==> |r.value.0| == count
    decreases count
  {
    if count == 0 then Some(([], stream))
    else
      match TakeReply(stream, ending)
      case NoReply(_) => None
      case GotReply(code, _, rest) =>
        match TakeCodes(rest, ending, count - 1)
        case None => None
        case Some(more) => Some(([code] + more.0, more.1))
  }

  predicate Positive(code: nat) {
    code / 100 == 2
  }

  predicate AllPositive(codes: seq<nat>) {
    forall i :: 0 <= i < |codes| ==> Positive(codes[i])
  }

  function AcceptedEvents(codes: seq<nat>): (d: seq<Event>)
    ensures |d| == |codes| && forall i :: 0 <= i < |codes| ==> d[i] == RecipientAccepted(codes[i])
  {
    seq(|codes|, i requires 0 <= i < |codes| => RecipientAccepted(codes[i]))
  }

  // ---------------------------------------------------------------------------
  // What is heard
  // ---------------------------------------------------------------------------

  // The reply that ends a send, and what was expected there.
  datatype Stop = Stop(during: SmtpOp, expectedClass: nat, reply: NextReply)

  datatype Progress = On(rest: bytes) | Off(stop: Stop)

  datatype Heard = Heard(events: seq<Event>, progress: Progress)

  function Stopped(events: seq<Event>, during: SmtpOp, expectedClass: nat, reply: NextReply): Heard {
    Heard(events + [SessionAborted], Off(Stop(during, expectedClass, reply)))
  }

  // The replies to n recipients. Only a 2xx accepts one; another reply rejects it.
  function HearRcpts(stream: bytes, ending: Ending, n: nat): Heard
    decreases n
  {
    if n == 0 then Heard([], On(stream))
    else
      var r := TakeReply(stream, ending);
      match r
      case NoReply(_) => Stopped([], SmtpOp.RcptTo, 2, r)
      case GotReply(code, _, rest) =>
        if !Positive(code) then Stopped([RecipientRejected(code)], SmtpOp.RcptTo, 2, r)
        else
          var h := HearRcpts(rest, ending, n - 1);
          Heard([RecipientAccepted(code)] + h.events, h.progress)
  }

  // The recipients, DATA.
  function HearTail(stream: bytes, ending: Ending, n: nat): Heard {
    var h := HearRcpts(stream, ending, n);
    match h.progress
    case Off(_) => h
    case On(rest) =>
      var data := TakeReply(rest, ending);
      if data.GotReply? && data.code == 354 then Heard(h.events, On(data.rest))
      else Stopped(h.events, SmtpOp.Data, 3, data)
  }

  // MAIL FROM, the recipients, DATA.
  function HearEnvelope(stream: bytes, ending: Ending, n: nat): Heard {
    var mail := TakeReply(stream, ending);
    if !(mail.GotReply? && Positive(mail.code)) then Stopped([], SmtpOp.MailFrom, 2, mail)
    else
      var h := HearTail(mail.rest, ending, n);
      Heard([MailFromAccepted(mail.code)] + h.events, h.progress)
  }

  // The whole send, with the reply to the message.
  function HearMessage(stream: bytes, ending: Ending, n: nat): Heard {
    var h := HearEnvelope(stream, ending, n);
    match h.progress
    case Off(_) => h
    case On(rest) =>
      var final := TakeReply(rest, ending);
      if final.GotReply? && Positive(final.code) then
        Heard(h.events + [MessageAccepted(final.code)], On(final.rest))
      else Stopped(h.events, SmtpOp.Data, 2, final)
  }

  // The error is the one this reply, or its absence, causes.
  ghost predicate StoppedBy(e: Error, enabled: bool, stop: Stop) {
    match stop.reply
    case NoReply(e') => e == e'
    case GotReply(code, lines, _) => UnexpectedFor(e, enabled, stop.during, stop.expectedClass, code, lines)
  }

  // A session does with its stream what was heard. Of the network only what was read and
  // written differs.
  ghost predicate Follows<T>(w: World, out: Out<T>, h: Heard, state: SessionState) {
    && out.w.audit == w.audit + h.events
    && match h.progress
       case On(rest) =>
         && out.r.Ok?
         && out.w == w.(state := state, audit := out.w.audit,
                        net := w.net.(input := rest, trace := out.w.net.trace))
       case Off(stop) => out.r.Err? && out.w.state == Closed && StoppedBy(out.r.error, w.enhanced, stop)
  }

  // ---------------------------------------------------------------------------
  // What hearing means
  // ---------------------------------------------------------------------------

  lemma FirstPositive(code: nat, codes: seq<nat>)
    ensures AllPositive([code] + codes) <==> Positive(code) && AllPositive(codes)
    ensures AllPositive([])
  {
    hide Positive;
    var all := [code] + codes;
    assert all[0] == code;
    assert forall i :: 0 <= i < |codes| ==> all[i + 1] == codes[i];
  }

  lemma FirstCode(code: nat, codes: seq<nat>)
    ensures AllPositive([code] + codes) <==> Positive(code) && AllPositive(codes)
    ensures AcceptedEvents([code] + codes) == [RecipientAccepted(code)] + AcceptedEvents(codes)
    ensures AllPositive([]) && AcceptedEvents([]) == []
  {
    hide Positive, AllPositive;
    FirstPositive(code, codes);
  }

  lemma {:induction false} RcptsMean(stream: bytes, ending: Ending, n: nat)
    ensures var h := HearRcpts(stream, ending, n); var t := TakeCodes(stream, ending, n);
      && (h.progress.On? <==> t.Some? && AllPositive(t.value.0))
      && (h.progress.On? ==> h == Heard(AcceptedEvents(t.value.0), On(t.value.1)))
    decreases n
  {
    hide TakeReplyFrom, Positive, AllPositive, AcceptedEvents;
    var r := TakeReply(stream, ending);
    FirstCode(0, []);
    if n > 0 && r.GotReply? {
      RcptsMean(r.rest, ending, n - 1);
      var t := TakeCodes(r.rest, ending, n - 1);
      if t.Some? {
        FirstCode(r.code, t.value.0);
      }
    }
  }

  // The replies that make a send to n recipients succeed: a 2xx, a 2xx for every recipient, a
  // 354 and a 2xx.
  predicate SendCodes(codes: seq<nat>, n: nat) {
    && |codes| == n + 3
    && Positive(codes[0]) && AllPositive(codes[1..n + 1]) && codes[n + 1] == 354 && Positive(codes[n + 2])
  }

  // A send is heard out exactly when these are the codes of its replies, and then every event
  // carries the code of its own reply.
  lemma HeardOut(stream: bytes, ending: Ending, n: nat)
    ensures var h := HearMessage(stream, ending, n); var t := TakeCodes(stream, ending, n + 3);
      && (h.progress.On? <==> t.Some? && SendCodes(t.value.0, n))
      && (h.progress.On? ==>
            && h.progress.rest == t.value.1
            && h.events == [MailFromAccepted(t.value.0[0])] + AcceptedEvents(t.value.0[1..n + 1])
                 + [MessageAccepted(t.value.0[n + 2])])
  {
    hide TakeReplyFrom, Positive, TakeCodes, HearRcpts, AllPositive;
    CodesSplit(stream, ending, 1, n + 2);
    OneCode(stream, ending);
    var mail := TakeReply(stream, ending);
    if mail.GotReply? {
      CodesSplit(mail.rest, ending, n, 2);
      RcptsMean(mail.rest, ending, n);
      var rcpts := TakeCodes(mail.rest, ending, n);
      if rcpts.Some? {
        CodesSplit(rcpts.value.1, ending, 1, 1);
        OneCode(rcpts.value.1, ending);
        var data := TakeReply(rcpts.value.1, ending);
        if data.GotReply? {
          OneCode(data.rest, ending);
          var final := TakeReply(data.rest, ending);
          if final.GotReply? {
            Pieces(mail.code, rcpts.value.0, data.code, final.code);
          }
        }
      }
    }
  }

  lemma Pieces(mail: nat, rcpts: seq<nat>, data: nat, final: nat)
    ensures var codes := [mail] + (rcpts + ([data] + [final])); var n := |rcpts|;
      && |codes| == n + 3 && codes[0] == mail && codes[1..n + 1] == rcpts
      && codes[n + 1] == data && codes[n + 2] == final
  {
  }

  lemma OneCode(stream: bytes, ending: Ending)
    ensures TakeCodes(stream, ending, 1) ==
      match TakeReply(stream, ending) case NoReply(_) => None case GotReply(code, _, rest) => Some(([code], rest))
  {
    hide TakeReplyFrom;
    var r := TakeReply(stream, ending);
    if r.GotReply? {
      assert TakeCodes(r.rest, ending, 0) == Some(([], r.rest));
      assert [r.code] + [] == [r.code];
    }
  }

  lemma {:induction false} CodesSplit(stream: bytes, ending: Ending, m: nat, n: nat)
    ensures TakeCodes(stream, ending, m + n) ==
      match TakeCodes(stream, ending, m)
      case None => None
      case Some(a) =>
        match TakeCodes(a.1, ending, n)
        case None => None
        case Some(b) => Some((a.0 + b.0, b.1))
    decreases m
  {
    hide TakeReplyFrom;
    if m == 0 {
      var b := TakeCodes(stream, ending, n);
      if b.Some? {
        assert [] + b.value.0 == b.value.0;
      }
    } else {
      var r := TakeReply(stream, ending);
      if r.GotReply? {
        CodesSplit(r.rest, ending, m - 1, n);
        var a := TakeCodes(r.rest, ending, m - 1);
        if a.Some? {
          var b := TakeCodes(a.value.1, ending, n);
          if b.Some? {
            assert [r.code] + a.value.0 + b.value.0 == [r.code] + (a.value.0 + b.value.0);
          }
        }
      }
    }
  }

  // The first recipient that is not answered by a 2xx is the rejected one: the ones before it
  // are logged as accepted, each with its own code, and it with its own.
  lemma {:induction false} FirstRejection(stream: bytes, ending: Ending, n: nat, k: nat)
    requires k < n && TakeCodes(stream, ending, k + 1).Some?
    requires var codes := TakeCodes(stream, ending, k + 1).value.0;
      AllPositive(codes[..k]) && !Positive(codes[k])
    ensures var codes := TakeCodes(stream, ending, k + 1).value.0; var h := HearRcpts(stream, ending, n);
      && h.events == AcceptedEvents(codes[..k]) + [RecipientRejected(codes[k]), SessionAborted]
      && h.progress.Off? && h.progress.stop.reply.GotReply? && h.progress.stop.reply.code == codes[k]
      && h.progress.stop.during == SmtpOp.RcptTo && h.progress.stop.expectedClass == 2
    decreases k
  {
    hide TakeReplyFrom, Positive, AllPositive, AcceptedEvents;
    var r := TakeReply(stream, ending);
    var codes := TakeCodes(stream, ending, k + 1).value.0;
    var more := TakeCodes(r.rest, ending, k).value.0;
    assert codes == [r.code] + more;
    FirstCode(0, []);
    if k == 0 {
      assert codes[..0] == [];
      assert [] + [RecipientRejected(r.code), SessionAborted] == [RecipientRejected(r.code)] + [SessionAborted];
    } else {
      assert codes[..k] == [r.code] + more[..k - 1];
      FirstCode(r.code, more[..k - 1]);
      FirstRejection(r.rest, ending, n - 1, k - 1);
    }
  }

  // ---------------------------------------------------------------------------
  // The client follows the replies
  // ---------------------------------------------------------------------------

  lemma RcptFollows(w: World)
    requires w.state != Closed
    ensures var out := ReadRcptReply(w);
      match TakeReply(w.net.input, w.net.ending)
      case NoReply(e) => out == Out(Abort(w), Err(e))
      case GotReply(code, lines, rest) =>
        if Positive(code) then
          out == Out(w.(audit := w.audit + [RecipientAccepted(code)], net := w.net.(input := rest)), Ok(()))
        else
          && out.w.audit == w.audit + [RecipientRejected(code), SessionAborted] && out.w.state == Closed
          && out.r.Err? && UnexpectedFor(out.r.error, w.enhanced, SmtpOp.RcptTo, 2, code, lines)
  {
    hide TakeReplyFrom, ReadReply, Tells;
    Read(w);
    var r := TakeReply(w.net.input, w.net.ending);
    if r.GotReply? && !Positive(r.code) {
      assert w.audit + [RecipientRejected(r.code)] + [SessionAborted]
          == w.audit + [RecipientRejected(r.code), SessionAborted];
    }
  }

  lemma {:induction false} RcptsFollow(w: World, n: nat)
    requires w.state != Closed
    ensures Follows(w, ReadRcptReplies(w, n), HearRcpts(w.net.input, w.net.ending, n), w.state)
    decreases n
  {
    hide TakeReplyFrom, ReadRcptReply, UnexpectedFor, Positive;
    if n == 0 {
      assert w.audit + [] == w.audit;
    } else {
      RcptFollows(w);
      var r := TakeReply(w.net.input, w.net.ending);
      if r.GotReply? {
        if Positive(r.code) {
          var w' := ReadRcptReply(w).w;
          RcptsFollow(w', n - 1);
          var h := HearRcpts(r.rest, w.net.ending, n - 1);
          assert w.audit + [RecipientAccepted(r.code)] + h.events == w.audit + ([RecipientAccepted(r.code)] + h.events);
        } else {
          assert [RecipientRejected(r.code)] + [SessionAborted] == [RecipientRejected(r.code), SessionAborted];
        }
      } else {
        assert [] + [SessionAborted] == [SessionAborted];
      }
    }
  }

  lemma TailFollows(w: World, to: seq<bytes>)
    requires w.state == SessionState.Data
    ensures Follows(w, PipelinedTail(w, to), HearTail(w.net.input, w.net.ending, |to|), SessionState.Data)
  {
    hide TakeReplyFrom, ReadRcptReplies, ExpectCode, UnexpectedFor, HearRcpts;
    RcptsFollow(w, |to|);
    var out, h := ReadRcptReplies(w, |to|), HearRcpts(w.net.input, w.net.ending, |to|);
    if h.progress.On? {
      ExpectedCode(out.w, 354, SmtpOp.Data);
      assert w.audit + h.events + [SessionAborted] == w.audit + (h.events + [SessionAborted]);
    }
  }

  // What a pipelined envelope does once it has been written.
  function AfterWrite(w: World, to: seq<bytes>): Out<()> {
    var (w, reply) :- ExpectClass(w, 2, SmtpOp.MailFrom);
    PipelinedTail(Audit(w, MailFromAccepted(reply.code)), to)
  }

  lemma AfterWriteFollows(w: World, to: seq<bytes>)
    requires w.state == SessionState.Data
    ensures Follows(w, AfterWrite(w, to), HearEnvelope(w.net.input, w.net.ending, |to|), SessionState.Data)
  {
    hide TakeReplyFrom, ExpectClass, UnexpectedFor, HearTail, PipelinedTail, Positive;
    ExpectedClass(w, 2, SmtpOp.MailFrom);
    var m := ExpectClass(w, 2, SmtpOp.MailFrom);
    var r := TakeReply(w.net.input, w.net.ending);
    assert [] + [SessionAborted] == [SessionAborted];
    ClassTwo(r);
    if m.r.Ok? {
      TailFollows(Audit(m.w, MailFromAccepted(m.r.value.code)), to);
      var h := HearTail(r.rest, w.net.ending, |to|);
      assert w.audit + [MailFromAccepted(r.code)] + h.events == w.audit + ([MailFromAccepted(r.code)] + h.events);
    }
  }

  // The session after a pipelined envelope has been written and flushed.
  function Pipelined(w: World, text: bytes): World {
    w.(state := SessionState.Data, net := w.net.(trace := w.net.trace + [Wrote(text)] + [Flushed]))
  }

  lemma PipelinedIs(w: World, line: bytes, to: seq<bytes>)
    requires w.state == SessionState.MailFrom && Reliable(w)
    ensures PipelinedEnvelope(w, line, to) == AfterWrite(Pipelined(w, PipelineText(line, to)), to)
  {
    hide WriteAll, Flush, ExpectClass, ExpectCode, ReadRcptReplies, PipelineText;
    var text := PipelineText(line, to);
    var w0 := w.(state := SessionState.Data);
    WritesOn(w0, text);
    FlushesOn(WriteAll(w0, text).w);
  }

  lemma PipelinedFollows(w: World, line: bytes, to: seq<bytes>)
    requires w.state == SessionState.MailFrom && Reliable(w)
    ensures Follows(w, PipelinedEnvelope(w, line, to), HearEnvelope(w.net.input, w.net.ending, |to|), SessionState.Data)
  {
    hide AfterWrite, PipelinedEnvelope, HearEnvelope, PipelineText, StoppedBy;
    PipelinedIs(w, line, to);
    AfterWriteFollows(Pipelined(w, PipelineText(line, to)), to);
  }

  lemma ClassTwo(r: NextReply)
    ensures r.GotReply? ==> (Positive(r.code) <==> r.code / 100 == 2)
  {
  }

  // Whichever path the envelope takes.
  lemma EnvelopeFollows(w: World, line: bytes, to: seq<bytes>)
    requires w.state in {Authentication, SessionState.MailFrom} && Reliable(w)
    ensures Follows(w, RunEnvelope(w, line, to), HearEnvelope(w.net.input, w.net.ending, |to|), SessionState.Data)
  {
    hide PipelinedEnvelope, SequentialEnvelope, AdvertisesPipelining, HearEnvelope, PipelineText, WireBytes, StoppedBy;
    var w0 := w.(state := SessionState.MailFrom);
    PipelinedFollows(w0, line, to);
    EnvelopesAgree(w0, line, to);
  }

  // From the go-ahead on: the message goes out, by this step, and is answered.
  lemma MessageFollows(w: World, envelope: Out<()>, body: Out<()>, n: nat)
    requires Follows(w, envelope, HearEnvelope(w.net.input, w.net.ending, n), SessionState.Data) && envelope.r.Ok?
    requires body.r.Ok? && body.w == envelope.w.(net := envelope.w.net.(trace := body.w.net.trace))
    ensures var out := FinishMessage(body.w);
      && Follows(w, out, HearMessage(w.net.input, w.net.ending, n), SessionState.MailFrom)
      && (out.r.Ok? ==> out.r.value == Outcome(w.net.input, w.net.ending, n))
  {
    hide TakeReplyFrom, ExpectClass, UnexpectedFor, HearEnvelope, Positive;
    ExpectedClass(body.w, 2, SmtpOp.Data);
    var h := HearEnvelope(w.net.input, w.net.ending, n);
    var r := TakeReply(h.progress.rest, w.net.ending);
    ClassTwo(r);
    assert w.audit + h.events + [SessionAborted] == w.audit + (h.events + [SessionAborted]);
    if r.GotReply? {
      assert w.audit + h.events + [MessageAccepted(r.code)] == w.audit + (h.events + [MessageAccepted(r.code)]);
    }
  }

  // What a send that is heard out returns: the code and the text of the reply to the message.
  function Outcome(stream: bytes, ending: Ending, n: nat): SendOutcome {
    var h := HearEnvelope(stream, ending, n);
    match h.progress
    case Off(_) => SendOutcome(0, [])
    case On(rest) =>
      match TakeReply(rest, ending)
      case NoReply(_) => SendOutcome(0, [])
      case GotReply(code, lines, _) => SendOutcome(code, JoinLines(Decoded(lines)))
  }

  // ---------------------------------------------------------------------------
  // The verdict on a send
  // ---------------------------------------------------------------------------

  // A send that is not allowed leaves everything as it is; one that is allowed does with the
  // stream exactly what was heard, and returns what the last reply says.
  ghost predicate Verdict(w: World, out: Out<SendOutcome>, allowed: bool, n: nat) {
    if !allowed then out.w == w && out.r.Err? && out.r.error.IsRefusal()
    else
      && Follows(w, out, HearMessage(w.net.input, w.net.ending, n), SessionState.MailFrom)
      && (out.r.Ok? ==> out.r.value == Outcome(w.net.input, w.net.ending, n))
  }

  predicate StateAllows(w: World) {
    w.state in {Authentication, SessionState.MailFrom}
  }

  // Every one of the application's three checks.
  predicate PolicyAllows(env: Env, from: bytes, to: seq<bytes>, size: nat) {
    && env.checkSender(from)
    && env.checkRecipients(to)
    && env.checkSize(size)
  }

  function Failed(e: Out<()>): Out<SendOutcome>
    requires e.r.Err?
  {
    Out(e.w, Err(e.r.error))
  }

  lemma FailedFollows<T>(w: World, envelope: Out<()>, out: Out<T>, n: nat)
    requires Follows(w, envelope, HearEnvelope(w.net.input, w.net.ending, n), SessionState.Data)
    requires envelope.r.Err? && out == Out(envelope.w, Err(envelope.r.error))
    ensures Follows(w, out, HearMessage(w.net.input, w.net.ending, n), SessionState.MailFrom)
  {
    hide HearEnvelope, StoppedBy;
  }

  // send_mail and send_mail_bytes.
  lemma SendMailVerdict(env: Env, w: World, from: bytes, to: seq<bytes>, body: bytes)
    requires Reliable(w)
    ensures Verdict(w, SendMail(env, w, from, to, body),
                    ValidEnvelope(from, to) && StateAllows(w) && PolicyAllows(env, from, to, |body|), |to|)
  {
    hide RunEnvelope, WriteAll, FinishMessage, ValidEnvelope, DotStuffing.Payload, FormatMailFrom, Follows, HearMessage,
      HearEnvelope, Outcome;
    if ValidEnvelope(from, to) && StateAllows(w) && PolicyAllows(env, from, to, |body|) {
      EnvelopeFollows(w, FormatMailFrom(from), to);
      BodyFollows(w, FormatMailFrom(from), to, body);
    }
  }

  lemma BodyFollows(w: World, line: bytes, to: seq<bytes>, body: bytes)
    requires Reliable(w) && StateAllows(w)
    ensures var e := RunEnvelope(w, line, to); var h := HearMessage(w.net.input, w.net.ending, |to|);
      if e.r.Err? then Follows(w, Failed(e), h, SessionState.MailFrom)
      else
        var s := WriteAll(e.w, DotStuffing.Payload(body)); var out := FinishMessage(s.w);
        && s.r.Ok?
        && Follows(w, out, h, SessionState.MailFrom)
        && (out.r.Ok? ==> out.r.value == Outcome(w.net.input, w.net.ending, |to|))
  {
    hide RunEnvelope, WriteAll, FinishMessage, DotStuffing.Payload, Follows, HearMessage, HearEnvelope, Outcome;
    EnvelopeFollows(w, line, to);
    var e := RunEnvelope(w, line, to);
    if e.r.Err? {
      FailedFollows(w, e, Failed(e), |to|);
    } else {
      StaysReliable(w, e, HearEnvelope(w.net.input, w.net.ending, |to|));
      WritesOn(e.w, DotStuffing.Payload(body));
      MessageFollows(w, e, WriteAll(e.w, DotStuffing.Payload(body)), |to|);
    }
  }

  lemma StaysReliable(w: World, out: Out<()>, h: Heard)
    requires Reliable(w) && Follows(w, out, h, SessionState.Data) && out.r.Ok?
    ensures Reliable(out.w)
  {
  }

  // An SMTPUTF8 send. Without the extension the session is given up and nothing is sent.
  lemma SendMailUtf8Verdict(env: Env, w: World, from: bytes, to: seq<bytes>, body: bytes)
    requires Reliable(w)
    ensures var out := SendMailUtf8(env, w, from, to, body);
      if ValidEnvelopeUtf8(from, to) && StateAllows(w) && !Advertises(w.capabilities, KW_SMTPUTF8) then
        out == Out(Abort(w), Err(ExtensionUnavailable(KW_SMTPUTF8)))
      else
        Verdict(w, out, ValidEnvelopeUtf8(from, to) && StateAllows(w) && PolicyAllows(env, from, to, |body|), |to|)
  {
    hide RunEnvelope, WriteAll, FinishMessage, ValidEnvelopeUtf8, DotStuffing.Payload, FormatMailFromUtf8, Follows,
      HearMessage, HearEnvelope, Outcome, Advertises;
    if ValidEnvelopeUtf8(from, to) && StateAllows(w) && PolicyAllows(env, from, to, |body|) {
      EnvelopeFollows(w, FormatMailFromUtf8(from), to);
      BodyFollows(w, FormatMailFromUtf8(from), to, body);
    }
  }

  // A streamed send from a source that does not fail; the policy is asked about the unknown size.
  lemma SendMailStreamVerdict(env: Env, w: World, from: bytes, to: seq<bytes>, chunks: seq<bytes>)
    requires Reliable(w)
    ensures Verdict(w, SendMailStream(env, w, from, to, chunks, true),
                    ValidEnvelope(from, to) && StateAllows(w) && PolicyAllows(env, from, to, env.usizeMax), |to|)
  {
    hide RunEnvelope, StreamBody, FinishMessage, ValidEnvelope, FormatMailFrom, Follows, HearMessage, HearEnvelope,
      Outcome;
    if ValidEnvelope(from, to) && StateAllows(w) && PolicyAllows(env, from, to, env.usizeMax) {
      var line := FormatMailFrom(from);
      EnvelopeFollows(w, line, to);
      var e := RunEnvelope(w, line, to);
      if e.r.Err? {
        FailedFollows(w, e, Failed(e), |to|);
      } else {
        StaysReliable(w, e, HearEnvelope(w.net.input, w.net.ending, |to|));
        StreamOn(e.w, [], chunks);
        MessageFollows(w, e, StreamBody(e.w, [], chunks, true), |to|);
      }
    }
  }

  lemma {:induction false} StreamOn(w: World, fed: bytes, chunks: seq<bytes>)
    requires Reliable(w)
    ensures var out := StreamBody(w, fed, chunks, true);
      out.r.Ok? && out.w == w.(net := w.net.(trace := out.w.net.trace))
    decreases |chunks|
  {
    hide WriteAll, DotStuffing.StuffedChunk, DotStuffing.Terminator;
    if chunks == [] {
      WritesOn(w, DotStuffing.Terminator(EndsWithCrlf(fed)));
    } else {
      WritesOn(w, DotStuffing.StuffedChunk(fed, chunks[0]));
      StreamOn(WriteAll(w, DotStuffing.StuffedChunk(fed, chunks[0])).w, fed + chunks[0], chunks[1..]);
    }
  }

  // A source that fails: if the server lets the message begin, it is given up there.
  lemma BrokenSourceVerdict(env: Env, w: World, from: bytes, to: seq<bytes>, chunks: seq<bytes>)
    requires Reliable(w)
    requires ValidEnvelope(from, to) && StateAllows(w) && PolicyAllows(env, from, to, env.usizeMax)
    ensures var out := SendMailStream(env, w, from, to, chunks, false);
      var h := HearEnvelope(w.net.input, w.net.ending, |to|);
      && out.r.Err? && out.w.state == Closed
      && match h.progress
         case Off(stop) => out.w.audit == w.audit + h.events && StoppedBy(out.r.error, w.enhanced, stop)
         case On(_) => out.w.audit == w.audit + (h.events + [SessionAborted]) && out.r.error == Io
  {
    hide RunEnvelope, StreamBody, ValidEnvelope, FormatMailFrom, HearEnvelope, StoppedBy, PolicyAllows;
    var line := FormatMailFrom(from);
    EnvelopeFollows(w, line, to);
    PolicyPasses(env, w, from, to);
    var e := RunEnvelope(w, line, to);
    var h := HearEnvelope(w.net.input, w.net.ending, |to|);
    if e.r.Ok? {
      StaysReliable(w, e, h);
      StreamBreaks(e.w, [], chunks);
      assert w.audit + h.events + [SessionAborted] == w.audit + (h.events + [SessionAborted]);
    }
  }

  lemma PolicyPasses(env: Env, w: World, from: bytes, to: seq<bytes>)
    requires PolicyAllows(env, from, to, env.usizeMax)
    ensures CheckPolicy(env, w, from, to, env.usizeMax) == Out(w, Ok(()))
  {
  }

  lemma {:induction false} StreamBreaks(w: World, fed: bytes, chunks: seq<bytes>)
    requires Reliable(w) && w.state != Closed
    ensures var out := StreamBody(w, fed, chunks, false);
      out.r == Err(Io) && out.w.state == Closed && out.w.audit == w.audit + [SessionAborted]
    decreases |chunks|
  {
    hide WriteAll, DotStuffing.StuffedChunk;
    if chunks != [] {
      WritesOn(w, DotStuffing.StuffedChunk(fed, chunks[0]));
      StreamBreaks(WriteAll(w, DotStuffing.StuffedChunk(fed, chunks[0])).w, fed + chunks[0], chunks[1..]);
    }
  }

  // So a send succeeds if and only if it is allowed and the next replies are a 2xx, a 2xx for
  // every recipient, a 354 and a 2xx; and then it logs the codes of exactly these replies.
  ghost predicate Succeeds(w: World, out: Out<SendOutcome>, allowed: bool, n: nat) {
    var t := TakeCodes(w.net.input, w.net.ending, n + 3);
    && (out.r.Ok? <==> allowed && t.Some? && SendCodes(t.value.0, n))
    && (out.r.Ok? ==>
          && out.w.net.input == t.value.1
          && out.w.audit == w.audit + ([MailFromAccepted(t.value.0[0])] + AcceptedEvents(t.value.0[1..n + 1])
               + [MessageAccepted(t.value.0[n + 2])]))
  }

  lemma VerdictMeans(w: World, out: Out<SendOutcome>, allowed: bool, n: nat)
    requires Verdict(w, out, allowed, n)
    ensures Succeeds(w, out, allowed, n)
  {
    hide HearMessage, SendCodes, TakeCodes, StoppedBy;
    HeardOut(w.net.input, w.net.ending, n);
    LongEnough(w.net.input, w.net.ending, n);
  }

  lemma LongEnough(stream: bytes, ending: Ending, n: nat)
    ensures var t := TakeCodes(stream, ending, n + 3); t.Some? && SendCodes(t.value.0, n) ==> |t.value.0| == n + 3
  {
  }

  lemma SendSucceeds(env: Env, w: World, from: bytes, to: seq<bytes>, body: bytes)
    requires Reliable(w)
    ensures Succeeds(w, SendMail(env, w, from, to, body),
                     ValidEnvelope(from, to) && StateAllows(w) && PolicyAllows(env, from, to, |body|), |to|)
    ensures Succeeds(w, SendMailUtf8(env, w, from, to, body),
                     && ValidEnvelopeUtf8(from, to) && StateAllows(w) && Advertises(w.capabilities, KW_SMTPUTF8)
                     && PolicyAllows(env, from, to, |body|), |to|)
  {
    hide SendMail, SendMailUtf8, Verdict, Succeeds, ValidEnvelope, ValidEnvelopeUtf8, Advertises, PolicyAllows;
    SendMailVerdict(env, w, from, to, body);
    VerdictMeans(w, SendMail(env, w, from, to, body),
      ValidEnvelope(from, to) && StateAllows(w) && PolicyAllows(env, from, to, |body|), |to|);
    SendMailUtf8Verdict(env, w, from, to, body);
    var out := SendMailUtf8(env, w, from, to, body);
    if ValidEnvelopeUtf8(from, to) && StateAllows(w) && !Advertises(w.capabilities, KW_SMTPUTF8) {
      NeverSucceeds(w, out, |to|);
    } else {
      VerdictMeans(w, out, ValidEnvelopeUtf8(from, to) && StateAllows(w) && PolicyAllows(env, from, to, |body|), |to|);
    }
  }

  lemma NeverSucceeds(w: World, out: Out<SendOutcome>, n: nat)
    requires out.r.Err?
    ensures Succeeds(w, out, false, n)
  {
  }

  // A streamed send succeeds if and only if, besides, its source does not fail.
  lemma StreamSucceeds(env: Env, w: World, from: bytes, to: seq<bytes>, chunks: seq<bytes>, whole: bool)
    requires Reliable(w)
    ensures Succeeds(w, SendMailStream(env, w, from, to, chunks, whole),
                     && ValidEnvelope(from, to) && StateAllows(w) && PolicyAllows(env, from, to, env.usizeMax)
                     && whole, |to|)
  {
    hide SendMailStream, Verdict, Succeeds, ValidEnvelope, PolicyAllows, HearEnvelope, StoppedBy;
    var out := SendMailStream(env, w, from, to, chunks, whole);
    var allowed := ValidEnvelope(from, to) && StateAllows(w) && PolicyAllows(env, from, to, env.usizeMax);
    if whole {
      SendMailStreamVerdict(env, w, from, to, chunks);
      VerdictMeans(w, out, allowed, |to|);
    } else {
      if allowed {
        BrokenSourceVerdict(env, w, from, to, chunks);
      } else {
        StreamRefused(env, w, from, to, chunks);
      }
      NeverSucceeds(w, out, |to|);
    }
  }

  lemma StreamRefused(env: Env, w: World, from: bytes, to: seq<bytes>, chunks: seq<bytes>)
    requires !(ValidEnvelope(from, to) && StateAllows(w) && PolicyAllows(env, from, to, env.usizeMax))
    ensures var out := SendMailStream(env, w, from, to, chunks, false);
      out.w == w && out.r.Err? && out.r.error.IsRefusal()
  {
    hide RunEnvelope, StreamBody, ValidEnvelope, FormatMailFrom;
  }

  // A recipient that is refused: after a 2xx to MAIL FROM and to the k recipients before it, its
  // reply is not a 2xx. The send fails with this reply, and the log says which it was.
  ghost predicate RejectedAt(w: World, out: Out<SendOutcome>, codes: seq<nat>, k: nat)
    requires |codes| == k + 2
  {
    && out.w.audit == w.audit + ([MailFromAccepted(codes[0])] + (AcceptedEvents(codes[1..k + 1])
         + [RecipientRejected(codes[k + 1]), SessionAborted]))
    && out.w.state == Closed && out.r.Err?
    && out.r.error.UnexpectedCode? && out.r.error.during == SmtpOp.RcptTo && out.r.error.actual == codes[k + 1]
  }

  // The recipient at k is the first that is not answered by a 2xx.
  predicate RejectsAt(codes: seq<nat>, k: nat)
    requires |codes| == k + 2
  {
    Positive(codes[0]) && AllPositive(codes[1..k + 1]) && !Positive(codes[k + 1])
  }

  lemma VerdictRejects(w: World, out: Out<SendOutcome>, n: nat, k: nat)
    requires Verdict(w, out, true, n)
    requires k < n && TakeCodes(w.net.input, w.net.ending, k + 2).Some?
    requires RejectsAt(TakeCodes(w.net.input, w.net.ending, k + 2).value.0, k)
    ensures RejectedAt(w, out, TakeCodes(w.net.input, w.net.ending, k + 2).value.0, k)
  {
    hide TakeReplyFrom, HearRcpts, Positive, AllPositive, AcceptedEvents, Tells;
    var stream, ending := w.net.input, w.net.ending;
    var mail := TakeReply(stream, ending);
    var codes := TakeCodes(stream, ending, k + 2).value.0;
    var more := TakeCodes(mail.rest, ending, k + 1).value.0;
    assert codes == [mail.code] + more;
    assert codes[1..k + 1] == more[..k];
    FirstRejection(mail.rest, ending, n, k);
  }

  lemma SendRejected(env: Env, w: World, from: bytes, to: seq<bytes>, body: bytes, chunks: seq<bytes>, k: nat)
    requires Reliable(w) && StateAllows(w)
    requires k < |to| && TakeCodes(w.net.input, w.net.ending, k + 2).Some?
    requires RejectsAt(TakeCodes(w.net.input, w.net.ending, k + 2).value.0, k)
    ensures var codes := TakeCodes(w.net.input, w.net.ending, k + 2).value.0;
      && (ValidEnvelope(from, to) && PolicyAllows(env, from, to, |body|) ==>
            RejectedAt(w, SendMail(env, w, from, to, body), codes, k))
      && (ValidEnvelopeUtf8(from, to) && Advertises(w.capabilities, KW_SMTPUTF8)
            && PolicyAllows(env, from, to, |body|) ==>
            RejectedAt(w, SendMailUtf8(env, w, from, to, body), codes, k))
      && (ValidEnvelope(from, to) && PolicyAllows(env, from, to, env.usizeMax) ==>
            RejectedAt(w, SendMailStream(env, w, from, to, chunks, true), codes, k))
  {
    hide SendMail, SendMailUtf8, SendMailStream, ValidEnvelope, ValidEnvelopeUtf8, PolicyAllows, Advertises, RejectsAt,
      Verdict, RejectedAt, TakeCodes;
    SendMailVerdict(env, w, from, to, body);
    SendMailUtf8Verdict(env, w, from, to, body);
    SendMailStreamVerdict(env, w, from, to, chunks);
    if ValidEnvelope(from, to) && PolicyAllows(env, from, to, |body|) {
      VerdictRejects(w, SendMail(env, w, from, to, body), |to|, k);
    }
    if ValidEnvelopeUtf8(from, to) && Advertises(w.capabilities, KW_SMTPUTF8) && PolicyAllows(env, from, to, |body|) {
      VerdictRejects(w, SendMailUtf8(env, w, from, to, body), |to|, k);
    }
    if ValidEnvelope(from, to) && PolicyAllows(env, from, to, env.usizeMax) {
      VerdictRejects(w, SendMailStream(env, w, from, to, chunks, true), |to|, k);
    }
  }

  // Whatever the network does, a send that writes anything has accepted addresses only, at least
  // one recipient, a state that allows it and all three of the application's checks behind it.
  ghost predicate SentSomething(w: World, w': World) {
    w'.net.trace != w.net.trace
  }

  lemma OnlyAllowedSent(env: Env, w: World, from: bytes, to: seq<bytes>, body: bytes, chunks: seq<bytes>, whole: bool)
    ensures SentSomething(w, SendMail(env, w, from, to, body).w) ==>
      && ValidAddress(from) && to != [] && (forall i :: 0 <= i < |to| ==> ValidAddress(to[i]))
      && StateAllows(w) && PolicyAllows(env, from, to, |body|)
    ensures SentSomething(w, SendMailStream(env, w, from, to, chunks, whole).w) ==>
      && ValidAddress(from) && to != [] && (forall i :: 0 <= i < |to| ==> ValidAddress(to[i]))
      && StateAllows(w) && PolicyAllows(env, from, to, env.usizeMax)
    ensures SentSomething(w, SendMailUtf8(env, w, from, to, body).w) ==>
      && ValidAddressUtf8(from) && to != [] && (forall i :: 0 <= i < |to| ==> ValidAddressUtf8(to[i]))
      && StateAllows(w) && PolicyAllows(env, from, to, |body|) && Advertises(w.capabilities, KW_SMTPUTF8)
  {
    hide RunEnvelope, WriteAll, StreamBody, FinishMessage, ValidAddress, ValidAddressUtf8, Advertises,
      DotStuffing.Payload, FormatMailFrom, FormatMailFromUtf8;
  }
}
