// What sends log, and the language every audit log belongs to.

module AuditLog {
  import opened Octets
  import opened Errors
  import opened Session
  import opened Commands
  import opened World
  import opened QuietSteps
  import DotStuffing

  // ---------------------------------------------------------------------------
  // What a send logs
  // ---------------------------------------------------------------------------

  predicate AllAccepted(d: seq<Event>) {
    forall i :: 0 <= i < |d| ==> d[i].RecipientAccepted?
  }

  // A front part of MailFromAccepted, n times RecipientAccepted, MessageAccepted.
  predicate SendPrefix(d: seq<Event>, n: nat) {
    && |d| <= n + 2
    && (|d| > 0 ==> d[0].MailFromAccepted?)
    && (forall i :: 1 <= i < |d| && i <= n ==> d[i].RecipientAccepted?)
    && (|d| == n + 2 ==> d[n + 1].MessageAccepted?)
  }

  predicate SendComplete(d: seq<Event>, n: nat) {
    SendPrefix(d, n) && |d| == n + 2
  }

  predicate RejectionOnly(d: seq<Event>) {
    d == [] || (|d| == 1 && d[0].RecipientRejected?)
  }

  // A proper front part, then SessionAborted, with a RecipientRejected between the two only
  // while recipients are being named.
  ghost predicate SendAborted(d: seq<Event>, n: nat) {
    exists front, rejected ::
      && d == front + rejected + [SessionAborted]
      && SendPrefix(front, n) && |front| < n + 2
      && RejectionOnly(rejected) && (rejected != [] ==> 1 <= |front| <= n)
  }

  // The log of naming n recipients.
  predicate RcptLog(w: World, out: Out<()>, n: nat, accepted: seq<Event>, rejected: seq<Event>) {
    && AllAccepted(accepted) && RejectionOnly(rejected)
    && match out.r
       case Ok(_) => SameSession(w.(audit := w.audit + accepted), out.w) && |accepted| == n && rejected == []
       case Err(e) => |accepted| < n && GivenUp(w.(audit := w.audit + accepted + rejected), out.w, e)
  }

  lemma RcptReplyLog(w: World) returns (accepted: seq<Event>, rejected: seq<Event>)
    requires w.state != Closed
    ensures RcptLog(w, ReadRcptReply(w), 1, accepted, rejected)
  {
    hide ReadReply;
    ReadReplyQuiet(w);
    var r := ReadReply(w);
    accepted, rejected := [], [];
    if r.r.Ok? {
      if r.r.value.Class() == 2 {
        accepted := [RecipientAccepted(r.r.value.code)];
      } else {
        rejected := [RecipientRejected(r.r.value.code)];
      }
    }
    assert w.audit + accepted == w.audit + accepted + [];
  }

  lemma RcptLogCons(
      w: World, out1: Out<()>, out: Out<()>, n: nat, a: seq<Event>, r: seq<Event>, a': seq<Event>, r': seq<Event>)
    requires RcptLog(w, out1, 1, a, r)
    requires if out1.r.Ok? then RcptLog(out1.w, out, n, a', r') else out == out1 && a' == [] && r' == r
    ensures RcptLog(w, out, n + 1, a + a', r')
  {
    assert w.audit + a + a' == w.audit + (a + a');
    assert w.audit + a + a' + r' == w.audit + (a + a') + r';
    assert a + [] == a;
  }

  lemma {:induction false} RcptRepliesLog(w: World, count: nat)
      returns (accepted: seq<Event>, rejected: seq<Event>)
    requires w.state != Closed
    ensures RcptLog(w, ReadRcptReplies(w, count), count, accepted, rejected)
    decreases count
  {
    hide ReadRcptReply, RcptLog;
    if count == 0 {
      accepted, rejected := [], [];
      EmptyRcptLog(w);
    } else {
      var a, r := RcptReplyLog(w);
      RcptLogState(w, ReadRcptReply(w), 1, a, r);
      var out1 := ReadRcptReply(w);
      var a', r' := [], r;
      if out1.r.Ok? {
        a', r' := RcptRepliesLog(out1.w, count - 1);
      }
      RcptLogCons(w, out1, ReadRcptReplies(w, count), count - 1, a, r, a', r');
      accepted, rejected := a + a', r';
    }
  }

  lemma EmptyRcptLog(w: World)
    ensures RcptLog(w, Out(w, Ok(())), 0, [], [])
  {
    assert w.audit + [] == w.audit;
  }

  lemma RcptLogState(w: World, out: Out<()>, n: nat, a: seq<Event>, r: seq<Event>)
    requires RcptLog(w, out, n, a, r)
    ensures out.r.Ok? ==> out.w.state == w.state
  {
  }

  lemma {:induction false} SendRcptsLog(w: World, to: seq<bytes>)
      returns (accepted: seq<Event>, rejected: seq<Event>)
    requires w.state != Closed
    ensures RcptLog(w, SendRcpts(w, to), |to|, accepted, rejected)
    decreases |to|
  {
    hide WriteAll, ReadRcptReply, RcptLog;
    if to == [] {
      accepted, rejected := [], [];
      EmptyRcptLog(w);
    } else {
      var line := FormatRcptTo(to[0]);
      WriteAllQuiet(w, line);
      var s := WriteAll(w, line);
      if s.r.Err? {
        accepted, rejected := [], [];
        FailedRcptLog(w, s, |to|);
      } else {
        var a, r := RcptReplyLog(s.w);
        var out1 := ReadRcptReply(s.w);
        RcptLogState(s.w, out1, 1, a, r);
        RcptLogFrom(w, s.w, out1, a, r);
        var a', r' := [], r;
        if out1.r.Ok? {
          a', r' := SendRcptsLog(out1.w, to[1..]);
        }
        RcptLogCons(w, out1, SendRcpts(w, to), |to| - 1, a, r, a', r');
        accepted, rejected := a + a', r';
      }
    }
  }

  lemma FailedRcptLog(w: World, out: Out<()>, n: nat)
    requires out.r.Err? && GivenUp(w, out.w, out.r.error) && n > 0
    ensures RcptLog(w, out, n, [], [])
  {
    assert w.audit + [] + [] == w.audit;
  }

  lemma RcptLogFrom(w: World, w': World, out: Out<()>, a: seq<Event>, r: seq<Event>)
    requires SameSession(w, w') && RcptLog(w', out, 1, a, r)
    ensures RcptLog(w, out, 1, a, r)
  {
  }

  // What an envelope logs, whichever path it takes.
  ghost predicate EnvelopeLog(w: World, out: Out<()>, n: nat, d: seq<Event>) {
    && out.w.audit == w.audit + d
    && match out.r
       case Ok(_) =>
         && SameSession(w.(state := SessionState.Data, audit := w.audit + d), out.w)
         && SendPrefix(d, n) && |d| == n + 1
       case Err(e) => out.w.state == Closed && !e.IsRefusal() && SendAborted(d, n)
  }

  lemma AbortedBefore(w: World, out: Out<()>, n: nat)
    requires out.r.Err? && GivenUp(w, out.w, out.r.error)
    ensures EnvelopeLog(w, out, n, [SessionAborted])
  {
    var none: seq<Event> := [];
    assert [SessionAborted] == none + none + [SessionAborted];
    assert SendPrefix(none, n);
  }

  // The recipients, then the reply to DATA.
  lemma EnvelopeTail(w: World, mail: nat, rcpts: Out<()>, out: Out<()>, n: nat, a: seq<Event>, r: seq<Event>)
      returns (d: seq<Event>)
    requires RcptLog(w.(audit := w.audit + [MailFromAccepted(mail)]), rcpts, n, a, r)
    requires if rcpts.r.Err? then out == rcpts
      else if out.r.Ok? then SameSession(rcpts.w.(state := SessionState.Data), out.w)
      else GivenUp(rcpts.w, out.w, out.r.error)
    ensures EnvelopeLog(w, out, n, d)
  {
    var front := [MailFromAccepted(mail)] + a;
    assert SendPrefix(front, n);
    assert w.audit + [MailFromAccepted(mail)] + a == w.audit + front;
    if rcpts.r.Err? {
      d := front + r + [SessionAborted];
      assert w.audit + [MailFromAccepted(mail)] + a + r + [SessionAborted] == w.audit + d;
      assert SendAborted(d, n);
    } else if out.r.Err? {
      d := front + [] + [SessionAborted];
      assert w.audit + front + [SessionAborted] == w.audit + d;
      assert SendAborted(d, n);
    } else {
      d := front;
    }
  }

  lemma PipelinedLog(w: World, line: bytes, to: seq<bytes>) returns (d: seq<Event>)
    requires w.state == SessionState.MailFrom
    ensures EnvelopeLog(w, PipelinedEnvelope(w, line, to), |to|, d)
  {
    hide WriteAll, Flush, ExpectClass, ExpectCode, ReadRcptReplies, RcptLog, EnvelopeLog;
    var out := PipelinedEnvelope(w, line, to);
    var w0 := w.(state := SessionState.Data);
    var text := PipelineText(line, to);
    WriteAllQuiet(w0, text);
    var s1 := WriteAll(w0, text);
    if s1.r.Err? {
      AbortedBefore(w, out, |to|);
      return [SessionAborted];
    }
    FlushQuiet(s1.w);
    var s2 := Flush(s1.w);
    if s2.r.Err? {
      AbortedBefore(w, out, |to|);
      return [SessionAborted];
    }
    ExpectQuiet(s2.w, 2, SmtpOp.MailFrom);
    var m := ExpectClass(s2.w, 2, SmtpOp.MailFrom);
    if m.r.Err? {
      AbortedBefore(w, out, |to|);
      return [SessionAborted];
    }
    var w1 := Audit(m.w, MailFromAccepted(m.r.value.code));
    var a, r := RcptRepliesLog(w1, |to|);
    var rcpts := ReadRcptReplies(w1, |to|);
    RcptLogState(w1, rcpts, |to|, a, r);
    if rcpts.r.Ok? {
      ExpectQuiet(rcpts.w, 354, SmtpOp.Data);
    }
    EnvelopeLogOf(w, w0, m.r.value.code, w1, rcpts, out, |to|, a, r);
    d := EnvelopeTail(w0, m.r.value.code, rcpts, out, |to|, a, r);
    EnvelopeLogFrom(w, w0, out, |to|, d);
  }

  lemma EnvelopeLogOf(
      w: World, w0: World, mail: nat, w1: World, rcpts: Out<()>, out: Out<()>, n: nat, a: seq<Event>, r: seq<Event>)
    requires SameSession(w0.(audit := w0.audit + [MailFromAccepted(mail)]), w1)
    requires RcptLog(w1, rcpts, n, a, r)
    ensures RcptLog(w0.(audit := w0.audit + [MailFromAccepted(mail)]), rcpts, n, a, r)
    ensures rcpts.r.Ok? ==> rcpts.w.state == w0.state
  {
  }

  lemma EnvelopeLogFrom(w: World, w0: World, out: Out<()>, n: nat, d: seq<Event>)
    requires EnvelopeLog(w0, out, n, d) && SameSession(w.(state := w0.state), w0)
    ensures EnvelopeLog(w, out, n, d)
  {
  }

  lemma SequentialLog(w: World, line: bytes, to: seq<bytes>) returns (d: seq<Event>)
    requires w.state == SessionState.MailFrom
    ensures EnvelopeLog(w, SequentialEnvelope(w, line, to), |to|, d)
  {
    hide WriteAll, ExpectClass, ExpectCode, SendRcpts, RcptLog, EnvelopeLog;
    var out := SequentialEnvelope(w, line, to);
    WriteAllQuiet(w, line);
    var s1 := WriteAll(w, line);
    if s1.r.Err? {
      AbortedBefore(w, out, |to|);
      return [SessionAborted];
    }
    ExpectQuiet(s1.w, 2, SmtpOp.MailFrom);
    var m := ExpectClass(s1.w, 2, SmtpOp.MailFrom);
    if m.r.Err? {
      AbortedBefore(w, out, |to|);
      return [SessionAborted];
    }
    var w0 := w.(state := SessionState.RcptTo);
    var w1 := Audit(m.w, MailFromAccepted(m.r.value.code)).(state := SessionState.RcptTo);
    var a, r := SendRcptsLog(w1, to);
    var rcpts := SendRcpts(w1, to);
    EnvelopeLogOf(w, w0, m.r.value.code, w1, rcpts, out, |to|, a, r);
    if rcpts.r.Ok? {
      var w2 := rcpts.w.(state := SessionState.Data);
      WriteAllQuiet(w2, FormatCommand(DATA));
      var s2 := WriteAll(w2, FormatCommand(DATA));
      if s2.r.Ok? {
        ExpectQuiet(s2.w, 354, SmtpOp.Data);
      }
    }
    d := EnvelopeTail(w0, m.r.value.code, rcpts, out, |to|, a, r);
    EnvelopeLogFrom(w, w0, out, |to|, d);
  }

  lemma RunEnvelopeLog(w: World, line: bytes, to: seq<bytes>) returns (d: seq<Event>)
    requires w.state in {Authentication, SessionState.MailFrom}
    ensures EnvelopeLog(w, RunEnvelope(w, line, to), |to|, d)
  {
    hide PipelinedEnvelope, SequentialEnvelope, EnvelopeLog, AdvertisesPipelining;
    var w0 := w.(state := SessionState.MailFrom);
    if AdvertisesPipelining(w0.capabilities) {
      d := PipelinedLog(w0, line, to);
    } else {
      d := SequentialLog(w0, line, to);
    }
    EnvelopeLogFrom(w, w0, RunEnvelope(w, line, to), |to|, d);
  }

  // What a whole send does: it completes, or it is refused before anything happens, or the
  // session is given up.
  ghost predicate SendLog<T>(w: World, out: Out<T>, n: nat, d: seq<Event>) {
    && out.w.audit == w.audit + d
    && match out.r
       case Ok(_) =>
         SameSession(w.(state := SessionState.MailFrom, audit := w.audit + d), out.w) && SendComplete(d, n)
       case Err(e) =>
         || (out.w == w && d == [] && e in {InvalidInput(BadArgument), InvalidInput(NotAllowedInState), PolicyRejected})
         || (out.w.state == Closed && !e.IsRefusal() && SendAborted(d, n))
  }

  lemma RefusedLog<T>(w: World, out: Out<T>, n: nat)
    requires out.w == w
    requires out.r.Err? && out.r.error in {InvalidInput(BadArgument), InvalidInput(NotAllowedInState), PolicyRejected}
    ensures SendLog(w, out, n, [])
  {
    assert w.audit + [] == w.audit;
  }

  lemma {:induction false} StreamBodyQuiet(w: World, fed: bytes, chunks: seq<bytes>, whole: bool)
    requires w.state != Closed
    ensures Quiet(w, StreamBody(w, fed, chunks, whole))
    decreases |chunks|
  {
    hide WriteAll, DotStuffing.StuffedChunk, DotStuffing.Terminator;
    var data :=
      if chunks == [] then DotStuffing.Terminator(EndsWithCrlf(fed)) else DotStuffing.StuffedChunk(fed, chunks[0]);
    WriteAllQuiet(w, data);
    if chunks != [] && WriteAll(w, data).r.Ok? {
      StreamBodyQuiet(WriteAll(w, data).w, fed + chunks[0], chunks[1..], whole);
    }
  }

  // From the go-ahead to the final reply.
  lemma MessageLog(w: World, envelope: Out<()>, body: Out<()>, n: nat, d: seq<Event>)
      returns (d': seq<Event>)
    requires EnvelopeLog(w, envelope, n, d) && envelope.r.Ok? && Quiet(envelope.w, body)
    ensures body.r.Ok? ==> SendLog(w, FinishMessage(body.w), n, d')
    ensures body.r.Err? ==> SendLog(w, body, n, d')
  {
    hide ExpectClass;
    if body.r.Ok? {
      ExpectQuiet(body.w, 2, SmtpOp.Data);
      var r := ExpectClass(body.w, 2, SmtpOp.Data);
      if r.r.Ok? {
        d' := d + [MessageAccepted(r.r.value.code)];
        return;
      }
    }
    d' := d + [] + [SessionAborted];
    assert SendAborted(d', n);
  }

  lemma FailedEnvelope<T>(w: World, envelope: Out<()>, out: Out<T>, n: nat, d: seq<Event>)
    requires EnvelopeLog(w, envelope, n, d) && envelope.r.Err? && out == Out(envelope.w, Err(envelope.r.error))
    ensures SendLog(w, out, n, d)
  {
  }

  lemma SendMailLog(env: Env, w: World, from: bytes, to: seq<bytes>, body: bytes) returns (d: seq<Event>)
    ensures SendLog(w, SendMail(env, w, from, to, body), |to|, d)
  {
    hide WriteAll, RunEnvelope, FinishMessage, DotStuffing.Payload, ValidEnvelope, EnvelopeLog, SendLog;
    var out := SendMail(env, w, from, to, body);
    var allowed := w.state in {Authentication, SessionState.MailFrom};
    if !ValidEnvelope(from, to) || !allowed || CheckPolicy(env, w, from, to, |body|).r.Err? {
      RefusedLog(w, out, |to|);
      return [];
    }
    d := RunEnvelopeLog(w, FormatMailFrom(from), to);
    var envelope := RunEnvelope(w, FormatMailFrom(from), to);
    if envelope.r.Err? {
      FailedEnvelope(w, envelope, out, |to|, d);
      return;
    }
    EnvelopeOk(w, envelope, |to|, d);
    WriteAllQuiet(envelope.w, DotStuffing.Payload(body));
    d := MessageLog(w, envelope, WriteAll(envelope.w, DotStuffing.Payload(body)), |to|, d);
    SendLogOf(w, WriteAll(envelope.w, DotStuffing.Payload(body)), out, |to|, d);
  }

  lemma EnvelopeOk(w: World, envelope: Out<()>, n: nat, d: seq<Event>)
    requires EnvelopeLog(w, envelope, n, d) && envelope.r.Ok?
    ensures envelope.w.state == SessionState.Data
  {
  }

  // A failed step is the failed send, whatever the type of its result.
  lemma SendLogOf<S, T>(w: World, step: Out<S>, out: Out<T>, n: nat, d: seq<Event>)
    requires step.r.Err? && out == Out(step.w, Err(step.r.error)) ==> SendLog(w, step, n, d)
    ensures step.r.Err? && out == Out(step.w, Err(step.r.error)) ==> SendLog(w, out, n, d)
  {
  }

  lemma SendMailUtf8Log(env: Env, w: World, from: bytes, to: seq<bytes>, body: bytes) returns (d: seq<Event>)
    ensures SendLog(w, SendMailUtf8(env, w, from, to, body), |to|, d)
  {
    hide WriteAll, RunEnvelope, FinishMessage, DotStuffing.Payload, ValidEnvelopeUtf8, EnvelopeLog, SendLog,
      Advertises;
    var out := SendMailUtf8(env, w, from, to, body);
    var allowed := w.state in {Authentication, SessionState.MailFrom};
    if !ValidEnvelopeUtf8(from, to) || !allowed {
      RefusedLog(w, out, |to|);
      return [];
    }
    if !Advertises(w.capabilities, KW_SMTPUTF8) {
      NotAdvertisedLog(w, out, |to|);
      return [SessionAborted];
    }
    if CheckPolicy(env, w, from, to, |body|).r.Err? {
      RefusedLog(w, out, |to|);
      return [];
    }
    d := RunEnvelopeLog(w, FormatMailFromUtf8(from), to);
    var envelope := RunEnvelope(w, FormatMailFromUtf8(from), to);
    if envelope.r.Err? {
      FailedEnvelope(w, envelope, out, |to|, d);
      return;
    }
    EnvelopeOk(w, envelope, |to|, d);
    WriteAllQuiet(envelope.w, DotStuffing.Payload(body));
    d := MessageLog(w, envelope, WriteAll(envelope.w, DotStuffing.Payload(body)), |to|, d);
    SendLogOf(w, WriteAll(envelope.w, DotStuffing.Payload(body)), out, |to|, d);
  }

  lemma NotAdvertisedLog<T>(w: World, out: Out<T>, n: nat)
    requires out.r.Err? && GivenUp(w, out.w, out.r.error)
    ensures SendLog(w, out, n, [SessionAborted])
  {
    AbortedBefore(w, Out(out.w, Err(out.r.error)), n);
  }

  lemma SendMailStreamLog(env: Env, w: World, from: bytes, to: seq<bytes>, chunks: seq<bytes>, whole: bool)
      returns (d: seq<Event>)
    ensures SendLog(w, SendMailStream(env, w, from, to, chunks, whole), |to|, d)
  {
    hide StreamBody, RunEnvelope, FinishMessage, ValidEnvelope, EnvelopeLog, SendLog;
    var out := SendMailStream(env, w, from, to, chunks, whole);
    var allowed := w.state in {Authentication, SessionState.MailFrom};
    if !ValidEnvelope(from, to) || !allowed || CheckPolicy(env, w, from, to, env.usizeMax).r.Err? {
      RefusedLog(w, out, |to|);
      return [];
    }
    d := RunEnvelopeLog(w, FormatMailFrom(from), to);
    var envelope := RunEnvelope(w, FormatMailFrom(from), to);
    if envelope.r.Err? {
      FailedEnvelope(w, envelope, out, |to|, d);
      return;
    }
    EnvelopeOk(w, envelope, |to|, d);
    StreamBodyQuiet(envelope.w, [], chunks, whole);
    d := MessageLog(w, envelope, StreamBody(envelope.w, [], chunks, whole), |to|, d);
    SendLogOf(w, StreamBody(envelope.w, [], chunks, whole), out, |to|, d);
  }

  // ---------------------------------------------------------------------------
  // The language of the audit log
  // ---------------------------------------------------------------------------

  datatype Phase =
    | Start | Opened | Greeted | Ready | Sending | InMail(accepted: nat) | Refused | Aborted | Completed | Illegal

  function NextPhase(p: Phase, e: Event): Phase {
    match (p, e)
    case (Start, Connected) => Opened
    case (Opened, GreetingReceived(_)) => Greeted
    case (Greeted, EhloCompleted) => Ready
    case (Ready, TlsUpgraded) => Greeted
    case (Ready, AuthCompleted(_)) => Sending
    case (Ready, MailFromAccepted(_)) => InMail(0)
    case (Sending, MailFromAccepted(_)) => InMail(0)
    case (InMail(k), RecipientAccepted(_)) => InMail(k + 1)
    case (InMail(_), RecipientRejected(_)) => Refused
    case (InMail(k), MessageAccepted(_)) => if k > 0 then Sending else Illegal
    case (Ready, QuitCompleted) => Completed
    case (Sending, QuitCompleted) => Completed
    case (Opened, SessionAborted) => Aborted
    case (Greeted, SessionAborted) => Aborted
    case (Ready, SessionAborted) => Aborted
    case (Sending, SessionAborted) => Aborted
    case (InMail(_), SessionAborted) => Aborted
    case (Refused, SessionAborted) => Aborted
    case _ => Illegal
  }

  // The phase a log ends in. Nothing leads out of Illegal, and only there after Aborted or
  // Completed, so a log that does not end there is legal throughout.
  function PhaseOf(log: seq<Event>): Phase {
    if log == [] then Start else NextPhase(PhaseOf(log[..|log| - 1]), log[|log| - 1])
  }

  lemma PhaseSnoc(log: seq<Event>, e: Event)
    ensures PhaseOf(log + [e]) == NextPhase(PhaseOf(log), e)
  {
    assert (log + [e])[..|log|] == log;
  }

  // What the session state says about the log, between two calls.
  predicate Consistent(w: World) {
    match w.state
    case Authentication => PhaseOf(w.audit) == Ready
    case MailFrom => PhaseOf(w.audit) == Sending
    case Closed => PhaseOf(w.audit) == Aborted
    case _ => false
  }

  lemma {:induction false} FrontPhase(log: seq<Event>, d: seq<Event>, n: nat)
    requires PhaseOf(log) in {Ready, Sending} && SendPrefix(d, n) && n > 0
    ensures PhaseOf(log + d) ==
      if d == [] then PhaseOf(log) else if |d| == n + 2 then Sending else InMail(|d| - 1)
    decreases |d|
  {
    hide PhaseOf;
    if d == [] {
      assert log + d == log;
    } else {
      var init, e := d[..|d| - 1], d[|d| - 1];
      assert SendPrefix(init, n);
      FrontPhase(log, init, n);
      assert log + d == log + init + [e];
      PhaseSnoc(log + init, e);
    }
  }

  lemma AbortedPhase(log: seq<Event>, d: seq<Event>, n: nat)
    requires PhaseOf(log) in {Ready, Sending} && SendAborted(d, n) && n > 0
    ensures PhaseOf(log + d) == Aborted
  {
    hide PhaseOf;
    var front, rejected :| d == front + rejected + [SessionAborted]
      && SendPrefix(front, n) && |front| < n + 2
      && RejectionOnly(rejected) && (rejected != [] ==> 1 <= |front| <= n);
    FrontPhase(log, front, n);
    if rejected == [] {
      assert log + d == log + front + [SessionAborted];
      PhaseSnoc(log + front, SessionAborted);
    } else {
      assert log + d == log + front + [rejected[0]] + [SessionAborted];
      PhaseSnoc(log + front, rejected[0]);
      PhaseSnoc(log + front + [rejected[0]], SessionAborted);
    }
  }
}
